/** PrintReportForm11: the user report laid out on a worksheet. The sheet is
    named after the user; row 1 holds five fixed headers, row i + 2 holds
    report row i, and column 5 joins the row's co-author names with ", ". */
module Sheet {
  import opened Tables
  import opened Linq
  import opened UserReport
  import opened CollaboratorAssembler

  datatype CellValue = Text(text: string) | Number(number: int)

  /** The worksheet's cells, addressed (row, column) from 1 as EPPlus does. */
  class Worksheet {
    const name: string
    var cells: map<(int, int), CellValue>

    constructor (name: string)
      ensures this.name == name && cells == map[]
    {
      this.name := name;
      cells := map[];
    }

    /** ws.Cells[row, col].Value = v */
    method SetValue(row: int, col: int, v: CellValue)
      modifies this
      ensures cells == old(cells)[(row, col) := v]
    {
      cells := cells[(row, col) := v];
    }

    /** ws.Cells[row, col].Value += s on an empty or text cell: the old text, then s. */
    method AppendText(row: int, col: int, s: string)
      requires (row, col) in cells ==> cells[(row, col)].Text?
      modifies this
      ensures cells == old(cells)[(row, col) := Text(Shown(old(cells), row, col) + s)]
    {
      cells := cells[(row, col) := Text(Shown(cells, row, col) + s)];
    }
  }

  /** A text cell's value as `object + string` sees it: an empty cell is "". */
  function Shown(cells: map<(int, int), CellValue>, row: int, col: int): (r: string)
    requires (row, col) in cells ==> cells[(row, col)].Text?
    ensures (row, col) in cells ==> cells[(row, col)] == Text(r)
    ensures (row, col) !in cells ==> r == ""
  {
    if (row, col) in cells then cells[(row, col)].text else ""
  }

  const TitlePrefix: string := "Публикации "

  const Headers: seq<string> := ["Назва", "Характер роботи", "Вихідні дані", "Обсяг (стор.)", "Співавтори"]

  /** The worksheet name: last name and initials; Substring(0, 1) faults on an empty name. */
  function Title(user: User): (r: Result<string>)
    ensures r.Ok? <==> |user.firstName| > 0 && |user.thirdName| > 0
    ensures r.Err? ==> r.fault == EmptyName
  {
    if |user.firstName| == 0 || |user.thirdName| == 0 then Err(EmptyName)
    else Ok(TitlePrefix + user.lastName + " " + user.firstName[..1] + ". " + user.thirdName[..1] + ".")
  }

  /** The title can be read back: the prefix, the whole last name, then the two initials. */
  lemma TitleReadsBack(user: User)
    requires Title(user).Ok?
    ensures var t := Title(user).value;
      |t| == |TitlePrefix| + |user.lastName| + 6 &&
      t[..|TitlePrefix|] == TitlePrefix &&
      t[|TitlePrefix|..|t| - 6] == user.lastName &&
      t[|t| - 5] == user.firstName[0] && t[|t| - 2] == user.thirdName[0] &&
      t[|t| - 6] == ' ' && t[|t| - 4..|t| - 2] == ". " && t[|t| - 1] == '.'
  {
    var t := Title(user).value;
    var n := |TitlePrefix| + |user.lastName|;
    assert t == (TitlePrefix + user.lastName) + (" " + user.firstName[..1] + ". " + user.thirdName[..1] + ".");
    assert (TitlePrefix + user.lastName)[..|TitlePrefix|] == TitlePrefix;
    assert t[|TitlePrefix|..n] == (TitlePrefix + user.lastName)[|TitlePrefix|..];
  }

  /** The co-author cell: the first name, then ", " and each further name. */
  function JoinNames(authors: seq<Author>): (r: string)
    requires |authors| > 0
  {
    if |authors| == 1 then authors[0].name
    else JoinNames(authors[..|authors| - 1]) + ", " + authors[|authors| - 1].name
  }

  /** Each further co-author adds ", " and their name to the cell. */
  lemma JoinNamesExtend(authors: seq<Author>, j: nat)
    requires 1 <= j < |authors|
    ensures JoinNames(authors[..j + 1]) == JoinNames(authors[..j]) + (", " + authors[j].name)
  {
    assert authors[..j + 1][..j] == authors[..j];
    var a := JoinNames(authors[..j]);
    assert a + ", " + authors[j].name == a + (", " + authors[j].name);
  }

  /** Every name lands in the cell, each separated from the next by ", ". */
  lemma {:induction false} JoinNamesLength(authors: seq<Author>)
    requires |authors| > 0
    ensures |JoinNames(authors)| == NamesLength(authors) + 2 * (|authors| - 1)
  {
    if |authors| > 1 {
      var init := authors[..|authors| - 1];
      JoinNamesLength(init);
      NamesLengthSnoc(init, authors[|authors| - 1]);
      assert init + [authors[|authors| - 1]] == authors;
    }
  }

  /** The total length of the names. */
  function NamesLength(authors: seq<Author>): (n: nat)
  {
    if authors == [] then 0 else |authors[0].name| + NamesLength(authors[1..])
  }

  lemma {:induction false} NamesLengthSnoc(authors: seq<Author>, a: Author)
    ensures NamesLength(authors + [a]) == NamesLength(authors) + |a.name|
  {
    if authors != [] {
      assert (authors + [a])[1..] == authors[1..] + [a];
      NamesLengthSnoc(authors[1..], a);
    } else {
      assert [] + [a] == [a];
    }
  }

  /** The first name opens the cell and the last one closes it. */
  lemma {:induction false} JoinNamesEnds(authors: seq<Author>)
    requires |authors| > 0
    ensures |authors[0].name| <= |JoinNames(authors)|
    ensures JoinNames(authors)[..|authors[0].name|] == authors[0].name
    ensures JoinNames(authors)[|JoinNames(authors)| - |authors[|authors| - 1].name|..] == authors[|authors| - 1].name
  {
    if |authors| > 1 {
      var init := authors[..|authors| - 1];
      JoinNamesEnds(init);
      assert init[0] == authors[0];
      var j := JoinNames(init);
      assert JoinNames(authors) == j + (", " + authors[|authors| - 1].name);
      assert (j + (", " + authors[|authors| - 1].name))[..|authors[0].name|] == j[..|authors[0].name|];
    }
  }

  /** The five cells of report row `row`, written on sheet row r. */
  function RowCells(r: int, row: PublicationForm11): (m: map<(int, int), CellValue>)
  {
    map[(r, 1) := Text(row.name), (r, 2) := Text(row.storingType), (r, 3) := Text(row.output),
        (r, 4) := Number(row.pages), (r, 5) := Text(CoauthorCell(row.collaborators))]
  }

  function HeaderCells(): (m: map<(int, int), CellValue>)
  {
    map[(1, 1) := Text(Headers[0]), (1, 2) := Text(Headers[1]), (1, 3) := Text(Headers[2]),
        (1, 4) := Text(Headers[3]), (1, 5) := Text(Headers[4])]
  }

  /** The cell grid of a report: the header row, then one row per report row; the first row
      without co-authors faults at Collaborators[0]. */
  function Grid(rows: seq<PublicationForm11>): (r: Result<map<(int, int), CellValue>>)
    ensures r.Ok? <==> forall i :: 0 <= i < |rows| ==> |rows[i].collaborators| > 0
    ensures r.Err? ==> exists i :: 0 <= i < |rows| && r.fault == NoCollaborators(i) &&
                                   rows[i].collaborators == [] &&
                                   forall j :: 0 <= j < i ==> |rows[j].collaborators| > 0
  {
    if rows == [] then Ok(HeaderCells())
    else
      var init := rows[..|rows| - 1];
      assert forall i :: 0 <= i < |init| ==> init[i] == rows[i];
      match Grid(init)
      case Err(e) => Err(e)
      case Ok(g) =>
        var last := rows[|rows| - 1];
        if last.collaborators == [] then Err(NoCollaborators(|rows| - 1))
        else Ok(g + RowCells(|rows| + 1, last))
  }

  /** Row i of the report sits on sheet row i + 2: name, character, output, pages, co-authors. */
  ghost predicate RowAt(g: map<(int, int), CellValue>, i: int, row: PublicationForm11)
  {
    (i + 2, 1) in g && g[(i + 2, 1)] == Text(row.name) &&
    (i + 2, 2) in g && g[(i + 2, 2)] == Text(row.storingType) &&
    (i + 2, 3) in g && g[(i + 2, 3)] == Text(row.output) &&
    (i + 2, 4) in g && g[(i + 2, 4)] == Number(row.pages) &&
    (i + 2, 5) in g && g[(i + 2, 5)] == Text(CoauthorCell(row.collaborators))
  }

  /** The sheet's layout: the five headers on row 1, every report row below them in order,
      and nothing outside rows 1 .. |rows| + 1 and columns 1 .. 5. */
  ghost predicate LaidOut(g: map<(int, int), CellValue>, rows: seq<PublicationForm11>)
  {
    (forall c :: 1 <= c <= 5 ==> (1, c) in g && g[(1, c)] == Text(Headers[c - 1])) &&
    (forall i :: 0 <= i < |rows| ==> RowAt(g, i, rows[i])) &&
    (forall k :: k in g ==> 1 <= k.0 <= |rows| + 1 && 1 <= k.1 <= 5)
  }

  lemma {:induction false} GridLayout(rows: seq<PublicationForm11>)
    requires Grid(rows).Ok?
    ensures LaidOut(Grid(rows).value, rows)
  {
    if rows == [] {
      HeaderLaidOut();
    } else {
      var init := rows[..|rows| - 1];
      var last := rows[|rows| - 1];
      assert forall i :: 0 <= i < |init| ==> init[i] == rows[i];
      GridStep(rows);
      GridLayout(init);
      AppendRowLaidOut(Grid(init).value, init, last);
      assert init + [last] == rows;
    }
  }

  /** A written grid is the grid of all rows but the last, plus the last row's cells. */
  lemma {:induction false} GridStep(rows: seq<PublicationForm11>)
    requires rows != [] && Grid(rows).Ok?
    ensures Grid(rows[..|rows| - 1]).Ok?
    ensures Grid(rows).value == Grid(rows[..|rows| - 1]).value + RowCells(|rows| + 1, rows[|rows| - 1])
  {
    var init := rows[..|rows| - 1];
    assert forall i :: 0 <= i < |init| ==> init[i] == rows[i];
    assert Grid(init).Ok?;
  }

  /** An empty report: the headers alone. */
  lemma HeaderLaidOut()
    ensures LaidOut(HeaderCells(), [])
  {
    var g := HeaderCells();
    assert forall c :: 1 <= c <= 5 ==> (1, c) in g && g[(1, c)] == Text(Headers[c - 1]);
  }

  /** Adding the cells of one more report row below a laid-out sheet lays out the longer report. */
  lemma AppendRowLaidOut(g: map<(int, int), CellValue>, rows: seq<PublicationForm11>, row: PublicationForm11)
    requires LaidOut(g, rows)
    ensures LaidOut(g + RowCells(|rows| + 2, row), rows + [row])
  {
    var g' := g + RowCells(|rows| + 2, row);
    var rows' := rows + [row];
    forall i | 0 <= i < |rows'|
      ensures RowAt(g', i, rows'[i])
    {
      if i < |rows| {
        assert rows'[i] == rows[i];
        RowAtKept(g, i, rows[i], |rows| + 2, row);
      }
    }
    forall k | k in g'
      ensures 1 <= k.0 <= |rows'| + 1 && 1 <= k.1 <= 5
    {
    }
  }

  /** A row's cells survive the writing of a different sheet row. */
  lemma RowAtKept(g: map<(int, int), CellValue>, i: int, row: PublicationForm11, r: int, other: PublicationForm11)
    requires RowAt(g, i, row) && r != i + 2
    ensures RowAt(g + RowCells(r, other), i, row)
  {
  }

  /** Laying out one more report row adds exactly its five cells. */
  lemma GridSnoc(rows: seq<PublicationForm11>, k: nat)
    requires k < |rows| && Grid(rows[..k]).Ok? && |rows[k].collaborators| > 0
    ensures Grid(rows[..k + 1]) == Ok(Grid(rows[..k]).value + RowCells(k + 2, rows[k]))
  {
    assert rows[..k + 1][..k] == rows[..k];
  }

  /** Writing a row's five cells one at a time is the same as adding RowCells. */
  lemma RowWrites(m: map<(int, int), CellValue>, r: int, row: PublicationForm11)
    requires |row.collaborators| > 0
    ensures m[(r, 1) := Text(row.name)][(r, 2) := Text(row.storingType)][(r, 3) := Text(row.output)]
             [(r, 4) := Number(row.pages)][(r, 5) := Text(JoinNames(row.collaborators))]
            == m + RowCells(r, row)
  {
  }

  lemma Overwrite<K, V>(m: map<K, V>, k: K, a: V, b: V)
    ensures m[k := a][k := b] == m[k := b]
  {
  }

  /** Once a prefix of the rows has faulted, the remaining rows cannot change the outcome. */
  lemma {:induction false} GridPrefixFault(rows: seq<PublicationForm11>, k: nat)
    requires k <= |rows| && Grid(rows[..k]).Err?
    ensures Grid(rows) == Grid(rows[..k])
    decreases |rows| - k
  {
    if k == |rows| {
      assert rows[..k] == rows;
    } else {
      assert rows[..k + 1][..k] == rows[..k];
      assert Grid(rows[..k + 1]) == Grid(rows[..k]);
      GridPrefixFault(rows, k + 1);
    }
  }

  /** What PrintReportForm11 produces for a user: the named sheet, or the exception it throws. */
  function Render(db: Database, user: User, labels: Labels): (r: Result<(string, map<(int, int), CellValue>)>)
  {
    var title :- Title(user);
    var grid :- Grid(Form11(db, user, labels));
    Ok((title, grid))
  }

  /** The sheet is written exactly when the user has both names and every report row has a
      co-author; it is then named by Title and laid out row by row; otherwise the empty name
      faults first. */
  lemma RenderLayout(db: Database, user: User, labels: Labels)
    ensures var rows := Form11(db, user, labels);
            Render(db, user, labels).Ok? <==>
              |user.firstName| > 0 && |user.thirdName| > 0 &&
              forall i :: 0 <= i < |rows| ==> |rows[i].collaborators| > 0
    ensures Render(db, user, labels).Ok? ==>
              Render(db, user, labels).value.0 == Title(user).value &&
              LaidOut(Render(db, user, labels).value.1, Form11(db, user, labels))
    ensures Title(user).Err? ==> Render(db, user, labels) == Err(EmptyName)
  {
    var rows := Form11(db, user, labels);
    if Grid(rows).Ok? {
      GridLayout(rows);
    }
  }

  /** Column 5 of sheet row r: the first co-author's name, then ", " and each further name. */
  method WriteCoauthors(ws: Worksheet, r: int, authors: seq<Author>)
    requires |authors| > 0
    modifies ws
    ensures ws.cells == old(ws.cells)[(r, 5) := Text(JoinNames(authors))]
  {
    ws.SetValue(r, 5, Text(authors[0].name));
    assert JoinNames(authors[..1]) == authors[0].name;
    var j := 1;
    while j < |authors|
      invariant 1 <= j <= |authors|
      invariant ws.cells == old(ws.cells)[(r, 5) := Text(JoinNames(authors[..j]))]
    {
      ghost var prev := ws.cells;
      assert Shown(prev, r, 5) == JoinNames(authors[..j]);
      ws.AppendText(r, 5, ", " + authors[j].name);
      JoinNamesExtend(authors, j);
      Overwrite(old(ws.cells), (r, 5), Text(JoinNames(authors[..j])), Text(JoinNames(authors[..j + 1])));
      j := j + 1;
    }
    assert authors[..j] == authors;
  }

  /** The sheet body of PrintReportForm11 for given report rows: the header row, then one
      sheet row per report row, stopping at the first row without co-authors. */
  method WriteSheet(title: string, datasource: seq<PublicationForm11>) returns (r: Result<Worksheet>)
    ensures r.Ok? <==> Grid(datasource).Ok?
    ensures r.Ok? ==> r.value.name == title && r.value.cells == Grid(datasource).value
    ensures r.Err? ==> r.fault == Grid(datasource).fault
  {
    var ws := new Worksheet(title);
    ws.SetValue(1, 1, Text(Headers[0]));
    ws.SetValue(1, 2, Text(Headers[1]));
    ws.SetValue(1, 3, Text(Headers[2]));
    ws.SetValue(1, 4, Text(Headers[3]));
    ws.SetValue(1, 5, Text(Headers[4]));
    assert datasource[..0] == [];
    var i := 0;
    while i < |datasource|
      invariant 0 <= i <= |datasource|
      invariant ws.name == title
      invariant Grid(datasource[..i]).Ok? && ws.cells == Grid(datasource[..i]).value
    {
      var row := datasource[i];
      ghost var base := ws.cells;
      ws.SetValue(i + 2, 1, Text(row.name));
      ws.SetValue(i + 2, 2, Text(row.storingType));
      ws.SetValue(i + 2, 3, Text(row.output));
      ws.SetValue(i + 2, 4, Number(row.pages));
      if |row.collaborators| == 0 {
        assert datasource[..i + 1][..i] == datasource[..i];
        assert Grid(datasource[..i + 1]).Err?;
        GridPrefixFault(datasource, i + 1);
        return Err(NoCollaborators(i));
      }
      WriteCoauthors(ws, i + 2, row.collaborators);
      RowWrites(base, i + 2, row);
      GridSnoc(datasource, i);
      i := i + 1;
    }
    assert datasource[..i] == datasource;
    r := Ok(ws);
  }

  /** The user report as a worksheet named after the user; the empty-name and
      missing-co-author exceptions are not caught here. */
  method PrintReportForm11(db: Database, user: User, labels: Labels) returns (r: Result<Worksheet>)
    ensures r.Ok? <==> Render(db, user, labels).Ok?
    ensures r.Ok? ==> (r.value.name, r.value.cells) == Render(db, user, labels).value
    ensures r.Err? ==> r.fault == Render(db, user, labels).fault
  {
    var datasource := CreateForm11(db, user, labels);
    var title := Title(user);
    if title.Err? {
      return Err(title.fault);
    }
    r := WriteSheet(title.value, datasource);
  }

  // ---------------------------------------------------------------- sole authors

  /** A report row the user is the only author of has no co-authors, and the sheet cannot be
      written: Collaborators[0] faults on it. */
  lemma SoleAuthorStopsPrint(db: Database, user: User, labels: Labels, i: nat)
    requires i < |Form11(db, user, labels)|
    requires var id := Form11(db, user, labels)[i].id;
             OwnLinksOf(db.publicationUsers, id, user.id) == LinksOf(db.publicationUsers, id)
    ensures Grid(Form11(db, user, labels)).Err?
    ensures Render(db, user, labels).Err?
  {
    var rows := Form11(db, user, labels);
    Form11Coauthors(db, user, labels, rows[i]);
    assert rows[i].collaborators == [];
    assert Grid(rows).Err?;
  }

  /** The smallest such report: one published publication whose only link is its author's. */
  function ExampleUser(): (u: User)
  {
    User("u", "Shevchenko", "Taras", "Hryhorovych")
  }

  function ExampleLink(): (l: PublicationUser)
  {
    PublicationUser(1, Some("u"), None)
  }

  function ExampleDatabase(): (db: Database)
  {
    var p := Publication(1, "f", "Kobzar", Some(114), "Kyiv", Some(10), true, false, None, "u",
                         Some(0), Some(0), None);
    Database([p], [ExampleLink()], [ExampleUser()], [], [], [], [], [])
  }

  function ExampleLabels(): (labels: Labels)
  {
    Labels(c => Some("label"), c => Some("label"), c => Some("label"))
  }

  /** The example's report has a row, and its first row is publication 1. */
  lemma ExampleFirstRow()
    ensures |Form11(ExampleDatabase(), ExampleUser(), ExampleLabels())| > 0
    ensures Form11(ExampleDatabase(), ExampleUser(), ExampleLabels())[0].id == 1
  {
    var db, user, labels := ExampleDatabase(), ExampleUser(), ExampleLabels();
    var p, l := db.publications[0], ExampleLink();
    var pairs := UserPairs(db, user.id);
    assert (p, l) in pairs;
    assert forall x :: x in pairs ==> x == (p, l);
    var others := OtherLinksOf(db.publicationUsers, 1, user.id);
    assert forall y :: y !in others;
    assert Authors(db, others) == Ok([]);
    var query := SelectAll(pairs, Form11Projection(labels));
    assert query.Ok?;
    forall i | 0 <= i < |query.value| ensures query.value[i].id == 1 {
      assert pairs[i] in pairs;
    }
    assert SelectAll(query.value, CoauthorAttacher(db, user.id)).Ok?;
    assert |Form11(db, user, labels)| == |pairs| > 0;
  }

  /** Publication 1's only link is the author's own. */
  lemma ExampleSoleLink()
    ensures OwnLinksOf(ExampleDatabase().publicationUsers, 1, ExampleUser().id) ==
            LinksOf(ExampleDatabase().publicationUsers, 1)
  {
    var links, l := ExampleDatabase().publicationUsers, ExampleLink();
    assert LinksOf(links, 1) == [l] by {
      assert l in LinksOf(links, 1);
      assert |LinksOf(links, 1)| <= 1;
    }
    assert OwnLinksOf(links, 1, ExampleUser().id) == [l] by {
      assert l in OwnLinksOf(links, 1, ExampleUser().id);
    }
  }

  /** Printing the example author's report faults. */
  lemma SoleAuthorExample()
    ensures Render(ExampleDatabase(), ExampleUser(), ExampleLabels()).Err?
  {
    ExampleFirstRow();
    ExampleSoleLink();
    SoleAuthorStopsPrint(ExampleDatabase(), ExampleUser(), ExampleLabels(), 0);
  }

  /** The co-author cell as evidently intended: empty when there is nobody else to list. */
  function CoauthorCell(authors: seq<Author>): (r: string)
  {
    if authors == [] then "" else JoinNames(authors)
  }

  /** The corrected cell is empty without co-authors; otherwise it holds every name plus one
      ", " between neighbours, and starts with the first name. */
  lemma CoauthorCellReads(authors: seq<Author>)
    ensures authors == [] ==> CoauthorCell(authors) == ""
    ensures authors != [] ==> CoauthorCell(authors) == JoinNames(authors)
    ensures authors != [] ==> |CoauthorCell(authors)| == NamesLength(authors) + 2 * (|authors| - 1) &&
                              |authors[0].name| <= |CoauthorCell(authors)| &&
                              CoauthorCell(authors)[..|authors[0].name|] == authors[0].name
  {
    if authors != [] {
      JoinNamesEnds(authors);
      JoinNamesLength(authors);
    }
  }

  /** The grid with the co-author cell corrected: every report row gets its sheet row. */
  function FilledGrid(rows: seq<PublicationForm11>): (m: map<(int, int), CellValue>)
  {
    if rows == [] then HeaderCells()
    else FilledGrid(rows[..|rows| - 1]) + RowCells(|rows| + 1, rows[|rows| - 1])
  }

  /** The corrected sheet: the headers, then every report row, co-authors or not, on its
      sheet row, and nothing else. */
  lemma {:induction false} FilledGridLayout(rows: seq<PublicationForm11>)
    ensures LaidOut(FilledGrid(rows), rows)
  {
    if rows == [] {
      HeaderLaidOut();
    } else {
      var init := rows[..|rows| - 1];
      var last := rows[|rows| - 1];
      FilledGridLayout(init);
      AppendRowLaidOut(FilledGrid(init), init, last);
      assert init + [last] == rows;
    }
  }

  /** The correction changes nothing where the sheet could be written as the code stands. */
  lemma {:induction false} FilledGridAgrees(rows: seq<PublicationForm11>)
    requires Grid(rows).Ok?
    ensures FilledGrid(rows) == Grid(rows).value
  {
    if rows != [] {
      var init := rows[..|rows| - 1];
      assert forall i :: 0 <= i < |init| ==> init[i] == rows[i];
      FilledGridAgrees(init);
    }
  }
}
