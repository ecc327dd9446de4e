/** CreateForm11: the publications of one user, one row per authorship link
    the user holds on a published publication, each row carrying the other
    authors of that publication. */
module UserReport {
  import opened Tables
  import opened Linq
  import opened LabelResolver
  import opened CollaboratorAssembler

  /** Published publications joined with their links, where the link is the requester's: a
      pair is selected exactly when the publication is published and the link is the
      requester's link to it. */
  function UserPairs(db: Database, userId: UserId): (r: seq<(Publication, PublicationUser)>)
    ensures forall x :: x in r <==>
              x.0 in db.publications && x.0.isPublished &&
              x.1 in db.publicationUsers && x.1.publicationId == x.0.id && x.1.userId == Some(userId)
  {
    Where(Join(Where(db.publications, (p: Publication) => p.isPublished),
               db.publicationUsers,
               (p: Publication) => p.id, (pu: PublicationUser) => pu.publicationId),
          (x: (Publication, PublicationUser)) => x.1.userId == Some(userId))
  }

  /** The Select projection: fields in initializer order, the first fault wins. */
  function ProjectForm11(labels: Labels, x: (Publication, PublicationUser)): (r: Result<PublicationForm11>)
    ensures r.Ok? <==> x.0.pages.Some? &&
                       x.0.storingType.Some? && labels.storingType(x.0.storingType.value).Some? &&
                       x.0.publicationType.Some? && labels.publicationType(x.0.publicationType.value).Some?
    ensures x.0.pages.None? ==> r == Err(MissingPages)
    ensures x.0.pages.Some? && x.0.storingType.None? ==> r == Err(MissingCode("StoringType"))
    ensures r.Ok? ==> r.value.id == x.0.id && x.0.pages == Some(r.value.pages) && r.value.collaborators == []
  {
    var p := x.0;
    if p.pages.None? then Err(MissingPages)
    else
      var storing :- DisplayName(labels.storingType, p.storingType, "StoringType");
      var kind :- DisplayName(labels.publicationType, p.publicationType, "PublicationType");
      Ok(PublicationForm11(p.id, p.filePath, p.name, p.pages.value, p.output,
                           p.publishedAt.GetOr(MinValue), storing, kind, []))
  }

  function Form11Projection(labels: Labels): (f: ((Publication, PublicationUser)) -> Result<PublicationForm11>)
  {
    x => ProjectForm11(labels, x)
  }

  /** The ForEach action: AddRange of the authors of every other link of the row's publication. */
  function AttachCoauthors(db: Database, requester: UserId, row: PublicationForm11): (r: Result<PublicationForm11>)
    ensures r.Ok? <==> Authors(db, OtherLinksOf(db.publicationUsers, row.id, requester)).Ok?
    ensures r.Ok? ==> r.value.(collaborators := row.collaborators) == row &&
                      |r.value.collaborators| == |row.collaborators| + |OtherLinksOf(db.publicationUsers, row.id, requester)| &&
                      r.value.collaborators ==
                        row.collaborators + Authors(db, OtherLinksOf(db.publicationUsers, row.id, requester)).value
  {
    var authors :- Authors(db, OtherLinksOf(db.publicationUsers, row.id, requester));
    Ok(row.(collaborators := row.collaborators + authors))
  }

  function CoauthorAttacher(db: Database, requester: UserId): (f: PublicationForm11 -> Result<PublicationForm11>)
  {
    row => AttachCoauthors(db, requester, row)
  }

  /** The body of the try block: the query, then the co-authors. */
  function Form11Rows(db: Database, user: User, labels: Labels): (r: Result<seq<PublicationForm11>>)
  {
    var query :- SelectAll(UserPairs(db, user.id), Form11Projection(labels));
    SelectAll(query, CoauthorAttacher(db, user.id))
  }

  /** What CreateForm11 returns: the rows, or the empty list the catch-all leaves behind. */
  function Form11(db: Database, user: User, labels: Labels): (r: seq<PublicationForm11>)
  {
    match Form11Rows(db, user, labels)
    case Ok(rows) => rows
    case Err(_) => []
  }

  method CreateForm11(db: Database, user: User, labels: Labels) returns (model: seq<PublicationForm11>)
    ensures model == Form11(db, user, labels)
  {
    model := [];
    var query := SelectAll(UserPairs(db, user.id), Form11Projection(labels));
    if query.Err? {
      return;
    }
    var attached := ForEach(query.value, CoauthorAttacher(db, user.id));
    if attached.Err? {
      return;
    }
    model := attached.value;
  }

  // ---------------------------------------------------------------- properties

  /** What one report row holds, given the pair it comes from: fields copied, a missing date
      read as DateTime.MinValue, labels resolved, and the co-authors are the publication's
      other links, in link order. */
  ghost predicate RowOfPair(db: Database, requester: UserId, labels: Labels,
                            x: (Publication, PublicationUser), row: PublicationForm11)
  {
    var p := x.0;
    row.id == p.id && row.filePath == p.filePath && row.name == p.name && row.output == p.output &&
    p.pages == Some(row.pages) &&
    row.publishedAt == (if p.publishedAt.Some? then p.publishedAt.value else MinValue) &&
    p.storingType.Some? && labels.storingType(p.storingType.value) == Some(row.storingType) &&
    p.publicationType.Some? && labels.publicationType(p.publicationType.value) == Some(row.publicationType) &&
    Authors(db, OtherLinksOf(db.publicationUsers, p.id, requester)) == Ok(row.collaborators)
  }

  lemma ProjectAndAttach(db: Database, requester: UserId, labels: Labels, x: (Publication, PublicationUser))
    requires ProjectForm11(labels, x).Ok?
    requires AttachCoauthors(db, requester, ProjectForm11(labels, x).value).Ok?
    ensures RowOfPair(db, requester, labels, x, AttachCoauthors(db, requester, ProjectForm11(labels, x).value).value)
  {
    var p := x.0;
    var storing := DisplayName(labels.storingType, p.storingType, "StoringType");
    var kind := DisplayName(labels.publicationType, p.publicationType, "PublicationType");
    assert storing.Ok? && kind.Ok?;
    var row := ProjectForm11(labels, x).value;
    assert row.id == p.id && row.storingType == storing.value && row.publicationType == kind.value;
    var authors := Authors(db, OtherLinksOf(db.publicationUsers, p.id, requester));
    assert AttachCoauthors(db, requester, row) == Ok(row.(collaborators := [] + authors.value));
    assert [] + authors.value == authors.value;
  }

  /** Row i is built from pair i, and there are as many rows as pairs. */
  lemma Form11RowsFromPairs(db: Database, user: User, labels: Labels)
    requires Form11Rows(db, user, labels).Ok?
    ensures |Form11Rows(db, user, labels).value| == |UserPairs(db, user.id)|
    ensures forall i :: 0 <= i < |UserPairs(db, user.id)| ==>
              RowOfPair(db, user.id, labels, UserPairs(db, user.id)[i], Form11Rows(db, user, labels).value[i])
  {
    var pairs := UserPairs(db, user.id);
    var query := SelectAll(pairs, Form11Projection(labels)).value;
    var rows := Form11Rows(db, user, labels).value;
    assert Form11Rows(db, user, labels) == SelectAll(query, CoauthorAttacher(db, user.id));
    forall i | 0 <= i < |pairs| ensures RowOfPair(db, user.id, labels, pairs[i], rows[i]) {
      assert Form11Projection(labels)(pairs[i]).Ok?;
      assert CoauthorAttacher(db, user.id)(query[i]).Ok?;
      ProjectAndAttach(db, user.id, labels, pairs[i]);
    }
  }

  /** The report is all or nothing: it is empty or it has a row for every selected pair. */
  lemma Form11AllOrNothing(db: Database, user: User, labels: Labels)
    ensures Form11(db, user, labels) == [] || |Form11(db, user, labels)| == |UserPairs(db, user.id)|
  {
    if Form11Rows(db, user, labels).Ok? {
      Form11RowsFromPairs(db, user, labels);
    }
  }

  /** A single selected publication without a page count empties the whole report. */
  lemma MissingPagesEmptiesReport(db: Database, user: User, labels: Labels, i: nat)
    requires i < |UserPairs(db, user.id)| && UserPairs(db, user.id)[i].0.pages.None?
    ensures Form11(db, user, labels) == []
  {
    if Form11Rows(db, user, labels).Ok? {
      Form11RowsFromPairs(db, user, labels);
    }
  }

  /** Every row's co-authors leave out the requester, and together with the requester's own
      links they account for every link of the publication. */
  lemma Form11Coauthors(db: Database, user: User, labels: Labels, row: PublicationForm11)
    requires row in Form11(db, user, labels)
    ensures forall a :: a in row.collaborators ==> a.userId != Some(user.id)
    ensures |row.collaborators| + |OwnLinksOf(db.publicationUsers, row.id, user.id)| ==
            |LinksOf(db.publicationUsers, row.id)|
  {
    Form11RowsFromPairs(db, user, labels);
    var pairs, rows := UserPairs(db, user.id), Form11Rows(db, user, labels).value;
    var i :| 0 <= i < |rows| && rows[i] == row;
    assert RowOfPair(db, user.id, labels, pairs[i], row);
    OthersExcludeRequester(db, db.publicationUsers, row.id, user.id);
    CoauthorCount(db.publicationUsers, row.id, user.id);
  }
}
