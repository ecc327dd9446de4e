/** CreateDeparmentReport: the indexed publications of a department's
    members, ordered by publication date, one publication per id before the
    index-database join, each row carrying all authors and the owner's
    department name. */
module DepartmentReport {
  import opened Tables
  import opened Linq
  import opened LabelResolver
  import opened CollaboratorAssembler

  type Pair = (Publication, PublicationUser)
  type IndexedPair = (Pair, PublicationNmbd)

  /** The ids of the department's members that have a user record. */
  function MemberIds(db: Database, depId: DepartmentId): (r: seq<UserId>)
  {
    Select(Join(Where(db.departmentUsers, (du: DepartmentUser) => du.departmentId == depId),
                db.users,
                (du: DepartmentUser) => du.userId, (u: User) => u.id),
           (x: (DepartmentUser, User)) => x.1.id)
  }

  /** Every publication/link pair whose link names a department member. */
  function MemberPairs(db: Database, depId: DepartmentId): (r: seq<Pair>)
    ensures forall x :: x in r <==>
              x.0 in db.publications && x.1 in db.publicationUsers && x.1.publicationId == x.0.id &&
              x.1.userId.Some? && x.1.userId.value in MemberIds(db, depId)
  {
    var users := MemberIds(db, depId);
    Where(Join(db.publications, db.publicationUsers,
               (p: Publication) => p.id, (pu: PublicationUser) => pu.publicationId),
          (x: Pair) => x.1.userId.Some? && x.1.userId.value in users)
  }

  function PublishedAtOf(x: Pair): (r: Option<DateTime>)
  {
    x.0.publishedAt
  }

  function PublicationIdOf(x: Pair): (r: PublicationId)
  {
    x.0.id
  }

  function NmbdPublicationIdOf(pn: PublicationNmbd): (r: PublicationId)
  {
    pn.publicationId
  }

  /** OrderBy(PublishedAt). */
  function Ordered(db: Database, depId: DepartmentId): (r: seq<Pair>)
    ensures multiset(r) == multiset(MemberPairs(db, depId))
    ensures SortedBy(r, PublishedAtOf)
  {
    SortBy(MemberPairs(db, depId), PublishedAtOf)
  }

  /** DistinctBy(p.Id) after the ordering. */
  function Survivors(db: Database, depId: DepartmentId): (r: seq<Pair>)
    ensures forall y :: y in r ==> y in Ordered(db, depId)
    ensures forall i, j :: 0 <= i < j < |r| ==> r[i].0.id != r[j].0.id
  {
    DistinctBy(Ordered(db, depId), PublicationIdOf)
  }

  /** The join with PublicationNMBDs: one entry per index database of each survivor. */
  function Indexed(db: Database, depId: DepartmentId): (r: seq<IndexedPair>)
    ensures forall x :: x in r <==>
              x.0 in Survivors(db, depId) && x.1 in db.publicationNmbds && x.1.publicationId == x.0.0.id
  {
    Join(Survivors(db, depId), db.publicationNmbds, PublicationIdOf, NmbdPublicationIdOf)
  }

  /** The pn.NMBD navigation. */
  function FindNmbd(nmbds: seq<Nmbd>, id: NmbdId): (r: Option<Nmbd>)
  {
    First(nmbds, (n: Nmbd) => n.id == id)
  }

  /** DepartmentUsers.FirstOrDefault(d => d.UserId == owner). */
  function FirstMembership(memberships: seq<DepartmentUser>, owner: UserId): (r: Option<DepartmentUser>)
    ensures r.None? <==> forall du :: du in memberships ==> du.userId != owner
    ensures r.Some? ==> exists i :: 0 <= i < |memberships| && memberships[i] == r.value && r.value.userId == owner &&
                                    forall j :: 0 <= j < i ==> memberships[j].userId != owner
  {
    First(memberships, (du: DepartmentUser) => du.userId == owner)
  }

  /** The du.Department navigation. */
  function FindDepartment(departments: seq<Department>, id: DepartmentId): (r: Option<Department>)
    ensures r.None? <==> forall d :: d in departments ==> d.id != id
    ensures r.Some? ==> r.value in departments && r.value.id == id
  {
    First(departments, (d: Department) => d.id == id)
  }

  /** The Select projection: fields in initializer order, the first fault wins. */
  function ProjectDepartmentRow(db: Database, labels: Labels, x: IndexedPair): (r: Result<PublicationOnDepartment>)
    ensures r.Ok? <==> FindNmbd(db.nmbds, x.1.nmbdId).Some? &&
                       x.0.0.citationNumber.Some? && x.0.0.pages.Some? &&
                       x.0.0.publicationType.Some? && labels.publicationType(x.0.0.publicationType.value).Some? &&
                       x.0.0.researchDoneType.Some? && labels.researchDoneType(x.0.0.researchDoneType.value).Some?
    ensures FindNmbd(db.nmbds, x.1.nmbdId).None? ==> r == Err(MissingNmbd(x.1.nmbdId))
    ensures FindNmbd(db.nmbds, x.1.nmbdId).Some? && x.0.0.citationNumber.None? ==> r == Err(MissingCitationNumber)
    ensures FindNmbd(db.nmbds, x.1.nmbdId).Some? && x.0.0.citationNumber.Some? && x.0.0.pages.None? ==>
              r == Err(MissingPages)
    ensures r.Ok? ==> r.value.id == x.0.0.id && r.value.collaborators == [] && r.value.departmentName == None
  {
    var p := x.0.0;
    match FindNmbd(db.nmbds, x.1.nmbdId)
    case None => Err(MissingNmbd(x.1.nmbdId))
    case Some(n) =>
      if p.citationNumber.None? then Err(MissingCitationNumber)
      else if p.pages.None? then Err(MissingPages)
      else
        var kind :- DisplayName(labels.publicationType, p.publicationType, "PublicationType");
        var research :- DisplayName(labels.researchDoneType, p.researchDoneType, "ResearchDoneType");
        Ok(PublicationOnDepartment(p.id, n.impactFactor, n.name, p.citationNumber.value, p.pages.value,
                                   p.isOverseas, p.name, p.output, p.ownerId, kind, research, [], None))
  }

  function DepartmentProjection(db: Database, labels: Labels): (f: IndexedPair -> Result<PublicationOnDepartment>)
  {
    x => ProjectDepartmentRow(db, labels, x)
  }

  /** The first ForEach action: AddRange of the authors of every link of the publication. */
  function AttachAllCoauthors(db: Database, row: PublicationOnDepartment): (r: Result<PublicationOnDepartment>)
    ensures r.Ok? <==> Authors(db, LinksOf(db.publicationUsers, row.id)).Ok?
    ensures r.Ok? ==> r.value.(collaborators := row.collaborators) == row &&
                      |r.value.collaborators| == |row.collaborators| + |LinksOf(db.publicationUsers, row.id)| &&
                      r.value.collaborators == row.collaborators + Authors(db, LinksOf(db.publicationUsers, row.id)).value
  {
    var authors :- Authors(db, LinksOf(db.publicationUsers, row.id));
    Ok(row.(collaborators := row.collaborators + authors))
  }

  function AllCoauthorAttacher(db: Database): (f: PublicationOnDepartment -> Result<PublicationOnDepartment>)
  {
    row => AttachAllCoauthors(db, row)
  }

  /** The second ForEach action: the department of the owner's first membership. */
  function AttachDepartmentName(db: Database, row: PublicationOnDepartment): (r: Result<PublicationOnDepartment>)
    ensures r.Ok? <==> FirstMembership(db.departmentUsers, row.ownerId).Some? &&
                       FindDepartment(db.departments, FirstMembership(db.departmentUsers, row.ownerId).value.departmentId).Some?
    ensures FirstMembership(db.departmentUsers, row.ownerId).None? ==> r == Err(NoMembership(row.ownerId))
    ensures r.Ok? ==> r.value.(departmentName := row.departmentName) == row &&
                      r.value.departmentName ==
                        Some(FindDepartment(db.departments, FirstMembership(db.departmentUsers, row.ownerId).value.departmentId).value.name)
  {
    match FirstMembership(db.departmentUsers, row.ownerId)
    case None => Err(NoMembership(row.ownerId))
    case Some(du) =>
      match FindDepartment(db.departments, du.departmentId)
      case None => Err(MissingDepartment(du.departmentId))
      case Some(d) => Ok(row.(departmentName := Some(d.name)))
  }

  function DepartmentNamer(db: Database): (f: PublicationOnDepartment -> Result<PublicationOnDepartment>)
  {
    row => AttachDepartmentName(db, row)
  }

  /** The body of the try block. */
  function DepartmentRows(db: Database, depId: DepartmentId, labels: Labels): (r: Result<seq<PublicationOnDepartment>>)
  {
    var rows :- SelectAll(Indexed(db, depId), DepartmentProjection(db, labels));
    var withAuthors :- SelectAll(rows, AllCoauthorAttacher(db));
    SelectAll(withAuthors, DepartmentNamer(db))
  }

  /** What CreateDeparmentReport returns: the rows, or (None) the bare object the catch-all
      leaves behind. */
  function DepartmentReport(db: Database, depId: DepartmentId, labels: Labels): (r: Option<seq<PublicationOnDepartment>>)
  {
    match DepartmentRows(db, depId, labels)
    case Ok(rows) => Some(rows)
    case Err(_) => None
  }

  method CreateDeparmentReport(db: Database, depId: DepartmentId, labels: Labels)
    returns (model: Option<seq<PublicationOnDepartment>>)
    ensures model == DepartmentReport(db, depId, labels)
  {
    model := None;
    var publications := SelectAll(Indexed(db, depId), DepartmentProjection(db, labels));
    if publications.Err? {
      return;
    }
    var withAuthors := ForEach(publications.value, AllCoauthorAttacher(db));
    if withAuthors.Err? {
      return;
    }
    var named := ForEach(withAuthors.value, DepartmentNamer(db));
    if named.Err? {
      return;
    }
    model := Some(named.value);
  }

  // ---------------------------------------------------------------- properties

  /** The user has a membership in the department and a user record. */
  ghost predicate IsMember(db: Database, depId: DepartmentId, id: UserId)
  {
    (exists du :: du in db.departmentUsers && du.departmentId == depId && du.userId == id) &&
    (exists u :: u in db.users && u.id == id)
  }

  lemma MemberIdsExactly(db: Database, depId: DepartmentId, id: UserId)
    ensures id in MemberIds(db, depId) <==> IsMember(db, depId, id)
  {
    var inDep := Where(db.departmentUsers, (du: DepartmentUser) => du.departmentId == depId);
    var joined := Join(inDep, db.users, (du: DepartmentUser) => du.userId, (u: User) => u.id);
    var ids := MemberIds(db, depId);
    assert ids == Select(joined, (x: (DepartmentUser, User)) => x.1.id);
    if id in ids {
      var i :| 0 <= i < |ids| && ids[i] == id;
      assert joined[i] in joined;
    }
    if IsMember(db, depId, id) {
      var du :| du in db.departmentUsers && du.departmentId == depId && du.userId == id;
      var u :| u in db.users && u.id == id;
      assert (du, u) in joined;
      var i :| 0 <= i < |joined| && joined[i] == (du, u);
      assert ids[i] == id;
    }
  }

  /** A pair is considered exactly when its link names a department member. */
  lemma MemberPairsExactly(db: Database, depId: DepartmentId, p: Publication, l: PublicationUser)
    ensures (p, l) in MemberPairs(db, depId) <==>
            p in db.publications && l in db.publicationUsers && l.publicationId == p.id &&
            l.userId.Some? && IsMember(db, depId, l.userId.value)
  {
    if l.userId.Some? {
      MemberIdsExactly(db, depId, l.userId.value);
    }
  }

  /** OrderBy sorts the member pairs by publication date and keeps, among pairs with the same
      date, the order of the join. */
  lemma OrderedByDate(db: Database, depId: DepartmentId, k: Option<DateTime>)
    ensures SortedBy(Ordered(db, depId), PublishedAtOf)
    ensures multiset(Ordered(db, depId)) == multiset(MemberPairs(db, depId))
    ensures WithKey(Ordered(db, depId), PublishedAtOf, k) == WithKey(MemberPairs(db, depId), PublishedAtOf, k)
  {
    SortByStable(MemberPairs(db, depId), PublishedAtOf, k);
  }

  /** DistinctBy keeps the date order of the ordered pairs. */
  lemma SurvivorsSorted(db: Database, depId: DepartmentId)
    ensures SortedBy(Survivors(db, depId), PublishedAtOf)
  {
    DistinctFromSorted(Ordered(db, depId), PublicationIdOf, {}, PublishedAtOf);
  }

  /** Only pairs linked to a department member survive. */
  lemma SurvivorsAreMemberPairs(db: Database, depId: DepartmentId)
    ensures forall y :: y in Survivors(db, depId) ==> y in MemberPairs(db, depId)
  {
    var ordered := Ordered(db, depId);
    forall y | y in Survivors(db, depId) ensures y in MemberPairs(db, depId) {
      assert y in ordered;
      assert y in multiset(ordered);
    }
  }

  /** Every publication linked to a department member keeps a pair. */
  lemma SurvivorsCoverMembers(db: Database, depId: DepartmentId)
    ensures forall x :: x in MemberPairs(db, depId) ==>
              exists y :: y in Survivors(db, depId) && y.0.id == x.0.id
  {
    var pairs := MemberPairs(db, depId);
    var ordered := Ordered(db, depId);
    var survivors := Survivors(db, depId);
    forall x | x in pairs ensures exists y :: y in survivors && y.0.id == x.0.id {
      assert x in multiset(pairs);
      assert x in ordered;
      DistinctFromCovers(ordered, PublicationIdOf, {}, x);
      var y :| y in survivors && PublicationIdOf(y) == PublicationIdOf(x);
      assert y.0.id == x.0.id;
    }
  }

  /** The pair kept for a publication is the first of its pairs after the ordering. */
  lemma SurvivorIsFirst(db: Database, depId: DepartmentId, y: Pair, j: nat)
    requires y in Survivors(db, depId)
    requires j < |Ordered(db, depId)| && Ordered(db, depId)[j].0.id == y.0.id
    ensures y in Ordered(db, depId)[..j + 1]
  {
    DistinctFromKeepsFirst(Ordered(db, depId), PublicationIdOf, {}, y, j);
  }

  /** The join keeps the date order. */
  lemma IndexedSorted(db: Database, depId: DepartmentId)
    ensures SortedBy(Indexed(db, depId), OnOuter(PublishedAtOf))
  {
    SurvivorsSorted(db, depId);
    JoinSorted(Survivors(db, depId), db.publicationNmbds, PublicationIdOf, NmbdPublicationIdOf, PublishedAtOf);
  }

  /** Some link of the publication names a department member. */
  ghost predicate HasMemberLink(db: Database, depId: DepartmentId, id: PublicationId)
  {
    exists x :: x in MemberPairs(db, depId) && x.0.id == id
  }

  lemma SurvivorCount(db: Database, depId: DepartmentId, id: PublicationId)
    ensures |WithKey(Survivors(db, depId), PublicationIdOf, id)| == if HasMemberLink(db, depId, id) then 1 else 0
  {
    var survivors := Survivors(db, depId);
    DistinctKeysCount(survivors, PublicationIdOf, id);
    if HasMemberLink(db, depId, id) {
      SurvivorsCoverMembers(db, depId);
      var x :| x in MemberPairs(db, depId) && x.0.id == id;
      var y :| y in survivors && y.0.id == x.0.id;
      assert PublicationIdOf(y) == id;
    } else {
      SurvivorsAreMemberPairs(db, depId);
      forall y | y in survivors ensures PublicationIdOf(y) != id {
        assert y in MemberPairs(db, depId);
      }
    }
  }

  /** One entry per (publication, index database) pair: a publication linked to a member
      appears once per PublicationNMBD entry it has, any other publication not at all. */
  lemma IndexedCount(db: Database, depId: DepartmentId, id: PublicationId)
    ensures |WithKey(Indexed(db, depId), OnOuter(PublicationIdOf), id)| ==
            if HasMemberLink(db, depId, id) then |WithKey(db.publicationNmbds, NmbdPublicationIdOf, id)| else 0
  {
    JoinCount(Survivors(db, depId), db.publicationNmbds, PublicationIdOf, NmbdPublicationIdOf, id);
    SurvivorCount(db, depId, id);
  }

  /** What one report row holds, given the (pair, index-database entry) it comes from. */
  ghost predicate RowOfEntry(db: Database, labels: Labels, x: IndexedPair, row: PublicationOnDepartment)
  {
    var p := x.0.0;
    FindNmbd(db.nmbds, x.1.nmbdId).Some? &&
    row.nmbd == FindNmbd(db.nmbds, x.1.nmbdId).value.name &&
    row.impactFactorNmbd == FindNmbd(db.nmbds, x.1.nmbdId).value.impactFactor &&
    row.id == p.id && row.name == p.name && row.output == p.output && row.isOverseas == p.isOverseas &&
    row.ownerId == p.ownerId &&
    p.citationNumber == Some(row.citationNumberNmbd) && p.pages == Some(row.pages) &&
    p.publicationType.Some? && labels.publicationType(p.publicationType.value) == Some(row.publicationType) &&
    p.researchDoneType.Some? && labels.researchDoneType(p.researchDoneType.value) == Some(row.researchDoneType) &&
    Authors(db, LinksOf(db.publicationUsers, p.id)) == Ok(row.collaborators) &&
    FirstMembership(db.departmentUsers, p.ownerId).Some? &&
    FindDepartment(db.departments, FirstMembership(db.departmentUsers, p.ownerId).value.departmentId).Some? &&
    row.departmentName ==
      Some(FindDepartment(db.departments, FirstMembership(db.departmentUsers, p.ownerId).value.departmentId).value.name)
  }

  lemma ProjectAttachName(db: Database, labels: Labels, x: IndexedPair)
    requires ProjectDepartmentRow(db, labels, x).Ok?
    requires AttachAllCoauthors(db, ProjectDepartmentRow(db, labels, x).value).Ok?
    requires AttachDepartmentName(db, AttachAllCoauthors(db, ProjectDepartmentRow(db, labels, x).value).value).Ok?
    ensures RowOfEntry(db, labels, x,
              AttachDepartmentName(db, AttachAllCoauthors(db, ProjectDepartmentRow(db, labels, x).value).value).value)
  {
    var p := x.0.0;
    var kind := DisplayName(labels.publicationType, p.publicationType, "PublicationType");
    var research := DisplayName(labels.researchDoneType, p.researchDoneType, "ResearchDoneType");
    var row := ProjectDepartmentRow(db, labels, x).value;
    assert kind.Ok? && research.Ok?;
    assert row.id == p.id && row.publicationType == kind.value && row.researchDoneType == research.value;
    assert row.collaborators == [];
    var authors := Authors(db, LinksOf(db.publicationUsers, p.id));
    assert AttachAllCoauthors(db, row) == Ok(row.(collaborators := [] + authors.value));
    assert [] + authors.value == authors.value;
  }

  /** Row i comes from entry i of the index-database join, and there are as many rows as entries. */
  lemma DepartmentRowsFromEntries(db: Database, depId: DepartmentId, labels: Labels)
    requires DepartmentRows(db, depId, labels).Ok?
    ensures |DepartmentRows(db, depId, labels).value| == |Indexed(db, depId)|
    ensures forall i :: 0 <= i < |Indexed(db, depId)| ==>
              RowOfEntry(db, labels, Indexed(db, depId)[i], DepartmentRows(db, depId, labels).value[i])
  {
    var entries := Indexed(db, depId);
    var projected := SelectAll(entries, DepartmentProjection(db, labels)).value;
    var withAuthors := SelectAll(projected, AllCoauthorAttacher(db)).value;
    var rows := DepartmentRows(db, depId, labels).value;
    assert DepartmentRows(db, depId, labels) == SelectAll(withAuthors, DepartmentNamer(db));
    forall i | 0 <= i < |entries| ensures RowOfEntry(db, labels, entries[i], rows[i]) {
      assert DepartmentProjection(db, labels)(entries[i]).Ok?;
      assert AllCoauthorAttacher(db)(projected[i]).Ok?;
      assert DepartmentNamer(db)(withAuthors[i]).Ok?;
      ProjectAttachName(db, labels, entries[i]);
    }
  }

  /** The report is all or nothing: no object at all, or a row for every entry. */
  lemma DepartmentReportAllOrNothing(db: Database, depId: DepartmentId, labels: Labels)
    ensures DepartmentReport(db, depId, labels).None? ||
            |DepartmentReport(db, depId, labels).value| == |Indexed(db, depId)|
  {
    if DepartmentRows(db, depId, labels).Ok? {
      DepartmentRowsFromEntries(db, depId, labels);
    }
  }

  /** One entry without a page count, without a citation count, or whose owner has no
      membership, and there is no report at all. */
  lemma FaultEmptiesDepartmentReport(db: Database, depId: DepartmentId, labels: Labels, i: nat)
    requires i < |Indexed(db, depId)|
    requires var p := Indexed(db, depId)[i].0.0;
             p.pages.None? || p.citationNumber.None? || FirstMembership(db.departmentUsers, p.ownerId).None?
    ensures DepartmentReport(db, depId, labels) == None
  {
    if DepartmentRows(db, depId, labels).Ok? {
      DepartmentRowsFromEntries(db, depId, labels);
      assert false;
    }
  }

  /** Every row of the report comes from an entry of the index-database join. */
  lemma EntryOfRow(db: Database, depId: DepartmentId, labels: Labels, row: PublicationOnDepartment)
    returns (x: IndexedPair)
    requires DepartmentReport(db, depId, labels).Some? && row in DepartmentReport(db, depId, labels).value
    ensures x in Indexed(db, depId) && RowOfEntry(db, labels, x, row)
  {
    DepartmentRowsFromEntries(db, depId, labels);
    var entries, rows := Indexed(db, depId), DepartmentRows(db, depId, labels).value;
    var i :| 0 <= i < |rows| && rows[i] == row;
    x := entries[i];
  }

  /** A row's co-authors are every link of the publication, the owner's included. */
  lemma DepartmentCoauthors(db: Database, depId: DepartmentId, labels: Labels, row: PublicationOnDepartment,
                            l: PublicationUser)
    requires DepartmentReport(db, depId, labels).Some? && row in DepartmentReport(db, depId, labels).value
    requires l in db.publicationUsers && l.publicationId == row.id
    ensures |row.collaborators| == |LinksOf(db.publicationUsers, row.id)|
    ensures exists a :: a in row.collaborators && a.userId == l.userId && a.collaboratorId == l.collaboratorId
  {
    var x := EntryOfRow(db, depId, labels, row);
    var links := LinksOf(db.publicationUsers, row.id);
    assert Authors(db, links) == Ok(row.collaborators);
    assert l in links;
    var k :| 0 <= k < |links| && links[k] == l;
    assert row.collaborators[k].userId == l.userId && row.collaborators[k].collaboratorId == l.collaboratorId;
  }
}
