/** The author-naming rule shared by both reports, and the assembly of a
    publication's co-authors from its authorship links. */
module CollaboratorAssembler {
  import opened Tables
  import opened Linq

  /** "Last First Third", each part copied as stored (an empty part leaves an empty token). */
  function FullName(u: User): (r: string)
    ensures |r| == |u.lastName| + |u.firstName| + |u.thirdName| + 2
    ensures r[..|u.lastName|] == u.lastName && r[|u.lastName|] == ' '
    ensures r[|u.lastName| + 1..|u.lastName| + 1 + |u.firstName|] == u.firstName
    ensures r[|r| - |u.thirdName| - 1] == ' ' && r[|r| - |u.thirdName|..] == u.thirdName
  {
    u.lastName + " " + u.firstName + " " + u.thirdName
  }

  /** The a.User navigation: the user record with that id. */
  function FindUser(users: seq<User>, id: UserId): (r: Option<User>)
  {
    First(users, (u: User) => u.id == id)
  }

  /** The a.Collaborator navigation: the collaborator record with that id. */
  function FindCollaborator(collaborators: seq<Collaborator>, id: CollaboratorId): (r: Option<Collaborator>)
  {
    First(collaborators, (c: Collaborator) => c.id == id)
  }

  /** The Author a link projects to: a registered user is named by FullName, anyone else
      by the stored collaborator name; a dangling navigation faults. */
  function AuthorOf(db: Database, link: PublicationUser): (r: Result<Author>)
    ensures r.Ok? ==> r.value.userId == link.userId && r.value.collaboratorId == link.collaboratorId
    ensures r.Ok? <==> if link.userId.Some? then FindUser(db.users, link.userId.value).Some?
                       else link.collaboratorId.Some? &&
                            FindCollaborator(db.collaborators, link.collaboratorId.value).Some?
    ensures r.Ok? && link.userId.Some? ==> r.value.name == FullName(FindUser(db.users, link.userId.value).value)
    ensures r.Ok? && link.userId.None? ==>
      r.value.name == FindCollaborator(db.collaborators, link.collaboratorId.value).value.name
    ensures r.Err? && link.userId.Some? ==> r.fault == MissingUser(link.userId.value)
    ensures r.Err? && link.userId.None? ==> r.fault == MissingCollaborator
  {
    if link.userId.Some? then
      match FindUser(db.users, link.userId.value)
      case None => Err(MissingUser(link.userId.value))
      case Some(u) => Ok(Author(link.userId, link.collaboratorId, FullName(u)))
    else if link.collaboratorId.None? then
      Err(MissingCollaborator)
    else
      match FindCollaborator(db.collaborators, link.collaboratorId.value)
      case None => Err(MissingCollaborator)
      case Some(c) => Ok(Author(link.userId, link.collaboratorId, c.name))
  }

  /** AuthorOf against one database, as the projection handed to Select. */
  function AuthorIn(db: Database): (f: PublicationUser -> Result<Author>)
  {
    link => AuthorOf(db, link)
  }

  /** The links of one publication, in link-table order. */
  function LinksOf(links: seq<PublicationUser>, id: PublicationId): (r: seq<PublicationUser>)
    ensures forall l :: l in r <==> l in links && l.publicationId == id
  {
    Where(links, (l: PublicationUser) => l.publicationId == id)
  }

  /** The links of one publication that are not the requester's own; a link without a
      user is never the requester's. */
  function OtherLinksOf(links: seq<PublicationUser>, id: PublicationId, requester: UserId): (r: seq<PublicationUser>)
    ensures forall l :: l in r <==> l in links && l.publicationId == id && l.userId != Some(requester)
  {
    Where(LinksOf(links, id), (l: PublicationUser) => l.userId != Some(requester))
  }

  /** The requester's own links to one publication. */
  function OwnLinksOf(links: seq<PublicationUser>, id: PublicationId, requester: UserId): (r: seq<PublicationUser>)
    ensures forall l :: l in r <==> l in links && l.publicationId == id && l.userId == Some(requester)
  {
    Where(LinksOf(links, id), (l: PublicationUser) => l.userId == Some(requester))
  }

  /** One Author per link, in link order, with the link's ids; the first dangling navigation
      faults the whole list. */
  function Authors(db: Database, links: seq<PublicationUser>): (r: Result<seq<Author>>)
    ensures r.Ok? <==> forall i :: 0 <= i < |links| ==> AuthorOf(db, links[i]).Ok?
    ensures r.Ok? ==>
      |r.value| == |links| &&
      forall i :: 0 <= i < |links| ==>
        r.value[i] == AuthorOf(db, links[i]).value &&
        r.value[i].userId == links[i].userId && r.value[i].collaboratorId == links[i].collaboratorId
    ensures r.Err? ==> exists i :: 0 <= i < |links| && AuthorOf(db, links[i]) == Err(r.fault) &&
                                   forall j :: 0 <= j < i ==> AuthorOf(db, links[j]).Ok?
  {
    SelectAll(links, AuthorIn(db))
  }

  /** Excluding the requester removes exactly the requester's own links: N links give
      N - k co-authors when k of them are the requester's. */
  lemma CoauthorCount(links: seq<PublicationUser>, id: PublicationId, requester: UserId)
    ensures |OtherLinksOf(links, id, requester)| + |OwnLinksOf(links, id, requester)| == |LinksOf(links, id)|
  {
    WherePartition(LinksOf(links, id), (l: PublicationUser) => l.userId != Some(requester),
                                       (l: PublicationUser) => l.userId == Some(requester));
  }

  /** No co-author assembled for the requester is the requester. */
  lemma OthersExcludeRequester(db: Database, links: seq<PublicationUser>, id: PublicationId, requester: UserId)
    requires Authors(db, OtherLinksOf(links, id, requester)).Ok?
    ensures forall a :: a in Authors(db, OtherLinksOf(links, id, requester)).value ==>
              a.userId != Some(requester)
  {
    var others := OtherLinksOf(links, id, requester);
    var authors := Authors(db, others).value;
    forall a | a in authors ensures a.userId != Some(requester) {
      var i :| 0 <= i < |authors| && authors[i] == a;
      assert others[i] in others;
    }
  }
}
