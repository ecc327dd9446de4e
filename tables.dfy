/** The database tables the report builder reads, the report rows it
    produces, and the faults the C# code can raise while building them.
    Each table is a sequence in the order the data source returns it. */
module Tables {

  type PublicationId = int
  type UserId = string
  type CollaboratorId = int
  type DepartmentId = string
  type NmbdId = int

  /** A coded enumeration value (StoringTypeEnum, PublicationTypeEnum, ResearchDoneTypeEnum). */
  type Code = int

  /** DateTime as an abstract, totally ordered instant; 0 plays DateTime.MinValue. */
  type DateTime = nat
  const MinValue: DateTime := 0

  datatype Option<T> = None | Some(value: T)
  {
    function GetOr(default: T): T
    {
      match this
      case Some(v) => v
      case None => default
    }
  }

  /** What the C# code throws; every one of them is caught by the report builders' catch-all,
      except in PrintReportForm11, which has no catch. */
  datatype Fault =
    | MissingPages                      // Pages.Value on a null Pages
    | MissingCitationNumber             // CitationNumberNMBD.Value on null
    | MissingCode(field: string)        // StoringType/PublicationType/ResearchDoneType .Value on null
    | NoDisplayLabel(field: string, code: Code)  // GetMember(..)[0] or GetCustomAttributes(..)[0] out of range
    | MissingUser(userId: UserId)       // a.User navigation is null
    | MissingCollaborator               // a.Collaborator navigation is null
    | MissingNmbd(nmbdId: NmbdId)       // pn.NMBD navigation is null
    | NoMembership(userId: UserId)      // FirstOrDefault(..) returned null
    | MissingDepartment(departmentId: DepartmentId)  // .Department navigation is null
    | EmptyName                         // Substring(0, 1) on an empty string
    | NoCollaborators(row: nat)         // Collaborators[0] on an empty list

  datatype Result<T> = Ok(value: T) | Err(fault: Fault)
  {
    predicate IsFailure() { Err? }

    function PropagateFailure<U>(): Result<U>
      requires Err?
    {
      Err(fault)
    }

    function Extract(): T
      requires Ok?
    {
      value
    }
  }

  // ---------------------------------------------------------------- tables

  datatype User = User(id: UserId, lastName: string, firstName: string, thirdName: string)

  datatype Collaborator = Collaborator(id: CollaboratorId, name: string)

  datatype Publication = Publication(
    id: PublicationId,
    filePath: string,
    name: string,
    pages: Option<int>,
    output: string,
    publishedAt: Option<DateTime>,
    isPublished: bool,
    isOverseas: bool,
    citationNumber: Option<int>,
    ownerId: UserId,
    storingType: Option<Code>,
    publicationType: Option<Code>,
    researchDoneType: Option<Code>)

  /** An authorship link: a registered user, an external collaborator, or (malformed) neither. */
  datatype PublicationUser = PublicationUser(
    publicationId: PublicationId,
    userId: Option<UserId>,
    collaboratorId: Option<CollaboratorId>)

  datatype Department = Department(id: DepartmentId, name: string)

  datatype DepartmentUser = DepartmentUser(userId: UserId, departmentId: DepartmentId)

  /** An index database (NMBD) with its impact factor. */
  datatype Nmbd = Nmbd(id: NmbdId, name: string, impactFactor: real)

  datatype PublicationNmbd = PublicationNmbd(publicationId: PublicationId, nmbdId: NmbdId)

  datatype Database = Database(
    publications: seq<Publication>,
    publicationUsers: seq<PublicationUser>,
    users: seq<User>,
    collaborators: seq<Collaborator>,
    departments: seq<Department>,
    departmentUsers: seq<DepartmentUser>,
    nmbds: seq<Nmbd>,
    publicationNmbds: seq<PublicationNmbd>)

  /** The [Display] names of the three enumerations; None where the reflection lookup
      would index past the end of an empty array. */
  datatype Labels = Labels(
    storingType: Code -> Option<string>,
    publicationType: Code -> Option<string>,
    researchDoneType: Code -> Option<string>)

  // ---------------------------------------------------------------- report rows

  datatype Author = Author(userId: Option<UserId>, collaboratorId: Option<CollaboratorId>, name: string)

  datatype PublicationForm11 = PublicationForm11(
    id: PublicationId,
    filePath: string,
    name: string,
    pages: int,
    output: string,
    publishedAt: DateTime,
    storingType: string,
    publicationType: string,
    collaborators: seq<Author>)

  datatype PublicationOnDepartment = PublicationOnDepartment(
    id: PublicationId,
    impactFactorNmbd: real,
    nmbd: string,
    citationNumberNmbd: int,
    pages: int,
    isOverseas: bool,
    name: string,
    output: string,
    ownerId: UserId,
    publicationType: string,
    researchDoneType: string,
    collaborators: seq<Author>,
    departmentName: Option<string>)

  // ---------------------------------------------------------------- ordering of DateTime?

  /** The order LINQ's OrderBy uses on a nullable DateTime: null first, then by instant. */
  predicate StampLe(a: Option<DateTime>, b: Option<DateTime>)
  {
    a.None? || (b.Some? && a.value <= b.value)
  }
}
