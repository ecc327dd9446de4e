# Publication reports of the Planner

This project models the report builder of the Planner, a university staff-planning
application (`PublicationReportBuilder`). It builds three things from the database:

- **The user report (Form 11).** It lists the published publications the requesting user is linked to. Each row carries the publication's other authors.
- **The department report.** It lists the indexed publications linked to members of a department:
  - ordered by publication date;
  - one surviving pair per publication before the join with the index databases (NMBD);
  - each row carrying every author and the owner's department name.
- **The Form 11 worksheet.** It lays the user report out on a spreadsheet:
  - a title made of the user's last name and initials;
  - five header cells;
  - one sheet row per report row, with the co-author names joined by ", ".

Modules, in dependency order:

- `Tables` holds the database tables, the report rows and the faults the C# code can raise.
- `Linq` holds the LINQ-to-objects operators the builder uses:
  - `Where`, `Select`, `Select … ToList` with a faulting projection (`SelectAll`);
  - `Join`, `FirstOrDefault` (`First`), stable `OrderBy` (`SortBy`) and `DistinctBy`;
  - `List.ForEach`, as a loop proved equal to `SelectAll`.
- `LabelResolver` holds the enum display-name lookup.
- `CollaboratorAssembler` holds the shared author-naming rule and the assembly of a publication's authors from its links.
- `UserReport` holds `CreateForm11`.
- `DepartmentReport` holds `CreateDeparmentReport`.
- `Sheet` holds `PrintReportForm11`:
  - a `Worksheet` class whose cell map is updated in place;
  - the title;
  - the grid specification;
  - the nested loops that fill the sheet.

Every database table is a sequence in the order the data source returns it. A navigation
property (`a.User`, `a.Collaborator`, `pn.NMBD`, `du.Department`) is a lookup by id. When that
lookup finds nothing, it is a fault, just as the null reference is in C#.

Each fault the C# code can throw is a `Fault` value carried in a `Result`. Both report builders
end in a catch-all, and the model keeps it:

- `CreateForm11` returns the empty list on any fault.
- `CreateDeparmentReport` returns `None`, which stands for the bare `new Object()` it returns.

`PrintReportForm11` has no catch, so its faults reach the caller.

The code and the intended behaviour disagree in four places. The model follows the code each time:

- **Who selects a department publication.** The department report keeps a publication when any of its authorship links names a department member, not when its owner is a member. `DistinctBy` runs before the NMBD join. `DepartmentReport.IndexedCount` proves the result: exactly one row per (publication, NMBD entry) pair, for every publication linked to a member.
- **Error handling.** Faults are swallowed by the catch-all rather than returned as typed errors.
- **Label lookup.** Labels come from enum metadata. A code with no display label faults.
- **A row with no co-authors.** Rendering it faults rather than leaving an empty cell. See "## Findings".

## Model

| member | source | states |
|---|---|---|
| Linq.Where | Planner/Calculation/PublicationReportBuilder.cs:32 | Where keeps exactly the elements that satisfy the predicate, and never yields more than its input |
| Linq.WherePartition | Planner/Calculation/PublicationReportBuilder.cs:59-60 | a filter and its complement split a sequence: their lengths add up to the input's length |
| Linq.WhereWhere | Planner/Calculation/PublicationReportBuilder.cs:59-60 | two chained Where filters equal one filter on the conjunction, order included |
| Linq.WhereConcat | Planner/Calculation/PublicationReportBuilder.cs:32 | filtering a concatenation filters each part and concatenates the results |
| Linq.WhereAllOrNone | Planner/Calculation/PublicationReportBuilder.cs:32 | a filter every element passes returns the input; a filter none passes returns the empty sequence |
| Linq.DistinctKeysCount | Planner/Calculation/PublicationReportBuilder.cs:154 | in a sequence with pairwise distinct keys, each key occurs once if present and otherwise not at all |
| Linq.Select | Planner/Calculation/PublicationReportBuilder.cs:143 | Select keeps the length and maps element i to element i |
| Linq.SelectAll | Planner/Calculation/PublicationReportBuilder.cs:36-55 | a projection followed by ToList succeeds iff every element projects; then the results match the input element by element; otherwise the fault is the first faulting element's |
| Linq.SelectAllPrefixFault | Planner/Calculation/PublicationReportBuilder.cs:36-55 | once a prefix of the list has faulted, later elements cannot change the outcome |
| Linq.ForEach | Planner/Calculation/PublicationReportBuilder.cs:57-69 | List.ForEach runs the action row by row and stops at the first exception; the rows it leaves are exactly the all-or-nothing projection |
| Linq.First | Planner/Calculation/PublicationReportBuilder.cs:198 | FirstOrDefault is absent iff no element matches; otherwise it is a matching element with no match before it |
| Linq.Matches | Planner/Calculation/PublicationReportBuilder.cs:33 | the inner elements paired with one outer element are exactly those with the same key, in inner order (Linq.MatchesInInnerOrder) |
| Linq.Join | Planner/Calculation/PublicationReportBuilder.cs:33 | a pair is in the join iff its outer element is in the outer sequence, its inner element is in the inner sequence, and their keys are equal; the order is stated by Linq.JoinConcat and Linq.MatchesInInnerOrder |
| Linq.MatchesCount | Planner/Calculation/PublicationReportBuilder.cs:155 | one outer element yields as many pairs as there are inner elements with its key |
| Linq.JoinCount | Planner/Calculation/PublicationReportBuilder.cs:155 | for each key, the join yields (outer elements with that key) times (inner elements with that key) pairs |
| Linq.MatchesOnKey | Planner/Calculation/PublicationReportBuilder.cs:155 | one outer element contributes all its matches to its own key and none to any other key |
| Linq.JoinConcat | Planner/Calculation/PublicationReportBuilder.cs:33 | the join runs over the outer sequence in order: joining a concatenation gives the first part's pairs, then the second's |
| Linq.JoinOne | Planner/Calculation/PublicationReportBuilder.cs:33 | a single outer element yields exactly its matches; with Linq.JoinConcat, the join is each outer element's matches in outer order |
| Linq.MatchesInInnerOrder | Planner/Calculation/PublicationReportBuilder.cs:33 | one outer element is paired with the inner elements of its key in inner order: its matches are those elements, filtered and mapped to pairs |
| Linq.InsertBy | Planner/Calculation/PublicationReportBuilder.cs:153 | insertion adds exactly the one element to the multiset |
| Linq.InsertBySorted | Planner/Calculation/PublicationReportBuilder.cs:153 | inserting into a date-sorted sequence keeps it sorted, null dates first |
| Linq.SortBy | Planner/Calculation/PublicationReportBuilder.cs:153 | OrderBy(PublishedAt) returns a permutation of its input sorted by date, with null dates first |
| Linq.InsertByStable | Planner/Calculation/PublicationReportBuilder.cs:153 | insertion keeps the relative order of elements with equal dates |
| Linq.SortByStable | Planner/Calculation/PublicationReportBuilder.cs:153 | OrderBy is stable: the elements with any one date keep their input order |
| Linq.DistinctFrom | Planner/Calculation/PublicationReportBuilder.cs:154 | DistinctBy's scan yields only input elements whose keys were not seen before, with pairwise distinct keys |
| Linq.DistinctFromInOrder | Planner/Calculation/PublicationReportBuilder.cs:154 | the scan keeps input order: its result sits in the input at strictly increasing positions |
| Linq.DistinctBy | Planner/Calculation/PublicationReportBuilder.cs:154 | DistinctBy yields only input elements, with pairwise distinct keys; order, coverage and first-wins are proved by the DistinctFrom lemmas |
| Linq.DistinctFromCovers | Planner/Calculation/PublicationReportBuilder.cs:154 | every key of the input keeps an element |
| Linq.DistinctFromKeepsFirst | Planner/Calculation/PublicationReportBuilder.cs:154 | the element kept for a key is that key's first occurrence |
| Linq.DistinctFromSorted | Planner/Calculation/PublicationReportBuilder.cs:153-154 | DistinctBy after OrderBy keeps the date order |
| Linq.JoinSorted | Planner/Calculation/PublicationReportBuilder.cs:153-155 | a join whose outer sequence is date-sorted yields pairs in date order |
| LabelResolver.DisplayName | Planner/Calculation/PublicationReportBuilder.cs:44-51 | the display name exists iff the code is set and has a label; a null code faults on `.Value`; an unlabelled code faults on the `[0]` indexing |
| CollaboratorAssembler.FullName | Planner/Calculation/PublicationReportBuilder.cs:66 | a user is named by the last name, a space, the first name, a space and the third name; each part can be read back |
| CollaboratorAssembler.OtherLinksOf | Planner/Calculation/PublicationReportBuilder.cs:59-60 | a link is kept iff it belongs to the publication and is not the requester's; a link without a user is kept |
| CollaboratorAssembler.LinksOf | Planner/Calculation/PublicationReportBuilder.cs:182-184 | a link is kept iff it belongs to the publication, in link-table order |
| CollaboratorAssembler.AuthorOf | Planner/Calculation/PublicationReportBuilder.cs:62-68 | a link with a user is named "Last First Third" from that user's record; any other link takes the collaborator's stored name; both ids are copied; a dangling user or collaborator faults |
| CollaboratorAssembler.Authors | Planner/Calculation/PublicationReportBuilder.cs:58-69 | one author per link, in link order, with the link's ids; the list exists iff every link resolves; otherwise the fault is the first failing link's |
| CollaboratorAssembler.CoauthorCount | Planner/Calculation/PublicationReportBuilder.cs:59-60 | excluding the requester removes exactly the requester's own links to the publication |
| CollaboratorAssembler.OthersExcludeRequester | Planner/Calculation/PublicationReportBuilder.cs:60-68 | no author assembled for the user report is the requester |
| UserReport.CreateForm11 | Planner/Calculation/PublicationReportBuilder.cs:21-80 | the projection, then ForEach attaching co-authors, returns exactly the report specification: its rows, or the empty list after any fault |
| UserReport.UserPairs | Planner/Calculation/PublicationReportBuilder.cs:28-35 | a (publication, link) pair is selected iff the publication is published and the link is the requester's link to it |
| UserReport.ProjectForm11 | Planner/Calculation/PublicationReportBuilder.cs:36-55 | a row is built iff the pages, storing type and publication type are set and both types have labels; a missing page count faults first, then a missing storing type; the row keeps the id and pages and starts with no co-authors |
| UserReport.AttachCoauthors | Planner/Calculation/PublicationReportBuilder.cs:57-69 | AddRange succeeds iff every other link resolves; it appends the assembled authors of the publication's other links, one per link, and changes no other field |
| UserReport.ProjectAndAttach | Planner/Calculation/PublicationReportBuilder.cs:36-69 | a built row copies Id, FilePath, Name, Output and Pages; a missing date reads as MinValue; labels are resolved; the co-authors are the assembled other links |
| UserReport.Form11RowsFromPairs | Planner/Calculation/PublicationReportBuilder.cs:28-71 | a successful report has one row per selected pair, row i built from pair i in join order |
| UserReport.Form11AllOrNothing | Planner/Calculation/PublicationReportBuilder.cs:25-78 | the user report is either empty or complete, never partial |
| UserReport.MissingPagesEmptiesReport | Planner/Calculation/PublicationReportBuilder.cs:41-78 | a single selected publication without a page count empties the whole report |
| UserReport.Form11Coauthors | Planner/Calculation/PublicationReportBuilder.cs:57-69 | a row's co-authors never include the requester; with the requester's own links they account for every link of the publication |
| DepartmentReport.CreateDeparmentReport | Planner/Calculation/PublicationReportBuilder.cs:132-209 | projection, ForEach attaching all authors, then ForEach attaching department names, returns exactly the report specification: its rows, or no report after any fault |
| DepartmentReport.MemberIds | Planner/Calculation/PublicationReportBuilder.cs:140-144 | the member ids; a user id is one iff the user has a membership in the department and a user record (proved in DepartmentReport.MemberIdsExactly) |
| DepartmentReport.MemberPairs | Planner/Calculation/PublicationReportBuilder.cs:151-152 | a (publication, link) pair is considered iff the link belongs to the publication and names a member id |
| DepartmentReport.Ordered | Planner/Calculation/PublicationReportBuilder.cs:153 | the ordering is a permutation of the member pairs, sorted by publication date with null dates first |
| DepartmentReport.Survivors | Planner/Calculation/PublicationReportBuilder.cs:154 | the surviving pairs come from the ordering, at most one per publication id |
| DepartmentReport.Indexed | Planner/Calculation/PublicationReportBuilder.cs:155 | an entry pairs a surviving pair with one of that publication's NMBD entries, and every such combination is present |
| DepartmentReport.ProjectDepartmentRow | Planner/Calculation/PublicationReportBuilder.cs:157-178 | a row is built iff the NMBD record, citation count, pages and both type labels exist; a missing NMBD faults first, then the citation count, then the pages; the row keeps the id, starts with no authors and no department name |
| DepartmentReport.AttachAllCoauthors | Planner/Calculation/PublicationReportBuilder.cs:181-192 | AddRange succeeds iff every link of the publication resolves; it appends the assembled authors of all its links, one per link, and changes no other field |
| DepartmentReport.AttachDepartmentName | Planner/Calculation/PublicationReportBuilder.cs:195-198 | the name is set iff the owner has a membership whose department exists, and it is then the name of the department of the owner's first membership; an owner without a membership faults; no other field changes |
| DepartmentReport.FirstMembership | Planner/Calculation/PublicationReportBuilder.cs:196-198 | FirstOrDefault over the memberships: none iff the owner has no membership; otherwise the first membership of the owner in table order |
| DepartmentReport.FindDepartment | Planner/Calculation/PublicationReportBuilder.cs:197-198 | the du.Department navigation: none iff no department has the id; otherwise a department with that id |
| DepartmentReport.MemberIdsExactly | Planner/Calculation/PublicationReportBuilder.cs:140-144 | a user id is a member id iff the user has a membership in the department and a user record |
| DepartmentReport.MemberPairsExactly | Planner/Calculation/PublicationReportBuilder.cs:151-152 | a (publication, link) pair is considered iff the link belongs to the publication and names a department member |
| DepartmentReport.OrderedByDate | Planner/Calculation/PublicationReportBuilder.cs:153 | the ordering is a permutation of the member pairs, sorted by publication date and stable within a date |
| DepartmentReport.SurvivorsSorted | Planner/Calculation/PublicationReportBuilder.cs:153-154 | after DistinctBy the pairs are still in date order |
| DepartmentReport.SurvivorsAreMemberPairs | Planner/Calculation/PublicationReportBuilder.cs:151-154 | only pairs linked to a member survive |
| DepartmentReport.SurvivorsCoverMembers | Planner/Calculation/PublicationReportBuilder.cs:151-154 | every publication linked to a member keeps a pair |
| DepartmentReport.SurvivorIsFirst | Planner/Calculation/PublicationReportBuilder.cs:153-154 | the pair kept for a publication is the first of its pairs after the ordering |
| DepartmentReport.IndexedSorted | Planner/Calculation/PublicationReportBuilder.cs:153-155 | the NMBD join keeps the date order |
| DepartmentReport.SurvivorCount | Planner/Calculation/PublicationReportBuilder.cs:151-154 | a publication has one surviving pair if it has a member link, and none otherwise |
| DepartmentReport.IndexedCount | Planner/Calculation/PublicationReportBuilder.cs:151-155 | a publication linked to a member yields one entry per PublicationNMBD row it has; any other publication yields none |
| DepartmentReport.ProjectAttachName | Planner/Calculation/PublicationReportBuilder.cs:157-198 | a built row carries its NMBD's name and impact factor, the copied fields, citation count, pages, labels, every author, and the name of the department of the owner's first membership |
| DepartmentReport.DepartmentRowsFromEntries | Planner/Calculation/PublicationReportBuilder.cs:155-200 | a successful report has one row per NMBD entry, row i built from entry i |
| DepartmentReport.DepartmentReportAllOrNothing | Planner/Calculation/PublicationReportBuilder.cs:136-207 | the department report is either no report or complete, never partial |
| DepartmentReport.FaultEmptiesDepartmentReport | Planner/Calculation/PublicationReportBuilder.cs:162-207 | one entry without pages or a citation count, or whose owner has no membership, leaves no report at all |
| DepartmentReport.EntryOfRow | Planner/Calculation/PublicationReportBuilder.cs:155-200 | every row of the report comes from an entry of the NMBD join |
| DepartmentReport.DepartmentCoauthors | Planner/Calculation/PublicationReportBuilder.cs:181-192 | a row lists one author per link of its publication, owner included, and every link appears |
| Sheet.Worksheet.constructor | Planner/Calculation/PublicationReportBuilder.cs:88-89 | a new worksheet has the given name and no cells |
| Sheet.Worksheet.SetValue | Planner/Calculation/PublicationReportBuilder.cs:103-114 | assigning a cell changes that cell and nothing else |
| Sheet.Worksheet.AppendText | Planner/Calculation/PublicationReportBuilder.cs:116-117 | `+=` on a cell replaces it by its old text followed by the appended string, and changes nothing else |
| Sheet.Title | Planner/Calculation/PublicationReportBuilder.cs:88-89 | the title exists iff the first and third names are non-empty; otherwise `Substring(0, 1)` faults |
| Sheet.TitleReadsBack | Planner/Calculation/PublicationReportBuilder.cs:88-89 | the title is "Публикации ", then the whole last name, then the two initials each followed by "."; all parts can be read back |
| Sheet.JoinNames | Planner/Calculation/PublicationReportBuilder.cs:115-117 | the joined co-author names; JoinNamesExtend, JoinNamesLength and JoinNamesEnds state what the cell holds |
| Sheet.JoinNamesExtend | Planner/Calculation/PublicationReportBuilder.cs:116-117 | each further co-author adds ", " and that author's name to the cell |
| Sheet.JoinNamesLength | Planner/Calculation/PublicationReportBuilder.cs:115-117 | the length of the cell is the total length of the names plus two characters for each ", " between neighbours |
| Sheet.JoinNamesEnds | Planner/Calculation/PublicationReportBuilder.cs:115-117 | the cell starts with the first co-author's name and ends with the last one's |
| Sheet.Grid | Planner/Calculation/PublicationReportBuilder.cs:103-117 | the grid exists iff every row has a co-author; otherwise the fault names the first row without one |
| Sheet.GridLayout | Planner/Calculation/PublicationReportBuilder.cs:103-117 | row 1 holds the five headers; report row i sits on sheet row i + 2 as name, character, output, pages, co-authors; no other cell is written |
| Sheet.HeaderLaidOut | Planner/Calculation/PublicationReportBuilder.cs:103-107 | an empty report is the five header cells alone |
| Sheet.AppendRowLaidOut | Planner/Calculation/PublicationReportBuilder.cs:109-117 | writing one more report row below a laid-out sheet lays out the longer report |
| Sheet.GridPrefixFault | Planner/Calculation/PublicationReportBuilder.cs:109-115 | once a row has faulted, later rows cannot change the outcome |
| Sheet.Render | Planner/Calculation/PublicationReportBuilder.cs:82-118 | what printing yields: the title and the grid, or the first fault; characterized by Sheet.RenderLayout |
| Sheet.RenderLayout | Planner/Calculation/PublicationReportBuilder.cs:82-118 | the sheet is produced iff the first and third names are set and every report row has a co-author; it is then named by the title and laid out row by row; an empty name faults first |
| Sheet.WriteCoauthors | Planner/Calculation/PublicationReportBuilder.cs:115-117 | the assignment and the `+=` loop leave the co-author cell equal to the joined names and change nothing else |
| Sheet.WriteSheet | Planner/Calculation/PublicationReportBuilder.cs:103-118 | the header writes and the row loop produce exactly the grid, or stop with the grid's fault |
| Sheet.PrintReportForm11 | Planner/Calculation/PublicationReportBuilder.cs:82-118 | the worksheet is named by the title and holds exactly the grid of the user report; otherwise the title's or the grid's fault reaches the caller |
| Sheet.SoleAuthorStopsPrint | Planner/Calculation/PublicationReportBuilder.cs:57-117 | if a report row's publication has only the requester's links, the grid faults and so PrintReportForm11 faults |
| Sheet.SoleAuthorExample | Planner/Calculation/PublicationReportBuilder.cs:115 | a concrete database with one publication whose only link is its author's: printing that author's report faults |
| Sheet.CoauthorCellReads | Planner/Calculation/PublicationReportBuilder.cs:115-117 | the corrected co-author cell: empty without co-authors; otherwise exactly the JoinNames cell of the code as written, whose length is the names plus one ", " between neighbours and which starts with the first name |
| Sheet.FilledGrid | Planner/Calculation/PublicationReportBuilder.cs:103-117 | the corrected grid: the header cells, then each report row's cells with the corrected co-author cell; its layout is stated by Sheet.FilledGridLayout and its agreement with the code by Sheet.FilledGridAgrees |
| Sheet.FilledGridLayout | Planner/Calculation/PublicationReportBuilder.cs:103-117 | the corrected grid: row 1 holds the headers; every report row, with or without co-authors, sits on sheet row i + 2 with its co-author cell; no other cell is written |
| Sheet.FilledGridAgrees | Planner/Calculation/PublicationReportBuilder.cs:109-117 | wherever the sheet can be written as the code stands, the corrected grid is the same grid |

## Findings

| source | as written | input that shows it | evidently intended | confidence | as-written member | corrected member |
|---|---|---|---|---|---|---|
| Planner/Calculation/PublicationReportBuilder.cs:115 | `Collaborators[0].Name` is read for every row. The user report has already removed the requester's own link (line 60). | A user who is the only author of a published publication. That row has no co-authors, so the indexer throws and no worksheet is produced. | An empty co-author cell for that row, with the rest of the sheet unchanged. | not executed | Sheet.SoleAuthorExample | Sheet.FilledGrid |

`Sheet.SoleAuthorStopsPrint` states the general case: any row whose publication has only the
requester's links stops the print. `Sheet.FilledGrid` writes `CoauthorCell`: the joined names,
or "" when there are none. Two lemmas are proved about it:

- `Sheet.FilledGridLayout`: the headers, then every report row on its own sheet row with its co-author cell, and nothing else.
- `Sheet.FilledGridAgrees`: on every report the code can print, the corrected grid equals the as-written one.

## Left out

- Entity Framework plumbing (`ApplicationDbContext`, `Include`, `AsEnumerable`, `using` scopes) is not modelled. The tables are sequences passed in as a `Database` value. Connection or query failures, which the catch-all would also swallow, are not modelled.
- The enum display labels come from reflection over enum metadata (`GetMember`, `GetCustomAttributes`, `DisplayAttribute`), which is not part of this model. They are given `Labels` functions. A function answering None stands for the `[0]` indexing fault.
- `DistinctBy` comes from `Calculation.Extensions`, which is not part of this model. It is modelled with MoreLINQ's semantics: the first element per key is kept, and input order is preserved.
- `DateTime` is a natural number with 0 as `DateTime.MinValue`. There is no calendar arithmetic.
- The impact factor is a `real`. It is only copied, never computed on, so double-precision rounding does not arise.
- `ForEach` + `AddRange` and the `DepartmentName` assignment mutate row objects in place. They are modelled on values: `Linq.ForEach` rebuilds the row list. Each row's `Collaborators` list is freshly created by the projection, so no aliasing between rows is lost.
- C# null strings are not modelled. Every name, title and output is a non-null string. Null is modelled only where the source tests it (`UserId`, `Pages`, `PublishedAt`, `CitationNumberNMBD`, the enum codes).
- EPPlus styling is not modelled: ShrinkToFit, indent, borders, column widths, AutoFit, the bold and filled header.
- `Sheet.PrintReportForm11`: returns the filled worksheet instead of the xlsx bytes. The `GetAsByteArray` serialiser is inside a library that is not part of this model. The model names the sheet with the title itself. EPPlus's `Worksheets.Add` may store a different name, for example by shortening a title over 31 characters (a last name over 14 characters), or may reject it. That behaviour is not modelled.
- `Sheet.Title`: takes the first `char` of each name. `Substring(0, 1)` takes the first UTF-16 code unit, so a name starting with a character outside the Basic Multilingual Plane gives half a surrogate pair in C# and a whole character here.
- `Sheet.Worksheet.AppendText`: requires the cell to be empty or to hold text. The report only appends to the co-author cell, which holds text, so appending to a numeric cell (and its culture-specific formatting) is not modelled.
- The link queries (lines 58-61 and 182-184) and the membership `FirstOrDefault` (lines 196-198) have no `ORDER BY`. The model assumes they return rows in table order. The order of a row's co-authors and which membership decides the department name both rest on that assumption; a database that returns rows in another order is not modelled.
- The commented-out `PrintDepartmentReport` stub has no behaviour.
- The two AngularJS controllers (`departmentController.js`, `individualPlanController.js`) are user-interface code making HTTP calls. They are not part of this model.
