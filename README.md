# Snap-Self API core, modelled in Dafny

Snap-Self is a tool for school photographers. A photographer registers schools, adds
classes to a school, imports the students of a class, and opens photo sessions that
walk the class roster. This project models the four HTTP routes that do that work:

- `/api/schools` lists the caller's schools, newest first. Its POST records the caller
  as a user and creates a school.
- `/api/classes` lists the classes of one of the caller's schools, by grade and then
  section. Its POST creates a class unless the same (school, grade, section, year)
  already exists.
- `/api/students/import` stores each submitted name trimmed. It derives the roster sort
  key ("Last, First Middle") with `generateSortName`.
- `/api/sessions` lists the caller's sessions, newest first. Its POST opens a session on
  one of the caller's classes. It orders the roster and counts the students still to
  photograph.

The model is arranged as follows:

- The database is a `Store` class (`store.dfy`) with one sequence per table, an id
  generator and a clock that stamps `createdAt`.
- Its primitives (`UpsertUser`, `CreateSchool`, `CreateClass`, `CreateStudent`,
  `CreateSession`) keep the schema's constraints, gathered in `Database.Consistent`:
  - unique ids;
  - creation stamps increasing in table order;
  - one class per identity tuple;
  - every foreign key leading to an existing row.
- Each GET handler is a pure function of the table contents (`Tables`).
- Each POST handler is a method that takes the store. Its postcondition states the reply for
  every branch, and the complete new contents of the database.
- The authenticated caller, as the identity provider reports it, is a parameter
  (`Option<Profile>`; `None` means nobody is signed in).

The string operations the routes rely on are modelled in `text.dfy`:

- JavaScript's `trim`, with the full ECMAScript whitespace set.
- `split(' ')`, followed by dropping empty pieces.
- `join(' ')`.
- The string order used for sorting.

`generateSortName` is modelled in `sort_name.dfy`. The roster sort (`roster.dfy`) is an
in-place insertion sort over an array, proved sorted and a permutation.

`generateSortName` splits the trimmed name on the space character only
(`src/app/api/students/import/route.ts:77`). A tab inside a name therefore stays inside a
word (`SortName.TabsStayInsideWords`).

## Model

| member | source | states |
|---|---|---|
| Text.TrimStartSpec | src/app/api/students/import/route.ts:77 | leading trim keeps a suffix of the input that does not start with whitespace; everything it cut is whitespace |
| Text.TrimEndSpec | src/app/api/students/import/route.ts:77 | trailing trim keeps a prefix that does not end with whitespace; everything cut is whitespace |
| Text.Trim | src/app/api/students/import/route.ts:46 | JavaScript's `trim`: leading, then trailing whitespace removed; what it returns is stated by `Text.TrimShape` and `Text.TrimEmptyIff` |
| Text.TrimShape | src/app/api/students/import/route.ts:46 | `trim` returns a contiguous part of its input with no whitespace at either end, and only whitespace is cut around it |
| Text.TrimEmptyIff | src/app/api/students/import/route.ts:77 | a string trims to "" exactly when it is whitespace only |
| Text.TrimOfTrimmed | src/app/api/students/import/route.ts:77 | trimming a string with no whitespace at its ends changes nothing |
| Text.TrimPadding | src/app/api/students/import/route.ts:77 | whitespace added on either side is removed again by `trim` |
| Text.TrimAroundGap | src/app/api/students/import/route.ts:77 | how `trim` treats two parts separated by whitespace, in each case of which part is blank |
| Text.SplitAtSpace | src/app/api/students/import/route.ts:77 | `split(' ')` of `a + " " + b` is the pieces of `a` followed by the pieces of `b` |
| Text.SplitOnSpace | src/app/api/students/import/route.ts:77 | `split(' ')`: at least one piece, and no piece contains a space (tabs and other whitespace stay inside pieces) |
| Text.NonEmpty | src/app/api/students/import/route.ts:77 | `filter((p) => p.length > 0)`: every piece kept is non-empty and is one of the input pieces |
| Text.Words | src/app/api/students/import/route.ts:77 | the parts `generateSortName` works on: each is non-empty and contains no space |
| Text.JoinWithSpaces | src/app/api/students/import/route.ts:89 | `join(' ')`; `Text.WordsOfJoin` proves that splitting undoes it |
| Text.WordsOfJoin | src/app/api/students/import/route.ts:89 | splitting words joined by single spaces (and dropping empty pieces) gives back exactly those words |
| Text.DoubleSpaceWords | src/app/api/students/import/route.ts:77 | two adjacent spaces give the same words as one, because the empty piece between them is dropped |
| Text.LexLeTotal | src/app/api/sessions/route.ts:93-98 | any two strings are comparable in the roster order |
| Text.LexLeTransitive | src/app/api/sessions/route.ts:93-98 | the roster order is transitive |
| Text.LexLeAntisymmetric | src/app/api/sessions/route.ts:93-98 | strings that sort both ways are equal |
| SortName.GenerateSortName | src/app/api/students/import/route.ts:76-92 | `generateSortName`; its results are stated by `SortName.SortNameEmptyIff`, `SortName.SortNameOfSingleWord` and `SortName.SortNameOfWords` |
| SortName.SortNameEmptyIff | src/app/api/students/import/route.ts:77-81 | the key is "" exactly when the name is empty or whitespace only |
| SortName.SortNameOfSingleWord | src/app/api/students/import/route.ts:83-85 | a single word, with any whitespace around it, is its own key |
| SortName.SortNameOfWords | src/app/api/students/import/route.ts:87-91 | two or more words give the last word, ", ", then the other words in order joined by single spaces |
| SortName.SortNameIgnoresSpaceRuns | src/app/api/students/import/route.ts:77 | a run of spaces between words separates them like a single space |
| SortName.SortNameOfTrimmedName | src/app/api/students/import/route.ts:46-47 | the stored (trimmed) name gives the same key as the submitted one |
| SortName.TabsStayInsideWords | src/app/api/students/import/route.ts:77 | only the space character separates words: `a\tb c` has key `c, a\tb` |
| SortName.DocumentedTwoWordExample | src/app/api/students/import/route.ts:73 | "João Silva" gives "Silva, João" |
| SortName.DocumentedOneWordExample | src/app/api/students/import/route.ts:74 | "Maria" gives "Maria" |
| SortName.BlankExample | src/app/api/students/import/route.ts:79-81 | a blank name gives "" |
| SortName.PaddedExample | src/app/api/students/import/route.ts:77-85 | "  Maria  " gives "Maria" |
| Records.IndexOf | src/app/api/classes/route.ts:22-24 | `findUnique`: None exactly when no row has the key; otherwise the first row with it |
| Records.Lookup | src/app/api/classes/route.ts:22-24 | the row found has the key and is in the table; None means no row has it |
| Records.LookupAfterAppend | src/app/api/classes/route.ts:89-102 | appending a row leaves every existing lookup unchanged and makes the new key findable |
| Records.NewestFirst | src/app/api/schools/route.ts:14-28 | the listing holds exactly the table rows that satisfy the filter |
| Records.NewestFirstIsDescending | src/app/api/schools/route.ts:25-27 | when `createdAt` increases along the table, the listing strictly decreases in it |
| Records.NewestFirstAppend | src/app/api/schools/route.ts:25-27 | a newly appended row that passes the filter heads the listing, ahead of the previous listing |
| Records.Where | src/app/api/classes/route.ts:30-32 | `findMany` with a `where`: exactly the rows that satisfy the filter |
| Records.IncreasingAppend | src/app/api/sessions/route.ts:102-112 | a row whose id (or stamp) is at least every earlier one keeps ids (stamps) increasing |
| Records.HasKeyIsIndexOf | src/app/api/classes/route.ts:22-26 | a key is present exactly when lookup finds it |
| Records.RefersAppendTarget | src/app/api/classes/route.ts:89-102 | adding a referenced row breaks no existing reference |
| Records.RefersAppendRow | src/app/api/students/import/route.ts:44-50 | adding a row whose reference resolves keeps every reference resolving |
| Records.RefersSameKeys | src/app/api/schools/route.ts:52-57 | updating rows in place without changing their keys breaks no reference |
| ClassOrder.GradeSectionTotal | src/app/api/classes/route.ts:37 | any two classes are comparable by (grade, section) |
| ClassOrder.GradeSectionTransitive | src/app/api/classes/route.ts:37 | the (grade, section) order is transitive |
| ClassOrder.InsertCorrect | src/app/api/classes/route.ts:37 | inserting into a sorted listing keeps it sorted and adds exactly that class |
| ClassOrder.SortByGradeSectionCorrect | src/app/api/classes/route.ts:37 | the listing order is a permutation of the classes, sorted by grade, then section |
| ClassOrder.SortByGradeSection | src/app/api/classes/route.ts:37 | `orderBy` grade, then section, as an insertion sort; `ClassOrder.SortByGradeSectionCorrect` proves its result sorted and a permutation |
| Roster.SortRoster | src/app/api/sessions/route.ts:91-99 | sorts the roster array in place: sorted by registration number ("" when missing) or by sort key, and a permutation of the original |
| Roster.SinkingStep | src/app/api/sessions/route.ts:93-98 | swapping an entry with a larger left neighbour keeps the rest of the prefix in order |
| Roster.SinkingDone | src/app/api/sessions/route.ts:93-98 | once the entry meets a smaller neighbour (or the front), the prefix is sorted |
| Database.Upsert | src/app/api/schools/route.ts:52-65 | after the upsert the user's row has the new email and name; a new row has an empty password hash and role PHOTOGRAPHER; an existing row keeps its hash and role; other users' rows are untouched |
| Database.UpsertUnique | src/app/api/schools/route.ts:52-53 | upserting by id keeps user ids unique |
| Database.UpsertIdempotent | src/app/api/schools/route.ts:52-65 | upserting the same user twice gives the same table as upserting once |
| Database.UpsertConsistent | src/app/api/schools/route.ts:52-65 | the upsert keeps every constraint of the database |
| Database.SchoolAddedConsistent | src/app/api/schools/route.ts:67-82 | adding a school owned by a user keeps every constraint |
| Database.ClassAddedConsistent | src/app/api/classes/route.ts:89-102 | adding a class of an existing school, with an identity not yet used, keeps every constraint, including one class per identity |
| Database.StudentAddedConsistent | src/app/api/students/import/route.ts:44-50 | adding a student of an existing class keeps every constraint |
| Database.SessionAddedConsistent | src/app/api/sessions/route.ts:102-112 | adding a session of an existing class, by an existing user, keeps every constraint |
| Database.OwnerIsUser | src/app/api/sessions/route.ts:86-88 | whoever owns a school is a user of the database, so a session they open refers to an existing user |
| Database.SchoolOwnedBy | src/app/api/classes/route.ts:22-28 | the ownership test: the school exists and its photographer is the caller |
| Database.ClassOwnedBy | src/app/api/students/import/route.ts:30-39 | the ownership test: the class exists and its school's photographer is the caller |
| Database.Store.constructor | src/app/api/schools/route.ts:3 | the initial state of the store: every table empty, which satisfies every constraint |
| Database.Store.UpsertUser | src/app/api/schools/route.ts:52-65 | the user table becomes the upsert of the old one; nothing else changes |
| Database.Store.CreateSchool | src/app/api/schools/route.ts:67-82 | appends the school with a fresh id and the current stamp; nothing else changes |
| Database.Store.CreateClass | src/app/api/classes/route.ts:89-102 | appends the class with a fresh id; nothing else changes |
| Database.Store.CreateStudent | src/app/api/students/import/route.ts:44-50 | appends the student with a fresh id and no registration number; nothing else changes |
| Database.Store.CreateSession | src/app/api/sessions/route.ts:102-112 | appends an IN_PROGRESS session with `pending == totalStudents`, a fresh id and the current stamp; nothing else changes |
| SchoolsRoute.DisplayName | src/app/api/schools/route.ts:56 | the stored user name is never empty and has no whitespace at either end |
| SchoolsRoute.DisplayNameFallback | src/app/api/schools/route.ts:56 | with no first or last name (absent or blank) the name is "Fotógrafo" |
| SchoolsRoute.DisplayNameOfFullName | src/app/api/schools/route.ts:56 | trimmed first and last names give "First Last" |
| SchoolsRoute.DisplayNameOfFirstName | src/app/api/schools/route.ts:56 | a first name alone is the whole name |
| SchoolsRoute.PrimaryEmail | src/app/api/schools/route.ts:55 | the stored email: the first of the caller's addresses, "" when there is none |
| SchoolsRoute.GetSchools | src/app/api/schools/route.ts:6-31 | 401 without a caller; otherwise 200 with exactly the caller's schools |
| SchoolsRoute.GetSchoolsNewestFirst | src/app/api/schools/route.ts:25-27 | the school listing runs from newest to oldest |
| SchoolsRoute.PostSchool | src/app/api/schools/route.ts:41-84 | 401 without a caller, changing nothing; otherwise the user is upserted, the school is created with the submitted fields and the caller as owner, the reply is 201 with it, and it heads the caller's listing |
| ClassesRoute.ClassListing | src/app/api/classes/route.ts:30-38 | the school's classes exactly, sorted by grade then section, as a permutation of the filtered table |
| ClassesRoute.GetClasses | src/app/api/classes/route.ts:6-40 | 401 without a caller; 400 without a school id; 401 when the school is missing or not the caller's; otherwise 200 with the school's classes in grade-then-section order |
| ClassesRoute.PostClass | src/app/api/classes/route.ts:51-104 | 401 without a caller or for a school that is missing or not the caller's; 409 when the identity tuple is taken; otherwise 201 with a new class appended. Failures change nothing |
| ClassesRoute.RepeatedClassConflicts | src/app/api/classes/route.ts:70-87 | once a class exists, the same request finds it, so a repeat is answered 409 |
| ClassesRoute.PostClassTwice | src/app/api/classes/route.ts:70-102 | when a first request creates the class, the same request again is answered 409 and the database stays as the first request left it |
| ClassesRoute.CreatedClassIsListed | src/app/api/classes/route.ts:89-102 | a created class appears in its school's listing |
| StudentImport.ImportedSpec | src/app/api/students/import/route.ts:42-52 | one student per entry, consecutive ids, all in the class, no registration number, stored under the trimmed name, and with the sort key of that stored name |
| StudentImport.ImportStudents | src/app/api/students/import/route.ts:12-61 | 401 without a caller; 400 without a class id or an entries array; 401 for a class that is missing or whose school is not the caller's; otherwise 201 with `success`, the count and the created students, appended to the table. Failures change nothing |
| StudentImport.CreateStudents | src/app/api/students/import/route.ts:42-52 | creates one student per row, in order, with consecutive ids, and appends exactly those |
| SessionsRoute.GetSessions | src/app/api/sessions/route.ts:5-46 | 401 without a caller; otherwise 200 with exactly the caller's sessions, of the given class when one is given |
| SessionsRoute.GetSessionsNewestFirst | src/app/api/sessions/route.ts:25 | the session listing runs from newest to oldest |
| SessionsRoute.OpenedSessionListedFirst | src/app/api/sessions/route.ts:43 | a session just opened heads the caller's listing |
| SessionsRoute.MissingFields | src/app/api/sessions/route.ts:64-71 | the 400 condition: no class id, or an absent or empty photo prefix |
| SessionsRoute.StartNumber | src/app/api/sessions/route.ts:64 | the first photo number, 1 when the request gives none |
| SessionsRoute.SortOrder | src/app/api/sessions/route.ts:64 | the roster order, ALPHABETICAL when the request gives none |
| SessionsRoute.PostSession | src/app/api/sessions/route.ts:56-122 | 401 without a caller; 400 without a class id or photo prefix; 404 for an unknown class (before ownership); 401 when the class's school is not the caller's; otherwise the roster is the class's students sorted by the requested order, and the reply is 201 with an IN_PROGRESS session. Its start number defaults to 1 and its order to ALPHABETICAL, and `totalStudents` and `pending` are the class size. Failures change nothing |

## Left out

- Authentication is by an external identity provider. The caller it reports is a parameter of every handler.
- The database client is replaced by the in-memory `Store`. Failures of the database, and the 500 replies the routes send for them, are not modelled.
- Request bodies are already parsed. A request whose fields the database would reject (a class without name, grade, section, year or school id; a school without a name) ends in a 500 reply and is not modelled. `ClassesRoute.ClassRequest` therefore has every field present, and `Records.SchoolFields` has a name.
- Row ids are the store's counter rather than generated strings. A missing or empty id in a request or query is `None`.
- `createdAt` comes from a clock that strictly increases with every stamped row. A real clock may give two rows the same time, and then the database's order between them is unspecified.
- Roster.SortRoster: compares strings by code point instead of `localeCompare`'s locale collation, and does not prove the sort stable.
- ClassesRoute.GetClasses: orders grade and section by code point instead of the database's collation. Classes with equal grade and section keep their table order, which the database leaves unspecified.
- StudentImport.CreateStudents: issues the creations one after another in entry order. The route starts them concurrently and waits for all of them, so the id order there is not fixed.
- SessionsRoute.PostSession: takes the start number as an integer. The route's `parseInt(String(startNumber))` of a non-numeric value, and the failure it causes, are not modelled. The roster order is returned beside the reply, because the route computes it but sends only its size.
- Replies carry the created or listed rows only. The nested `include` data (`_count` of classes, students and sessions; a session's class and school) is not modelled.
- Columns the four routes never set or read are not modelled: registration-number import, payment and authorization flags, the photographed and absent counters, and class and student timestamps. Imported students get no registration number.
- Not part of this model: the session update and photo routes, the user interface pages, the CSV parsing in the import page, constants and configuration.
