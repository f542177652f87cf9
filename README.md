# Teacher–student registration service, modelled in Dafny

The service keeps three tables. A teacher has a unique email. A student has a
unique email and an `isSuspended` flag. A registration links one teacher to
one student, at most once. Four operations work on these tables:

- `registerStudents` finds or creates a teacher, each student and each link,
  all in one transaction.
- `getCommonStudents` returns the students registered to every teacher in a
  request.
- `suspendStudent` sets a student's flag.
- `retrieveForNotifications` returns the teacher's non-suspended students,
  together with the non-suspended students mentioned in a text.

Two string scanners from `src/utils/helpers.ts` support this: the email shape
test and the extraction of `@email` mentions.

The model has six modules:

- `Collections`: sequences viewed as sets. It also holds two loop methods:
  `Enumerate` gives the rows of a query in an unspecified order, and
  `AddEach` is the `add` loop of a JavaScript `Set`.
- `Strings`: `toLowerCase` on ASCII letters, and the order `Array.prototype.sort`
  puts strings in, with an insertion sort proved to give a sorted permutation.
- `Helpers`: `isValidEmail`, and the regex scan of `extractMentions`. The scan
  is a recursive specification `Mentions`. The `exec` loop is a method proved
  equal to it.
- `MentionCases`: the unit-test strings of `extractMentions` and
  `isValidEmail`, with their proved results.
- `Store`: the tables as one value `Db`, and the schema's constraints
  (`Valid`). Each operation has a specification function:
  - `Register` runs the find-or-create steps in order;
  - `Suspend` sets the flag or fails;
  - `Intersection` and `Recipients` are the sets the two queries must return.

  The module also holds the lemmas about these, and about how the operations
  combine.
- `Service`: the class `TeacherService`. The three tables are its fields, and
  each operation is a method proved against the `Store` specification.
  - `RegisterStudents` writes the tables step by step. On a failing call it
    restores them, as the transaction rollback does.
  - `SuspendStudent` updates one row.
  - `GetCommonStudents` and `RetrieveForNotifications` only read. Rows come
    back in an unspecified order, and the methods then sort them.

A storage call that throws inside `registerStudents` is an input: `failAt`
numbers the calls in order. Call 0 is the teacher's find-or-create. Calls
2i + 1 and 2i + 2 are the find-or-create of student i and of its
registration. Call 2n + 1 is the commit. The method either leaves the
committed `Register` state or restores the tables unchanged and reports
`StorageError`.

`getCommonStudents` is modelled as written. It compares the number of teacher
rows found with the number of emails requested
(src/services/teacherService.ts:69). A request that names the same teacher
twice, even in different letter case, therefore fails. The list of teachers
"not found" is then empty. The contract of
`Service.TeacherService.GetCommonStudents` states this: the call fails
exactly when a requested teacher is missing or an email repeats.

## Model

| member | source | states |
|---|---|---|
| Strings.LowerIdempotent | src/services/teacherService.ts:21-22 | lower-casing an email twice gives the same string as once, so stored keys are in lower case |
| Strings.LessTotal | src/services/teacherService.ts:93 | two different strings are ordered one way or the other by the comparison `sort()` uses |
| Strings.LessTransitive | src/services/teacherService.ts:93 | the string order of `sort()` is transitive |
| Strings.Sort | src/services/teacherService.ts:93 | `sort()` returns a permutation of its input in non-decreasing order |
| Strings.SortDistinct | src/services/teacherService.ts:164 | sorting a list that repeats nothing gives a strictly increasing list with the same elements |
| Strings.StrictlySortedUnique | tests/integration/teacherService.integration.test.ts:223-228 | two sorted, duplicate-free results with the same elements are the same array, so the string and the one-element array forms of a request agree |
| Collections.AddEach | src/services/teacherService.ts:141-143 | adding each row to the recipients `Set` keeps earlier entries in place, adds every new email once, and never repeats an email |
| Collections.Enumerate | src/services/teacherService.ts:128-139 | a query returns every matching row exactly once, in some order |
| Helpers.RunEnd | src/utils/helpers.ts:18 | the greedy `[^\s@]+` stops at the first `@` or whitespace character |
| Helpers.IsValidEmail | src/utils/helpers.ts:8-11 | accepts exactly the strings made of a run without `@` or whitespace, one `@`, and such a run holding a dot with a character on each side |
| Helpers.MatchAt | src/utils/helpers.ts:18 | a match at index i starts with the `@` marker, its group is email-shaped, and it ends where the domain's run ends |
| Helpers.MatchAtLongest | src/utils/helpers.ts:18 | whenever an email-shaped string follows the marker, the regex matches there, and at least as far as that string |
| Helpers.DoubledMarker | src/utils/helpers.ts:18 | an `@` directly followed by `@` starts no match |
| Helpers.MentionsAreEmails | src/utils/helpers.ts:18-24 | every extracted mention passes `isValidEmail` |
| Helpers.SkipUnmatched | src/utils/helpers.ts:22-24 | positions where no match starts add no mention |
| Helpers.SkipNonMarkers | src/utils/helpers.ts:22-24 | a stretch of text without `@` adds no mention |
| Helpers.NoMarkerNoMentions | tests/unit/utils/helpers.test.ts:53-58 | text without `@`, the empty string included, mentions nobody |
| Helpers.MentionAt | src/utils/helpers.ts:22-24 | a marker, a local run, `@` and a dotted domain run make one mention, and the scan resumes after it |
| Helpers.Exec | src/utils/helpers.ts:22 | `exec` from `lastIndex` finds the first match at or after it, or reports that there is none |
| Helpers.ExtractMentions | src/utils/helpers.ts:17-27 | the `exec` loop returns exactly the `Mentions` of the text, in order of appearance |
| MentionCases.TwoMentionsInOrder | tests/unit/utils/helpers.test.ts:46-51 | "Hello @student1@example.com and @student2@test.com" yields both emails in order |
| MentionCases.DoubledMarkerCase | tests/unit/utils/helpers.test.ts:115-120 | "@@student@example.com" yields "student@example.com" only |
| MentionCases.BareEmailIsNoMention | tests/unit/utils/helpers.test.ts:108-113 | an email without a leading marker is not a mention |
| MentionCases.MarkersWithoutEmail | tests/unit/utils/helpers.test.ts:60-65 | "Email me at support@ or @invalid" yields nothing |
| MentionCases.AcceptedEmails | tests/unit/utils/helpers.test.ts:5-10 | "test@example.com", "user.name@domain.co.uk", "first+last@example.org" and "email123@test123.com" are accepted |
| MentionCases.InvalidEmails | tests/unit/utils/helpers.test.ts:12-19 | "invalid", "@example.com", "test@", "test @example.com", "test@.com" and "" are rejected |
| MentionCases.MissingPartEmails | tests/unit/utils/helpers.test.ts:21-25 | "test", "test@domain" and "@domain.com" are rejected |
| MentionCases.SpacedEmails | tests/unit/utils/helpers.test.ts:27-30 | "test user@example.com" and "testuser@exam ple.com" are rejected |
| MentionCases.ValidEmails | tests/unit/utils/helpers.test.ts:32-35 | "a@b.c" and "test..email@example.com" are accepted |
| Store.EmptyDb | migrations/20241110000001-create-initial-tables.cjs:7-105 | the freshly created tables satisfy the schema's constraints |
| Store.FindOrCreateTeacherValid | src/services/teacherService.ts:20-24 | the teacher's find-or-create returns the id stored under the email, adds at most that row, and keeps the constraints |
| Store.FindOrCreateStudentValid | src/services/teacherService.ts:28-32 | the student's find-or-create returns the id under the email, creates a missing student as not suspended, keeps existing rows, and keeps the constraints |
| Store.FindOrCreateRegistrationValid | src/services/teacherService.ts:35-45 | linking an existing teacher to an existing student keeps the foreign keys valid |
| Store.RegisterOneRows | src/services/teacherService.ts:28-45 | one iteration adds the student if missing, not suspended, links it to the teacher, and changes nothing else |
| Store.RegisterOneValid | src/services/teacherService.ts:28-45 | one iteration keeps the constraints |
| Store.RegisterEachValid | src/services/teacherService.ts:27-46 | the loop keeps the constraints |
| Store.RegisterEachRows | src/services/teacherService.ts:27-46 | after the loop the students are the old ones plus every lower-cased email, new ones are not suspended, and old rows and teachers are unchanged |
| Store.RegisterEachLinks | src/services/teacherService.ts:27-46 | after the loop the registrations are the old ones plus exactly one link from the teacher to each named student |
| Store.RegisterEffect | src/services/teacherService.ts:15-53 | a committed call leaves a teacher `lower(t)`, a student for each `lower(s)` linked to it, existing rows and flags unchanged, new students not suspended, and no other row or link added |
| Store.RegisterValid | src/services/teacherService.ts:15-53 | a committed call keeps the constraints |
| Store.RegisterEachFound | src/services/teacherService.ts:35-45 | when every student and link already exists, every find-or-create finds and nothing changes |
| Store.RegisterIdempotent | tests/integration/teacherService.integration.test.ts:44-60 | registering the same teacher and students twice leaves the same tables as once |
| Store.RegisterNormalized | src/services/teacherService.ts:21-30 | registering stores only lower-cased emails |
| Store.SuspendEffect | src/services/teacherService.ts:99-110 | suspending fails exactly when no student has the lower-cased email; otherwise only that student's flag becomes true: the other students, the set of student emails, the teachers, the registrations and the id counters are unchanged, the constraints hold, and suspending again changes nothing |
| Store.IntersectionMembers | src/services/teacherService.ts:77-93 | a student is common exactly when the request is non-empty and the student is registered to every requested teacher |
| Store.Missing | src/services/teacherService.ts:70-71 | the not-found list holds exactly the requested emails that have no teacher row, is no longer than the request, and has no repeats when the request has none |
| Store.MissingConcat | src/services/teacherService.ts:70-71 | the not-found list of a concatenated request is the lists of its parts, one after the other, so it keeps the request's order and repeats as `filter` does |
| Store.FoundCountMismatch | src/services/teacherService.ts:69-73 | the count of teachers found differs from the count requested exactly when a teacher is missing or an email repeats |
| Store.HavingCountIsIntersection | src/services/teacherService.ts:78-91 | once all teachers are found, the inner join with `COUNT(DISTINCT teacher_id)` equal to their number selects exactly the students common to all of them |
| Store.Recipients | src/services/teacherService.ts:137-155 | every recipient is a stored student who is not suspended |
| Store.RegisteredAreNotified | tests/integration/teacherService.integration.test.ts:307-317 | after registering, each named student that was not suspended is a recipient of the teacher's notifications, whatever the text |
| Store.RegisteredAreCommon | tests/integration/teacherService.integration.test.ts:171-177 | after registering, each named student is among the common students of that teacher alone |
| Store.SuspendedAreNotNotified | tests/integration/teacherService.integration.test.ts:328-335 | after a suspension the student is no recipient, even when mentioned, and every other recipient stays |
| Service.TeacherService.constructor | migrations/20241110000001-create-initial-tables.cjs:7-105 | the service starts over empty tables that satisfy the constraints |
| Service.TeacherService.Rollback | src/services/teacherService.ts:49-51 | the rollback restores the tables saved when the transaction began |
| Service.TeacherService.FindOrCreateTeacherRow | src/services/teacherService.ts:20-24 | the teacher's find-or-create updates the fields as `FindOrCreateTeacher` specifies, keeps the constraints, and returns a stored teacher id |
| Service.TeacherService.FindOrCreateStudentRow | src/services/teacherService.ts:28-32 | the student's find-or-create updates the fields as `FindOrCreateStudent` specifies, keeps the constraints and the teachers, and returns a stored student id |
| Service.TeacherService.FindOrCreateRegistrationRow | src/services/teacherService.ts:35-45 | the registration's find-or-create of a stored teacher and a stored student adds the pair if absent and keeps the constraints |
| Service.TeacherService.RegisterEachRow | src/services/teacherService.ts:27-46 | the loop either completes with the tables `RegisterEach` specifies, or stops exactly when one of its calls throws; either way the constraints hold |
| Service.TeacherService.RegisterStudents | src/services/teacherService.ts:15-53 | the call succeeds exactly when no call up to the commit throws; it then leaves `Register` of the old tables, and otherwise the old tables with a storage error; the constraints always hold |
| Service.TeacherService.GetCommonStudents | src/services/teacherService.ts:58-94 | fails exactly when a requested teacher is missing or repeated, naming exactly the missing ones, as the `Missing` list of the request in request order; otherwise returns a strictly increasing list of exactly the students common to all requested teachers, and changes nothing |
| Service.TeacherService.SuspendStudent | src/services/teacherService.ts:99-110 | fails with not-found, changing nothing, exactly when no student has the lower-cased email; otherwise leaves the `Suspend` result, and the constraints hold |
| Service.TeacherService.RetrieveForNotifications | src/services/teacherService.ts:115-165 | returns a strictly increasing list of exactly the non-suspended students registered to the teacher, together with the non-suspended stored students among the lower-cased mentions; changes nothing |

## Left out

- Strings.Lower: only A–Z are lower-cased. Unicode case mapping, including letters that change length, is not modelled.
- Strings.Less: compares Dafny characters, which are Unicode scalar values. JavaScript's `sort()` compares UTF-16 code units, and the two orders differ for characters outside the Basic Multilingual Plane.
- Helpers.IsSpace: matches the characters JavaScript's `\s` matches, over Unicode scalar values rather than UTF-16 code units.
- The database's collation is not modelled. Emails are compared exactly. A case- or trailing-space-insensitive collation would make some different keys collide.
- Service.TeacherService.RegisterStudents: a throwing storage call is given by `failAt`. The reasons the database would throw are not modelled: Sequelize's `isEmail` validator on the models, the 255-character column limit, and lost connections. The validator's rules belong to a library that is not part of this model.
- Service.TeacherService.RegisterStudents: opening the transaction (src/services/teacherService.ts:16) is assumed to succeed. If it fails, the error escapes with nothing changed, the same state as a failure at call 0.
- Service.TeacherService.Rollback: also restores the two auto-increment counters. The tables are MySQL (src/config/database.ts:43), and an InnoDB rollback does not hand back auto-increment values, so after a failed `registerStudents` the model issues smaller ids than the database would. Ids never leave the service, so no result of an operation depends on this.
- Service.TeacherService.SuspendStudent: assumes the lookup and `save()` succeed. A storage error there is not modelled.
- Service.TeacherService.GetCommonStudents: assumes both queries succeed; storage errors are not modelled.
- Service.TeacherService.RetrieveForNotifications: assumes the queries succeed; storage errors are not modelled.
- Concurrency and transaction isolation are not modelled. The store is one sequential object, and `registerStudents` is all-or-nothing through its rollback.
- Ids are unbounded naturals counting up from 1. The 32-bit `INTEGER` column and its overflow are not modelled.
- The `created_at`/`updated_at` timestamps, the registrations table's own id column, and the `ON DELETE CASCADE` rules are not modelled. No operation deletes rows.
- The HTTP layer is not part of this model, because it only forwards requests and maps errors to status codes. That covers the controllers (including the unused `teacherController.js`), the Joi validators and the error middleware.
- `src/utils/helpers.js` repeats `src/utils/helpers.ts` and is modelled once.
- Configuration, logging, routing and server start-up are left out; they are I/O plumbing.
