# Grading reconciliation of the doctoral-contest application, in Dafny

This project models the request handlers of a Vapor (Swift) web application. The application runs the anonymous grading of doctoral-contest examination papers ("copies").

- The **CFD president** classifies copies as marked, unmarked or requiring a third teacher. The president assigns teachers and publishes results. Publishing combines each candidate's two final marks and retires the copies they came from.
- A **teacher** submits a batch of marks. Each mark goes into the first empty one of the three mark slots of its copy. A teacher also lists the copies assigned to them.
- An **administrator** lists users by role, and creates, updates and batch-creates users. Input is validated in a fixed order and checked for duplicate e-mail addresses.
- The **dean** publishes and deletes posts, lists the candidates that have no anonymity code yet, and assigns such a code.
- Every handler reports its outcome through a read-once **flash message** kept in the session.

The database is one class, `Models.Database`, with one `seq` field per table and a counter for fresh identifiers. Its `Valid()` invariant says primary keys are unique and every user and post identifier is below the counter. The session is the class `Flash.Session` around a `map<string, string>`.

Each handler is a method over the database and the session, and is specified by pure functions of the old state. Those functions carry the lemmas:
- the classification filters and the publishing pass: `CFDPresident`;
- slot filling and the assigned-copies query: `Teacher`;
- the validators: `Validation`;
- the ordered checks: `Admin` and `Dean`;
- the session state machine: `Flash`.

Loops are `for`/`while` loops with invariants. A loop body that writes the store is its own method:
- `CFDPresident.PublishCandidate` is the body of the publish loop;
- `Teacher.SubmitEntry` is the body of the mark-submission loop.

The main results:
- The publish loop's outcome does not depend on the order in which it visits the candidate set. A second pass publishes nobody.
- The count `sendMarks` reports equals the number of marks it stored. Submitting marks never overwrites one and keeps the slots in order.
- The hand-written e-mail matcher accepts exactly the strings of the application's regular expression.
- Assigning a code keeps code contents distinct, provided the generator avoids the set it is given.

Modules, one per source component:
- `Wrappers`: `Option`.
- `Sequences`: `Filter`, `FindIndex`, and unique keys.
- `AppConstants`.
- `Text`: decimal rendering and `lowercased()`.
- `Validation`, `Flash` and `Models`.
- `CFDPresident`, `Teacher`, `Admin` and `Dean`.

Where the intended workflow and the code differ, the model follows the code:
- `assignTeachers` and `assignThirdTeacher` do no state check. They overwrite the teachers of any copy, and a third teacher can be given to a copy that never disagreed. `CFDPresident.MarkedAndDisputedOverlap` shows that the "marked" and "requires a third teacher" lists can overlap.
- `publishResults` re-queries all copies of a candidate who owns at least one marked copy. An unresolved copy therefore counts towards the two required modules. It contributes `max(mark1, mark2)`, or 0 without both marks (`CFDPresident.PublishCountsUnresolvedCopy`).
- The second count check on the final marks (`CFDPresidentController.swift:197-199`) can never fail: the final marks are one per re-queried copy, and the first check already asked for two. `CFDPresident.PublishCandidate` asserts this at the point of the check instead of branching on it.
- `createUser` looks for a duplicate using the sanitized e-mail as typed, but stores it lower-cased. An address that differs from a stored one only in letter case passes the check. `Admin.CreateUserDuplicateIsCaseSensitive` exhibits two users with the same stored e-mail.
- `batchCreate` neither validates nor checks for duplicates.
- `sendMarks` checks neither that the teacher is assigned to the copy nor the range of the mark.
- `assignSecretCode` does not check for an existing code, and looks the candidate up among all users, whatever their role. A second call gives the candidate a second code (`Dean.SecondAssignmentAddsSecondCode`).
- `assignThirdTeacher` answers an unknown copy with a thrown not-found error, not a flash. The model returns `found == false` and changes nothing.
- `createPost` accepts a title of exactly 200 characters, although its error message says "less than 200". The model follows the check.
- `deletePost` deletes any post, whoever wrote it.

## Model

| member | source | states |
|---|---|---|
| CFDPresident.IsMarked | Sources/App/Controllers/CFDPresidentController.swift:33-40 | definition of the "marked" filter: mark1 and mark2 present, and differing by less than 3.0 or mark3 present |
| CFDPresident.IsUnmarked | Sources/App/Controllers/CFDPresidentController.swift:57-65 | definition of the "unmarked" filter: no mark1, no mark2, no teacher1, no teacher2 |
| CFDPresident.RequiresThirdTeacher | Sources/App/Controllers/CFDPresidentController.swift:85-93 | definition of the third-teacher filter: mark1 and mark2 present, no teacher3, difference at least 3.0 |
| CFDPresident.MarkedCopies | Sources/App/Controllers/CFDPresidentController.swift:27-40 | definition: the copies of the table that are marked, in table order |
| CFDPresident.UnmarkedCopies | Sources/App/Controllers/CFDPresidentController.swift:49-65 | definition: the copies of the table that are unmarked, in table order |
| CFDPresident.CopiesRequiringThirdTeacher | Sources/App/Controllers/CFDPresidentController.swift:78-93 | definition: the copies of the table that need a third teacher, in table order |
| CFDPresident.FinalMark | Sources/App/Controllers/CFDPresidentController.swift:187-195 | definition of a copy's final mark: mark3 if present, else max(mark1, mark2) if both present, else 0 |
| CFDPresident.AgreeingMarksAreMarked | Sources/App/Controllers/CFDPresidentController.swift:33-40 | two marks differing by less than 3.0 make a copy marked, never requiring a third teacher and never unmarked |
| CFDPresident.DisagreeingMarks | Sources/App/Controllers/CFDPresidentController.swift:85-93 | with marks at least 3.0 apart, the copy is marked iff it has a third mark, and requires a third teacher iff none is assigned |
| CFDPresident.MissingMarkIsNeitherMarkedNorDisputed | Sources/App/Controllers/CFDPresidentController.swift:34-36 | a copy lacking mark1 or mark2 is neither marked nor disputed, whatever its third mark |
| CFDPresident.UnmarkedIsDisjoint | Sources/App/Controllers/CFDPresidentController.swift:33-93 | the unmarked list shares no copy with the marked list or the third-teacher list (multiset bound) |
| CFDPresident.MarkedAndDisputedOverlap | Sources/App/Controllers/CFDPresidentController.swift:33-40 | a concrete copy that is both marked and in need of a third teacher |
| CFDPresident.FinalMarkRule | Sources/App/Controllers/CFDPresidentController.swift:187-195 | a third mark decides even when lower; without one, the higher of two marks; else 0 |
| CFDPresident.AssignTeachers | Sources/App/Controllers/CFDPresidentController.swift:103-139 | reports found iff a copy has the id; sets exactly teacher1 and teacher2 of that copy, overwriting; no other change; success or not-found flash |
| CFDPresident.AssignThirdTeacher | Sources/App/Controllers/CFDPresidentController.swift:141-154 | found iff the id exists; changes only teacher3 of that copy, with no eligibility check |
| CFDPresident.CandidatesWithMarkedCopy | Sources/App/Controllers/CFDPresidentController.swift:165-174 | definition: the set of candidates owning at least one marked copy |
| CFDPresident.CopiesOf | Sources/App/Controllers/CFDPresidentController.swift:178-181 | definition of the re-query: all copies of the candidate, marked or not |
| CFDPresident.WithoutCandidates | Sources/App/Controllers/CFDPresidentController.swift:217-219 | definition: the table with every copy of the given candidates deleted |
| CFDPresident.PublishedCandidates | Sources/App/Controllers/CFDPresidentController.swift:174-185 | definition: the owners of a marked copy whose re-query returns exactly two copies |
| CFDPresident.CandidateValue | Sources/App/Controllers/CFDPresidentController.swift:187-201 | definition of the published value: (final mark of copy 0 + final mark of copy 1) * 2/3 |
| CFDPresident.CopiesAfterPublish | Sources/App/Controllers/CFDPresidentController.swift:177-222 | definition: the table after one pass, without the copies of the published candidates |
| CFDPresident.CopiesOfWithout | Sources/App/Controllers/CFDPresidentController.swift:178-181 | deleting other candidates' copies leaves a candidate's own re-query unchanged |
| CFDPresident.CopiesOfGone | Sources/App/Controllers/CFDPresidentController.swift:217-219 | after its copies are deleted, a candidate's re-query is empty |
| CFDPresident.WithoutKeepsKeys | Sources/App/Controllers/CFDPresidentController.swift:217-219 | deleting copies keeps copy identifiers unique |
| CFDPresident.WithoutNobody | Sources/App/Controllers/CFDPresidentController.swift:175-177 | before any candidate is published the table is the initial one |
| CFDPresident.WithoutTwice | Sources/App/Controllers/CFDPresidentController.swift:177-222 | deleting two candidate groups in turn equals deleting their union |
| CFDPresident.CopiesAfterPublishByCandidate | Sources/App/Controllers/CFDPresidentController.swift:177-222 | after a pass a published candidate has no copies and every other candidate keeps exactly its copies |
| CFDPresident.PublishIdempotent | Sources/App/Controllers/CFDPresidentController.swift:165-222 | a second pass over what the first left publishes nobody |
| CFDPresident.ResultCandidatesAppend | Sources/App/Controllers/CFDPresidentController.swift:203-204 | saving one more result adds exactly its candidate to the candidates with results |
| CFDPresident.PassStep | Sources/App/Controllers/CFDPresidentController.swift:177-222 | one loop turn: the re-query on the current table equals the one on the initial table; the candidate is published iff it has exactly two copies |
| CFDPresident.PublishCandidate | Sources/App/Controllers/CFDPresidentController.swift:178-221 | publishes iff the candidate has exactly two copies, then saves one result of (f0 + f1) * 2/3 and deletes all its copies; otherwise changes nothing |
| CFDPresident.PublishEach | Sources/App/Controllers/CFDPresidentController.swift:175-222 | the loop over the candidate set, in any order: exactly the due candidates visited are published, their copies deleted and one result each appended |
| CFDPresident.PublishFinish | Sources/App/Controllers/CFDPresidentController.swift:174-222 | after visiting every owner of a marked copy, the published set, remaining copies and new results are those of one pass |
| CFDPresident.PublishResults | Sources/App/Controllers/CFDPresidentController.swift:156-226 | count = number of owners of a marked copy with exactly two copies; their copies deleted, one result each with its value, earlier results kept, other tables unchanged, success flash with the count |
| CFDPresident.PublishTwoResolvedCopies | Sources/App/Controllers/CFDPresidentController.swift:187-204 | marks (14, 13) and (8, 15, third 10) publish the candidate with 16.0 and leave no copy |
| CFDPresident.PublishCountsUnresolvedCopy | Sources/App/Controllers/CFDPresidentController.swift:178-195 | an unmarked second copy still counts: the candidate is published with 14 * 2/3 |
| CFDPresident.PublishSkipsSingleCopy | Sources/App/Controllers/CFDPresidentController.swift:183-185 | a candidate with one copy is not published and keeps it |
| AppConstants.PassingSum | Sources/App/Constants.swift:16-25 | a result passes iff the two final marks sum to at least 15; 15 * 2/3 is exactly the passing mark 10 |
| Teacher.FillFirstEmpty | Sources/App/Controllers/TeacherController.swift:68-76 | skipped iff all three slots are full; otherwise only the first empty slot gets the mark |
| Teacher.FillNeverOverwrites | Sources/App/Controllers/TeacherController.swift:68-74 | filling keeps every existing mark, fills one more slot and keeps the slots in order |
| Teacher.SubmitOne | Sources/App/Controllers/TeacherController.swift:63-79 | one entry changes at most the copy with its id, which gets its first empty slot filled; counted iff such a copy exists with a free slot |
| Teacher.SubmitAll | Sources/App/Controllers/TeacherController.swift:61-80 | entries are applied in order; the count is at most the batch length; copy keys stay unique |
| Teacher.SendMarks | Sources/App/Controllers/TeacherController.swift:57-89 | the table and the count are those of the batch applied in order; success flash iff the count is positive, warning otherwise |
| Teacher.SubmitBatch | Sources/App/Controllers/TeacherController.swift:61-80 | the loop: the new table and the count equal the batch applied entry by entry |
| Teacher.SubmitEntry | Sources/App/Controllers/TeacherController.swift:64-79 | one loop turn equals one entry's effect on the table |
| Teacher.SubmitOneCopy | Sources/App/Controllers/TeacherController.swift:63-79 | per copy: marks kept, one more slot filled iff named (up to three), no other field changed, slot order kept |
| Teacher.SubmitAllCopy | Sources/App/Controllers/TeacherController.swift:61-80 | per copy after a batch: filled slots = min(3, before + entries naming it); marks kept; order kept |
| Teacher.TotalFilledUpdate | Sources/App/Controllers/TeacherController.swift:78 | replacing one copy changes the total number of marks by the difference it makes |
| Teacher.SubmitAllCountsFilledSlots | Sources/App/Controllers/TeacherController.swift:61-79 | the reported count equals the number of marks stored by the batch |
| Teacher.TwoEntriesForOneCopy | Sources/App/Controllers/TeacherController.swift:63-78 | two entries for one empty copy fill mark1 then mark2, count 2 |
| Teacher.SkippedEntries | Sources/App/Controllers/TeacherController.swift:64-75 | an entry for an unknown copy or a full copy changes nothing and is not counted |
| Teacher.AssignedCopies | Sources/App/Controllers/TeacherController.swift:27-48 | definition: the copies with the teacher as teacher1, then as teacher2, then as teacher3, concatenated |
| Teacher.AssignedCopiesMultiplicity | Sources/App/Controllers/TeacherController.swift:27-48 | each copy is listed once per teacher slot the teacher holds, no other copy is listed |
| Teacher.DoubleAssignmentListedTwice | Sources/App/Controllers/TeacherController.swift:27-48 | a teacher holding the first and second teacher slots of a copy gets the list [c, c] |
| Validation.IsValidPassword | Sources/App/Middleware/ValidationHelper.swift:20-22 | definition: at least six characters |
| Validation.IsValidName | Sources/App/Middleware/ValidationHelper.swift:25-28 | definition: trimmed of spaces and tabs, non-empty and at most 100 characters |
| Validation.IsValidEmail | Sources/App/Middleware/ValidationHelper.swift:13-17 | the hand-written matcher: first @, last dot, and the character classes of the pattern on each part |
| Validation.Trim | Sources/App/Middleware/ValidationHelper.swift:25-33 | the result is a contiguous slice of the input, with only trimmed characters cut off and neither end trimmable |
| Validation.TrimOfUnique | Sources/App/Middleware/ValidationHelper.swift:25-33 | that description determines the trimmed string |
| Validation.TrimOfTrimmed | Sources/App/Middleware/ValidationHelper.swift:25-33 | a string with no trimmable ends is its own trim |
| Validation.Sanitize | Sources/App/Middleware/ValidationHelper.swift:31-33 | sanitize removes leading and trailing whitespace and newlines, and nothing else |
| Validation.SanitizeIdempotent | Sources/App/Middleware/ValidationHelper.swift:31-33 | sanitizing twice is sanitizing once |
| Validation.NameCheckOnSanitized | Sources/App/Middleware/ValidationHelper.swift:25-33 | on sanitized input the name check is "1 to 100 characters" |
| Validation.EmailMatcherCorrect | Sources/App/Middleware/ValidationHelper.swift:13-17 | the matcher accepts exactly local@domain.tld over the pattern's character classes, tld at least two letters |
| Validation.ValidEmailHasOneAt | Sources/App/Middleware/ValidationHelper.swift:13-17 | an accepted address holds exactly one @ |
| Text.Lowercased | Sources/App/Controllers/AdminController.swift:105 | the result has the same length and no ASCII capital; each capital becomes the small letter 32 code points above it, every other character is kept |
| Text.LowercasedIdempotent | Sources/App/Controllers/AdminController.swift:146-159 | lower-casing twice is lower-casing once |
| Admin.Admins | Sources/App/Controllers/AdminController.swift:29-31 | definition: the users of type admin, in table order |
| Admin.Employees | Sources/App/Controllers/AdminController.swift:33-36 | definition: the users that are neither admin nor candidate, in table order |
| Admin.Candidates | Sources/App/Controllers/AdminController.swift:38-40 | definition: the users of type candidate, in table order |
| Admin.UsersPartition | Sources/App/Controllers/AdminController.swift:29-40 | admins, employees and candidates hold exactly the users of their role, and together every user exactly once |
| Admin.EmailTaken | Sources/App/Controllers/AdminController.swift:92-96 | the duplicate lookup succeeds iff some stored e-mail equals the given one exactly |
| Admin.CreateUserCheck | Sources/App/Controllers/AdminController.swift:72-99 | definition of the ordered checks of createUser: e-mail, names, password, duplicate of the sanitized e-mail |
| Admin.NewUser | Sources/App/Controllers/AdminController.swift:101-108 | definition of the stored user: sanitized names, lower-cased sanitized e-mail, hash, type |
| Admin.CreateUserCheckCases | Sources/App/Controllers/AdminController.swift:76-99 | each rejection iff its check is the first to fail, in the order e-mail, names, password, duplicate; accepted iff all pass |
| Admin.CreateUser | Sources/App/Controllers/AdminController.swift:66-114 | a rejection flashes its error and stores nothing; otherwise exactly one user with sanitized names, lower-cased sanitized e-mail, hash and type is saved, with the success flash |
| Admin.CreatedUserIsWellFormed | Sources/App/Controllers/AdminController.swift:102-108 | the stored names are valid and trimmed, the stored e-mail is a valid address in lower case |
| Admin.LowercasedEmailValid | Sources/App/Controllers/AdminController.swift:76-105 | lower-casing a valid e-mail keeps it valid, so the stored address passes the check it was given |
| Admin.CreateUserDuplicateIsCaseSensitive | Sources/App/Controllers/AdminController.swift:92-105 | "Al@b.cd" passes the duplicate check against a stored "al@b.cd" and is stored as "al@b.cd" |
| Admin.UpdateUserCheck | Sources/App/Controllers/AdminController.swift:123-155 | definition of the ordered checks of updateUser: user exists, e-mail, names, duplicate only when the lower-cased e-mail changes |
| Admin.UpdatedUser | Sources/App/Controllers/AdminController.swift:157-160 | definition of the rewritten user: new names, lower-cased e-mail and type; id and hash kept |
| Admin.UpdatedUsers | Sources/App/Controllers/AdminController.swift:157-162 | definition: the table with that one user rewritten |
| Admin.UpdateUserUnknown | Sources/App/Controllers/AdminController.swift:123-126 | "User not found." iff no stored user has the id |
| Admin.UpdateUserCheckCases | Sources/App/Controllers/AdminController.swift:135-155 | for a stored user, each rejection iff its check is the first to fail; the duplicate check only when the lower-cased e-mail changes |
| Admin.UpdateRewritesOnlyThatUser | Sources/App/Controllers/AdminController.swift:157-162 | the user with the id gets new names, lower-cased e-mail and type, keeping id and password hash; every other row unchanged |
| Admin.UpdateUser | Sources/App/Controllers/AdminController.swift:116-166 | a rejection flashes its error and changes nothing; otherwise the one user is rewritten, with the success flash |
| Admin.UpdateKeepsOwnEmail | Sources/App/Controllers/AdminController.swift:146-155 | keeping one's e-mail in any letter case never counts as a duplicate |
| Admin.BuildAll | Sources/App/Controllers/AdminController.swift:193 | every row is converted, or nothing when one conversion fails |
| Admin.BatchCreate | Sources/App/Controllers/AdminController.swift:188-200 | nothing saved if a conversion fails; otherwise all users appended in order with fresh identifiers |
| Dean.PostCheck | Sources/App/Controllers/DeanController.swift:61-72 | definition of the ordered checks of createPost: sanitized title 1 to 200 characters, then non-empty sanitized content |
| Dean.NewPost | Sources/App/Controllers/DeanController.swift:74-75 | definition of the stored post: the dean as author, sanitized title, content and link |
| Dean.PostCheckCases | Sources/App/Controllers/DeanController.swift:61-72 | title rejected iff the sanitized title is empty or over 200 characters; content rejected iff the title passes and sanitized content is empty |
| Dean.CreatePost | Sources/App/Controllers/DeanController.swift:51-80 | a rejection flashes its error and stores nothing; otherwise one post by the dean with sanitized fields is saved, with the success flash |
| Dean.CreatedPostIsWellFormed | Sources/App/Controllers/DeanController.swift:61-75 | the stored post has the dean as author, a trimmed title of 1 to 200 characters, trimmed non-empty content, and a link iff the form had one, trimmed |
| Dean.CandidatesWithoutCodes | Sources/App/Controllers/DeanController.swift:99-111 | definition: the candidate-type users whose id no code row names, in table order |
| Dean.CandidatesWithoutCodesMembers | Sources/App/Controllers/DeanController.swift:99-111 | listed iff a stored candidate-type user with no code bound to its id; as often as in the table; one filter of the table |
| Dean.CodesAfterAssign | Sources/App/Controllers/DeanController.swift:125-139 | definition of the code table after an assignment: unchanged for an unknown user or a failing generator, else one row appended |
| Dean.AssignSecretCode | Sources/App/Controllers/DeanController.swift:118-151 | unknown user: no code, error flash; otherwise the generator gets the set of all stored contents, and one row binding its code to the candidate is saved, with the success flash |
| Dean.AssignAddsACode | Sources/App/Controllers/DeanController.swift:130-139 | a successful assignment gives the candidate exactly one more code |
| Dean.SecondAssignmentAddsSecondCode | Sources/App/Controllers/DeanController.swift:118-139 | two assignments in a row give the candidate two more codes |
| Dean.AssignKeepsContentsDistinct | Sources/App/Controllers/DeanController.swift:130-139 | if the generator avoids the set it is given, code contents stay distinct |
| Dean.DeletePost | Sources/App/Controllers/DeanController.swift:153-169 | deleted iff a post has the id; an unknown id changes nothing; otherwise the post is removed whoever wrote it |
| Dean.DeleteRemovesExactlyThatPost | Sources/App/Controllers/DeanController.swift:160-165 | with unique ids, deleting by id removes exactly that one post and keeps the rest in order |
| Flash.RawValue | Sources/App/Middleware/FlashMiddleware.swift:11-16 | definition: each case's raw value is its name |
| Flash.WithFlash | Sources/App/Middleware/FlashMiddleware.swift:41-44 | definition of the session data after setFlash: the two keys overwritten |
| Flash.FromRaw | Sources/App/Middleware/FlashMiddleware.swift:11-16 | a recognised raw value names the case whose raw value it is |
| Flash.RawValueRoundTrip | Sources/App/Middleware/FlashMiddleware.swift:11-16 | FlashType(rawValue: t.rawValue) == t, and a string maps to t iff it is t's raw value |
| Flash.PeekFlash | Sources/App/Middleware/FlashMiddleware.swift:47-59 | a message iff both keys are present and the type is known, carrying the stored type and message |
| Flash.SetThenRead | Sources/App/Middleware/FlashMiddleware.swift:41-59 | a read after setFlash returns what was set; after that read clears the keys, a second read returns nothing |
| Flash.Session.SetFlash | Sources/App/Middleware/FlashMiddleware.swift:41-44 | stores the raw type and the message under the two keys, replacing any earlier flash |
| Flash.Session.ReadFlash | Sources/App/Middleware/FlashMiddleware.swift:47-59 | returns the stored flash and clears both keys; with a key missing or an unknown type returns nothing and changes nothing |
| Flash.Respond | Sources/App/Middleware/FlashMiddleware.swift:26-36 | the session ends exactly as the handler left it: the read clears the keys and they are written back |
| Models.Database.AddUser | Sources/App/Controllers/AdminController.swift:110 | saving a user appends it under the next identifier and keeps the store valid |
| Models.Database.ReplaceUser | Sources/App/Controllers/AdminController.swift:162 | saving an updated user replaces its row and keeps the store valid |
| Models.Database.ReplaceCopy | Sources/App/Controllers/TeacherController.swift:78 | saving an updated copy replaces its row and keeps the store valid |
| Models.Database.AddPost | Sources/App/Controllers/DeanController.swift:76 | saving a post appends it under the next identifier and keeps the store valid |
| Models.Database.DeletePosts | Sources/App/Controllers/DeanController.swift:165 | deleting removes exactly the rows with the identifier and keeps the store valid |
| Models.Database.AddSecretCode | Sources/App/Controllers/DeanController.swift:138-139 | saving a code appends exactly that row |

## Left out

- Rendering, redirects and request decoding are not modelled. The handlers return what they computed, and a page's content is the function that feeds it (`MarkedCopies`, `UnmarkedCopies`, `CopiesRequiringThirdTeacher`, `AssignedCopies`, `Admins`/`Employees`/`Candidates`, `CandidatesWithoutCodes`).
- Identity checks (`UserAuthenticator.verifyIdentity`) and missing route parameters are not modelled. The acting user's identifier is a parameter (the dean in `Dean.CreatePost`).
- E-mail notifications are not modelled. Every call is wrapped in `try?`, so a failed notification never changes the outcome of a request.
- Thrown database errors are not modelled. Neither are the errors thrown by `Bcrypt.hash` or by the row conversion of `batchCreate` beyond its all-or-nothing result.
- Bcrypt, the row conversion `User(context:)` of `batchCreate` and the code generator `SWCodeGenerator` are function parameters. Their code is not part of this model. The generator is `set<string> -> Option<string>`, where `None` is a throw.
- The generator receives its set `inout`. Whatever it does to the set is not modelled, because the handler never reads the set again.
- Dean.AssignSecretCode: the length and alphabet of the generated code are not stated, because the generator's code is not part of this model.
- `getUser`, `deleteUser` (whose cascade lives in a model file that is not part of this model) and the listing views `getPosts` and `getSecretCodes` are left out. They contain no decision logic, and the order of `getPosts` comes from a database sort on timestamps.
- The Result model file is not part of this model. `Result.Accepted` is taken to mean "value at least the minimum passing mark". It is only passed to a notification.
- String equality in database filters is exact and case-sensitive (`Admin.EmailTaken`). The store's collation is not part of this model.
- Queries without a sort return rows in table order, and filters keep that order (`Sequences.Filter`, `Teacher.AssignedCopies`, `Dean.DeleteRemovesExactlyThatPost`). The store gives no such guarantee.
- Models.Database: identifiers are natural numbers handed out by a counter, where the application uses UUIDs generated on save.
- Text.Lowercased: only ASCII letters are lower-cased. Swift's Unicode case mapping is not modelled.
- Swift counts characters as grapheme clusters. The model counts elements of a `seq<char>`.
- Marks are `real`. Floating-point rounding of `Float`, for example of 2/3 and of the mark difference, is not modelled.
- Requests are sequential and atomic. Concurrent `sendMarks` on the same copy and async suspension points are not modelled.
- CFDPresident.PublishResults: the order of the new results is left open, because the source iterates over a `Set`. The contract fixes their contents as a set together with their number.
