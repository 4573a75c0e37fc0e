# E-learning backend: verified model of progress, enrollments, comments and accounts

This project models the core of an e-learning REST backend in Dafny and proves
properties of it. In that backend, students enroll in a subcategory (a "class")
of the course catalog. Each enrollment carries a progress row holding a nested
completion map, subject → chapter → lesson → value 0..100, plus the share of
lessons at 100. Lessons carry threaded comments. User accounts are verified by
a one-time four-digit code sent by email.

The store is one object, `Store.Db`. Its fields are the tables: users,
enrollments, progress rows keyed by enrollment id, comments, and the
educational-info and course rows of a profile. Each auto-increment key has a
counter. `Db.Valid()` holds the table invariants:

- each (student, subcategory) pair appears in at most one enrollment;
- every progress row belongs to an enrollment and copies its subcategory;
- every leaf is within 0..100, and the stored percentage equals the
  percentage of the stored map;
- replies are one level deep and on their parent's lesson;
- emails are unique;
- keys stay below their counters.

Every handler is a method that takes the store and keeps `Valid()`. Each states, in
order, which failed check it answers, that a failure writes nothing, and the
exact new state on success. The catalog (subcategories, subjects, chapters,
lessons) is read-only here.

Modules follow the source files:

- `ProgressMap`: the completion map and its laws.
- `ProgressController`: the handlers in `controllers/ProgressController.js`.
- `EnrollmentController`, `LessonCommentController`: the handlers of those two
  files.
- `UserAccount` (the code and the per-user transitions), `ProfileRows` (the
  list reconciliation) and `UserController` (the handlers): together they
  cover `controllers/UserController.js`.
- `Pagination`: the page metadata shared by the listing handlers.
- `Store`: the tables, with one small write method per ORM call.

Behaviour that follows the code rather than its intent:

- A `parentId` of 0 is falsy, so the reply checks are skipped. The insert then
  violates the parent foreign key, and the handler answers 500.
- `resetPassword` asks for no code. Anyone who names an existing email can
  set its password, and the model says so (`UserController.ResetPassword`).
- Registration with a role name that has no role row dereferences null. The
  async-error middleware answers 500.
- `deleteUser` compares with the "Super Admin" role first. A missing "Admin"
  role row therefore fails (500) only when that first comparison is false.
- `resendOtp` issues a new code even to a verified user.
- Deleting a comment reads `req.user.role.name`, but no token the program
  issues carries a role object: the login token has no `role`, and the admin
  token holds the role name as a string. With those tokens a non-author's
  request throws and gets 500, and the admin branch is never reached.
  `LessonCommentController.DeleteComment` takes the caller's admin status as
  a flag and states the intended rule (403 unless author or admin).

## Model

| member | source | states |
|---|---|---|
| ProgressMap.Percentage | controllers/ProgressController.js:451-475 | The completion percentage is always in 0..100. It is 0 exactly when no leaf is at 100 (so a map without leaves gives 0), and it is 100 exactly when there are leaves and all of them are at 100 |
| ProgressMap.FreshLeaves | controllers/ProgressController.js:545-580 | A generated map has as leaves exactly the (subject, chapter, lesson) triples the catalog reaches from the subcategory. None of them is completed, so its percentage is 0 |
| ProgressMap.FreshEmptyBranches | controllers/ProgressController.js:557-576 | A subject without chapters, or a chapter without lessons, still appears in a generated map as an empty mapping |
| ProgressMap.FreshIsUnique | controllers/ProgressController.js:545-580 | The generated map is determined by the catalog and the subcategory: two generated maps are equal |
| ProgressMap.FreshInRange | controllers/ProgressController.js:574-576 | Every leaf of a generated map is 0, so it lies within 0..100 |
| ProgressMap.SetLeaf | controllers/ProgressController.js:413-421 | Setting one lesson creates the missing subject and chapter mappings and sets the leaf. It adds exactly that triple to the leaves and leaves every other leaf, subject and chapter unchanged |
| ProgressMap.SetLeafInRange | validators/ProgressValidator.js:32 | Writing a status in 0..100 keeps every leaf in 0..100 |
| ProgressMap.SetLeafIdempotent | controllers/ProgressController.js:413-421 | Issuing the same leaf update twice gives the same map as issuing it once |
| ProgressMap.SetLeafCompleted | controllers/ProgressController.js:413-436 | After the update, the completed leaves are the old ones minus the updated triple, plus that triple exactly when the new value is 100 |
| ProgressMap.SetLeafLeafCount | controllers/ProgressController.js:453-469 | The leaf count grows by one exactly when the updated lesson was not yet in the map |
| ProgressMap.SetLeafCompletedCount | controllers/ProgressController.js:453-469 | The completed count changes by at most one: it drops if the old value was 100 and rises if the new value is 100 |
| ProgressMap.CompletedAreLeaves | controllers/ProgressController.js:460-466 | Leaves counted as completed are among the leaves counted, so completed ≤ total |
| ProgressController.GenerateProgressStructure | controllers/ProgressController.js:545-580 | The nested loops produce a map with one key per subject of the subcategory, one per chapter of each subject and one per lesson of each chapter, every lesson at 0 |
| ProgressController.GenerateSubject | controllers/ProgressController.js:556-578 | The chapter loop builds, for one subject, an empty mapping per chapter, filled with its lessons at 0 |
| ProgressController.GenerateChapter | controllers/ProgressController.js:565-577 | The lesson loop writes a 0 for exactly the chapter's lessons |
| ProgressController.CountChapter | controllers/ProgressController.js:459-468 | The innermost counting loop counts the chapter's lesson keys and those at exactly 100 |
| ProgressController.CountSubject | controllers/ProgressController.js:457-469 | The chapter loop's counters equal the subject's lesson keys and the completed ones among them |
| ProgressController.CountMap | controllers/ProgressController.js:453-469 | The whole counting loop yields the total number of leaves (stale keys included) and the number at exactly 100 |
| ProgressController.PercentageFromCounts | controllers/ProgressController.js:471-475 | Counts over all subjects give the percentage law: 0 with no leaves, otherwise completed / total × 100 |
| ProgressController.CalculateCompletionPercentage | controllers/ProgressController.js:451-476 | The computed value is the completion percentage of the whole map |
| ProgressController.UpdatedRow | controllers/ProgressController.js:413-436 | After a lesson update the leaf holds the status and the leaves grow by that triple only. The stored percentage is the percentage of the updated map, the subcategory is kept, and the access time is now |
| ProgressController.UpdateIdempotent | controllers/ProgressController.js:413-436 | The same lesson update issued twice leaves the same row, map and percentage as issuing it once |
| ProgressController.UpdateKeepsRowConsistent | controllers/ProgressController.js:413-436 | An update with a status in 0..100 keeps every leaf in range and the stored percentage in 0..100 |
| ProgressController.WriteLesson | controllers/ProgressController.js:413-430 | The in-place leaf write followed by the recomputation yields the updated row |
| ProgressController.UpdateLessonProgress | controllers/ProgressController.js:363-443 | Checks in order: status in 0..100, subject, chapter under subject, lesson under chapter, progress row. The first failure is answered and nothing is written. On success only this enrollment's row changes, to the updated row |
| ProgressController.ResetProgress | controllers/ProgressController.js:505-530 | Answers 404 for a missing enrollment, then for a missing progress row. Otherwise only this row changes: it gets a freshly generated map for the enrollment's subcategory, percentage 0 and access time now |
| EnrollmentController.StatusOrActive | controllers/EnrollmentController.js:233 | `status \|\| "active"`: a missing or empty status becomes "active"; any other status is kept. The creation validator refuses an empty status before this point, so on that path only a missing status is replaced |
| EnrollmentController.CreateEnrollment | controllers/EnrollmentController.js:186-254 | Answers 422 for an empty status (the validator's `Joi.string()` refuses ""), then 404 for the student, then 404 for the subcategory, then 409 for a pair already enrolled, and writes nothing on failure. On success it adds the enrollment (status or "active", date or now) under a new id. It also adds one progress row with the same subcategory, a freshly generated map and percentage 0; all other rows are unchanged |
| EnrollmentController.DeleteEnrollment | controllers/EnrollmentController.js:395-419 | A missing enrollment is answered 404 with nothing removed. Otherwise exactly its progress row and then the enrollment are removed |
| EnrollmentController.DeleteFreesPair | controllers/EnrollmentController.js:216-218 | After the enrollment holding a pair is deleted, no enrollment holds that pair, and no pair becomes enrolled that was not before |
| EnrollmentController.GeneratorsAgree | controllers/EnrollmentController.js:291-331 | The generator used on enrollment and the one used on reset return the same map for the same catalog and subcategory, with percentage 0 |
| EnrollmentController.EnrollDeleteReenroll | controllers/EnrollmentController.js:216-254 | Enroll, delete, then enroll the same pair again: both creations succeed |
| Pagination.TotalPages | controllers/EnrollmentController.js:97 | The page count is the ceiling of total / limit: enough pages for every row and not one more, and 0 exactly when there are no rows |
| Pagination.Offset | controllers/EnrollmentController.js:27 | Page p starts after the rows of pages 1..p-1, and the offset is never negative for p ≥ 1 |
| Pagination.Paginate | controllers/ProgressController.js:82-84 | The metadata's page count is the ceiling; there is a next page when the page is below it and a previous page when the page is above 1 |
| Pagination.NextPageMeansMoreRows | controllers/UserController.js:383-385 | The next-page flag is set exactly when rows remain after the current page |
| Pagination.PageInRange | controllers/EnrollmentController.js:500-502 | For a page between 1 and the page count, the page's first row exists |
| LessonCommentController.CreateComment | controllers/LessonCommentController.js:127-204 | Checks in order: content of 1..5000 UTF-16 code units, lesson, then for a truthy parentId the parent exists, is top-level, and is on the same lesson. A missing caller row or a parentId of 0 fails the insert with 500. Failures add nothing; success adds exactly the new comment under a new id |
| LessonCommentController.UpdateComment | controllers/LessonCommentController.js:207-274 | Answers invalid content, then a missing comment, then 403 for a caller who is not the author. On success only that comment's content changes |
| LessonCommentController.DeleteComment | controllers/LessonCommentController.js:277-330 | Answers 404, then 403 unless the caller is the author or an admin. Deleting a top-level comment removes it and exactly its replies; deleting a reply removes only it. Threads stay one level deep |
| LessonCommentController.NoRepliesToReply | controllers/LessonCommentController.js:161-164 | Because replies may not be answered, nothing points at a reply, so it can be deleted alone |
| LessonCommentController.ListTopLevel | controllers/LessonCommentController.js:25-39 | An unknown lesson is a 404; otherwise the listing holds exactly the top-level comments of that lesson |
| LessonCommentController.RepliesOf | controllers/LessonCommentController.js:46-56 | The replies shown under a comment are exactly the comments whose parent it is |
| LessonCommentController.LongAstralCommentRefused | validators/LessonCommentValidator.js:10 | A comment of 2501 or more characters outside the Basic Multilingual Plane is refused, since the 5000 bound counts code units |
| LessonCommentController.ListingCoversLesson | controllers/LessonCommentController.js:35-62 | With well-formed threads, every comment of the lesson appears exactly once in the listing: either top-level, or as a reply under exactly one listed comment |
| Common.JsLength | validators/LessonCommentValidator.js:10 | The length the validators compare is the UTF-16 length, between the character count and twice it |
| Common.JsLengthOfBmp | validators/UserValidator.js:10-12 | The UTF-16 length equals the character count exactly when every character is in the Basic Multilingual Plane |
| Common.JsLengthOfAstral | validators/UserValidator.js:39 | Characters outside the Basic Multilingual Plane count twice each |
| UserAccount.DigitChar | controllers/UserController.js:51 | A digit value prints as the matching decimal character |
| UserAccount.DecimalString | controllers/UserController.js:51 | A number prints as decimal digits without a leading zero |
| UserAccount.DecimalRoundTrip | controllers/UserController.js:51 | Reading back the printed number gives the number |
| UserAccount.DecimalInjective | controllers/UserController.js:51 | Different numbers give different codes |
| UserAccount.FourDigitText | controllers/UserController.js:51 | Numbers 1000..9999 print as exactly four characters |
| UserAccount.OtpNumber | controllers/UserController.js:51 | Any draw of Math.random() in [0, 1) gives a number in 1000..9999 |
| UserAccount.OtpCode | controllers/UserController.js:51 | A code is four digits denoting a number in 1000..9999 |
| UserAccount.OtpCodeCovers | controllers/UserController.js:202 | Every number in 1000..9999 is the code of some draw |
| UserAccount.IssueCode | controllers/UserController.js:202-207 | Issuing stores the code and an expiry of now + 60000 ms and changes no other column |
| UserAccount.MarkVerified | controllers/UserController.js:295-298 | Verification clears the code and the expiry and marks the email verified, changing nothing else |
| UserAccount.SetPassword | controllers/UserController.js:257-260 | A password reset stores the new hash and leaves code and expiry null, changing nothing else |
| UserAccount.CodeLivesOneMinute | controllers/UserController.js:286-290 | A freshly issued code is accepted exactly when it is the code submitted and at most one minute has passed |
| UserAccount.ReissueInvalidatesOld | controllers/UserController.js:423-427 | After a new code is issued, no other code is accepted, the previous one included |
| UserAccount.CodeIsSingleUse | controllers/UserController.js:258-297 | After a verification or a password reset, no code is accepted |
| UserController.FindByEmail | controllers/UserController.js:27-29 | The lookup finds a user exactly when one has the email, and then it finds that user |
| UserController.OwnerOf | controllers/UserController.js:125-127 | The user found for an email is in the table and has that email |
| UserController.Registered | controllers/UserController.js:51-68 | A registered user is unverified and has no remember token. Its code is accepted now and rejected once the minute has passed. The username is stored as given, or as "" |
| UserController.RegisterUser | controllers/UserController.js:16-107 | Answers 422 from the validator (role Student or Instructor, password ≥ 6, username ≥ 3, phone 11..14, lengths in UTF-16 code units, and a boolean `rememberMe` present), then a taken email (400), then a missing role row (500); nothing is written on failure. Otherwise one new user is added |
| UserController.LoginUser | controllers/UserController.js:111-173 | A missing email, password or `rememberMe` gets 422. An unknown email gets 401. An unverified account gets 403 before the password is compared. A wrong password gets 401. Success requires a verified account, and only rememberMe writes: the token |
| UserController.ForgotPassword | controllers/UserController.js:176-231 | A missing email is invalid, an unknown user gets 401 and an unverified one 403, and nothing is written. Otherwise only that user changes, with a new code expiring in one minute |
| UserController.ResendOtp | controllers/UserController.js:409-448 | A missing email is invalid and an unknown user gets 404. Otherwise only that user changes, with a new one-minute code |
| UserController.VerifyOtp | controllers/UserController.js:271-301 | An unknown user gets 404, and a wrong, missing or expired code gets 400, with nothing written. On success only that user changes: code cleared, email verified |
| UserController.ResetPassword | controllers/UserController.js:234-268 | Needs an email and a new password, and an unknown email gets 400. Otherwise the new hash is stored and the code cleared, without any code being asked for |
| UserController.DeleteUser | controllers/UserController.js:538-589 | A missing user gets 404. An account with the Super Admin or Admin role is refused (403) and nothing is deleted; a missing role row reached by the comparison gives 500. A user that an enrollment or a comment still references gives 500, since those foreign keys declare no `onDelete`, and nothing is removed. Any other user is removed alone |
| UserController.WithProfile | controllers/UserController.js:671-690 | The given fields take the given values; every field not given, and every non-profile column, keeps its value |
| UserController.CopyProfile | controllers/UserController.js:684-690 | The user update runs only when a field is given and changes only that user; a missing user is left as it is |
| UserController.ReconcileIfGiven | controllers/UserController.js:693-811 | An absent or empty list leaves the table untouched; a non-empty one is reconciled |
| UserController.UpdateProfile | controllers/UserController.js:651-857 | Answers 422 for an invalid user field or list item (a column the list does not have, empty or null text, a wrong type, lengths in UTF-16 code units). If the user row is gone and a list item would create a row, it answers 500 and nothing changes. Otherwise the profile fields are copied and each non-empty list is reconciled |
| UserController.RegisteredCannotLogIn | controllers/UserController.js:61 | A just-registered account is unverified, so login refuses it |
| UserController.RegisterThenVerify | controllers/UserController.js:51-61 | The emailed code, submitted within the minute, is accepted and verifies the account, and it cannot be used again |
| ProfileRows.Stored | controllers/UserController.js:722-729 | Each column holds the item's value when it is truthy and NULL otherwise (`value \|\| null`) |
| ProfileRows.IncomingIds | controllers/UserController.js:701-703 | The incoming ids are exactly the truthy ids of the items |
| ProfileRows.Prune | controllers/UserController.js:706-714 | The delete step removes exactly the user's rows whose id is not incoming; rows of other users stay |
| ProfileRows.Apply | controllers/UserController.js:717-750 | An item with an id keeps the keys and rewrites only an owned row. An item without an id adds one row under the next id |
| ProfileRows.Reconcile | controllers/UserController.js:693-751 | The handler's loop computes the reconciliation: delete step, then every item in order |
| ProfileRows.ApplyFrame | controllers/UserController.js:719-749 | One item never touches another user's rows, and gives any new row to the user |
| ProfileRows.ApplyAllFrame | controllers/UserController.js:717-750 | The items keep every key, and one new id is handed out per item without an id. Every new row belongs to the user, and other users' rows are untouched |
| ProfileRows.ReconcileFrame | controllers/UserController.js:754-811 | Other users' rows are unchanged and the user's unmentioned rows are deleted. The user's mentioned rows stay, and the new rows are the user's, under the next ids |
| ProfileRows.LastItemWins | controllers/UserController.js:717-734 | An owned row named by several items ends up with the columns of the last one |
| ProfileRows.ReconcileUpdates | controllers/UserController.js:778-794 | After reconciliation, a row the user owns and the list names holds the columns of the last item naming it |

## Left out

- HTTP routing, the response envelope and the JWT auth middleware are not
  modelled. Handlers return a `Response` value. The caller's id and admin flag
  are parameters.
- bcrypt, token signing, `Math.random()`, the clock and mail are replaced by
  parameters: a hash function, a compare function, a token string, a draw in
  [0, 1) and `now` in milliseconds. Mail delivery and its failure are not
  modelled.
- Sequelize, the repos and the migrations are replaced by maps. The unique
  indexes and foreign keys become the `Valid()` invariants and the store
  methods' preconditions.
- Transactions: the enrollment repos drop the transaction option, so the
  enrollment and progress writes are modelled as sequential writes that
  succeed. `updateProfile` passes its transaction directly, so its foreign-key
  failure is modelled as "nothing changes".
- Concurrency is not modelled. Concurrent lesson updates can lose an update,
  and the `Promise.all` lookups are modelled as sequential checks.
- The completion percentage is a JavaScript float; it is modelled as an exact
  `real`.
- Listing order (`createdAt` ordering), the joined user columns and the
  listing query of each controller are not modelled. Only the top-level
  filter of the comment listing and the pagination arithmetic are.
- Request bodies are taken to carry no keys beyond those their schema
  names. The 422 that Joi answers for an extra key is not modelled, except
  for the columns of profile list items.
- Validation formats: email, URL and date formats. Joi type conversions
  (a numeric string for a number, a date string for a date) are not
  modelled; dates are numbers.
- Strings are sequences of Unicode scalar values, so a lone UTF-16 surrogate,
  which a JavaScript string can hold, cannot be written. The validators'
  length bounds are counted in UTF-16 code units (`Common.JsLength`).
- `verifyOtp` compares with `!==`: a numeric code in the request body never
  equals the stored string. The model takes the code as a string.
- UserController.DeleteUser: the refusal is modelled for enrollments and
  comments that reference the user. EducationalInfo and Course rows have no
  migration, and subject ratings (whose user key also declares no
  `onDelete`) are outside the model. For a user referenced only by those rows, the model
  answers `Ok`; the source answers 500 whenever the database refuses.
- The progress row's own id is not modelled: progress is keyed by its unique
  enrollment id.
- `updateProgress` writes arbitrary maps and its route is disabled. The rating
  average, the other CRUD controllers and `changePassword` and `adminLogin`
  are not part of this model.
- The loops of `generateProgressStructure` and `calculateCompletionPercentage`
  are split into one method per nesting level. Each level iterates over a set
  of keys, in an order the model does not fix; the result does not depend on
  it.
- `TotalPages` requires a limit of at least 1. A zero or negative `limit`
  query parameter is not modelled.
- Four methods are compositions written to state properties, not handlers of
  the source: the enroll-delete-re-enroll scenario, the two-generator
  comparison, and the user and list steps of the profile update.
