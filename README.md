# Course registration: a verified model of the enrollment ledger

This project models the core of a course-registration web application in
Dafny and proves properties of the model. The application is an Express and
MongoDB backend with a React frontend. The model covers four parts.

- **The enrollment ledger.** This is the enroll and drop handlers, the course
  roster, the caller's courses and the roster's CSV export. It relies on the
  Course and Enrollment schemas. Enroll and drop are transition functions of a
  `Ledger` value holding the course and enrollment collections (`Ledger`).
  A `Database` class (`Store`) performs the same reads and writes step by
  step. Its methods are proved to leave exactly the state, and return exactly
  the status, of those functions.
- **Account verification.** This is register, verify-OTP, resend-OTP and the
  login gate over the user collection (`Accounts`). It relies on the User
  schema's role-conditional rules (`UserSchema`). The clock is an integer
  number of milliseconds. The one-time code is an opaque string.
- **The catalogue handlers.** This is the active-course list with its
  department and search filters and its sort by course code, and get, create,
  update and delete (`Catalogue`).
- **The frontend's pure helpers.** These are:
  - the course-list filter chain, the optimistic seat bump and the enroll
    handler's state update (`CourseList`);
  - the admin course form (`CourseForm`);
  - the course card (`CourseCard`);
  - the credit total (`EnrolledCourses`);
  - the admin dashboard figures (`AdminDashboard`);
  - the upload validator (`CourseFileUpload`);
  - the OTP input (`OtpInput`).

Collections are sequences in their natural (insertion) order, and lookups
return the first match, as `findOne` does. The course collection is a sequence
of documents with unique ids (`Ledger.UniqueCourseIds`), not a map, because
the catalogue list and the dashboard read it in order.

Several library and driver details are parameters or opaque values:
- `ObjectId.isValid` and the cast of a path id are a predicate `validId`.
- The address validator is a predicate `isEmail`.
- bcrypt's compare is a predicate `passwordMatches` over the stored password
  and the candidate.
- Whether the mail was sent is a Boolean `mailSent`.
- `toISOString` is a function `iso`.

The model follows the route code where it goes further than the schema's
intent:
- create and update copy a client-supplied `enrolled` into the course;
- update may lower `capacity` below `enrolled` (`Catalogue.UpdateCanOverfill`);
- deleting a course removes it outright and leaves its enrollment rows in
  place.

Proved invariants:
- The ledger invariant (`Ledger.Invariant`) holds across any sequence of
  enroll and drop requests (`Ledger.RunPreservesInvariant`), provided each
  counter save succeeds (see "## Left out"). It has four parts:
  - course ids are unique;
  - there is at most one row per (student, course) pair;
  - each course's counter equals its number of `enrolled` rows;
  - no counter exceeds its capacity.
- Deleting a course keeps the ledger invariant.
- Each handler keeps the user-collection invariant (`UserSchema.ValidUsers`).

The proofs are sequential: they say nothing about concurrent requests.

## Model

| member | source | states |
|---|---|---|
| CourseSchema.AvailableSeats | backend/models/Course.js:86-88 | free seats plus enrolled equals capacity; they are negative exactly when the course is over-enrolled |
| CourseSchema.SchemaAllowsNegativeSeats | backend/models/Course.js:51-54 | a course the schema accepts can report negative free seats, because `enrolled` has no bound |
| CourseSchema.CourseFromBody | backend/models/Course.js:4-80 | creation succeeds iff every required field is present and valid; the stored course is valid, its code upper-cased, `enrolled` defaults to 0, `isActive` to true, `days` to empty |
| CourseSchema.ApplyBody | backend/routes/courses.js:79-83 | only the given fields are overwritten; a valid course stays valid; `enrolled` and `capacity` come from the body or stay, never reconciled |
| EnrollmentSchema.StatusName | backend/models/Enrollment.js:15-19 | every status's stored name parses back to that status |
| EnrollmentSchema.ParseStatus | backend/models/Enrollment.js:15-19 | exactly the three enum names are accepted |
| EnrollmentSchema.GradeName | backend/models/Enrollment.js:20-24 | every grade's stored letter parses back to that grade |
| EnrollmentSchema.ParseGrade | backend/models/Enrollment.js:20-24 | exactly A to F and null are accepted; null means no grade |
| EnrollmentSchema.NewEnrollment | backend/models/Enrollment.js:5-28 | a new row has the given student and course, status defaulting to `enrolled`, no grade, and `enrolledAt` the creation instant |
| UserSchema.RoleName | backend/models/User.js:8 | every role's stored name parses back to that role |
| UserSchema.ParseRole | backend/models/User.js:8 | an absent role is a student; exactly `student` and `admin` are accepted |
| UserSchema.FindByEmail | backend/routes/auth.js:37 | the first user with that address (no earlier user has it), or none iff no user has it |
| UserSchema.FindByStudentId | backend/routes/auth.js:50 | the first user with that student id (no earlier user has it), or none iff no user has it |
| UserSchema.FindById | backend/routes/enrollments.js:95-96 | the first user with that id, or none iff no user has it; in a collection with unique ids, the only one |
| Ledger.FindCourse | backend/routes/enrollments.js:17-18 | the course with that id, or none iff no course has it |
| Ledger.FindActive | backend/routes/enrollments.js:28-35 | the pair's `enrolled` row, or none iff the pair has no such row |
| Ledger.FindPair | backend/models/Enrollment.js:33 | a row of the pair in any status, or none iff there is none |
| Ledger.Enroll | backend/routes/enrollments.js:12-51 | guard order 404, inactive 400, full 400, already enrolled 400, leftover pair row 500; failures change nothing; success appends one `enrolled` row and raises that course's counter by one; the capacity bound is kept |
| Ledger.Drop | backend/routes/enrollments.js:57-83 | 500 for a malformed id, 404 iff there is no active row, otherwise 200; failures change nothing; success removes that row and lowers the counter, floored at 0, and succeeds even when the course is gone (the counter save is assumed to succeed) |
| Ledger.ActiveCountAppend | backend/routes/enrollments.js:37-44 | appending a row adds one to its course's active count iff it is active |
| Ledger.ActiveCountRemove | backend/routes/enrollments.js:62-76 | removing a row takes one from its course's active count iff it was active |
| Ledger.EnrollPreservesInvariant | backend/routes/enrollments.js:37-44 | enroll keeps unique ids, unique pairs, counter = active rows, and counters within capacity |
| Ledger.RemovePreservesUniquePairs | backend/models/Enrollment.js:33 | deleting a row keeps at most one row per pair |
| Ledger.DropKeepsCounters | backend/routes/enrollments.js:72-76 | after a successful drop every counter still equals its active rows and stays within capacity |
| Ledger.DropPreservesInvariant | backend/routes/enrollments.js:62-76 | drop keeps the whole ledger invariant, given a successful counter save |
| Ledger.DropTwiceIsNoop | backend/routes/enrollments.js:62-70 | a second consecutive drop of the same pair is a 404 that changes nothing |
| Ledger.RunPreservesInvariant | backend/routes/enrollments.js:12-83 | any sequence of enroll and drop requests keeps the ledger invariant, given successful counter saves |
| Csv.ReadQuotedEscape | backend/routes/enrollments.js:147 | an escaped value and its closing quote read back as the value |
| Csv.ReadFieldsRecord | backend/routes/enrollments.js:147 | a quoted, comma-joined record reads back as its fields |
| Csv.ParseDocument | backend/routes/enrollments.js:146-148 | a document of records joined by line feeds reads back as exactly those records |
| EnrollmentQueries.Student | backend/routes/enrollments.js:95-96 | the populated student exists iff a user has that id, and is that user |
| EnrollmentQueries.RosterEntryOf | backend/routes/enrollments.js:95-103 | a record carries the row's id and time and the student's selected fields, all absent for a missing student |
| EnrollmentQueries.Roster | backend/routes/enrollments.js:89-108 | 500 iff the id does not cast; otherwise one record per active row of the course, in row order |
| EnrollmentQueries.RosterRecordsAreActiveRows | backend/routes/enrollments.js:92-103 | every roster record comes from an active row of the course |
| EnrollmentQueries.ActiveRowsAreInRoster | backend/routes/enrollments.js:92-103 | every active row of the course has a roster record |
| EnrollmentQueries.RosterLengthIsCounter | backend/routes/enrollments.js:92-103 | under the invariant the roster is as long as the course's counter |
| EnrollmentQueries.ItemOf | backend/routes/enrollments.js:113-116 | an item holds its row and the summary of its course iff the course still exists |
| EnrollmentQueries.MyCourses | backend/routes/enrollments.js:111-121 | exactly the caller's `enrolled` rows, in row order, each with its course |
| EnrollmentQueries.MyCoursesAfterEnroll | backend/routes/enrollments.js:37-41 | a successful enroll adds exactly the new row at the end of the caller's courses |
| EnrollmentQueries.DroppedCourseLeavesMyCourses | backend/routes/enrollments.js:62-66 | after a successful drop the course is no longer among the caller's courses |
| EnrollmentQueries.CsvFields | backend/routes/enrollments.js:137-145 | six fields: the student's name, email, student id, major and semester, `''` for any missing, then the ISO time |
| EnrollmentQueries.ExportCsv | backend/routes/enrollments.js:127-158 | 404 without the course, 500 for a bad id; otherwise the text reads back as the header plus one record per active row |
| Text.DecimalString | backend/routes/enrollments.js:143 | `String(n)` is non-empty digits, with a leading minus for a negative number |
| Text.NatDigitsValue | backend/routes/enrollments.js:143 | the decimal digits of a number read back as the number |
| Text.DigitsOnly | frontend/src/components/Auth/OTPVerification.jsx:103 | exactly the digits of the input, in their order: every digit is kept and nothing else |
| Text.DigitsOnlyOfDigits | frontend/src/components/Auth/OTPVerification.jsx:103 | a string of digits is unchanged |
| Text.Trim | backend/routes/auth.js:16 | the result is empty iff the input is all whitespace, and has no whitespace at either end |
| Text.TrimIsInfix | backend/routes/auth.js:16 | the result occurs in the input with only whitespace cut off before and after it |
| Catalogue.LexLeTotal | backend/routes/courses.js:27 | any two codes are ordered one way or the other |
| Catalogue.LexLeTransitive | backend/routes/courses.js:27 | the code order is transitive |
| Catalogue.LexLeAntisymmetric | backend/routes/courses.js:27 | two codes ordered both ways are equal |
| Catalogue.Insert | backend/routes/courses.js:27 | inserting into a sorted list keeps it sorted and adds exactly that course |
| Catalogue.SortByCode | backend/routes/courses.js:27 | the result is sorted by code and is a permutation of the input |
| Catalogue.ListCourses | backend/routes/courses.js:9-33 | sorted by code; a permutation of the active courses passing the department and search filters; nothing else is listed |
| Catalogue.GetCourse | backend/routes/courses.js:36-59 | 400 for a malformed id before any lookup, then 404 if absent, else exactly that course |
| Catalogue.FindCode | backend/models/Course.js:4-9 | the course with that code, or none iff no course has it |
| Catalogue.CreateCourse | backend/routes/courses.js:62-70 | 201 iff the body validates and its code and id are new, appending exactly that course; otherwise 500 and no change; catalogue validity is kept |
| Catalogue.UpdateCourse | backend/routes/courses.js:73-94 | only 200, 400, 404 or 500: 400, then 500 for an invalid field, then 404; a present course is updated (200) iff no other course holds the new code; success replaces only that course; validity is kept |
| Catalogue.DeleteCourse | backend/routes/courses.js:98-115 | 400, then 404, otherwise 200; success removes exactly that course and no course keeps its id |
| Catalogue.GetAfterDelete | backend/routes/courses.js:104-110 | a deleted course is then not found |
| Catalogue.GetAfterCreate | backend/routes/courses.js:64-66 | a created course is then found under its id |
| Catalogue.DeleteKeepsLedgerInvariant | backend/routes/courses.js:104-110 | deleting a course, rows left in place, keeps the ledger invariant |
| Catalogue.UpdateCanOverfill | backend/routes/courses.js:79-83 | an update can leave a course with more students than seats |
| Catalogue.CapacityOnlyUpdate | backend/routes/courses.js:79-83 | a body carrying only a capacity succeeds on a course with an unshared code and changes that capacity alone, whatever the counter |
| Accounts.NormalizeEmail | backend/models/User.js:6 | the stored address is lower-case and as long as the given one |
| Accounts.NewUser | backend/routes/auth.js:56-94 | admins are created verified with no code; students unverified, with the code expiring ten minutes after now |
| Accounts.Register | backend/routes/auth.js:15-121 | validation, then duplicate email, then missing student fields, then duplicate student id give 400 and no change; a request passing all four is handed to `Admit` with the user built from it, which has a free address (and student id) and is appended when it satisfies the schema; a student whose mail fails is stored but answered 500 |
| Accounts.Admit | backend/routes/auth.js:64-120 | the create is refused with 400 and no change iff the document fails the schema or its id is taken; otherwise it is appended, and the reply is 500 exactly for a student whose mail failed |
| Accounts.RegisterKeepsValidUsers | backend/models/User.js:6-16 | registration keeps every existing user as it was and keeps the collection valid and unique |
| Accounts.AppendKeepsUnique | backend/models/User.js:6-16 | adding a user with a new id, address and student id keeps the uniqueness rules |
| Accounts.Verified | backend/routes/auth.js:158-161 | the user becomes verified with code and expiry cleared, its identity unchanged |
| Accounts.VerifyOtp | backend/routes/auth.js:125-178 | only 200, 400, 404 or 500: 400 for a bad request, 404 unknown, 400 already verified, 400 wrong code, 400 expired, 500 iff the verified document fails the schema, else 200 verifying that user; verified users never change; the user invariant is kept |
| Accounts.Reissued | backend/routes/auth.js:197-202 | a fresh code expiring ten minutes after now, the verification flag unchanged |
| Accounts.ResendOtp | backend/routes/auth.js:181-212 | 404 unknown, 400 already verified; for an unverified user whose reissued document is valid the code is stored and the reply is 200 iff the mail was sent; verified users never change; the user invariant is kept |
| Accounts.Login | backend/routes/auth.js:215-256 | 400 for a bad request, 401 for an unknown user or wrong password, 403 only for an unverified student, else 200 |
| Accounts.AdminNeverGated | backend/routes/auth.js:233-239 | an admin with the right password always logs in, verified or not |
| Accounts.ExpiryInstantAccepted | backend/routes/auth.js:148-150 | the code is accepted at the expiry instant and refused one millisecond later |
| Accounts.RegisterThenVerify | backend/routes/auth.js:84-94 | a registered student verifies with the mailed code within ten minutes |
| Accounts.VerifyThenLogin | backend/routes/auth.js:158-161 | after verification the student logs in with the right password |
| Accounts.ResendThenVerify | backend/routes/auth.js:197-202 | after a resend the new code verifies within ten minutes |
| Store.Database.Enroll | backend/routes/enrollments.js:12-51 | status and new collections are those of `Ledger.Enroll`; users untouched; the ledger invariant is kept |
| Store.Database.Drop | backend/routes/enrollments.js:57-83 | status and new collections are those of `Ledger.Drop`; users untouched; the ledger invariant is kept |
| Store.Database.CreateCourse | backend/routes/courses.js:62-70 | status and courses are those of `Catalogue.CreateCourse`; rows and users untouched |
| Store.Database.UpdateCourse | backend/routes/courses.js:73-94 | status and courses are those of `Catalogue.UpdateCourse`; rows and users untouched |
| Store.Database.DeleteCourse | backend/routes/courses.js:98-115 | status and courses are those of `Catalogue.DeleteCourse`; rows untouched; the ledger invariant is kept |
| Store.Database.Register | backend/routes/auth.js:15-121 | status and users are those of `Accounts.Register`; courses and rows untouched |
| Store.Database.Admit | backend/routes/auth.js:64-120 | status and users are those of `Accounts.Admit`; courses and rows untouched |
| Store.Database.VerifyOtp | backend/routes/auth.js:125-178 | status and users are those of `Accounts.VerifyOtp`; courses and rows untouched |
| Store.Database.ResendOtp | backend/routes/auth.js:181-212 | status and users are those of `Accounts.ResendOtp`; courses and rows untouched |
| CourseList.FilterCourses | frontend/src/components/Courses/CourseList.jsx:51-84 | the four conditional passes equal one filter by their conjunction, so the result is an order-preserving sub-list |
| CourseList.StudentSeesOnlyActive | frontend/src/components/Courses/CourseList.jsx:55-62 | with "My Semester Only" on, a student sees only active courses |
| CourseList.BumpSeat | frontend/src/components/Courses/CourseList.jsx:98-100 | only the course with that id changes, to one more student capped at capacity |
| CourseList.BumpAgreesWithServer | frontend/src/components/Courses/CourseList.jsx:98-100 | after a server-side 201 the bumped list equals the server's new course list |
| CourseList.FailureText | frontend/src/components/Courses/CourseList.jsx:103 | never empty: the server's message when it is present and non-empty, otherwise 'Enrollment failed' |
| CourseList.Page.HandleEnroll | frontend/src/components/Courses/CourseList.jsx:86-108 | success adds the id and bumps its seat; failure changes neither and shows the server's message, or 'Enrollment failed' when it is missing or empty; the request is no longer in flight, and the button is disabled exactly when full |
| CourseForm.ToggleDay | frontend/src/components/Admin/CourseManagement.jsx:154-163 | the day is present afterwards iff it was absent; an absent day is appended, a present one removed everywhere |
| CourseForm.ToggleTwice | frontend/src/components/Admin/CourseManagement.jsx:154-157 | toggling an absent day twice restores the list |
| CourseForm.AddPrerequisiteAsWritten | frontend/src/components/Admin/CourseManagement.jsx:165-173 | blank input or a listed trimmed input changes nothing; otherwise the upper-cased code is appended and the input cleared |
| CourseForm.AsWrittenAddsDuplicate | frontend/src/components/Admin/CourseManagement.jsx:166-169 | typing `cs100` with `CS100` listed appends a second `CS100` |
| CourseForm.AddPrerequisite | frontend/src/components/Admin/CourseManagement.jsx:165-173 | as above but the duplicate test uses the upper-cased code, so the list never gains a duplicate |
| CourseForm.RemovePrerequisite | frontend/src/components/Admin/CourseManagement.jsx:175-180 | every equal entry is removed, the rest kept in order, and no duplicates appear |
| CourseForm.RemoveAfterAdd | frontend/src/components/Admin/CourseManagement.jsx:165-179 | removing the code just added restores the list |
| CourseForm.Payload | frontend/src/components/Admin/CourseManagement.jsx:106-123 | the numbers pass through, the schedule is always sent, and `enrolled` never is |
| CourseForm.DefaultSemesterRejected | frontend/src/components/Admin/CourseManagement.jsx:28 | a form still holding the default semester `'even'` is refused by create and by update |
| CourseForm.DefaultFormCreates | frontend/src/components/Admin/CourseManagement.jsx:14-31 | the corrected default form, once its text is filled in, creates an active course with no students, 3 credits and 30 seats |
| CourseForm.EditRoundTrip | frontend/src/components/Admin/CourseManagement.jsx:82-99 | submitting a valid course's edit form unchanged leaves the course unchanged |
| CourseCard.Render | frontend/src/components/Courses/CourseCard.jsx:1-110 | nothing without a course; free seats equal the schema's `availableSeats`; full iff no seats left; enroll offered iff a handler exists and not enrolled, disabled iff full; drop iff enrolled with a handler |
| CourseCard.NeverBothActions | frontend/src/components/Courses/CourseCard.jsx:80-110 | a card never offers both enroll and drop |
| CourseCard.CardAgreesWithList | frontend/src/components/Courses/CourseCard.jsx:80-84 | with no request in flight, the card's and the list's enroll buttons are disabled alike |
| EnrolledCourses.Shown | frontend/src/components/Dashboard/EnrolledCourses.jsx:151-153 | exactly the items whose course exists are rendered, in order |
| EnrolledCourses.TotalCredits | frontend/src/components/Dashboard/EnrolledCourses.jsx:54 | the total equals the credits of the rendered cards alone |
| EnrolledCourses.TotalCreditsBounds | frontend/src/components/Dashboard/EnrolledCourses.jsx:54 | the total lies between 1 and 4 credits per rendered card |
| EnrolledCourses.LoadStatus | frontend/src/components/Dashboard/EnrolledCourses.jsx:110 | part-time iff below 12 credits, full-time iff 12 or more |
| EnrolledCourses.CourseWord | frontend/src/components/Dashboard/EnrolledCourses.jsx:71 | singular iff exactly one enrollment |
| EnrolledCourses.StatusLabel | frontend/src/components/Dashboard/EnrolledCourses.jsx:258 | first letter upper-cased, the rest unchanged |
| EnrolledCourses.BadgeIsEnrolled | frontend/src/components/Dashboard/EnrolledCourses.jsx:258 | every card of the caller's courses shows "Enrolled" |
| EnrolledCourses.CountedButNotCredited | frontend/src/components/Dashboard/EnrolledCourses.jsx:54 | items whose courses are all gone render nothing and add no credits |
| AdminDashboard.RoundHalfUp | frontend/src/components/Dashboard/AdminDashboard.jsx:27 | the nearest integer to the quotient, halves rounded up |
| AdminDashboard.DashboardStats | frontend/src/components/Dashboard/AdminDashboard.jsx:24-34 | the course count, the active count (at most the total), the sum of counters, and the rounded mean capacity (0 without courses) |
| AdminDashboard.RecentCourses | frontend/src/components/Dashboard/AdminDashboard.jsx:36 | the first min(5, n) courses in the order served |
| AdminDashboard.ListedCoursesAreAllActive | frontend/src/components/Dashboard/AdminDashboard.jsx:24-31 | over the served list the active count equals the course count |
| AdminDashboard.EnrollmentsWithinCapacity | frontend/src/components/Dashboard/AdminDashboard.jsx:32 | with counters within capacity, total enrollments do not exceed total seats |
| AdminDashboard.EnrollmentsAreActiveRows | frontend/src/components/Dashboard/AdminDashboard.jsx:32 | with consistent counters, total enrollments count the active rows of existing courses |
| AdminDashboard.AverageCapacityAtLeastMinimum | frontend/src/components/Dashboard/AdminDashboard.jsx:26-27 | valid courses have a mean capacity of at least one seat |
| CourseFileUpload.HandleFileChange | frontend/src/components/CourseFileUpload.jsx:9-41 | a file is kept iff it is at most 10 MiB and of an allowed type; no selection clears both; size is checked before type; file and error are never both set |
| CourseFileUpload.UploadedFile | frontend/src/components/CourseFileUpload.jsx:43-44 | the upload does nothing iff no file is set |
| CourseFileUpload.UploadOnlyAcceptable | frontend/src/components/CourseFileUpload.jsx:9-44 | an upload only ever sends the picked file, after both checks passed |
| CourseFileUpload.LimitIsInclusive | frontend/src/components/CourseFileUpload.jsx:19 | exactly 10 MiB of an allowed type is accepted |
| CourseFileUpload.SizeReportedBeforeType | frontend/src/components/CourseFileUpload.jsx:19-38 | an oversize file of another type reports the size error |
| OtpInput.Sanitize | frontend/src/components/Auth/OTPVerification.jsx:103 | digits only, at most six, the first digits of the input in order (the input's digit filter cut to six) |
| OtpInput.SanitizeIdempotent | frontend/src/components/Auth/OTPVerification.jsx:103 | sanitising twice equals sanitising once |
| OtpInput.SanitizeKeepsShortCodes | frontend/src/components/Auth/OTPVerification.jsx:103 | up to six typed digits are kept as typed |
| OtpInput.EnabledCodePassesServerCheck | frontend/src/components/Auth/OTPVerification.jsx:122 | a code the button lets through passes the server's length check |

## Left out

- Concurrency and atomicity. Enroll's check, create and save are not a transaction. All proofs are about requests applied one at a time.
- A failed `course.save()` after a successful row create (backend/routes/enrollments.js:37-44). This leaves a row without its counter increment; the model has no such failure branch.
- Ledger.Drop: a failed `course.save()` after the row delete (backend/routes/enrollments.js:72-81) is not modelled; the save is assumed to succeed. In the source the handler then answers 500 with the row already removed and the counter not lowered, which breaks the counter part of the ledger invariant. Store.Database.Drop, Ledger.DropPreservesInvariant and Ledger.RunPreservesInvariant rest on the same assumption.
- bcrypt hashing on save and compare (backend/models/User.js:45-55). The stored password is opaque, and compare is the `passwordMatches` parameter.
- JWT signing, `generateToken` (backend/routes/auth.js:10-12). Token contents are not modelled; only the status is.
- Mail delivery. nodemailer's outcome is the `mailSent` parameter.
- `generateOTP`. It uses `Math.random`; the code is an input string.
- `Date.now`, `toISOString` and locale date rendering. The clock is an integer parameter, and ISO text is the `iso` parameter.
- The timestamped CSV file name and response headers.
- Mongoose and Express mechanics: `populate`, `lean`, query objects, express-validator's internals and the error-to-status plumbing. Only status codes and state effects are kept; `ObjectId.isValid` is the `validId` parameter.
- `isEmail` and `normalizeEmail` beyond lower-casing. Provider-specific rewrites and the result on invalid addresses are not modelled; the address check is the `isEmail` parameter.
- Catalogue.ListCourses: a search term containing regex metacharacters is not modelled. The term is matched as a case-insensitive substring, which is what the regex does only for terms without metacharacters.
- Catalogue.ListCourses: the relative order of courses with equal codes is left open. Codes are unique in a valid catalogue, so this only matters outside it.
- Unicode case mapping in `toLowerCase`/`toUpperCase`. Only ASCII letters change case.
- Fractional course numbers. `credits`, `capacity`, `enrolled` and `year` are `Number` in backend/models/Course.js and may hold fractions; the model uses integers. Ledger.WithinCapacity, Ledger.EnrollPreservesInvariant and Ledger.RunPreservesInvariant depend on this: with a capacity of 1.5 and one student enrolled, the guard `enrolled >= capacity` admits a second student, so the counter passes the capacity.
- Floating point. This covers the enrollment progress bar, `gpa.toFixed` and the KB display in the upload component. `gpa` is a real.
- CourseForm.Payload: a NaN from `parseInt` is sent as an absent field. JSON turns NaN into `null`, which an update would store as null rather than ignore.
- `Number()` on typed text. The form's number inputs are modelled as `parseInt` results, as the inputs assign them.
- The course map. The course collection is a sequence with a unique-id invariant rather than a map, so the catalogue's order is kept.
- The message timers (`setTimeout`), `window.confirm`, styling, navigation and all JSX rendering beyond which buttons and values appear.
- Non-core parts of the application are not part of this model: the HTTP client, routing, the login and register forms, the course-details page, the student dashboard, the file-upload route and the `me` route.
- CourseList.Page.HandleEnroll: the request itself is not modelled. The handler is modelled once the request has settled, with its outcome as a parameter.

## Findings

| source | as written | input that shows it | evidently intended | confidence | as-written member | corrected member |
|---|---|---|---|---|---|---|
| frontend/src/components/Admin/CourseManagement.jsx:28 | the initial and reset form set `semester: 'even'` (also line 73), while the schema's enum and the form's options are `'Even'` and `'Odd'` | an admin opens the form, fills every text field and submits without touching the semester: the create fails validation | the default is `'Even'`, the first option shown | high (not executed) | CourseForm.DefaultSemesterRejected | CourseForm.DefaultFormCreates |
| frontend/src/components/Admin/CourseManagement.jsx:166 | the duplicate test looks for the trimmed input, but line 169 appends it upper-cased | prerequisites `["CS100"]`, input `cs100`: the list becomes `["CS100", "CS100"]` | the test looks for the code that will be appended, so the list never holds a duplicate | medium (not executed) | CourseForm.AsWrittenAddsDuplicate | CourseForm.AddPrerequisite |
