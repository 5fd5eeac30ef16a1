# Yoklama: a model of the attendance backend

Yoklama ("roll call") is a class-attendance system. Its backend,
`yoklama-sistemi/backend-python/main.py`, is a FastAPI service over three
MongoDB collections:
- `users` are accounts with a role, `teacher` or `student`.
- `courses` each have a teacher and a list of enrolled student emails.
- `attendance` records are sessions. Each has a course, a start date, a
  six-character join code, an open/closed flag and the emails that checked in.

A teacher opens a session on their course and gets a random code. Enrolled
students submit that code while the session is open, each at most once. The
teacher then closes the session. The history endpoint lists the course's
closed sessions newest first. A student sees only whether they attended; the
teacher sees who attended.

The model has two layers.

- **Endpoints as functions.** Module `Endpoints` writes each endpoint as a
  function. It takes the database before the request (`Types.Db`, the three
  collections as sequences) and the request. It returns a `Reply`: the
  endpoint's result or `(status, detail)` error, and the database afterwards.
  Error statuses and detail strings are the ones `main.py` raises.
  - Modules `SessionRules`, `AccountRules`, `CourseRules` and `HistoryRules`
    prove what the endpoints promise. They cover every error case as an
    if-and-only-if, and prove that a failed request changes nothing.
  - They also prove the invariant `Endpoints.Valid`:
    - emails are unique;
    - enrolment lists and submission lists have no duplicates;
    - every stored code is a well-formed code;
    - a course has at most one open session.
  - Further lemmas chain several requests, e.g. start twice, submit twice,
    end then submit, a whole session, end then history.
- **The service as an object.** `Backend.Store` holds the three collections
  as fields and updates them in place, one method per endpoint. Each method
  is proved to produce exactly the reply and new state of its `Endpoints`
  function, and to keep `Valid`. Loops appear where `main.py` iterates:
  - annotating each course in `GET /courses`;
  - `update_many` closing a course's open sessions in `POST /attendance/end`;
  - rewriting each history record in `GET /attendance/history`, including
    looking up each attendee's name.

Modelling choices:
- A course or record identifier (a MongoDB ObjectId) is the document's
  position in its collection. No endpoint deletes a course or an attendance
  record, so positions are stable.
- A `course_id` that is missing from the request body is `None`. A missing
  or empty `code` is the empty string. Both are refused with 400, as
  `not course_id or not code` refuses them.
- `datetime.now()` is the parameter `now`, a natural number: only the order
  of dates matters.
- `random.choices` becomes the parameter `picks`, one index per character
  into the 36-character alphabet.
- Roles are `Teacher`, `Student` or `OtherRole(name)`, where `name` is any
  string other than "teacher" and "student". `register` stores
  whatever role string it is given. The endpoints test `role == "teacher"`
  or `role == "student"`, so a third role takes the non-teacher branch of
  `get_courses` and the history access check. It also takes the non-student
  branch of the history rewrite.

Behaviour the code has and the model follows:
- A second submission by the same student is refused with 400 "You have
  already submitted attendance".
- A student who is not enrolled gets 404 "Course not found or you are not
  enrolled".
- Ending a course with no open session gives 400 "No active attendance
  found".
- `start_attendance` does not check the new code against codes in use. A
  code is only looked up together with its course, so equal codes in two
  courses do not interfere.
- The history is ordered by each session's start date, the only date a
  record stores. Python's sort is stable, so sessions with the same date
  keep their storage order. `Seqs.SortDesc` is a stable insertion sort.
- `register` checks neither the role nor the email domain. Only
  `/create-user` checks the domain.
- `POST /courses` does not check the course code for duplicates;
  `POST /create-course` does. Both routes are modelled: `CreateCourse` and
  `CreateCourseChecked`.

## Model

An `Endpoints.*` row states which documents the endpoint may change. Its
error cases and its answer are stated by the matching `*Rules` lemma.

| member | source | states |
|---|---|---|
| Codes.GenerateAttendanceCode | yoklama-sistemi/backend-python/main.py:110-113 | the code has one character per pick, and each is an uppercase ASCII letter or a digit from the 36-character alphabet |
| Codes.PickOf | yoklama-sistemi/backend-python/main.py:110-113 | every letter or digit has an alphabet index that picks exactly that character |
| Codes.EveryCodeIsGenerated | yoklama-sistemi/backend-python/main.py:110-113 | every well-formed code of any length is produced by some sequence of picks, so the generator's range is exactly the well-formed codes |
| Seqs.First | yoklama-sistemi/backend-python/main.py:118 | a `find_one`: the first position matching the filter; none exactly when no document matches |
| Seqs.Indices | yoklama-sistemi/backend-python/main.py:552-554 | a `find` over a collection: the positions matching the filter, all of them, in storage order |
| Seqs.AddToSet | yoklama-sistemi/backend-python/main.py:256-260 | `$addToSet`: afterwards the list holds exactly the old members plus the new one; the old list is a prefix; at most one element is added; a duplicate-free list stays duplicate-free |
| Seqs.SortDesc | yoklama-sistemi/backend-python/main.py:570 | `sort(key=…, reverse=True)`: the result is sorted by descending key and is a permutation of the input |
| Endpoints.Register | yoklama-sistemi/backend-python/main.py:116-129 | touches only `users`: it appends at most one account, and a refusal changes nothing; a success stores the account |
| Endpoints.CreateUser | yoklama-sistemi/backend-python/main.py:661-708 | touches only `users`: it appends at most one account, and a refusal changes nothing; a success returns and stores the account it was given |
| Endpoints.GetCourses | yoklama-sistemi/backend-python/main.py:152-209 | each listed course is a stored course with its own document, and courses appear in storage order |
| Endpoints.CreateCourse | yoklama-sistemi/backend-python/main.py:217-229 | touches only `courses`: it appends at most one course, and a refusal changes nothing; a created course belongs to the caller and has no students |
| Endpoints.CreateCourseChecked | yoklama-sistemi/backend-python/main.py:710-742 | as `Endpoints.CreateCourse`: only `courses` changes, by at most one appended course owned by the caller with no students; a refusal changes nothing |
| Endpoints.AddStudent | yoklama-sistemi/backend-python/main.py:231-262 | touches only the one course named in the path; users, attendance and every other course are unchanged, and a refusal changes nothing |
| Endpoints.Start | yoklama-sistemi/backend-python/main.py:264-351 | touches only `attendance`, by appending at most one record; a refusal changes nothing |
| Endpoints.Submit | yoklama-sistemi/backend-python/main.py:353-446 | touches only attendee lists: every record keeps its course, date, code and open flag, attendee lists only grow, and a refusal changes nothing |
| Endpoints.CloseCourse | yoklama-sistemi/backend-python/main.py:486-489 | `update_many`: every record keeps all its fields except the open flag, and a record stays open exactly when it was open and belongs to another course |
| Endpoints.CountActive | yoklama-sistemi/backend-python/main.py:486-503 | `modified_count` never exceeds the number of records |
| Endpoints.End | yoklama-sistemi/backend-python/main.py:448-513 | changes only open flags: no record is reopened, other courses' records are untouched, and after a success no record of the course is open |
| Endpoints.History | yoklama-sistemi/backend-python/main.py:515-614 | a refusal is 404 "Course not found or you don't have access"; each listed entry is a closed session of the requested course with its stored date and code, in the student view exactly for a student caller |
| Endpoints.NewestFirst | yoklama-sistemi/backend-python/main.py:552-570 | the course's closed sessions, sorted newest first; every identifier is the position of a closed record of that course |
| Endpoints.Details | yoklama-sistemi/backend-python/main.py:584-595 | each entry is an attendee's email with the name of the account holding that email; every attendee with an account appears; attendees without an account are dropped; an attendee list without repeats gives entries without repeats |
| AccountRules.RegisterRejectsUsedEmail | yoklama-sistemi/backend-python/main.py:116-129 | registration fails with 400 "Email already registered" exactly when the email is taken, and then changes nothing; otherwise it appends the user |
| AccountRules.RegisterPreservesValid | yoklama-sistemi/backend-python/main.py:116-129 | registration keeps emails unique, and the rest of the invariant |
| AccountRules.CreateUserRules | yoklama-sistemi/backend-python/main.py:661-708 | each error is stated as an if-and-only-if, in the order checked: 403 for a non-teacher caller; 400 for a teacher or student email outside its domain; 400 for an email in use. Success happens exactly when none applies; it appends the user and returns it |
| AccountRules.CreateUserPreservesValid | yoklama-sistemi/backend-python/main.py:661-708 | creating a user keeps the invariant |
| AccountRules.CreatedAccountFitsRole | yoklama-sistemi/backend-python/main.py:670-680 | an account this endpoint created has an email of the form local part + `@ogretmen.edu.tr` for a teacher, or + `@ogrenci.edu.tr` for a student |
| CourseRules.CreateCourseRules | yoklama-sistemi/backend-python/main.py:217-229 | `POST /courses` fails with 403 exactly for a non-teacher, changing nothing. Otherwise it appends a course owned by the caller with no students and returns its identifier |
| CourseRules.CreateCourseCheckedRules | yoklama-sistemi/backend-python/main.py:710-742 | `POST /create-course` fails with 403 exactly for a non-teacher, and with 400 exactly when a course already has the code; failure changes nothing. It succeeds exactly when the caller is a teacher and no course has the code, and then behaves as `POST /courses` |
| CourseRules.CreateCourseCheckedKeepsCodesUnique | yoklama-sistemi/backend-python/main.py:719-724 | if course codes were distinct, they stay distinct after `POST /create-course` |
| CourseRules.CreateCoursePreservesValid | yoklama-sistemi/backend-python/main.py:217-229 | both course-creation routes keep the invariant |
| CourseRules.AddStudentRules | yoklama-sistemi/backend-python/main.py:231-262 | each error is an if-and-only-if: 403 for a non-teacher; 404 "Course not found" unless the caller teaches the course; 404 "Student not found" unless a student account has the email. It succeeds exactly when none applies. On success only that course's roster changes (name, code, schedule and teacher are kept; other courses, users and attendance are untouched). The roster is unchanged if it already held the email, and otherwise gains it at the end |
| CourseRules.AddStudentIdempotent | yoklama-sistemi/backend-python/main.py:256-260 | adding the same student a second time succeeds and changes nothing |
| CourseRules.AddStudentPreservesValid | yoklama-sistemi/backend-python/main.py:231-262 | enrolment keeps rosters duplicate-free, and the rest of the invariant |
| CourseRules.GetCoursesContents | yoklama-sistemi/backend-python/main.py:152-209 | the listing holds exactly the courses the caller teaches (teacher) or is enrolled in (anyone else), once each, in storage order. A course is marked active iff it has an open session. A teacher sees that session's code; anyone else sees whether they already checked in. Neither field is present when no session is open |
| CourseRules.ShownCodeIsAccepted | yoklama-sistemi/backend-python/main.py:168-176 | the code shown to the teacher is accepted from an enrolled student who has not yet checked in to the open session |
| SessionRules.StartRules | yoklama-sistemi/backend-python/main.py:264-343 | errors in order: 400 for a missing course id; 403 for a non-teacher; 404 unless the caller teaches the course; 400 if a session is already open. Each is an if-and-only-if, and failure changes nothing. It succeeds exactly when the owning teacher asks for a course with no open session. Success appends one open session with no students, the given date and a well-formed six-character code, and returns the code |
| SessionRules.StartPreservesValid | yoklama-sistemi/backend-python/main.py:300-343 | starting keeps at most one open session per course, and the rest of the invariant |
| SessionRules.StartTwiceFails | yoklama-sistemi/backend-python/main.py:313-318 | a second start on the same course, before an end, fails with "There is already an active attendance for this course" |
| SessionRules.SubmitRules | yoklama-sistemi/backend-python/main.py:353-438 | each error is an if-and-only-if, in order: 400 for a missing course id or code; 403 for a non-student; 404 unless enrolled; 400 unless an open session of the course has that code; 400 if the student is already in it. Success happens exactly when none applies; failure changes nothing |
| SessionRules.SubmitAppendsOnce | yoklama-sistemi/backend-python/main.py:417-431 | a successful submit appends the caller's email to the one session it matched, which did not hold it before and holds it exactly once afterwards; nothing else changes |
| SessionRules.SubmitPreservesValid | yoklama-sistemi/backend-python/main.py:353-446 | submission keeps each session's attendee list duplicate-free, and the rest of the invariant |
| SessionRules.SubmitTwiceFails | yoklama-sistemi/backend-python/main.py:418-423 | the same submission repeated after a success fails with 400 "You have already submitted attendance" |
| SessionRules.CountActiveIsZeroIffNoneActive | yoklama-sistemi/backend-python/main.py:485-503 | `update_many`'s modified count is zero exactly when the course has no open session |
| SessionRules.CloseCourseRules | yoklama-sistemi/backend-python/main.py:485-490 | closing keeps every record's course, date, code and attendees. Other courses' records are untouched, and none of the course's sessions remains open |
| SessionRules.EndRules | yoklama-sistemi/backend-python/main.py:448-503 | each error is an if-and-only-if: 400 for a missing course id; 403 for a non-teacher; 404 unless the caller teaches the course; 400 "No active attendance found" when nothing is open. It succeeds exactly when the owning teacher ends a course with an open session. Failure changes nothing; success closes the course's open sessions and changes nothing else |
| SessionRules.EndPreservesValid | yoklama-sistemi/backend-python/main.py:448-503 | ending keeps the invariant |
| SessionRules.EndThenSubmitFails | yoklama-sistemi/backend-python/main.py:400-415 | after a successful end every submit to that course fails; an enrolled student with a non-empty code gets "Invalid or expired attendance code" |
| SessionRules.EndThenStartSucceeds | yoklama-sistemi/backend-python/main.py:300-318 | after a successful end the teacher can open a new session on the course |
| HistoryRules.NewestFirstRules | yoklama-sistemi/backend-python/main.py:552-570 | the sorted ids are exactly the course's closed sessions, each once, with dates non-increasing |
| HistoryRules.HistoryAccess | yoklama-sistemi/backend-python/main.py:522-548 | the history fails, with 404 "Course not found or you don't have access", exactly when the caller neither teaches the course (teacher) nor is enrolled in it (anyone else) |
| HistoryRules.HistoryListsClosedSessions | yoklama-sistemi/backend-python/main.py:550-598 | every entry is a closed session of the course with its stored date and code; every closed session appears, once; dates are non-increasing |
| HistoryRules.HistoryShowsRoleView | yoklama-sistemi/backend-python/main.py:573-595 | a student gets per session only whether their email is among the attendees. Anyone else gets `Details` of the attendees: the email and name of each attendee with an account |
| HistoryRules.EndedSessionInHistory | yoklama-sistemi/backend-python/main.py:485-595 | after a successful end, each session it closed is in the teacher's history with its date and code, and with the teacher's view (`Details`) of its unchanged attendee list; attendees without an account are dropped |
| HistoryRules.OpenAndCheckIn | yoklama-sistemi/backend-python/main.py:264-446 | opening a session and one enrolled student's check-in store one open session holding exactly that student |
| HistoryRules.CloseAndReview | yoklama-sistemi/backend-python/main.py:448-598 | for a student with an account, closing the session makes its code stop working. The teacher's history shows it as one entry whose only attendee is that student's email and full name. The student's history shows it as attended. A student of another course is refused the history |
| HistoryRules.SessionLifecycle | yoklama-sistemi/backend-python/main.py:264-598 | open, check in, check in again (refused: already submitted), a student of another course (refused: not enrolled), close. The teacher's history then shows the session with exactly that student's email and full name |
| Backend.Store.Register | yoklama-sistemi/backend-python/main.py:116-129 | the reply and the new collections are those of `Endpoints.Register`; the invariant is kept |
| Backend.Store.CreateUser | yoklama-sistemi/backend-python/main.py:661-708 | the reply and the new collections are those of `Endpoints.CreateUser`; the invariant is kept |
| Backend.Store.GetCourses | yoklama-sistemi/backend-python/main.py:152-209 | the loop over the caller's courses yields `Endpoints.GetCourses` |
| Backend.Store.CreateCourse | yoklama-sistemi/backend-python/main.py:217-229 | the reply and the new collections are those of `Endpoints.CreateCourse`; the invariant is kept |
| Backend.Store.CreateCourseChecked | yoklama-sistemi/backend-python/main.py:710-742 | the reply and the new collections are those of `Endpoints.CreateCourseChecked`; the invariant is kept |
| Backend.Store.AddStudent | yoklama-sistemi/backend-python/main.py:231-262 | the reply and the new collections are those of `Endpoints.AddStudent`; the invariant is kept |
| Backend.Store.Start | yoklama-sistemi/backend-python/main.py:264-351 | the reply and the new collections are those of `Endpoints.Start`; the invariant is kept |
| Backend.Store.Submit | yoklama-sistemi/backend-python/main.py:353-446 | the reply and the new collections are those of `Endpoints.Submit`; the invariant is kept |
| Backend.Store.End | yoklama-sistemi/backend-python/main.py:448-513 | the in-place loop closes exactly the course's open records and counts them; the reply and the new collections are those of `Endpoints.End`; the invariant is kept |
| Backend.Store.StudentDetails | yoklama-sistemi/backend-python/main.py:584-595 | the lookup loop yields `Endpoints.Details` of the attendee emails |
| Backend.Store.History | yoklama-sistemi/backend-python/main.py:515-614 | the access check and the rewrite loop over the sorted sessions yield `Endpoints.History` |

## Left out

- Authentication is not modelled: `/token`, password hashing and checking, JWT creation and validation, and `get_current_user` with its 401 replies. Each endpoint receives the authenticated caller's account as a parameter. Passwords are not part of a `User`.
- `/setup-test-users` is not modelled. It seeds fixed test accounts and is not part of the attendance logic.
- MongoDB, FastAPI, CORS, uvicorn and the debug `print` calls are not modelled. Database exceptions, ObjectId strings that do not parse, and the 500 replies they cause are left out. Identifiers are positions, so they are always well-formed.
- Concurrency is not modelled. Each request is one atomic step on the database, so races between concurrent starts or submits are not represented.
- Clock and date text are not modelled. `datetime.now()` is a parameter. Dates are natural numbers, so the `%Y-%m-%d %H:%M:%S` and `%d.%m.%Y %H:%M` strings are not modelled, nor is history's fallback to the current time for a date that does not parse (which start's own format never triggers).
- `POST /courses` stores whatever JSON object it receives. The model gives every course the name, code and schedule fields of `POST /create-course`.
- The user's `full_name` is always present in the model, so the `"Unknown"` default of the history lookup does not arise.
- Endpoints that only return a confirmation message (`{"message": ...}`) return `()` in the model. `POST /create-user` returns the new user; the course routes return the new identifier.
- Endpoints.CreateCourseChecked: `POST /create-course` answers with the whole stored course document and a message (main.py:733-737); the model returns only the new course's identifier, from which that document is `courses[id]`.
- Codes.GenerateAttendanceCode: the probability distribution of `random.choices` is not modelled, only which codes can result.
- Endpoints.CountActive: its own contract only bounds the count; that it is zero exactly when the course has no open session is `SessionRules.CountActiveIsZeroIffNoneActive`.
- Endpoints.NewestFirst: sessions with the same date keep their storage order (`Seqs.SortDesc` is a stable insertion sort, like Python's sort), but no lemma states the tie order.
- Endpoints.Details: the contract states which entries appear, their names, and that a list without repeated emails gives no repeated entries, but not that the entries follow the order of the attendee list; `Backend.Store.StudentDetails` is proved equal to it exactly.
