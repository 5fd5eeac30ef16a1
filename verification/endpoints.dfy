/** The HTTP endpoints of the backend as functions from the database before
    a request to the reply and the database after it. The caller is the
    user record that token validation already found; a `course_id` that is
    absent from the request (or empty) is `None`. */
module Endpoints {
  import opened Types
  import opened Seqs
  import opened Codes

  const TeacherEmailSuffix := "@ogretmen.edu.tr"
  const StudentEmailSuffix := "@ogrenci.edu.tr"

  /** One entry of the `GET /courses` answer: the course document with its
      id and the fields the endpoint adds to it. */
  datatype CourseView = CourseView(
    id: nat,
    course: Course,
    hasActiveAttendance: bool,
    activeAttendanceCode: Option<string>,  // teachers only
    alreadyAttended: Option<bool>)         // students only

  /** How a teacher sees one attending student. */
  datatype StudentInfo = StudentInfo(email: string, fullName: string)

  /** One closed session in the `GET /attendance/history` answer: students
      see whether they attended, teachers see who attended. */
  datatype HistoryEntry =
    | StudentEntry(id: nat, date: nat, code: string, attended: bool)
    | TeacherEntry(id: nat, date: nat, code: string, students: seq<StudentInfo>)

  // ---------------------------------------------------------------------
  // Lookups (`find_one` queries)

  function FindUser(users: seq<User>, email: string): Option<nat> {
    First(users, (u: User) => u.email == email)
  }

  function FindStudent(users: seq<User>, email: string): Option<nat> {
    First(users, (u: User) => u.email == email && u.role == Student)
  }

  function FindCourseByCode(courses: seq<Course>, code: string): Option<nat> {
    First(courses, (c: Course) => c.code == code)
  }

  /** `{"_id": course_id, "teacher_email": caller}` finds a course. */
  predicate Owns(db: Db, caller: User, cid: nat) {
    cid < |db.courses| && db.courses[cid].teacherEmail == caller.email
  }

  /** `{"_id": course_id, "student_emails": email}` finds a course. */
  predicate Enrolled(db: Db, email: string, cid: nat) {
    cid < |db.courses| && email in db.courses[cid].studentEmails
  }

  /** `{"course_id": cid, "is_active": True}`. */
  function ActiveRecord(attendance: seq<Record>, cid: nat): Option<nat> {
    First(attendance, (r: Record) => r.courseId == cid && r.isActive)
  }

  /** `{"course_id": cid, "is_active": True, "code": code}`. */
  function MatchingRecord(attendance: seq<Record>, cid: nat, code: string): Option<nat> {
    First(attendance, (r: Record) => r.courseId == cid && r.isActive && r.code == code)
  }

  // ---------------------------------------------------------------------
  // The invariant every endpoint keeps

  predicate UniqueEmails(users: seq<User>) {
    forall i, j :: 0 <= i < j < |users| ==> users[i].email != users[j].email
  }

  predicate OneActivePerCourse(attendance: seq<Record>) {
    forall i, j :: 0 <= i < j < |attendance| && attendance[i].isActive && attendance[j].isActive ==>
      attendance[i].courseId != attendance[j].courseId
  }

  /** No two users share an email, enrolment lists are sets, every session
      has a well-formed code and no student recorded twice, and a course has
      at most one active session. */
  ghost predicate Valid(db: Db) {
    && UniqueEmails(db.users)
    && (forall c :: 0 <= c < |db.courses| ==> NoDuplicates(db.courses[c].studentEmails))
    && (forall i :: 0 <= i < |db.attendance| ==> NoDuplicates(db.attendance[i].students))
    && (forall i :: 0 <= i < |db.attendance| ==> IsAttendanceCode(db.attendance[i].code, DefaultCodeLength))
    && OneActivePerCourse(db.attendance)
  }

  // ---------------------------------------------------------------------
  // Accounts

  /** `POST /register`: anyone may register any email not yet used. */
  function Register(db: Db, user: User): (r: Reply<()>)
    ensures r.db.courses == db.courses && r.db.attendance == db.attendance
    ensures db.users <= r.db.users && |r.db.users| <= |db.users| + 1
    ensures r.result.Failure? ==> r.db == db
    ensures r.result.Success? ==> user in r.db.users
  {
    if FindUser(db.users, user.email).Some? then Reply(Failure(EmailAlreadyRegistered), db)
    else Reply(Success(()), db.(users := db.users + [user]))
  }

  /** `POST /create-user`: a teacher creates an account whose email domain
      fits its role. */
  function CreateUser(db: Db, caller: User, user: User): (r: Reply<User>)
    ensures r.db.courses == db.courses && r.db.attendance == db.attendance
    ensures db.users <= r.db.users && |r.db.users| <= |db.users| + 1
    ensures r.result.Failure? ==> r.db == db
    ensures r.result.Success? ==> r.result.value == user && user in r.db.users
  {
    if caller.role != Teacher then Reply(Failure(OnlyTeachersCreateUsers), db)
    else if user.role == Teacher && !EndsWith(user.email, TeacherEmailSuffix) then Reply(Failure(BadTeacherEmail), db)
    else if user.role == Student && !EndsWith(user.email, StudentEmailSuffix) then Reply(Failure(BadStudentEmail), db)
    else if FindUser(db.users, user.email).Some? then Reply(Failure(EmailInUse), db)
    else Reply(Success(user), db.(users := db.users + [user]))
  }

  // ---------------------------------------------------------------------
  // Courses and rosters

  /** The courses `GET /courses` lists: those the caller teaches, or, for
      any other role, those the caller is enrolled in. */
  function VisibleCourses(db: Db, caller: User): seq<nat> {
    if caller.role == Teacher then Indices(db.courses, (c: Course) => c.teacherEmail == caller.email)
    else Indices(db.courses, (c: Course) => caller.email in c.studentEmails)
  }

  function Annotate(db: Db, caller: User, cid: nat): CourseView
    requires cid < |db.courses|
  {
    var active := ActiveRecord(db.attendance, cid);
    CourseView(
      cid, db.courses[cid], active.Some?,
      if caller.role == Teacher && active.Some? then Some(db.attendance[active.value].code) else None,
      if caller.role != Teacher && active.Some? then Some(caller.email in db.attendance[active.value].students) else None)
  }

  /** `GET /courses`. */
  function GetCourses(db: Db, caller: User): (views: seq<CourseView>)
    ensures forall k :: 0 <= k < |views| ==>
      views[k].id < |db.courses| && views[k].course == db.courses[views[k].id]
    ensures forall a, b :: 0 <= a < b < |views| ==> views[a].id < views[b].id
  {
    var ids := VisibleCourses(db, caller);
    seq(|ids|, k requires 0 <= k < |ids| => Annotate(db, caller, ids[k]))
  }

  /** `POST /courses`: a teacher adds a course (no check on its code); the
      answer is the new course's id. */
  function CreateCourse(db: Db, caller: User, name: string, code: string, schedule: string): (r: Reply<nat>)
    ensures r.db.users == db.users && r.db.attendance == db.attendance
    ensures db.courses <= r.db.courses && |r.db.courses| <= |db.courses| + 1
    ensures r.result.Failure? ==> r.db == db
    ensures r.result.Success? ==> Owns(r.db, caller, r.result.value) && r.db.courses[r.result.value].studentEmails == []
  {
    if caller.role != Teacher then Reply(Failure(OnlyTeachersCreateCourses), db)
    else Reply(Success(|db.courses|), db.(courses := db.courses + [Course(name, code, schedule, caller.email, [])]))
  }

  /** `POST /create-course`: as `POST /courses`, but the code must be new. */
  function CreateCourseChecked(db: Db, caller: User, name: string, code: string, schedule: string): (r: Reply<nat>)
    ensures r.db.users == db.users && r.db.attendance == db.attendance
    ensures db.courses <= r.db.courses && |r.db.courses| <= |db.courses| + 1
    ensures r.result.Failure? ==> r.db == db
    ensures r.result.Success? ==> Owns(r.db, caller, r.result.value) && r.db.courses[r.result.value].studentEmails == []
  {
    if caller.role != Teacher then Reply(Failure(OnlyTeachersAddCourses), db)
    else if FindCourseByCode(db.courses, code).Some? then Reply(Failure(CourseCodeInUse), db)
    else Reply(Success(|db.courses|), db.(courses := db.courses + [Course(name, code, schedule, caller.email, [])]))
  }

  /** `POST /courses/{course_id}/students`: a teacher enrols an existing
      student in one of their courses. */
  function AddStudent(db: Db, caller: User, cid: nat, email: string): (r: Reply<()>)
    ensures r.db.users == db.users && r.db.attendance == db.attendance
    ensures |r.db.courses| == |db.courses|
    ensures forall c :: 0 <= c < |db.courses| && c != cid ==> r.db.courses[c] == db.courses[c]
    ensures r.result.Failure? ==> r.db == db
  {
    if caller.role != Teacher then Reply(Failure(OnlyTeachersAddStudents), db)
    else if !Owns(db, caller, cid) then Reply(Failure(CourseNotFound), db)
    else if FindStudent(db.users, email).None? then Reply(Failure(StudentNotFound), db)
    else
      var course := db.courses[cid];
      Reply(Success(()), db.(courses := db.courses[cid := course.(studentEmails := AddToSet(course.studentEmails, email))]))
  }

  // ---------------------------------------------------------------------
  // Attendance sessions

  /** `POST /attendance/start`: the owning teacher opens a session with a
      fresh code, unless one is already open. */
  function Start(db: Db, caller: User, cid: Option<nat>, now: nat, picks: seq<nat>): (r: Reply<string>)
    requires |picks| == DefaultCodeLength
    ensures r.db.users == db.users && r.db.courses == db.courses
    ensures db.attendance <= r.db.attendance && |r.db.attendance| <= |db.attendance| + 1
    ensures r.result.Failure? ==> r.db == db
  {
    if cid.None? then Reply(Failure(CourseIdRequired), db)
    else if caller.role != Teacher then Reply(Failure(OnlyTeachersStart), db)
    else if !Owns(db, caller, cid.value) then Reply(Failure(CourseNotFound), db)
    else if ActiveRecord(db.attendance, cid.value).Some? then Reply(Failure(AlreadyActive), db)
    else
      var code := GenerateAttendanceCode(picks);
      Reply(Success(code), db.(attendance := db.attendance + [Record(cid.value, now, code, true, [])]))
  }

  /** `POST /attendance/submit`: an enrolled student checks in with the
      code of the course's active session, once. */
  function Submit(db: Db, caller: User, cid: Option<nat>, code: string): (r: Reply<()>)
    ensures r.db.users == db.users && r.db.courses == db.courses
    ensures |r.db.attendance| == |db.attendance|
    ensures forall k :: 0 <= k < |db.attendance| ==>
      && r.db.attendance[k].courseId == db.attendance[k].courseId
      && r.db.attendance[k].date == db.attendance[k].date
      && r.db.attendance[k].code == db.attendance[k].code
      && r.db.attendance[k].isActive == db.attendance[k].isActive
      && db.attendance[k].students <= r.db.attendance[k].students
    ensures r.result.Failure? ==> r.db == db
  {
    if cid.None? || code == "" then Reply(Failure(CourseIdAndCodeRequired), db)
    else if caller.role != Student then Reply(Failure(OnlyStudentsSubmit), db)
    else if !Enrolled(db, caller.email, cid.value) then Reply(Failure(NotEnrolled), db)
    else match MatchingRecord(db.attendance, cid.value, code)
      case None => Reply(Failure(InvalidOrExpiredCode), db)
      case Some(i) =>
        var record := db.attendance[i];
        if caller.email in record.students then Reply(Failure(AlreadySubmitted), db)
        else Reply(Success(()), db.(attendance := db.attendance[i := record.(students := record.students + [caller.email])]))
  }

  /** `{"$set": {"is_active": False}}` on one record, if it matches
      `{"course_id": cid, "is_active": True}`. */
  function Close(record: Record, cid: nat): Record {
    if record.courseId == cid && record.isActive then record.(isActive := false) else record
  }

  /** `update_many` closing every active record of the course. */
  function CloseCourse(attendance: seq<Record>, cid: nat): (r: seq<Record>)
    ensures |r| == |attendance|
    ensures forall k :: 0 <= k < |r| ==>
      && r[k] == attendance[k].(isActive := r[k].isActive)
      && (r[k].isActive <==> attendance[k].isActive && attendance[k].courseId != cid)
  {
    seq(|attendance|, k requires 0 <= k < |attendance| => Close(attendance[k], cid))
  }

  /** `modified_count` of that `update_many`. */
  function CountActive(attendance: seq<Record>, cid: nat): (n: nat)
    ensures n <= |attendance|
  {
    if attendance == [] then 0
    else
      var last := attendance[|attendance| - 1];
      CountActive(attendance[..|attendance| - 1], cid) + (if last.courseId == cid && last.isActive then 1 else 0)
  }

  /** `POST /attendance/end`: the owning teacher closes the course's open
      session(s); closing nothing is an error. */
  function End(db: Db, caller: User, cid: Option<nat>): (r: Reply<()>)
    ensures r.db.users == db.users && r.db.courses == db.courses
    ensures |r.db.attendance| == |db.attendance|
    ensures forall k :: 0 <= k < |db.attendance| ==>
      && r.db.attendance[k] == db.attendance[k].(isActive := r.db.attendance[k].isActive)
      && (r.db.attendance[k].isActive ==> db.attendance[k].isActive)
      && (cid.None? || db.attendance[k].courseId != cid.value ==> r.db.attendance[k] == db.attendance[k])
    ensures r.result.Success? ==>
      (cid.Some? &&
       forall k :: 0 <= k < |r.db.attendance| && r.db.attendance[k].courseId == cid.value ==>
         !r.db.attendance[k].isActive)
  {
    if cid.None? then Reply(Failure(CourseIdRequired), db)
    else if caller.role != Teacher then Reply(Failure(OnlyTeachersEnd), db)
    else if !Owns(db, caller, cid.value) then Reply(Failure(CourseNotFound), db)
    else
      var db' := db.(attendance := CloseCourse(db.attendance, cid.value));
      if CountActive(db.attendance, cid.value) == 0 then Reply(Failure(NoActiveAttendance), db')
      else Reply(Success(()), db')
  }

  // ---------------------------------------------------------------------
  // History

  /** `{"course_id": cid, "is_active": False}`, in storage order. */
  function ClosedSessions(attendance: seq<Record>, cid: nat): seq<nat> {
    Indices(attendance, (r: Record) => r.courseId == cid && !r.isActive)
  }

  function DateOf(attendance: seq<Record>): nat -> nat {
    (i: nat) => if i < |attendance| then attendance[i].date else 0
  }

  /** The closed sessions sorted by date, newest first. */
  function NewestFirst(attendance: seq<Record>, cid: nat): (ids: seq<nat>)
    ensures forall k :: 0 <= k < |ids| ==>
      ids[k] < |attendance| && attendance[ids[k]].courseId == cid && !attendance[ids[k]].isActive
  {
    var closed := ClosedSessions(attendance, cid);
    var ids := SortDesc(closed, DateOf(attendance));
    assert forall k :: 0 <= k < |ids| ==> ids[k] in multiset(closed);
    assert forall k :: 0 <= k < |ids| ==> ids[k] in closed;
    ids
  }

  /** The teacher's view of a session's emails: each email with the full
      name of its user, emails without a user being dropped. */
  function Details(users: seq<User>, emails: seq<string>): (r: seq<StudentInfo>)
    ensures |r| <= |emails|
    ensures forall k :: 0 <= k < |r| ==>
      r[k].email in emails && FindUser(users, r[k].email).Some? &&
      r[k].fullName == users[FindUser(users, r[k].email).value].fullName
    ensures forall e :: e in emails && FindUser(users, e).Some? ==>
      exists k :: 0 <= k < |r| && r[k].email == e
    ensures NoDuplicates(emails) ==> forall a, b :: 0 <= a < b < |r| ==> r[a].email != r[b].email
  {
    if emails == [] then []
    else
      var n := |emails| - 1;
      var init := Details(users, emails[..n]);
      assert forall e :: e in emails ==> e in emails[..n] || e == emails[n] by {
        assert emails == emails[..n] + [emails[n]];
      }
      match FindUser(users, emails[n])
      case None => init
      case Some(u) =>
        var r := init + [StudentInfo(emails[n], users[u].fullName)];
        assert r[|init|].email == emails[n];
        assert forall k :: 0 <= k < |init| ==> r[k] == init[k];
        r
  }

  function HistoryView(db: Db, caller: User, i: nat): HistoryEntry
    requires i < |db.attendance|
  {
    var record := db.attendance[i];
    if caller.role == Student then StudentEntry(i, record.date, record.code, caller.email in record.students)
    else TeacherEntry(i, record.date, record.code, Details(db.users, record.students))
  }

  /** Whether the caller may see the course's history: its teacher, or,
      for any other role, an enrolled user. */
  predicate MaySeeHistory(db: Db, caller: User, cid: nat) {
    if caller.role == Teacher then Owns(db, caller, cid) else Enrolled(db, caller.email, cid)
  }

  /** `GET /attendance/history/{course_id}`. */
  function History(db: Db, caller: User, cid: nat): (r: Result<seq<HistoryEntry>>)
    ensures r.Failure? ==> r.error == NoHistoryAccess
    ensures r.Success? ==> forall k :: 0 <= k < |r.value| ==>
      && r.value[k].id < |db.attendance|
      && db.attendance[r.value[k].id].courseId == cid
      && !db.attendance[r.value[k].id].isActive
      && r.value[k].date == db.attendance[r.value[k].id].date
      && r.value[k].code == db.attendance[r.value[k].id].code
      && (r.value[k].StudentEntry? <==> caller.role == Student)
  {
    if !MaySeeHistory(db, caller, cid) then Failure(NoHistoryAccess)
    else
      var ids := NewestFirst(db.attendance, cid);
      Success(seq(|ids|, k requires 0 <= k < |ids| => HistoryView(db, caller, ids[k])))
  }
}
