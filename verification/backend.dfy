/** The backend as an object holding the three collections, updated in place
    by one method per endpoint. Each method is proved to answer and to leave
    the collections exactly as the endpoint's specification in `Endpoints`
    says, and to keep the invariant `Endpoints.Valid`. */
module Backend {
  import opened Types
  import opened Seqs
  import opened Codes
  import opened Endpoints
  import SessionRules
  import AccountRules
  import CourseRules

  /** `Details` over one more email of the list. */
  lemma DetailsStep(users: seq<User>, emails: seq<string>, k: nat)
    requires k < |emails|
    ensures Details(users, emails[..k + 1]) ==
      Details(users, emails[..k]) +
        (match FindUser(users, emails[k])
         case None => []
         case Some(u) => [StudentInfo(emails[k], users[u].fullName)])
  {
    assert emails[..k + 1][..k] == emails[..k];
  }

  class Store {
    var users: seq<User>
    var courses: seq<Course>
    var attendance: seq<Record>

    /** The collections as one database value. */
    function State(): Db
      reads this
    {
      Db(users, courses, attendance)
    }

    constructor ()
      ensures State() == Db([], [], [])
      ensures Valid(State())
    {
      users, courses, attendance := [], [], [];
    }

    // -------------------------------------------------------------------
    // Accounts

    method Register(user: User) returns (r: Result<()>)
      requires Valid(State())
      modifies this
      ensures Valid(State())
      ensures Reply(r, State()) == Endpoints.Register(old(State()), user)
    {
      AccountRules.RegisterPreservesValid(State(), user);
      if FindUser(users, user.email).Some? {
        return Failure(EmailAlreadyRegistered);
      }
      users := users + [user];
      return Success(());
    }

    method CreateUser(caller: User, user: User) returns (r: Result<User>)
      requires Valid(State())
      modifies this
      ensures Valid(State())
      ensures Reply(r, State()) == Endpoints.CreateUser(old(State()), caller, user)
    {
      AccountRules.CreateUserPreservesValid(State(), caller, user);
      if caller.role != Teacher {
        return Failure(OnlyTeachersCreateUsers);
      }
      if user.role == Teacher && !EndsWith(user.email, TeacherEmailSuffix) {
        return Failure(BadTeacherEmail);
      } else if user.role == Student && !EndsWith(user.email, StudentEmailSuffix) {
        return Failure(BadStudentEmail);
      }
      if FindUser(users, user.email).Some? {
        return Failure(EmailInUse);
      }
      users := users + [user];
      return Success(user);
    }

    // -------------------------------------------------------------------
    // Courses and rosters

    /** `GET /courses`: annotate each of the caller's courses with its open
        session, one course at a time. */
    method GetCourses(caller: User) returns (views: seq<CourseView>)
      ensures views == Endpoints.GetCourses(State(), caller)
    {
      var ids := VisibleCourses(State(), caller);
      views := [];
      var k := 0;
      while k < |ids|
        invariant 0 <= k <= |ids|
        invariant |views| == k
        invariant forall j :: 0 <= j < k ==> views[j] == Annotate(State(), caller, ids[j])
      {
        var cid := ids[k];
        var active := ActiveRecord(attendance, cid);
        var view := CourseView(cid, courses[cid], active.Some?, None, None);
        if active.Some? {
          if caller.role == Teacher {
            view := view.(activeAttendanceCode := Some(attendance[active.value].code));
          } else {
            view := view.(alreadyAttended := Some(caller.email in attendance[active.value].students));
          }
        }
        views := views + [view];
        k := k + 1;
      }
    }

    method CreateCourse(caller: User, name: string, code: string, schedule: string) returns (r: Result<nat>)
      requires Valid(State())
      modifies this
      ensures Valid(State())
      ensures Reply(r, State()) == Endpoints.CreateCourse(old(State()), caller, name, code, schedule)
    {
      CourseRules.CreateCoursePreservesValid(State(), caller, name, code, schedule);
      if caller.role != Teacher {
        return Failure(OnlyTeachersCreateCourses);
      }
      var id := |courses|;
      courses := courses + [Course(name, code, schedule, caller.email, [])];
      return Success(id);
    }

    method CreateCourseChecked(caller: User, name: string, code: string, schedule: string) returns (r: Result<nat>)
      requires Valid(State())
      modifies this
      ensures Valid(State())
      ensures Reply(r, State()) == Endpoints.CreateCourseChecked(old(State()), caller, name, code, schedule)
    {
      CourseRules.CreateCoursePreservesValid(State(), caller, name, code, schedule);
      if caller.role != Teacher {
        return Failure(OnlyTeachersAddCourses);
      }
      if FindCourseByCode(courses, code).Some? {
        return Failure(CourseCodeInUse);
      }
      var id := |courses|;
      courses := courses + [Course(name, code, schedule, caller.email, [])];
      return Success(id);
    }

    method AddStudent(caller: User, cid: nat, email: string) returns (r: Result<()>)
      requires Valid(State())
      modifies this
      ensures Valid(State())
      ensures Reply(r, State()) == Endpoints.AddStudent(old(State()), caller, cid, email)
    {
      CourseRules.AddStudentPreservesValid(State(), caller, cid, email);
      if caller.role != Teacher {
        return Failure(OnlyTeachersAddStudents);
      }
      if !Owns(State(), caller, cid) {
        return Failure(CourseNotFound);
      }
      if FindStudent(users, email).None? {
        return Failure(StudentNotFound);
      }
      courses := courses[cid := courses[cid].(studentEmails := AddToSet(courses[cid].studentEmails, email))];
      return Success(());
    }

    // -------------------------------------------------------------------
    // Attendance sessions

    method Start(caller: User, cid: Option<nat>, now: nat, picks: seq<nat>) returns (r: Result<string>)
      requires |picks| == DefaultCodeLength
      requires Valid(State())
      modifies this
      ensures Valid(State())
      ensures Reply(r, State()) == Endpoints.Start(old(State()), caller, cid, now, picks)
    {
      SessionRules.StartPreservesValid(State(), caller, cid, now, picks);
      if cid.None? {
        return Failure(CourseIdRequired);
      }
      if caller.role != Teacher {
        return Failure(OnlyTeachersStart);
      }
      if !Owns(State(), caller, cid.value) {
        return Failure(CourseNotFound);
      }
      if ActiveRecord(attendance, cid.value).Some? {
        return Failure(AlreadyActive);
      }
      var code := GenerateAttendanceCode(picks);
      attendance := attendance + [Record(cid.value, now, code, true, [])];
      return Success(code);
    }

    method Submit(caller: User, cid: Option<nat>, code: string) returns (r: Result<()>)
      requires Valid(State())
      modifies this
      ensures Valid(State())
      ensures Reply(r, State()) == Endpoints.Submit(old(State()), caller, cid, code)
    {
      SessionRules.SubmitPreservesValid(State(), caller, cid, code);
      if cid.None? || code == "" {
        return Failure(CourseIdAndCodeRequired);
      }
      if caller.role != Student {
        return Failure(OnlyStudentsSubmit);
      }
      if !Enrolled(State(), caller.email, cid.value) {
        return Failure(NotEnrolled);
      }
      var found := MatchingRecord(attendance, cid.value, code);
      if found.None? {
        return Failure(InvalidOrExpiredCode);
      }
      var i := found.value;
      if caller.email in attendance[i].students {
        return Failure(AlreadySubmitted);
      }
      attendance := attendance[i := attendance[i].(students := attendance[i].students + [caller.email])];
      return Success(());
    }

    /** `POST /attendance/end`: `update_many` closes the course's open
        records one by one, counting them. */
    method End(caller: User, cid: Option<nat>) returns (r: Result<()>)
      requires Valid(State())
      modifies this
      ensures Valid(State())
      ensures Reply(r, State()) == Endpoints.End(old(State()), caller, cid)
    {
      SessionRules.EndPreservesValid(State(), caller, cid);
      if cid.None? {
        return Failure(CourseIdRequired);
      }
      if caller.role != Teacher {
        return Failure(OnlyTeachersEnd);
      }
      if !Owns(State(), caller, cid.value) {
        return Failure(CourseNotFound);
      }
      var modified := 0;
      var i := 0;
      while i < |attendance|
        invariant 0 <= i <= |attendance| == |old(attendance)|
        invariant users == old(users) && courses == old(courses)
        invariant forall k :: 0 <= k < i ==> attendance[k] == Close(old(attendance)[k], cid.value)
        invariant forall k :: i <= k < |attendance| ==> attendance[k] == old(attendance)[k]
        invariant modified == CountActive(old(attendance)[..i], cid.value)
      {
        assert old(attendance)[..i + 1][..i] == old(attendance)[..i];
        if attendance[i].courseId == cid.value && attendance[i].isActive {
          attendance := attendance[i := attendance[i].(isActive := false)];
          modified := modified + 1;
        }
        i := i + 1;
      }
      assert old(attendance)[..i] == old(attendance);
      assert attendance == CloseCourse(old(attendance), cid.value);
      if modified == 0 {
        return Failure(NoActiveAttendance);
      }
      return Success(());
    }

    // -------------------------------------------------------------------
    // History

    /** The teacher's view of one session's emails, looked up one by one. */
    method StudentDetails(emails: seq<string>) returns (details: seq<StudentInfo>)
      ensures details == Details(users, emails)
    {
      var accounts := users;
      details := [];
      var k := 0;
      while k < |emails|
        invariant 0 <= k <= |emails|
        invariant details == Details(accounts, emails[..k])
      {
        DetailsStep(accounts, emails, k);
        var found := FindUser(accounts, emails[k]);
        if found.Some? {
          details := details + [StudentInfo(emails[k], accounts[found.value].fullName)];
        }
        k := k + 1;
      }
      assert emails[..k] == emails;
    }

    /** `GET /attendance/history/{course_id}`: the closed sessions, sorted
        newest first, each rewritten into the caller's view. */
    method History(caller: User, cid: nat) returns (r: Result<seq<HistoryEntry>>)
      ensures r == Endpoints.History(State(), caller, cid)
    {
      if !MaySeeHistory(State(), caller, cid) {
        return Failure(NoHistoryAccess);
      }
      var ids := NewestFirst(attendance, cid);
      var entries: seq<HistoryEntry> := [];
      var k := 0;
      while k < |ids|
        invariant 0 <= k <= |ids|
        invariant |entries| == k
        invariant forall j :: 0 <= j < k ==> entries[j] == HistoryView(State(), caller, ids[j])
      {
        var i := ids[k];
        var record := attendance[i];
        if caller.role == Student {
          entries := entries + [StudentEntry(i, record.date, record.code, caller.email in record.students)];
        } else {
          var details := StudentDetails(record.students);
          entries := entries + [TeacherEntry(i, record.date, record.code, details)];
        }
        k := k + 1;
      }
      ghost var db := State();
      ghost var expected := Endpoints.History(db, caller, cid).value;
      assert |expected| == |entries|;
      assert forall j :: 0 <= j < |entries| ==> expected[j] == entries[j];
      assert expected == entries;
      return Success(entries);
    }
  }
}
