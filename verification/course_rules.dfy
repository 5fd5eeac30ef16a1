/** What the course and roster endpoints promise: who may create and fill a
    course, that enrolment is a set, and what `GET /courses` shows. */
module CourseRules {
  import opened Types
  import opened Endpoints
  import opened SessionRules
  import opened Codes

  ghost predicate CodeUsed(db: Db, code: string) {
    exists c :: 0 <= c < |db.courses| && db.courses[c].code == code
  }

  ghost predicate IsStudentAccount(db: Db, email: string) {
    exists i :: 0 <= i < |db.users| && db.users[i].email == email && db.users[i].role == Student
  }

  lemma CreateCourseRules(db: Db, caller: User, name: string, code: string, schedule: string)
    ensures var r := CreateCourse(db, caller, name, code, schedule);
      && (r.result.Failure? <==> caller.role != Teacher)
      && (r.result.Failure? ==> r.result.error == OnlyTeachersCreateCourses && r.db == db)
      && (r.result.Success? ==>
            && r.result.value == |db.courses|
            && r.db == db.(courses := db.courses + [Course(name, code, schedule, caller.email, [])])
            && Owns(r.db, caller, r.result.value)
            && r.db.courses[r.result.value].studentEmails == [])
  {
  }

  lemma CreateCourseCheckedRules(db: Db, caller: User, name: string, code: string, schedule: string)
    ensures var r := CreateCourseChecked(db, caller, name, code, schedule);
      && (r.result == Failure(OnlyTeachersAddCourses) <==> caller.role != Teacher)
      && (r.result == Failure(CourseCodeInUse) <==> caller.role == Teacher && CodeUsed(db, code))
      && (r.result.Success? <==> caller.role == Teacher && !CodeUsed(db, code))
      && (r.result.Failure? ==> r.db == db)
      && (r.result.Success? ==>
            && r.result.value == |db.courses|
            && r.db == db.(courses := db.courses + [Course(name, code, schedule, caller.email, [])])
            && Owns(r.db, caller, r.result.value)
            && r.db.courses[r.result.value].studentEmails == [])
  {
    var found := FindCourseByCode(db.courses, code);
    if found.Some? {
      assert db.courses[found.value].code == code;
    } else {
      forall c | 0 <= c < |db.courses| ensures db.courses[c].code != code {
        assert !((x: Course) => x.code == code)(db.courses[c]);
      }
    }
  }

  predicate UniqueCodes(courses: seq<Course>) {
    forall i, j :: 0 <= i < j < |courses| ==> courses[i].code != courses[j].code
  }

  /** Courses created only through `POST /create-course` have distinct codes. */
  lemma CreateCourseCheckedKeepsCodesUnique(db: Db, caller: User, name: string, code: string, schedule: string)
    requires UniqueCodes(db.courses)
    ensures UniqueCodes(CreateCourseChecked(db, caller, name, code, schedule).db.courses)
  {
    CreateCourseCheckedRules(db, caller, name, code, schedule);
  }

  lemma CreateCoursePreservesValid(db: Db, caller: User, name: string, code: string, schedule: string)
    requires Valid(db)
    ensures Valid(CreateCourse(db, caller, name, code, schedule).db)
    ensures Valid(CreateCourseChecked(db, caller, name, code, schedule).db)
  {
  }

  lemma FindStudentFindsStudent(db: Db, email: string)
    ensures FindStudent(db.users, email).None? <==> !IsStudentAccount(db, email)
  {
    var found := FindStudent(db.users, email);
    if found.Some? {
      assert db.users[found.value].email == email && db.users[found.value].role == Student;
    } else {
      forall i | 0 <= i < |db.users| ensures !(db.users[i].email == email && db.users[i].role == Student) {
        assert !((u: User) => u.email == email && u.role == Student)(db.users[i]);
      }
    }
  }

  lemma AddStudentRules(db: Db, caller: User, cid: nat, email: string)
    ensures var r := AddStudent(db, caller, cid, email);
      && (r.result == Failure(OnlyTeachersAddStudents) <==> caller.role != Teacher)
      && (r.result == Failure(CourseNotFound) <==> caller.role == Teacher && !Owns(db, caller, cid))
      && (r.result == Failure(StudentNotFound) <==>
            caller.role == Teacher && Owns(db, caller, cid) && !IsStudentAccount(db, email))
      && (r.result.Success? <==> caller.role == Teacher && Owns(db, caller, cid) && IsStudentAccount(db, email))
      && (r.result.Failure? ==> r.db == db)
      && (r.result.Success? ==>
            var roster := db.courses[cid].studentEmails;
            && r.db.users == db.users && r.db.attendance == db.attendance
            && |r.db.courses| == |db.courses|
            && (forall c :: 0 <= c < |db.courses| && c != cid ==> r.db.courses[c] == db.courses[c])
            && r.db.courses[cid] == db.courses[cid].(studentEmails := r.db.courses[cid].studentEmails)
            && r.db.courses[cid].studentEmails == (if email in roster then roster else roster + [email])
            && Enrolled(r.db, email, cid))
  {
    FindStudentFindsStudent(db, email);
  }

  /** `$addToSet` makes enrolment idempotent: enrolling the same student a
      second time succeeds and changes nothing. */
  lemma AddStudentIdempotent(db: Db, caller: User, cid: nat, email: string)
    requires AddStudent(db, caller, cid, email).result.Success?
    ensures var db1 := AddStudent(db, caller, cid, email).db;
      AddStudent(db1, caller, cid, email) == Reply(Success(()), db1)
  {
    var db1 := AddStudent(db, caller, cid, email).db;
    AddStudentRules(db, caller, cid, email);
    assert email in db1.courses[cid].studentEmails;
    assert db1.courses[cid := db1.courses[cid]] == db1.courses;
  }

  lemma AddStudentPreservesValid(db: Db, caller: User, cid: nat, email: string)
    requires Valid(db)
    ensures Valid(AddStudent(db, caller, cid, email).db)
  {
  }

  /** `GET /courses` lists exactly the caller's courses (taught, or for any
      other role attended), once each and in storage order, and marks each
      with its open session. */
  lemma GetCoursesContents(db: Db, caller: User)
    requires Valid(db)
    ensures var views := GetCourses(db, caller);
      && (forall k :: 0 <= k < |views| ==>
            && views[k].id < |db.courses|
            && views[k].course == db.courses[views[k].id]
            && (caller.role == Teacher ==> Owns(db, caller, views[k].id))
            && (caller.role != Teacher ==> Enrolled(db, caller.email, views[k].id))
            && (views[k].hasActiveAttendance <==> HasActive(db.attendance, views[k].id))
            && (caller.role != Teacher || !views[k].hasActiveAttendance ==> views[k].activeAttendanceCode == None)
            && (caller.role == Teacher || !views[k].hasActiveAttendance ==> views[k].alreadyAttended == None))
      && (forall c :: 0 <= c < |db.courses| && MaySeeHistory(db, caller, c) ==>
            exists k :: 0 <= k < |views| && views[k].id == c)
      && (forall a, b :: 0 <= a < b < |views| ==> views[a].id < views[b].id)
      && (forall k, i: nat :: 0 <= k < |views| && IsActiveOf(db.attendance, i, views[k].id) ==>
            && (caller.role == Teacher ==> views[k].activeAttendanceCode == Some(db.attendance[i].code))
            && (caller.role != Teacher ==>
                  views[k].alreadyAttended == Some(caller.email in db.attendance[i].students)))
  {
    var views := GetCourses(db, caller);
    var ids := VisibleCourses(db, caller);
    forall k | 0 <= k < |views|
      ensures views[k].hasActiveAttendance <==> HasActive(db.attendance, views[k].id)
      ensures forall i: nat :: IsActiveOf(db.attendance, i, views[k].id) ==>
            && (caller.role == Teacher ==> views[k].activeAttendanceCode == Some(db.attendance[i].code))
            && (caller.role != Teacher ==>
                  views[k].alreadyAttended == Some(caller.email in db.attendance[i].students))
    {
      ActiveRecordFindsActive(db.attendance, ids[k]);
      ActiveRecordIsUnique(db.attendance, ids[k]);
    }
    forall c | 0 <= c < |db.courses| && MaySeeHistory(db, caller, c)
      ensures exists k :: 0 <= k < |views| && views[k].id == c
    {
      if caller.role == Teacher {
        assert ((x: Course) => x.teacherEmail == caller.email)(db.courses[c]);
      } else {
        assert ((x: Course) => caller.email in x.studentEmails)(db.courses[c]);
      }
      assert c in ids;
      var k :| 0 <= k < |ids| && ids[k] == c;
      assert views[k].id == c;
    }
  }

  /** The code a teacher is shown for a course is accepted from an enrolled
      student who has not checked in yet. */
  lemma ShownCodeIsAccepted(db: Db, teacher: User, k: nat, student: User)
    requires Valid(db)
    requires k < |GetCourses(db, teacher)|
    requires GetCourses(db, teacher)[k].activeAttendanceCode.Some?
    requires student.role == Student && Enrolled(db, student.email, GetCourses(db, teacher)[k].id)
    requires forall i: nat :: IsActiveOf(db.attendance, i, GetCourses(db, teacher)[k].id) ==>
      student.email !in db.attendance[i].students
    ensures var view := GetCourses(db, teacher)[k];
      Submit(db, student, Some(view.id), view.activeAttendanceCode.value).result.Success?
  {
    var view := GetCourses(db, teacher)[k];
    var cid := view.id;
    GetCoursesContents(db, teacher);
    var i := ActiveRecord(db.attendance, cid).value;
    ActiveRecordFindsActive(db.attendance, cid);
    assert view.activeAttendanceCode == Some(db.attendance[i].code);
    assert |db.attendance[i].code| == DefaultCodeLength;
    SubmitRules(db, student, Some(cid), db.attendance[i].code);
    assert Accepts(db.attendance, i, cid, db.attendance[i].code);
  }
}
