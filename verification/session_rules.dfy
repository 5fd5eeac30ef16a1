/** What the attendance-session endpoints promise: their error conditions,
    the exact change a success makes, the invariant they keep, and how
    start, submit and end interact. */
module SessionRules {
  import opened Types
  import opened Seqs
  import opened Codes
  import opened Endpoints

  /** Record `i` is an open session of course `cid`. */
  predicate IsActiveOf(attendance: seq<Record>, i: nat, cid: nat) {
    i < |attendance| && attendance[i].courseId == cid && attendance[i].isActive
  }

  ghost predicate HasActive(attendance: seq<Record>, cid: nat) {
    exists i: nat :: IsActiveOf(attendance, i, cid)
  }

  lemma ActiveRecordFindsActive(attendance: seq<Record>, cid: nat)
    ensures ActiveRecord(attendance, cid).None? <==> !HasActive(attendance, cid)
    ensures ActiveRecord(attendance, cid).Some? ==> IsActiveOf(attendance, ActiveRecord(attendance, cid).value, cid)
  {
    var found := ActiveRecord(attendance, cid);
    if found.None? {
      forall i: nat | i < |attendance| ensures !IsActiveOf(attendance, i, cid) {
        assert !((r: Record) => r.courseId == cid && r.isActive)(attendance[i]);
      }
    } else {
      assert IsActiveOf(attendance, found.value, cid);
    }
  }

  /** With one open session per course, the open session `find_one`
      returns is the only one. */
  lemma ActiveRecordIsUnique(attendance: seq<Record>, cid: nat)
    requires OneActivePerCourse(attendance)
    ensures ActiveRecord(attendance, cid).Some? ==>
      forall i: nat :: IsActiveOf(attendance, i, cid) <==> i == ActiveRecord(attendance, cid).value
  {
    var found := ActiveRecord(attendance, cid);
    if found.Some? {
      assert IsActiveOf(attendance, found.value, cid);
      forall i: nat | IsActiveOf(attendance, i, cid) ensures i == found.value {
        assert ((r: Record) => r.courseId == cid && r.isActive)(attendance[i]);
      }
    }
  }

  // ---------------------------------------------------------------------
  // Start

  lemma StartRules(db: Db, caller: User, cid: Option<nat>, now: nat, picks: seq<nat>)
    requires |picks| == DefaultCodeLength
    ensures var r := Start(db, caller, cid, now, picks);
      && (r.result == Failure(CourseIdRequired) <==> cid.None?)
      && (r.result == Failure(OnlyTeachersStart) <==> cid.Some? && caller.role != Teacher)
      && (r.result == Failure(CourseNotFound) <==>
            cid.Some? && caller.role == Teacher && !Owns(db, caller, cid.value))
      && (r.result == Failure(AlreadyActive) <==>
            cid.Some? && caller.role == Teacher && Owns(db, caller, cid.value) && HasActive(db.attendance, cid.value))
      && (r.result.Success? <==>
            cid.Some? && caller.role == Teacher && Owns(db, caller, cid.value) && !HasActive(db.attendance, cid.value))
      && (r.result.Failure? ==> r.db == db)
      && (r.result.Success? ==>
            && IsAttendanceCode(r.result.value, DefaultCodeLength)
            && r.db == db.(attendance := db.attendance + [Record(cid.value, now, r.result.value, true, [])]))
  {
    if cid.Some? {
      ActiveRecordFindsActive(db.attendance, cid.value);
    }
  }

  lemma StartPreservesValid(db: Db, caller: User, cid: Option<nat>, now: nat, picks: seq<nat>)
    requires |picks| == DefaultCodeLength
    requires Valid(db)
    ensures Valid(Start(db, caller, cid, now, picks).db)
  {
    var r := Start(db, caller, cid, now, picks);
    if r.result.Success? {
      ActiveRecordFindsActive(db.attendance, cid.value);
      var att := r.db.attendance;
      forall i, j | 0 <= i < j < |att| && att[i].isActive && att[j].isActive
        ensures att[i].courseId != att[j].courseId
      {
        if j == |db.attendance| {
          assert !IsActiveOf(db.attendance, i, cid.value);
        }
      }
    }
  }

  /** "One active session per course": a second start without an end in
      between is refused. */
  lemma StartTwiceFails(db: Db, caller: User, cid: Option<nat>, now: nat, picks: seq<nat>, later: nat, picks2: seq<nat>)
    requires |picks| == DefaultCodeLength && |picks2| == DefaultCodeLength
    requires Start(db, caller, cid, now, picks).result.Success?
    ensures Start(Start(db, caller, cid, now, picks).db, caller, cid, later, picks2).result == Failure(AlreadyActive)
  {
    var db1 := Start(db, caller, cid, now, picks).db;
    assert IsActiveOf(db1.attendance, |db.attendance|, cid.value);
    ActiveRecordFindsActive(db1.attendance, cid.value);
  }

  // ---------------------------------------------------------------------
  // Submit

  /** Record `i` is an open session of course `cid` with exactly this code. */
  predicate Accepts(attendance: seq<Record>, i: nat, cid: nat, code: string) {
    IsActiveOf(attendance, i, cid) && attendance[i].code == code
  }

  lemma MatchingRecordIsUnique(attendance: seq<Record>, cid: nat, code: string)
    requires OneActivePerCourse(attendance)
    ensures MatchingRecord(attendance, cid, code).None? <==> forall i: nat :: !Accepts(attendance, i, cid, code)
    ensures MatchingRecord(attendance, cid, code).Some? ==>
      forall i: nat :: Accepts(attendance, i, cid, code) <==> i == MatchingRecord(attendance, cid, code).value
  {
    var found := MatchingRecord(attendance, cid, code);
    var p := (r: Record) => r.courseId == cid && r.isActive && r.code == code;
    if found.None? {
      forall i: nat | i < |attendance| ensures !Accepts(attendance, i, cid, code) {
        assert !p(attendance[i]);
      }
    } else {
      assert Accepts(attendance, found.value, cid, code);
      forall i: nat | Accepts(attendance, i, cid, code) ensures i == found.value {
        assert p(attendance[i]);
      }
    }
  }

  lemma SubmitRules(db: Db, caller: User, cid: Option<nat>, code: string)
    requires Valid(db)
    ensures var r := Submit(db, caller, cid, code);
      var present := cid.Some? && code != "";
      var admitted := present && caller.role == Student && Enrolled(db, caller.email, cid.value);
      && (r.result == Failure(CourseIdAndCodeRequired) <==> !present)
      && (r.result == Failure(OnlyStudentsSubmit) <==> present && caller.role != Student)
      && (r.result == Failure(NotEnrolled) <==>
            present && caller.role == Student && !Enrolled(db, caller.email, cid.value))
      && (r.result == Failure(InvalidOrExpiredCode) <==>
            admitted && forall i: nat :: !Accepts(db.attendance, i, cid.value, code))
      && (r.result == Failure(AlreadySubmitted) <==>
            admitted && exists i: nat :: Accepts(db.attendance, i, cid.value, code) &&
                                         caller.email in db.attendance[i].students)
      && (r.result.Success? <==>
            admitted && exists i: nat :: Accepts(db.attendance, i, cid.value, code) &&
                                         caller.email !in db.attendance[i].students)
      && (r.result.Failure? ==> r.db == db)
  {
    if cid.Some? {
      MatchingRecordIsUnique(db.attendance, cid.value, code);
      var found := MatchingRecord(db.attendance, cid.value, code);
      if found.Some? {
        assert Accepts(db.attendance, found.value, cid.value, code);
      }
    }
  }

  /** A successful submit appends the caller's email to the one session it
      matched, which did not hold it before and holds it once afterwards;
      nothing else changes. */
  lemma SubmitAppendsOnce(db: Db, caller: User, cid: Option<nat>, code: string)
    requires Valid(db)
    requires Submit(db, caller, cid, code).result.Success?
    ensures exists i: nat :: (
      var after := Submit(db, caller, cid, code).db;
      && Accepts(db.attendance, i, cid.value, code)
      && caller.email !in db.attendance[i].students
      && after == db.(attendance := db.attendance[i := db.attendance[i].(students := db.attendance[i].students + [caller.email])])
      && multiset(after.attendance[i].students)[caller.email] == 1)
  {
    var i := MatchingRecord(db.attendance, cid.value, code).value;
    assert Accepts(db.attendance, i, cid.value, code);
    var students := db.attendance[i].students;
    assert multiset(students)[caller.email] == 0;
    assert multiset(students + [caller.email]) == multiset(students) + multiset{caller.email};
  }

  lemma SubmitPreservesValid(db: Db, caller: User, cid: Option<nat>, code: string)
    requires Valid(db)
    ensures Valid(Submit(db, caller, cid, code).db)
  {
    var r := Submit(db, caller, cid, code);
    if r.result.Success? {
      var i := MatchingRecord(db.attendance, cid.value, code).value;
      var students := db.attendance[i].students + [caller.email];
      assert NoDuplicates(students) by {
        forall a, b | 0 <= a < b < |students| ensures students[a] != students[b] {
          if b == |students| - 1 {
            assert students[a] in db.attendance[i].students;
          }
        }
      }
      assert forall k :: 0 <= k < |r.db.attendance| ==> r.db.attendance[k].isActive == db.attendance[k].isActive;
      assert forall k :: 0 <= k < |r.db.attendance| ==> r.db.attendance[k].courseId == db.attendance[k].courseId;
    }
  }

  /** "A student submits at most once": repeating a successful submit is
      refused as a duplicate. */
  lemma SubmitTwiceFails(db: Db, caller: User, cid: Option<nat>, code: string)
    requires Valid(db)
    requires Submit(db, caller, cid, code).result.Success?
    ensures Submit(Submit(db, caller, cid, code).db, caller, cid, code).result == Failure(AlreadySubmitted)
  {
    var db1 := Submit(db, caller, cid, code).db;
    SubmitAppendsOnce(db, caller, cid, code);
    SubmitPreservesValid(db, caller, cid, code);
    var i := MatchingRecord(db.attendance, cid.value, code).value;
    assert Accepts(db1.attendance, i, cid.value, code);
    assert caller.email in db1.attendance[i].students;
    SubmitRules(db1, caller, cid, code);
  }

  // ---------------------------------------------------------------------
  // End

  lemma {:induction false} CountActiveIsZeroIffNoneActive(attendance: seq<Record>, cid: nat)
    ensures CountActive(attendance, cid) == 0 <==> !HasActive(attendance, cid)
  {
    if attendance != [] {
      var n := |attendance| - 1;
      CountActiveIsZeroIffNoneActive(attendance[..n], cid);
      if HasActive(attendance[..n], cid) {
        var i: nat :| IsActiveOf(attendance[..n], i, cid);
        assert IsActiveOf(attendance, i, cid);
      }
      if HasActive(attendance, cid) {
        var i: nat :| IsActiveOf(attendance, i, cid);
        if i < n {
          assert IsActiveOf(attendance[..n], i, cid);
        }
      } else {
        assert !IsActiveOf(attendance, n, cid);
      }
    }
  }

  lemma CloseCourseRules(attendance: seq<Record>, cid: nat)
    ensures var after := CloseCourse(attendance, cid);
      && |after| == |attendance|
      && !HasActive(after, cid)
      && (forall k :: 0 <= k < |after| ==>
            && after[k].students == attendance[k].students
            && after[k].courseId == attendance[k].courseId
            && after[k].date == attendance[k].date
            && after[k].code == attendance[k].code
            && (attendance[k].courseId != cid ==> after[k] == attendance[k])
            && (attendance[k].courseId == cid ==> !after[k].isActive))
      && (!HasActive(attendance, cid) ==> after == attendance)
  {
    var after := CloseCourse(attendance, cid);
    if !HasActive(attendance, cid) {
      forall k | 0 <= k < |after| ensures after[k] == attendance[k] {
        assert !IsActiveOf(attendance, k, cid);
      }
    }
  }

  lemma EndRules(db: Db, caller: User, cid: Option<nat>)
    ensures var r := End(db, caller, cid);
      && (r.result == Failure(CourseIdRequired) <==> cid.None?)
      && (r.result == Failure(OnlyTeachersEnd) <==> cid.Some? && caller.role != Teacher)
      && (r.result == Failure(CourseNotFound) <==>
            cid.Some? && caller.role == Teacher && !Owns(db, caller, cid.value))
      && (r.result == Failure(NoActiveAttendance) <==>
            cid.Some? && caller.role == Teacher && Owns(db, caller, cid.value) && !HasActive(db.attendance, cid.value))
      && (r.result.Success? <==>
            cid.Some? && caller.role == Teacher && Owns(db, caller, cid.value) && HasActive(db.attendance, cid.value))
      && (r.result.Failure? ==> r.db == db)
      && (r.result.Success? ==>
            && r.db.users == db.users && r.db.courses == db.courses
            && r.db.attendance == CloseCourse(db.attendance, cid.value)
            && !HasActive(r.db.attendance, cid.value))
  {
    if cid.Some? {
      CountActiveIsZeroIffNoneActive(db.attendance, cid.value);
      CloseCourseRules(db.attendance, cid.value);
    }
  }

  lemma EndPreservesValid(db: Db, caller: User, cid: Option<nat>)
    requires Valid(db)
    ensures Valid(End(db, caller, cid).db)
  {
    if cid.Some? {
      CloseCourseRules(db.attendance, cid.value);
    }
  }

  /** After a successful end, the course has no open session, so no code
      (in particular the one just used) is accepted any more. */
  lemma EndThenSubmitFails(db: Db, teacher: User, student: User, cid: nat, code: string)
    requires Valid(db)
    requires End(db, teacher, Some(cid)).result.Success?
    ensures var r := Submit(End(db, teacher, Some(cid)).db, student, Some(cid), code);
      && r.result.Failure?
      && (code != "" && student.role == Student && Enrolled(db, student.email, cid) ==>
            r.result == Failure(InvalidOrExpiredCode))
  {
    var db1 := End(db, teacher, Some(cid)).db;
    EndRules(db, teacher, Some(cid));
    EndPreservesValid(db, teacher, Some(cid));
    SubmitRules(db1, student, Some(cid), code);
    forall i: nat ensures !Accepts(db1.attendance, i, cid, code) {
      assert !IsActiveOf(db1.attendance, i, cid);
    }
  }

  /** After a successful end the teacher can open a new session. */
  lemma EndThenStartSucceeds(db: Db, teacher: User, cid: nat, now: nat, picks: seq<nat>)
    requires |picks| == DefaultCodeLength
    requires End(db, teacher, Some(cid)).result.Success?
    ensures Start(End(db, teacher, Some(cid)).db, teacher, Some(cid), now, picks).result.Success?
  {
    var db1 := End(db, teacher, Some(cid)).db;
    EndRules(db, teacher, Some(cid));
    StartRules(db1, teacher, Some(cid), now, picks);
  }
}
