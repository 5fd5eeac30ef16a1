/** What `GET /attendance/history/{course_id}` promises: only the teacher of
    the course or an enrolled user sees it, and it holds every closed session
    of the course once, newest first, in the caller's view. */
module HistoryRules {
  import opened Types
  import opened Seqs
  import opened Codes
  import opened Endpoints
  import opened SessionRules

  /** Record `i` is a closed session of course `cid`. */
  predicate IsClosedOf(attendance: seq<Record>, i: nat, cid: nat) {
    i < |attendance| && attendance[i].courseId == cid && !attendance[i].isActive
  }

  lemma NewestFirstRules(attendance: seq<Record>, cid: nat)
    ensures var ids := NewestFirst(attendance, cid);
      && (forall k :: 0 <= k < |ids| ==> IsClosedOf(attendance, ids[k], cid))
      && (forall i: nat :: IsClosedOf(attendance, i, cid) ==> i in ids)
      && NoDuplicates(ids)
      && (forall a, b :: 0 <= a < b < |ids| ==> attendance[ids[a]].date >= attendance[ids[b]].date)
  {
    var closed := ClosedSessions(attendance, cid);
    var ids := NewestFirst(attendance, cid);
    var p := (r: Record) => r.courseId == cid && !r.isActive;
    forall k | 0 <= k < |ids| ensures IsClosedOf(attendance, ids[k], cid) {
      assert ids[k] in multiset(closed);
      var j :| 0 <= j < |closed| && closed[j] == ids[k];
      assert p(attendance[closed[j]]);
    }
    forall i: nat | IsClosedOf(attendance, i, cid) ensures i in ids {
      assert p(attendance[i]);
      assert i in multiset(closed);
    }
    NoDuplicatesPermutation(closed, ids);
    forall a, b | 0 <= a < b < |ids| ensures attendance[ids[a]].date >= attendance[ids[b]].date {
      assert DateOf(attendance)(ids[a]) >= DateOf(attendance)(ids[b]);
    }
  }

  lemma HistoryAccess(db: Db, caller: User, cid: nat)
    ensures var h := History(db, caller, cid);
      && (h.Failure? <==> !MaySeeHistory(db, caller, cid))
      && (h.Failure? ==> h.error == NoHistoryAccess)
  {
  }

  /** The answer views the closed sessions newest first. */
  lemma HistoryViewsNewestFirst(db: Db, caller: User, cid: nat)
    requires MaySeeHistory(db, caller, cid)
    ensures var h := History(db, caller, cid);
      var ids := NewestFirst(db.attendance, cid);
      && h.Success? && |h.value| == |ids|
      && (forall k :: 0 <= k < |ids| ==> ids[k] < |db.attendance| && h.value[k] == HistoryView(db, caller, ids[k]))
  {
    NewestFirstRules(db.attendance, cid);
  }

  /** Every closed session of the course appears once, newest first, and
      nothing else appears. */
  lemma HistoryListsClosedSessions(db: Db, caller: User, cid: nat)
    requires MaySeeHistory(db, caller, cid)
    ensures var entries := History(db, caller, cid).value;
      var att := db.attendance;
      && (forall k :: 0 <= k < |entries| ==>
            && IsClosedOf(att, entries[k].id, cid)
            && entries[k].date == att[entries[k].id].date
            && entries[k].code == att[entries[k].id].code)
      && (forall i: nat :: IsClosedOf(att, i, cid) ==> exists k :: 0 <= k < |entries| && entries[k].id == i)
      && (forall a, b :: 0 <= a < b < |entries| ==> entries[a].id != entries[b].id)
      && (forall a, b :: 0 <= a < b < |entries| ==> entries[a].date >= entries[b].date)
  {
    var att := db.attendance;
    var ids := NewestFirst(att, cid);
    var entries := History(db, caller, cid).value;
    NewestFirstRules(att, cid);
    HistoryViewsNewestFirst(db, caller, cid);
    assert forall k :: 0 <= k < |entries| ==> entries[k].id == ids[k];
    forall i: nat | IsClosedOf(att, i, cid)
      ensures exists k :: 0 <= k < |entries| && entries[k].id == i
    {
      var k :| 0 <= k < |ids| && ids[k] == i;
    }
  }

  /** A student sees, per session, only whether they attended; a teacher
      (or any other non-student role) sees who attended. */
  lemma HistoryShowsRoleView(db: Db, caller: User, cid: nat)
    requires MaySeeHistory(db, caller, cid)
    ensures var entries := History(db, caller, cid).value;
      var att := db.attendance;
      && (caller.role == Student ==> forall k :: 0 <= k < |entries| ==>
            entries[k].id < |att| && entries[k].StudentEntry? &&
            (entries[k].attended <==> caller.email in att[entries[k].id].students))
      && (caller.role != Student ==> forall k :: 0 <= k < |entries| ==>
            entries[k].id < |att| && entries[k].TeacherEntry? &&
            entries[k].students == Details(db.users, att[entries[k].id].students))
  {
    HistoryViewsNewestFirst(db, caller, cid);
  }

  /** Ending a session moves it, with every submission it received, into
      the teacher's history. */
  lemma EndedSessionInHistory(db: Db, teacher: User, cid: nat, i: nat)
    requires End(db, teacher, Some(cid)).result.Success?
    requires IsActiveOf(db.attendance, i, cid)
    ensures var h := History(End(db, teacher, Some(cid)).db, teacher, cid);
      && h.Success?
      && exists k :: 0 <= k < |h.value| &&
           h.value[k] == TeacherEntry(i, db.attendance[i].date, db.attendance[i].code,
                                      Details(db.users, db.attendance[i].students))
  {
    var db1 := End(db, teacher, Some(cid)).db;
    EndRules(db, teacher, Some(cid));
    CloseCourseRules(db.attendance, cid);
    assert IsClosedOf(db1.attendance, i, cid);
    HistoryListsClosedSessions(db1, teacher, cid);
    HistoryShowsRoleView(db1, teacher, cid);
    var h := History(db1, teacher, cid);
    var k :| 0 <= k < |h.value| && h.value[k].id == i;
    assert h.value[k] == TeacherEntry(i, db.attendance[i].date, db.attendance[i].code,
                                      Details(db.users, db.attendance[i].students));
  }

  /** Opening a session on a course without one, and one check-in by an
      enrolled student: the session is stored with exactly that student. */
  lemma OpenAndCheckIn(db: Db, teacher: User, student: User, cid: nat, now: nat, picks: seq<nat>)
    requires Valid(db) && |picks| == DefaultCodeLength
    requires teacher.role == Teacher && Owns(db, teacher, cid) && !HasActive(db.attendance, cid)
    requires student.role == Student && Enrolled(db, student.email, cid)
    ensures Start(db, teacher, Some(cid), now, picks).result.Success?
    ensures var started := Start(db, teacher, Some(cid), now, picks);
      var code := started.result.value;
      var first := Submit(started.db, student, Some(cid), code);
      && code != ""
      && Valid(started.db)
      && first.result.Success?
      && first.db == db.(attendance := db.attendance + [Record(cid, now, code, true, [student.email])])
  {
    var i := |db.attendance|;
    StartRules(db, teacher, Some(cid), now, picks);
    StartPreservesValid(db, teacher, Some(cid), now, picks);
    var started := Start(db, teacher, Some(cid), now, picks);
    var code := started.result.value;
    var att := started.db.attendance;
    assert att == db.attendance + [Record(cid, now, code, true, [])];
    assert Accepts(att, i, cid, code);
    MatchingRecordIsUnique(att, cid, code);
    assert MatchingRecord(att, cid, code) == Some(i);
    assert |code| == DefaultCodeLength;
    assert Enrolled(started.db, student.email, cid);
    assert student.email !in att[i].students;
    var first := Submit(started.db, student, Some(cid), code);
    assert first.db == started.db.(attendance := att[i := att[i].(students := att[i].students + [student.email])]);
    PushOntoLast(db.attendance, Record(cid, now, code, true, []), student.email);
    assert [] + [student.email] == [student.email];
  }

  /** Adding an email to the last of a sequence of records. */
  lemma PushOntoLast(att: seq<Record>, record: Record, email: string)
    ensures (att + [record])[|att| := record.(students := record.students + [email])] ==
      att + [record.(students := record.students + [email])]
  {
  }

  /** The teacher's view of a single attendee who has an account is that
      account's email and full name. */
  lemma DetailsOfAccount(users: seq<User>, user: User)
    requires UniqueEmails(users) && user in users
    ensures Details(users, [user.email]) == [StudentInfo(user.email, user.fullName)]
  {
    var i :| 0 <= i < |users| && users[i] == user;
    var found := FindUser(users, user.email);
    assert ((u: User) => u.email == user.email)(users[i]);
    assert found.Some? && users[found.value].email == user.email;
    assert found.value == i;
    assert [user.email][..0] == [];
  }

  /** Closing a session holding one check-in: the code stops working, and the
      history shows the session with exactly that student to the teacher
      and as attended to the student, and nothing to a student of another
      course. */
  lemma CloseAndReview(db: Db, teacher: User, student: User, outsider: User, cid: nat, now: nat, code: string)
    requires Valid(db)
    requires teacher.role == Teacher && Owns(db, teacher, cid)
    requires student.role == Student && Enrolled(db, student.email, cid)
    requires outsider.role == Student && !Enrolled(db, outsider.email, cid)
    requires student in db.users
    requires code != "" && |db.attendance| > 0
    requires db.attendance[|db.attendance| - 1] == Record(cid, now, code, true, [student.email])
    ensures var closed := End(db, teacher, Some(cid));
      var i := |db.attendance| - 1;
      && closed.result.Success?
      && Submit(closed.db, student, Some(cid), code).result == Failure(InvalidOrExpiredCode)
      && History(closed.db, outsider, cid) == Failure(NoHistoryAccess)
      && History(closed.db, teacher, cid).Success?
      && (exists k :: 0 <= k < |History(closed.db, teacher, cid).value| &&
            History(closed.db, teacher, cid).value[k] ==
              TeacherEntry(i, now, code, [StudentInfo(student.email, student.fullName)]))
      && History(closed.db, student, cid).Success?
      && (exists k :: 0 <= k < |History(closed.db, student, cid).value| &&
            History(closed.db, student, cid).value[k] == StudentEntry(i, now, code, true))
  {
    var i := |db.attendance| - 1;
    assert IsActiveOf(db.attendance, i, cid);
    EndRules(db, teacher, Some(cid));
    EndThenSubmitFails(db, teacher, student, cid, code);
    EndedSessionInHistory(db, teacher, cid, i);
    DetailsOfAccount(db.users, student);
    var closed := End(db, teacher, Some(cid));
    CloseCourseRules(db.attendance, cid);
    assert IsClosedOf(closed.db.attendance, i, cid);
    HistoryListsClosedSessions(closed.db, student, cid);
    HistoryShowsRoleView(closed.db, student, cid);
    var h := History(closed.db, student, cid).value;
    var k :| 0 <= k < |h| && h[k].id == i;
    assert h[k] == StudentEntry(i, now, code, true);
  }

  /** A whole session: the teacher opens it, an enrolled student checks in,
      checks in again and is refused, a student of another course is
      refused, and the teacher closes it: the teacher's history then lists
      the session with that one student (the rest is `CloseAndReview`). */
  lemma SessionLifecycle(db: Db, teacher: User, student: User, outsider: User, cid: nat, now: nat, picks: seq<nat>)
    requires Valid(db) && |picks| == DefaultCodeLength
    requires teacher.role == Teacher && Owns(db, teacher, cid) && !HasActive(db.attendance, cid)
    requires student.role == Student && Enrolled(db, student.email, cid) && student in db.users
    requires outsider.role == Student && !Enrolled(db, outsider.email, cid)
    ensures Start(db, teacher, Some(cid), now, picks).result.Success?
    ensures var started := Start(db, teacher, Some(cid), now, picks);
      var code := started.result.value;
      var first := Submit(started.db, student, Some(cid), code);
      var again := Submit(first.db, student, Some(cid), code);
      var refused := Submit(again.db, outsider, Some(cid), code);
      && first.result.Success?
      && again.result == Failure(AlreadySubmitted)
      && refused.result == Failure(NotEnrolled)
      && refused.db == first.db
      && End(refused.db, teacher, Some(cid)).result.Success?
      && History(End(refused.db, teacher, Some(cid)).db, teacher, cid).Success?
      && (exists k :: 0 <= k < |History(End(refused.db, teacher, Some(cid)).db, teacher, cid).value| &&
            History(End(refused.db, teacher, Some(cid)).db, teacher, cid).value[k] ==
              TeacherEntry(|db.attendance|, now, code, [StudentInfo(student.email, student.fullName)]))
  {
    OpenAndCheckIn(db, teacher, student, cid, now, picks);
    var started := Start(db, teacher, Some(cid), now, picks);
    var code := started.result.value;
    var first := Submit(started.db, student, Some(cid), code);
    SubmitTwiceFails(started.db, student, Some(cid), code);
    SubmitPreservesValid(started.db, student, Some(cid), code);
    SubmitRules(first.db, outsider, Some(cid), code);
    CloseAndReview(first.db, teacher, student, outsider, cid, now, code);
  }
}
