/** The bulk student clear of app/main.py deletes with a bulk query, which
    skips the ORM cascade that the single delete relies on, and SQLite
    does not enforce the foreign key. The attendances of the deleted
    students stay behind, and since an emptied table hands out row id 1
    again, they are adopted by the next students enrolled. The corrected
    clear removes them, exactly as deleting each student in turn would. */
module Findings {
  import opened Results
  import opened Calendar
  import opened Seqs
  import opened Store
  import opened Students
  import opened Ledger

  // ---------------------------------------------------------------------
  // As written: a stale record resurfaces

  const Day: Date := Ymd(2024, 3, 4)
  const Ana: Student := Student(1, "ana", "Ana", None, None, None, None, None)
  const AnaArrival: Attendance := Attendance(1, 1, Day, DateTime(Day, ClockTime(7, 10, 0, 0)), Puntual)
  const Before: Db := Db([Ana], [AnaArrival])

  /** Ana arrived at 07:10, then every student was cleared. Luis is
      enrolled by his first match at 08:05 the same day, gets row id 1, and
      is told he already arrived on time at 07:10: no record of his own is
      written. */
  lemma OrphanRecordResurfaces()
    ensures Wellformed(Before)
    ensures !Referenced(ClearAllStudentsAsWritten(Before).0)
    ensures
      var cleared := ClearAllStudentsAsWritten(Before).0;
      var (after, luis, att) := MarkCode(cleared, "luis", Day, DateTime(Day, ClockTime(8, 5, 0, 0)));
      && luis.id == 1
      && att == AnaArrival
      && after.attendances == [AnaArrival]
  {
    var cleared := ClearAllStudentsAsWritten(Before).0;
    assert cleared == Db([], [AnaArrival]);
    assert AnaArrival.studentId !in StudentIds(cleared.students);
    var (db1, luis) := ResolveOrRegister(cleared, "luis");
    assert NewStudentId(cleared) == 1;
    assert luis.id == 1;
    assert FindAttendance(db1.attendances, 1, Day) == Some(AnaArrival);
  }

  // ---------------------------------------------------------------------
  // Corrected: the clear cascades

  /** Deleting the listed students one at a time through the single delete,
      skipping ids already gone. */
  function DeleteEach(db: Db, ids: seq<int>): Db
    decreases |ids|
  {
    if |ids| == 0 then db
    else
      var next := match DeleteStudent(db, ids[0]) case Ok(d) => d case Err(_) => db;
      DeleteEach(next, ids[1..])
  }

  /** What is left after deleting the listed students: the others and
      their records, and nothing new. */
  lemma {:induction false} DeleteEachLeaves(db: Db, ids: seq<int>)
    requires Wellformed(db)
    ensures Wellformed(DeleteEach(db, ids))
    ensures forall s | s in DeleteEach(db, ids).students :: s in db.students && s.id !in ids
    ensures forall a | a in DeleteEach(db, ids).attendances :: a in db.attendances && a.studentId !in ids
    decreases |ids|
  {
    if |ids| > 0 {
      var next := match DeleteStudent(db, ids[0]) case Ok(d) => d case Err(_) => db;
      if DeleteStudent(db, ids[0]).Ok? {
        DeleteKeepsWellformed(db, ids[0]);
      }
      assert ids == [ids[0]] + ids[1..];
      DeleteEachLeaves(next, ids[1..]);
      var r := DeleteEach(next, ids[1..]);
      assert r == DeleteEach(db, ids);
      forall a | a in r.attendances
        ensures a in db.attendances && a.studentId != ids[0]
      {
        assert a in next.attendances;
        if DeleteStudent(db, ids[0]).Err? {
          assert a.studentId in StudentIds(db.students);
        }
      }
    }
  }

  /** The corrected bulk clear leaves what deleting every student through
      the single delete leaves: nothing, and in particular no record whose
      student is gone. */
  lemma ClearAllIsDeleteEach(db: Db)
    requires Wellformed(db)
    ensures DeleteEach(db, StudentIdList(db.students)) == ClearAllStudents(db).0
  {
    var ids := StudentIdList(db.students);
    var r := DeleteEach(db, ids);
    DeleteEachLeaves(db, ids);
    forall s | s in db.students
      ensures s.id in ids
    {
      var k :| 0 <= k < |db.students| && db.students[k] == s;
      assert ids[k] == s.id;
    }
    NoneLeft(r, db, ids);
  }

  /** Nothing is left when every student and every student's record was
      listed for deletion. */
  lemma NoneLeft(r: Db, db: Db, ids: seq<int>)
    requires Referenced(db)
    requires forall s | s in db.students :: s.id in ids
    requires forall s | s in r.students :: s in db.students && s.id !in ids
    requires forall a | a in r.attendances :: a in db.attendances && a.studentId !in ids
    ensures r == EmptyDb
  {
    if |r.students| > 0 {
      HasMember(r.students);
      assert false;
    }
    if |r.attendances| > 0 {
      HasMember(r.attendances);
      assert false;
    }
  }

  /** After the corrected clear, a student's first match of the day writes
      a record of their own, stamped with the time of the match. */
  lemma ClearAllThenMarkIsFresh(db: Db, code: string, today: Date, now: DateTime)
    ensures
      var (after, st, att) := MarkCode(ClearAllStudents(db).0, code, today, now);
      && st.id == 1 && att.studentId == 1 && att.time == now
      && after.attendances == [att]
  {
    var cleared := ClearAllStudents(db).0;
    assert NewStudentId(cleared) == 1;
  }
}
