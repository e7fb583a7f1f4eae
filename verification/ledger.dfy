/** The attendance ledger of app/main.py: marking a recognised face, the
    per-student history, the recent and today lists, the admin clears and
    counts. The clock is a parameter: `today` stands for `date.today()` and
    `now` for `datetime.now()`, read separately as the handler does. */
module Ledger {
  import opened Results
  import opened Calendar
  import opened Seqs
  import opened Sorting
  import opened Store
  import opened Students
  import opened Recognition

  // ---------------------------------------------------------------------
  // Marking

  /** 07:30:00.000000 on the day of `now`. */
  const Cutoff: TimeOfDay := ClockTime(7, 30, 0, 0)

  /** 'Tarde' strictly after the cut-off, 'Puntual' up to and including it. */
  function StatusAt(now: DateTime): (s: Status)
    ensures s == Tarde <==> now.time > Cutoff
    ensures s == Puntual <==> now.time <= Cutoff
  {
    if now.time > Cutoff then Tarde else Puntual
  }

  /** The student a recognised code refers to, enrolled on the spot (name =
      code, nothing else set) when no student has that code. */
  function ResolveOrRegister(db: Db, code: string): (r: (Db, Student))
    ensures r.1.code == code && r.1 in r.0.students
    ensures r.0.attendances == db.attendances
    ensures (exists s | s in db.students :: s.code == code) ==> r.0 == db && r.1 in db.students
    ensures (forall s | s in db.students :: s.code != code) ==>
      && r.1 == Student(r.1.id, code, code, None, None, None, None, None)
      && r.1.id !in StudentIds(db.students)
      && r.0.students == db.students + [r.1]
  {
    match FindByCode(db.students, code)
    case Some(s) => (db, s)
    case None =>
      CreateStudent(db, StudentFields(code, code, None, None, None, None, None)).value
  }

  lemma ResolveKeepsWellformed(db: Db, code: string)
    requires Wellformed(db)
    ensures Wellformed(ResolveOrRegister(db, code).0)
  {
    if FindByCode(db.students, code).None? {
      CreateKeepsWellformed(db, StudentFields(code, code, None, None, None, None, None));
    }
  }

  /** The write path of `attendance_mark` once a student is known: the
      student's record for today if there is one, untouched; otherwise a new
      record stamped `now` with the status the cut-off gives. */
  function MarkAttendance(db: Db, studentId: int, today: Date, now: DateTime): (r: (Db, Attendance))
    ensures r.1.studentId == studentId && r.1.date == today && r.1 in r.0.attendances
    ensures r.0.students == db.students
    ensures (exists a | a in db.attendances :: a.studentId == studentId && a.date == today) ==>
      r.0 == db && r.1 in db.attendances
    ensures (forall a | a in db.attendances :: a.studentId != studentId || a.date != today) ==>
      && r.1.time == now
      && (r.1.status == Tarde <==> now.time > Cutoff)
      && r.1.status != Ausente
      && (forall a | a in db.attendances :: a.id != r.1.id)
      && r.0.attendances == db.attendances + [r.1]
  {
    match FindAttendance(db.attendances, studentId, today)
    case Some(a) => (db, a)
    case None =>
      var a := Attendance(NewAttendanceId(db), studentId, today, now, StatusAt(now));
      (Db(db.students, db.attendances + [a]), a)
  }

  /** Marking keeps every constraint, one record per student and day above
      all, provided the student exists. */
  lemma MarkKeepsWellformed(db: Db, studentId: int, today: Date, now: DateTime)
    requires Wellformed(db)
    requires studentId in StudentIds(db.students)
    ensures Wellformed(MarkAttendance(db, studentId, today, now).0)
  {
    var (db', a) := MarkAttendance(db, studentId, today, now);
    if FindAttendance(db.attendances, studentId, today).None? {
      PairwiseAppend(db.attendances, a, DistinctAttendanceIds);
      PairwiseAppend(db.attendances, a, DistinctStudentDay);
    }
  }

  /** Marking stores arrivals only. */
  lemma MarkKeepsOnlyArrivals(db: Db, studentId: int, today: Date, now: DateTime)
    requires OnlyArrivals(db)
    ensures OnlyArrivals(MarkAttendance(db, studentId, today, now).0)
  {
  }

  lemma {:induction false} FindAttendanceAppend(atts: seq<Attendance>, a: Attendance)
    requires forall b | b in atts :: b.studentId != a.studentId || b.date != a.date
    ensures FindAttendance(atts + [a], a.studentId, a.date) == Some(a)
  {
    if |atts| > 0 {
      assert atts[0] in atts;
      assert (atts + [a])[1..] == atts[1..] + [a];
      FindAttendanceAppend(atts[1..], a);
    }
  }

  /** Marking is idempotent per student and day: a second mark, at any later
      moment of the same day, returns the first record and changes nothing. */
  lemma MarkIdempotent(db: Db, studentId: int, today: Date, now: DateTime, later: DateTime)
    ensures
      var (db', a) := MarkAttendance(db, studentId, today, now);
      MarkAttendance(db', studentId, today, later) == (db', a)
  {
    var (db', a) := MarkAttendance(db, studentId, today, now);
    if FindAttendance(db.attendances, studentId, today).None? {
      FindAttendanceAppend(db.attendances, a);
    }
  }

  /** What `attendance_mark` reports. */
  datatype MarkOutcome =
    | Rejected(reason: UnknownReason)
    | Marked(student: Student, attendance: Attendance, distance: real)

  /** The form fields of `attendance_mark` that shape the decision. */
  datatype MarkRequest = MarkRequest(modelName: string, maxDistance: Option<real>, minMargin: real)

  /** What a match of `code` does to the store, leaving `db'` and reporting
      `st` and `att`: the student holding the code, enrolled (name = code,
      nothing else set) only when no student has it; the student's record
      for today, appended (stamped `now`, with the cut-off status, under a
      fresh id) only when there was none. Nothing else changes. */
  predicate MarkEffect(db: Db, code: string, today: Date, now: DateTime, db': Db, st: Student, att: Attendance) {
    && st.code == code && st in db'.students
    && att.studentId == st.id && att.date == today && att in db'.attendances
    && ((exists s | s in db.students :: s.code == code) ==> db'.students == db.students && st in db.students)
    && ((forall s | s in db.students :: s.code != code) ==>
          && st == Student(st.id, code, code, None, None, None, None, None)
          && st.id !in StudentIds(db.students)
          && db'.students == db.students + [st])
    && ((exists a | a in db.attendances :: a.studentId == st.id && a.date == today) ==>
          db'.attendances == db.attendances && att in db.attendances)
    && ((forall a | a in db.attendances :: a.studentId != st.id || a.date != today) ==>
          && att.time == now && att.status == StatusAt(now)
          && (forall a | a in db.attendances :: a.id != att.id)
          && db'.attendances == db.attendances + [att])
  }

  /** The store side of an accepted match: resolve the code of the matched
      image to a student, enrolling it when new, then mark it for today. */
  function MarkCode(db: Db, code: string, today: Date, now: DateTime): (r: (Db, Student, Attendance))
    ensures MarkEffect(db, code, today, now, r.0, r.1, r.2)
  {
    var (db1, st) := ResolveOrRegister(db, code);
    var (db2, att) := MarkAttendance(db1, st.id, today, now);
    (db2, st, att)
  }

  lemma MarkCodeKeepsWellformed(db: Db, code: string, today: Date, now: DateTime)
    requires Wellformed(db)
    ensures Wellformed(MarkCode(db, code, today, now).0)
  {
    var (db1, st) := ResolveOrRegister(db, code);
    ResolveKeepsWellformed(db, code);
    assert st.id in StudentIds(db1.students);
    MarkKeepsWellformed(db1, st.id, today, now);
  }

  /** Marking the same code twice on one day: the second call finds the
      student and the record the first one made and changes nothing. */
  lemma MarkCodeTwice(db: Db, code: string, today: Date, now: DateTime, later: DateTime)
    requires Wellformed(db)
    ensures
      var (db2, st, att) := MarkCode(db, code, today, now);
      MarkCode(db2, code, today, later) == (db2, st, att)
  {
    var (db1, st) := ResolveOrRegister(db, code);
    ResolveKeepsWellformed(db, code);
    var (db2, att) := MarkAttendance(db1, st.id, today, now);
    assert db2.students == db1.students;
    ResolveFindsUnique(db2, code, st);
    MarkIdempotent(db1, st.id, today, now, later);
  }

  /** `attendance_mark`. The face matcher's rows are a parameter;
      `configured` is FACE_MAX_DISTANCE when set. */
  function AttendanceMark(db: Db, rows: seq<Candidate>, req: MarkRequest, configured: Option<real>,
                          today: Date, now: DateTime): (r: (Db, MarkOutcome))
    ensures
      var p := Params(EffectiveMaxDistance(req.maxDistance, configured, req.modelName), req.minMargin);
      var d := Decide(rows, p);
      && (d.Unknown? ==> r == (db, Rejected(d.reason)))
      && (d.Accepted? ==>
            && r.1.Marked?
            && r.1.distance == d.distance
            && MarkEffect(db, CodeOfIdentity(d.identity), today, now, r.0, r.1.student, r.1.attendance))
  {
    var p := Params(EffectiveMaxDistance(req.maxDistance, configured, req.modelName), req.minMargin);
    match Decide(rows, p)
    case Unknown(reason) => (db, Rejected(reason))
    case Accepted(identity, distance) =>
      var (db2, st, att) := MarkCode(db, CodeOfIdentity(identity), today, now);
      (db2, Marked(st, att, distance))
  }

  /** The handler keeps every constraint of the store. */
  lemma AttendanceMarkKeepsWellformed(db: Db, rows: seq<Candidate>, req: MarkRequest, configured: Option<real>,
                                      today: Date, now: DateTime)
    requires Wellformed(db)
    ensures Wellformed(AttendanceMark(db, rows, req, configured, today, now).0)
  {
    var p := Params(EffectiveMaxDistance(req.maxDistance, configured, req.modelName), req.minMargin);
    var d := Decide(rows, p);
    if d.Accepted? {
      MarkCodeKeepsWellformed(db, CodeOfIdentity(d.identity), today, now);
    }
  }

  /** Showing the same face twice on one day changes nothing the second
      time and reports the same student and record. */
  lemma AttendanceMarkTwice(db: Db, rows: seq<Candidate>, req: MarkRequest, configured: Option<real>,
                            today: Date, now: DateTime, later: DateTime)
    requires Wellformed(db)
    ensures
      var (db1, o1) := AttendanceMark(db, rows, req, configured, today, now);
      AttendanceMark(db1, rows, req, configured, today, later) == (db1, o1)
  {
    var p := Params(EffectiveMaxDistance(req.maxDistance, configured, req.modelName), req.minMargin);
    var d := Decide(rows, p);
    if d.Accepted? {
      MarkCodeTwice(db, CodeOfIdentity(d.identity), today, now, later);
    }
  }

  /** With unique codes, resolving a code that a student has returns that
      student and changes nothing. */
  lemma ResolveFindsUnique(db: Db, code: string, st: Student)
    requires UniqueCodes(db.students)
    requires st in db.students && st.code == code
    ensures ResolveOrRegister(db, code) == (db, st)
  {
    FindByCodeUnique(db.students, code, st);
  }

  lemma {:induction false} FindByCodeUnique(ss: seq<Student>, code: string, st: Student)
    requires UniqueCodes(ss)
    requires st in ss && st.code == code
    ensures FindByCode(ss, code) == Some(st)
  {
    var k :| 0 <= k < |ss| && ss[k] == st;
    if k > 0 {
      assert DistinctCodes(ss[0], ss[k]);
      assert UniqueCodes(ss[1..]) by {
        forall i, j | 0 <= i < j < |ss[1..]|
          ensures DistinctCodes(ss[1..][i], ss[1..][j])
        {
          assert ss[1..][i] == ss[i + 1] && ss[1..][j] == ss[j + 1];
        }
      }
      assert ss[1..][k - 1] == st;
      FindByCodeUnique(ss[1..], code, st);
    }
  }

  // ---------------------------------------------------------------------
  // Reading the ledger

  /** ORDER BY time DESC. */
  predicate LaterFirst(a: Attendance, b: Attendance) {
    Stamp(a.time) >= Stamp(b.time)
  }

  predicate RowLaterFirst(a: Row, b: Row) {
    Stamp(a.attendance.time) >= Stamp(b.attendance.time)
  }

  lemma LaterFirstIsTotalPreorder()
    ensures IsTotalPreorder(LaterFirst)
    ensures IsTotalPreorder(RowLaterFirst)
  {
  }

  /** The student's own records, in ledger order. */
  function OwnRecords(db: Db, studentId: int): (r: seq<Attendance>)
    ensures forall a | a in r :: a in db.attendances && a.studentId == studentId
    ensures forall a | a in db.attendances && a.studentId == studentId :: a in r
  {
    Filter(db.attendances, (a: Attendance) => a.studentId == studentId)
  }

  /** The limits a request gets when it names none: 30 for a student's
      history, 20 for the recent list. */
  const HistoryDefaultLimit: int := 30
  const RecentDefaultLimit: int := 20

  /** `student_attendance_history`: the student's `limit` latest records,
      latest first. The id must be at least 1 and the limit within 1..500. */
  function History(db: Db, studentId: int, limit: int): (r: Result<seq<Attendance>>)
    ensures r == Err(OutOfRange) <==> studentId < 1 || limit < 1 || limit > 500
    ensures r == Err(NotFound) <==>
      1 <= studentId && 1 <= limit <= 500 && studentId !in StudentIds(db.students)
    ensures r.Ok? ==>
      var own := OwnRecords(db, studentId);
      && |r.value| == (if limit < |own| then limit else |own|)
      && multiset(r.value) <= multiset(own)
      && SortedBy(r.value, LaterFirst)
      && (forall x, y | x in multiset(own) - multiset(r.value) && y in r.value :: Stamp(x.time) <= Stamp(y.time))
  {
    if studentId < 1 || limit < 1 || limit > 500 then Err(OutOfRange)
    else if studentId !in StudentIds(db.students) then Err(NotFound)
    else
      LaterFirstIsTotalPreorder();
      Ok(FirstSorted(OwnRecords(db, studentId), LaterFirst, limit))
  }

  /** Every record in a history belongs to the student asked for. */
  lemma HistoryIsOwn(db: Db, studentId: int, limit: int)
    requires History(db, studentId, limit).Ok?
    ensures forall a | a in History(db, studentId, limit).value ::
      a in db.attendances && a.studentId == studentId
  {
    var own := OwnRecords(db, studentId);
    var h := History(db, studentId, limit).value;
    forall a | a in h
      ensures a in own
    {
      assert a in multiset(h);
    }
  }

  /** `attendance_recent`: the `limit` latest joined rows, latest first;
      the limit must lie within 1..200. */
  function Recent(db: Db, limit: int): (r: Result<seq<Row>>)
    ensures r.Err? <==> limit < 1 || limit > 200
    ensures r.Err? ==> r.error == OutOfRange
    ensures r.Ok? ==>
      var rows := Joined(db);
      && |r.value| == (if limit < |rows| then limit else |rows|)
      && multiset(r.value) <= multiset(rows)
      && SortedBy(r.value, RowLaterFirst)
      && (forall x, y | x in multiset(rows) - multiset(r.value) && y in r.value ::
            Stamp(x.attendance.time) <= Stamp(y.attendance.time))
  {
    if limit < 1 || limit > 200 then Err(OutOfRange)
    else
      LaterFirstIsTotalPreorder();
      Ok(FirstSorted(Joined(db), RowLaterFirst, limit))
  }

  /** The default history limit lies within the declared bounds: a
      history without a limit fails only for a bad or unknown id. */
  lemma HistoryDefaultLimitAccepted(db: Db, studentId: int)
    ensures History(db, studentId, HistoryDefaultLimit).Err? <==>
      studentId < 1 || studentId !in StudentIds(db.students)
  {
  }

  /** The default recent limit lies within the declared bounds: the recent
      list without a limit always succeeds, with at most 20 rows. */
  lemma RecentDefaultLimitAccepted(db: Db)
    ensures Recent(db, RecentDefaultLimit).Ok?
    ensures |Recent(db, RecentDefaultLimit).value| <= RecentDefaultLimit
  {
  }

  /** `attendance_today`: today's joined rows, latest first. */
  function AttendanceToday(db: Db, today: Date): (r: seq<Row>)
    ensures multiset(r) == multiset(Filter(Joined(db), (x: Row) => x.attendance.date == today))
    ensures SortedBy(r, RowLaterFirst)
  {
    LaterFirstIsTotalPreorder();
    Sort(Filter(Joined(db), (x: Row) => x.attendance.date == today), RowLaterFirst)
  }

  /** In a well-formed store the today list shows every record dated today,
      each with its own student, and nothing else. */
  lemma AttendanceTodayComplete(db: Db, today: Date, a: Attendance)
    requires Wellformed(db)
    ensures (exists x | x in AttendanceToday(db, today) :: x.attendance == a) <==>
      a in db.attendances && a.date == today
  {
    var r := AttendanceToday(db, today);
    var chosen := Filter(Joined(db), (x: Row) => x.attendance.date == today);
    SameMembers(r, chosen);
    if a in db.attendances && a.date == today {
      var x := JoinedRowOf(db, a);
      assert x in chosen;
    }
  }

  /** Each referenced record appears in the join. */
  lemma JoinedRowOf(db: Db, a: Attendance) returns (x: Row)
    requires Referenced(db)
    requires a in db.attendances
    ensures x in Joined(db) && x.attendance == a
  {
    JoinKeepsReferenced(db.attendances, db.students);
    var rows := Joined(db);
    var k :| 0 <= k < |db.attendances| && db.attendances[k] == a;
    assert AttendancesOf(rows)[k] == a;
    x := rows[k];
  }

  // ---------------------------------------------------------------------
  // Admin clears and counts

  /** DELETE of every record dated d; returns the number removed. */
  function ClearDate(db: Db, d: Date): (r: (Db, nat))
    ensures r.0.students == db.students
    ensures forall a | a in r.0.attendances :: a in db.attendances && a.date != d
    ensures forall a | a in db.attendances && a.date != d :: a in r.0.attendances
    ensures r.1 + |r.0.attendances| == |db.attendances|
  {
    var kept := Filter(db.attendances, NotOnDate(d));
    FilterPartition(db.attendances, OnDate(d), NotOnDate(d));
    (Db(db.students, kept), Count(db.attendances, OnDate(d)))
  }

  /** `admin_clear_date`: the form's date, None when it did not parse. */
  function ClearDateForm(db: Db, target: Option<Date>): (r: Result<(Db, nat)>)
    ensures r.Err? <==> target.None?
    ensures r.Err? ==> r.error == BadDate
    ensures r.Ok? ==> r.value == ClearDate(db, target.value)
  {
    match target
    case None => Err(BadDate)
    case Some(d) => Ok(ClearDate(db, d))
  }

  /** `admin_clear_all` (attendance): every record goes, students stay. */
  function ClearAllAttendance(db: Db): (r: (Db, nat))
    ensures r.0.students == db.students && r.0.attendances == []
    ensures r.1 == |db.attendances|
  {
    (Db(db.students, []), |db.attendances|)
  }

  datatype Counts = Counts(total: nat, today: nat)

  /** `admin_counts`. */
  function CountRecords(db: Db, today: Date): (r: Counts)
    ensures r.total == |db.attendances|
    ensures r.today == |Filter(db.attendances, OnDate(today))|
    ensures r.today <= r.total
  {
    Counts(|db.attendances|, Count(db.attendances, OnDate(today)))
  }

  /** After clearing a day, the day counts nothing and the total drops by
      the number reported deleted. */
  lemma ClearDateThenCount(db: Db, d: Date)
    ensures
      var (db', n) := ClearDate(db, d);
      CountRecords(db', d) == Counts(|db.attendances| - n, 0)
  {
    var (db', n) := ClearDate(db, d);
    assert forall a | a in db'.attendances :: !OnDate(d)(a);
    FilterNone(db'.attendances, OnDate(d));
  }

  /** Clearing a day keeps every constraint. */
  lemma ClearDateKeepsWellformed(db: Db, d: Date)
    requires Wellformed(db)
    ensures Wellformed(ClearDate(db, d).0)
  {
    FilterPairwise(db.attendances, NotOnDate(d), DistinctAttendanceIds);
    FilterPairwise(db.attendances, NotOnDate(d), DistinctStudentDay);
  }

  /** After clearing everything, both counts are zero. */
  lemma ClearAllThenCount(db: Db, today: Date)
    ensures CountRecords(ClearAllAttendance(db).0, today) == Counts(0, 0)
  {
  }
}
