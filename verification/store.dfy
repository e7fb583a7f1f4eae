/** The two tables of app/db.py held in memory: students and attendances,
    their constraints, the row-id rule of an SQLite INTEGER PRIMARY KEY, and
    the inner join `Attendance JOIN Student ON Student.id = student_id` that
    most queries start from. */
module Store {
  import opened Results
  import opened Calendar
  import opened Seqs

  /** The status column. Its values are these three names; 'Ausente' is
      only ever produced for report rows, never stored by the handlers. */
  datatype Status = Puntual | Tarde | Ausente {
    function Name(): string {
      match this
      case Puntual => "Puntual"
      case Tarde => "Tarde"
      case Ausente => "Ausente"
    }
  }

  /** The column default of `status`. */
  const DefaultStatus: Status := Puntual

  /** `code` and `name` are NOT NULL; the classification columns are nullable. */
  datatype Student = Student(
    id: int,
    code: string,
    name: string,
    grade: Option<string>,
    section: Option<string>,
    gender: Option<string>,
    registrationDate: Option<Date>,
    photoPath: Option<string>)

  /** `student_id`, `date` and `time` are NOT NULL. */
  datatype Attendance = Attendance(id: int, studentId: int, date: Date, time: DateTime, status: Status)

  datatype Db = Db(students: seq<Student>, attendances: seq<Attendance>)

  // ---------------------------------------------------------------------
  // Constraints

  predicate DistinctIds(a: Student, b: Student) { a.id != b.id }
  predicate DistinctCodes(a: Student, b: Student) { a.code != b.code }
  predicate DistinctAttendanceIds(a: Attendance, b: Attendance) { a.id != b.id }
  predicate DistinctStudentDay(a: Attendance, b: Attendance) {
    a.studentId != b.studentId || a.date != b.date
  }

  predicate UniqueStudentIds(ss: seq<Student>) { Pairwise(ss, DistinctIds) }

  /** `code` is UNIQUE. */
  predicate UniqueCodes(ss: seq<Student>) { Pairwise(ss, DistinctCodes) }

  predicate UniqueAttendanceIds(atts: seq<Attendance>) { Pairwise(atts, DistinctAttendanceIds) }

  /** `uq_attendance_student_date`: at most one attendance per student and day. */
  predicate OnePerStudentAndDay(atts: seq<Attendance>) { Pairwise(atts, DistinctStudentDay) }

  function StudentIds(ss: seq<Student>): set<int> {
    set s | s in ss :: s.id
  }

  /** Every attendance belongs to an existing student. */
  predicate Referenced(db: Db) {
    forall a | a in db.attendances :: a.studentId in StudentIds(db.students)
  }

  predicate Wellformed(db: Db) {
    && UniqueStudentIds(db.students)
    && UniqueCodes(db.students)
    && UniqueAttendanceIds(db.attendances)
    && OnePerStudentAndDay(db.attendances)
    && Referenced(db)
  }

  const EmptyDb: Db := Db([], [])

  /** The records stamped with a given day, and the others. */
  function OnDate(d: Date): Attendance -> bool { (a: Attendance) => a.date == d }
  function NotOnDate(d: Date): Attendance -> bool { (a: Attendance) => a.date != d }

  /** Every stored record is an arrival: the handlers only ever store
      'Puntual' or 'Tarde'. */
  predicate OnlyArrivals(db: Db) {
    forall a | a in db.attendances :: a.status == Puntual || a.status == Tarde
  }

  // ---------------------------------------------------------------------
  // Row ids and lookups

  function MaxOf(ids: seq<int>): (m: int)
    requires |ids| > 0
    ensures forall k | 0 <= k < |ids| :: ids[k] <= m
    ensures exists k | 0 <= k < |ids| :: m == ids[k]
  {
    if |ids| == 1 then ids[0]
    else
      var rest := MaxOf(ids[1..]);
      assert forall k | 1 <= k < |ids| :: ids[k] == ids[1..][k - 1];
      if ids[0] >= rest then ids[0] else rest
  }

  /** The row id SQLite gives a new row of an INTEGER PRIMARY KEY table
      without AUTOINCREMENT: one more than the largest id, 1 when empty. */
  function NextRowId(ids: seq<int>): (r: int)
    ensures forall k | 0 <= k < |ids| :: ids[k] < r
    ensures |ids| == 0 ==> r == 1
    ensures |ids| > 0 ==> exists k | 0 <= k < |ids| :: r == ids[k] + 1
  {
    if |ids| == 0 then 1 else MaxOf(ids) + 1
  }

  function StudentIdList(ss: seq<Student>): (r: seq<int>)
    ensures |r| == |ss| && forall k | 0 <= k < |ss| :: r[k] == ss[k].id
  {
    seq(|ss|, k requires 0 <= k < |ss| => ss[k].id)
  }

  function AttendanceIdList(atts: seq<Attendance>): (r: seq<int>)
    ensures |r| == |atts| && forall k | 0 <= k < |atts| :: r[k] == atts[k].id
  {
    seq(|atts|, k requires 0 <= k < |atts| => atts[k].id)
  }

  function NewStudentId(db: Db): (r: int)
    ensures r !in StudentIds(db.students)
  {
    NextRowId(StudentIdList(db.students))
  }

  function NewAttendanceId(db: Db): (r: int)
    ensures forall a | a in db.attendances :: a.id != r
  {
    NextRowId(AttendanceIdList(db.attendances))
  }

  /** `db.get(Student, id)`. */
  function FindStudent(ss: seq<Student>, id: int): (r: Option<Student>)
    ensures r.Some? ==> r.value in ss && r.value.id == id
    ensures r.None? <==> id !in StudentIds(ss)
  {
    if |ss| == 0 then None
    else if ss[0].id == id then Some(ss[0])
    else FindStudent(ss[1..], id)
  }

  /** `query(Student).filter_by(code=code).one_or_none()`. */
  function FindByCode(ss: seq<Student>, code: string): (r: Option<Student>)
    ensures r.Some? ==> r.value in ss && r.value.code == code
    ensures r.None? <==> forall s | s in ss :: s.code != code
  {
    if |ss| == 0 then None
    else if ss[0].code == code then Some(ss[0])
    else FindByCode(ss[1..], code)
  }

  /** `query(Attendance).filter_by(student_id=…, date=…).one_or_none()`. */
  function FindAttendance(atts: seq<Attendance>, studentId: int, date: Date): (r: Option<Attendance>)
    ensures r.Some? ==> r.value in atts && r.value.studentId == studentId && r.value.date == date
    ensures r.None? <==> forall a | a in atts :: a.studentId != studentId || a.date != date
  {
    if |atts| == 0 then None
    else if atts[0].studentId == studentId && atts[0].date == date then Some(atts[0])
    else FindAttendance(atts[1..], studentId, date)
  }

  /** With unique ids, the student found by id is the only one with that id. */
  lemma FindStudentUnique(ss: seq<Student>, id: int, s: Student)
    requires UniqueStudentIds(ss)
    requires s in ss && s.id == id
    ensures FindStudent(ss, id) == Some(s)
  {
    var k :| 0 <= k < |ss| && ss[k] == s;
    if k > 0 {
      assert DistinctIds(ss[0], ss[k]);
      assert UniqueStudentIds(ss[1..]) by {
        forall i, j | 0 <= i < j < |ss[1..]|
          ensures DistinctIds(ss[1..][i], ss[1..][j])
        {
          assert ss[1..][i] == ss[i + 1] && ss[1..][j] == ss[j + 1];
        }
      }
      assert ss[1..][k - 1] == s;
      FindStudentUnique(ss[1..], id, s);
    }
  }

  // ---------------------------------------------------------------------
  // The attendance/student join

  datatype Row = Row(attendance: Attendance, student: Student)

  /** `query(Attendance, Student).join(Student, Student.id == student_id)`
      in ledger order: attendances whose student is gone drop out. */
  function Join(atts: seq<Attendance>, ss: seq<Student>): (r: seq<Row>)
    ensures |r| <= |atts|
    ensures forall k | 0 <= k < |r| ::
      r[k].attendance in atts && r[k].student in ss && r[k].student.id == r[k].attendance.studentId
  {
    if |atts| == 0 then []
    else
      var rest := Join(atts[1..], ss);
      match FindStudent(ss, atts[0].studentId)
      case None => rest
      case Some(s) => [Row(atts[0], s)] + rest
  }

  function Joined(db: Db): seq<Row> {
    Join(db.attendances, db.students)
  }

  function AttendancesOf(rows: seq<Row>): (r: seq<Attendance>)
    ensures |r| == |rows| && forall k | 0 <= k < |rows| :: r[k] == rows[k].attendance
  {
    seq(|rows|, k requires 0 <= k < |rows| => rows[k].attendance)
  }

  /** When every attendance has its student, the join loses no attendance
      and pairs each with the student that owns it. */
  lemma {:induction false} JoinKeepsReferenced(atts: seq<Attendance>, ss: seq<Student>)
    requires forall a | a in atts :: a.studentId in StudentIds(ss)
    ensures AttendancesOf(Join(atts, ss)) == atts
  {
    if |atts| > 0 {
      assert atts[0] in atts;
      JoinKeepsReferenced(atts[1..], ss);
    }
  }

  /** Every attendance whose student exists shows up in the join, paired
      with the student found by its id. */
  lemma {:induction false} JoinFinds(atts: seq<Attendance>, ss: seq<Student>, a: Attendance)
    requires a in atts && a.studentId in StudentIds(ss)
    ensures Row(a, FindStudent(ss, a.studentId).value) in Join(atts, ss)
  {
    if atts[0] != a {
      assert a in atts[1..];
      JoinFinds(atts[1..], ss, a);
    }
  }
}
