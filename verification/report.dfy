/** The rows of the attendance report (`export_attendance_pdf` in
    app/main.py): the day's records that pass the class and status filters,
    and one synthesised absent row per student of the class without a record
    that day. Rendering the rows into a PDF is not part of this model. */
module Report {
  import opened Results
  import opened Calendar
  import opened Text
  import opened Seqs
  import opened Store
  import opened Students
  import opened Metrics

  /** The optional query parameters of the export. */
  datatype Filters = Filters(grade: Option<string>, section: Option<string>, status: Option<string>)

  /** The grade filter applies only to a non-empty string of digits. */
  predicate GradeFilterOn(grade: Option<string>) {
    Truthy(grade) && AllDigits(grade.value)
  }

  /** `Student.grade == int(grade)` against a text column compares with the
      decimal form of the number, so "03" selects grade "3"; the section is
      compared upper-cased. A NULL column never matches. */
  predicate ForClass(s: Student, f: Filters) {
    && (GradeFilterOn(f.grade) ==> s.grade == Some(CanonicalDigits(f.grade.value)))
    && (Truthy(f.section) ==> s.section == Some(Upper(f.section.value)))
  }

  /** `status == 'Ausente'`: only the synthesised absent rows. */
  predicate AbsentOnly(f: Filters) {
    f.status == Some("Ausente")
  }

  /** `not status`: every record plus the absent rows. */
  predicate AllStatuses(f: Filters) {
    !Truthy(f.status)
  }

  /** The status filter of the record query, skipped for 'Ausente'. */
  predicate StatusWanted(a: Attendance, f: Filters) {
    Truthy(f.status) && f.status.value != "Ausente" ==> a.status.Name() == f.status.value
  }

  /** A report row: a stored record with its student, or an
      `AbsentAttendance` standing in for a student with none. */
  datatype Entry = Present(attendance: Attendance, student: Student) | Absent(student: Student, date: Date) {
    /** An absent row carries midnight of the report's day. */
    function Time(): DateTime {
      match this
      case Present(a, _) => a.time
      case Absent(_, d) => DateTime(d, Midnight)
    }

    function StatusName(): string {
      match this
      case Present(a, _) => a.status.Name()
      case Absent(_, _) => "Ausente"
    }
  }

  // ---------------------------------------------------------------------
  // The queries

  /** Joined records whose time falls on the day, of students in class. */
  function OfClassOn(db: Db, target: Date, f: Filters): seq<Row> {
    Filter(Joined(db), (x: Row) => x.attendance.time.date == target && ForClass(x.student, f))
  }

  /** The record query with the status filter as well. */
  function Listed(db: Db, target: Date, f: Filters): seq<Row> {
    Filter(OfClassOn(db, target, f), (x: Row) => StatusWanted(x.attendance, f))
  }

  /** `attended_student_ids`. */
  function AttendedIds(db: Db, target: Date, f: Filters): set<int> {
    Keys(OfClassOn(db, target, f), (x: Row) => x.attendance.studentId)
  }

  /** The students in class, in table order, without a record that day. */
  function MissingStudents(db: Db, target: Date, f: Filters): seq<Student> {
    Filter(db.students, (s: Student) => ForClass(s, f) && s.id !in AttendedIds(db, target, f))
  }

  function PresentEntries(rows: seq<Row>): (r: seq<Entry>)
    ensures |r| == |rows|
    ensures forall k | 0 <= k < |rows| :: r[k] == Present(rows[k].attendance, rows[k].student)
  {
    seq(|rows|, k requires 0 <= k < |rows| => Present(rows[k].attendance, rows[k].student))
  }

  function AbsentEntries(ss: seq<Student>, d: Date): (r: seq<Entry>)
    ensures |r| == |ss|
    ensures forall k | 0 <= k < |ss| :: r[k] == Absent(ss[k], d)
  {
    seq(|ss|, k requires 0 <= k < |ss| => Absent(ss[k], d))
  }

  /** A present row pairs a joined record with its student. */
  lemma PresentFacts(db: Db, rows: seq<Row>)
    requires forall x | x in rows :: x in Joined(db)
    ensures forall e | e in PresentEntries(rows) ::
      && e.Present? && e.attendance in db.attendances && e.student in db.students
      && e.student.id == e.attendance.studentId
      && exists x | x in rows :: x == Row(e.attendance, e.student)
  {
    var r := PresentEntries(rows);
    forall e | e in r
      ensures && e.Present? && e.attendance in db.attendances && e.student in db.students
              && e.student.id == e.attendance.studentId
              && exists x | x in rows :: x == Row(e.attendance, e.student)
    {
      var k :| 0 <= k < |r| && r[k] == e;
      var x := rows[k];
      assert x in rows;
      var j :| 0 <= j < |Joined(db)| && Joined(db)[j] == x;
      assert x == Row(e.attendance, e.student);
    }
  }

  /** One absent row per missing student of the class. */
  function AbsentRows(db: Db, target: Date, f: Filters): (r: seq<Entry>)
    ensures forall e | e in r ::
      && e.Absent? && e.date == target && e.Time() == DateTime(target, Midnight) && e.StatusName() == "Ausente"
      && e.student in db.students && ForClass(e.student, f)
  {
    var missing := MissingStudents(db, target, f);
    var r := AbsentEntries(missing, target);
    assert forall k | 0 <= k < |r| :: r[k].student == missing[k] && missing[k] in missing;
    r
  }

  /** The present rows of the records the query returns. */
  function PresentRows(db: Db, rows: seq<Row>, target: Date, f: Filters): (r: seq<Entry>)
    requires forall x | x in rows :: x in Joined(db) && x.attendance.time.date == target && ForClass(x.student, f)
    ensures forall e | e in r ::
      && e.Present? && e.attendance in db.attendances && e.student in db.students
      && e.student.id == e.attendance.studentId
      && e.Time().date == target && ForClass(e.student, f)
  {
    PresentFacts(db, rows);
    PresentEntries(rows)
  }

  /** The day's records of the class followed by the absent rows. */
  function FullRows(db: Db, target: Date, f: Filters): (r: seq<Entry>)
    ensures forall i, j | 0 <= i < j < |r| && r[j].Present? :: r[i].Present?
    ensures forall e | e in r ::
      || (e.Present? && e in PresentRows(db, OfClassOn(db, target, f), target, f))
      || (e.Absent? && e in AbsentRows(db, target, f))
  {
    var present := PresentRows(db, OfClassOn(db, target, f), target, f);
    var absent := AbsentRows(db, target, f);
    PresentThenAbsent(present, absent);
    present + absent
  }

  /** Present entries followed by absent ones: no present entry comes after
      an absent one, and each entry keeps its kind. */
  lemma PresentThenAbsent(present: seq<Entry>, absent: seq<Entry>)
    requires forall e | e in present :: e.Present?
    requires forall e | e in absent :: e.Absent?
    ensures var r := present + absent;
      forall i, j | 0 <= i < j < |r| && r[j].Present? :: r[i].Present?
    ensures forall e | e in present + absent ::
      (e.Present? && e in present) || (e.Absent? && e in absent)
  {
    var r := present + absent;
    forall k | 0 <= k < |r|
      ensures k < |present| <==> r[k].Present?
    {
      if k < |present| {
        assert r[k] == present[k] && present[k] in present;
      } else {
        assert r[k] == absent[k - |present|] && absent[k - |present|] in absent;
      }
    }
  }

  /** The rows the report lists, in order. */
  function ReportRows(db: Db, target: Date, f: Filters): (r: seq<Entry>)
    ensures AbsentOnly(f) ==> forall e | e in r :: e.Absent?
    ensures !AbsentOnly(f) && !AllStatuses(f) ==>
      forall e | e in r :: e.Present? && e.StatusName() == f.status.value
    ensures AllStatuses(f) ==> forall i, j | 0 <= i < j < |r| && r[j].Present? :: r[i].Present?
    ensures forall e | e in r && e.Absent? ::
      && e.date == target && e.Time() == DateTime(target, Midnight) && e.StatusName() == "Ausente"
      && e.student in db.students && ForClass(e.student, f)
    ensures forall e | e in r && e.Present? ::
      && e.attendance in db.attendances && e.student in db.students
      && e.student.id == e.attendance.studentId
      && e.Time().date == target && ForClass(e.student, f)
  {
    if AbsentOnly(f) then AbsentRows(db, target, f)
    else if AllStatuses(f) then FullRows(db, target, f)
    else
      var rows := Listed(db, target, f);
      assert forall x | x in rows :: x in OfClassOn(db, target, f) && StatusWanted(x.attendance, f);
      PresentRows(db, rows, target, f)
  }

  // ---------------------------------------------------------------------
  // What the rows mean

  /** The student has a stored record whose time falls on the day. */
  predicate HasRecordOn(db: Db, s: Student, d: Date) {
    exists a | a in db.attendances :: a.studentId == s.id && a.time.date == d
  }

  /** In a consistent database, a student of the class counts as attended
      exactly when some record of theirs falls on the day. */
  lemma AttendedIdsMeaning(db: Db, target: Date, f: Filters, s: Student)
    requires Wellformed(db)
    requires s in db.students && ForClass(s, f)
    ensures s.id in AttendedIds(db, target, f) <==> HasRecordOn(db, s, target)
  {
    var rows := OfClassOn(db, target, f);
    if s.id in AttendedIds(db, target, f) {
      var x :| x in rows && x.attendance.studentId == s.id;
      assert x in Joined(db);
    }
    if HasRecordOn(db, s, target) {
      var a :| a in db.attendances && a.studentId == s.id && a.time.date == target;
      assert s.id in StudentIds(db.students);
      JoinFinds(db.attendances, db.students, a);
      FindStudentUnique(db.students, s.id, s);
      var x := Row(a, s);
      assert x in rows;
      assert (x.attendance.studentId) in AttendedIds(db, target, f);
    }
  }

  /** A student of the class is missing exactly when they have no record
      that day. */
  lemma MissingMeaning(db: Db, target: Date, f: Filters, s: Student)
    requires Wellformed(db)
    ensures s in MissingStudents(db, target, f) <==>
      s in db.students && ForClass(s, f) && !HasRecordOn(db, s, target)
  {
    if s in db.students && ForClass(s, f) {
      AttendedIdsMeaning(db, target, f, s);
    }
  }

  /** Filtering by 'Ausente' lists exactly the students of the class with no
      record on the day, each as an absent row. */
  lemma AbsentReportExact(db: Db, target: Date, f: Filters, s: Student)
    requires Wellformed(db) && AbsentOnly(f)
    ensures Absent(s, target) in ReportRows(db, target, f) <==>
      s in db.students && ForClass(s, f) && !HasRecordOn(db, s, target)
  {
    var missing := MissingStudents(db, target, f);
    MissingMeaning(db, target, f, s);
    if s in missing {
      var k :| 0 <= k < |missing| && missing[k] == s;
      assert ReportRows(db, target, f)[k] == Absent(s, target);
    }
  }

  /** The unfiltered report is the present rows followed by the absent ones. */
  lemma FullShape(db: Db, target: Date, f: Filters)
    requires AllStatuses(f)
    ensures ReportRows(db, target, f) ==
      PresentEntries(OfClassOn(db, target, f)) + AbsentEntries(MissingStudents(db, target, f), target)
  {
  }

  /** Without a status filter, a student of the class with a record that
      day appears with a record. */
  lemma FullReportListsRecords(db: Db, target: Date, f: Filters, s: Student)
    requires Wellformed(db) && AllStatuses(f)
    requires s in db.students && ForClass(s, f) && HasRecordOn(db, s, target)
    ensures exists a | a in db.attendances :: Present(a, s) in ReportRows(db, target, f)
  {
    var a :| a in db.attendances && a.studentId == s.id && a.time.date == target;
    RecordListed(db, target, f, a, s);
  }

  /** Without a status filter, a student gets an absent row exactly when
      they belong to the class and have no record that day. */
  lemma FullReportAbsentExact(db: Db, target: Date, f: Filters, s: Student)
    requires Wellformed(db) && AllStatuses(f)
    ensures Absent(s, target) in ReportRows(db, target, f) <==>
      s in db.students && ForClass(s, f) && !HasRecordOn(db, s, target)
  {
    var present := PresentEntries(OfClassOn(db, target, f));
    var missing := MissingStudents(db, target, f);
    var absent := AbsentEntries(missing, target);
    FullShape(db, target, f);
    MissingMeaning(db, target, f, s);
    AbsentEntriesHas(missing, target, s);
    ConcatAbsent(present, absent, Absent(s, target));
  }

  /** A student has an absent row among the absent entries exactly when
      they are one of the listed students. */
  lemma AbsentEntriesHas(ss: seq<Student>, d: Date, s: Student)
    ensures Absent(s, d) in AbsentEntries(ss, d) <==> s in ss
  {
    var r := AbsentEntries(ss, d);
    if s in ss {
      var k :| 0 <= k < |ss| && ss[k] == s;
      assert r[k] == Absent(s, d);
    }
    if Absent(s, d) in r {
      var k :| 0 <= k < |r| && r[k] == Absent(s, d);
      assert ss[k] == s;
    }
  }

  /** An absent row never comes from the present entries. */
  lemma ConcatAbsent(present: seq<Entry>, absent: seq<Entry>, e: Entry)
    requires e.Absent?
    requires forall k | 0 <= k < |present| :: present[k].Present?
    ensures e in present + absent <==> e in absent
  {
  }

  /** No student is listed both with a record and as absent. */
  lemma FullReportNoClash(db: Db, target: Date, f: Filters, s: Student)
    requires Wellformed(db) && AllStatuses(f)
    requires s in db.students && HasRecordOn(db, s, target)
    ensures forall e | e in ReportRows(db, target, f) && e.Absent? :: e.student.id != s.id
  {
    var r := ReportRows(db, target, f);
    forall e | e in r && e.Absent?
      ensures e.student.id != s.id
    {
      if e.student.id == s.id {
        FindStudentUnique(db.students, s.id, s);
        FindStudentUnique(db.students, s.id, e.student);
        assert e.student == s;
        FullReportAbsentExact(db, target, f, s);
        assert false;
      }
    }
  }

  /** A record of the day of a student in class that the status filter
      keeps is listed. */
  lemma RecordListed(db: Db, target: Date, f: Filters, a: Attendance, s: Student)
    requires Wellformed(db) && !AbsentOnly(f)
    requires a in db.attendances && s in db.students && a.studentId == s.id
    requires a.time.date == target && ForClass(s, f) && StatusWanted(a, f)
    ensures Present(a, s) in ReportRows(db, target, f)
  {
    assert s.id in StudentIds(db.students);
    JoinFinds(db.attendances, db.students, a);
    FindStudentUnique(db.students, s.id, s);
    var x := Row(a, s);
    assert x in OfClassOn(db, target, f);
    if AllStatuses(f) {
      PresentEntriesHas(OfClassOn(db, target, f), x);
    } else {
      assert x in Listed(db, target, f);
      PresentEntriesHas(Listed(db, target, f), x);
    }
  }

  /** Each query row gives its present row. */
  lemma PresentEntriesHas(rows: seq<Row>, x: Row)
    requires x in rows
    ensures Present(x.attendance, x.student) in PresentEntries(rows)
  {
    var k :| 0 <= k < |rows| && rows[k] == x;
    assert PresentEntries(rows)[k] == Present(x.attendance, x.student);
  }

  /** Filtering by a stored status lists exactly the day's records of
      students in class with that status. */
  lemma StatusReportExact(db: Db, target: Date, f: Filters, a: Attendance, s: Student)
    requires Wellformed(db) && !AbsentOnly(f) && !AllStatuses(f)
    ensures Present(a, s) in ReportRows(db, target, f) <==>
      && a in db.attendances && s in db.students && a.studentId == s.id
      && a.time.date == target && ForClass(s, f) && a.status.Name() == f.status.value
  {
    if a in db.attendances && s in db.students && a.studentId == s.id
       && a.time.date == target && ForClass(s, f) && a.status.Name() == f.status.value {
      RecordListed(db, target, f, a, s);
    }
  }

  // ---------------------------------------------------------------------
  // The per-status summary and the numbered table

  function StatusOf(e: Entry): string {
    e.StatusName()
  }

  /** `status_counts`: one counter per status name, in first-seen order. */
  function StatusCounts(rows: seq<Entry>): (r: seq<(string, nat)>)
    ensures DistinctKeys(r)
    ensures Total(r) == |rows|
  {
    Tally(rows, StatusOf)
  }

  /** Without a status filter, and with only arrivals stored, the
      'Ausente' counter is the number of students of the class missing
      that day. */
  lemma FullReportAbsentCount(db: Db, target: Date, f: Filters)
    requires OnlyArrivals(db) && AllStatuses(f)
    ensures Lookup(StatusCounts(ReportRows(db, target, f)), "Ausente") == |MissingStudents(db, target, f)|
  {
    var rows := OfClassOn(db, target, f);
    var present := PresentEntries(rows);
    var absent := AbsentEntries(MissingStudents(db, target, f), target);
    var isAbsent := KeyIs(StatusOf, "Ausente");
    FullShape(db, target, f);
    TallyCounts(present + absent, StatusOf, "Ausente");
    FilterAppend(present, absent, isAbsent);
    NoAbsentAmongRecords(db, rows);
    AbsentEntriesAllAbsent(MissingStudents(db, target, f), target);
  }

  /** With only arrivals stored, no record reads 'Ausente'. */
  lemma NoAbsentAmongRecords(db: Db, rows: seq<Row>)
    requires OnlyArrivals(db)
    requires forall x | x in rows :: x in Joined(db)
    ensures Filter(PresentEntries(rows), KeyIs(StatusOf, "Ausente")) == []
  {
    var present := PresentEntries(rows);
    PresentFacts(db, rows);
    forall e | e in present
      ensures !KeyIs(StatusOf, "Ausente")(e)
    {
      assert e.attendance in db.attendances;
      assert StatusOf(e) == e.attendance.status.Name() != "Ausente";
      assert KeyIs(StatusOf, "Ausente")(e) == (StatusOf(e) == "Ausente");
    }
    FilterNone(present, KeyIs(StatusOf, "Ausente"));
  }

  lemma AbsentEntriesAllAbsent(ss: seq<Student>, d: Date)
    ensures Filter(AbsentEntries(ss, d), KeyIs(StatusOf, "Ausente")) == AbsentEntries(ss, d)
  {
    var r := AbsentEntries(ss, d);
    forall e | e in r
      ensures KeyIs(StatusOf, "Ausente")(e)
    {
      var k :| 0 <= k < |r| && r[k] == e;
      assert StatusOf(e) == "Ausente";
      assert KeyIs(StatusOf, "Ausente")(e) == (StatusOf(e) == "Ausente");
    }
    FilterAll(r, KeyIs(StatusOf, "Ausente"));
  }

  /** A line of the table: its number from 1 and its row. */
  datatype Line = Line(number: nat, entry: Entry)

  function Numbered(rows: seq<Entry>): (r: seq<Line>)
    ensures |r| == |rows|
    ensures forall k | 0 <= k < |rows| :: r[k].number == k + 1 && r[k].entry == rows[k]
  {
    seq(|rows|, k requires 0 <= k < |rows| => Line(k + 1, rows[k]))
  }
}
