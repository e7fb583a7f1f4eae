/** The dashboard metrics of app/main.py: today's counts, the filtered
    summary, the trailing week, today's records by grade, and the detailed
    gender and arrival-time breakdown. Percentages are exact reals; the
    handlers round them to two decimals on output. */
module Metrics {
  import opened Results
  import opened Calendar
  import opened Seqs
  import opened Store
  import opened Students
  import opened Periods

  // ---------------------------------------------------------------------
  // Shared pieces

  /** `part / whole * 100.0 if whole else 0.0`. */
  function Pct(part: int, whole: nat): (r: real)
    ensures whole == 0 ==> r == 0.0
    ensures 0 <= part <= whole ==> 0.0 <= r <= 100.0
  {
    if whole == 0 then 0.0 else (part as real) / (whole as real) * 100.0
  }

  /** Shares of a whole that split it exactly add up to 100. */
  lemma PctSplit(p: nat, q: nat, w: nat)
    requires w > 0 && p + q == w
    ensures Pct(p, w) + Pct(q, w) == 100.0
  {
    PctSum(p, q, w);
    assert ((p + q) as real) / (w as real) == 1.0;
  }

  /** Shares of disjoint parts never add up to more than 100. */
  lemma PctBounded(p: nat, q: nat, w: nat)
    requires p + q <= w
    ensures Pct(p, w) + Pct(q, w) <= 100.0
  {
    if w > 0 {
      PctSum(p, q, w);
      var x, y := (p + q) as real, w as real;
      assert x <= y;
      assert x / y <= 1.0 by {
        assert x / y * y == x;
      }
    }
  }

  /** Shares of two parts add up to the share of their sum. */
  lemma PctSum(p: nat, q: nat, w: nat)
    requires w > 0
    ensures Pct(p, w) + Pct(q, w) == ((p + q) as real) / (w as real) * 100.0
  {
    var a, b, c := p as real, q as real, w as real;
    assert a / c + b / c == (a + b) / c;
    assert (a / c) * 100.0 + (b / c) * 100.0 == (a / c + b / c) * 100.0;
  }

  /** The records of one day, straight from the attendance table. */
  function OnDay(atts: seq<Attendance>, d: Date): seq<Attendance> {
    Filter(atts, (a: Attendance) => a.date == d)
  }

  /** With one record per student and day, and each record's student on
      file, no day has more records than there are students. */
  lemma RecordsOnDayAtMostStudents(db: Db, d: Date)
    requires Wellformed(db)
    ensures |OnDay(db.attendances, d)| <= |db.students|
  {
    var day := OnDay(db.attendances, d);
    var sid := (a: Attendance) => a.studentId;
    FilterPairwise(db.attendances, (a: Attendance) => a.date == d, DistinctStudentDay);
    forall i, j | 0 <= i < j < |day|
      ensures sid(day[i]) != sid(day[j])
    {
      assert day[i] in day && day[j] in day;
      assert DistinctStudentDay(day[i], day[j]);
    }
    DistinctKeysCard(day, sid);
    var id := (s: Student) => s.id;
    assert Keys(day, sid) <= Keys(db.students, id) by {
      forall k | k in Keys(day, sid)
        ensures k in Keys(db.students, id)
      {
        var a :| a in day && a.studentId == k;
        var s :| s in db.students && s.id == k;
      }
    }
    SubsetCard(Keys(day, sid), Keys(db.students, id));
    KeysCard(db.students, id);
  }

  predicate IsPuntual(a: Attendance) { a.status == Puntual }
  predicate IsTarde(a: Attendance) { a.status == Tarde }

  // ---------------------------------------------------------------------
  // Today

  datatype TodayMetrics = TodayMetrics(total: nat, punctual: nat, late: nat, absent: nat)

  /** `metrics_today`: counts straight from the attendance table (no join);
      absent is the shortfall against the number of students, never below 0. */
  function MetricsToday(db: Db, today: Date): (r: TodayMetrics)
    ensures r.total == |OnDay(db.attendances, today)|
    ensures r.punctual == |Filter(OnDay(db.attendances, today), IsPuntual)|
    ensures r.late == |Filter(OnDay(db.attendances, today), IsTarde)|
    ensures r.punctual + r.late <= r.total
    ensures r.absent == if |db.students| >= r.total then |db.students| - r.total else 0
  {
    var day := OnDay(db.attendances, today);
    CountDisjoint(day, IsPuntual, IsTarde, (a: Attendance) => true);
    FilterAll(day, (a: Attendance) => true);
    var total := |day|;
    TodayMetrics(total, |Filter(day, IsPuntual)|, |Filter(day, IsTarde)|,
                 if |db.students| - total > 0 then |db.students| - total else 0)
  }

  /** In a well-formed store the floor at 0 never applies: present and
      absent add up to the students on file. When only arrivals are stored,
      punctual and late add up to the records of the day. */
  lemma MetricsTodayBalances(db: Db, today: Date)
    requires Wellformed(db)
    ensures MetricsToday(db, today).total + MetricsToday(db, today).absent == |db.students|
    ensures OnlyArrivals(db) ==> MetricsToday(db, today).punctual + MetricsToday(db, today).late == MetricsToday(db, today).total
  {
    RecordsOnDayAtMostStudents(db, today);
    var day := OnDay(db.attendances, today);
    CountDisjoint(day, IsPuntual, IsTarde, (a: Attendance) => true);
    FilterAll(day, (a: Attendance) => true);
  }

  // ---------------------------------------------------------------------
  // Summary

  /** The grade and section filters: each applies only when truthy, and a
      NULL column never equals a value. */
  predicate InClass(s: Student, grade: Option<string>, section: Option<string>) {
    && (Truthy(grade) ==> s.grade == grade)
    && (Truthy(section) ==> s.section == section)
  }

  predicate Selected(x: Row, range: Range, grade: Option<string>, section: Option<string>) {
    InRange(range, x.attendance.date) && InClass(x.student, grade, section)
  }

  predicate RowPuntual(x: Row) { x.attendance.status == Puntual }
  predicate RowTarde(x: Row) { x.attendance.status == Tarde }

  function SelectedRows(db: Db, range: Range, grade: Option<string>, section: Option<string>): seq<Row> {
    Filter(Joined(db), (x: Row) => Selected(x, range, grade, section))
  }

  function StudentsInClass(db: Db, grade: Option<string>, section: Option<string>): seq<Student> {
    Filter(db.students, (s: Student) => InClass(s, grade, section))
  }

  /** The distinct student ids among the selected joined records. */
  function Attended(db: Db, range: Range, grade: Option<string>, section: Option<string>): set<int> {
    Keys(SelectedRows(db, range, grade, section), (x: Row) => x.attendance.studentId)
  }

  /** The range the absence count uses: the summary's range when both of
      its bounds are set, every date otherwise. */
  function AbsenceRange(range: Range): Range {
    if range.start.Some? && range.end.Some? then range else Range(None, None)
  }

  datatype Summary = Summary(studentsTotal: nat, recordsTotal: nat, punctualityPct: real, latePct: real, absentPct: real)

  /** The punctual and late shares of the selected records. */
  function StatusShares(rows: seq<Row>): (r: (real, real))
    ensures r.0 == Pct(|Filter(rows, RowPuntual)|, |rows|)
    ensures r.1 == Pct(|Filter(rows, RowTarde)|, |rows|)
    ensures 0.0 <= r.0 && 0.0 <= r.1 && r.0 + r.1 <= 100.0
    ensures |rows| == 0 ==> r == (0.0, 0.0)
  {
    var punctual := |Filter(rows, RowPuntual)|;
    var late := |Filter(rows, RowTarde)|;
    CountDisjoint(rows, RowPuntual, RowTarde, (x: Row) => true);
    FilterAll(rows, (x: Row) => true);
    PctBounded(punctual, late, |rows|);
    (Pct(punctual, |rows|), Pct(late, |rows|))
  }

  /** The students in class with no record in the absence range. */
  function Absentees(db: Db, range: Range, grade: Option<string>, section: Option<string>): (n: nat)
    ensures n <= |StudentsInClass(db, grade, section)|
  {
    AttendedAtMostInClass(db, AbsenceRange(range), grade, section);
    |StudentsInClass(db, grade, section)| - |Attended(db, AbsenceRange(range), grade, section)|
  }

  /** The figures of `metrics_summary` over a resolved range. */
  function SummaryOver(db: Db, range: Range, grade: Option<string>, section: Option<string>): (r: Summary)
    ensures r.recordsTotal == |SelectedRows(db, range, grade, section)|
    ensures r.studentsTotal == |StudentsInClass(db, grade, section)|
    ensures r.punctualityPct == Pct(|Filter(SelectedRows(db, range, grade, section), RowPuntual)|, r.recordsTotal)
    ensures r.latePct == Pct(|Filter(SelectedRows(db, range, grade, section), RowTarde)|, r.recordsTotal)
    ensures 0.0 <= r.punctualityPct && 0.0 <= r.latePct && r.punctualityPct + r.latePct <= 100.0
    ensures 0.0 <= r.absentPct <= 100.0
    ensures r.recordsTotal == 0 ==> r.punctualityPct == 0.0 && r.latePct == 0.0
    ensures r.studentsTotal == 0 ==> r.absentPct == 0.0
  {
    var rows := SelectedRows(db, range, grade, section);
    var shares := StatusShares(rows);
    var students := |StudentsInClass(db, grade, section)|;
    Summary(students, |rows|, shares.0, shares.1, Pct(Absentees(db, range, grade, section), students))
  }

  /** `metrics_summary`: resolve the period, then count over it. */
  function Summarize(db: Db, period: Option<string>, grade: Option<string>, section: Option<string>,
                     start: Option<Date>, end: Option<Date>, today: Date): (r: Result<Summary>)
    ensures r.Err? <==> ResolvePeriod(period, start, end, today).Err?
    ensures r.Err? ==> r.error == DateOverflow
    ensures r.Ok? ==> r.value == SummaryOver(db, ResolvePeriod(period, start, end, today).value, grade, section)
  {
    var range :- ResolvePeriod(period, start, end, today);
    Ok(SummaryOver(db, range, grade, section))
  }

  /** Every student counted as attending is one of the students in class,
      so the absence share lies within 0..100. */
  lemma AttendedAtMostInClass(db: Db, range: Range, grade: Option<string>, section: Option<string>)
    ensures |Attended(db, range, grade, section)| <= |StudentsInClass(db, grade, section)|
  {
    var inClass := StudentsInClass(db, grade, section);
    var id := (s: Student) => s.id;
    assert Attended(db, range, grade, section) <= Keys(inClass, id) by {
      forall k | k in Attended(db, range, grade, section)
        ensures k in Keys(inClass, id)
      {
        var x :| x in SelectedRows(db, range, grade, section) && x.attendance.studentId == k;
        assert x.student in inClass;
      }
    }
    SubsetCard(Attended(db, range, grade, section), Keys(inClass, id));
    KeysCard(inClass, id);
  }

  /** With only arrivals stored, punctual and late shares of a non-empty
      selection add up to 100. */
  lemma SummarySharesComplete(db: Db, range: Range, grade: Option<string>, section: Option<string>)
    requires OnlyArrivals(db)
    requires SummaryOver(db, range, grade, section).recordsTotal > 0
    ensures SummaryOver(db, range, grade, section).punctualityPct +
            SummaryOver(db, range, grade, section).latePct == 100.0
  {
    var rows := SelectedRows(db, range, grade, section);
    forall x | x in rows
      ensures RowPuntual(x) || RowTarde(x)
    {
      assert x.attendance in db.attendances;
    }
    CountDisjoint(rows, RowPuntual, RowTarde, (x: Row) => true);
    FilterAll(rows, (x: Row) => true);
    PctSplit(|Filter(rows, RowPuntual)|, |Filter(rows, RowTarde)|, |rows|);
  }

  /** Given bounds are the range, whatever the period. */
  lemma SummarizeWithBounds(db: Db, grade: Option<string>, section: Option<string>, start: Option<Date>,
                            end: Option<Date>, today: Date)
    requires start.Some? || end.Some?
    ensures Summarize(db, None, grade, section, start, end, today) == Ok(SummaryOver(db, Range(start, end), grade, section))
  {
  }

  lemma AbsentPctIsShare(db: Db, range: Range, grade: Option<string>, section: Option<string>, absence: Range)
    requires absence == AbsenceRange(range)
    ensures
      var students := |StudentsInClass(db, grade, section)|;
      SummaryOver(db, range, grade, section).absentPct ==
        Pct(students - |Attended(db, absence, grade, section)|, students)
  {
    assert SummaryOver(db, range, grade, section).absentPct ==
      Pct(Absentees(db, range, grade, section), |StudentsInClass(db, grade, section)|);
  }

  /** With a single bound the absence share ignores dates altogether: it
      is the share of students in class who never had a record. */
  lemma SummaryLoneBoundAbsence(db: Db, grade: Option<string>, section: Option<string>, start: Option<Date>,
                                end: Option<Date>)
    requires start.Some? != end.Some?
    ensures
      var students := |StudentsInClass(db, grade, section)|;
      SummaryOver(db, Range(start, end), grade, section).absentPct ==
        Pct(students - |Attended(db, Range(None, None), grade, section)|, students)
  {
    AbsentPctIsShare(db, Range(start, end), grade, section, Range(None, None));
  }

  /** With both bounds the absence share counts the students in class with
      no record inside the range. */
  lemma SummaryRangeAbsence(db: Db, grade: Option<string>, section: Option<string>, range: Range)
    requires range.start.Some? && range.end.Some?
    ensures
      var students := |StudentsInClass(db, grade, section)|;
      SummaryOver(db, range, grade, section).absentPct ==
        Pct(students - |Attended(db, range, grade, section)|, students)
  {
    AbsentPctIsShare(db, range, grade, section, range);
  }

  // ---------------------------------------------------------------------
  // Trailing week

  datatype DayPoint = DayPoint(day: Date, dayName: string, pct: real)

  /** One day of `metrics_weekly`: the day's records (no join) against the
      number of students. */
  function Point(db: Db, d: Date): DayPoint {
    DayPoint(d, WeekdayAbbrev(Weekday(d)), Pct(|OnDay(db.attendances, d)|, |db.students|))
  }

  /** The points for the n days ending today, oldest first. */
  function Points(db: Db, today: Date, n: nat): (r: seq<DayPoint>)
    requires n <= Ordinal(today)
    ensures |r| == n
    ensures forall k | 0 <= k < n ::
      Ordinal(r[k].day) == Ordinal(today) - (n - 1) + k && r[k] == Point(db, r[k].day)
    decreases n
  {
    if n == 0 then []
    else
      SubDaysOrdinal(today, n - 1);
      [Point(db, SubDays(today, n - 1).value)] + Points(db, today, n - 1)
  }

  /** The trailing n days. The handler computes the oldest day first, and
      that is the one that can fall before 0001-01-01; when it does not,
      none of the later ones can. */
  function Trailing(db: Db, today: Date, n: nat): (r: Result<seq<DayPoint>>)
    ensures r.Err? <==> n > Ordinal(today)
    ensures r.Err? ==> r.error == DateOverflow
    ensures r.Ok? ==> |r.value| == n && forall k | 0 <= k < n ::
      && Ordinal(r.value[k].day) == Ordinal(today) - (n - 1) + k
      && r.value[k].dayName == WeekdayAbbrev(Weekday(r.value[k].day))
      && r.value[k].pct == Pct(|OnDay(db.attendances, r.value[k].day)|, |db.students|)
  {
    if n > Ordinal(today) then Err(DateOverflow) else Ok(Points(db, today, n))
  }

  /** `metrics_weekly`: the seven days ending today. */
  function Weekly(db: Db, today: Date): Result<seq<DayPoint>> {
    Trailing(db, today, 7)
  }

  /** The week ends today and runs over consecutive days; it fails only in
      the first six days of the calendar; in a well-formed store no day
      exceeds 100 percent. */
  lemma WeeklyFacts(db: Db, today: Date)
    ensures Weekly(db, today).Err? <==> Ordinal(today) <= 6
    ensures Weekly(db, today).Ok? ==> |Weekly(db, today).value| == 7 && Weekly(db, today).value[6].day == today
    ensures Weekly(db, today).Ok? ==> forall k | 0 <= k < 6 ::
      Ordinal(Weekly(db, today).value[k + 1].day) == Ordinal(Weekly(db, today).value[k].day) + 1
    ensures Weekly(db, today).Ok? && Wellformed(db) ==> forall k | 0 <= k < 7 ::
      0.0 <= Weekly(db, today).value[k].pct <= 100.0
    ensures Weekly(db, today).Ok? && |db.students| == 0 ==> forall k | 0 <= k < 7 ::
      Weekly(db, today).value[k].pct == 0.0
    ensures Weekly(db, today).Ok? ==> forall k | 0 <= k < 7 ::
      Weekly(db, today).value[k].pct == Pct(|OnDay(db.attendances, Weekly(db, today).value[k].day)|, |db.students|)
  {
    OrdinalBounds(today);
    if Weekly(db, today).Ok? {
      var w := Weekly(db, today).value;
      assert w == Points(db, today, 7);
      OrdinalInjective(w[6].day, today);
      if Wellformed(db) {
        forall k | 0 <= k < 7
          ensures 0.0 <= w[k].pct <= 100.0
        {
          RecordsOnDayAtMostStudents(db, w[k].day);
        }
      }
    }
  }

  // ---------------------------------------------------------------------
  // Counting by key, in first-seen order (a Python dict of counters)

  function Lookup(t: seq<(string, nat)>, k: string): nat {
    if |t| == 0 then 0 else if t[0].0 == k then t[0].1 else Lookup(t[1..], k)
  }

  function Total(t: seq<(string, nat)>): nat {
    if |t| == 0 then 0 else t[0].1 + Total(t[1..])
  }

  function KeySet(t: seq<(string, nat)>): set<string> {
    set e | e in t :: e.0
  }

  predicate DistinctKeys(t: seq<(string, nat)>) {
    forall i, j | 0 <= i < j < |t| :: t[i].0 != t[j].0
  }

  /** `agg[k] = agg.get(k, 0) + 1`: an existing counter goes up by one in
      place, a new key is appended with count 1. */
  function Bump(t: seq<(string, nat)>, k: string): (r: seq<(string, nat)>)
    requires DistinctKeys(t)
    ensures DistinctKeys(r)
    ensures KeySet(r) == KeySet(t) + {k}
    ensures forall j :: Lookup(r, j) == Lookup(t, j) + (if j == k then 1 else 0)
    ensures Total(r) == Total(t) + 1
  {
    if |t| == 0 then [(k, 1)]
    else if t[0].0 == k then
      assert t[0] in t;
      LookupMissing(t[1..], k);
      assert KeySet(t) == {t[0].0} + KeySet(t[1..]);
      var r := [(k, t[0].1 + 1)] + t[1..];
      assert KeySet(r) == {k} + KeySet(t[1..]);
      r
    else
      assert KeySet(t) == {t[0].0} + KeySet(t[1..]);
      var rest := Bump(t[1..], k);
      var r := [t[0]] + rest;
      assert KeySet(r) == {t[0].0} + KeySet(rest);
      assert forall e | e in rest :: e.0 in KeySet(rest);
      r
  }

  /** A key absent from the counters has none. */
  lemma {:induction false} LookupMissing(t: seq<(string, nat)>, k: string)
    requires DistinctKeys(t)
    requires forall e | e in t :: e.0 != k
    ensures Lookup(t, k) == 0
  {
    if |t| > 0 {
      assert t[0] in t;
      LookupMissing(t[1..], k);
    }
  }

  /** The counters of key over s, built in the order of s. */
  function Tally<T>(s: seq<T>, key: T -> string): (r: seq<(string, nat)>)
    ensures DistinctKeys(r)
    ensures Total(r) == |s|
  {
    if |s| == 0 then [] else Bump(Tally(s[..|s| - 1], key), key(s[|s| - 1]))
  }

  /** The elements whose key is k. */
  function KeyIs<T>(key: T -> string, k: string): T -> bool {
    x => key(x) == k
  }

  /** Each counter holds the number of elements with that key. */
  lemma {:induction false} TallyCounts<T>(s: seq<T>, key: T -> string, k: string)
    ensures Lookup(Tally(s, key), k) == |Filter(s, KeyIs(key, k))|
  {
    if |s| > 0 {
      var init, last := s[..|s| - 1], s[|s| - 1];
      assert s == init + [last];
      var p := KeyIs(key, k);
      TallyCounts(init, key, k);
      FilterAppend(init, [last], p);
      assert Filter([last], p) == if p(last) then [last] else [];
      assert Tally(s, key) == Bump(Tally(init, key), key(last));
    }
  }

  // ---------------------------------------------------------------------
  // By grade

  /** `st.grade or 'Sin grado'`. */
  function GradeKey(s: Student): string {
    if s.grade.Some? && s.grade.value != "" then s.grade.value else "Sin grado"
  }

  /** The joined records of one day. */
  function RecordedOn(d: Date): Row -> bool {
    (x: Row) => x.attendance.date == d
  }

  function RowGrade(x: Row): string {
    GradeKey(x.student)
  }

  /** `metrics_by_grade`: today's joined records counted per grade key. */
  function ByGrade(db: Db, today: Date): (r: seq<(string, nat)>)
    ensures DistinctKeys(r)
    ensures Total(r) == |Filter(Joined(db), RecordedOn(today))|
  {
    Tally(Filter(Joined(db), RecordedOn(today)), RowGrade)
  }

  /** Each grade's counter is the number of today's records of students
      with that grade key; a student without a grade, or with an empty one,
      counts under 'Sin grado'. */
  lemma ByGradeCounts(db: Db, today: Date, k: string)
    ensures Lookup(ByGrade(db, today), k) ==
      |Filter(Joined(db), (x: Row) => x.attendance.date == today && GradeKey(x.student) == k)|
  {
    TallyCounts(Filter(Joined(db), RecordedOn(today)), RowGrade, k);
    FilterFilter(Joined(db), RecordedOn(today), KeyIs(RowGrade, k));
    FilterCongruent(Joined(db), Both(RecordedOn(today), KeyIs(RowGrade, k)),
                    (x: Row) => x.attendance.date == today && GradeKey(x.student) == k);
  }

  // ---------------------------------------------------------------------
  // Detailed

  /** `st.gender or '-'`. */
  function GenderKey(s: Student): string {
    if s.gender.Some? && s.gender.value != "" then s.gender.value else "-"
  }

  function RowGender(x: Row): string {
    GenderKey(x.student)
  }

  const ArrivalLabels: seq<string> := ["7:30-7:45", "7:45-8:00", "8:00-8:15", "8:15-8:30", "8:30+"]

  /** The arrival bucket of a time of day. The first test needs 07:30 or
      later, but the second only checks before 08:00, so an arrival before
      07:30 lands in the second bucket. */
  function Bucket(t: TimeOfDay): (b: nat)
    ensures b < |ArrivalLabels|
  {
    if ClockTime(7, 30, 0, 0) <= t < ClockTime(7, 45, 0, 0) then 0
    else if t < ClockTime(8, 0, 0, 0) then 1
    else if t < ClockTime(8, 15, 0, 0) then 2
    else if t < ClockTime(8, 30, 0, 0) then 3
    else 4
  }

  /** The buckets as intervals of the day. */
  lemma BucketIntervals(t: TimeOfDay)
    ensures Bucket(t) == 0 <==> ClockTime(7, 30, 0, 0) <= t < ClockTime(7, 45, 0, 0)
    ensures Bucket(t) == 1 <==> t < ClockTime(7, 30, 0, 0) || ClockTime(7, 45, 0, 0) <= t < ClockTime(8, 0, 0, 0)
    ensures Bucket(t) == 2 <==> ClockTime(8, 0, 0, 0) <= t < ClockTime(8, 15, 0, 0)
    ensures Bucket(t) == 3 <==> ClockTime(8, 15, 0, 0) <= t < ClockTime(8, 30, 0, 0)
    ensures Bucket(t) == 4 <==> ClockTime(8, 30, 0, 0) <= t
  {
  }

  function ArrivalBucket(x: Row): nat {
    Bucket(x.attendance.time.time)
  }

  function Sum5(h: seq<nat>): nat
    requires |h| == 5
  {
    h[0] + h[1] + h[2] + h[3] + h[4]
  }

  /** The bucket counters after counting rows in order. */
  function Histogram(rows: seq<Row>): (h: seq<nat>)
    ensures |h| == 5
    ensures Sum5(h) == |rows|
  {
    if |rows| == 0 then [0, 0, 0, 0, 0]
    else
      var h := Histogram(rows[..|rows| - 1]);
      var b := ArrivalBucket(rows[|rows| - 1]);
      h[b := h[b] + 1]
  }

  /** Each bucket counter is the number of rows arriving in that bucket. */
  lemma {:induction false} HistogramCounts(rows: seq<Row>, b: nat)
    requires b < 5
    ensures Histogram(rows)[b] == |Filter(rows, InBucket(b))|
  {
    if |rows| > 0 {
      var init, last := rows[..|rows| - 1], rows[|rows| - 1];
      HistogramCounts(init, b);
      assert rows == init + [last];
      FilterAppend(init, [last], InBucket(b));
      assert |Filter([last], InBucket(b))| == if ArrivalBucket(last) == b then 1 else 0;
    }
  }

  function InBucket(b: nat): Row -> bool { (x: Row) => ArrivalBucket(x) == b }

  datatype Detailed = Detailed(genders: seq<(string, nat)>, buckets: seq<nat>, count: nat)

  /** `metrics_detailed`: the joined records within the optional bounds and
      class filters, counted by gender key and by arrival bucket. */
  function MetricsDetailed(db: Db, start: Option<Date>, end: Option<Date>, grade: Option<string>,
                           section: Option<string>): (r: Detailed)
    ensures r.count == |SelectedRows(db, Range(start, end), grade, section)|
    ensures DistinctKeys(r.genders) && Total(r.genders) == r.count
    ensures |r.buckets| == 5 && Sum5(r.buckets) == r.count
  {
    var rows := SelectedRows(db, Range(start, end), grade, section);
    Detailed(Tally(rows, RowGender), Histogram(rows), |rows|)
  }

  /** Each gender counter and each bucket holds the number of selected rows
      with that gender key, or arriving in that bucket. */
  lemma DetailedCounts(db: Db, start: Option<Date>, end: Option<Date>, grade: Option<string>,
                       section: Option<string>, k: string, b: nat)
    requires b < 5
    ensures
      var rows := SelectedRows(db, Range(start, end), grade, section);
      var r := MetricsDetailed(db, start, end, grade, section);
      && Lookup(r.genders, k) == |Filter(rows, KeyIs(RowGender, k))|
      && r.buckets[b] == |Filter(rows, InBucket(b))|
  {
    var rows := SelectedRows(db, Range(start, end), grade, section);
    TallyCounts(rows, RowGender, k);
    HistogramCounts(rows, b);
  }
}
