/** The proleptic Gregorian calendar the handlers rely on through Python's
    `date`, `datetime` and `timedelta`: valid dates in years 1..9999, the
    day ordinal (0001-01-01 is day 1), the weekday with Monday = 0, day
    stepping that fails outside the representable range, and timestamps with
    microsecond resolution. */
module Calendar {
  import opened Results

  const MinYear: int := 1
  const MaxYear: int := 9999

  datatype Ymd = Ymd(year: int, month: int, day: int)

  predicate IsLeapYear(y: int) {
    y % 4 == 0 && (y % 100 != 0 || y % 400 == 0)
  }

  function DaysInMonth(y: int, m: int): int {
    if m == 2 then (if IsLeapYear(y) then 29 else 28)
    else if m == 4 || m == 6 || m == 9 || m == 11 then 30
    else 31
  }

  function DaysInYear(y: int): int {
    if IsLeapYear(y) then 366 else 365
  }

  predicate IsValid(d: Ymd) {
    && MinYear <= d.year <= MaxYear
    && 1 <= d.month <= 12
    && 1 <= d.day <= DaysInMonth(d.year, d.month)
  }

  /** A date Python's `date` type can represent. */
  type Date = d: Ymd | IsValid(d) witness Ymd(1, 1, 1)

  const FirstDate: Date := Ymd(MinYear, 1, 1)
  const LastDate: Date := Ymd(MaxYear, 12, 31)

  /** Days in the months before month m of a common year (index m - 1). */
  const CommonDaysBeforeMonth: seq<int> := [0, 31, 59, 90, 120, 151, 181, 212, 243, 273, 304, 334, 365]

  function DaysBeforeMonth(y: int, m: int): int
    requires 1 <= m <= 13
  {
    CommonDaysBeforeMonth[m - 1] + (if m > 2 && IsLeapYear(y) then 1 else 0)
  }

  function DaysBeforeYear(y: int): int {
    var n := y - 1;
    365 * n + n / 4 - n / 100 + n / 400
  }

  /** Python's `date.toordinal()`. */
  function Ordinal(d: Date): int {
    DaysBeforeYear(d.year) + DaysBeforeMonth(d.year, d.month) + d.day
  }

  const MaxOrdinal: int := 3652059

  /** Python's `date.weekday()`: Monday is 0 and Sunday is 6. */
  function Weekday(d: Date): int {
    (Ordinal(d) + 6) % 7
  }

  /** The C-locale `%a` abbreviation of a weekday number. */
  function WeekdayAbbrev(w: int): string
    requires 0 <= w < 7
  {
    ["Mon", "Tue", "Wed", "Thu", "Fri", "Sat", "Sun"][w]
  }

  /** Dates compare like Python dates; the ordinal orders valid dates the
      same way year-month-day does (OrdinalMonotone). */
  predicate OnOrBefore(a: Date, b: Date) {
    Ordinal(a) <= Ordinal(b)
  }

  predicate LexBefore(a: Ymd, b: Ymd) {
    || a.year < b.year
    || (a.year == b.year && a.month < b.month)
    || (a.year == b.year && a.month == b.month && a.day < b.day)
  }

  // ---------------------------------------------------------------------
  // Ordinal arithmetic

  lemma DivisorStep(y: int)
    ensures y / 4 - (y - 1) / 4 == (if y % 4 == 0 then 1 else 0)
    ensures y / 100 - (y - 1) / 100 == (if y % 100 == 0 then 1 else 0)
    ensures y / 400 - (y - 1) / 400 == (if y % 400 == 0 then 1 else 0)
  {
  }

  /** Divisible by 400 implies by 100, which implies by 4. */
  lemma DivisorChain(y: int)
    ensures y % 400 == 0 ==> y % 100 == 0
    ensures y % 100 == 0 ==> y % 4 == 0
  {
    if y % 400 == 0 {
      var m := 4 * (y / 400);
      assert y == 100 * m;
    }
    if y % 100 == 0 {
      var m := 25 * (y / 100);
      assert y == 4 * m;
    }
  }

  lemma DaysBeforeYearStep(y: int)
    ensures DaysBeforeYear(y + 1) == DaysBeforeYear(y) + DaysInYear(y)
  {
    DivisorStep(y);
    DivisorChain(y);
    var a, b, c := y / 4 - (y - 1) / 4, y / 100 - (y - 1) / 100, y / 400 - (y - 1) / 400;
    assert DaysBeforeYear(y + 1) - DaysBeforeYear(y) == 365 + a - b + c;
  }

  lemma {:induction false} DaysBeforeYearMonotone(a: int, b: int)
    requires a <= b
    ensures DaysBeforeYear(a) + 365 * (b - a) <= DaysBeforeYear(b)
    decreases b - a
  {
    if a < b {
      DaysBeforeYearMonotone(a, b - 1);
      DaysBeforeYearStep(b - 1);
    }
  }

  lemma DaysBeforeMonthStep(y: int, m: int)
    requires 1 <= m <= 12
    ensures DaysBeforeMonth(y, m + 1) == DaysBeforeMonth(y, m) + DaysInMonth(y, m)
  {
  }

  lemma DaysBeforeMonthOfYearEnd(y: int)
    ensures DaysBeforeMonth(y, 13) == DaysInYear(y)
  {
  }

  lemma {:induction false} DaysBeforeMonthMonotone(y: int, a: int, b: int)
    requires 1 <= a <= b <= 13
    ensures DaysBeforeMonth(y, a) + 28 * (b - a) <= DaysBeforeMonth(y, b)
    decreases b - a
  {
    if a < b {
      DaysBeforeMonthMonotone(y, a, b - 1);
      DaysBeforeMonthStep(y, b - 1);
    }
  }

  /** A date's ordinal lies inside its own year's block of ordinals. */
  lemma OrdinalWithinYear(d: Date)
    ensures DaysBeforeYear(d.year) < Ordinal(d) <= DaysBeforeYear(d.year + 1)
  {
    DaysBeforeMonthStep(d.year, d.month);
    DaysBeforeMonthMonotone(d.year, d.month + 1, 13);
    DaysBeforeMonthOfYearEnd(d.year);
    DaysBeforeYearStep(d.year);
  }

  /** Every valid date has an ordinal in 1..MaxOrdinal. */
  lemma OrdinalBounds(d: Date)
    ensures 1 <= Ordinal(d) <= MaxOrdinal
  {
    OrdinalWithinYear(d);
    DaysBeforeYearMonotone(1, d.year);
    DaysBeforeYearMonotone(d.year + 1, MaxYear + 1);
    assert DaysBeforeYear(MaxYear + 1) == MaxOrdinal;
  }

  /** The ordinal is strictly increasing in year-month-day order. */
  lemma OrdinalMonotone(a: Date, b: Date)
    requires LexBefore(a, b)
    ensures Ordinal(a) < Ordinal(b)
  {
    if a.year < b.year {
      OrdinalWithinYear(a);
      OrdinalWithinYear(b);
      DaysBeforeYearMonotone(a.year + 1, b.year);
    } else if a.month < b.month {
      DaysBeforeMonthStep(a.year, a.month);
      DaysBeforeMonthMonotone(a.year, a.month + 1, b.month);
    }
  }

  /** Distinct dates have distinct ordinals, so OnOrBefore is Python's date order. */
  lemma OrdinalInjective(a: Date, b: Date)
    ensures Ordinal(a) == Ordinal(b) <==> a == b
    ensures OnOrBefore(a, b) <==> (a == b || LexBefore(a, b))
  {
    if LexBefore(a, b) {
      OrdinalMonotone(a, b);
    } else if LexBefore(b, a) {
      OrdinalMonotone(b, a);
    }
  }

  // ---------------------------------------------------------------------
  // Stepping by days (`date ± timedelta(days=n)`)

  /** The following day, or None past 9999-12-31 (Python raises OverflowError). */
  function NextDay(d: Date): Option<Date> {
    if d.day < DaysInMonth(d.year, d.month) then Some(Ymd(d.year, d.month, d.day + 1))
    else if d.month < 12 then Some(Ymd(d.year, d.month + 1, 1))
    else if d.year < MaxYear then Some(Ymd(d.year + 1, 1, 1))
    else None
  }

  /** The preceding day, or None before 0001-01-01. */
  function PrevDay(d: Date): Option<Date> {
    if d.day > 1 then Some(Ymd(d.year, d.month, d.day - 1))
    else if d.month > 1 then Some(Ymd(d.year, d.month - 1, DaysInMonth(d.year, d.month - 1)))
    else if d.year > MinYear then Some(Ymd(d.year - 1, 12, 31))
    else None
  }

  lemma NextDayOrdinal(d: Date)
    ensures NextDay(d).Some? ==> Ordinal(NextDay(d).value) == Ordinal(d) + 1
    ensures NextDay(d).None? <==> Ordinal(d) == MaxOrdinal
  {
    if d.day == DaysInMonth(d.year, d.month) {
      if d.month < 12 {
        DaysBeforeMonthStep(d.year, d.month);
      } else if d.year < MaxYear {
        DaysBeforeMonthStep(d.year, 12);
        DaysBeforeMonthOfYearEnd(d.year);
        DaysBeforeYearStep(d.year);
      }
    }
    if NextDay(d).Some? {
      OrdinalBounds(NextDay(d).value);
    }
  }

  /** PrevDay undoes NextDay and NextDay undoes PrevDay. */
  lemma NextPrevInverse(d: Date)
    ensures NextDay(d).Some? ==> PrevDay(NextDay(d).value) == Some(d)
    ensures PrevDay(d).Some? ==> NextDay(PrevDay(d).value) == Some(d)
  {
  }

  lemma PrevDayOrdinal(d: Date)
    ensures PrevDay(d).Some? ==> Ordinal(PrevDay(d).value) == Ordinal(d) - 1
    ensures PrevDay(d).None? <==> Ordinal(d) == 1
  {
    NextPrevInverse(d);
    if PrevDay(d).Some? {
      NextDayOrdinal(PrevDay(d).value);
      OrdinalBounds(PrevDay(d).value);
    }
  }

  function AddDays(d: Date, n: nat): Option<Date>
    decreases n
  {
    if n == 0 then Some(d)
    else match NextDay(d)
      case None => None
      case Some(e) => AddDays(e, n - 1)
  }

  function SubDays(d: Date, n: nat): Option<Date>
    decreases n
  {
    if n == 0 then Some(d)
    else match PrevDay(d)
      case None => None
      case Some(e) => SubDays(e, n - 1)
  }

  /** Adding n days moves the ordinal by n, and fails exactly when that
      would pass the last representable date. */
  lemma {:induction false} AddDaysOrdinal(d: Date, n: nat)
    ensures AddDays(d, n).Some? <==> Ordinal(d) + n <= MaxOrdinal
    ensures AddDays(d, n).Some? ==> Ordinal(AddDays(d, n).value) == Ordinal(d) + n
    decreases n
  {
    OrdinalBounds(d);
    if n > 0 {
      NextDayOrdinal(d);
      if NextDay(d).Some? {
        AddDaysOrdinal(NextDay(d).value, n - 1);
      }
    }
  }

  /** Subtracting n days moves the ordinal back by n, and fails exactly when
      that would precede the first representable date. */
  lemma {:induction false} SubDaysOrdinal(d: Date, n: nat)
    ensures SubDays(d, n).Some? <==> Ordinal(d) - n >= 1
    ensures SubDays(d, n).Some? ==> Ordinal(SubDays(d, n).value) == Ordinal(d) - n
    decreases n
  {
    OrdinalBounds(d);
    if n > 0 {
      PrevDayOrdinal(d);
      if PrevDay(d).Some? {
        SubDaysOrdinal(PrevDay(d).value, n - 1);
      }
    }
  }

  lemma RoundDownToWeek(x: int)
    ensures (x - x % 7) % 7 == 0
  {
  }

  /** Stepping back by a date's own weekday lands on a Monday. */
  lemma MondayOfWeek(d: Date, m: Date)
    requires Ordinal(m) == Ordinal(d) - Weekday(d)
    ensures Weekday(m) == 0
  {
    RoundDownToWeek(Ordinal(d) + 6);
  }

  // ---------------------------------------------------------------------
  // Time of day and timestamps

  const MicrosPerSecond: int := 1000000
  const MicrosPerDay: int := 86400 * MicrosPerSecond

  /** Microseconds since midnight, the resolution of Python's `time`. */
  type TimeOfDay = t: int | 0 <= t < MicrosPerDay

  function ClockTime(hour: int, minute: int, second: int, micro: int): TimeOfDay
    requires 0 <= hour < 24 && 0 <= minute < 60 && 0 <= second < 60 && 0 <= micro < MicrosPerSecond
  {
    ((hour * 60 + minute) * 60 + second) * MicrosPerSecond + micro
  }

  const Midnight: TimeOfDay := 0

  datatype DateTime = DateTime(date: Date, time: TimeOfDay)

  /** A total, order-preserving encoding of a timestamp as microseconds. */
  function Stamp(t: DateTime): int {
    Ordinal(t.date) * MicrosPerDay + t.time
  }

  /** Timestamps order by date first and time of day second. */
  lemma StampOrder(a: DateTime, b: DateTime)
    ensures Stamp(a) <= Stamp(b) <==>
      Ordinal(a.date) < Ordinal(b.date) || (a.date == b.date && a.time <= b.time)
  {
    OrdinalInjective(a.date, b.date);
  }
}
