/** The date range of `metrics_summary` (app/main.py): a named period
    ('day', 'week', 'month') is turned into bounds only when neither bound
    was given. The `enum` list on the query parameter only documents the
    values, so any other string is accepted and yields no range. */
module Periods {
  import opened Results
  import opened Calendar

  datatype Range = Range(start: Option<Date>, end: Option<Date>)

  predicate Named(period: Option<string>, name: string) {
    period.Some? && period.value == name
  }

  /** The Monday-to-Sunday week holding today; the Sunday may lie past
      9999-12-31, which Python reports as an overflow. */
  function WeekOf(today: Date): (r: Result<Range>)
    ensures r.Err? ==> r.error == DateOverflow
  {
    match SubDays(today, Weekday(today))
    case None => Err(DateOverflow)
    case Some(monday) =>
      match AddDays(monday, 6)
      case None => Err(DateOverflow)
      case Some(sunday) => Ok(Range(Some(monday), Some(sunday)))
  }

  /** The calendar month holding today: from its first day to the day
      before the first of the next month. December 9999 has no next month
      Python can build. */
  function MonthOf(today: Date): (r: Result<Range>)
    ensures r.Err? ==> r.error == DateOverflow
  {
    var first: Date := Ymd(today.year, today.month, 1);
    if today.month == 12 then
      if today.year == MaxYear then Err(DateOverflow)
      else
        match PrevDay(Ymd(today.year + 1, 1, 1))
        case None => Err(DateOverflow)
        case Some(last) => Ok(Range(Some(first), Some(last)))
    else
      match PrevDay(Ymd(today.year, today.month + 1, 1))
      case None => Err(DateOverflow)
      case Some(last) => Ok(Range(Some(first), Some(last)))
  }

  /** The range `metrics_summary` filters by. */
  function ResolvePeriod(period: Option<string>, start: Option<Date>, end: Option<Date>, today: Date): (r: Result<Range>)
    ensures start.Some? || end.Some? ==> r == Ok(Range(start, end))
    ensures start.None? && end.None? && !Named(period, "day") && !Named(period, "week") && !Named(period, "month") ==>
      r == Ok(Range(None, None))
    ensures start.None? && end.None? && Named(period, "day") ==> r == Ok(Range(Some(today), Some(today)))
    ensures start.None? && end.None? && Named(period, "week") ==> r == WeekOf(today)
    ensures start.None? && end.None? && Named(period, "month") ==> r == MonthOf(today)
  {
    if period.Some? && period.value != "" && start.None? && end.None? then
      if period.value == "day" then Ok(Range(Some(today), Some(today)))
      else if period.value == "week" then WeekOf(today)
      else if period.value == "month" then MonthOf(today)
      else Ok(Range(start, end))
    else Ok(Range(start, end))
  }

  /** A range holds a date when it lies within whichever bounds are set. */
  predicate InRange(r: Range, d: Date) {
    && (r.start.Some? ==> OnOrBefore(r.start.value, d))
    && (r.end.Some? ==> OnOrBefore(d, r.end.value))
  }

  /** The week starts on a Monday, spans seven days and holds today; it
      fails exactly when its Sunday would pass the last representable date. */
  lemma WeekOfFacts(today: Date)
    ensures WeekOf(today).Err? <==> Ordinal(today) - Weekday(today) + 6 > MaxOrdinal
    ensures WeekOf(today).Ok? ==>
      var w := WeekOf(today).value;
      && w.start.Some? && w.end.Some?
      && Weekday(w.start.value) == 0
      && Ordinal(w.end.value) == Ordinal(w.start.value) + 6
      && InRange(w, today)
  {
    OrdinalBounds(today);
    var n := Weekday(today);
    WeekStartPositive(Ordinal(today));
    SubDaysOrdinal(today, n);
    var monday := SubDays(today, n).value;
    MondayOfWeek(today, monday);
    AddDaysOrdinal(monday, 6);
    if AddDays(monday, 6).Some? {
      var sunday := AddDays(monday, 6).value;
      assert WeekOf(today) == Ok(Range(Some(monday), Some(sunday)));
    }
  }

  /** Stepping back from day x by its weekday stays on or after day 1. */
  lemma WeekStartPositive(x: int)
    requires x >= 1
    ensures 0 <= (x + 6) % 7 < 7
    ensures x - (x + 6) % 7 >= 1
  {
  }

  /** The month runs from its first to its last day and holds today; it
      fails only for December 9999. */
  lemma MonthOfFacts(today: Date)
    ensures MonthOf(today).Err? <==> today.year == MaxYear && today.month == 12
    ensures MonthOf(today).Ok? ==>
      MonthOf(today).value == Range(Some(Ymd(today.year, today.month, 1)),
                                    Some(Ymd(today.year, today.month, DaysInMonth(today.year, today.month))))
    ensures MonthOf(today).Ok? ==> InRange(MonthOf(today).value, today)
  {
    if MonthOf(today).Ok? {
      var w := MonthOf(today).value;
      OrdinalInjective(w.start.value, today);
      OrdinalInjective(today, w.end.value);
    }
  }

  /** The week of the last representable date, a Friday, cannot be built. */
  lemma LastWeekOverflows()
    ensures WeekOf(LastDate) == Err(DateOverflow)
  {
    assert Ordinal(LastDate) == MaxOrdinal;
    WeekOfFacts(LastDate);
  }
}
