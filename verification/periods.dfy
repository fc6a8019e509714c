/** The calendar periods the statistics are bucketed by: a closed interval
    `[first, last]` of dates, as `for_day`, `for_month` and `for_year` build
    them around a pivot date. */
module Periods {
  import opened Calendar

  datatype Period = Period(first: Ymd, last: Ymd)

  /** `d` lies in the closed interval, as Django's `__range` lookup tests it. */
  predicate Contains(p: Period, d: Ymd) {
    LessEq(p.first, d) && LessEq(d, p.last)
  }

  /** The single day `dt`. */
  function DayBounds(dt: Date): (p: Period)
    ensures LessEq(p.first, p.last) && Contains(p, dt)
    ensures forall d: Date :: Contains(p, d) <==> d == dt
  {
    Period(dt, dt)
  }

  /** From the 1st of `dt`'s month to `1st + relativedelta(day=31)`. */
  function MonthBounds(dt: Date): (p: Period)
    ensures IsCalendarDay(p.first) && IsCalendarDay(p.last)
    ensures p.first.year == dt.year && p.first.month == dt.month && p.first.day == 1
    ensures p.last.year == dt.year && p.last.month == dt.month
    ensures LessEq(p.first, p.last) && Contains(p, dt)
  {
    var first := Ymd(dt.year, dt.month, 1);
    Period(first, WithDay(first, 31))
  }

  /** From 1 January to 31 December of `dt`'s year. */
  function YearBounds(dt: Date): (p: Period)
    ensures p.first.year == dt.year && p.last.year == dt.year
    ensures LessEq(p.first, p.last) && Contains(p, dt)
  {
    Period(Ymd(dt.year, 1, 1), Ymd(dt.year, 12, 31))
  }

  /** The last day of the month range is the true end of the month: it is the
      month's length (28 to 31, leap-year aware), and the day after it starts
      the next month. */
  lemma MonthBoundsEndsMonth(dt: Date)
    ensures MonthBounds(dt).last.day == DaysInMonth(dt.year, dt.month)
    ensures NextDay(MonthBounds(dt).last).day == 1
    ensures MonthIndex(NextDay(MonthBounds(dt).last)) == MonthIndex(dt) + 1
  {
  }

  /** A date lies in the month range exactly when it is in the same calendar month. */
  lemma MonthBoundsExact(dt: Date, d: Date)
    ensures Contains(MonthBounds(dt), d) <==> d.year == dt.year && d.month == dt.month
  {
  }

  /** A date lies in the year range exactly when it is in the same year. */
  lemma YearBoundsExact(dt: Date, d: Date)
    ensures Contains(YearBounds(dt), d) <==> d.year == dt.year
  {
  }

  /** The year range is the twelve month ranges laid end to end: it starts
      where January's starts and ends where December's ends. */
  lemma YearIsTwelveMonths(dt: Date)
    ensures YearBounds(dt).first == MonthBounds(Ymd(dt.year, 1, 1)).first
    ensures YearBounds(dt).last == MonthBounds(Ymd(dt.year, 12, 1)).last
  {
  }

  /** Number of days in the month range, counted on day numbers. */
  lemma MonthBoundsLength(dt: Date)
    ensures Ordinal(MonthBounds(dt).last) - Ordinal(MonthBounds(dt).first) + 1
            == DaysInMonth(dt.year, dt.month)
  {
  }

  /** Number of days in the year range: 366 in a leap year, 365 otherwise. */
  lemma YearBoundsLength(dt: Date)
    ensures Ordinal(YearBounds(dt).last) - Ordinal(YearBounds(dt).first) + 1
            == if IsLeapYear(dt.year) then 366 else 365
  {
    MonthsFillYear(dt.year);
  }
}
