/** The proleptic Gregorian calendar of Python's `datetime.date`, and the
    `relativedelta` steps the statistics code takes on it: one day
    (`days=1`), one week (`weeks=1`, taken as seven days), one month
    (`months=1`) and one year (`years=1`), plus the day clamp
    `relativedelta(day=31)`. */
module Calendar {

  /** Python's `datetime.MINYEAR` and `datetime.MAXYEAR`. */
  const MinYear: int := 1
  const MaxYear: int := 9999

  /** A (year, month, day) triple, not necessarily a real calendar day. */
  datatype Ymd = Ymd(year: int, month: int, day: int)

  predicate IsLeapYear(y: int) {
    y % 4 == 0 && (y % 100 != 0 || y % 400 == 0)
  }

  /** Length of month `m` of year `y`: what `calendar.monthrange(y, m)[1]` gives. */
  function DaysInMonth(y: int, m: int): (n: int)
    requires 1 <= m <= 12
    ensures 28 <= n <= 31
    ensures m == 2 ==> (n == 29 <==> IsLeapYear(y))
  {
    if m == 2 then (if IsLeapYear(y) then 29 else 28)
    else if m == 4 || m == 6 || m == 9 || m == 11 then 30
    else 31
  }

  function DaysInYear(y: int): int {
    if IsLeapYear(y) then 366 else 365
  }

  /** A real day of the proleptic Gregorian calendar, with no upper bound on the year. */
  predicate IsCalendarDay(d: Ymd) {
    d.year >= MinYear && 1 <= d.month <= 12 && 1 <= d.day <= DaysInMonth(d.year, d.month)
  }

  /** What a Python `datetime.date` can hold. */
  type Date = d: Ymd | IsCalendarDay(d) && d.year <= MaxYear witness Ymd(1, 1, 1)

  /** Python's date comparison: lexicographic on (year, month, day). */
  predicate Less(a: Ymd, b: Ymd) {
    a.year < b.year
    || (a.year == b.year && a.month < b.month)
    || (a.year == b.year && a.month == b.month && a.day < b.day)
  }

  predicate LessEq(a: Ymd, b: Ymd) {
    Less(a, b) || a == b
  }

  // ---------------------------------------------------------------------
  // Day numbers: the proleptic Gregorian ordinal, 0001-01-01 being day 1.
  // ---------------------------------------------------------------------

  function DaysBeforeYear(y: int): nat
    requires y >= MinYear
    decreases y
  {
    if y == MinYear then 0 else DaysBeforeYear(y - 1) + DaysInYear(y - 1)
  }

  /** Days of year `y` before month `m`; `m == 13` gives the whole year. */
  function DaysBeforeMonth(y: int, m: int): nat
    requires 1 <= m <= 13
    decreases m
  {
    if m == 1 then 0 else DaysBeforeMonth(y, m - 1) + DaysInMonth(y, m - 1)
  }

  /** Python's `date.toordinal()`. */
  function Ordinal(d: Ymd): nat
    requires IsCalendarDay(d)
  {
    DaysBeforeYear(d.year) + DaysBeforeMonth(d.year, d.month) + d.day
  }

  /** The twelve months add up to the length of the year. */
  lemma MonthsFillYear(y: int)
    ensures DaysBeforeMonth(y, 13) == DaysInYear(y)
  {
    assert DaysBeforeMonth(y, 2) == 31;
    assert DaysBeforeMonth(y, 3) == 31 + DaysInMonth(y, 2);
    assert DaysBeforeMonth(y, 4) == 62 + DaysInMonth(y, 2);
    assert DaysBeforeMonth(y, 5) == 92 + DaysInMonth(y, 2);
    assert DaysBeforeMonth(y, 6) == 123 + DaysInMonth(y, 2);
    assert DaysBeforeMonth(y, 7) == 153 + DaysInMonth(y, 2);
    assert DaysBeforeMonth(y, 8) == 184 + DaysInMonth(y, 2);
    assert DaysBeforeMonth(y, 9) == 215 + DaysInMonth(y, 2);
    assert DaysBeforeMonth(y, 10) == 245 + DaysInMonth(y, 2);
    assert DaysBeforeMonth(y, 11) == 276 + DaysInMonth(y, 2);
    assert DaysBeforeMonth(y, 12) == 306 + DaysInMonth(y, 2);
    assert DaysBeforeMonth(y, 13) == 337 + DaysInMonth(y, 2);
  }

  /** A later month starts no earlier than the end of an earlier one. */
  lemma {:induction false} DaysBeforeMonthGrows(y: int, m1: int, m2: int)
    requires 1 <= m1 < m2 <= 13
    ensures DaysBeforeMonth(y, m1) + DaysInMonth(y, m1) <= DaysBeforeMonth(y, m2)
    decreases m2
  {
    if m2 > m1 + 1 {
      DaysBeforeMonthGrows(y, m1, m2 - 1);
    }
  }

  /** A later year starts no earlier than the end of an earlier one. */
  lemma {:induction false} DaysBeforeYearGrows(y1: int, y2: int)
    requires MinYear <= y1 < y2
    ensures DaysBeforeYear(y1) + DaysInYear(y1) <= DaysBeforeYear(y2)
    decreases y2
  {
    if y2 > y1 + 1 {
      DaysBeforeYearGrows(y1, y2 - 1);
    }
  }

  /** Every day of year `y` is numbered within that year's block of day numbers. */
  lemma OrdinalWithinYear(d: Ymd)
    requires IsCalendarDay(d)
    ensures DaysBeforeYear(d.year) < Ordinal(d) <= DaysBeforeYear(d.year) + DaysInYear(d.year)
  {
    if d.month < 12 {
      DaysBeforeMonthGrows(d.year, d.month, 13);
    }
    MonthsFillYear(d.year);
  }

  /** Date order and day-number order agree, in both directions. */
  lemma LessIffOrdinalLess(a: Ymd, b: Ymd)
    requires IsCalendarDay(a) && IsCalendarDay(b)
    ensures Less(a, b) <==> Ordinal(a) < Ordinal(b)
  {
    if Less(a, b) {
      OrdinalLess(a, b);
    } else if a != b {
      OrdinalLess(b, a);
    }
  }

  lemma OrdinalLess(a: Ymd, b: Ymd)
    requires IsCalendarDay(a) && IsCalendarDay(b) && Less(a, b)
    ensures Ordinal(a) < Ordinal(b)
  {
    if a.year < b.year {
      OrdinalWithinYear(a);
      OrdinalWithinYear(b);
      DaysBeforeYearGrows(a.year, b.year);
    } else if a.month < b.month {
      DaysBeforeMonthGrows(a.year, a.month, b.month);
    }
  }

  /** Distinct calendar days have distinct day numbers. */
  lemma OrdinalInjective(a: Ymd, b: Ymd)
    requires IsCalendarDay(a) && IsCalendarDay(b) && Ordinal(a) == Ordinal(b)
    ensures a == b
  {
    LessIffOrdinalLess(a, b);
    LessIffOrdinalLess(b, a);
  }

  // ---------------------------------------------------------------------
  // Division by a positive constant, for the leap-day count
  // ---------------------------------------------------------------------

  /** Counting one more number adds one multiple of `d` exactly when that number is one. */
  lemma DivStep(n: int, d: int)
    requires n >= 0 && d > 0
    ensures (n + 1) / d == n / d + (if (n + 1) % d == 0 then 1 else 0)
  {
    var q, r := n / d, n % d;
    assert n == d * q + r && 0 <= r < d;
    if r + 1 < d {
      assert n + 1 == d * q + (r + 1);
      DivUnique(n + 1, d, q, r + 1);
    } else {
      assert n + 1 == d * (q + 1);
      DivUnique(n + 1, d, q + 1, 0);
    }
  }

  /** Quotient and remainder are unique. */
  lemma DivUnique(a: int, d: int, q: int, r: int)
    requires d > 0 && a == d * q + r && 0 <= r < d
    ensures a / d == q && a % d == r
  {
    var q', r' := a / d, a % d;
    assert a == d * q' + r';
    if q' > q {
      assert d * q' >= d * (q + 1) by { MulMono(d, q + 1, q'); }
    } else if q' < q {
      assert d * q >= d * (q' + 1) by { MulMono(d, q' + 1, q); }
    }
  }

  lemma MulMono(d: int, a: int, b: int)
    requires d > 0 && a <= b
    ensures d * a <= d * b
  {
    assert d * b - d * a == d * (b - a);
  }

  /** Every multiple of 400 is one of 100, and every multiple of 100 one of 4. */
  lemma MultipleChain(m: int)
    ensures m % 400 == 0 ==> m % 100 == 0
    ensures m % 100 == 0 ==> m % 4 == 0
  {
    if m % 400 == 0 {
      DivUnique(m, 100, 4 * (m / 400), 0);
    }
    if m % 100 == 0 {
      DivUnique(m, 4, 25 * (m / 100), 0);
    }
  }

  /** Python's leap-day count: one for each multiple of 4, 100 and 400 below
      `n + 1`, as `_days_before_year` writes it. */
  function LeapDaysUpTo(n: int): int {
    n / 4 - n / 100 + n / 400
  }

  /** Counting year `n + 1` adds one leap day exactly when it is a leap year. */
  lemma LeapDaysStep(n: int)
    requires n >= 0
    ensures LeapDaysUpTo(n + 1) == LeapDaysUpTo(n) + (if IsLeapYear(n + 1) then 1 else 0)
  {
    DivStep(n, 4);
    DivStep(n, 100);
    DivStep(n, 400);
    MultipleChain(n + 1);
  }

  /** The recursive day count agrees with the closed form Python's `datetime`
      uses: 365 days a year plus one for every leap year before `y`. */
  lemma {:induction false} DaysBeforeYearClosedForm(y: int)
    requires y >= MinYear
    ensures DaysBeforeYear(y) == (y - 1) * 365 + LeapDaysUpTo(y - 1)
    decreases y
  {
    if y > MinYear {
      DaysBeforeYearClosedForm(y - 1);
      LeapDaysStep(y - 2);
    }
  }

  // ---------------------------------------------------------------------
  // relativedelta steps
  // ---------------------------------------------------------------------

  /** `d + relativedelta(days=1)`, before Python's range check on the year. */
  function NextDay(d: Ymd): (r: Ymd)
    requires IsCalendarDay(d)
    ensures IsCalendarDay(r)
    ensures Ordinal(r) == Ordinal(d) + 1
    ensures Less(d, r)
  {
    if d.day < DaysInMonth(d.year, d.month) then Ymd(d.year, d.month, d.day + 1)
    else if d.month < 12 then
      MonthEndOrdinal(d);
      Ymd(d.year, d.month + 1, 1)
    else
      YearEndOrdinal(d);
      Ymd(d.year + 1, 1, 1)
  }

  /** The first of the next month follows the last day of a month other than December. */
  lemma MonthEndOrdinal(d: Ymd)
    requires IsCalendarDay(d) && d.day == DaysInMonth(d.year, d.month) && d.month < 12
    ensures Ordinal(Ymd(d.year, d.month + 1, 1)) == Ordinal(d) + 1
  {
    assert DaysBeforeMonth(d.year, d.month + 1) == DaysBeforeMonth(d.year, d.month) + d.day;
  }

  /** 1 January follows 31 December of the year before. */
  lemma YearEndOrdinal(d: Ymd)
    requires IsCalendarDay(d) && d.month == 12 && d.day == 31
    ensures Ordinal(Ymd(d.year + 1, 1, 1)) == Ordinal(d) + 1
  {
    MonthsFillYear(d.year);
    assert DaysBeforeMonth(d.year, 13) == DaysBeforeMonth(d.year, 12) + 31;
  }

  /** The day after a date before `b` is at most `b`: stepping by days never overshoots. */
  lemma NextDayNotPast(a: Ymd, b: Ymd)
    requires IsCalendarDay(a) && IsCalendarDay(b) && Less(a, b)
    ensures LessEq(NextDay(a), b)
  {
    LessIffOrdinalLess(a, b);
    LessIffOrdinalLess(b, NextDay(a));
  }

  /** `d + relativedelta(days=n)` for a non-negative `n`, before the range check. */
  function AddDays(d: Ymd, n: nat): (r: Ymd)
    requires IsCalendarDay(d)
    ensures IsCalendarDay(r)
    ensures Ordinal(r) == Ordinal(d) + n
    decreases n
  {
    if n == 0 then d else AddDays(NextDay(d), n - 1)
  }

  /** Months counted from the start of year 0, so that consecutive months differ by one. */
  function MonthIndex(d: Ymd): int {
    d.year * 12 + d.month - 1
  }

  /** `relativedelta(day=n)` applied to `d`: the day replaced by `n`, clamped
      to the length of `d`'s month. */
  function WithDay(d: Ymd, n: int): (r: Ymd)
    requires IsCalendarDay(d) && n >= 1
    ensures IsCalendarDay(r)
    ensures r.year == d.year && r.month == d.month
    ensures r.day <= n
    ensures r.day < n ==> NextDay(r).day == 1
  {
    var last := DaysInMonth(d.year, d.month);
    Ymd(d.year, d.month, if n <= last then n else last)
  }

  /** `d + relativedelta(months=1)`, before Python's range check on the year:
      the next month, the day clamped to that month's length. */
  function AddMonth(d: Ymd): (r: Ymd)
    requires IsCalendarDay(d)
    ensures IsCalendarDay(r)
    ensures MonthIndex(r) == MonthIndex(d) + 1
    ensures r.day <= d.day
    ensures r.day < d.day ==> NextDay(r).day == 1
    ensures Less(d, r)
  {
    var (y, m) := if d.month == 12 then (d.year + 1, 1) else (d.year, d.month + 1);
    var last := DaysInMonth(y, m);
    Ymd(y, m, if d.day <= last then d.day else last)
  }

  /** `d + relativedelta(years=1)`, before Python's range check on the year:
      the same month a year later, the day clamped (29 February becomes 28 February). */
  function AddYear(d: Ymd): (r: Ymd)
    requires IsCalendarDay(d)
    ensures IsCalendarDay(r)
    ensures r.year == d.year + 1 && r.month == d.month
    ensures r.day <= d.day
    ensures r.day < d.day ==> NextDay(r).day == 1
    ensures Less(d, r)
  {
    var last := DaysInMonth(d.year + 1, d.month);
    Ymd(d.year + 1, d.month, if d.day <= last then d.day else last)
  }

  /** The one-year step loses a day exactly on 29 February. */
  lemma AddYearClampsOnlyLeapDay(d: Ymd)
    requires IsCalendarDay(d)
    ensures AddYear(d).day != d.day <==> d.month == 2 && d.day == 29
  {
  }
}
