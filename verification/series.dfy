/** Properties of `time_series` output, and of the pivot and `this_*`
    operations across several calls. */
module SeriesProperties {
  import opened Results
  import opened Calendar
  import opened Records
  import opened QuerySetStats

  // ---------------------------------------------------------------------
  // Dates that advance one interval step at a time
  // ---------------------------------------------------------------------

  /** Monthly steps from `from` land in consecutive months, and the day never grows. */
  lemma {:induction false} MonthlyChain(entries: seq<(Date, Aggregate)>, from: Date, i: int)
    requires Chain(entries, from, "months")
    requires 0 <= i < |entries|
    ensures MonthIndex(entries[i].0) == MonthIndex(from) + i
    ensures entries[i].0.day <= from.day
    decreases i
  {
    if i > 0 {
      MonthlyChain(entries, from, i - 1);
      assert entries[i].0 == Step("months", entries[i - 1].0);
    }
  }

  /** Yearly steps from `from` keep the month, count up the years, and the day never grows. */
  lemma {:induction false} YearlyChain(entries: seq<(Date, Aggregate)>, from: Date, i: int)
    requires Chain(entries, from, "years")
    requires 0 <= i < |entries|
    ensures entries[i].0.year == from.year + i && entries[i].0.month == from.month
    ensures entries[i].0.day <= from.day
    decreases i
  {
    if i > 0 {
      YearlyChain(entries, from, i - 1);
      assert entries[i].0 == Step("years", entries[i - 1].0);
    }
  }

  // ---------------------------------------------------------------------
  // time_series output
  // ---------------------------------------------------------------------

  /** The value at each date of a daily series is `for_day` at that date. */
  lemma DailySeriesValues(s: Stats, start: Date, end: Date, f: string, t: Target, c: Option<AggregateClass>)
    ensures var r := TimeSeries(s, start, end, "days", f, t, c);
      r.Success? ==> forall i :: 0 <= i < |r.value| ==> ForDay(s, r.value[i].0, f, t, c) == Success(r.value[i].1)
  {
    var r := TimeSeries(s, start, end, "days", f, t, c);
    if r.Success? {
      IntervalStems();
      forall i | 0 <= i < |r.value|
        ensures ForDay(s, r.value[i].0, f, t, c) == Success(r.value[i].1)
      {
        assert Dispatch(s, "day", r.value[i].0, DateFieldOf(s, f), TargetOf(s, t), ClassOf(s, c))
               == Success(r.value[i].1);
      }
    }
  }

  /** The value at each date of a monthly series is `for_month` at that date. */
  lemma MonthlySeriesValues(s: Stats, start: Date, end: Date, f: string, t: Target, c: Option<AggregateClass>)
    ensures var r := TimeSeries(s, start, end, "months", f, t, c);
      r.Success? ==> forall i :: 0 <= i < |r.value| ==> ForMonth(s, r.value[i].0, f, t, c) == Success(r.value[i].1)
  {
    var r := TimeSeries(s, start, end, "months", f, t, c);
    if r.Success? {
      IntervalStems();
      forall i | 0 <= i < |r.value|
        ensures ForMonth(s, r.value[i].0, f, t, c) == Success(r.value[i].1)
      {
        assert Dispatch(s, "month", r.value[i].0, DateFieldOf(s, f), TargetOf(s, t), ClassOf(s, c))
               == Success(r.value[i].1);
      }
    }
  }

  /** The value at each date of a yearly series is `for_year` at that date. */
  lemma YearlySeriesValues(s: Stats, start: Date, end: Date, f: string, t: Target, c: Option<AggregateClass>)
    ensures var r := TimeSeries(s, start, end, "years", f, t, c);
      r.Success? ==> forall i :: 0 <= i < |r.value| ==> ForYear(s, r.value[i].0, f, t, c) == Success(r.value[i].1)
  {
    var r := TimeSeries(s, start, end, "years", f, t, c);
    if r.Success? {
      IntervalStems();
      forall i | 0 <= i < |r.value|
        ensures ForYear(s, r.value[i].0, f, t, c) == Success(r.value[i].1)
      {
        assert Dispatch(s, "year", r.value[i].0, DateFieldOf(s, f), TargetOf(s, t), ClassOf(s, c))
               == Success(r.value[i].1);
      }
    }
  }

  /** Once the checks pass, a daily series has exactly one entry for each day of `[start, end)`. */
  lemma DailySeriesCoversRange(s: Stats, start: Date, end: Date, f: string, t: Target, c: Option<AggregateClass>)
    requires Ready(s, f)
    ensures TimeSeries(s, start, end, "days", f, t, c).Success?
    ensures var e := TimeSeries(s, start, end, "days", f, t, c).value;
      forall d: Date :: (LessEq(start, d) && Less(d, end)) <==> exists i :: 0 <= i < |e| && e[i].0 == d
  {
    var e := TimeSeries(s, start, end, "days", f, t, c).value;
    forall d: Date | LessEq(start, d) && Less(d, end)
      ensures exists i :: 0 <= i < |e| && e[i].0 == d
    {
      LessIffOrdinalLess(start, d);
      LessIffOrdinalLess(d, end);
      LessIffOrdinalLess(start, end);
      var i := Ordinal(d) - Ordinal(start);
      assert 0 <= i < |e|;
      OrdinalInjective(e[i].0, d);
    }
  }

  /** The i-th date of a monthly series is i months after `start`, with a
      day that never grows: a clamped day stays clamped. */
  lemma MonthlySeriesMonths(s: Stats, start: Date, end: Date, f: string, t: Target, c: Option<AggregateClass>)
    ensures var r := TimeSeries(s, start, end, "months", f, t, c);
      r.Success? ==> forall i :: 0 <= i < |r.value| ==>
        MonthIndex(r.value[i].0) == MonthIndex(start) + i && r.value[i].0.day <= start.day
  {
    var r := TimeSeries(s, start, end, "months", f, t, c);
    if r.Success? {
      forall i | 0 <= i < |r.value|
        ensures MonthIndex(r.value[i].0) == MonthIndex(start) + i && r.value[i].0.day <= start.day
      {
        MonthlyChain(r.value, start, i);
      }
    }
  }

  /** The i-th date of a yearly series is the same month i years after
      `start`, with a day that never grows. */
  lemma YearlySeriesYears(s: Stats, start: Date, end: Date, f: string, t: Target, c: Option<AggregateClass>)
    ensures var r := TimeSeries(s, start, end, "years", f, t, c);
      r.Success? ==> forall i :: 0 <= i < |r.value| ==>
        r.value[i].0.year == start.year + i && r.value[i].0.month == start.month && r.value[i].0.day <= start.day
  {
    var r := TimeSeries(s, start, end, "years", f, t, c);
    if r.Success? {
      forall i | 0 <= i < |r.value|
        ensures r.value[i].0.year == start.year + i && r.value[i].0.month == start.month
        ensures r.value[i].0.day <= start.day
      {
        YearlyChain(r.value, start, i);
      }
    }
  }

  /** A rejected interval is reported even when the date field and the
      queryset are missing too, and even for an empty date range. */
  lemma IntervalCheckedFirst(s: Stats, start: Date, end: Date, interval: string,
                             f: string, t: Target, c: Option<AggregateClass>)
    requires !IsInterval(interval)
    ensures TimeSeries(s, start, end, interval, f, t, c) == Failure(InvalidInterval)
  {
  }

  // ---------------------------------------------------------------------
  // Validation, pivots and the cached today
  // ---------------------------------------------------------------------

  /** Before any query, a missing date field is reported ahead of a missing
      queryset, and every period and pivot operation reports the same error. */
  lemma ValidationBeforeQuery(s: Stats, dt: Date, op: string, f: string, t: Target, c: Option<AggregateClass>)
    requires !Ready(s, f)
    ensures DateFieldOf(s, f) == "" ==> ValidationError(s, f) == DateFieldMissing
    ensures ForDay(s, dt, f, t, c) == Failure(ValidationError(s, f))
    ensures ForMonth(s, dt, f, t, c) == Failure(ValidationError(s, f))
    ensures ForYear(s, dt, f, t, c) == Failure(ValidationError(s, f))
    ensures Pivot(s, dt, op, f, t, c) == Failure(ValidationError(s, f))
  {
  }

  /** At the same pivot, `until` and the strict `gt` comparison split the
      rows carrying the date field between them. */
  lemma UntilAndGtSplitRows(s: Stats, dt: Date, f: string, t: Target, c: Option<AggregateClass>)
    requires Ready(s, f)
    ensures Until(s, dt, f, t, c).Success? && Pivot(s, dt, "gt", f, t, c).Success?
    ensures |Until(s, dt, f, t, c).value.matched| + |Pivot(s, dt, "gt", f, t, c).value.matched|
            == CountWithField(s.qs.value, DateFieldOf(s, f))
  {
    LteGtSplit(s.qs.value, DateFieldOf(s, f), dt);
  }

  /** One record dated `today`: it is counted by `until` and by `after` at
      `today`, and not by `until` at any earlier date. */
  lemma OneRecordToday(s: Stats, f: string, today: Date, earlier: Date)
    requires f != "" && s.qs == Some([map[f := today]])
    requires Less(earlier, today)
    ensures |Until(s, today, f, Field(""), None).value.matched| == 1
    ensures |After(s, today, f, Field(""), None).value.matched| == 1
    ensures |Until(s, earlier, f, Field(""), None).value.matched| == 0
  {
    var row := map[f := today];
    assert [row][1..] == [];
    assert Select([row], f, Compare(Lte, today)) == [row];
    assert Select([row], f, Compare(Gte, today)) == [row];
    assert Select([row], f, Compare(Lte, earlier)) == [];
  }

  /** Refreshing `today` moves every `this_*` operation to the new day. */
  lemma RefreshMovesThis(s: Stats, today: Date, f: string, t: Target, c: Option<AggregateClass>)
    ensures ThisDay(UpdateToday(s, today), f, t, c) == ForDay(s, today, f, t, c)
    ensures ThisMonthIntended(UpdateToday(s, today), f, t, c) == ForMonth(s, today, f, t, c)
    ensures ThisYear(UpdateToday(s, today), f, t, c) == ForYear(s, today, f, t, c)
  {
  }
}
