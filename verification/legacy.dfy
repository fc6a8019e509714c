/** The earlier single-file `qsstats.py` version of `QuerySetStats`: the same
    period boundaries, no validation, and every aggregate taken over `'id'`. */
module LegacyQuerySetStats {
  import opened Calendar
  import opened Periods
  import opened Records
  import Package = QuerySetStats
  import opened Results

  /** The instance state; the queryset is required by the constructor. */
  datatype Stats = Stats(qs: seq<Row>, dateField: string, today: Date)

  /** The constructor, with `datetime.date.today()` injected. */
  function New(qs: seq<Row>, dateField: string, today: Date): (s: Stats)
    ensures s.qs == qs && s.dateField == dateField && s.today == today
  {
    Stats(qs, dateField, today)
  }

  /** `update_today`, with the clock reading injected. */
  function UpdateToday(s: Stats, today: Date): (r: Stats)
    ensures r.today == today && r.qs == s.qs && r.dateField == s.dateField
  {
    s.(today := today)
  }

  /** `get_aggregate`: the rows in `[first, last]`, aggregated over `'id'`. */
  function GetAggregate(s: Stats, first: Ymd, last: Ymd, dateField: string, aggregate: AggregateClass): (a: Aggregate)
    ensures a.cls == aggregate && a.target == Field("id")
    ensures forall x: Row :: x in a.matched <==>
              x in s.qs && dateField in x && LessEq(first, x[dateField]) && LessEq(x[dateField], last)
    ensures forall x: Row :: multiset(a.matched)[x] ==
                (if dateField in x && LessEq(first, x[dateField]) && LessEq(x[dateField], last)
                  then multiset(s.qs)[x] else 0)
  {
    Query(s.qs, dateField, Range(Period(first, last)), aggregate, Field("id"))
  }

  /** `for_day`: the rows dated `dt`, aggregated over `'id'`. */
  function ForDay(s: Stats, dt: Date, dateField: string, aggregate: AggregateClass): (a: Aggregate)
    ensures a.cls == aggregate && a.target == Field("id")
    ensures forall x: Row :: x in a.matched <==>
              x in s.qs && OrElse(dateField, s.dateField) in x && x[OrElse(dateField, s.dateField)] == dt
    ensures forall x: Row :: multiset(a.matched)[x] ==
                (if OrElse(dateField, s.dateField) in x && x[OrElse(dateField, s.dateField)] == dt
                  then multiset(s.qs)[x] else 0)
  {
    Query(s.qs, OrElse(dateField, s.dateField), Exact(dt.year, dt.month, dt.day), aggregate, Field("id"))
  }

  /** `this_day`: `for_day` at the cached `today`. */
  function ThisDay(s: Stats, dateField: string, aggregate: AggregateClass): (a: Aggregate)
    ensures a == ForDay(s, s.today, dateField, aggregate)
  {
    ForDay(s, s.today, OrElse(dateField, s.dateField), aggregate)
  }

  /** `for_month`: the rows in `dt`'s calendar month, aggregated over `'id'`. */
  function ForMonth(s: Stats, dt: Date, dateField: string, aggregate: AggregateClass): (a: Aggregate)
    ensures a.cls == aggregate && a.target == Field("id")
    ensures forall x: Row :: x in a.matched <==>
              x in s.qs && OrElse(dateField, s.dateField) in x
              && x[OrElse(dateField, s.dateField)].year == dt.year
              && x[OrElse(dateField, s.dateField)].month == dt.month
    ensures forall x: Row :: multiset(a.matched)[x] ==
                (if OrElse(dateField, s.dateField) in x
                   && x[OrElse(dateField, s.dateField)].year == dt.year
                   && x[OrElse(dateField, s.dateField)].month == dt.month
                  then multiset(s.qs)[x] else 0)
  {
    var first := Ymd(dt.year, dt.month, 1);
    var last := WithDay(first, 31);
    assert Period(first, last) == MonthBounds(dt);
    forall d: Date ensures Contains(Period(first, last), d) <==> d.year == dt.year && d.month == dt.month {
      MonthBoundsExact(dt, d);
    }
    GetAggregate(s, first, last, OrElse(dateField, s.dateField), aggregate)
  }

  /** `this_month`: `for_month` at the cached `today`. */
  function ThisMonth(s: Stats, dateField: string, aggregate: AggregateClass): (a: Aggregate)
    ensures a.cls == aggregate && a.target == Field("id")
    ensures forall x: Row :: multiset(a.matched)[x] ==
                (if OrElse(dateField, s.dateField) in x
                   && x[OrElse(dateField, s.dateField)].year == s.today.year
                   && x[OrElse(dateField, s.dateField)].month == s.today.month
                  then multiset(s.qs)[x] else 0)
  {
    ForMonth(s, s.today, dateField, aggregate)
  }

  /** `for_year`: the rows in `dt`'s year, aggregated over `'id'`. */
  function ForYear(s: Stats, dt: Date, dateField: string, aggregate: AggregateClass): (a: Aggregate)
    ensures a.cls == aggregate && a.target == Field("id")
    ensures forall x: Row :: x in a.matched <==>
              x in s.qs && OrElse(dateField, s.dateField) in x && x[OrElse(dateField, s.dateField)].year == dt.year
    ensures forall x: Row :: multiset(a.matched)[x] ==
                (if OrElse(dateField, s.dateField) in x && x[OrElse(dateField, s.dateField)].year == dt.year
                  then multiset(s.qs)[x] else 0)
  {
    GetAggregate(s, Ymd(dt.year, 1, 1), Ymd(dt.year, 12, 31), OrElse(dateField, s.dateField), aggregate)
  }

  /** `this_year`: `for_year` at the cached `today`. */
  function ThisYear(s: Stats, dateField: string, aggregate: AggregateClass): (a: Aggregate)
    ensures a.cls == aggregate && a.target == Field("id")
    ensures forall x: Row :: multiset(a.matched)[x] ==
                (if OrElse(dateField, s.dateField) in x && x[OrElse(dateField, s.dateField)].year == s.today.year
                  then multiset(s.qs)[x] else 0)
  {
    ForYear(s, s.today, dateField, aggregate)
  }

  /** The package state that corresponds to a legacy instance: same queryset,
      date field and `today`, aggregate field `'id'`. */
  function AsPackage(s: Stats, cls: AggregateClass): (p: Package.Stats)
    ensures p.qs == Some(s.qs) && p.dateField == s.dateField && p.today == s.today
    ensures p.aggregateField == Field("id") && p.aggregateClass == cls
  {
    Package.Stats(Some(s.qs), s.dateField, Field("id"), cls, "lte", s.today)
  }

  /** Where the package's checks pass, the legacy boundary functions compute
      exactly what the package computes. */
  lemma AgreesWithPackage(s: Stats, dt: Date, dateField: string, cls: AggregateClass)
    requires Package.Ready(AsPackage(s, cls), dateField)
    ensures Package.ForDay(AsPackage(s, cls), dt, dateField, Field(""), None) == Success(ForDay(s, dt, dateField, cls))
    ensures Package.ForMonth(AsPackage(s, cls), dt, dateField, Field(""), None) == Success(ForMonth(s, dt, dateField, cls))
    ensures Package.ForYear(AsPackage(s, cls), dt, dateField, Field(""), None) == Success(ForYear(s, dt, dateField, cls))
  {
  }
}
