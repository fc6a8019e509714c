/** `QuerySetStats` of the `qsstats` package: period boundaries, argument
    fallback and validation, pivot comparisons and time series. The object's
    state is an immutable `Stats` value; every method is a pure function of
    it and of its arguments, returning `Failure` where the Python raises. */
module QuerySetStats {
  import opened Results
  import opened Calendar
  import opened Periods
  import opened Records

  /** The package's exception classes, plus the two Python errors the
      time-series loop can run into: `AttributeError` for the missing
      `for_week`, and `ValueError`/`OverflowError` for a step past year 9999. */
  datatype Error =
    | InvalidInterval
    | InvalidOperator
    | DateFieldMissing
    | QuerySetMissing
    | NoSuchMethod(name: string)
    | DateOutOfRange

  /** The three `QUERYSETSTATS_DEFAULT_*` settings; `None` when the hosting
      application does not define one. */
  datatype Settings = Settings(
    aggregateField: Option<string>,
    aggregateClass: Option<AggregateClass>,
    operator: Option<string>)

  /** The instance state. `qs` is `None` when no queryset was given. */
  datatype Stats = Stats(
    qs: Option<seq<Row>>,
    dateField: string,
    aggregateField: Target,
    aggregateClass: AggregateClass,
    operator: string,
    today: Date)

  /** `not self.qs`: no queryset, or one that evaluates to no rows (a Django
      queryset is falsy when it is empty). */
  predicate QuerySetFalsy(qs: Option<seq<Row>>) {
    qs.None? || |qs.value| == 0
  }

  /** The construction-time fallback chain: argument, then setting, then the
      built-in default (`'id'`, `Count`, `'lte'`). `today` is the injected
      value of `datetime.date.today()`. */
  function New(qs: Option<seq<Row>>, dateField: string, aggregateField: string,
               aggregateClass: Option<AggregateClass>, operator: string,
               settings: Settings, today: Date): (s: Stats)
    ensures s.qs == qs && s.dateField == dateField && s.today == today
    ensures aggregateField != "" ==> s.aggregateField == Field(aggregateField)
    ensures aggregateField == "" && settings.aggregateField.Some? ==>
              s.aggregateField == Field(settings.aggregateField.value)
    ensures aggregateField == "" && settings.aggregateField.None? ==> s.aggregateField == Field("id")
    ensures aggregateClass.Some? ==> s.aggregateClass == aggregateClass.value
    ensures aggregateClass.None? && settings.aggregateClass.Some? ==> s.aggregateClass == settings.aggregateClass.value
    ensures aggregateClass.None? && settings.aggregateClass.None? ==> s.aggregateClass == Count
    ensures operator != "" ==> s.operator == operator
    ensures operator == "" && settings.operator.Some? ==> s.operator == settings.operator.value
    ensures operator == "" && settings.operator.None? ==> s.operator == "lte"
  {
    Stats(qs, dateField,
          Field(OrElse(aggregateField, settings.aggregateField.GetOr("id"))),
          aggregateClass.GetOr(settings.aggregateClass.GetOr(Count)),
          OrElse(operator, settings.operator.GetOr("lte")),
          today)
  }

  /** `update_today`, with the clock reading injected. */
  function UpdateToday(s: Stats, today: Date): (r: Stats)
    ensures r.today == today
    ensures r.qs == s.qs && r.dateField == s.dateField && r.aggregateField == s.aggregateField
    ensures r.aggregateClass == s.aggregateClass && r.operator == s.operator
  {
    s.(today := today)
  }

  // ---------------------------------------------------------------------
  // Argument fallback and validation
  // ---------------------------------------------------------------------

  /** `date_field or self.date_field`. */
  function DateFieldOf(s: Stats, dateField: string): string {
    OrElse(dateField, s.dateField)
  }

  /** `aggregate_field or self.aggregate_field`. */
  function TargetOf(s: Stats, aggregateField: Target): Target {
    TargetOrElse(aggregateField, s.aggregateField)
  }

  /** `aggregate_class or self.aggregate_class`. */
  function ClassOf(s: Stats, aggregateClass: Option<AggregateClass>): AggregateClass {
    aggregateClass.GetOr(s.aggregateClass)
  }

  /** Both checks pass: a date field is known and the queryset is truthy. */
  predicate Ready(s: Stats, dateField: string) {
    DateFieldOf(s, dateField) != "" && !QuerySetFalsy(s.qs)
  }

  /** The error the two checks raise, the date field being checked first. */
  function ValidationError(s: Stats, dateField: string): Error
    requires !Ready(s, dateField)
  {
    if DateFieldOf(s, dateField) == "" then DateFieldMissing else QuerySetMissing
  }

  /** `check_date_field`. */
  function CheckDateField(dateField: string): (r: Outcome<Error>)
    ensures r.Fail? <==> dateField == ""
    ensures r.Fail? ==> r.error == DateFieldMissing
  {
    if dateField == "" then Fail(DateFieldMissing) else Pass
  }

  /** `check_qs`. */
  function CheckQs(s: Stats): (r: Outcome<Error>)
    ensures r.Fail? <==> QuerySetFalsy(s.qs)
    ensures r.Fail? ==> r.error == QuerySetMissing
  {
    if QuerySetFalsy(s.qs) then Fail(QuerySetMissing) else Pass
  }

  /** `get_aggregate`: aggregate over the rows whose date field lies in the
      closed range `[first, last]`. Only called once `check_qs` has passed. */
  function GetAggregate(s: Stats, first: Ymd, last: Ymd, dateField: string,
                        aggregateField: Target, aggregateClass: AggregateClass): (a: Aggregate)
    requires s.qs.Some?
    ensures a.cls == aggregateClass && a.target == aggregateField
    ensures forall x: Row :: x in a.matched <==>
              x in s.qs.value && dateField in x && LessEq(first, x[dateField]) && LessEq(x[dateField], last)
    ensures forall x: Row :: multiset(a.matched)[x] ==
                (if dateField in x && LessEq(first, x[dateField]) && LessEq(x[dateField], last)
                  then multiset(s.qs.value)[x] else 0)
  {
    Query(s.qs.value, dateField, Range(Period(first, last)), aggregateClass, aggregateField)
  }

  // ---------------------------------------------------------------------
  // Aggregates for a calendar period
  // ---------------------------------------------------------------------

  /** `for_day`: the rows whose date field falls on `dt`. */
  function ForDay(s: Stats, dt: Date, dateField: string, aggregateField: Target,
                  aggregateClass: Option<AggregateClass>): (r: Result<Aggregate, Error>)
    ensures r.Success? <==> Ready(s, dateField)
    ensures r.Failure? ==> r.error == ValidationError(s, dateField)
    ensures r.Success? ==> r.value.cls == ClassOf(s, aggregateClass)
    ensures r.Success? ==> r.value.target == TargetOf(s, aggregateField)
    ensures r.Success? ==> forall x: Row :: x in r.value.matched <==>
              x in s.qs.value && DateFieldOf(s, dateField) in x && x[DateFieldOf(s, dateField)] == dt
    ensures r.Success? ==>
              forall x: Row :: multiset(r.value.matched)[x] ==
                (if DateFieldOf(s, dateField) in x && x[DateFieldOf(s, dateField)] == dt
                  then multiset(s.qs.value)[x] else 0)
  {
    var field := DateFieldOf(s, dateField);
    var target := TargetOf(s, aggregateField);
    var cls := ClassOf(s, aggregateClass);
    :- CheckDateField(field);
    :- CheckQs(s);
    Success(Query(s.qs.value, field, Exact(dt.year, dt.month, dt.day), cls, target))
  }

  /** `this_day`: `for_day` at the cached `today`. */
  function ThisDay(s: Stats, dateField: string, aggregateField: Target,
                   aggregateClass: Option<AggregateClass>): (r: Result<Aggregate, Error>)
    ensures r == ForDay(s, s.today, dateField, aggregateField, aggregateClass)
    ensures r.Success? ==> forall x: Row :: x in r.value.matched <==>
              x in s.qs.value && DateFieldOf(s, dateField) in x && x[DateFieldOf(s, dateField)] == s.today
    ensures r.Success? ==>
              forall x: Row :: multiset(r.value.matched)[x] ==
                (if DateFieldOf(s, dateField) in x && x[DateFieldOf(s, dateField)] == s.today
                  then multiset(s.qs.value)[x] else 0)
  {
    ForDay(s, s.today, dateField, aggregateField, aggregateClass)
  }

  /** `for_month`: the rows whose date field falls in `dt`'s calendar month,
      through the range from its 1st to its last day. */
  function ForMonth(s: Stats, dt: Date, dateField: string, aggregateField: Target,
                    aggregateClass: Option<AggregateClass>): (r: Result<Aggregate, Error>)
    ensures r.Success? <==> Ready(s, dateField)
    ensures r.Failure? ==> r.error == ValidationError(s, dateField)
    ensures r.Success? ==> r.value.cls == ClassOf(s, aggregateClass)
    ensures r.Success? ==> r.value.target == TargetOf(s, aggregateField)
    ensures r.Success? ==> forall x: Row :: x in r.value.matched <==>
              x in s.qs.value && DateFieldOf(s, dateField) in x
              && x[DateFieldOf(s, dateField)].year == dt.year && x[DateFieldOf(s, dateField)].month == dt.month
    ensures r.Success? ==>
              forall x: Row :: multiset(r.value.matched)[x] ==
                (if DateFieldOf(s, dateField) in x
                   && x[DateFieldOf(s, dateField)].year == dt.year && x[DateFieldOf(s, dateField)].month == dt.month
                  then multiset(s.qs.value)[x] else 0)
  {
    var field := DateFieldOf(s, dateField);
    var target := TargetOf(s, aggregateField);
    var cls := ClassOf(s, aggregateClass);
    :- CheckDateField(field);
    :- CheckQs(s);
    var first := Ymd(dt.year, dt.month, 1);
    var last := WithDay(first, 31);
    assert Period(first, last) == MonthBounds(dt);
    forall d: Date ensures Contains(Period(first, last), d) <==> d.year == dt.year && d.month == dt.month {
      MonthBoundsExact(dt, d);
    }
    Success(GetAggregate(s, first, last, field, target, cls))
  }

  /** `this_month` as written: the cached `today` is used, but the caller's
      `aggregate_class` is passed positionally into the `aggregate_field`
      slot and the caller's `aggregate_field` is dropped, so the instance's
      aggregate class is always used. */
  function ThisMonth(s: Stats, dateField: string, aggregateField: Target,
                     aggregateClass: Option<AggregateClass>): (r: Result<Aggregate, Error>)
    ensures r.Success? <==> Ready(s, dateField)
    ensures r.Failure? ==> r.error == ValidationError(s, dateField)
    ensures r.Success? ==> r.value.cls == s.aggregateClass
    ensures r.Success? ==> r.value.target
                           == if aggregateClass.Some? then ClassObject(aggregateClass.value) else s.aggregateField
    ensures r.Success? ==> forall x: Row :: x in r.value.matched <==>
              x in s.qs.value && DateFieldOf(s, dateField) in x
              && x[DateFieldOf(s, dateField)].year == s.today.year
              && x[DateFieldOf(s, dateField)].month == s.today.month
    ensures r.Success? ==>
              forall x: Row :: multiset(r.value.matched)[x] ==
                (if DateFieldOf(s, dateField) in x && x[DateFieldOf(s, dateField)].year == s.today.year
                   && x[DateFieldOf(s, dateField)].month == s.today.month
                  then multiset(s.qs.value)[x] else 0)
  {
    var slot := if aggregateClass.Some? then ClassObject(aggregateClass.value) else Field("");
    ForMonth(s, s.today, dateField, slot, None)
  }

  /** `this_month` as evidently intended: `for_month` at the cached `today`
      with each override in its own slot, as `this_day` and `this_year` do. */
  function ThisMonthIntended(s: Stats, dateField: string, aggregateField: Target,
                             aggregateClass: Option<AggregateClass>): (r: Result<Aggregate, Error>)
    ensures r == ForMonth(s, s.today, dateField, aggregateField, aggregateClass)
    ensures r.Success? ==> r.value.cls == ClassOf(s, aggregateClass)
    ensures r.Success? ==> r.value.target == TargetOf(s, aggregateField)
  {
    ForMonth(s, s.today, dateField, aggregateField, aggregateClass)
  }

  /** The argument slip in `this_month`: asked for class `cls` over field
      `field`, it aggregates with the instance's class over the class object
      `cls`, where the intended version honours both. */
  lemma ThisMonthSlip(s: Stats, dateField: string, field: string, cls: AggregateClass)
    requires Ready(s, dateField) && field != "" && cls != s.aggregateClass
    ensures ThisMonth(s, dateField, Field(field), Some(cls)).value.cls != cls
    ensures ThisMonth(s, dateField, Field(field), Some(cls)).value.target == ClassObject(cls)
    ensures ThisMonthIntended(s, dateField, Field(field), Some(cls)).value.cls == cls
    ensures ThisMonthIntended(s, dateField, Field(field), Some(cls)).value.target == Field(field)
  {
  }

  /** `for_year`: the rows whose date field falls in `dt`'s year, through the
      range 1 January to 31 December. */
  function ForYear(s: Stats, dt: Date, dateField: string, aggregateField: Target,
                   aggregateClass: Option<AggregateClass>): (r: Result<Aggregate, Error>)
    ensures r.Success? <==> Ready(s, dateField)
    ensures r.Failure? ==> r.error == ValidationError(s, dateField)
    ensures r.Success? ==> r.value.cls == ClassOf(s, aggregateClass)
    ensures r.Success? ==> r.value.target == TargetOf(s, aggregateField)
    ensures r.Success? ==> forall x: Row :: x in r.value.matched <==>
              x in s.qs.value && DateFieldOf(s, dateField) in x && x[DateFieldOf(s, dateField)].year == dt.year
    ensures r.Success? ==>
              forall x: Row :: multiset(r.value.matched)[x] ==
                (if DateFieldOf(s, dateField) in x && x[DateFieldOf(s, dateField)].year == dt.year
                  then multiset(s.qs.value)[x] else 0)
  {
    var field := DateFieldOf(s, dateField);
    var target := TargetOf(s, aggregateField);
    var cls := ClassOf(s, aggregateClass);
    :- CheckDateField(field);
    :- CheckQs(s);
    Success(GetAggregate(s, Ymd(dt.year, 1, 1), Ymd(dt.year, 12, 31), field, target, cls))
  }

  /** `this_year`: `for_year` at the cached `today`. */
  function ThisYear(s: Stats, dateField: string, aggregateField: Target,
                    aggregateClass: Option<AggregateClass>): (r: Result<Aggregate, Error>)
    ensures r == ForYear(s, s.today, dateField, aggregateField, aggregateClass)
    ensures r.Success? ==> forall x: Row :: x in r.value.matched <==>
              x in s.qs.value && DateFieldOf(s, dateField) in x && x[DateFieldOf(s, dateField)].year == s.today.year
    ensures r.Success? ==>
              forall x: Row :: multiset(r.value.matched)[x] ==
                (if DateFieldOf(s, dateField) in x && x[DateFieldOf(s, dateField)].year == s.today.year
                  then multiset(s.qs.value)[x] else 0)
  {
    ForYear(s, s.today, dateField, aggregateField, aggregateClass)
  }

  // ---------------------------------------------------------------------
  // Aggregates against a pivot
  // ---------------------------------------------------------------------

  /** The lookup suffix each comparison is spelled with. */
  function OperatorName(op: Comparison): string {
    match op
    case Lt => "lt"
    case Lte => "lte"
    case Gt => "gt"
    case Gte => "gte"
  }

  /** The membership test `operator not in ['lt', 'lte', 'gt', 'gte']`. */
  function ParseOperator(name: string): (r: Result<Comparison, Error>)
    ensures r.Success? <==> name in {"lt", "lte", "gt", "gte"}
    ensures r.Success? ==> OperatorName(r.value) == name
    ensures r.Failure? ==> r.error == InvalidOperator
  {
    if name == "lt" then Success(Lt)
    else if name == "lte" then Success(Lte)
    else if name == "gt" then Success(Gt)
    else if name == "gte" then Success(Gte)
    else Failure(InvalidOperator)
  }

  /** Every comparison's name parses back to it. */
  lemma OperatorNameRoundTrip(op: Comparison)
    ensures ParseOperator(OperatorName(op)) == Success(op)
  {
  }

  /** `pivot`: the rows whose date field compares to `dt` under `operator`
      (falling back to the instance's operator). The operator is checked
      only after the date field and the queryset. */
  function Pivot(s: Stats, dt: Date, operator: string, dateField: string, aggregateField: Target,
                 aggregateClass: Option<AggregateClass>): (r: Result<Aggregate, Error>)
    ensures !Ready(s, dateField) ==> r == Failure(ValidationError(s, dateField))
    ensures Ready(s, dateField) ==>
              (r.Success? <==> OrElse(operator, s.operator) in {"lt", "lte", "gt", "gte"})
    ensures r.Failure? && Ready(s, dateField) ==> r.error == InvalidOperator
    ensures r.Success? ==> r.value.cls == ClassOf(s, aggregateClass)
    ensures r.Success? ==> r.value.target == TargetOf(s, aggregateField)
    ensures r.Success? ==> forall op :: OperatorName(op) == OrElse(operator, s.operator) ==>
              forall x: Row :: x in r.value.matched <==>
                x in s.qs.value && DateFieldOf(s, dateField) in x && Compares(op, x[DateFieldOf(s, dateField)], dt)
    ensures r.Success? ==> forall op :: OperatorName(op) == OrElse(operator, s.operator) ==>
              forall x: Row :: multiset(r.value.matched)[x] ==
                (if DateFieldOf(s, dateField) in x && Compares(op, x[DateFieldOf(s, dateField)], dt)
                  then multiset(s.qs.value)[x] else 0)
  {
    var field := DateFieldOf(s, dateField);
    var target := TargetOf(s, aggregateField);
    var cls := ClassOf(s, aggregateClass);
    var name := OrElse(operator, s.operator);
    :- CheckDateField(field);
    :- CheckQs(s);
    var op :- ParseOperator(name);
    Success(Query(s.qs.value, field, Compare(op, dt), cls, target))
  }

  /** `until`: the rows dated on or before `dt`. Never raises `InvalidOperator`. */
  function Until(s: Stats, dt: Date, dateField: string, aggregateField: Target,
                 aggregateClass: Option<AggregateClass>): (r: Result<Aggregate, Error>)
    ensures r.Success? <==> Ready(s, dateField)
    ensures r.Failure? ==> r.error == ValidationError(s, dateField)
    ensures r.Success? ==> r.value.cls == ClassOf(s, aggregateClass)
    ensures r.Success? ==> r.value.target == TargetOf(s, aggregateField)
    ensures r.Success? ==> forall x: Row :: x in r.value.matched <==>
              x in s.qs.value && DateFieldOf(s, dateField) in x && LessEq(x[DateFieldOf(s, dateField)], dt)
    ensures r.Success? ==>
              forall x: Row :: multiset(r.value.matched)[x] ==
                (if DateFieldOf(s, dateField) in x && LessEq(x[DateFieldOf(s, dateField)], dt) then multiset(s.qs.value)[x] else 0)
  {
    assert OperatorName(Lte) == "lte";
    Pivot(s, dt, "lte", dateField, aggregateField, aggregateClass)
  }

  /** `after`: the rows dated on or after `dt`. Never raises `InvalidOperator`. */
  function After(s: Stats, dt: Date, dateField: string, aggregateField: Target,
                 aggregateClass: Option<AggregateClass>): (r: Result<Aggregate, Error>)
    ensures r.Success? <==> Ready(s, dateField)
    ensures r.Failure? ==> r.error == ValidationError(s, dateField)
    ensures r.Success? ==> r.value.cls == ClassOf(s, aggregateClass)
    ensures r.Success? ==> r.value.target == TargetOf(s, aggregateField)
    ensures r.Success? ==> forall x: Row :: x in r.value.matched <==>
              x in s.qs.value && DateFieldOf(s, dateField) in x && LessEq(dt, x[DateFieldOf(s, dateField)])
    ensures r.Success? ==>
              forall x: Row :: multiset(r.value.matched)[x] ==
                (if DateFieldOf(s, dateField) in x && LessEq(dt, x[DateFieldOf(s, dateField)]) then multiset(s.qs.value)[x] else 0)
  {
    assert OperatorName(Gte) == "gte";
    Pivot(s, dt, "gte", dateField, aggregateField, aggregateClass)
  }

  /** `until_now`, with the clock reading `now` injected at date resolution. */
  function UntilNow(s: Stats, now: Date, dateField: string, aggregateField: Target,
                    aggregateClass: Option<AggregateClass>): (r: Result<Aggregate, Error>)
    ensures r == Until(s, now, dateField, aggregateField, aggregateClass)
  {
    Pivot(s, now, "lte", dateField, aggregateField, aggregateClass)
  }

  /** `after_now`, with the clock reading `now` injected at date resolution. */
  function AfterNow(s: Stats, now: Date, dateField: string, aggregateField: Target,
                    aggregateClass: Option<AggregateClass>): (r: Result<Aggregate, Error>)
    ensures r == After(s, now, dateField, aggregateField, aggregateClass)
  {
    Pivot(s, now, "gte", dateField, aggregateField, aggregateClass)
  }

  // ---------------------------------------------------------------------
  // Time series
  // ---------------------------------------------------------------------

  /** The intervals `time_series` accepts. */
  predicate IsInterval(interval: string) {
    interval in {"years", "months", "weeks", "days"}
  }

  /** `s.rstrip(c)`: `s` without its trailing run of `c`. */
  function RStrip(s: string, c: char): (r: string)
    ensures |r| <= |s| && r == s[..|r|]
    ensures |r| > 0 ==> r[|r| - 1] != c
    ensures forall i :: |r| <= i < |s| ==> s[i] == c
  {
    if |s| > 0 && s[|s| - 1] == c then RStrip(s[..|s| - 1], c) else s
  }

  /** The method-name stems the four intervals strip to. */
  lemma IntervalStems()
    ensures RStrip("days", 's') == "day" && RStrip("weeks", 's') == "week"
    ensures RStrip("months", 's') == "month" && RStrip("years", 's') == "year"
    ensures "for_" + RStrip("weeks", 's') == "for_week"
  {
    assert "days"[..3] == "day" && "weeks"[..4] == "week";
    assert "months"[..5] == "month" && "years"[..4] == "year";
  }

  /** `dt + relativedelta(**{interval: 1})`, before Python's range check. */
  function Step(interval: string, dt: Ymd): (r: Ymd)
    requires IsInterval(interval) && IsCalendarDay(dt)
    ensures IsCalendarDay(r) && Less(dt, r)
  {
    if interval == "days" then NextDay(dt)
    else if interval == "weeks" then AddDays(dt, 7)
    else if interval == "months" then AddMonth(dt)
    else AddYear(dt)
  }

  /** `getattr(self, 'for_%s' % unit)` followed by the call: only `for_day`,
      `for_month` and `for_year` exist. */
  function Dispatch(s: Stats, unit: string, dt: Date, dateField: string, aggregateField: Target,
                    aggregateClass: AggregateClass): (r: Result<Aggregate, Error>)
    ensures unit !in {"day", "month", "year"} ==> r == Failure(NoSuchMethod("for_" + unit))
    ensures unit in {"day", "month", "year"} ==> (r.Success? <==> Ready(s, dateField))
    ensures unit == "day" ==> r == ForDay(s, dt, dateField, aggregateField, Some(aggregateClass))
    ensures unit == "month" ==> r == ForMonth(s, dt, dateField, aggregateField, Some(aggregateClass))
    ensures unit == "year" ==> r == ForYear(s, dt, dateField, aggregateField, Some(aggregateClass))
  {
    if unit == "day" then ForDay(s, dt, dateField, aggregateField, Some(aggregateClass))
    else if unit == "month" then ForMonth(s, dt, dateField, aggregateField, Some(aggregateClass))
    else if unit == "year" then ForYear(s, dt, dateField, aggregateField, Some(aggregateClass))
    else Failure(NoSuchMethod("for_" + unit))
  }

  /** Days left between the cursor and the end, zero once the cursor has reached it. */
  function DaysLeft(dt: Ymd, end: Ymd): nat
    requires IsCalendarDay(dt) && IsCalendarDay(end)
  {
    if Ordinal(dt) < Ordinal(end) then Ordinal(end) - Ordinal(dt) else 0
  }

  /** The entries' dates start at `from` and each is one `interval` step
      after the one before it. */
  predicate Chain(entries: seq<(Date, Aggregate)>, from: Date, interval: string)
    requires IsInterval(interval)
  {
    && (|entries| > 0 ==> entries[0].0 == from)
    && (forall i :: 0 < i < |entries| ==> entries[i].0 == Step(interval, entries[i - 1].0))
  }

  /** The entries of a successful series, characterised without the loop:
      they start at `start`, each date is one step after the previous one,
      all lie before `end`, the step after the last reaches `end`, and each
      value is the dispatched `for_<unit>` at that date. */
  ghost predicate IsSeries(entries: seq<(Date, Aggregate)>, s: Stats, start: Date, end: Date, interval: string,
                           dateField: string, aggregateField: Target, aggregateClass: AggregateClass)
    requires IsInterval(interval)
  {
    && (|entries| == 0 <==> !Less(start, end))
    && Chain(entries, start, interval)
    && (forall i :: 0 <= i < |entries| ==> Less(entries[i].0, end))
    && (|entries| > 0 ==> !Less(Step(interval, entries[|entries| - 1].0), end))
    && (forall i :: 0 <= i < |entries| ==>
          Dispatch(s, RStrip(interval, 's'), entries[i].0, dateField, aggregateField, aggregateClass)
          == Success(entries[i].1))
  }

  /** The dates of `entries` start no earlier than `from` and strictly increase. */
  predicate Increasing(entries: seq<(Date, Aggregate)>, from: Date) {
    && (forall i :: 0 <= i < |entries| ==> LessEq(from, entries[i].0))
    && (forall i, j :: 0 <= i < j < |entries| ==> Less(entries[i].0, entries[j].0))
  }

  /** The dates of `entries` are the consecutive days from `from` on. */
  predicate Consecutive(entries: seq<(Date, Aggregate)>, from: Date) {
    forall i :: 0 <= i < |entries| ==> Ordinal(entries[i].0) == Ordinal(from) + i
  }

  /** Putting an earlier date in front of an increasing series keeps it increasing. */
  lemma PrependKeepsOrder(dt: Date, value: Aggregate, next: Date, rest: seq<(Date, Aggregate)>)
    requires Less(dt, next) && Increasing(rest, next)
    ensures Increasing([(dt, value)] + rest, dt)
  {
    var e := [(dt, value)] + rest;
    forall i | 0 < i < |e|
      ensures Less(dt, e[i].0)
    {
      assert e[i] == rest[i - 1];
    }
    forall i, j | 0 <= i < j < |e|
      ensures Less(e[i].0, e[j].0)
    {
      if i > 0 {
        assert e[i] == rest[i - 1] && e[j] == rest[j - 1];
      }
    }
  }

  /** Putting the day before `next` in front of consecutive days from `next`
      keeps the days consecutive. */
  lemma PrependKeepsDays(dt: Date, value: Aggregate, next: Date, rest: seq<(Date, Aggregate)>)
    requires Ordinal(next) == Ordinal(dt) + 1 && Consecutive(rest, next)
    ensures Consecutive([(dt, value)] + rest, dt)
  {
    var e := [(dt, value)] + rest;
    forall i | 0 < i < |e|
      ensures Ordinal(e[i].0) == Ordinal(dt) + i
    {
      assert e[i] == rest[i - 1];
    }
  }

  /** Dates that advance one step at a time from `from` strictly increase;
      stepping by days they are consecutive day numbers. */
  lemma {:induction false} ChainOrdered(entries: seq<(Date, Aggregate)>, from: Date, interval: string)
    requires IsInterval(interval) && Chain(entries, from, interval)
    ensures Increasing(entries, from)
    ensures interval == "days" ==> Consecutive(entries, from)
    decreases |entries|
  {
    if |entries| > 1 {
      var next := entries[1].0;
      var rest := entries[1..];
      forall i | 0 < i < |rest|
        ensures rest[i].0 == Step(interval, rest[i - 1].0)
      {
        assert rest[i] == entries[i + 1] && rest[i - 1] == entries[i];
      }
      ChainOrdered(rest, next, interval);
      assert entries == [(from, entries[0].1)] + rest;
      PrependKeepsOrder(from, entries[0].1, next, rest);
      if interval == "days" {
        PrependKeepsDays(from, entries[0].1, next, rest);
      }
    }
  }

  /** One more iteration in front of a series from the next cursor gives a
      series from the current one. */
  lemma PrependKeepsSeries(s: Stats, dt: Date, end: Date, interval: string, dateField: string,
                           aggregateField: Target, aggregateClass: AggregateClass,
                           value: Aggregate, next: Date, rest: seq<(Date, Aggregate)>)
    requires IsInterval(interval) && Less(dt, end) && next == Step(interval, dt)
    requires Dispatch(s, RStrip(interval, 's'), dt, dateField, aggregateField, aggregateClass) == Success(value)
    requires IsSeries(rest, s, next, end, interval, dateField, aggregateField, aggregateClass)
    ensures IsSeries([(dt, value)] + rest, s, dt, end, interval, dateField, aggregateField, aggregateClass)
  {
    var e := [(dt, value)] + rest;
    var unit := RStrip(interval, 's');
    assert Chain(e, dt, interval) by {
      forall i | 0 < i < |e|
        ensures e[i].0 == Step(interval, e[i - 1].0)
      {
        assert e[i] == rest[i - 1];
        if i > 1 {
          assert e[i - 1] == rest[i - 2];
        }
      }
    }
    forall i | 0 <= i < |e|
      ensures Less(e[i].0, end)
      ensures Dispatch(s, unit, e[i].0, dateField, aggregateField, aggregateClass) == Success(e[i].1)
    {
      if i > 0 {
        assert e[i] == rest[i - 1];
      }
    }
    assert |rest| > 0 ==> e[|e| - 1] == rest[|rest| - 1];
  }

  /** A step forward from a date before `end` leaves fewer days to go. */
  lemma StepShrinks(dt: Date, next: Date, end: Date)
    requires Less(dt, end) && Less(dt, next)
    ensures DaysLeft(next, end) < DaysLeft(dt, end)
  {
    LessIffOrdinalLess(dt, end);
    LessIffOrdinalLess(dt, next);
  }

  /** The `while dt < end_date` loop of `time_series`, from cursor `dt`. */
  function Series(s: Stats, dt: Date, end: Date, interval: string, dateField: string,
                  aggregateField: Target, aggregateClass: AggregateClass): (r: Result<seq<(Date, Aggregate)>, Error>)
    requires IsInterval(interval)
    requires Ready(s, dateField) && dateField == DateFieldOf(s, dateField)
    ensures r.Success? ==> IsSeries(r.value, s, dt, end, interval, dateField, aggregateField, aggregateClass)
    ensures r.Failure? ==> r.error == DateOutOfRange || r.error == NoSuchMethod("for_week")
    decreases DaysLeft(dt, end)
  {
    if !Less(dt, end) then
      Success([])
    else
      IntervalStems();
      var value :- Dispatch(s, RStrip(interval, 's'), dt, dateField, aggregateField, aggregateClass);
      var next := Step(interval, dt);
      if next.year > MaxYear then Failure(DateOutOfRange)
      else
        StepShrinks(dt, next, end);
        var rest :- Series(s, next, end, interval, dateField, aggregateField, aggregateClass);
        PrependKeepsSeries(s, dt, end, interval, dateField, aggregateField, aggregateClass, value, next, rest);
        Success([(dt, value)] + rest)
  }

  /** One turn of the loop: when `for_<unit>` at `dt` gives `value`, the step
      stays within range and the loop from the next date completes with
      `rest`, the loop from `dt` completes with `(dt, value)` in front. */
  lemma SeriesStep(s: Stats, dt: Date, end: Date, interval: string, dateField: string,
                   aggregateField: Target, aggregateClass: AggregateClass, next: Date, value: Aggregate,
                   rest: seq<(Date, Aggregate)>)
    requires IsInterval(interval)
    requires Ready(s, dateField) && dateField == DateFieldOf(s, dateField)
    requires Less(dt, end) && next == Step(interval, dt)
    requires Dispatch(s, RStrip(interval, 's'), dt, dateField, aggregateField, aggregateClass) == Success(value)
    requires Series(s, next, end, interval, dateField, aggregateField, aggregateClass) == Success(rest)
    ensures Series(s, dt, end, interval, dateField, aggregateField, aggregateClass) == Success([(dt, value)] + rest)
  {
    StepShrinks(dt, next, end);
  }

  /** No days are left once the cursor has reached `end`; before it, the
      next day is still a representable date with one day fewer left. */
  lemma DaysLeftByDay(dt: Date, end: Date)
    ensures !Less(dt, end) ==> DaysLeft(dt, end) == 0
    ensures Less(dt, end) ==> NextDay(dt).year <= MaxYear && DaysLeft(NextDay(dt), end) == DaysLeft(dt, end) - 1
  {
    LessIffOrdinalLess(dt, end);
    if Less(dt, end) {
      NextDayNotPast(dt, end);
    }
  }

  /** Stepping by days never runs past `end`, so a daily loop always completes,
      with one entry for each day left. */
  lemma {:induction false} DailySeriesLength(s: Stats, dt: Date, end: Date, dateField: string,
                                             aggregateField: Target, aggregateClass: AggregateClass)
    requires Ready(s, dateField) && dateField == DateFieldOf(s, dateField)
    ensures var r := Series(s, dt, end, "days", dateField, aggregateField, aggregateClass);
      r.Success? && |r.value| == DaysLeft(dt, end)
    decreases DaysLeft(dt, end)
  {
    DaysLeftByDay(dt, end);
    if Less(dt, end) {
      var next: Date := NextDay(dt);
      DailySeriesLength(s, next, end, dateField, aggregateField, aggregateClass);
      IntervalStems();
      var value := Dispatch(s, "day", dt, dateField, aggregateField, aggregateClass).value;
      SeriesStep(s, dt, end, "days", dateField, aggregateField, aggregateClass, next, value,
                 Series(s, next, end, "days", dateField, aggregateField, aggregateClass).value);
    }
  }


  /** A monthly or yearly step from a date before `end` stays within year
      `end.year + 1`, so the loop completes whenever `end` lies before the
      last representable year. */
  lemma {:induction false} CoarseSeriesSucceeds(s: Stats, dt: Date, end: Date, interval: string, dateField: string,
                                                aggregateField: Target, aggregateClass: AggregateClass)
    requires interval == "months" || interval == "years"
    requires Ready(s, dateField) && dateField == DateFieldOf(s, dateField)
    requires end.year < MaxYear
    ensures Series(s, dt, end, interval, dateField, aggregateField, aggregateClass).Success?
    decreases DaysLeft(dt, end)
  {
    if Less(dt, end) {
      var next := Step(interval, dt);
      assert next.year <= dt.year + 1 <= end.year + 1;
      LessIffOrdinalLess(dt, end);
      LessIffOrdinalLess(dt, next);
      CoarseSeriesSucceeds(s, next, end, interval, dateField, aggregateField, aggregateClass);
      IntervalStems();
      var value := Dispatch(s, RStrip(interval, 's'), dt, dateField, aggregateField, aggregateClass).value;
      SeriesStep(s, dt, end, interval, dateField, aggregateField, aggregateClass, next, value,
                 Series(s, next, end, interval, dateField, aggregateField, aggregateClass).value);
    }
  }

  /** There is no `for_week`: a weekly loop that runs at all fails at its first step. */
  lemma WeeklySeriesFails(s: Stats, dt: Date, end: Date, dateField: string,
                          aggregateField: Target, aggregateClass: AggregateClass)
    requires Ready(s, dateField) && dateField == DateFieldOf(s, dateField) && Less(dt, end)
    ensures Series(s, dt, end, "weeks", dateField, aggregateField, aggregateClass)
            == Failure(NoSuchMethod("for_week"))
  {
    IntervalStems();
  }

  /** `time_series`: the interval is checked first, then the date field, then
      the queryset; then one entry per step from `start` while before `end`. */
  function TimeSeries(s: Stats, start: Date, end: Date, interval: string, dateField: string,
                      aggregateField: Target, aggregateClass: Option<AggregateClass>)
    : (r: Result<seq<(Date, Aggregate)>, Error>)
    ensures !IsInterval(interval) ==> r == Failure(InvalidInterval)
    ensures IsInterval(interval) && !Ready(s, dateField) ==> r == Failure(ValidationError(s, dateField))
    ensures IsInterval(interval) && Ready(s, dateField) && !Less(start, end) ==> r == Success([])
    ensures r.Success? ==> IsSeries(r.value, s, start, end, interval, DateFieldOf(s, dateField),
                                    TargetOf(s, aggregateField), ClassOf(s, aggregateClass))
    ensures r.Success? ==> forall i :: 0 <= i < |r.value| ==> LessEq(start, r.value[i].0) && Less(r.value[i].0, end)
    ensures r.Success? ==> forall i, j :: 0 <= i < j < |r.value| ==> Less(r.value[i].0, r.value[j].0)
    ensures r.Success? && interval == "days" ==>
              forall i :: 0 <= i < |r.value| ==> Ordinal(r.value[i].0) == Ordinal(start) + i
    ensures interval == "days" && Ready(s, dateField) ==> r.Success? && |r.value| == DaysLeft(start, end)
    ensures interval == "weeks" && Ready(s, dateField) && Less(start, end) ==> r == Failure(NoSuchMethod("for_week"))
    ensures (interval == "months" || interval == "years") && Ready(s, dateField) && end.year < MaxYear ==> r.Success?
    ensures r.Failure? && IsInterval(interval) && Ready(s, dateField) ==>
              r.error == DateOutOfRange || r.error == NoSuchMethod("for_week")
  {
    if !IsInterval(interval) then Failure(InvalidInterval)
    else
      var field := DateFieldOf(s, dateField);
      var target := TargetOf(s, aggregateField);
      var cls := ClassOf(s, aggregateClass);
      :- CheckDateField(field);
      :- CheckQs(s);
      var r := Series(s, start, end, interval, field, target, cls);
      if interval == "days" then
        DailySeriesLength(s, start, end, field, target, cls);
        ChainOrdered(r.value, start, interval);
        r
      else if interval == "weeks" && Less(start, end) then
        WeeklySeriesFails(s, start, end, field, target, cls);
        r
      else if r.Success? then
        ChainOrdered(r.value, start, interval);
        r
      else
        if interval != "weeks" && end.year < MaxYear then
          CoarseSeriesSucceeds(s, start, end, interval, field, target, cls);
          r
        else
          r
  }
}
