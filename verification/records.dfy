/** The record store as the statistics code sees it: rows carrying named date
    fields, the three lookup shapes it filters with, and the aggregate call
    it hands the filtered rows to. */
module Records {
  import opened Calendar
  import opened Periods

  /** One record: its date-valued fields by name. */
  type Row = map<string, Date>

  /** The aggregate class: Django's `Count`, or any other class, passed
      through as an opaque token. */
  datatype AggregateClass = Count | Named(name: string)

  /** What the aggregate class is applied to. It is normally a field name
      (`""` stands for Python's `None`); `this_month` can put a class object
      there instead. */
  datatype Target = Field(name: string) | ClassObject(cls: AggregateClass)

  /** The comparison lookups `pivot` accepts. */
  datatype Comparison = Lt | Lte | Gt | Gte

  /** Python's `value or fallback` on a string argument, where `""` also
      stands for `None`: both are falsy. */
  function OrElse(value: string, fallback: string): (r: string)
    ensures r == value || r == fallback
    ensures r == "" ==> value == "" && fallback == ""
    ensures value != "" ==> r == value
  {
    if value != "" then value else fallback
  }

  /** Python's `value or fallback` on an aggregate target. Class objects are
      truthy; only the empty (or absent) field name falls back. */
  function TargetOrElse(value: Target, fallback: Target): (r: Target)
    ensures r == value || r == fallback
    ensures value != Field("") ==> r == value
    ensures value == Field("") ==> r == fallback
  {
    if value != Field("") then value else fallback
  }

  /** The three filter shapes the statistics code builds on a date field:
      `__year/__month/__day` equality, `__range`, and one comparison. */
  datatype Lookup =
    | Exact(year: int, month: int, day: int)
    | Range(period: Period)
    | Compare(op: Comparison, pivot: Date)

  /** `<field>__<op>` with the pivot on the right-hand side. */
  predicate Compares(op: Comparison, v: Ymd, pivot: Ymd) {
    match op
    case Lt => Less(v, pivot)
    case Lte => LessEq(v, pivot)
    case Gt => Less(pivot, v)
    case Gte => LessEq(pivot, v)
  }

  predicate Matches(lookup: Lookup, v: Ymd) {
    match lookup
    case Exact(y, m, d) => v.year == y && v.month == m && v.day == d
    case Range(p) => Contains(p, v)
    case Compare(op, pivot) => Compares(op, v, pivot)
  }

  /** Row `row` survives `filter(<field>__<lookup>)`. */
  predicate Hit(row: Row, field: string, lookup: Lookup) {
    field in row && Matches(lookup, row[field])
  }

  /** `qs.filter(...)`: the rows that pass the lookup, in their original order. */
  function Select(rows: seq<Row>, field: string, lookup: Lookup): (r: seq<Row>)
    ensures |r| <= |rows|
    ensures forall x :: multiset(r)[x] == if Hit(x, field, lookup) then multiset(rows)[x] else 0
  {
    if |rows| == 0 then []
    else
      assert rows == [rows[0]] + rows[1..];
      (if Hit(rows[0], field, lookup) then [rows[0]] else []) + Select(rows[1..], field, lookup)
  }

  /** The result of `.aggregate(agg=cls(target))` on the filtered rows. The
      model does not evaluate aggregates: it keeps the call and the rows it
      ran over. For `Count` the value is the number of matched rows. */
  datatype Aggregate = Aggregate(cls: AggregateClass, target: Target, matched: seq<Row>)

  /** The value a `Count` aggregate reports. */
  function CountOf(a: Aggregate): nat
    requires a.cls == Count
  {
    |a.matched|
  }

  /** Number of rows of `rows` that pass the lookup, counted one by one. */
  function CountHits(rows: seq<Row>, field: string, lookup: Lookup): nat {
    if |rows| == 0 then 0
    else (if Hit(rows[0], field, lookup) then 1 else 0) + CountHits(rows[1..], field, lookup)
  }

  /** The filter keeps exactly as many rows as pass the lookup. */
  lemma {:induction false} SelectCountsHits(rows: seq<Row>, field: string, lookup: Lookup)
    ensures |Select(rows, field, lookup)| == CountHits(rows, field, lookup)
  {
    if |rows| > 0 {
      SelectCons(rows, field, lookup);
      SelectCountsHits(rows[1..], field, lookup);
    }
  }

  /** One `filter(...).aggregate(...)` call on `rows`: each row that passes
      the lookup is matched as often as it occurs, and a `Count` reports the
      number of rows that pass. */
  function Query(rows: seq<Row>, field: string, lookup: Lookup, cls: AggregateClass, target: Target): (a: Aggregate)
    ensures a.cls == cls && a.target == target
    ensures forall x :: x in a.matched <==> x in rows && Hit(x, field, lookup)
    ensures forall x :: multiset(a.matched)[x] == if Hit(x, field, lookup) then multiset(rows)[x] else 0
    ensures cls == Count ==> CountOf(a) == CountHits(rows, field, lookup)
  {
    SelectCountsHits(rows, field, lookup);
    Aggregate(cls, target, Select(rows, field, lookup))
  }

  /** The `__year/__month/__day` filter of `for_day` and the `__range` filter
      over the one-day period select the same rows. */
  lemma ExactIsDayRange(rows: seq<Row>, field: string, dt: Date)
    ensures Select(rows, field, Exact(dt.year, dt.month, dt.day)) == Select(rows, field, Range(DayBounds(dt)))
  {
    if |rows| > 0 {
      ExactIsDayRange(rows[1..], field, dt);
    }
  }

  /** Number of rows that carry `field` at all. */
  function CountWithField(rows: seq<Row>, field: string): nat {
    if |rows| == 0 then 0
    else (if field in rows[0] then 1 else 0) + CountWithField(rows[1..], field)
  }

  /** One step of `Select`: the head row, if it hits, followed by the selection of the tail. */
  lemma SelectCons(rows: seq<Row>, field: string, lookup: Lookup)
    requires |rows| > 0
    ensures |Select(rows, field, lookup)|
            == (if Hit(rows[0], field, lookup) then 1 else 0) + |Select(rows[1..], field, lookup)|
  {
  }

  /** Every row carrying the field is matched by `lte` or by `gt` at the same
      pivot, and never by both. */
  lemma {:induction false} LteGtSplit(rows: seq<Row>, field: string, pivot: Date)
    ensures |Select(rows, field, Compare(Lte, pivot))| + |Select(rows, field, Compare(Gt, pivot))|
            == CountWithField(rows, field)
  {
    if |rows| > 0 {
      SelectCons(rows, field, Compare(Lte, pivot));
      SelectCons(rows, field, Compare(Gt, pivot));
      LteGtSplit(rows[1..], field, pivot);
    }
  }

  /** Every row carrying the field is matched by `lt` or by `gte` at the same
      pivot, and never by both. */
  lemma {:induction false} LtGteSplit(rows: seq<Row>, field: string, pivot: Date)
    ensures |Select(rows, field, Compare(Lt, pivot))| + |Select(rows, field, Compare(Gte, pivot))|
            == CountWithField(rows, field)
  {
    if |rows| > 0 {
      SelectCons(rows, field, Compare(Lt, pivot));
      SelectCons(rows, field, Compare(Gte, pivot));
      LtGteSplit(rows[1..], field, pivot);
    }
  }
}
