# django-qsstats: period statistics over a queryset, in Dafny

This project models `QuerySetStats`, the class at the centre of django-qsstats.
Given a queryset and the name of a date field, it reports aggregates over time:
- a day, a calendar month or a year around a pivot date (`for_day`, `for_month`, `for_year`);
- the same periods around a cached `today` (`this_day`, `this_month`, `this_year`);
- everything before or after a pivot (`until`, `after`, `pivot`);
- a time series of one aggregate per day, month or year (`time_series`).

Two versions are modelled:
- the package version, `qsstats/__init__.py`, with argument validation and the time series;
- the earlier single-file version, `qsstats.py`, which has no validation and always aggregates over `'id'`.

The Django ORM is replaced by a sequence of rows. A row maps field names to dates. A filter keeps the rows whose date field satisfies the lookup, in their original order. The aggregate is not evaluated: the result records the aggregate class, its target and the matched rows. For `Count`, the value is the number of matched rows.

Files:
- `calendar.dfy` (`Calendar`): the proleptic Gregorian calendar of Python's `datetime.date`, years 1 to 9999. It has day numbers (`toordinal`) and the `relativedelta` steps used by the code: `days=1`, `weeks=1`, `months=1`, `years=1` and `day=31`.
- `periods.dfy` (`Periods`): the day, month and year ranges.
- `records.dfy` (`Records`): rows, lookups, filtering and the aggregate call.
- `qsstats.dfy` (`QuerySetStats`): the package class.
- `series.dfy` (`SeriesProperties`): properties of the time series, and properties that relate several calls.
- `legacy.dfy` (`LegacyQuerySetStats`): the single-file version, with a lemma tying it to the package.
- `results.dfy` (`Results`): `Result`, `Outcome` and `Option` wrappers.

Python exceptions become `Failure` values:
- `InvalidInterval`, `InvalidOperator`, `DateFieldMissing` and `QuerySetMissing`;
- `NoSuchMethod("for_week")` for the `AttributeError` of a weekly series;
- `DateOutOfRange` for a step past 31 December 9999.

Python's `None` and `""` are both falsy. The code only tests them with `or` and `not`, so the empty string stands for both.

Three behaviours of the code are easy to misread:
- `if not self.qs` is also true for an empty Django queryset, since evaluating an empty queryset gives a falsy value. An empty table therefore raises `QuerySetMissing` rather than returning a zero count.
- `'weeks'` passes the interval check, but `for_week` does not exist. A non-empty weekly series fails on its first step, before any aggregate query.
- `this_month` does not behave like `for_month` at `today` (see Findings).

## Model

| member | source | states |
|---|---|---|
| Calendar.DaysInMonth | qsstats/__init__.py:67 | a month has 28 to 31 days; February has 29 exactly in a Gregorian leap year |
| Calendar.WithDay | qsstats/__init__.py:67 | `relativedelta(day=n)` keeps the year and month and gives a real calendar day no later than day n; when it clamps, the result is the last day of the month |
| Calendar.NextDay | qsstats/__init__.py:107 | the one-day step gives a real calendar day that is later and whose day number is exactly one more |
| Calendar.MonthEndOrdinal | qsstats/__init__.py:107 | the first of the next month is the day after the last day of any month but December |
| Calendar.YearEndOrdinal | qsstats/__init__.py:107 | 1 January is the day after 31 December of the year before |
| Calendar.NextDayNotPast | qsstats/__init__.py:103-107 | the day after a date that is before `end` is at most `end`: the daily step never overshoots |
| Calendar.AddDays | qsstats/__init__.py:107 | the n-day step (7 for `weeks=1`) advances the day number by exactly n |
| Calendar.AddMonth | qsstats/__init__.py:107 | the one-month step lands in the next month, is later, and clamps the day to that month's length, never increasing it |
| Calendar.AddYear | qsstats/__init__.py:107 | the one-year step keeps the month, adds one to the year, is later, and only clamps to the month's last day |
| Calendar.AddYearClampsOnlyLeapDay | qsstats/__init__.py:107 | the one-year step changes the day exactly when the date is 29 February (which becomes 28 February) |
| Calendar.LessIffOrdinalLess | qsstats/__init__.py:103 | Python's date comparison in `dt < end_date` agrees with day-number order, in both directions |
| Calendar.OrdinalInjective | qsstats/__init__.py:103 | distinct dates have distinct day numbers |
| Calendar.LeapDaysStep | qsstats/__init__.py:107 | counting one more year adds one to y/4 - y/100 + y/400 exactly when that year is a Gregorian leap year |
| Calendar.DaysBeforeYearClosedForm | qsstats/__init__.py:107 | the day count before a year equals the closed form 365(y-1) + (y-1)/4 - (y-1)/100 + (y-1)/400 of the proleptic Gregorian calendar |
| Calendar.DaysBeforeMonthGrows | qsstats/__init__.py:103 | a later month of the same year starts after an earlier month ends |
| Calendar.DaysBeforeYearGrows | qsstats/__init__.py:103 | a later year starts after an earlier year ends |
| Calendar.OrdinalWithinYear | qsstats/__init__.py:103 | every day of a year gets a day number inside that year's block |
| Calendar.MonthsFillYear | qsstats/__init__.py:81-82 | the twelve month lengths add up to 365, or 366 in a leap year |
| Periods.DayBounds | qsstats/__init__.py:47-51 | the one-day period contains `dt` and no other date |
| Periods.MonthBounds | qsstats/__init__.py:66-67 | the month range starts on the 1st of `dt`'s month, ends in the same month, is ordered and contains `dt` |
| Periods.YearBounds | qsstats/__init__.py:81-82 | the year range lies in `dt`'s year, is ordered and contains `dt` |
| Periods.MonthBoundsEndsMonth | qsstats/__init__.py:67 | the month range's last day is the month's length, and the day after it is the 1st of the next month |
| Periods.MonthBoundsExact | qsstats/__init__.py:66-68 | a date lies in the month range exactly when it has the same year and month as `dt` |
| Periods.YearBoundsExact | qsstats/__init__.py:81-83 | a date lies in the year range exactly when it has the same year as `dt` |
| Periods.YearIsTwelveMonths | qsstats/__init__.py:81-82 | the year range starts where January's range starts and ends where December's ends |
| Periods.MonthBoundsLength | qsstats/__init__.py:66-67 | the month range spans exactly as many days as the month has |
| Periods.YearBoundsLength | qsstats/__init__.py:81-82 | the year range spans 366 days in a leap year and 365 otherwise |
| Records.Select | qsstats/__init__.py:52 | `filter` keeps each row exactly as many times as it occurs when the row matches the lookup, and drops it otherwise |
| Records.Query | qsstats/__init__.py:144-147 | an aggregate call records its class and target; it matches each row that carries the field and passes the lookup as many times as the row occurs, and no other row; a `Count` reports the number of rows that pass, counted one by one |
| Records.SelectCountsHits | qsstats/__init__.py:144-147 | the filtered queryset holds exactly as many rows as pass the lookup |
| Records.OrElse | qsstats/__init__.py:40 | `value or fallback` gives the value when it is truthy and the fallback otherwise; the result is falsy only if both are |
| Records.TargetOrElse | qsstats/__init__.py:42 | `aggregate_field or self.aggregate_field` falls back exactly when the field name is absent: class objects are truthy |
| Records.ExactIsDayRange | qsstats/__init__.py:47-52 | `for_day`'s year/month/day equality filter selects the same rows as a range over the one-day period |
| Records.LteGtSplit | qsstats/__init__.py:132-137 | `lte` and `gt` at one pivot together count every row carrying the field exactly once |
| Records.LtGteSplit | qsstats/__init__.py:132-137 | `lt` and `gte` at one pivot together count every row carrying the field exactly once |
| QuerySetStats.New | qsstats/__init__.py:27-35 | each of aggregate field, class and operator comes from a truthy argument, otherwise from the setting when it is defined (even a falsy one), otherwise from the default `'id'`, `Count`, `'lte'`; `today` is the injected current date |
| QuerySetStats.UpdateToday | qsstats/__init__.py:141-142 | the refresh replaces the cached `today` and nothing else |
| QuerySetStats.CheckDateField | qsstats/__init__.py:149-151 | raises `DateFieldMissing` exactly when the date field is falsy |
| QuerySetStats.CheckQs | qsstats/__init__.py:153-155 | raises `QuerySetMissing` exactly when the queryset is `None` or empty |
| QuerySetStats.GetAggregate | qsstats/__init__.py:144-147 | aggregates the rows whose date field lies in the closed range `[first, last]`, each as many times as it occurs in the queryset |
| QuerySetStats.ForDay | qsstats/__init__.py:39-53 | succeeds exactly when both checks pass, otherwise raises the date-field error first; matches exactly the rows dated `dt`, each as many times as it occurs in the queryset; applies the override-or-default class and target |
| QuerySetStats.ThisDay | qsstats/__init__.py:55-56 | is `for_day` at the cached `today`: it matches the rows dated `today`, each as many times as it occurs in the queryset |
| QuerySetStats.ForMonth | qsstats/__init__.py:58-68 | succeeds exactly when both checks pass, with the same error order; matches exactly the rows in `dt`'s calendar month, each as many times as it occurs in the queryset |
| QuerySetStats.ThisMonth | qsstats/__init__.py:70-71 | as written: matches the rows in `today`'s month, each as many times as it occurs in the queryset, but always uses the instance's class, and targets the caller's class object (or the instance's field) |
| QuerySetStats.ThisMonthIntended | qsstats/__init__.py:70-71 | corrected: `for_month` at `today` honouring both overrides |
| QuerySetStats.ThisMonthSlip | qsstats/__init__.py:70-71 | with an overriding class, `this_month` ignores it and aggregates over the class object, where the corrected version honours it |
| QuerySetStats.ForYear | qsstats/__init__.py:73-83 | succeeds exactly when both checks pass, with the same error order; matches exactly the rows in `dt`'s year, each as many times as it occurs in the queryset |
| QuerySetStats.ThisYear | qsstats/__init__.py:85-86 | is `for_year` at the cached `today`: it matches the rows in `today`'s year, each as many times as it occurs in the queryset |
| QuerySetStats.ParseOperator | qsstats/__init__.py:132-133 | accepts exactly `lt`, `lte`, `gt` and `gte`, and the accepted comparison's name is the input; anything else raises `InvalidOperator` |
| QuerySetStats.OperatorNameRoundTrip | qsstats/__init__.py:132-135 | every comparison's lookup name is accepted back as that comparison |
| QuerySetStats.Pivot | qsstats/__init__.py:124-138 | the date-field and queryset checks come before the operator check; an absent operator falls back to the instance's; matches exactly the rows whose date compares to `dt`, each as many times as it occurs in the queryset |
| QuerySetStats.Until | qsstats/__init__.py:112-113 | never raises `InvalidOperator`; applies the override-or-default class and target; matches exactly the rows dated on or before `dt`, each as many times as it occurs in the queryset |
| QuerySetStats.After | qsstats/__init__.py:118-119 | never raises `InvalidOperator`; applies the override-or-default class and target; matches exactly the rows dated on or after `dt`, each as many times as it occurs in the queryset |
| QuerySetStats.UntilNow | qsstats/__init__.py:115-116 | is `until` at the injected current instant |
| QuerySetStats.AfterNow | qsstats/__init__.py:121-122 | is `after` at the injected current instant |
| QuerySetStats.RStrip | qsstats/__init__.py:105 | `rstrip` gives a prefix without a trailing stripped character, and removes only that character |
| QuerySetStats.IntervalStems | qsstats/__init__.py:105 | the four intervals strip to `day`, `week`, `month`, `year`, and the weekly method is `for_week` |
| QuerySetStats.Step | qsstats/__init__.py:107 | each interval step gives a real, strictly later calendar day |
| QuerySetStats.Dispatch | qsstats/__init__.py:105-106 | `day`, `month` and `year` call `for_day`, `for_month` and `for_year` with the series' field, target and class; any other name raises `NoSuchMethod`; an existing one succeeds exactly when the checks pass |
| QuerySetStats.Series | qsstats/__init__.py:101-108 | a completed loop yields a series: it starts at the cursor, every date is before `end`, each is one step after the previous one, the step after the last reaches `end`, and each value is `for_<unit>` at its date; the loop fails only on a missing `for_week` or on running past year 9999 |
| QuerySetStats.TimeSeries | qsstats/__init__.py:90-108 | an invalid interval raises before anything else; then the checks run; an empty range gives `[]`; the dates lie in `[start, end)` and strictly increase, start at `start`, each is one step after the previous one, and the step after the last reaches `end`; each value is `for_<unit>` at its date; a daily series has one entry per day of the range, the i-th being `start` plus i days; a non-empty weekly range raises `NoSuchMethod("for_week")`; monthly and yearly series complete when `end` lies before year 9999; once the checks pass, the only errors are the missing `for_week` and `DateOutOfRange` |
| QuerySetStats.ChainOrdered | qsstats/__init__.py:103-107 | dates that advance one interval step at a time from a cursor never fall before it and strictly increase; stepping by days they are consecutive day numbers |
| QuerySetStats.PrependKeepsSeries | qsstats/__init__.py:103-107 | one iteration at the cursor, followed by a series from the next cursor, is a series from the current cursor |
| QuerySetStats.StepShrinks | qsstats/__init__.py:103-107 | a step forward from a date before `end` leaves strictly fewer days to go, so the loop terminates |
| QuerySetStats.SeriesStep | qsstats/__init__.py:103-108 | when the loop from the next date completes, the loop from a date before `end` completes with the current entry in front |
| QuerySetStats.DaysLeftByDay | qsstats/__init__.py:103-107 | no days are left once the cursor reaches `end`; before it, the next day is still representable and leaves one day fewer |
| QuerySetStats.DailySeriesLength | qsstats/__init__.py:103-107 | stepping by days never runs past `end`, so the daily loop completes with one entry per day left |
| QuerySetStats.CoarseSeriesSucceeds | qsstats/__init__.py:103-108 | monthly and yearly steps from a date before `end` stay within year `end.year + 1`, so the loop completes when `end` lies before year 9999 |
| QuerySetStats.WeeklySeriesFails | qsstats/__init__.py:104-105 | the weekly loop, once it runs at all, fails at its first `getattr` because there is no `for_week` |
| QuerySetStats.PrependKeepsOrder | qsstats/__init__.py:103-107 | recording the current date before the dates of later iterations keeps the dates increasing |
| QuerySetStats.PrependKeepsDays | qsstats/__init__.py:103-107 | recording the current day before the consecutive days of later iterations keeps them consecutive |
| SeriesProperties.MonthlyChain | qsstats/__init__.py:107 | dates that advance one month at a time fall in consecutive months, and their day never grows |
| SeriesProperties.YearlyChain | qsstats/__init__.py:107 | dates that advance one year at a time keep the month, fall in consecutive years, and their day never grows |
| SeriesProperties.DailySeriesValues | qsstats/__init__.py:101-108 | the value at each date of a daily series is exactly what `for_day` gives at that date |
| SeriesProperties.MonthlySeriesValues | qsstats/__init__.py:101-108 | the value at each date of a monthly series is exactly what `for_month` gives at that date |
| SeriesProperties.YearlySeriesValues | qsstats/__init__.py:101-108 | the value at each date of a yearly series is exactly what `for_year` gives at that date |
| SeriesProperties.DailySeriesCoversRange | qsstats/__init__.py:90-108 | once the checks pass, a daily series has exactly one entry for each day of `[start, end)` |
| SeriesProperties.MonthlySeriesMonths | qsstats/__init__.py:101-108 | the i-th date of a monthly series is i months after `start`, with a day that never grows |
| SeriesProperties.YearlySeriesYears | qsstats/__init__.py:101-108 | the i-th date of a yearly series is the same month i years after `start`, with a day that never grows |
| SeriesProperties.IntervalCheckedFirst | qsstats/__init__.py:90-99 | a bad interval raises `InvalidInterval` even when the field and queryset are missing and the range is empty |
| SeriesProperties.ValidationBeforeQuery | qsstats/__init__.py:40-45 | without both checks passing, every period and pivot operation raises the same error, the date-field error taking precedence |
| SeriesProperties.UntilAndGtSplitRows | qsstats/__init__.py:112-138 | `until(dt)` and `pivot(dt, 'gt')` together count each row carrying the date field exactly once |
| SeriesProperties.OneRecordToday | qsstats/__init__.py:112-119 | with one record dated today, `until(today)` and `after(today)` match it and `until` at any earlier date does not |
| SeriesProperties.RefreshMovesThis | qsstats/__init__.py:141-142 | after `update_today(d)`, `this_day`, the corrected `this_month` and `this_year` are the `for_*` operations at `d` |
| LegacyQuerySetStats.New | qsstats.py:9-13 | the constructor keeps the queryset and date field and caches the injected `today` |
| LegacyQuerySetStats.UpdateToday | qsstats.py:52-53 | the refresh replaces `today` and nothing else |
| LegacyQuerySetStats.GetAggregate | qsstats.py:55-58 | aggregates over `'id'` the rows in `[first, last]`, each as many times as it occurs in the queryset |
| LegacyQuerySetStats.ForDay | qsstats.py:17-25 | matches exactly the rows dated `dt`, each as many times as it occurs in the queryset, always over `'id'`, with no validation |
| LegacyQuerySetStats.ThisDay | qsstats.py:27-29 | resolving the field first changes nothing: it is `for_day` at `today` |
| LegacyQuerySetStats.ForMonth | qsstats.py:31-36 | matches exactly the rows in `dt`'s calendar month, each as many times as it occurs in the queryset, over `'id'` |
| LegacyQuerySetStats.ThisMonth | qsstats.py:38-39 | uses the given class over `'id'` and matches exactly the rows in `today`'s calendar month, each as many times as it occurs in the queryset; the date field falls back to the instance's |
| LegacyQuerySetStats.ForYear | qsstats.py:41-46 | matches exactly the rows in `dt`'s year, each as many times as it occurs in the queryset, over `'id'` |
| LegacyQuerySetStats.ThisYear | qsstats.py:48-49 | uses the given class over `'id'` and matches exactly the rows in `today`'s year, each as many times as it occurs in the queryset; the date field falls back to the instance's |
| LegacyQuerySetStats.AsPackage | qsstats.py:9-13 | the package instance with the same queryset, date field and `today`, aggregating over `'id'` |
| LegacyQuerySetStats.AgreesWithPackage | qsstats.py:17-46 | where the package's checks pass, the legacy `for_day`, `for_month` and `for_year` give exactly the package's results over `'id'` |

## Left out

- Django query execution: `filter` is a selection over a sequence of rows. Aggregates are not evaluated, and non-`Count` classes are opaque tokens. `Count(field)` is taken as a row count, so null values of the field are not excluded.
- Field resolution errors: Django raises `FieldError` for an unknown field name. In the model, a row without the field matches nothing. This also covers the single-file version's `'None__year'` keys when no date field is given.
- Collaborator failures, which propagate unchanged in the source, are not modelled.
- Date versus datetime: pivots, periods and series bounds are dates. On a `DateTimeField`, the range `[first, last]` drops records later than midnight on the last day; that effect is not modelled.
- `until_now` and `after_now` take the current instant as an injected date. Instant resolution is not modelled.
- The system clock (`datetime.date.today`, `datetime.datetime.now`) and the `django.conf.settings` lookups are parameters.
- The `__main__` demo of `qsstats.py` is printing only.
- Concurrency around `update_today` is not modelled: the model is sequential.
- The single-file constructor with `qs=None` fails with an `AttributeError` on first use. Its queryset is always a sequence here.
- QuerySetStats.Series: the contract bounds the errors to `DateOutOfRange` and the missing `for_week`. It does not say when a monthly or yearly loop completes; `CoarseSeriesSucceeds` states that separately for `end` before year 9999.
- QuerySetStats.TimeSeries: for monthly and yearly ranges whose `end` lies in year 9999, the contract does not say whether the loop completes or raises `DateOutOfRange`. Only that the error is then `DateOutOfRange` is stated.
- Records.Select: the contract states multiplicities, not the relative order of the kept rows. Order does not affect an aggregate.

## Findings

| source | as written | input that shows it | evidently intended | confidence | as-written member | corrected member |
|---|---|---|---|---|---|---|
| qsstats/__init__.py:70-71 | `this_month` calls `for_month(self.today, date_field, aggregate_class)`, so the class lands in the `aggregate_field` slot and the caller's `aggregate_field` is dropped | `this_month(aggregate_field='id', aggregate_class=Max)` on an instance whose class is `Count` aggregates `Count(Max)` over the month instead of `Max('id')` | pass `aggregate_field` and `aggregate_class` through as `this_day` and `this_year` do | high; not executed | QuerySetStats.ThisMonth | QuerySetStats.ThisMonthIntended |
