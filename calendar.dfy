/** Proleptic Gregorian calendar dates as Python's `datetime.date` has them:
    years 1..9999, month lengths with leap years, the natural order, the day
    number `toordinal` counts, and the `relativedelta(months=k, days=-1)` step the
    date-token resolver uses to find the end of a month or a quarter. */
module Calendar {
  import opened Wrappers

  datatype Date = Date(year: int, month: int, day: int)

  const MinYear := 1
  const MaxYear := 9999

  predicate IsLeapYear(y: int)
  {
    y % 4 == 0 && (y % 100 != 0 || y % 400 == 0)
  }

  function DaysInMonth(y: int, m: int): int
    requires 1 <= m <= 12
  {
    if m == 2 then (if IsLeapYear(y) then 29 else 28)
    else if m == 4 || m == 6 || m == 9 || m == 11 then 30
    else 31
  }

  function YearLength(y: int): int
  {
    if IsLeapYear(y) then 366 else 365
  }

  /** What the `date(year, month, day)` constructor accepts without a ValueError. */
  predicate ValidDate(d: Date)
  {
    MinYear <= d.year <= MaxYear && 1 <= d.month <= 12 && 1 <= d.day <= DaysInMonth(d.year, d.month)
  }

  /** `a < b` on dates: year, then month, then day. */
  predicate Before(a: Date, b: Date)
  {
    a.year < b.year || (a.year == b.year && (a.month < b.month || (a.month == b.month && a.day < b.day)))
  }

  /** `a <= b` on dates. */
  predicate NotAfter(a: Date, b: Date)
  {
    !Before(b, a)
  }

  /** `min(a, b)` on dates, the clipping the resolver applies to an end date. */
  function Earlier(a: Date, b: Date): (r: Date)
    ensures NotAfter(r, a) && NotAfter(r, b)
    ensures r == a || r == b
  {
    if Before(b, a) then b else a
  }

  /** Days in the years before `y`, counted from 0001-01-01 as `toordinal` does. */
  function DaysBeforeYear(y: int): int
    requires y >= 1
  {
    var p := y - 1;
    p * 365 + p / 4 - p / 100 + p / 400
  }

  /** Days in the months of year `y` before month `m`. */
  function DaysBeforeMonth(y: int, m: int): int
    requires 1 <= m <= 12
  {
    [0, 31, 59, 90, 120, 151, 181, 212, 243, 273, 304, 334][m - 1]
      + (if m > 2 && IsLeapYear(y) then 1 else 0)
  }

  /** `date.toordinal()`: 0001-01-01 is day 1. `(b - a).days` is `DayNumber(b) - DayNumber(a)`. */
  function DayNumber(d: Date): int
    requires ValidDate(d)
  {
    DaysBeforeYear(d.year) + DaysBeforeMonth(d.year, d.month) + d.day
  }

  lemma YearStep(y: int)
    requires y >= 1
    ensures DaysBeforeYear(y + 1) == DaysBeforeYear(y) + YearLength(y)
  {
    var p := y - 1;
    assert (p + 1) / 4 == p / 4 + (if y % 4 == 0 then 1 else 0);
    assert (p + 1) / 100 == p / 100 + (if y % 100 == 0 then 1 else 0);
    assert (p + 1) / 400 == p / 400 + (if y % 400 == 0 then 1 else 0);
  }

  /** Every later year starts after the whole of an earlier one. */
  lemma {:induction false} YearsAscend(y1: int, y2: int)
    requires 1 <= y1 < y2
    ensures DaysBeforeYear(y1) + YearLength(y1) <= DaysBeforeYear(y2)
    decreases y2 - y1
  {
    YearStep(y1);
    if y1 + 1 < y2 {
      YearsAscend(y1 + 1, y2);
    }
  }

  lemma MonthsAscend(y: int, m1: int, m2: int)
    requires 1 <= m1 < m2 <= 12
    ensures DaysBeforeMonth(y, m1) + DaysInMonth(y, m1) <= DaysBeforeMonth(y, m2)
  {
  }

  lemma MonthsFillYear(y: int, m: int)
    requires 1 <= m <= 12
    ensures DaysBeforeMonth(y, m) + DaysInMonth(y, m) <= YearLength(y)
  {
  }

  /** The day number is an order isomorphism: the calendar order on valid dates
      is exactly the integer order of their day numbers. */
  lemma DayNumberOrder(a: Date, b: Date)
    requires ValidDate(a) && ValidDate(b)
    ensures Before(a, b) <==> DayNumber(a) < DayNumber(b)
    ensures a == b <==> DayNumber(a) == DayNumber(b)
  {
    if a.year < b.year {
      MonthsFillYear(a.year, a.month);
      YearsAscend(a.year, b.year);
    } else if b.year < a.year {
      MonthsFillYear(b.year, b.month);
      YearsAscend(b.year, a.year);
    } else if a.month < b.month {
      MonthsAscend(a.year, a.month, b.month);
    } else if b.month < a.month {
      MonthsAscend(a.year, b.month, a.month);
    }
  }

  /** Months counted from year 0, so that consecutive months differ by one. */
  function MonthIndex(d: Date): int
  {
    d.year * 12 + d.month - 1
  }

  /** The day before a valid date whose year is at least 2 or that is not January 1. */
  function PreviousDay(d: Date): (r: Date)
    requires ValidDate(d) && (d.year > MinYear || d.month > 1 || d.day > 1)
    ensures ValidDate(r) && DayNumber(r) + 1 == DayNumber(d)
  {
    if d.day > 1 then Date(d.year, d.month, d.day - 1)
    else if d.month > 1 then
      Date(d.year, d.month - 1, DaysInMonth(d.year, d.month - 1))
    else
      YearStep(d.year - 1);
      Date(d.year - 1, 12, 31)
  }

  /** `d + relativedelta(months=k, days=-1)`: move `k` months ahead (carrying into
      the next year past December), keep the day clamped to the month's length,
      then step back one day. It is `None` where Python raises ValueError because the
      year after the carry is beyond 9999. */
  function AddMonthsLessOneDay(d: Date, k: int): (r: Option<Date>)
    requires ValidDate(d) && 1 <= k <= 12
    ensures r.Some? <==> MonthIndex(d) + k <= MonthIndex(Date(MaxYear, 12, 1))
    ensures r.Some? ==> ValidDate(r.value)
    ensures r.Some? && d.day == 1 ==>
      MonthIndex(r.value) == MonthIndex(d) + k - 1 && r.value.day == DaysInMonth(r.value.year, r.value.month)
  {
    var m := d.month + k;
    var (year, month) := if m > 12 then (d.year + 1, m - 12) else (d.year, m);
    if year > MaxYear then None
    else
      var day := if d.day < DaysInMonth(year, month) then d.day else DaysInMonth(year, month);
      Some(PreviousDay(Date(year, month, day)))
  }

  /** The last day of month `m` of year `y`. */
  function LastDayOfMonth(y: int, m: int): Date
    requires 1 <= m <= 12
  {
    Date(y, m, DaysInMonth(y, m))
  }
}
