/**
  Calendar dates as Python's `datetime.date` sees them: a (year, month, day)
  triple of the proleptic Gregorian calendar, compared lexicographically,
  with differences in days taken through the day ordinal of `date.toordinal()`
  (0001-01-01 is day 1).
 */
module Dates {

  datatype Date = Date(year: int, month: int, day: int)

  predicate IsLeapYear(y: int) {
    y % 4 == 0 && (y % 100 != 0 || y % 400 == 0)
  }

  /** Reference table of month lengths. */
  function MonthLength(y: int, m: int): (n: int)
    requires 1 <= m <= 12
    ensures 28 <= n <= 31
  {
    if m == 2 then (if IsLeapYear(y) then 29 else 28)
    else if m == 4 || m == 6 || m == 9 || m == 11 then 30
    else 31
  }

  /** A value `datetime.date` accepts (the upper bound 9999 is not modelled). */
  predicate Valid(d: Date) {
    1 <= d.year && 1 <= d.month <= 12 && 1 <= d.day <= MonthLength(d.year, d.month)
  }

  /** `a <= b` on `datetime.date`: lexicographic on (year, month, day). */
  predicate Le(a: Date, b: Date) {
    a.year < b.year
    || (a.year == b.year && a.month < b.month)
    || (a.year == b.year && a.month == b.month && a.day <= b.day)
  }

  predicate Lt(a: Date, b: Date) {
    Le(a, b) && a != b
  }

  function Max(a: Date, b: Date): Date {
    if Le(b, a) then a else b
  }

  function Min(a: Date, b: Date): Date {
    if Le(a, b) then a else b
  }

  function DaysBeforeYear(y: int): int
    requires 1 <= y
  {
    var p := y - 1;
    365 * p + p / 4 - p / 100 + p / 400
  }

  function DaysBeforeMonth(y: int, m: int): int
    requires 1 <= m <= 12
  {
    var table := [0, 31, 59, 90, 120, 151, 181, 212, 243, 273, 304, 334];
    table[m - 1] + (if m > 2 && IsLeapYear(y) then 1 else 0)
  }

  /** `date.toordinal()`. */
  function Ordinal(d: Date): int
    requires Valid(d)
  {
    DaysBeforeYear(d.year) + DaysBeforeMonth(d.year, d.month) + d.day
  }

  /** `(b - a).days`. */
  function DaysBetween(a: Date, b: Date): int
    requires Valid(a) && Valid(b)
  {
    Ordinal(b) - Ordinal(a)
  }

  lemma DaysBeforeMonthStep(y: int, m: int)
    requires 1 <= m < 12
    ensures DaysBeforeMonth(y, m + 1) == DaysBeforeMonth(y, m) + MonthLength(y, m)
  {
  }

  lemma {:induction false} YearLength(y: int)
    requires 1 <= y
    ensures DaysBeforeYear(y + 1) - DaysBeforeYear(y) == (if IsLeapYear(y) then 366 else 365)
    ensures DaysBeforeYear(y + 1) - DaysBeforeYear(y) == DaysBeforeMonth(y, 12) + MonthLength(y, 12)
  {
    DivStep(y, 4);
    DivStep(y, 100);
    DivStep(y, 400);
  }

  /** Stepping from `y - 1` to `y` adds one to `y / k` exactly when `k` divides `y`, for the divisors of the leap-year rule. */
  lemma DivStep(y: int, k: int)
    requires 1 <= y && (k == 4 || k == 100 || k == 400)
    ensures y / k == (y - 1) / k + (if y % k == 0 then 1 else 0)
  {
  }

  lemma {:induction false} DaysBeforeYearGrows(y1: int, y2: int)
    requires 1 <= y1 <= y2
    ensures DaysBeforeYear(y2) - DaysBeforeYear(y1) >= 365 * (y2 - y1)
    decreases y2 - y1
  {
    if y1 < y2 {
      YearLength(y1);
      DaysBeforeYearGrows(y1 + 1, y2);
    }
  }

  /** The last day of a year comes one day before the first day of the next. */
  lemma YearBoundary(y: int)
    requires 1 <= y
    ensures Ordinal(Date(y, 12, 31)) + 1 == Ordinal(Date(y + 1, 1, 1))
  {
    YearLength(y);
  }

  /** Python's lexicographic comparison of dates agrees with the order of their ordinals. */
  lemma {:induction false} LeIffOrdinalLe(a: Date, b: Date)
    requires Valid(a) && Valid(b)
    ensures Le(a, b) <==> Ordinal(a) <= Ordinal(b)
    ensures a == b <==> Ordinal(a) == Ordinal(b)
  {
    if a.year < b.year {
      OrdinalEarlierYear(a, b);
    } else if b.year < a.year {
      OrdinalEarlierYear(b, a);
    } else if a.month < b.month {
      OrdinalEarlierMonth(a, b);
    } else if b.month < a.month {
      OrdinalEarlierMonth(b, a);
    }
  }

  lemma OrdinalEarlierYear(a: Date, b: Date)
    requires Valid(a) && Valid(b) && a.year < b.year
    ensures Ordinal(a) < Ordinal(b)
  {
    OrdinalBelowNextYear(a);
    DaysBeforeYearGrows(a.year + 1, b.year);
    assert DaysBeforeMonth(b.year, b.month) >= 0;
  }

  lemma OrdinalEarlierMonth(a: Date, b: Date)
    requires Valid(a) && Valid(b) && a.year == b.year && a.month < b.month
    ensures Ordinal(a) < Ordinal(b)
  {
    DaysBeforeMonthGrows(a.year, a.month, b.month);
  }

  lemma OrdinalBelowNextYear(d: Date)
    requires Valid(d)
    ensures Ordinal(d) <= DaysBeforeYear(d.year + 1)
  {
    YearLength(d.year);
    DaysBeforeMonthGrows(d.year, d.month, 12);
  }

  lemma {:induction false} DaysBeforeMonthGrows(y: int, m1: int, m2: int)
    requires 1 <= m1 <= m2 <= 12
    ensures DaysBeforeMonth(y, m2) >= DaysBeforeMonth(y, m1) + (if m1 < m2 then MonthLength(y, m1) else 0)
  {
    if m1 < m2 {
      DaysBeforeMonthStep(y, m1);
    }
  }

  lemma LtIffOrdinalLt(a: Date, b: Date)
    requires Valid(a) && Valid(b)
    ensures Lt(a, b) <==> Ordinal(a) < Ordinal(b)
  {
    LeIffOrdinalLe(a, b);
  }

  /**
    The number of days, both ends included, that `[start, end]` shares
    with `[from, to]`: from the later start to the earlier end, or 0 when
    they do not meet.
   */
  function SharedDays(start: Date, end: Date, from: Date, to: Date): (n: int)
    requires Valid(start) && Valid(end) && Valid(from) && Valid(to)
    ensures n >= 0
  {
    var inicio := Max(from, start);
    var fin := Min(to, end);
    if Le(inicio, fin) then LeIffOrdinalLe(inicio, fin); DaysBetween(inicio, fin) + 1 else 0
  }

  /** A period that lies inside the interval shares all its days with it, both ends included. */
  lemma SharedDaysInside(start: Date, end: Date, from: Date, to: Date)
    requires Valid(start) && Valid(end) && Valid(from) && Valid(to)
    requires Le(start, from) && Le(from, to) && Le(to, end)
    ensures SharedDays(start, end, from, to) == DaysBetween(from, to) + 1
  {
  }

  /** A period that ends before the interval starts, or starts after it ends, shares no day with it. */
  lemma SharedDaysDisjoint(start: Date, end: Date, from: Date, to: Date)
    requires Valid(start) && Valid(end) && Valid(from) && Valid(to)
    requires Lt(to, start) || Lt(end, from)
    ensures SharedDays(start, end, from, to) == 0
  {
  }

  /** The first day of the month that follows the month of `d`. */
  function NextMonthStart(d: Date): (r: Date)
    requires Valid(d)
    ensures Valid(r) && r.day == 1
  {
    if d.month == 12 then Date(d.year + 1, 1, 1) else Date(d.year, d.month + 1, 1)
  }

  /**
    `days_in_month(d)` (apps/calculadora_lrt.py and apps/calculadora_despidos.py):
    the distance in days from the first of the month of `d` to the first of the next month.
   */
  function DaysInMonth(d: Date): (n: int)
    requires Valid(d)
    ensures n == MonthLength(d.year, d.month)
    ensures n == 28 || n == 29 || n == 30 || n == 31
    ensures d.month == 12 ==> n == 31
    ensures d.month == 2 ==> (n == 29 <==> IsLeapYear(d.year))
  {
    MonthSpan(d);
    DaysBetween(Date(d.year, d.month, 1), NextMonthStart(d))
  }

  lemma MonthSpan(d: Date)
    requires Valid(d)
    ensures DaysBetween(Date(d.year, d.month, 1), NextMonthStart(d)) == MonthLength(d.year, d.month)
  {
    if d.month == 12 {
      YearLength(d.year);
    } else {
      DaysBeforeMonthStep(d.year, d.month);
    }
  }

  /** Whole months since the start of year 1: the (year, month) order as one number. */
  function MonthIndex(d: Date): int {
    d.year * 12 + d.month - 1
  }

  /**
    `d - relativedelta(months=1)`: the same day of the previous month,
    clamped to that month's last day.
   */
  function MonthBefore(d: Date): (r: Date)
    requires Valid(d) && MonthIndex(d) > 12
    ensures Valid(r)
    ensures MonthIndex(r) == MonthIndex(d) - 1
    ensures r.day == if d.day <= MonthLength(r.year, r.month) then d.day else MonthLength(r.year, r.month)
  {
    var y := if d.month == 1 then d.year - 1 else d.year;
    var m := if d.month == 1 then 12 else d.month - 1;
    Date(y, m, if d.day <= MonthLength(y, m) then d.day else MonthLength(y, m))
  }

  /** `d - relativedelta(days=1)` (equally `d - timedelta(days=1)`). */
  function DayBefore(d: Date): (r: Date)
    requires Valid(d) && d != Date(1, 1, 1)
    ensures Valid(r)
    ensures Ordinal(r) + 1 == Ordinal(d)
  {
    if d.day > 1 then Date(d.year, d.month, d.day - 1)
    else if d.month > 1 then
      DaysBeforeMonthStep(d.year, d.month - 1);
      Date(d.year, d.month - 1, MonthLength(d.year, d.month - 1))
    else
      YearBoundary(d.year - 1);
      Date(d.year - 1, 12, 31)
  }
}
