/**
 * The proleptic Gregorian calendar on day numbers.
 *
 * Every calendar computation of the tracker (Luxon's `startOf("week")`,
 * `startOf("month")`, `endOf("month")`, `weekday` and `plus({days})`) is
 * expressed here on a day number: the count of days since 0001-01-01.
 * The leap-year rule is that of ISO 8601:2004 section 3.2.1, and weekdays
 * are numbered as in ISO 8601:2004 section 4.1.4 (Monday = 1 ... Sunday = 7).
 */
module Calendar {

  /** Days elapsed since 0001-01-01; that day is a Monday. */
  type Day = nat

  /** A civil date: year, month 1..12, day of month. */
  datatype Date = Date(year: int, month: int, day: int)

  predicate IsLeapYear(y: int) {
    y % 4 == 0 && (y % 100 != 0 || y % 400 == 0)
  }

  function DaysInYear(y: int): int {
    if IsLeapYear(y) then 366 else 365
  }

  function DaysInMonth(y: int, m: int): (n: int)
    requires 1 <= m <= 12
    ensures 28 <= n <= 31
  {
    if m == 2 then (if IsLeapYear(y) then 29 else 28)
    else if m == 4 || m == 6 || m == 9 || m == 11 then 30
    else 31
  }

  predicate ValidDate(d: Date) {
    1 <= d.year && 1 <= d.month <= 12 && 1 <= d.day <= DaysInMonth(d.year, d.month)
  }

  /** Days in the years 1 .. y - 1. */
  function DaysBeforeYear(y: int): (n: nat)
    requires 1 <= y
    decreases y
  {
    if y == 1 then 0 else DaysBeforeYear(y - 1) + DaysInYear(y - 1)
  }

  /** Days of a common year before the first of month m (m = 13: the whole year). */
  const CommonDaysBefore: seq<int> := [0, 31, 59, 90, 120, 151, 181, 212, 243, 273, 304, 334, 365]

  /** Days of year y before the first of month m (m = 13: the whole year). */
  function DaysBeforeMonth(y: int, m: int): int
    requires 1 <= m <= 13
  {
    CommonDaysBefore[m - 1] + (if m > 2 && IsLeapYear(y) then 1 else 0)
  }

  /** The day number of a valid civil date. */
  function ToDay(d: Date): Day
    requires ValidDate(d)
  {
    DaysBeforeMonthIsLess(d.year, d.month);
    DaysBeforeYear(d.year) + DaysBeforeMonth(d.year, d.month) + d.day - 1
  }

  lemma DaysBeforeMonthIsLess(y: int, m: int)
    requires 1 <= y && 1 <= m <= 12
    ensures 0 <= DaysBeforeMonth(y, m)
    ensures DaysBeforeMonth(y, m) + DaysInMonth(y, m) == DaysBeforeMonth(y, m + 1)
    ensures DaysBeforeMonth(y, 13) == DaysInYear(y)
  {
  }

  lemma MonthWithinYear(y: int, m: int)
    requires 1 <= y && 1 <= m <= 12
    ensures 0 <= DaysBeforeMonth(y, m)
    ensures DaysBeforeMonth(y, m) + DaysInMonth(y, m) <= DaysInYear(y)
    ensures DaysBeforeMonth(y, 12) + 31 == DaysInYear(y)
  {
  }

  /** The closed form of DaysBeforeYear: 365 days a year plus the leap days of ISO 8601. */
  lemma {:induction false} DaysBeforeYearClosedForm(y: int)
    requires 1 <= y
    ensures DaysBeforeYear(y) == 365 * (y - 1) + (y - 1) / 4 - (y - 1) / 100 + (y - 1) / 400
    decreases y
  {
    if y > 1 {
      DaysBeforeYearClosedForm(y - 1);
      var p := y - 2;
      DivStep(p, 4);
      DivStep(p, 100);
      DivStep(p, 400);
      LeapCarries(y - 1);
    }
  }

  /** The leap rule as the sum of the three carries of the closed form. */
  lemma LeapCarries(y: int)
    requires 1 <= y
    ensures DaysInYear(y) == 365 + (if y % 4 == 0 then 1 else 0) - (if y % 100 == 0 then 1 else 0) + (if y % 400 == 0 then 1 else 0)
  {
    if y % 400 == 0 {
      CenturyOfFourCenturies(y);
      LeapOfCentury(y);
    } else if y % 100 == 0 {
      LeapOfCentury(y);
    }
  }

  lemma CenturyOfFourCenturies(y: int)
    requires y % 400 == 0
    ensures y % 100 == 0
  {
    var q := y / 400;
    assert y == 400 * q;
    assert y == 100 * (4 * q);
  }

  lemma LeapOfCentury(y: int)
    requires y % 100 == 0
    ensures y % 4 == 0
  {
    var q := y / 100;
    assert y == 100 * q;
    assert y == 4 * (25 * q);
  }

  /** Incrementing a natural number carries into its quotient by k exactly at multiples of k. */
  lemma DivStep(p: nat, k: int)
    requires k == 4 || k == 100 || k == 400
    ensures (p + 1) / k == p / k + (if (p + 1) % k == 0 then 1 else 0)
  {
    var q, r := p / k, p % k;
    assert p == k * q + r && 0 <= r < k;
    if r + 1 == k {
      assert p + 1 == k * (q + 1);
    } else {
      assert p + 1 == k * q + (r + 1) && 0 <= r + 1 < k;
    }
  }

  lemma {:induction false} DaysBeforeYearGrows(a: int, b: int)
    requires 1 <= a < b
    ensures DaysBeforeYear(a) + DaysInYear(a) <= DaysBeforeYear(b)
    decreases b - a
  {
    if a + 1 < b {
      DaysBeforeYearGrows(a + 1, b);
    }
  }

  /** The year, searched upwards from y, whose days contain day n. */
  function YearFrom(n: Day, y: int): (r: int)
    requires 1 <= y && DaysBeforeYear(y) <= n
    ensures y <= r && DaysBeforeYear(r) <= n < DaysBeforeYear(r) + DaysInYear(r)
    decreases n - DaysBeforeYear(y)
  {
    if n < DaysBeforeYear(y) + DaysInYear(y) then y else YearFrom(n, y + 1)
  }

  /** The month, searched upwards from m, whose days contain day r of year y. */
  function MonthFrom(y: int, r: int, m: int): (res: int)
    requires 1 <= y && 1 <= m <= 12 && DaysBeforeMonth(y, m) <= r < DaysInYear(y)
    ensures m <= res <= 12
    ensures DaysBeforeMonth(y, res) <= r < DaysBeforeMonth(y, res) + DaysInMonth(y, res)
    decreases 12 - m
  {
    DaysBeforeMonthIsLess(y, m);
    if r < DaysBeforeMonth(y, m) + DaysInMonth(y, m) then m else MonthFrom(y, r, m + 1)
  }

  /** The civil date of a day number. */
  function FromDay(n: Day): (d: Date)
    ensures ValidDate(d) && ToDay(d) == n
  {
    var y := YearFrom(n, 1);
    var r := n - DaysBeforeYear(y);
    DaysBeforeMonthIsLess(y, 1);
    var m := MonthFrom(y, r, 1);
    Date(y, m, r - DaysBeforeMonth(y, m) + 1)
  }

  lemma YearUnique(n: Day, y1: int, y2: int)
    requires 1 <= y1 && DaysBeforeYear(y1) <= n < DaysBeforeYear(y1) + DaysInYear(y1)
    requires 1 <= y2 && DaysBeforeYear(y2) <= n < DaysBeforeYear(y2) + DaysInYear(y2)
    ensures y1 == y2
  {
    if y1 < y2 {
      DaysBeforeYearGrows(y1, y2);
    } else if y2 < y1 {
      DaysBeforeYearGrows(y2, y1);
    }
  }

  lemma {:induction false} DaysBeforeMonthGrows(y: int, a: int, b: int)
    requires 1 <= y && 1 <= a < b <= 12
    ensures DaysBeforeMonth(y, a) + DaysInMonth(y, a) <= DaysBeforeMonth(y, b)
    decreases b - a
  {
    DaysBeforeMonthIsLess(y, a);
    if a + 1 < b {
      DaysBeforeMonthGrows(y, a + 1, b);
    }
  }

  lemma MonthUnique(y: int, r: int, m1: int, m2: int)
    requires 1 <= y && 1 <= m1 <= 12 && 1 <= m2 <= 12
    requires DaysBeforeMonth(y, m1) <= r < DaysBeforeMonth(y, m1) + DaysInMonth(y, m1)
    requires DaysBeforeMonth(y, m2) <= r < DaysBeforeMonth(y, m2) + DaysInMonth(y, m2)
    ensures m1 == m2
  {
    if m1 < m2 {
      DaysBeforeMonthGrows(y, m1, m2);
    } else if m2 < m1 {
      DaysBeforeMonthGrows(y, m2, m1);
    }
  }

  /** Round trip: a valid civil date survives conversion to a day number and back. */
  lemma FromDayToDay(d: Date)
    requires ValidDate(d)
    ensures FromDay(ToDay(d)) == d
  {
    var n := ToDay(d);
    DaysBeforeMonthIsLess(d.year, d.month);
    MonthWithinYear(d.year, d.month);
    var e := FromDay(n);
    YearUnique(n, e.year, d.year);
    var r := n - DaysBeforeYear(d.year);
    MonthUnique(d.year, r, e.month, d.month);
  }

  /** ToDay is injective on valid dates. */
  lemma ToDayInjective(a: Date, b: Date)
    requires ValidDate(a) && ValidDate(b) && ToDay(a) == ToDay(b)
    ensures a == b
  {
    FromDayToDay(a);
    FromDayToDay(b);
  }

  /** ISO weekday of a day number: Monday = 1 ... Sunday = 7. */
  function Weekday(n: Day): (w: int)
    ensures 1 <= w <= 7
    ensures w == 1 <==> n % 7 == 0
  {
    n % 7 + 1
  }

  /** The day number k days after n (k may be negative): Luxon's `plus({ days: k })`. */
  function AddDays(n: Day, k: int): (r: Day)
    requires 0 <= n + k
    ensures r - n == k
  {
    n + k
  }

  /** The Monday on or before n: Luxon's `startOf("week")` (ISO weeks start on Monday). */
  function WeekStart(n: Day): (r: Day)
    ensures r <= n < r + 7
    ensures Weekday(r) == 1
    ensures Weekday(n) == n - r + 1
  {
    n - n % 7
  }

  /** A Monday w and an offset i below 7 name day w + i of w's week. */
  lemma MondayOffset(w: Day, i: int, n: Day)
    requires Weekday(w) == 1 && 0 <= i < 7 && w + i == n
    ensures w == WeekStart(n) && i == Weekday(n) - 1
  {
  }

  /** The first day of n's month: Luxon's `startOf("month")`. */
  function MonthStart(n: Day): (r: Day)
    ensures r <= n
  {
    n - (FromDay(n).day - 1)
  }

  /** The last day of n's month: Luxon's `endOf("month")`, at day granularity. */
  function MonthEnd(n: Day): (r: Day)
    ensures n <= r
  {
    var d := FromDay(n);
    MonthStart(n) + DaysInMonth(d.year, d.month) - 1
  }

  /** January 1 of n's year: Luxon's `startOf("year")`. */
  function YearStart(n: Day): (r: Day)
    ensures r <= n
  {
    var d := FromDay(n);
    DaysBeforeMonthIsLess(d.year, d.month);
    n - (DaysBeforeMonth(d.year, d.month) + d.day - 1)
  }

  /** December 31 of n's year: Luxon's `endOf("year")`, at day granularity. */
  function YearEnd(n: Day): (r: Day)
    ensures n <= r
  {
    var d := FromDay(n);
    MonthWithinYear(d.year, d.month);
    YearStart(n) + DaysInYear(d.year) - 1
  }

  /** The first day of n's month is day 1 of n's civil month. */
  lemma MonthStartIsFirst(n: Day)
    ensures FromDay(MonthStart(n)) == Date(FromDay(n).year, FromDay(n).month, 1)
  {
    var d := FromDay(n);
    var c := Date(d.year, d.month, 1);
    assert ToDay(c) == MonthStart(n);
    FromDayToDay(c);
  }

  /** The last day of n's month is the last civil day of that month. */
  lemma MonthEndIsLast(n: Day)
    ensures FromDay(MonthEnd(n)) == Date(FromDay(n).year, FromDay(n).month, DaysInMonth(FromDay(n).year, FromDay(n).month))
    ensures 28 <= MonthEnd(n) - MonthStart(n) + 1 <= 31
  {
    var d := FromDay(n);
    var c := Date(d.year, d.month, DaysInMonth(d.year, d.month));
    assert ToDay(c) == MonthEnd(n);
    FromDayToDay(c);
  }

  /** The first day of n's year is January 1 of n's civil year. */
  lemma YearStartIsFirst(n: Day)
    ensures FromDay(YearStart(n)) == Date(FromDay(n).year, 1, 1)
  {
    var d := FromDay(n);
    var c := Date(d.year, 1, 1);
    assert ToDay(c) == YearStart(n);
    FromDayToDay(c);
  }

  /** The last day of n's year is December 31 of n's civil year. */
  lemma YearEndIsLast(n: Day)
    ensures FromDay(YearEnd(n)) == Date(FromDay(n).year, 12, 31)
  {
    var d := FromDay(n);
    MonthWithinYear(d.year, 12);
    var c := Date(d.year, 12, 31);
    assert ToDay(c) == YearEnd(n);
    FromDayToDay(c);
  }

  /** Every day between the first and the last day of n's month lies in n's month. */
  lemma InMonth(n: Day, k: Day)
    requires MonthStart(n) <= k <= MonthEnd(n)
    ensures FromDay(k).year == FromDay(n).year && FromDay(k).month == FromDay(n).month
  {
    var d := FromDay(n);
    var c := Date(d.year, d.month, k - MonthStart(n) + 1);
    assert ToDay(c) == k;
    FromDayToDay(c);
  }
}
