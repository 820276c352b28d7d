/**
 * Proleptic Gregorian civil dates and day numbers. Day number 0 is
 * 1970-01-01, a Thursday; every day is exactly `DayMs` milliseconds long
 * (UTC, no daylight saving). This is the arithmetic that `java.util.Calendar`
 * and `java.time.LocalDate` perform for the app.
 */
module CivilDate {

  /** Milliseconds in one day. */
  const DayMs: int := 86_400_000

  datatype Date = Date(year: int, month: int, day: int)

  predicate IsLeap(y: int) {
    y % 4 == 0 && (y % 100 != 0 || y % 400 == 0)
  }

  function DaysInYear(y: int): int {
    if IsLeap(y) then 366 else 365
  }

  function DaysInMonth(y: int, m: int): int
    requires 1 <= m <= 12
  {
    if m == 2 then (if IsLeap(y) then 29 else 28)
    else if m == 4 || m == 6 || m == 9 || m == 11 then 30
    else 31
  }

  predicate ValidDate(d: Date) {
    1 <= d.month <= 12 && 1 <= d.day <= DaysInMonth(d.year, d.month)
  }

  /** Days of year `y` before the first of month `m`. */
  function DaysBeforeMonth(y: int, m: int): int
    requires 1 <= m <= 12
  {
    var common :=
      if m == 1 then 0 else if m == 2 then 31 else if m == 3 then 59
      else if m == 4 then 90 else if m == 5 then 120 else if m == 6 then 151
      else if m == 7 then 181 else if m == 8 then 212 else if m == 9 then 243
      else if m == 10 then 273 else if m == 11 then 304 else 334;
    common + (if m > 2 && IsLeap(y) then 1 else 0)
  }

  lemma MonthStep(y: int, m: int)
    requires 1 <= m <= 12
    ensures m < 12 ==> DaysBeforeMonth(y, m + 1) == DaysBeforeMonth(y, m) + DaysInMonth(y, m)
    ensures m == 12 ==> DaysBeforeMonth(y, m) + DaysInMonth(y, m) == DaysInYear(y)
  {
  }

  /** Number of leap years among the years before `y`, up to a constant. */
  function LeapsBefore(y: int): int {
    (y - 1) / 4 - (y - 1) / 100 + (y - 1) / 400
  }

  /** Day number of January 1st of year `y`. */
  function YearStart(y: int): int {
    365 * (y - 1970) + LeapsBefore(y) - LeapsBefore(1970)
  }

  lemma DivStep(x: int, k: int)
    requires k == 4 || k == 100 || k == 400
    ensures x / k - (x - 1) / k == if x % k == 0 then 1 else 0
  {
    var q, r := x / k, x % k;
    assert x == k * q + r;
    if r == 0 {
      assert x - 1 == k * (q - 1) + (k - 1);
    } else {
      assert x - 1 == k * q + (r - 1);
    }
  }

  /** Consecutive years start `DaysInYear` days apart. */
  lemma YearStartStep(y: int)
    ensures YearStart(y + 1) == YearStart(y) + DaysInYear(y)
  {
    LeapStep(y);
  }

  /** Year `y` adds one to the leap count exactly when it is a leap year. */
  lemma LeapStep(y: int)
    ensures LeapsBefore(y + 1) - LeapsBefore(y) == if IsLeap(y) then 1 else 0
  {
    DivStep(y, 4);
    DivStep(y, 100);
    DivStep(y, 400);
    Divides(y);
  }

  lemma Divides(y: int)
    ensures y % 400 == 0 ==> y % 100 == 0
    ensures y % 100 == 0 ==> y % 4 == 0
  {
    var q4, q100 := y / 400, y / 100;
    if y % 400 == 0 {
      assert y == 400 * q4;
      assert y / 100 == 4 * q4;
    }
    if y % 100 == 0 {
      assert y == 100 * q100;
      assert y / 4 == 25 * q100;
    }
  }

  lemma {:induction false} YearStartMono(a: int, b: int)
    requires a <= b
    ensures YearStart(b) - YearStart(a) >= 365 * (b - a)
    decreases b - a
  {
    if a < b {
      YearStartMono(a, b - 1);
      YearStartStep(b - 1);
    }
  }

  function DaysFromCivil(d: Date): int
    requires 1 <= d.month <= 12
  {
    YearStart(d.year) + DaysBeforeMonth(d.year, d.month) + d.day - 1
  }

  function YearUp(n: int, y: int): (r: int)
    requires YearStart(y) <= n
    ensures YearStart(r) <= n < YearStart(r + 1)
    decreases n - YearStart(y)
  {
    YearStartStep(y);
    if n < YearStart(y + 1) then y else YearUp(n, y + 1)
  }

  function YearDown(n: int, y: int): (r: int)
    requires n < YearStart(y + 1)
    ensures YearStart(r) <= n < YearStart(r + 1)
    decreases YearStart(y + 1) - n
  {
    YearStartStep(y);
    if YearStart(y) <= n then y else YearDown(n, y - 1)
  }

  /** The year that day `n` belongs to. */
  function YearOfDay(n: int): (y: int)
    ensures YearStart(y) <= n < YearStart(y + 1)
  {
    if n >= 0 then YearUp(n, 1970) else YearDown(n, 1969)
  }

  /** A year is determined by any of its days. */
  lemma YearOfDayUnique(n: int, y: int)
    requires YearStart(y) <= n < YearStart(y + 1)
    ensures YearOfDay(n) == y
  {
    var r := YearOfDay(n);
    if r < y {
      YearsOrdered(r, y);
    } else if r > y {
      YearsOrdered(y, r);
    }
  }

  /** A later year starts no earlier than the day after an earlier year ends. */
  lemma YearsOrdered(a: int, b: int)
    requires a < b
    ensures YearStart(a + 1) <= YearStart(b)
  {
    YearStartMono(a + 1, b);
  }

  function MonthSearch(y: int, doy: int, m: int): (r: int)
    requires 1 <= m <= 12 && 0 <= doy
    ensures 1 <= r <= m && DaysBeforeMonth(y, r) <= doy
    ensures r < m ==> doy < DaysBeforeMonth(y, r + 1)
  {
    if m == 1 || DaysBeforeMonth(y, m) <= doy then m else MonthSearch(y, doy, m - 1)
  }

  /** The civil date of day number `n`. */
  function DateOfDay(n: int): (d: Date)
    ensures ValidDate(d) && DaysFromCivil(d) == n
    ensures d.year == YearOfDay(n)
  {
    var y := YearOfDay(n);
    YearStartStep(y);
    var doy := n - YearStart(y);
    var m := MonthSearch(y, doy, 12);
    MonthStep(y, m);
    Date(y, m, doy - DaysBeforeMonth(y, m) + 1)
  }

  /** Every valid date has exactly one day number: the two conversions are inverse. */
  lemma DateRoundTrip(d: Date)
    requires ValidDate(d)
    ensures DateOfDay(DaysFromCivil(d)) == d
  {
    var y := d.year;
    var doy := DaysBeforeMonth(y, d.month) + d.day - 1;
    DayOfYearBounded(d);
    YearStartStep(y);
    YearOfDayUnique(DaysFromCivil(d), y);
    MonthSearchFinds(y, doy, d.month, 12);
  }

  /** The days before a date within its year number fewer than the year's days. */
  lemma DayOfYearBounded(d: Date)
    requires ValidDate(d)
    ensures 0 <= DaysBeforeMonth(d.year, d.month) + d.day - 1 < DaysInYear(d.year)
  {
    MonthStep(d.year, d.month);
    if d.month < 12 {
      MonthStep(d.year, 12);
      MonthsMono(d.year, d.month + 1, 12);
    }
  }

  /** Searching down from month `k` stops at the month holding day-of-year `doy`. */
  lemma {:induction false} MonthSearchFinds(y: int, doy: int, m: int, k: int)
    requires 1 <= m <= k <= 12
    requires DaysBeforeMonth(y, m) <= doy < DaysBeforeMonth(y, m) + DaysInMonth(y, m)
    ensures MonthSearch(y, doy, k) == m
    decreases k
  {
    if k > m {
      MonthStep(y, m);
      MonthsMono(y, m + 1, k);
      MonthSearchFinds(y, doy, m, k - 1);
    }
  }

  lemma MonthsMono(y: int, a: int, b: int)
    requires 1 <= a <= b <= 12
    ensures DaysBeforeMonth(y, a) <= DaysBeforeMonth(y, b)
  {
  }

  /** Day of week, 0 = Sunday ... 6 = Saturday (day 0 was a Thursday). */
  function Weekday(n: int): (w: int)
    ensures 0 <= w < 7
  {
    (n + 4) % 7
  }

  const Sunday := 0
  const Monday := 1
  const Wednesday := 3
  const Saturday := 6

  /** Seven consecutive days hold each weekday exactly once. */
  lemma WeekdayUnique(a: int, b: int)
    requires a <= b < a + 7 && Weekday(a) == Weekday(b)
    ensures a == b
  {
  }

  lemma WeekdayShift(n: int, k: int)
    ensures Weekday(n - k) == (Weekday(n) - k) % 7
  {
  }
}
