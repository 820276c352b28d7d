/**
 * WeekSumCalendar.kt: the month grid with a weekly sum in front of each
 * row. The grid is 42 days from the Monday on or before the 1st of the
 * selected month, in six rows of seven; each row's sum is asked for that
 * row's Monday week and coloured against the weekly target. Days are day
 * numbers (`LocalDate` as a count of days since 1970-01-01).
 */
module WeekCalendar {
  import opened Text
  import opened CivilDate
  import opened UtcCalendar
  import opened TimeUtils

  /** `LocalDate.dayOfWeek.value`: Monday = 1 ... Sunday = 7. */
  function IsoDayOfWeek(n: int): (v: int)
    ensures 1 <= v <= 7
    ensures v == 1 <==> Weekday(n) == Monday
    ensures v == 7 <==> Weekday(n) == Sunday
  {
    (Weekday(n) + 6) % 7 + 1
  }

  /** `selected.withDayOfMonth(1)` */
  function MonthStart(sel: Date): int
    requires ValidDate(sel)
  {
    DaysFromCivil(Date(sel.year, sel.month, 1))
  }

  /** `firstCell = month.minusDays((month.dayOfWeek.value + 6) % 7)` */
  function FirstCell(sel: Date): (r: int)
    requires ValidDate(sel)
    ensures MonthStart(sel) - 6 <= r <= MonthStart(sel)
    ensures Weekday(r) == Monday
  {
    var m := MonthStart(sel);
    var back := (IsoDayOfWeek(m) + 6) % 7;
    WeekdayShift(m, back);
    m - back
  }

  /** `days = (0 until 42).map { firstCell.plusDays(it) }` */
  function Grid(sel: Date): (days: seq<int>)
    requires ValidDate(sel)
    ensures |days| == 42
  {
    seq(42, i => FirstCell(sel) + i)
  }

  /** `days.drop(w * 7).take(7)` for one of the six rows. */
  function Row(days: seq<int>, w: int): seq<int>
    requires |days| == 42 && 0 <= w < 6
  {
    days[7 * w..7 * w + 7]
  }

  /** Each row is seven consecutive days starting on a Monday. */
  lemma RowsStartOnMonday(sel: Date, w: int)
    requires ValidDate(sel) && 0 <= w < 6
    ensures var row := Row(Grid(sel), w);
      && |row| == 7
      && row[0] == FirstCell(sel) + 7 * w
      && Weekday(row[0]) == Monday
      && forall j :: 0 <= j < 7 ==> row[j] == row[0] + j
  {
    var f := FirstCell(sel);
    WeekdayAfterWeeks(f, w);
    var row := Row(Grid(sel), w);
    forall j | 0 <= j < 7
      ensures row[j] == row[0] + j
    {
      assert row[j] == Grid(sel)[7 * w + j];
    }
  }

  lemma {:induction false} WeekdayAfterWeeks(n: int, k: nat)
    ensures Weekday(n + 7 * k) == Weekday(n)
  {
    if k > 0 {
      WeekdayAfterWeeks(n, k - 1);
      assert n + 7 * k == (n + 7 * (k - 1)) + 7;
    }
  }

  /** The first of a month plus its length is the first of the next month. */
  lemma NextMonthStart(y: int, m: int)
    requires 1 <= m <= 12
    ensures m < 12 ==> DaysFromCivil(Date(y, m, 1)) + DaysInMonth(y, m) == DaysFromCivil(Date(y, m + 1, 1))
    ensures m == 12 ==> DaysFromCivil(Date(y, m, 1)) + DaysInMonth(y, m) == DaysFromCivil(Date(y + 1, 1, 1))
  {
    MonthStep(y, m);
    YearStartStep(y);
  }

  /** Every day of the selected month is a cell of the grid. */
  lemma MonthInGrid(sel: Date, k: int)
    requires ValidDate(sel) && 1 <= k <= DaysInMonth(sel.year, sel.month)
    ensures DaysFromCivil(Date(sel.year, sel.month, k)) in Grid(sel)
  {
    var i := DaysFromCivil(Date(sel.year, sel.month, k)) - FirstCell(sel);
    assert 0 <= i < 42;
    assert Grid(sel)[i] == DaysFromCivil(Date(sel.year, sel.month, k));
  }

  // ---------------------------------------------------------------------
  // The week sums

  /** `mondayMillis`: a calendar set to the row's first date at 00:00:00.000. */
  method RowStartMillis(firstDay: int, now: int) returns (ms: int)
    ensures ms == firstDay * DayMs
  {
    var c := new Calendar.At(now);
    c.SetDateTime(DateOfDay(firstDay));
    c.SetMillisecond(0);
    ms := c.TimeInMillis();
  }

  /** The window row `w` asks for: `weekBounds(mondayMillis, true)`. */
  function RowWindow(sel: Date, w: int): (int, int)
    requires ValidDate(sel) && 0 <= w < 6
  {
    WeekWindow(Row(Grid(sel), w)[0] * DayMs, true)
  }

  /** A row's window starts at its Monday midnight and covers exactly its seven days. */
  lemma RowWindowCoversRow(sel: Date, w: int)
    requires ValidDate(sel) && 0 <= w < 6
    ensures var (start, end) := RowWindow(sel, w); var row := Row(Grid(sel), w);
      && start == row[0] * DayMs && end == start + 7 * DayMs
      && forall j :: 0 <= j < 7 ==> start <= row[j] * DayMs < end
  {
    RowsStartOnMonday(sel, w);
    var row := Row(Grid(sel), w);
    var t := row[0] * DayMs;
    assert t / DayMs == row[0] && t % DayMs == 0;
    MondayWeek(t);
  }

  /** The colour of a week: green, yellow or red. */
  datatype Band = Green | Yellow | Red

  /**
   * `when { sum >= target -> green; sum >= target * 3 / 4 -> yellow; else -> red }`:
   * for a non-negative target, green from the target up, yellow from three
   * quarters of it (rounded down) up to the target, red below.
   */
  function WeekBand(sumMs: int, targetHours: int): (r: Band)
    ensures targetHours >= 0 ==> var targetMs := targetHours * 3_600_000;
      && (r == Green <==> sumMs >= targetMs)
      && (r == Yellow <==> targetMs * 3 / 4 <= sumMs < targetMs)
      && (r == Red <==> sumMs < targetMs * 3 / 4)
  {
    var targetMs := targetHours * 3_600_000;
    assert targetHours >= 0 ==> Quot(targetMs * 3, 4) == targetMs * 3 / 4;
    if sumMs >= targetMs then Green
    else if sumMs >= Quot(targetMs * 3, 4) then Yellow
    else Red
  }

  function BandRank(b: Band): int {
    match b
    case Red => 0
    case Yellow => 1
    case Green => 2
  }

  /** More time worked never gives a worse colour. */
  lemma WeekBandMonotone(s1: int, s2: int, targetHours: int)
    requires s1 <= s2
    ensures BandRank(WeekBand(s1, targetHours)) <= BandRank(WeekBand(s2, targetHours))
  {
  }

  /** With the default target of 40 hours: yellow from 30 hours, green from 40. */
  lemma WeekBandForty()
    ensures WeekBand(107_999_999, 40) == Red
    ensures WeekBand(108_000_000, 40) == Yellow
    ensures WeekBand(143_999_999, 40) == Yellow
    ensures WeekBand(144_000_000, 40) == Green
  {
    assert Quot(432_000_000, 4) == 108_000_000;
  }

  // ---------------------------------------------------------------------
  // Cell styling

  /** A cell is dimmed when its month differs from the selected one (`d.month == month.month` compares months only). */
  predicate Dimmed(d: int, sel: Date)
    ensures ValidDate(sel) && d == DaysFromCivil(sel) ==> !Dimmed(d, sel)
  {
    SelectedDate(sel);
    DateOfDay(d).month != sel.month
  }

  lemma SelectedDate(sel: Date)
    ensures ValidDate(sel) ==> DateOfDay(DaysFromCivil(sel)) == sel
  {
    if ValidDate(sel) {
      DateRoundTrip(sel);
    }
  }

  /** A cell is highlighted when it is the selected date. */
  predicate Highlighted(d: int, sel: Date)
    requires ValidDate(sel)
    ensures Highlighted(d, sel) ==> DateOfDay(d) == sel
  {
    SelectedDate(sel);
    d == DaysFromCivil(sel)
  }

  /** The six days before the 1st of a month belong to the month before. */
  lemma DayBeforeMonth(y: int, m: int, d: int)
    requires 1 <= m <= 12
    requires DaysFromCivil(Date(y, m, 1)) - 6 <= d < DaysFromCivil(Date(y, m, 1))
    ensures DateOfDay(d).month == if m == 1 then 12 else m - 1
  {
    if m == 1 {
      NextMonthStart(y - 1, 12);
      MonthLength(y - 1, 12);
      DayInMonth(y - 1, 12, d);
    } else {
      NextMonthStart(y, m - 1);
      MonthLength(y, m - 1);
      DayInMonth(y, m - 1, d);
    }
  }

  lemma MonthLength(y: int, m: int)
    requires 1 <= m <= 12
    ensures 28 <= DaysInMonth(y, m) <= 31
  {
  }

  /** A date lies `day - 1` days after the first of its month. */
  lemma FirstPlusDays(e: Date)
    requires 1 <= e.month <= 12
    ensures DaysFromCivil(e) == DaysFromCivil(Date(e.year, e.month, 1)) + e.day - 1
  {
  }

  /** Every day of a month maps back to that month's date. */
  lemma DayInMonth(y: int, m: int, d: int)
    requires 1 <= m <= 12
    requires DaysFromCivil(Date(y, m, 1)) <= d < DaysFromCivil(Date(y, m, 1)) + DaysInMonth(y, m)
    ensures DateOfDay(d) == Date(y, m, d - DaysFromCivil(Date(y, m, 1)) + 1)
  {
    var e := Date(y, m, d - DaysFromCivil(Date(y, m, 1)) + 1);
    FirstPlusDays(e);
    DayNumberOf(e, d);
  }

  lemma DayNumberOf(e: Date, n: int)
    requires ValidDate(e) && DaysFromCivil(e) == n
    ensures DateOfDay(n) == e
  {
    DateRoundTrip(e);
  }

  /** Up to 14 days after the end of a month belong to the month after. */
  lemma DayAfterMonth(y: int, m: int, d: int)
    requires 1 <= m <= 12
    requires DaysFromCivil(Date(y, m, 1)) + DaysInMonth(y, m) <= d < DaysFromCivil(Date(y, m, 1)) + 42
    ensures DateOfDay(d).month == if m == 12 then 1 else m + 1
  {
    NextMonthStart(y, m);
    MonthLength(y, m);
    if m == 12 {
      MonthLength(y + 1, 1);
      DayInMonth(y + 1, 1, d);
    } else {
      MonthLength(y, m + 1);
      DayInMonth(y, m + 1, d);
    }
  }

  /**
   * Comparing months alone is enough on the grid: a cell is dimmed exactly
   * when it lies outside the selected month of the selected year.
   */
  lemma DimmedOutsideMonth(sel: Date, i: int)
    requires ValidDate(sel) && 0 <= i < 42
    ensures var d := Grid(sel)[i];
      !Dimmed(d, sel) <==> DateOfDay(d).year == sel.year && DateOfDay(d).month == sel.month
    ensures var d := Grid(sel)[i];
      !Dimmed(d, sel) <==> MonthStart(sel) <= d < MonthStart(sel) + DaysInMonth(sel.year, sel.month)
  {
    var d := Grid(sel)[i];
    var ms := MonthStart(sel);
    if d < ms {
      DayBeforeMonth(sel.year, sel.month, d);
    } else if d < ms + DaysInMonth(sel.year, sel.month) {
      DayInMonth(sel.year, sel.month, d);
    } else {
      DayAfterMonth(sel.year, sel.month, d);
    }
  }

  /** Exactly one cell of the grid is highlighted: the selected date's. */
  lemma SelectedHighlightedOnce(sel: Date)
    requires ValidDate(sel)
    ensures exists i :: 0 <= i < 42 && Highlighted(Grid(sel)[i], sel)
    ensures forall i, j :: 0 <= i < 42 && 0 <= j < 42 && Highlighted(Grid(sel)[i], sel) && Highlighted(Grid(sel)[j], sel) ==> i == j
    ensures forall i :: 0 <= i < 42 && Highlighted(Grid(sel)[i], sel) ==> !Dimmed(Grid(sel)[i], sel)
  {
    MonthInGrid(sel, sel.day);
    DateRoundTrip(sel);
    var i :| 0 <= i < 42 && Grid(sel)[i] == DaysFromCivil(sel);
    assert Highlighted(Grid(sel)[i], sel);
  }
}
