/**
 * TimeUtils.kt: duration formatting, day and week boundaries, display
 * rounding and the German public-holiday calendar.
 */
module TimeUtils {
  import opened Text
  import opened CivilDate
  import opened UtcCalendar

  // ---------------------------------------------------------------------
  // msToHHMM

  /**
   * `msToHHMM(ms)`: whole minutes as hours and minutes, `"%02d:%02d"`.
   * For a non-negative duration the text reads back as `h` and `m` with
   * `m < 60` and `h * 60 + m` the number of whole minutes.
   */
  function MsToHHMM(ms: int): (r: string)
    ensures ms >= 0 ==>
      && |r| >= 5 && r[|r| - 3] == ':'
      && AllDigits(r[..|r| - 3]) && AllDigits(r[|r| - 2..])
      && DigitsValue(r[|r| - 2..]) < 60
      && DigitsValue(r[..|r| - 3]) * 60 + DigitsValue(r[|r| - 2..]) == ms / 60_000
  {
    var totalMin := Quot(ms, 60_000);
    var h := Quot(totalMin, 60);
    var m := Rem(totalMin, 60);
    var hs, ms' := Format02(h), Format02(m);
    var r := hs + ":" + ms';
    assert ms >= 0 ==> r[..|r| - 3] == hs && r[|r| - 2..] == ms';
    r
  }

  // ---------------------------------------------------------------------
  // dayStart and weekBounds

  /** Midnight (UTC) of the day containing `t`. */
  function Midnight(t: int): (r: int)
    ensures r <= t < r + DayMs
    ensures r % DayMs == 0 && r / DayMs == t / DayMs
  {
    (t / DayMs) * DayMs
  }

  /** Truncating to midnight twice changes nothing. */
  lemma MidnightIdempotent(t: int)
    ensures Midnight(Midnight(t)) == Midnight(t)
  {
  }

  /** Every instant from a midnight until the next one has that midnight. */
  lemma MidnightWithin(t: int, u: int)
    requires Midnight(t) <= u < Midnight(t) + DayMs
    ensures Midnight(u) == Midnight(t)
  {
  }

  /** `dayStart(ts)`: hour, minute, second and millisecond of a calendar set to 0. */
  method DayStart(ts: int) returns (r: int)
    ensures r == Midnight(ts)
  {
    var c := new Calendar.At(ts);
    c.SetHourOfDay(0);
    c.SetMinute(0);
    c.SetSecond(0);
    c.SetMillisecond(0);
    r := c.TimeInMillis();
  }

  /** `Calendar.DAY_OF_WEEK` of an instant: Sunday = 1 ... Saturday = 7. */
  function DayOfWeekAt(t: int): int {
    Weekday(t / DayMs) + 1
  }

  /** Days `weekBounds` steps back: `(dow + 5) % 7` for a Monday week, `dow % 7` otherwise. */
  function WeekShift(dow: int, weekStartMonday: bool): int {
    if weekStartMonday then (dow + 5) % 7 else dow % 7
  }

  /**
   * The window `weekBounds(t, weekStartMonday)` returns: seven days from a
   * midnight, containing `t`. A Monday week starts on the Monday on or
   * before `t`. Otherwise the shift is `dow % 7` with Sunday = 1, so the
   * week starts on the Saturday on or before `t`.
   */
  function WeekWindow(t: int, weekStartMonday: bool): (w: (int, int))
    ensures w.0 % DayMs == 0 && w.0 <= t < w.1 && w.1 - w.0 == 7 * DayMs
    ensures Weekday(w.0 / DayMs) == if weekStartMonday then Monday else Saturday
  {
    var shift := WeekShift(DayOfWeekAt(t), weekStartMonday);
    WeekStartDay(t, shift);
    var start := Midnight(t - shift * DayMs);
    (start, start + 7 * DayMs)
  }

  /** Stepping back `shift` whole days moves the day number and the weekday back by `shift`. */
  lemma WeekStartDay(t: int, shift: int)
    requires 0 <= shift < 7
    ensures (t - shift * DayMs) / DayMs == t / DayMs - shift
    ensures Weekday(t / DayMs - shift) == (Weekday(t / DayMs) - shift) % 7
  {
    WeekdayShift(t / DayMs, shift);
  }

  /** `weekBounds(dayMillis, weekStartMonday)`: step the calendar back `shift` days, then take that day's start. */
  method WeekBounds(dayMillis: int, weekStartMonday: bool) returns (start: int, end: int)
    ensures (start, end) == WeekWindow(dayMillis, weekStartMonday)
  {
    var c := new Calendar.At(dayMillis);
    var dow := c.DayOfWeek();
    var shift := if weekStartMonday then (dow + 5) % 7 else dow % 7;
    c.AddDays(-shift);
    start := DayStart(c.TimeInMillis());
    end := start + 7 * DayMs;
  }

  /** At Monday 00:00 the Monday week starts at `t` itself. */
  lemma MondayWeek(t: int)
    ensures Weekday(t / DayMs) == Monday && t % DayMs == 0 ==> WeekWindow(t, true).0 == t
  {
  }

  // ---------------------------------------------------------------------
  // roundDuration

  /** `round(a / u)` with ties to the even quotient (`kotlin.math.round`). */
  function HalfEvenQuotient(a: int, u: int): (q: int)
    requires u > 0
    ensures 2 * (a - q * u) <= u && 2 * (q * u - a) <= u
    ensures 2 * (a - q * u) == u || 2 * (q * u - a) == u ==> q % 2 == 0
  {
    var f := a / u;
    var rest := a - f * u;
    QuotientStep(a, u, f);
    if 2 * rest < u then f
    else if 2 * rest > u then f + 1
    else if f % 2 == 0 then f
    else f + 1
  }

  /** The floor quotient `f` leaves a remainder below `u`, and `f + 1` takes one more `u`. */
  lemma QuotientStep(a: int, u: int, f: int)
    requires u > 0 && f == a / u
    ensures 0 <= a - f * u < u && (f + 1) * u == f * u + u
  {
  }

  lemma MulAtLeast(u: int, k: int)
    requires u > 0 && k >= 1
    ensures u * k >= u
  {
    assert u * k == u * (k - 1) + u;
    assert u * (k - 1) >= 0;
  }

  /** `q * u` is a multiple of `u`, with quotient `q`. */
  lemma MultipleOf(q: int, u: int)
    requires u > 0
    ensures (q * u) % u == 0 && (q * u) / u == q
  {
    var x := q * u;
    var k := q - x / u;
    assert x == u * (x / u) + x % u;
    assert u * k == x % u by {
      assert u * k == u * q - u * (x / u);
    }
    if k >= 1 {
      MulAtLeast(u, k);
    } else if k <= -1 {
      MulAtLeast(u, -k);
    }
  }

  /** The largest multiple of `u` not above `a`. */
  lemma FloorMultiple(a: int, u: int)
    requires u > 0
    ensures (a / u) * u <= a < (a / u) * u + u
  {
    assert a == u * (a / u) + a % u;
  }

  /** The smallest multiple of `u` not below `a`. */
  lemma CeilMultiple(a: int, u: int)
    requires u > 0
    ensures var q := -((-a) / u); q * u - u < a <= q * u
  {
    FloorMultiple(-a, u);
    var q := -((-a) / u);
    assert q * u == -(((-a) / u) * u);
  }

  /** `floor(ms / u) * u` */
  function RoundDown(ms: int, u: int): (r: int)
    requires u > 0
    ensures r % u == 0 && r <= ms < r + u
    ensures ms >= 0 ==> r >= 0
  {
    var q := ms / u;
    MultipleOf(q, u);
    FloorMultiple(ms, u);
    q * u
  }

  /** `ceil(ms / u) * u` */
  function RoundUp(ms: int, u: int): (r: int)
    requires u > 0
    ensures r % u == 0 && r - u < ms <= r
    ensures ms >= 0 ==> r >= 0
  {
    var q := -((-ms) / u);
    MultipleOf(q, u);
    CeilMultiple(ms, u);
    q * u
  }

  /** `round(ms / u) * u`, ties to the even multiple. */
  function RoundNearest(ms: int, u: int): (r: int)
    requires u > 0
    ensures r % u == 0 && 2 * (ms - r) <= u && 2 * (r - ms) <= u
    ensures 2 * (ms - r) == u || 2 * (r - ms) == u ==> (r / u) % 2 == 0
    ensures ms >= 0 ==> r >= 0
  {
    var q := HalfEvenQuotient(ms, u);
    MultipleOf(q, u);
    assert ms >= 0 ==> q >= 0 by {
      if ms >= 0 && q < 0 { MulAtLeast(u, -q); }
    }
    q * u
  }

  /**
   * `roundDuration(ms, minutes, mode)`. With no granularity or mode NONE
   * (and for an unknown mode) the duration is returned unchanged; otherwise
   * it is a multiple of the unit `minutes * 60000`: DOWN the largest not
   * above `ms`, UP the smallest not below it, NEAREST the closest with ties
   * to an even multiple. A non-negative duration never rounds below zero.
   */
  function RoundDuration(ms: int, minutes: int, mode: string): (r: int)
    ensures minutes <= 0 || mode == "NONE" ==> r == ms
    ensures minutes > 0 && mode !in {"NONE", "NEAREST", "DOWN", "UP"} ==> r == ms
    ensures minutes > 0 && mode == "DOWN" ==>
      var u := minutes * 60_000; r % u == 0 && r <= ms < r + u
    ensures minutes > 0 && mode == "UP" ==>
      var u := minutes * 60_000; r % u == 0 && r - u < ms <= r
    ensures minutes > 0 && mode == "NEAREST" ==>
      var u := minutes * 60_000;
      && r % u == 0 && 2 * (ms - r) <= u && 2 * (r - ms) <= u
      && (2 * (ms - r) == u || 2 * (r - ms) == u ==> (r / u) % 2 == 0)
    ensures ms >= 0 ==> r >= 0
  {
    if minutes <= 0 || mode == "NONE" then ms
    else if mode == "NEAREST" then RoundNearest(ms, minutes * 60_000)
    else if mode == "DOWN" then RoundDown(ms, minutes * 60_000)
    else if mode == "UP" then RoundUp(ms, minutes * 60_000)
    else ms
  }

  lemma RoundingExamples()
    ensures RoundDuration(120_000, 5, "DOWN") == 0
    ensures RoundDuration(299_999, 5, "UP") == 300_000
    ensures RoundDuration(300_000, 5, "NEAREST") == 300_000
    ensures RoundDuration(150_000, 5, "NEAREST") == 0
    ensures RoundDuration(450_000, 5, "NEAREST") == 600_000
  {
  }

  // ---------------------------------------------------------------------
  // Holidays

  /** `md(y, m, d)`: midnight of that date. */
  function Md(y: int, m: int, d: int): int
    requires 1 <= m <= 12
  {
    DaysFromCivil(Date(y, m, d)) * DayMs
  }

  /** Month and day `easterSunday(year)` computes, with its day formula `(h - m + r + 90) % 25 + 1`. */
  function EasterMonthDay(year: int): (md: (int, int))
    ensures md.0 == 3 || md.0 == 4
    ensures 1 <= md.1 <= 25
    ensures md.0 == 3 ==> 16 <= md.1
  {
    var a := year % 19;
    var b := year / 100;
    var c := year % 100;
    var d := b / 4;
    var e := b % 4;
    var g := (8 * b + 13) / 25;
    var h := (19 * a + b - d - g + 15) % 30;
    var j := c / 4;
    var k := c % 4;
    var m := (a + 11 * h) / 319;
    var r := (2 * e + 2 * j - k - h + m + 32) % 7;
    assert h >= 28 && a >= 11 ==> m >= 1;
    assert h == 29 ==> m >= 1;
    ((h - m + r + 90) / 25, (h - m + r + 90) % 25 + 1)
  }

  /** The anonymous Gregorian algorithm as published, with day `(h - m + r + n + 19) % 32`. */
  function GregorianEaster(year: int): (int, int) {
    var a := year % 19;
    var b := year / 100;
    var c := year % 100;
    var d := b / 4;
    var e := b % 4;
    var g := (8 * b + 13) / 25;
    var h := (19 * a + b - d - g + 15) % 30;
    var j := c / 4;
    var k := c % 4;
    var m := (a + 11 * h) / 319;
    var r := (2 * e + 2 * j - k - h + m + 32) % 7;
    var n := (h - m + r + 90) / 25;
    (n, (h - m + r + n + 19) % 32)
  }

  /**
   * `easterSunday` agrees with the published algorithm whenever Easter falls
   * in April and is six days early whenever it falls in March.
   */
  lemma EasterAgainstGregorian(year: int)
    ensures EasterMonthDay(year).0 == GregorianEaster(year).0
    ensures EasterMonthDay(year).0 == 4 ==> EasterMonthDay(year).1 == GregorianEaster(year).1
    ensures EasterMonthDay(year).0 == 3 ==> EasterMonthDay(year).1 + 6 == GregorianEaster(year).1
  {
    var a := year % 19;
    var b := year / 100;
    var c := year % 100;
    var h := (19 * a + b - b / 4 - (8 * b + 13) / 25 + 15) % 30;
    var m := (a + 11 * h) / 319;
    var r := (2 * (b % 4) + 2 * (c / 4) - c % 4 - h + m + 32) % 7;
    var x := h - m + r + 90;
    assert EasterMonthDay(year) == (x / 25, x % 25 + 1);
    assert GregorianEaster(year) == (x / 25, (x - 71 + x / 25) % 32);
    EasterDayArith(x);
  }

  /** The two day formulas agree in April and differ by six in March. */
  lemma EasterDayArith(x: int)
    requires x / 25 == 3 || x / 25 == 4
    ensures x / 25 == 4 ==> x % 25 + 1 == (x - 71 + x / 25) % 32
    ensures x / 25 == 3 ==> x % 25 + 1 + 6 == (x - 71 + x / 25) % 32
  {
  }

  /** 2025: both give 20 April. */
  lemma Easter2025()
    ensures EasterMonthDay(2025) == (4, 20) && GregorianEaster(2025) == (4, 20)
  {
    assert 2025 % 19 == 11 && 2025 / 100 == 20 && 2025 % 100 == 25;
    assert (19 * 11 + 20 - 5 - 6 + 15) % 30 == 23;
    assert (11 + 11 * 23) / 319 == 0;
    assert (2 * 0 + 2 * 6 - 1 - 23 + 0 + 32) % 7 == 6;
    assert EasterMonthDay(2025) == (4, 20);
    assert GregorianEaster(2025) == (4, 20);
  }

  /** 2024: `easterSunday` gives 25 March, the published algorithm 31 March. */
  lemma Easter2024()
    ensures EasterMonthDay(2024) == (3, 25) && GregorianEaster(2024) == (3, 31)
  {
    assert 2024 % 19 == 10 && 2024 / 100 == 20 && 2024 % 100 == 24;
    assert (19 * 10 + 20 - 5 - 6 + 15) % 30 == 4;
    assert (10 + 11 * 4) / 319 == 0;
    assert (2 * 0 + 2 * 6 - 0 - 4 + 0 + 32) % 7 == 5;
    assert EasterMonthDay(2024) == (3, 25);
    assert GregorianEaster(2024) == (3, 31);
  }

  /** Day number of the date `easterSunday(year)` computes. */
  function EasterDay(year: int): int {
    var (n, p) := EasterMonthDay(year);
    DaysFromCivil(Date(year, n, p))
  }

  /** `easterSunday(year)`: midnight of that date, between 16 March and 25 April. */
  function EasterSunday(year: int): (r: int)
    ensures r % DayMs == 0 && Md(year, 3, 16) <= r <= Md(year, 4, 25)
  {
    EasterWindow(year);
    DaysScaled(DaysFromCivil(Date(year, 3, 16)), EasterDay(year), DaysFromCivil(Date(year, 4, 25)));
    EasterDay(year) * DayMs
  }

  /** Day numbers in order give midnights in order. */
  lemma DaysScaled(lo: int, n: int, hi: int)
    requires lo <= n <= hi
    ensures (n * DayMs) % DayMs == 0 && lo * DayMs <= n * DayMs <= hi * DayMs
  {
  }

  /**
   * Day number of `busUndBettag(year)`: the last Wednesday on or before
   * 23 November, then 7 days earlier; so always a Wednesday between 10 and
   * 16 November.
   */
  function BussUndBettagDay(year: int): (r: int)
    ensures Weekday(r) == Wednesday
    ensures DaysFromCivil(Date(year, 11, 10)) <= r <= DaysFromCivil(Date(year, 11, 16))
  {
    var nov23 := DaysFromCivil(Date(year, 11, 23));
    WeekdayShift(nov23, (Weekday(nov23) - Wednesday) % 7 + 7);
    nov23 - (Weekday(nov23) - Wednesday) % 7 - 7
  }

  /**
   * `busUndBettag(year)`: from 23 November the calendar steps back one day at
   * a time until a Wednesday, at most six steps, and then another week.
   */
  method BusUndBettag(year: int) returns (r: int)
    ensures r == BussUndBettagDay(year) * DayMs
  {
    var c := new Calendar.Cleared();
    c.SetDateTime(Date(year, 11, 23));
    ghost var nov23 := DaysFromCivil(Date(year, 11, 23));
    ghost var wed := nov23 - (Weekday(nov23) - Wednesday) % 7;
    WeekdayShift(nov23, (Weekday(nov23) - Wednesday) % 7);
    assert Weekday(wed) == Wednesday;
    while c.DayOfWeek() != 4
      invariant c.Valid() && c.hour == 0 && c.minute == 0 && c.second == 0 && c.milli == 0
      invariant wed <= c.day <= nov23
      decreases c.day - wed
    {
      assert c.day != wed;
      c.AddDays(-1);
    }
    WeekdayUnique(wed, c.day);
    c.AddDays(-7);
    r := c.TimeInMillis();
  }

  /**
   * In 2024 the computed date is 13 November, although the Wednesday before
   * 23 November 2024 is the 20th.
   */
  lemma BussUndBettag2024()
    ensures BussUndBettagDay(2024) == DaysFromCivil(Date(2024, 11, 13))
    ensures Weekday(DaysFromCivil(Date(2024, 11, 20))) == Wednesday
  {
    Start2024();
    assert DaysFromCivil(Date(2024, 11, 23)) == 20050;
    assert Weekday(20050) == 6;
  }

  /** 1 January 2024 is day 19723. */
  lemma Start2024()
    ensures YearStart(2024) == 19723
  {
    assert LeapsBefore(2024) == 490;
    assert LeapsBefore(1970) == 477;
  }

  /**
   * The instants `isHolidayDE` compares today's midnight with, for one
   * year: the fixed national dates, the national Easter offsets, and each
   * regional date.
   */
  datatype HolidayDates = HolidayDates(
    national: set<int>, easter: set<int>,
    epiphany: int, corpusChristi: int, allSaints: int, reformation: int,
    assumption: int, womensDay: int, childrensDay: int, bussUndBettag: int)

  /** `offset(d)`: `d` days after Easter Sunday. */
  function EasterOffset(y: int, d: int): int {
    EasterSunday(y) + d * DayMs
  }

  /** The dates of year `y`, each computed as `md`, `offset` or `busUndBettag` do. */
  function DatesOf(y: int): HolidayDates {
    HolidayDates(
      {Md(y, 1, 1), Md(y, 5, 1), Md(y, 10, 3), Md(y, 12, 25), Md(y, 12, 26)},
      {EasterOffset(y, -2), EasterOffset(y, 1), EasterOffset(y, 39), EasterOffset(y, 50)},
      Md(y, 1, 6), EasterOffset(y, 60), Md(y, 11, 1), Md(y, 10, 31),
      Md(y, 8, 15), Md(y, 3, 8), Md(y, 9, 20), BussUndBettagDay(y) * DayMs)
  }

  /** The chain of checks in `isHolidayDE`, in the order written. */
  function Decide(stateIso: string, today: int, h: HolidayDates): bool {
    if today in h.national then true
    else if today in h.easter then true
    else if today == h.epiphany && stateIso in {"BY", "BW", "ST"} then true
    else if today == h.corpusChristi && stateIso in {"BW", "BY", "HE", "NW", "RP", "SL"} then true
    else if today == h.allSaints && stateIso in {"BW", "BY", "NW", "RP", "SL"} then true
    else if today == h.reformation && stateIso in {"BB", "HB", "HH", "MV", "NI", "SN", "ST", "SH", "TH"} then true
    else if today == h.assumption && stateIso in {"BY", "SL"} then true
    else if today == h.womensDay && stateIso == "BE" then true
    else if today == h.childrensDay && stateIso == "TH" then true
    else if stateIso == "SN" && today == h.bussUndBettag then true
    else false
  }

  /** `isHolidayDE(stateIso, millis)`: today's midnight against the dates of the calendar year of `millis`. */
  function IsHolidayDE(stateIso: string, millis: int): (r: bool)
    ensures var h := DatesOf(YearOfDay(millis / DayMs)); var today := Midnight(millis);
      && (today in h.national || today in h.easter ==> r)
      && (r ==> today in h.national || today in h.easter || today in {h.epiphany, h.corpusChristi, h.allSaints,
                h.reformation, h.assumption, h.womensDay, h.childrensDay, h.bussUndBettag})
  {
    Decide(stateIso, Midnight(millis), DatesOf(YearOfDay(millis / DayMs)))
  }

  /** Every instant of a day gets the same answer. */
  lemma HolidayWholeDay(stateIso: string, t: int)
    ensures IsHolidayDE(stateIso, t) == IsHolidayDE(stateIso, Midnight(t))
  {
  }

  /** No two regional dates coincide, and none is a national holiday. */
  predicate Separated(h: HolidayDates) {
    var regional := [h.epiphany, h.corpusChristi, h.allSaints, h.reformation,
                     h.assumption, h.womensDay, h.childrensDay, h.bussUndBettag];
    && (forall i :: 0 <= i < |regional| ==> regional[i] !in h.national && regional[i] !in h.easter)
    && (forall i, j :: 0 <= i < j < |regional| ==> regional[i] != regional[j])
  }

  /**
   * On a regional date of a separated calendar the answer is exactly
   * whether the state is one of those listed for that date.
   */
  lemma DecideRegional(stateIso: string, today: int, h: HolidayDates)
    requires Separated(h)
    ensures today == h.epiphany ==> (Decide(stateIso, today, h) <==> stateIso in {"BY", "BW", "ST"})
    ensures today == h.corpusChristi ==> (Decide(stateIso, today, h) <==> stateIso in {"BW", "BY", "HE", "NW", "RP", "SL"})
    ensures today == h.allSaints ==> (Decide(stateIso, today, h) <==> stateIso in {"BW", "BY", "NW", "RP", "SL"})
    ensures today == h.reformation ==> (Decide(stateIso, today, h) <==> stateIso in {"BB", "HB", "HH", "MV", "NI", "SN", "ST", "SH", "TH"})
    ensures today == h.assumption ==> (Decide(stateIso, today, h) <==> stateIso in {"BY", "SL"})
    ensures today == h.womensDay ==> (Decide(stateIso, today, h) <==> stateIso == "BE")
    ensures today == h.childrensDay ==> (Decide(stateIso, today, h) <==> stateIso == "TH")
    ensures today == h.bussUndBettag ==> (Decide(stateIso, today, h) <==> stateIso == "SN")
  {
    var regional := [h.epiphany, h.corpusChristi, h.allSaints, h.reformation,
                     h.assumption, h.womensDay, h.childrensDay, h.bussUndBettag];
    assert regional[0] == h.epiphany && regional[1] == h.corpusChristi;
    assert regional[2] == h.allSaints && regional[3] == h.reformation;
    assert regional[4] == h.assumption && regional[5] == h.womensDay;
    assert regional[6] == h.childrensDay && regional[7] == h.bussUndBettag;
  }

  /** Easter Sunday lies between 16 March and 25 April. */
  lemma EasterWindow(y: int)
    ensures DaysFromCivil(Date(y, 3, 16)) <= EasterDay(y) <= DaysFromCivil(Date(y, 4, 25))
  {
  }

  /** In every year the dates are separated. */
  lemma DatesSeparated(y: int)
    ensures Separated(DatesOf(y))
  {
    DayOrder(y);
    EasterWindow(y);
    SeparatedByOrder(DatesOf(y), DaysFromCivil(Date(y, 1, 1)), DaysFromCivil(Date(y, 3, 16)),
      DaysFromCivil(Date(y, 5, 1)), DaysFromCivil(Date(y, 10, 3)), DaysFromCivil(Date(y, 11, 10)),
      DaysFromCivil(Date(y, 12, 25)), EasterDay(y), BussUndBettagDay(y));
  }

  /**
   * Dates laid out as in every year (Easter between 16 March and 25 April,
   * the day of prayer between 10 and 16 November) are separated.
   */
  lemma SeparatedByOrder(h: HolidayDates, jan1: int, mar16: int, may1: int, oct3: int, nov10: int, dec25: int, easter: int, buss: int)
    requires h.national == {jan1 * DayMs, may1 * DayMs, oct3 * DayMs, dec25 * DayMs, (dec25 + 1) * DayMs}
    requires h.easter == {(easter - 2) * DayMs, (easter + 1) * DayMs, (easter + 39) * DayMs, (easter + 50) * DayMs}
    requires h.epiphany == (jan1 + 5) * DayMs && h.womensDay == (mar16 - 8) * DayMs
    requires h.corpusChristi == (easter + 60) * DayMs && h.assumption == (may1 + 106) * DayMs
    requires h.childrensDay == (may1 + 142) * DayMs && h.reformation == (oct3 + 28) * DayMs
    requires h.allSaints == (oct3 + 29) * DayMs && h.bussUndBettag == buss * DayMs
    requires jan1 + 5 < mar16 - 8 && mar16 <= easter && easter + 6 <= may1 == mar16 + 46 && may1 + 155 == oct3
    requires oct3 + 29 < nov10 <= buss <= nov10 + 6 < dec25
    ensures Separated(h)
  {
  }

  /** The dates of a year in calendar order, with their gaps. */
  lemma DayOrder(y: int)
    ensures var jan1 := DaysFromCivil(Date(y, 1, 1));
      var mar16 := DaysFromCivil(Date(y, 3, 16));
      var may1 := DaysFromCivil(Date(y, 5, 1));
      var oct3 := DaysFromCivil(Date(y, 10, 3));
      && DaysFromCivil(Date(y, 1, 6)) == jan1 + 5 && jan1 + 5 < mar16 - 8
      && DaysFromCivil(Date(y, 3, 8)) == mar16 - 8
      && DaysFromCivil(Date(y, 4, 25)) + 6 == may1 == mar16 + 46
      && DaysFromCivil(Date(y, 8, 15)) == may1 + 106
      && DaysFromCivil(Date(y, 9, 20)) == may1 + 142
      && oct3 == may1 + 155
      && DaysFromCivil(Date(y, 10, 31)) == oct3 + 28
      && DaysFromCivil(Date(y, 11, 1)) == oct3 + 29
      && DaysFromCivil(Date(y, 11, 10)) == oct3 + 38
      && DaysFromCivil(Date(y, 12, 25)) == oct3 + 83
      && DaysFromCivil(Date(y, 12, 26)) == oct3 + 84
      && DaysFromCivil(Date(y, 11, 16)) == oct3 + 44
  {
  }

  /** Any instant of day `n` is evaluated against the calendar year `n` falls in. */
  lemma YearOfInstant(t: int, y: int, n: int)
    requires Midnight(t) == n * DayMs && YearStart(y) <= n < YearStart(y + 1)
    ensures YearOfDay(t / DayMs) == y && t / DayMs == n
  {
    YearOfDayUnique(n, y);
  }

  /** An instant on a date of year `y` is evaluated against the dates of `y`. */
  lemma YearOfDate(t: int, d: Date)
    requires ValidDate(d) && Midnight(t) == DaysFromCivil(d) * DayMs
    ensures YearOfDay(t / DayMs) == d.year && t / DayMs == DaysFromCivil(d)
  {
    DateRoundTrip(d);
  }

  /** The fixed national holidays count in every state, at any time of the day. */
  lemma NationalFixedHoliday(stateIso: string, t: int, y: int, m: int, d: int)
    requires (m, d) in {(1, 1), (5, 1), (10, 3), (12, 25), (12, 26)}
    requires Midnight(t) == Md(y, m, d)
    ensures IsHolidayDE(stateIso, t)
  {
    YearOfDate(t, Date(y, m, d));
  }

  /** Good Friday, Easter Monday, Ascension and Whit Monday count in every state. */
  lemma NationalEasterHoliday(stateIso: string, t: int, y: int, k: int)
    requires k in {-2, 1, 39, 50}
    requires Midnight(t) == EasterOffset(y, k)
    ensures IsHolidayDE(stateIso, t)
  {
    EasterWindow(y);
    YearStartStep(y);
    YearOfInstant(t, y, EasterDay(y) + k);
  }

  /** An instant on a valid date is judged against the dates of that date's year. */
  lemma OnDate(stateIso: string, t: int, dt: Date)
    requires ValidDate(dt) && Midnight(t) == DaysFromCivil(dt) * DayMs
    ensures IsHolidayDE(stateIso, t) == Decide(stateIso, Midnight(t), DatesOf(dt.year))
  {
    YearOfDate(t, dt);
  }

  /** Epiphany (6 January) is a holiday exactly in the states listed for it. */
  lemma EpiphanyHoliday(stateIso: string, t: int, y: int)
    requires Midnight(t) == Md(y, 1, 6)
    ensures IsHolidayDE(stateIso, t) <==> stateIso in {"BY", "BW", "ST"}
  {
    OnDate(stateIso, t, Date(y, 1, 6));
    DatesSeparated(y);
    DecideRegional(stateIso, Midnight(t), DatesOf(y));
  }

  /** Women's Day (8 March) is a holiday exactly in the states listed for it. */
  lemma WomensDayHoliday(stateIso: string, t: int, y: int)
    requires Midnight(t) == Md(y, 3, 8)
    ensures IsHolidayDE(stateIso, t) <==> stateIso in {"BE"}
  {
    OnDate(stateIso, t, Date(y, 3, 8));
    DatesSeparated(y);
    DecideRegional(stateIso, Midnight(t), DatesOf(y));
  }

  /** Assumption (15 August) is a holiday exactly in the states listed for it. */
  lemma AssumptionHoliday(stateIso: string, t: int, y: int)
    requires Midnight(t) == Md(y, 8, 15)
    ensures IsHolidayDE(stateIso, t) <==> stateIso in {"BY", "SL"}
  {
    OnDate(stateIso, t, Date(y, 8, 15));
    DatesSeparated(y);
    DecideRegional(stateIso, Midnight(t), DatesOf(y));
  }

  /** World Children's Day (20 September) is a holiday exactly in the states listed for it. */
  lemma ChildrensDayHoliday(stateIso: string, t: int, y: int)
    requires Midnight(t) == Md(y, 9, 20)
    ensures IsHolidayDE(stateIso, t) <==> stateIso in {"TH"}
  {
    OnDate(stateIso, t, Date(y, 9, 20));
    DatesSeparated(y);
    DecideRegional(stateIso, Midnight(t), DatesOf(y));
  }

  /** Reformation Day (31 October) is a holiday exactly in the states listed for it. */
  lemma ReformationDayHoliday(stateIso: string, t: int, y: int)
    requires Midnight(t) == Md(y, 10, 31)
    ensures IsHolidayDE(stateIso, t) <==> stateIso in {"BB", "HB", "HH", "MV", "NI", "SN", "ST", "SH", "TH"}
  {
    OnDate(stateIso, t, Date(y, 10, 31));
    DatesSeparated(y);
    DecideRegional(stateIso, Midnight(t), DatesOf(y));
  }

  /** All Saints (1 November) is a holiday exactly in the states listed for it. */
  lemma AllSaintsHoliday(stateIso: string, t: int, y: int)
    requires Midnight(t) == Md(y, 11, 1)
    ensures IsHolidayDE(stateIso, t) <==> stateIso in {"BW", "BY", "NW", "RP", "SL"}
  {
    OnDate(stateIso, t, Date(y, 11, 1));
    DatesSeparated(y);
    DecideRegional(stateIso, Midnight(t), DatesOf(y));
  }

  /** Corpus Christi (Easter + 60) is a holiday exactly in BW, BY, HE, NW, RP and SL. */
  lemma CorpusChristi(stateIso: string, t: int, y: int)
    requires Midnight(t) == EasterOffset(y, 60)
    ensures IsHolidayDE(stateIso, t) <==> stateIso in {"BW", "BY", "HE", "NW", "RP", "SL"}
  {
    EasterWindow(y);
    YearStartStep(y);
    YearOfInstant(t, y, EasterDay(y) + 60);
    DatesSeparated(y);
    DecideRegional(stateIso, Midnight(t), DatesOf(y));
  }

  /** Buss- und Bettag is a holiday in Saxony (SN) and nowhere else. */
  lemma BussUndBettagOnlySaxony(stateIso: string, t: int, y: int)
    requires Midnight(t) == BussUndBettagDay(y) * DayMs
    ensures IsHolidayDE(stateIso, t) <==> stateIso == "SN"
  {
    YearStartStep(y);
    YearOfInstant(t, y, BussUndBettagDay(y));
    DatesSeparated(y);
    DecideRegional(stateIso, Midnight(t), DatesOf(y));
  }
}
