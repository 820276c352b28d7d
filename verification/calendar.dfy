/**
 * `java.util.Calendar` as the app uses it, in UTC: a mutable object whose
 * fields are set and added to one at a time, and whose `timeInMillis` is
 * read back at the end.
 */
module UtcCalendar {
  import opened CivilDate

  /** A time of day splits into hours, minutes, seconds and milliseconds. */
  lemma MillisOfDay(rest: int)
    requires 0 <= rest < DayMs
    ensures 0 <= rest / 3_600_000 < 24 && 0 <= rest % 3_600_000 / 60_000 < 60
    ensures 0 <= rest % 60_000 / 1000 < 60 && 0 <= rest % 1000 < 1000
    ensures rest == rest / 3_600_000 * 3_600_000 + rest % 3_600_000 / 60_000 * 60_000
                    + rest % 60_000 / 1000 * 1000 + rest % 1000
  {
    var h, r1 := rest / 3_600_000, rest % 3_600_000;
    var m, r2 := r1 / 60_000, r1 % 60_000;
    var s, ms := r2 / 1000, r2 % 1000;
    MinuteRemainder(rest, 60 * h + m, r2);
    SecondRemainder(rest, 3_600 * h + 60 * m + s, ms);
  }

  lemma MinuteRemainder(x: int, q: int, r: int)
    requires x == 60_000 * q + r && 0 <= r < 60_000
    ensures x % 60_000 == r
  {
  }

  lemma SecondRemainder(x: int, q: int, r: int)
    requires x == 1000 * q + r && 0 <= r < 1000
    ensures x % 1000 == r
  {
  }

  class Calendar {
    /** Day number (days since 1970-01-01). */
    var day: int
    var hour: int
    var minute: int
    var second: int
    var milli: int

    ghost predicate Valid()
      reads this
    {
      0 <= hour < 24 && 0 <= minute < 60 && 0 <= second < 60 && 0 <= milli < 1000
    }

    function TimeInMillis(): int
      reads this
    {
      day * DayMs + hour * 3_600_000 + minute * 60_000 + second * 1000 + milli
    }

    /** `Calendar.DAY_OF_WEEK`: Sunday = 1 ... Saturday = 7. */
    function DayOfWeek(): (dow: int)
      reads this
      ensures 1 <= dow <= 7
    {
      Weekday(day) + 1
    }

    /** `Calendar.YEAR` */
    function Year(): int
      reads this
    {
      YearOfDay(day)
    }

    /** `Calendar.getInstance().apply { timeInMillis = t }` */
    constructor At(t: int)
      ensures Valid() && TimeInMillis() == t
      ensures day == t / DayMs
    {
      var rest := t % DayMs;
      MillisOfDay(rest);
      day := t / DayMs;
      hour := rest / 3_600_000;
      minute := rest % 3_600_000 / 60_000;
      second := rest % 60_000 / 1000;
      milli := rest % 1000;
    }

    /** `Calendar.getInstance(); clear()`: every field back to the epoch. */
    constructor Cleared()
      ensures Valid() && TimeInMillis() == 0 && day == 0
    {
      day, hour, minute, second, milli := 0, 0, 0, 0, 0;
    }

    /** `set(HOUR_OF_DAY, h)` */
    method SetHourOfDay(h: int)
      requires Valid() && 0 <= h < 24
      modifies this
      ensures Valid() && hour == h
      ensures day == old(day) && minute == old(minute) && second == old(second) && milli == old(milli)
    {
      hour := h;
    }

    /** `set(MINUTE, m)` */
    method SetMinute(m: int)
      requires Valid() && 0 <= m < 60
      modifies this
      ensures Valid() && minute == m
      ensures day == old(day) && hour == old(hour) && second == old(second) && milli == old(milli)
    {
      minute := m;
    }

    /** `set(SECOND, s)` */
    method SetSecond(s: int)
      requires Valid() && 0 <= s < 60
      modifies this
      ensures Valid() && second == s
      ensures day == old(day) && hour == old(hour) && minute == old(minute) && milli == old(milli)
    {
      second := s;
    }

    /** `set(MILLISECOND, ms)` */
    method SetMillisecond(ms: int)
      requires Valid() && 0 <= ms < 1000
      modifies this
      ensures Valid() && milli == ms
      ensures day == old(day) && hour == old(hour) && minute == old(minute) && second == old(second)
    {
      milli := ms;
    }

    /** `set(y, m - 1, d, 0, 0, 0)`: the date and the time down to the second; milliseconds stay. */
    method SetDateTime(d: Date)
      requires Valid() && ValidDate(d)
      modifies this
      ensures Valid() && day == DaysFromCivil(d) && hour == 0 && minute == 0 && second == 0
      ensures milli == old(milli)
    {
      day := DaysFromCivil(d);
      hour, minute, second := 0, 0, 0;
    }

    /** `add(DAY_OF_MONTH, k)` (or `DAY_OF_YEAR`): whole days, the time of day stays. */
    method AddDays(k: int)
      requires Valid()
      modifies this
      ensures Valid() && day == old(day) + k
      ensures hour == old(hour) && minute == old(minute) && second == old(second) && milli == old(milli)
      ensures TimeInMillis() == old(TimeInMillis()) + k * DayMs
    {
      day := day + k;
    }
  }
}
