/**
 * TriggerWorker.kt: the periodic check that decides which reminder to
 * post. It reads the settings, the expected start time of the current
 * weekday, whether a session runs and which WLAN the device is on; the
 * notifications themselves are side effects outside this model, so the
 * decision is the set of notifications the run would post.
 */
module Trigger {
  import opened Wrappers
  import opened Text
  import opened CivilDate
  import opened UtcCalendar
  import opened TimeUtils

  /**
   * The DataStore entries the worker reads. A missing entry is `None`; the
   * per-weekday start times `STD_START_MON` ... `STD_START_SUN` are keyed by
   * slot, Monday = 0 ... Sunday = 6, and a missing slot is absent.
   */
  datatype Prefs = Prefs(
    wifiEnabled: Option<bool>,
    wifiSsid: Option<string>,
    lateAfterMin: Option<int>,
    stdStart: map<int, string>)

  /** The two notifications: "Nicht eingeloggt" and "Arbeitsort verlassen". */
  datatype Notification = NotLoggedIn | LeftWorkplace

  const NoPrefs: Prefs := Prefs(None, None, None, map[])

  function WifiEnabled(p: Prefs): bool { p.wifiEnabled.GetOr(false) }
  function Ssid(p: Prefs): string { p.wifiSsid.GetOr("") }
  function LateAfter(p: Prefs): int { p.lateAfterMin.GetOr(10) }

  // ---------------------------------------------------------------------
  // parseStdStartToday

  /** The slot of `DAY_OF_WEEK` (Sunday = 1 ... Saturday = 7) in the Monday-first list. */
  function StdSlot(dayOfWeek: int): int {
    (dayOfWeek + 5) % 7
  }

  /** Slot 0 is Monday and slot 6 is Sunday: the slot is the weekday counted from Monday. */
  lemma SlotOfDay(day: int)
    ensures StdSlot(Weekday(day) + 1) == (Weekday(day) + 6) % 7
    ensures StdSlot(Weekday(day) + 1) == 0 <==> Weekday(day) == Monday
    ensures StdSlot(Weekday(day) + 1) == 6 <==> Weekday(day) == Sunday
  {
  }

  /** The text configured for the weekday of `now`, counted from Monday = 0, or "09:00". */
  function SlotText(p: Prefs, now: int): (r: string)
    ensures var k := (Weekday(now / DayMs) + 6) % 7; r == if k in p.stdStart then p.stdStart[k] else "09:00"
  {
    SlotOfDay(now / DayMs);
    var slot := StdSlot(Weekday(now / DayMs) + 1);
    if slot in p.stdStart then p.stdStart[slot] else "09:00"
  }

  /** The regular expression `^(\d{1,2}):(\d{2})$`, matched against the whole text. */
  predicate MatchesHhMm(s: string) {
    && 4 <= |s| <= 5
    && s[|s| - 3] == ':'
    && AllDigits(s[..|s| - 3])
    && AllDigits(s[|s| - 2..])
  }

  /** The match is exactly "one or two digits, a colon, two digits". */
  lemma MatchesHhMmShape(s: string)
    ensures MatchesHhMm(s) <==>
      exists hh, mm :: s == hh + ":" + mm && 1 <= |hh| <= 2 && |mm| == 2 && AllDigits(hh) && AllDigits(mm)
  {
    if MatchesHhMm(s) {
      var hh, mm := s[..|s| - 3], s[|s| - 2..];
      assert s == hh + ":" + mm;
    }
    if exists hh, mm :: s == hh + ":" + mm && 1 <= |hh| <= 2 && |mm| == 2 && AllDigits(hh) && AllDigits(mm) {
      var hh, mm :| s == hh + ":" + mm && 1 <= |hh| <= 2 && |mm| == 2 && AllDigits(hh) && AllDigits(mm);
      assert s[..|s| - 3] == hh;
      assert s[|s| - 2..] == mm;
    }
  }

  /** Hour and minute of a matching text, each clamped (`coerceIn(0, 23)`, `coerceIn(0, 59)`). */
  function HourMinute(s: string): (r: Option<(int, int)>)
    ensures r.None? <==> !MatchesHhMm(s)
    ensures r.Some? ==> 0 <= r.value.0 <= 23 && 0 <= r.value.1 <= 59
    ensures r.Some? && DigitsValue(s[..|s| - 3]) <= 23 ==> r.value.0 == DigitsValue(s[..|s| - 3])
    ensures r.Some? && DigitsValue(s[..|s| - 3]) > 23 ==> r.value.0 == 23
    ensures r.Some? && DigitsValue(s[|s| - 2..]) <= 59 ==> r.value.1 == DigitsValue(s[|s| - 2..])
    ensures r.Some? && DigitsValue(s[|s| - 2..]) > 59 ==> r.value.1 == 59
  {
    if MatchesHhMm(s) then
      Some((Clamp(DigitsValue(s[..|s| - 3]), 0, 23), Clamp(DigitsValue(s[|s| - 2..]), 0, 59)))
    else
      None
  }

  /**
   * `parseStdStartToday`: today's date at the configured hour and minute,
   * seconds and milliseconds zero; null when the text does not match.
   */
  function StdStartToday(p: Prefs, now: int): (r: Option<int>)
    ensures r.None? <==> !MatchesHhMm(SlotText(p, now))
    ensures r.Some? ==> Midnight(r.value) == Midnight(now) && r.value % 60_000 == 0
    ensures r.Some? ==> var hm := HourMinute(SlotText(p, now)).value;
      && (r.value - Midnight(now)) / 3_600_000 == hm.0
      && (r.value - Midnight(now)) % 3_600_000 / 60_000 == hm.1
  {
    match HourMinute(SlotText(p, now))
    case None => None
    case Some((h, m)) =>
      var v := Midnight(now) + h * 3_600_000 + m * 60_000;
      assert Midnight(v) == Midnight(now) by {
        assert Midnight(now) <= v < Midnight(now) + DayMs;
      }
      Some(v)
  }

  /** The calendar steps of `parseStdStartToday`. */
  method ParseStdStartToday(p: Prefs, now: int) returns (r: Option<int>)
    ensures r == StdStartToday(p, now)
  {
    var c := new Calendar.At(now);
    var idx := (c.DayOfWeek() + 5) % 7;
    var hhmm := if idx in p.stdStart then p.stdStart[idx] else "09:00";
    if !MatchesHhMm(hhmm) {
      return None;
    }
    var h := Clamp(DigitsValue(hhmm[..|hhmm| - 3]), 0, 23);
    var mi := Clamp(DigitsValue(hhmm[|hhmm| - 2..]), 0, 59);
    c.SetHourOfDay(h);
    c.SetMinute(mi);
    c.SetSecond(0);
    c.SetMillisecond(0);
    r := Some(c.TimeInMillis());
  }

  /** 1970-01-01 was a Thursday, slot 3; a missing slot means "09:00". */
  lemma StdStartDefault()
    ensures StdStartToday(NoPrefs, 0) == Some(9 * 3_600_000)
    ensures StdStartToday(Prefs(None, None, None, map[2 := "7:5"]), 0) == Some(9 * 3_600_000)
  {
    assert Weekday(0) == 4 && Midnight(0) == 0;
    var s := "09:00";
    assert s[..2] == "09" && s[3..] == "00";
    assert DigitsValue("09") == 9 && DigitsValue("00") == 0;
    assert HourMinute(s) == Some((9, 0));
  }

  /** A one-digit hour is accepted. */
  lemma StdStartOneDigitHour()
    ensures StdStartToday(Prefs(None, None, None, map[3 := "7:05"]), 0) == Some(7 * 3_600_000 + 5 * 60_000)
  {
    assert Weekday(0) == 4 && Midnight(0) == 0;
    var s := "7:05";
    assert s[..1] == "7" && s[2..] == "05";
    assert DigitsValue("7") == 7 && DigitsValue("05") == 5;
    assert HourMinute(s) == Some((7, 5));
  }

  /** Out-of-range parts clamp to 23:59. */
  lemma StdStartClamped()
    ensures StdStartToday(Prefs(None, None, None, map[3 := "25:70"]), 0) == Some(23 * 3_600_000 + 59 * 60_000)
  {
    assert Weekday(0) == 4 && Midnight(0) == 0;
    var s := "25:70";
    assert s[..2] == "25" && s[3..] == "70";
    assert DigitsValue("2") == 2 && DigitsValue("7") == 7;
    assert DigitsValue("25") == 25;
    assert DigitsValue("70") == 70;
    assert HourMinute(s) == Some((23, 59));
  }

  /** A one-digit minute or a trailing blank fails the pattern: no start time. */
  lemma StdStartRefused()
    ensures StdStartToday(Prefs(None, None, None, map[3 := "7:5"]), 0) == None
    ensures StdStartToday(Prefs(None, None, None, map[3 := "07:30 "]), 0) == None
  {
    assert Weekday(0) == 4;
    assert "7:5"[0] != ':';
    assert "07:30 "[3] != ':';
  }

  // ---------------------------------------------------------------------
  // isOnWifi and the decision

  /** The plain and the quoted form of an SSID without quotes both lose their quotes to give the SSID. */
  lemma Unquoted(target: string)
    ensures '"' !in target ==> RemoveAll(target, '"') == target && RemoveAll("\"" + target + "\"", '"') == target
  {
    if '"' !in target {
      RemoveAllAbsent(target, '"');
      RemoveAllConcat("\"" + target, "\"", '"');
      RemoveAllConcat("\"", target, '"');
      assert RemoveAll("\"", '"') == [];
    }
  }

  /** `isOnWifi`: the current SSID (none when unknown), with every `"` removed, equals the target ignoring case. */
  predicate IsOnWifi(target: string, current: Option<string>)
    ensures current.None? ==> !IsOnWifi(target, current)
    ensures '"' !in target && current == Some(target) ==> IsOnWifi(target, current)
    ensures '"' !in target && current == Some("\"" + target + "\"") ==> IsOnWifi(target, current)
  {
    Unquoted(target);
    current.Some? && EqualsIgnoreCase(RemoveAll(current.value, '"'), target)
  }

  /**
   * `atWork = wifiEnabled && ssid.isNotBlank() && isOnWifi(ssid)`: never
   * without detection, a configured SSID and a connection; always when the
   * device reports the configured SSID in Android's quoted form.
   */
  predicate AtWork(p: Prefs, current: Option<string>)
    ensures AtWork(p, current) ==> WifiEnabled(p) && !IsBlank(Ssid(p)) && current.Some?
    ensures WifiEnabled(p) && !IsBlank(Ssid(p)) && '"' !in Ssid(p) && current == Some("\"" + Ssid(p) + "\"") ==> AtWork(p, current)
  {
    WifiEnabled(p) && !IsBlank(Ssid(p)) && IsOnWifi(Ssid(p), current)
  }

  /** `now > expectStart + lateAfter * 60_000` */
  predicate Late(p: Prefs, now: int) {
    StdStartToday(p, now).Some? && now > StdStartToday(p, now).value + LateAfter(p) * 60_000
  }

  /** The notifications one run of `doWork` posts. */
  function Notifications(p: Prefs, running: bool, current: Option<string>, now: int): (r: set<Notification>)
    ensures !(NotLoggedIn in r && LeftWorkplace in r)
    ensures !WifiEnabled(p) ==> r == {}
  {
    var expectStart := StdStartToday(p, now);
    var atWork := AtWork(p, current);
    (if expectStart.Some? && atWork && !running && now > expectStart.value + LateAfter(p) * 60_000
     then {NotLoggedIn} else {})
    + (if running && !atWork && WifiEnabled(p) then {LeftWorkplace} else {})
  }

  /** "Nicht eingeloggt" is posted exactly when a start time is configured, the device is at work, nothing runs and the grace period has passed. */
  lemma NotLoggedInWhen(p: Prefs, running: bool, current: Option<string>, now: int)
    ensures NotLoggedIn in Notifications(p, running, current, now) <==>
      StdStartToday(p, now).Some? && AtWork(p, current) && !running && Late(p, now)
  {
  }

  /** "Arbeitsort verlassen" is posted exactly when a session runs, detection is on and the device is not at work. */
  lemma LeftWorkplaceWhen(p: Prefs, running: bool, current: Option<string>, now: int)
    ensures LeftWorkplace in Notifications(p, running, current, now) <==>
      running && !AtWork(p, current) && WifiEnabled(p)
  {
  }

  /** The grace period is strict: exactly at `expectStart + lateAfter` minutes nothing is posted, one millisecond later the reminder is. */
  lemma LateBoundary(p: Prefs, current: Option<string>, e: int)
    requires AtWork(p, current)
    requires StdStartToday(p, e + LateAfter(p) * 60_000) == Some(e)
    requires StdStartToday(p, e + LateAfter(p) * 60_000 + 1) == Some(e)
    ensures NotLoggedIn !in Notifications(p, false, current, e + LateAfter(p) * 60_000)
    ensures NotLoggedIn in Notifications(p, false, current, e + LateAfter(p) * 60_000 + 1)
  {
  }

  /** With detection on and a blank configured SSID the device is never at work, so a running session always draws "Arbeitsort verlassen". */
  lemma BlankSsidWarnsWhileRunning(p: Prefs, current: Option<string>, now: int)
    requires WifiEnabled(p) && IsBlank(Ssid(p))
    ensures Notifications(p, true, current, now) == {LeftWorkplace}
  {
  }

  /** Missing settings mean detection off, SSID "" and ten minutes' grace, so nothing is ever posted. */
  lemma DefaultsPostNothing(running: bool, current: Option<string>, now: int)
    ensures !WifiEnabled(NoPrefs) && Ssid(NoPrefs) == "" && LateAfter(NoPrefs) == 10
    ensures Notifications(NoPrefs, running, current, now) == {}
  {
  }

  /** Quotes around the reported SSID do not matter, and letter case does not either. */
  lemma QuotedSsid(target: string, s: string)
    requires '"' !in s
    ensures IsOnWifi(target, Some("\"" + s + "\"")) <==> EqualsIgnoreCase(s, target)
    ensures IsOnWifi(target, Some(s)) <==> EqualsIgnoreCase(s, target)
  {
    RemoveAllAbsent(s, '"');
    var q := "\"" + s + "\"";
    assert RemoveAll(q, '"') == s by {
      var c := ['"'];
      assert RemoveAll(c, '"') == [] by {
        assert c[1..] == [];
      }
      assert q == c + s + c;
      RemoveAllConcat(c + s, c, '"');
      RemoveAllConcat(c, s, '"');
    }
  }
}
