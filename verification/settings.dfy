/**
 * SettingsScreen.kt: the settings form. Each field's edit handler keeps
 * its value in range or in shape, the standard start times are
 * normalised to "HH:MM" as they are typed, and saving clamps the trigger
 * values and falls back to the default project label.
 */
module Settings {
  import opened Wrappers
  import opened Text
  import Trigger

  // ---------------------------------------------------------------------
  // normalizeTimeInput

  /** The index of the first colon in `v`, or `|v|` when there is none. */
  function ColonIndex(v: string): (k: nat)
    ensures k <= |v| && ':' !in v[..k]
    ensures k < |v| ==> v[k] == ':'
  {
    if v == [] || v[0] == ':' then 0
    else
      var k := 1 + ColonIndex(v[1..]);
      assert v[..k] == [v[0]] + v[1..][..k - 1];
      k
  }

  /**
   * The text the start-time field lets through, `^\d{0,2}:?\d{0,2}$`: up to
   * two digits, at most one colon, up to two digits.
   */
  predicate TimeInputShape(v: string)
    ensures TimeInputShape(v) <==> PatternShape(v)
  {
    ShapeRegex(v);
    var k := ColonIndex(v);
    if k == |v| then AllDigits(v) && |v| <= 4
    else k <= 2 && |v| - k - 1 <= 2 && AllDigits(v[..k]) && AllDigits(v[k + 1..])
  }

  /** The text up to the first colon and after it, with their length limits. */
  predicate SplitShape(v: string) {
    var k := ColonIndex(v);
    (k == |v| && AllDigits(v) && |v| <= 4) || (k < |v| && k <= 2 && |v| - k - 1 <= 2 && AllDigits(v[..k]) && AllDigits(v[k + 1..]))
  }

  /** `^\d{0,2}:?\d{0,2}$` written out: up to four digits, or up to two digits, a colon, up to two digits. */
  ghost predicate PatternShape(v: string) {
    || (AllDigits(v) && |v| <= 4)
    || exists a, b :: v == a + ":" + b && |a| <= 2 && |b| <= 2 && AllDigits(a) && AllDigits(b)
  }

  /** Splitting at the first colon reads the pattern: digits alone, or digits, one colon, digits. */
  lemma ShapeRegex(v: string)
    ensures SplitShape(v) <==> PatternShape(v)
  {
    var k := ColonIndex(v);
    if AllDigits(v) {
      DigitsNoColon(v);
    }
    if SplitShape(v) && k < |v| {
      assert v == v[..k] + ":" + v[k + 1..];
    }
    if PatternShape(v) && !AllDigits(v) {
      var a, b :| v == a + ":" + b && |a| <= 2 && |b| <= 2 && AllDigits(a) && AllDigits(b);
      ColonOfParts(v, a, b);
    }
  }

  /** In digits, a colon, digits, the first colon is the one between the parts. */
  lemma ColonOfParts(v: string, a: string, b: string)
    requires v == a + ":" + b && AllDigits(a)
    ensures ColonIndex(v) == |a| && v[..|a|] == a && v[|a| + 1..] == b
  {
    var k := ColonIndex(v);
    DigitsNoColon(a);
    assert v[|a|] == ':';
  }

  lemma DigitsNoColon(a: string)
    requires AllDigits(a)
    ensures ':' !in a
  {
    assert forall i :: 0 <= i < |a| ==> a[i] != ':';
  }

  /** Removing the one colon between two colon-free parts joins the parts. */
  lemma RemoveColon(a: string, b: string)
    requires ':' !in a && ':' !in b
    ensures RemoveAll(a + [':'] + b, ':') == a + b
  {
    ColonAlone();
    RemoveAllConcat(a + [':'], b, ':');
    RemoveAllConcat(a, [':'], ':');
    RemoveAllAbsent(a, ':');
    RemoveAllAbsent(b, ':');
    assert a + [] == a;
  }

  lemma ColonAlone()
    ensures RemoveAll([':'], ':') == []
  {
    var c := [':'];
    assert c[1..] == [];
  }

  /** Without its colon, text of that shape is at most four digits. */
  lemma ShapeDigits(v: string)
    requires TimeInputShape(v)
    ensures AllDigits(RemoveAll(v, ':')) && |RemoveAll(v, ':')| <= 4
  {
    var k := ColonIndex(v);
    if k == |v| {
      assert v[..k] == v;
      RemoveAllAbsent(v, ':');
    } else {
      var a, b := v[..k], v[k + 1..];
      assert v == a + [':'] + b;
      DigitsNoColon(b);
      RemoveColon(a, b);
    }
  }

  /** Leading zeros do not change the value of a digit string. */
  lemma {:induction false} LeadingZeros(k: nat, s: string)
    requires AllDigits(s)
    ensures AllDigits(Repeat('0', k) + s) && DigitsValue(Repeat('0', k) + s) == DigitsValue(s)
  {
    if s == [] {
      assert Repeat('0', k) + s == Repeat('0', k);
      AllZeros(k);
    } else {
      var z := Repeat('0', k) + s;
      assert z[..|z| - 1] == Repeat('0', k) + s[..|s| - 1];
      LeadingZeros(k, s[..|s| - 1]);
    }
  }

  lemma {:induction false} AllZeros(k: nat)
    ensures AllDigits(Repeat('0', k)) && DigitsValue(Repeat('0', k)) == 0
  {
    if k > 0 {
      var z := Repeat('0', k);
      assert z[..k - 1] == Repeat('0', k - 1);
      AllZeros(k - 1);
    }
  }

  /** A trailing zero multiplies by ten. */
  lemma TrailingZero(s: string)
    requires AllDigits(s)
    ensures AllDigits(s + "0") && DigitsValue(s + "0") == 10 * DigitsValue(s)
  {
    assert (s + "0")[..|s|] == s;
  }

  /** `raw.take(2).padStart(2, '0').take(2)`: the hour digits, a lone digit led by 0. */
  function HourDigits(raw: string): (hh: string)
    requires AllDigits(raw)
    ensures |hh| == 2 && AllDigits(hh) && DigitsValue(hh) == DigitsValue(Take(raw, 2))
  {
    LeadingZeros(2 - |Take(raw, 2)|, Take(raw, 2));
    Take(PadStart(Take(raw, 2), 2, '0'), 2)
  }

  /**
   * `raw.drop(2).padEnd(2, '0').take(2)`: the minute digits, a lone digit
   * followed by 0, no digit read as 00.
   */
  function MinuteDigits(raw: string): (mm: string)
    requires AllDigits(raw) && |raw| <= 4
    ensures |mm| == 2 && AllDigits(mm)
    ensures var rest := Drop(raw, 2);
      DigitsValue(mm) == if |rest| == 1 then 10 * DigitsValue(rest) else DigitsValue(rest)
  {
    MinutePadding(Drop(raw, 2));
    Take(PadEnd(Drop(raw, 2), 2, '0'), 2)
  }

  lemma MinutePadding(rest: string)
    requires AllDigits(rest) && |rest| <= 2
    ensures var mm := Take(PadEnd(rest, 2, '0'), 2);
      && |mm| == 2 && AllDigits(mm)
      && DigitsValue(mm) == if |rest| == 1 then 10 * DigitsValue(rest) else DigitsValue(rest)
  {
    var mm := Take(PadEnd(rest, 2, '0'), 2);
    if |rest| == 0 {
      assert mm == "00";
      assert DigitsValue("00") == 0;
    } else if |rest| == 1 {
      assert mm == rest + "0";
      TrailingZero(rest);
    } else {
      assert mm == rest;
    }
  }

  /** `"%02d:%02d".format(h, m)` */
  function HhMm(h: int, m: int): (r: string)
    requires 0 <= h <= 23 && 0 <= m <= 59
    ensures |r| == 5 && r[2] == ':' && AllDigits(r[..2]) && AllDigits(r[3..])
    ensures DigitsValue(r[..2]) == h && DigitsValue(r[3..]) == m
  {
    var r := Format02(h) + ":" + Format02(m);
    assert r[..2] == Format02(h) && r[3..] == Format02(m);
    r
  }

  /** The text is all colons exactly when nothing is left after removing them. */
  lemma OnlyColons(v: string)
    ensures RemoveAll(v, ':') == [] <==> forall i :: 0 <= i < |v| ==> v[i] == ':'
  {
    var raw := RemoveAll(v, ':');
    if raw != [] {
      assert raw[0] in raw;
    }
    if exists i :: 0 <= i < |v| && v[i] != ':' {
      var i :| 0 <= i < |v| && v[i] != ':';
      assert v[i] in raw;
    }
  }

  /**
   * `normalizeTimeInput(v)`: "" when nothing but colons was typed;
   * otherwise "HH:MM" from the first two digits as the hour and the rest as
   * the minutes, each clamped into its range. Only called on text of the
   * field's shape, so `toInt()` never meets anything but digits.
   */
  function NormalizeTimeInput(v: string): (r: string)
    requires TimeInputShape(v)
    ensures r == [] <==> forall i :: 0 <= i < |v| ==> v[i] == ':'
    ensures r != [] ==> |r| == 5 && r[2] == ':' && AllDigits(r[..2]) && AllDigits(r[3..])
    ensures r != [] ==> DigitsValue(r[..2]) <= 23 && DigitsValue(r[3..]) <= 59
    ensures r != [] ==> var raw := RemoveAll(v, ':'); var rest := Drop(raw, 2);
      && AllDigits(raw) && |raw| <= 4
      && DigitsValue(r[..2]) == Clamp(DigitsValue(Take(raw, 2)), 0, 23)
      && DigitsValue(r[3..]) == Clamp(if |rest| == 1 then 10 * DigitsValue(rest) else DigitsValue(rest), 0, 59)
  {
    var raw := RemoveAll(v, ':');
    ShapeDigits(v);
    OnlyColons(v);
    if raw == [] then ""
    else HhMm(Clamp(DigitsValue(HourDigits(raw)), 0, 23), Clamp(DigitsValue(MinuteDigits(raw)), 0, 59))
  }

  /**
   * Normalised text is "hh:mm" for the two-digit strings whose values are
   * the clamped hour and minute read from the digits typed.
   */
  lemma NormalizeParts(v: string, hs: string, ms: string)
    requires TimeInputShape(v) && v != [] && v[0] != ':'
    requires |hs| == 2 && AllDigits(hs) && |ms| == 2 && AllDigits(ms)
    requires var raw := RemoveAll(v, ':'); var rest := Drop(raw, 2);
      && AllDigits(raw)
      && DigitsValue(hs) == Clamp(DigitsValue(Take(raw, 2)), 0, 23)
      && DigitsValue(ms) == Clamp(if |rest| == 1 then 10 * DigitsValue(rest) else DigitsValue(rest), 0, 59)
    ensures NormalizeTimeInput(v) == hs + ":" + ms
  {
    var r := NormalizeTimeInput(v);
    assert r != [] by {
      assert v[0] != ':';
    }
    FormattedEq(r, hs, ms);
  }

  /** "HH:MM" text is determined by the values of its two digit pairs. */
  lemma FormattedEq(r: string, hs: string, ms: string)
    requires |r| == 5 && r[2] == ':' && AllDigits(r[..2]) && AllDigits(r[3..])
    requires |hs| == 2 && AllDigits(hs) && |ms| == 2 && AllDigits(ms)
    requires DigitsValue(r[..2]) == DigitsValue(hs) && DigitsValue(r[3..]) == DigitsValue(ms)
    ensures r == hs + ":" + ms
  {
    DigitsDetermine(r[..2], hs);
    DigitsDetermine(r[3..], ms);
    assert r == r[..2] + ":" + r[3..];
  }

  /** A lone digit is the hour: "1" becomes "01:00". */
  lemma NormalizeLoneDigit(v: string)
    requires |v| == 1 && IsDigit(v[0])
    ensures TimeInputShape(v) && NormalizeTimeInput(v) == ['0', v[0]] + ":00"
  {
    DigitsShape(v);
    var hs := ['0', v[0]];
    assert hs[..1] == "0" && v[..0] == [];
    ZeroValues();
    NormalizeParts(v, hs, "00");
  }

  /** A third digit is the tens of the minutes: "123" becomes "12:30". */
  lemma NormalizeThreeDigits(v: string)
    requires |v| == 3 && AllDigits(v) && DigitsValue(v[..2]) <= 23 && v[2] <= '5'
    ensures TimeInputShape(v) && NormalizeTimeInput(v) == v[..2] + ":" + [v[2], '0']
  {
    DigitsShape(v);
    var rest := v[2..];
    assert rest == [v[2]] && rest[..0] == [];
    TrailingZero(rest);
    assert rest + "0" == [v[2], '0'];
    NormalizeParts(v, v[..2], [v[2], '0']);
  }

  /** Digits without a colon have the field's shape when there are at most four, and are their own raw digits. */
  lemma DigitsShape(v: string)
    requires AllDigits(v) && |v| <= 4
    ensures TimeInputShape(v) && RemoveAll(v, ':') == v
  {
    DigitsNoColon(v);
    RemoveAllAbsent(v, ':');
    assert v[..ColonIndex(v)] == v;
  }

  lemma ZeroValues()
    ensures DigitsValue("0") == 0 && DigitsValue("00") == 0
  {
    assert "00"[..1] == "0" && "0"[..0] == [];
  }

  /** Out-of-range parts clamp: "99:99" becomes "23:59". */
  lemma NormalizeClamped(v: string)
    requires |v| == 5 && v[2] == ':' && AllDigits(v[..2]) && AllDigits(v[3..])
    requires DigitsValue(v[..2]) > 23 && DigitsValue(v[3..]) > 59
    ensures TimeInputShape(v) && NormalizeTimeInput(v) == "23:59"
  {
    FormattedShape(v);
    var raw := v[..2] + v[3..];
    assert Take(raw, 2) == v[..2] && Drop(raw, 2) == v[3..];
    assert v[0] == v[..2][0];
    LimitValues();
    NormalizeParts(v, "23", "59");
  }

  lemma LimitValues()
    ensures DigitsValue("23") == 23 && DigitsValue("59") == 59
  {
    assert "23"[..1] == "2" && "59"[..1] == "5";
  }

  /** Nothing but a colon clears the field. */
  lemma NormalizeColonOnly()
    ensures NormalizeTimeInput(":") == ""
  {
  }

  /** The field's own output has the field's shape, and normalising it again changes nothing. */
  lemma NormalizeIdempotent(v: string)
    requires TimeInputShape(v)
    ensures TimeInputShape(NormalizeTimeInput(v))
    ensures NormalizeTimeInput(NormalizeTimeInput(v)) == NormalizeTimeInput(v)
  {
    var r := NormalizeTimeInput(v);
    if r == [] {
      assert AllDigits(r);
    } else {
      FormattedFixed(r);
    }
  }

  /** "HH:MM" text has the field's shape, and its colon is the only one. */
  lemma FormattedShape(r: string)
    requires |r| == 5 && r[2] == ':' && AllDigits(r[..2]) && AllDigits(r[3..])
    ensures TimeInputShape(r) && RemoveAll(r, ':') == r[..2] + r[3..]
  {
    var hh, mm := r[..2], r[3..];
    assert r == hh + [':'] + mm;
    DigitsNoColon(hh);
    DigitsNoColon(mm);
    RemoveColon(hh, mm);
    ColonAt(r, 2);
  }

  /** A colon with none before it is the first colon. */
  lemma {:induction false} ColonAt(v: string, k: nat)
    requires k < |v| && v[k] == ':' && ':' !in v[..k]
    ensures ColonIndex(v) == k
  {
    if k > 0 {
      assert v[0] == v[..k][0];
      assert v[1..][..k - 1] == v[..k][1..];
      ColonAt(v[1..], k - 1);
    }
  }

  /** In-range "HH:MM" text normalises to itself. */
  lemma FormattedFixed(r: string)
    requires |r| == 5 && r[2] == ':' && AllDigits(r[..2]) && AllDigits(r[3..])
    requires DigitsValue(r[..2]) <= 23 && DigitsValue(r[3..]) <= 59
    ensures TimeInputShape(r) && NormalizeTimeInput(r) == r
  {
    FormattedShape(r);
    var hh, mm := r[..2], r[3..];
    var raw := hh + mm;
    assert Take(raw, 2) == hh && Drop(raw, 2) == mm;
    var r2 := NormalizeTimeInput(r);
    assert r2 != [] by {
      assert r[0] == hh[0];
    }
    FormattedEq(r2, hh, mm);
    assert r == hh + ":" + mm;
  }

  /** Two digit strings of the same length and value are equal. */
  lemma {:induction false} DigitsDetermine(a: string, b: string)
    requires AllDigits(a) && AllDigits(b) && |a| == |b| && DigitsValue(a) == DigitsValue(b)
    ensures a == b
  {
    if a != [] {
      var n := |a|;
      LastDigit(a);
      LastDigit(b);
      DigitsDetermine(a[..n - 1], b[..n - 1]);
      assert a == a[..n - 1] + [a[n - 1]] && b == b[..n - 1] + [b[n - 1]];
      assert a[n - 1] as int == DigitValue(a[n - 1]) + '0' as int;
    }
  }

  /**
   * A start time the field stores is either empty, which the worker reads
   * as "no start time today", or text the worker's `^(\d{1,2}):(\d{2})$`
   * accepts, with the hour and minute the field shows.
   */
  lemma StoredStartParses(v: string)
    requires TimeInputShape(v)
    ensures var r := NormalizeTimeInput(v);
      && (r == [] ==> Trigger.HourMinute(r) == None)
      && (r != [] ==> Trigger.HourMinute(r) == Some((DigitsValue(r[..2]), DigitsValue(r[3..]))))
  {
    var r := NormalizeTimeInput(v);
    if r != [] {
      assert r[..|r| - 3] == r[..2] && r[|r| - 2..] == r[3..];
    }
  }

  /** `if (v.matches(...)) stdStarts[i] = normalizeTimeInput(v)`: text of another shape is ignored. */
  function StdStartEdited(current: string, v: string): (r: string)
    ensures TimeInputShape(v) ==> r == NormalizeTimeInput(v)
    ensures !TimeInputShape(v) ==> r == current
  {
    if TimeInputShape(v) then NormalizeTimeInput(v) else current
  }

  /** Starting from "09:00", every sequence of edits leaves a text the worker can read or an empty one. */
  lemma StdStartEditKeepsReadable(current: string, v: string)
    requires current == [] || Trigger.MatchesHhMm(current)
    ensures var r := StdStartEdited(current, v); r == [] || Trigger.MatchesHhMm(r)
  {
    if TimeInputShape(v) {
      StoredStartParses(v);
    }
  }

  // ---------------------------------------------------------------------
  // The form and saving it

  /** The values of the settings form, as kept between edits. */
  datatype Form = Form(
    weekHours: int,
    weekStartMonday: bool,
    stateIso: string,
    roundingMin: int,
    roundingMode: string,
    wifiEnabled: bool,
    wifiSsid: string,
    checkMin: int,
    lateAfter: int,
    stdStarts: seq<string>,
    forceDark: bool,
    projectLabel: string)

  /** The form when no preference is stored yet. */
  const DefaultForm: Form := Form(
    40, true, "BY", 0, "NONE", false, "", 15, 10,
    ["09:00", "09:00", "09:00", "09:00", "09:00", "09:00", "09:00"], false, "Projekte")

  /** `v.toIntOrNull()?.coerceIn(0, 80) ?: weekHours` */
  function WeekHoursEdited(current: int, v: string): (r: int)
    ensures ToIntOrNull(v).None? ==> r == current
    ensures ToIntOrNull(v).Some? ==> 0 <= r <= 80 && (0 <= ToIntOrNull(v).value <= 80 ==> r == ToIntOrNull(v).value)
    ensures 0 <= current <= 80 ==> 0 <= r <= 80
    ensures ToIntOrNull(v).Some? ==> r == Clamp(ToIntOrNull(v).value, 0, 80)
  {
    match ToIntOrNull(v)
    case None => current
    case Some(n) => Clamp(n, 0, 80)
  }

  /** `it.toIntOrNull() ?: checkMin` (and the same for `lateAfter`): a number replaces the value, anything else keeps it. */
  function NumberEdited(current: int, v: string): (r: int)
    ensures ToIntOrNull(v).None? ==> r == current
    ensures ToIntOrNull(v).Some? ==> r == ToIntOrNull(v).value
  {
    ToIntOrNull(v).GetOr(current)
  }

  /**
   * `save()`: the check interval is stored within 15..60 minutes, the
   * lateness threshold within 0..120, a blank project label as "Projekte";
   * every other value is stored as it stands.
   */
  function Saved(f: Form): (r: Form)
    ensures 15 <= r.checkMin <= 60 && 0 <= r.lateAfter <= 120
    ensures 15 <= f.checkMin <= 60 ==> r.checkMin == f.checkMin
    ensures 0 <= f.lateAfter <= 120 ==> r.lateAfter == f.lateAfter
    ensures r.checkMin == Clamp(f.checkMin, 15, 60) && r.lateAfter == Clamp(f.lateAfter, 0, 120)
    ensures !IsBlank(r.projectLabel)
    ensures IsBlank(f.projectLabel) ==> r.projectLabel == "Projekte"
    ensures !IsBlank(f.projectLabel) ==> r.projectLabel == f.projectLabel
    ensures r.(checkMin := f.checkMin, lateAfter := f.lateAfter, projectLabel := f.projectLabel) == f
  {
    assert !IsBlank("Projekte") by {
      assert !IsWhitespace("Projekte"[0]);
    }
    f.(checkMin := Clamp(f.checkMin, 15, 60),
       lateAfter := Clamp(f.lateAfter, 0, 120),
       projectLabel := if IsBlank(f.projectLabel) then "Projekte" else f.projectLabel)
  }

  /** Saving what was saved changes nothing, and the defaults are stored unchanged. */
  lemma SavedIdempotent(f: Form)
    ensures Saved(Saved(f)) == Saved(f)
    ensures Saved(DefaultForm) == DefaultForm
  {
    assert !IsBlank("Projekte") by {
      assert !IsWhitespace("Projekte"[0]);
    }
  }
}
