/**
 * Clock-time tokens: the 12- and 24-hour grammars `datetime.strptime` is
 * used with, the `HH:MM` text `strftime("%H:%M")` produces, and the two
 * per-token helpers of the hours normaliser (digit runs such as `600pm`,
 * and copying a missing am/pm marker across a range).
 */
module Clock {
  import opened Wrappers
  import opened PyText

  function DigitValue(c: char): nat
    requires IsDigit(c)
  {
    c as int - '0' as int
  }

  function DigitChar(n: nat): (c: char)
    requires n < 10
    ensures IsDigit(c) && DigitValue(c) == n
  {
    ('0' as int + n) as char
  }

  /** A number below 100 written with exactly two digits, as `%H` and `%M` print it. */
  function Pad2(n: nat): (r: string)
    requires n < 100
    ensures |r| == 2 && IsDigit(r[0]) && IsDigit(r[1])
    ensures 10 * DigitValue(r[0]) + DigitValue(r[1]) == n
  {
    [DigitChar(n / 10), DigitChar(n % 10)]
  }

  /** A number below 100 in decimal without leading zero, as a clock hour is usually typed. */
  function NatText(n: nat): (r: string)
    requires n < 100
    ensures 1 <= |r| <= 2 && forall i :: 0 <= i < |r| ==> IsDigit(r[i])
  {
    if n < 10 then [DigitChar(n)] else Pad2(n)
  }

  /** A canonical 24-hour time `HH:MM`: zero-padded, hour 00-23, minute 00-59. */
  predicate IsClock(s: string)
  {
    |s| == 5 && IsDigit(s[0]) && IsDigit(s[1]) && s[2] == ':' && IsDigit(s[3]) && IsDigit(s[4]) &&
    10 * DigitValue(s[0]) + DigitValue(s[1]) < 24 && 10 * DigitValue(s[3]) + DigitValue(s[4]) < 60
  }

  function HourOf(s: string): nat
    requires IsClock(s)
  {
    10 * DigitValue(s[0]) + DigitValue(s[1])
  }

  function MinuteOf(s: string): nat
    requires IsClock(s)
  {
    10 * DigitValue(s[3]) + DigitValue(s[4])
  }

  /** `strftime("%H:%M")` of a time of day. */
  function ClockText(h: nat, m: nat): (r: string)
    requires h < 24 && m < 60
    ensures IsClock(r) && HourOf(r) == h && MinuteOf(r) == m
  {
    Pad2(h) + ":" + Pad2(m)
  }

  /** A canonical time is determined by its hour and minute. */
  lemma ClockTextOfParts(s: string)
    requires IsClock(s)
    ensures ClockText(HourOf(s), MinuteOf(s)) == s
  {
    var r := ClockText(HourOf(s), MinuteOf(s));
    assert DigitValue(r[0]) == DigitValue(s[0]) && DigitValue(r[1]) == DigitValue(s[1]);
    assert DigitValue(r[3]) == DigitValue(s[3]) && DigitValue(r[4]) == DigitValue(s[4]);
  }

  /** `%I` as a whole string: `1[0-2]|0[1-9]|[1-9]`. */
  function Hour12(s: string): (r: Option<nat>)
    ensures r.Some? ==> 1 <= r.value <= 12 && (s == NatText(r.value) || s == Pad2(r.value))
  {
    if |s| == 1 && '1' <= s[0] <= '9' then Some(DigitValue(s[0]))
    else if |s| == 2 && s[0] == '1' && '0' <= s[1] <= '2' then Some(10 + DigitValue(s[1]))
    else if |s| == 2 && s[0] == '0' && '1' <= s[1] <= '9' then Some(DigitValue(s[1]))
    else None
  }

  /** `%M` as a whole string: `[0-5]\d|\d`. */
  function Minute(s: string): (r: Option<nat>)
    ensures r.Some? ==> r.value < 60 && (s == NatText(r.value) || s == Pad2(r.value))
  {
    if |s| == 2 && '0' <= s[0] <= '5' && IsDigit(s[1]) then Some(10 * DigitValue(s[0]) + DigitValue(s[1]))
    else if |s| == 1 && IsDigit(s[0]) then Some(DigitValue(s[0]))
    else None
  }

  /** `%H` as a whole string: `2[0-3]|[01]\d|\d`. */
  function Hour24(s: string): (r: Option<nat>)
    ensures r.Some? ==> r.value < 24 && (s == NatText(r.value) || s == Pad2(r.value))
  {
    if |s| == 2 && s[0] == '2' && '0' <= s[1] <= '3' then Some(20 + DigitValue(s[1]))
    else if |s| == 2 && (s[0] == '0' || s[0] == '1') && IsDigit(s[1]) then Some(10 * DigitValue(s[0]) + DigitValue(s[1]))
    else if |s| == 1 && IsDigit(s[0]) then Some(DigitValue(s[0]))
    else None
  }

  /**
   * `%p`: `Some(true)` for "pm", `Some(false)` for "am". strptime compares
   * it without regard to case; the tokens reaching it are lower-case, and
   * `ConvertTo24h` only parses with `%p` once "am" or "pm" occurs in the
   * token, which for a digits-and-colon token means its last two characters.
   */
  function Meridiem(s: string): Option<bool>
  {
    if s == "am" then Some(false) else if s == "pm" then Some(true) else None
  }

  function MarkerText(pm: bool): string
  {
    if pm then "pm" else "am"
  }

  /** The hour of day that a 12-hour clock hour names: 12am is 0, 12pm is 12, pm adds 12 otherwise. */
  function To24(h: nat, pm: bool): (r: nat)
    requires 1 <= h <= 12
    ensures r < 24 && r % 12 == h % 12 && (r >= 12 <==> pm)
  {
    if pm then (if h == 12 then 12 else h + 12) else (if h == 12 then 0 else h)
  }

  /** Position of the first `c` in `s`, or `|s|` when there is none. */
  function IndexOf(s: string, c: char): (k: nat)
    ensures k <= |s| && c !in s[..k] && (k < |s| ==> s[k] == c)
    ensures k == |s| <==> c !in s
  {
    if s == [] then 0 else if s[0] == c then 0 else 1 + IndexOf(s[1..], c)
  }

  /** `strptime(u, "%I:%M%p").strftime("%H:%M")`. */
  function Parse12(u: string): (r: Option<string>)
    ensures r.Some? ==> IsClock(r.value)
  {
    var k := IndexOf(u, ':');
    if k == |u| || |u[k + 1..]| < 2 then None
    else
      var rest := u[k + 1..];
      match (Hour12(u[..k]), Minute(rest[..|rest| - 2]), Meridiem(rest[|rest| - 2..]))
      case (Some(h), Some(m), Some(pm)) => Some(ClockText(To24(h, pm), m))
      case _ => None
  }

  /** `strptime(u, "%I%p").strftime("%H:%M")`. */
  function Parse12Bare(u: string): (r: Option<string>)
    ensures r.Some? ==> IsClock(r.value)
  {
    if |u| < 2 then None
    else
      match (Hour12(u[..|u| - 2]), Meridiem(u[|u| - 2..]))
      case (Some(h), Some(pm)) => Some(ClockText(To24(h, pm), 0))
      case _ => None
  }

  /** `strptime(u, "%H:%M").strftime("%H:%M")`. */
  function Parse24(u: string): (r: Option<string>)
    ensures r.Some? ==> IsClock(r.value)
    ensures r.Some? ==> ':' in u
  {
    var k := IndexOf(u, ':');
    if k == |u| then None
    else
      match (Hour24(u[..k]), Minute(u[k + 1..]))
      case (Some(h), Some(m)) => Some(ClockText(h, m))
      case _ => None
  }

  predicate HasMarker(s: string)
  {
    Contains(s, "am") || Contains(s, "pm")
  }

  /**
   * `convert_to_24h`: dots are read as colons; a token mentioning am/pm is
   * parsed as a 12-hour time, with minutes when it has a colon; any other
   * token as a 24-hour `H:M` time. A parse failure gives None.
   */
  function ConvertTo24h(t: string): (r: Option<string>)
    ensures r.Some? ==> IsClock(r.value)
  {
    var u := ReplaceAll(t, ".", ":");
    if HasMarker(u) then (if ':' in u then Parse12(u) else Parse12Bare(u))
    else Parse24(u)
  }

  lemma NoMarkerWithoutLetters(s: string)
    requires 'a' !in s && 'p' !in s
    ensures !HasMarker(s)
  {
    if Contains(s, "am") { ContainsChars(s, "am", 'a'); }
    if Contains(s, "pm") { ContainsChars(s, "pm", 'p'); }
  }

  lemma NoDotUnchanged(s: string)
    requires '.' !in s
    ensures ReplaceAll(s, ".", ":") == s
  {
    if Contains(s, ".") { ContainsChars(s, ".", '.'); }
  }

  /** The position of a colon is where IndexOf finds it, when none comes earlier. */
  lemma IndexOfAt(s: string, c: char, k: nat)
    requires k < |s| && s[k] == c && c !in s[..k]
    ensures IndexOf(s, c) == k
  {
  }

  lemma Parse24Canonical(t: string)
    requires IsClock(t)
    ensures Parse24(t) == Some(t)
  {
    assert t[..2] == [t[0], t[1]];
    IndexOfAt(t, ':', 2);
    assert t[3..] == [t[3], t[4]];
    assert Hour24(t[..2]) == Some(HourOf(t));
    assert Minute(t[3..]) == Some(MinuteOf(t));
    ClockTextOfParts(t);
  }

  /** An already canonical `HH:MM` time converts to itself. */
  lemma ConvertKeepsCanonical(t: string)
    requires IsClock(t)
    ensures ConvertTo24h(t) == Some(t)
  {
    var hourText, minuteText := t[..2], t[3..];
    assert hourText == Pad2(HourOf(t)) && minuteText == Pad2(MinuteOf(t));
    assert t == hourText + ":" + minuteText;
    Convert24(HourOf(t), MinuteOf(t), hourText, minuteText);
    ClockTextOfParts(t);
  }

  /** Replacing dots by colons first changes nothing: dotted and colon forms convert alike. */
  lemma ConvertReadsDotsAsColons(t: string)
    ensures ConvertTo24h(t) == ConvertTo24h(ReplaceAll(t, ".", ":"))
  {
    NoDotUnchanged(ReplaceAll(t, ".", ":"));
  }

  /** A marker-free digit string stays marker-free and colon-free when a marker is appended. */
  lemma MarkerSuffix(d: string, pm: bool)
    requires forall i :: 0 <= i < |d| ==> IsDigit(d[i])
    ensures ReplaceAll(d + MarkerText(pm), ".", ":") == d + MarkerText(pm)
    ensures HasMarker(d + MarkerText(pm))
    ensures ':' !in d + MarkerText(pm)
  {
    var s := d + MarkerText(pm);
    NoDotUnchanged(s);
    SuffixContained(d, MarkerText(pm));
  }

  lemma {:induction false} SuffixContained(a: string, b: string)
    ensures Contains(a + b, b)
    decreases |a|
  {
    if a == [] {
      assert a + b == b;
    } else {
      assert (a + b)[1..] == a[1..] + b;
      SuffixContained(a[1..], b);
    }
  }

  lemma Parse12Parts(hourText: string, minuteText: string, marker: string)
    requires forall i :: 0 <= i < |hourText| ==> IsDigit(hourText[i])
    requires |marker| == 2
    ensures Parse12(hourText + ":" + minuteText + marker) ==
      match (Hour12(hourText), Minute(minuteText), Meridiem(marker))
      case (Some(h), Some(m), Some(pm)) => Some(ClockText(To24(h, pm), m))
      case _ => None
  {
    var t := hourText + ":" + minuteText + marker;
    var k := |hourText|;
    assert t[..k] == hourText;
    IndexOfAt(t, ':', k);
    var rest := t[k + 1..];
    assert rest == minuteText + marker;
    assert rest[..|rest| - 2] == minuteText;
    assert rest[|rest| - 2..] == marker;
  }

  /** `H:MMam` / `H:MMpm` with a 12-hour hour (padded or not) converts to the matching hour of day. */
  lemma Convert12WithMinutes(h: nat, m: nat, pm: bool, hourText: string)
    requires 1 <= h <= 12 && m < 60
    requires hourText == NatText(h) || hourText == Pad2(h)
    ensures ConvertTo24h(hourText + ":" + Pad2(m) + MarkerText(pm)) == Some(ClockText(To24(h, pm), m))
  {
    TwelveHourShape(hourText, Pad2(m), pm);
    Parse12Parts(hourText, Pad2(m), MarkerText(pm));
    Hour12OfText(h, hourText);
    MinuteOfPad2(m);
  }

  /** Digits, a colon, digits and a marker: the text goes to the 12-hour parser unchanged. */
  lemma TwelveHourShape(hourText: string, minuteText: string, pm: bool)
    requires forall i :: 0 <= i < |hourText| ==> IsDigit(hourText[i])
    requires forall i :: 0 <= i < |minuteText| ==> IsDigit(minuteText[i])
    ensures var t := hourText + ":" + minuteText + MarkerText(pm);
      ConvertTo24h(t) == Parse12(t)
  {
    var t := hourText + ":" + minuteText + MarkerText(pm);
    assert '.' !in t;
    NoDotUnchanged(t);
    SuffixContained(hourText + ":" + minuteText, MarkerText(pm));
    assert t[|hourText|] == ':';
  }

  lemma Hour12OfText(h: nat, hourText: string)
    requires 1 <= h <= 12
    requires hourText == NatText(h) || hourText == Pad2(h)
    ensures Hour12(hourText) == Some(h)
  {
  }

  lemma MinuteOfPad2(m: nat)
    requires m < 60
    ensures Minute(Pad2(m)) == Some(m)
  {
  }

  /** `%M` accepts a minute written with one digit or two. */
  lemma MinuteOfText(m: nat, minuteText: string)
    requires m < 60
    requires minuteText == NatText(m) || minuteText == Pad2(m)
    ensures Minute(minuteText) == Some(m)
  {
  }

  /** `%H` accepts an hour of day written with one digit or two. */
  lemma Hour24OfText(h: nat, hourText: string)
    requires h < 24
    requires hourText == NatText(h) || hourText == Pad2(h)
    ensures Hour24(hourText) == Some(h)
  {
  }

  /** `%H:%M` reads the text before the first colon as the hour and the rest as the minute. */
  lemma Parse24Parts(hourText: string, minuteText: string)
    requires ':' !in hourText
    ensures Parse24(hourText + ":" + minuteText) ==
      match (Hour24(hourText), Minute(minuteText))
      case (Some(h), Some(m)) => Some(ClockText(h, m))
      case _ => None
  {
    var t := hourText + ":" + minuteText;
    assert t[..|hourText|] == hourText;
    IndexOfAt(t, ':', |hourText|);
    assert t[|hourText| + 1..] == minuteText;
  }

  /** A 24-hour `H:M` token, padded or not (`9:05`, `9:5`, `21:30`), converts to that time of day. */
  lemma Convert24(h: nat, m: nat, hourText: string, minuteText: string)
    requires h < 24 && m < 60
    requires hourText == NatText(h) || hourText == Pad2(h)
    requires minuteText == NatText(m) || minuteText == Pad2(m)
    ensures ConvertTo24h(hourText + ":" + minuteText) == Some(ClockText(h, m))
  {
    var t := hourText + ":" + minuteText;
    assert forall i :: 0 <= i < |t| ==> IsDigit(t[i]) || t[i] == ':';
    assert '.' !in t && 'a' !in t && 'p' !in t;
    NoDotUnchanged(t);
    NoMarkerWithoutLetters(t);
    Parse24Parts(hourText, minuteText);
    Hour24OfText(h, hourText);
    MinuteOfText(m, minuteText);
  }

  /** A bare hour with a marker (`9am`, `12pm`) converts to that hour on the hour. */
  lemma ConvertBareHour(h: nat, pm: bool)
    requires 1 <= h <= 12
    ensures ConvertTo24h(NatText(h) + MarkerText(pm)) == Some(ClockText(To24(h, pm), 0))
  {
    BareHourShape(NatText(h), pm);
    Hour12OfText(h, NatText(h));
    assert Meridiem(MarkerText(pm)) == Some(pm);
  }

  /** Digits and a marker: the text goes to the bare 12-hour parser, split before the marker. */
  lemma BareHourShape(d: string, pm: bool)
    requires forall i :: 0 <= i < |d| ==> IsDigit(d[i])
    ensures var t := d + MarkerText(pm);
      ConvertTo24h(t) == Parse12Bare(t) && |t| >= 2 && t[..|t| - 2] == d && t[|t| - 2..] == MarkerText(pm)
  {
    var t := d + MarkerText(pm);
    MarkerSuffix(d, pm);
    assert t[..|t| - 2] == d;
    assert t[|t| - 2..] == MarkerText(pm);
  }

  /** With a marker, an hour outside 1-12 is refused: `0am`, `13pm`, `00am` convert to nothing. */
  lemma ConvertRejectsHourOutOfRange(h: nat, pm: bool, hourText: string)
    requires h < 100 && (h == 0 || h > 12)
    requires hourText == NatText(h) || hourText == Pad2(h)
    ensures ConvertTo24h(hourText + MarkerText(pm)) == None
  {
    var t := hourText + MarkerText(pm);
    MarkerSuffix(hourText, pm);
    assert t[..|t| - 2] == hourText;
    Hour12OutOfRange(h, hourText);
  }

  /** `%I` refuses an hour outside 1-12, padded or not. */
  lemma Hour12OutOfRange(h: nat, hourText: string)
    requires h < 100 && (h == 0 || h > 12)
    requires hourText == NatText(h) || hourText == Pad2(h)
    ensures Hour12(hourText) == None
  {
    if h >= 10 {
      assert hourText == Pad2(h);
    }
  }

  /** The same with minutes: `13:00pm`, `0:30am` and `00:15am` convert to nothing. */
  lemma ConvertRejectsHourOutOfRangeWithMinutes(h: nat, m: nat, pm: bool, hourText: string)
    requires h < 100 && (h == 0 || h > 12) && m < 60
    requires hourText == NatText(h) || hourText == Pad2(h)
    ensures ConvertTo24h(hourText + ":" + Pad2(m) + MarkerText(pm)) == None
  {
    assert forall i :: 0 <= i < |hourText| ==> IsDigit(hourText[i]);
    TwelveHourShape(hourText, Pad2(m), pm);
    Parse12Parts(hourText, Pad2(m), MarkerText(pm));
    if h >= 10 {
      assert hourText == Pad2(h);
    }
  }

  /** A dotted 12-hour time (`9.30pm`) converts as its colon form does. */
  lemma ConvertDottedTwelveHour(h: nat, m: nat, pm: bool, hourText: string)
    requires 1 <= h <= 12 && m < 60
    requires hourText == NatText(h) || hourText == Pad2(h)
    ensures ConvertTo24h(hourText + "." + Pad2(m) + MarkerText(pm)) == Some(ClockText(To24(h, pm), m))
  {
    var t := hourText + "." + Pad2(m) + MarkerText(pm);
    var c := hourText + ":" + Pad2(m) + MarkerText(pm);
    assert forall i :: 0 <= i < |hourText| ==> IsDigit(hourText[i]);
    assert forall i :: 0 <= i < |t| ==> c[i] == (if t[i] == '.' then ':' else t[i]);
    assert ReplaceAll(t, ".", ":") == c;
    ConvertReadsDotsAsColons(t);
    Convert12WithMinutes(h, m, pm, hourText);
  }

  /**
   * The body of `^(\d{1,2})(\d{2})(am|pm)$`: the token minus the one final
   * newline that `$` may stand before.
   */
  function Chomp(t: string): string
  {
    if t != [] && t[|t| - 1] == '\n' then t[..|t| - 1] else t
  }

  /** The token is three or four digits followed by am/pm (the regex of `fix_irregular_time_format`). */
  predicate IsDigitRunTime(t: string)
  {
    var b := Chomp(t);
    5 <= |b| <= 6 && (forall i :: 0 <= i < |b| - 2 ==> IsDigit(b[i])) && Meridiem(b[|b| - 2..]).Some?
  }

  /**
   * `fix_irregular_time_format`: `600pm` becomes `6:00pm`, `1130am` becomes
   * `11:30am`; any other token is returned as it is.
   */
  function FixIrregularTimeFormat(t: string): (r: string)
    ensures !IsDigitRunTime(t) ==> r == t
    ensures IsDigitRunTime(t) ==>
      |r| == |Chomp(t)| + 1 && r[|r| - 5] == ':' && r[..|r| - 5] + r[|r| - 4..] == Chomp(t)
  {
    var b := Chomp(t);
    if IsDigitRunTime(t) then
      var r := b[..|b| - 4] + ":" + b[|b| - 4..];
      assert r[..|r| - 5] == b[..|b| - 4];
      assert r[|r| - 4..] == b[|b| - 4..];
      r
    else t
  }

  /** Fixing a token twice is fixing it once. */
  lemma FixIrregularIdempotent(t: string)
    ensures FixIrregularTimeFormat(FixIrregularTimeFormat(t)) == FixIrregularTimeFormat(t)
  {
    var r := FixIrregularTimeFormat(t);
    if IsDigitRunTime(t) {
      assert r[|r| - 1] != '\n';
      assert Chomp(r) == r;
      assert !IsDigit(r[|r| - 5]);
    }
  }

  lemma DigitRunDigits(h: nat, m: nat, pm: bool)
    requires 1 <= h <= 12 && m < 60
    ensures var t := NatText(h) + Pad2(m) + MarkerText(pm);
      forall i :: 0 <= i < |t| - 2 ==> IsDigit(t[i])
  {
    var t := NatText(h) + Pad2(m) + MarkerText(pm);
    forall i | 0 <= i < |t| - 2 ensures IsDigit(t[i]) {
      if i < |NatText(h)| { assert t[i] == NatText(h)[i]; } else { assert t[i] == Pad2(m)[i - |NatText(h)|]; }
    }
  }

  /** A 3-4 digit run is split before its last two digits, so `HMMpm` reads as `H:MMpm`. */
  lemma FixDigitRun(h: nat, m: nat, pm: bool)
    requires 1 <= h <= 12 && m < 60
    ensures FixIrregularTimeFormat(NatText(h) + Pad2(m) + MarkerText(pm)) == NatText(h) + ":" + Pad2(m) + MarkerText(pm)
  {
    DigitRunShape(h, m, pm);
    assert NatText(h) + ":" + (Pad2(m) + MarkerText(pm)) == NatText(h) + ":" + Pad2(m) + MarkerText(pm);
  }

  lemma DigitRunShape(h: nat, m: nat, pm: bool)
    requires 1 <= h <= 12 && m < 60
    ensures var t := NatText(h) + Pad2(m) + MarkerText(pm);
      IsDigitRunTime(t) && Chomp(t) == t && |t| >= 4 && t[..|t| - 4] == NatText(h) && t[|t| - 4..] == Pad2(m) + MarkerText(pm)
  {
    var t := NatText(h) + Pad2(m) + MarkerText(pm);
    assert t[|t| - 1] != '\n';
    assert Chomp(t) == t;
    assert t[|t| - 2..] == MarkerText(pm);
    DigitRunDigits(h, m, pm);
    assert t[..|t| - 4] == NatText(h);
    assert t[|t| - 4..] == Pad2(m) + MarkerText(pm);
  }

  /** Python's `s[-2:]`. */
  function LastTwo(s: string): string
  {
    if |s| >= 2 then s[|s| - 2..] else s
  }

  /**
   * `infer_missing_am_pm`: both sides are stripped; when exactly one side
   * mentions am/pm, its last two characters are appended to the other.
   */
  function InferMissingAmPm(start: string, end: string): (r: (string, string))
    ensures Strip(start) <= r.0 && Strip(end) <= r.1
    ensures r.0 != Strip(start) <==> !HasMarker(Strip(start)) && HasMarker(Strip(end))
    ensures r.1 != Strip(end) <==> HasMarker(Strip(start)) && !HasMarker(Strip(end))
    ensures r.0 != Strip(start) ==> r.0 == Strip(start) + LastTwo(Strip(end))
    ensures r.1 != Strip(end) ==> r.1 == Strip(end) + LastTwo(Strip(start))
  {
    var s := Strip(start);
    var e := Strip(end);
    if HasMarker(s) then
      (if HasMarker(e) then (s, e) else MarkerLength(s); (s, e + LastTwo(s)))
    else if HasMarker(e) then MarkerLength(e); (s + LastTwo(e), e)
    else (s, e)
  }

  lemma MarkerLength(s: string)
    requires HasMarker(s)
    ensures |s| >= 2
  {
    if Contains(s, "am") { ContainsLength(s, "am"); } else { ContainsLength(s, "pm"); }
  }

  /**
   * When exactly one side ends in a marker and the other mentions none, the
   * marker is copied across, so both sides end in it.
   */
  lemma InferCopiesMarker(start: string, end: string, pm: bool)
    requires !HasMarker(Strip(start)) && Strip(end) != [] && HasMarker(Strip(end))
    requires LastTwo(Strip(end)) == MarkerText(pm)
    ensures InferMissingAmPm(start, end) == (Strip(start) + MarkerText(pm), Strip(end))
    ensures InferMissingAmPm(end, start) == (Strip(end), Strip(start) + MarkerText(pm))
  {
  }

  /** When both sides or neither side mention am/pm, inference only strips them. */
  lemma InferOnlyStrips(start: string, end: string)
    requires HasMarker(Strip(start)) == HasMarker(Strip(end))
    ensures InferMissingAmPm(start, end) == (Strip(start), Strip(end))
  {
  }
}
