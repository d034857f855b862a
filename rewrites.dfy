/**
 * The rewrite passes `cleanse_time_range` applies to a lower-cased hours
 * cell before splitting it on dashes. Each regular-expression substitution
 * is written as a left-to-right scan that, at each position, either
 * rewrites the match found there or copies one character, as `re.sub` does.
 * Line numbers in the comments below refer to src/app/process_data.py.
 */
module Rewrites {
  import opened Wrappers
  import opened PyText

  const NarrowNoBreakSpace: char := '\U{202F}'

  /* ---- `^[:a-z]{0,4}:` removed (a day prefix such as "sun:") ---- */

  predicate IsDayPrefixChar(c: char)
  {
    c == ':' || ('a' <= c <= 'z')
  }

  /** `^[:a-z]{k}:` matches `s`, for a `k` the quantifier `{0,4}` allows. */
  predicate DayPrefixEndsAt(s: string, k: nat)
  {
    k <= 4 && k < |s| && s[k] == ':' && forall j :: 0 <= j < k ==> IsDayPrefixChar(s[j])
  }

  /** The greedy quantifier tries `k`, then `k - 1`, ... down to 0. */
  function LongestDayPrefix(s: string, k: nat): (r: Option<nat>)
    requires k <= 4
    ensures r.Some? ==> r.value <= k && DayPrefixEndsAt(s, r.value)
    ensures r.Some? ==> forall j: nat :: r.value < j <= k ==> !DayPrefixEndsAt(s, j)
    ensures r.None? ==> forall j: nat :: j <= k ==> !DayPrefixEndsAt(s, j)
    decreases k
  {
    if DayPrefixEndsAt(s, k) then Some(k) else if k == 0 then None else LongestDayPrefix(s, k - 1)
  }

  /** Line 104: the longest day prefix ending in a colon, if any, is removed. */
  function StripDayPrefix(s: string): (r: string)
    ensures (forall k: nat :: !DayPrefixEndsAt(s, k)) ==> r == s
    ensures s == [] || !IsDayPrefixChar(s[0]) ==> r == s
    ensures (exists k: nat :: DayPrefixEndsAt(s, k)) ==>
      exists k: nat :: DayPrefixEndsAt(s, k) && r == s[k + 1..] && forall j: nat :: k < j ==> !DayPrefixEndsAt(s, j)
  {
    match LongestDayPrefix(s, 4)
    case None => s
    case Some(k) => s[k + 1..]
  }

  /* ---- `a\.?m\.?` -> `am` and `p\.?m\.?` -> `pm` ---- */

  function SkipDot(s: string): string
  {
    if s != [] && s[0] == '.' then s[1..] else s
  }

  /**
   * Lines 105-106, for `letter` 'a' or 'p': `a.m.`, `a.m`, `am.` and `am`
   * all become `am`.
   */
  function CollapseMeridiem(s: string, letter: char): (r: string)
    requires letter == 'a' || letter == 'p'
    ensures s != [] ==> r != [] && r[0] == s[0]
    ensures '.' !in s ==> r == s
    decreases |s|
  {
    if s == [] then []
    else if s[0] == letter && |s| >= 2 && s[1] == 'm' then
      var r := [letter, 'm'] + CollapseMeridiem(SkipDot(s[2..]), letter);
      assert '.' !in s ==> s == [letter, 'm'] + s[2..];
      r
    else if s[0] == letter && |s| >= 3 && s[1] == '.' && s[2] == 'm' then
      [letter, 'm'] + CollapseMeridiem(SkipDot(s[3..]), letter)
    else
      var r := [s[0]] + CollapseMeridiem(s[1..], letter);
      assert s == [s[0]] + s[1..];
      r
  }

  lemma {:induction false} EraseDotsKeepsMarker(letter: char, x: string)
    requires letter == 'a' || letter == 'p'
    ensures Erase([letter, 'm'] + x, '.') == [letter, 'm'] + Erase(x, '.')
  {
    EraseConcat([letter, 'm'], x, '.');
  }

  lemma {:induction false} EraseDotsSkipsDot(y: string)
    ensures Erase(SkipDot(y), '.') == Erase(y, '.')
  {
    if SkipDot(y) != y {
      assert y == ['.'] + SkipDot(y);
      EraseConcat(['.'], SkipDot(y), '.');
    }
  }

  lemma {:induction false} EraseDotsInMarker(letter: char, x: string)
    requires letter == 'a' || letter == 'p'
    ensures Erase([letter, '.', 'm'] + x, '.') == [letter, 'm'] + Erase(x, '.')
  {
    EraseConcat([letter, '.', 'm'], x, '.');
  }

  lemma {:induction false} DropsOnlyDotsAtMarker(s: string, letter: char, k: nat)
    requires letter == 'a' || letter == 'p'
    requires k <= |s| && ((k == 2 && s == [letter, 'm'] + s[2..]) || (k == 3 && s == [letter, '.', 'm'] + s[3..]))
    requires Erase(CollapseMeridiem(SkipDot(s[k..]), letter), '.') == Erase(SkipDot(s[k..]), '.')
    ensures Erase([letter, 'm'] + CollapseMeridiem(SkipDot(s[k..]), letter), '.') == Erase(s, '.')
  {
    EraseDotsKeepsMarker(letter, CollapseMeridiem(SkipDot(s[k..]), letter));
    EraseDotsSkipsDot(s[k..]);
    if k == 2 {
      EraseDotsKeepsMarker(letter, s[2..]);
    } else {
      EraseDotsInMarker(letter, s[3..]);
    }
  }

  /** A string that starts with a marker is that marker followed by the rest. */
  lemma MarkerFront(s: string, letter: char, k: nat)
    requires (k == 2 && |s| >= 2 && s[0] == letter && s[1] == 'm') || (k == 3 && |s| >= 3 && s[0] == letter && s[1] == '.' && s[2] == 'm')
    ensures k == 2 ==> s == [letter, 'm'] + s[2..]
    ensures k == 3 ==> s == [letter, '.', 'm'] + s[3..]
  {
  }

  lemma {:induction false} DropsOnlyDotsElsewhere(s: string, letter: char)
    requires letter == 'a' || letter == 'p'
    requires s != []
    requires Erase(CollapseMeridiem(s[1..], letter), '.') == Erase(s[1..], '.')
    ensures Erase([s[0]] + CollapseMeridiem(s[1..], letter), '.') == Erase(s, '.')
  {
    EraseConcat([s[0]], CollapseMeridiem(s[1..], letter), '.');
    assert s == [s[0]] + s[1..];
    EraseConcat([s[0]], s[1..], '.');
  }

  /** The meridiem passes only ever delete full stops. */
  lemma {:induction false} CollapseMeridiemDropsOnlyDots(s: string, letter: char)
    requires letter == 'a' || letter == 'p'
    ensures Erase(CollapseMeridiem(s, letter), '.') == Erase(s, '.')
    decreases |s|
  {
    if s == [] {
    } else if s[0] == letter && |s| >= 2 && s[1] == 'm' {
      CollapseMeridiemDropsOnlyDots(SkipDot(s[2..]), letter);
      MarkerFront(s, letter, 2);
      assert CollapseMeridiem(s, letter) == [letter, 'm'] + CollapseMeridiem(SkipDot(s[2..]), letter);
      DropsOnlyDotsAtMarker(s, letter, 2);
    } else if s[0] == letter && |s| >= 3 && s[1] == '.' && s[2] == 'm' {
      CollapseMeridiemDropsOnlyDots(SkipDot(s[3..]), letter);
      MarkerFront(s, letter, 3);
      assert CollapseMeridiem(s, letter) == [letter, 'm'] + CollapseMeridiem(SkipDot(s[3..]), letter);
      DropsOnlyDotsAtMarker(s, letter, 3);
    } else {
      CollapseMeridiemDropsOnlyDots(s[1..], letter);
      assert CollapseMeridiem(s, letter) == [s[0]] + CollapseMeridiem(s[1..], letter);
      DropsOnlyDotsElsewhere(s, letter);
    }
  }

  predicate DottedMarkerAt(s: string, letter: char, i: nat)
  {
    i + 2 < |s| && s[i] == letter && s[i + 1] == '.' && s[i + 2] == 'm'
  }

  /** A full stop that does not follow a marker letter is copied. */
  lemma {:induction false} CollapseAfterDot(t: string, letter: char)
    requires letter == 'a' || letter == 'p'
    requires t != [] && t[0] == '.'
    ensures CollapseMeridiem(t, letter) == ['.'] + CollapseMeridiem(t[1..], letter)
  {
  }

  /** After the pass no dotted marker `a.m` (resp. `p.m`) is left anywhere. */
  lemma {:induction false} CollapseMeridiemLeavesNoDottedMarker(s: string, letter: char)
    requires letter == 'a' || letter == 'p'
    ensures forall i: nat :: !DottedMarkerAt(CollapseMeridiem(s, letter), letter, i)
    decreases |s|
  {
    var r := CollapseMeridiem(s, letter);
    if s == [] {
    } else if s[0] == letter && |s| >= 2 && s[1] == 'm' {
      var rest := CollapseMeridiem(SkipDot(s[2..]), letter);
      CollapseMeridiemLeavesNoDottedMarker(SkipDot(s[2..]), letter);
      assert r == [letter, 'm'] + rest;
      DottedMarkerShift([letter, 'm'], rest, letter);
      assert r[1] == 'm';
    } else if s[0] == letter && |s| >= 3 && s[1] == '.' && s[2] == 'm' {
      var rest := CollapseMeridiem(SkipDot(s[3..]), letter);
      CollapseMeridiemLeavesNoDottedMarker(SkipDot(s[3..]), letter);
      assert r == [letter, 'm'] + rest;
      DottedMarkerShift([letter, 'm'], rest, letter);
      assert r[1] == 'm';
    } else {
      var t := s[1..];
      var rest := CollapseMeridiem(t, letter);
      CollapseMeridiemLeavesNoDottedMarker(t, letter);
      assert r == [s[0]] + rest;
      DottedMarkerShift([s[0]], rest, letter);
      if s[0] == letter && |s| >= 3 && s[1] == '.' {
        CollapseAfterDot(t, letter);
        assert r[2] == s[2] != 'm';
      }
    }
  }

  /** No dotted marker in `rest` means none after a prefix in front of it. */
  lemma DottedMarkerShift(p: string, rest: string, letter: char)
    requires forall j: nat :: !DottedMarkerAt(rest, letter, j)
    ensures forall i: nat :: i >= |p| ==> !DottedMarkerAt(p + rest, letter, i)
  {
    forall i: nat | i >= |p| ensures !DottedMarkerAt(p + rest, letter, i) {
      var j: nat := i - |p|;
      assert DottedMarkerAt(p + rest, letter, i) ==> DottedMarkerAt(rest, letter, j);
    }
  }

  /** A marker written `am`, `a.m`, `am.` or `a.m.` becomes `am`, and the scan goes on after it. */
  lemma CollapseMeridiemMarker(letter: char, d1: string, d2: string, t: string)
    requires letter == 'a' || letter == 'p'
    requires (d1 == [] || d1 == ".") && (d2 == [] || d2 == ".")
    requires t == [] || t[0] != '.'
    ensures CollapseMeridiem([letter] + d1 + "m" + d2 + t, letter) == [letter, 'm'] + CollapseMeridiem(t, letter)
  {
    var rest := d2 + t;
    MarkerSpelling(letter, d1, d2, t);
    if d1 == [] {
      CollapseMarkerStep(letter, [letter, 'm'], rest);
    } else {
      CollapseMarkerStep(letter, [letter, '.', 'm'], rest);
    }
  }

  /** The four spellings of a marker, as the marker proper followed by the optional full stop and the rest. */
  lemma MarkerSpelling(letter: char, d1: string, d2: string, t: string)
    requires (d1 == [] || d1 == ".") && (d2 == [] || d2 == ".")
    requires t == [] || t[0] != '.'
    ensures SkipDot(d2 + t) == t
    ensures d1 == [] ==> [letter] + d1 + "m" + d2 + t == [letter, 'm'] + (d2 + t)
    ensures d1 != [] ==> [letter] + d1 + "m" + d2 + t == [letter, '.', 'm'] + (d2 + t)
  {
    if d2 != [] {
      assert (d2 + t)[1..] == t;
    }
  }

  lemma CollapseMarkerStep(letter: char, marker: string, rest: string)
    requires letter == 'a' || letter == 'p'
    requires marker == [letter, 'm'] || marker == [letter, '.', 'm']
    ensures CollapseMeridiem(marker + rest, letter) == [letter, 'm'] + CollapseMeridiem(SkipDot(rest), letter)
  {
    var s := marker + rest;
    assert s[0] == letter && s[1] == marker[1] && s[|marker|..] == rest;
    if |marker| == 3 {
      assert s[2] == 'm';
    }
  }

  /** Text without the marker letter is copied as it is. */
  lemma {:induction false} CollapseMeridiemCopies(x: string, t: string, letter: char)
    requires letter == 'a' || letter == 'p'
    requires letter !in x
    ensures CollapseMeridiem(x + t, letter) == x + CollapseMeridiem(t, letter)
    decreases |x|
  {
    if x != [] {
      assert (x + t)[0] == x[0] && (x + t)[1..] == x[1..] + t;
      CollapseMeridiemCopies(x[1..], t, letter);
      assert x == [x[0]] + x[1..];
    } else {
      assert x + t == t;
    }
  }

  /** Lines 105-106 on a whole token: `9a.m.`, `9a.m`, `9am.` all become `9am`. */
  lemma CollapseMeridiemOfToken(x: string, letter: char, d1: string, d2: string)
    requires letter == 'a' || letter == 'p'
    requires letter !in x
    requires (d1 == [] || d1 == ".") && (d2 == [] || d2 == ".")
    ensures CollapseMeridiem(x + [letter] + d1 + "m" + d2, letter) == x + [letter, 'm']
  {
    assert x + [letter] + d1 + "m" + d2 == x + ([letter] + d1 + "m" + d2 + []);
    CollapseMeridiemCopies(x, [letter] + d1 + "m" + d2 + [], letter);
    CollapseMeridiemMarker(letter, d1, d2, []);
  }

  /* ---- `\b(\d{1,2})(\s*a)\b` -> `\1am` and the same for `p` ---- */

  /**
   * How many digits `\d{1,2}` takes at the front of `s`: two when there are
   * two (backtracking to one cannot help, since a digit is not `\s` or the
   * letter), one otherwise.
   */
  function LeadDigits(s: string): nat
  {
    if |s| >= 2 && IsDigit(s[1]) then 2 else 1
  }

  predicate AllDigits(s: string)
  {
    forall i :: 0 <= i < |s| ==> IsDigit(s[i])
  }

  /** Length of a match of `(\d{1,2})(\s*a)\b` at the front of `s`, or 0. */
  function BareMeridiemLength(s: string, letter: char): (n: nat)
    ensures n <= |s|
    ensures n > 0 ==> LeadDigits(s) < n && s[n - 1] == letter && (n == |s| || !IsWordChar(s[n]))
    ensures n > 0 ==> AllDigits(s[..LeadDigits(s)]) && AllSpace(s[LeadDigits(s)..n - 1])
  {
    if s == [] || !IsDigit(s[0]) then 0
    else
      var d := LeadDigits(s);
      var k := d + LeadingSpaces(s[d..]);
      if k < |s| && s[k] == letter && (k + 1 == |s| || !IsWordChar(s[k + 1])) then
        assert forall i :: 0 <= i < d ==> s[..d][i] == s[i];
        assert forall i :: 0 <= i < k - d ==> s[d..k][i] == s[d..][i];
        k + 1
      else 0
  }

  /** A whitespace run before a non-whitespace character is exactly the leading whitespace. */
  lemma LeadingSpacesOf(w: string, c: char, t: string)
    requires AllSpace(w) && !IsSpace(c)
    ensures LeadingSpaces(w + [c] + t) == |w|
  {
    var s := w + [c] + t;
    assert s[|w|] == c;
    LeadingSpacesBefore(s, |w|);
    assert forall i :: 0 <= i < |w| ==> s[i] == w[i];
  }

  /** One or two digits, optional whitespace, then the bare letter before a non-word character: that front is matched. */
  lemma BareMeridiemFront(d: string, w: string, letter: char, t: string)
    requires letter == 'a' || letter == 'p'
    requires 1 <= |d| <= 2 && AllDigits(d) && AllSpace(w)
    requires t == [] || !IsWordChar(t[0])
    ensures var s := d + w + [letter] + t;
      LeadDigits(s) == |d| && BareMeridiemLength(s, letter) == |d| + |w| + 1
  {
    var rest := w + [letter] + t;
    var s := d + rest;
    assert s == d + w + [letter] + t;
    if w != [] { assert IsSpace(w[0]); }
    assert rest[0] == if w == [] then letter else w[0];
    LeadDigitsOf(d, rest);
    assert s[|d|..] == rest;
    LeadingSpacesOf(w, letter, t);
    assert s[|d| + |w|] == letter;
    if t != [] { assert s[|d| + |w| + 1] == t[0]; }
    BareMeridiemAt(s, letter);
  }

  /** The match length is one past the letter found after the digits and the whitespace. */
  lemma BareMeridiemAt(s: string, letter: char)
    requires s != [] && IsDigit(s[0])
    requires LeadDigits(s) + LeadingSpaces(s[LeadDigits(s)..]) < |s|
    requires var k := LeadDigits(s) + LeadingSpaces(s[LeadDigits(s)..]);
      s[k] == letter && (k + 1 == |s| || !IsWordChar(s[k + 1]))
    ensures BareMeridiemLength(s, letter) == LeadDigits(s) + LeadingSpaces(s[LeadDigits(s)..]) + 1
  {
  }

  /** One or two digits followed by a non-digit: the digits are the hour. */
  lemma LeadDigitsOf(d: string, rest: string)
    requires 1 <= |d| <= 2 && AllDigits(d)
    requires rest == [] || !IsDigit(rest[0])
    ensures LeadDigits(d + rest) == |d|
  {
    var s := d + rest;
    if |d| == 1 {
      if rest != [] { assert s[1] == rest[0]; }
    } else {
      assert s[1] == d[1];
    }
  }

  /**
   * The scan of lines 108-109; `afterWord` says whether the character before
   * `s` is a word character, which decides whether `\b` holds at its front.
   */
  function ExpandBare(s: string, letter: char, afterWord: bool): (r: string)
    requires letter == 'a' || letter == 'p'
    ensures (forall i :: 0 <= i < |s| && s[i] == letter ==> i + 1 < |s| && IsWordChar(s[i + 1])) ==> r == s
    decreases |s|
  {
    if s == [] then []
    else if !afterWord && BareMeridiemLength(s, letter) > 0 then
      var n := BareMeridiemLength(s, letter);
      s[..LeadDigits(s)] + [letter, 'm'] + ExpandBare(s[n..], letter, true)
    else
      var r := [s[0]] + ExpandBare(s[1..], letter, IsWordChar(s[0]));
      assert s == [s[0]] + s[1..];
      assert forall i :: 0 <= i < |s[1..]| ==> s[1..][i] == s[i + 1];
      r
  }

  /** A bare letter after one or two digits at a word boundary gets its `m`; the whitespace between goes. */
  lemma ExpandBareFront(d: string, w: string, letter: char, t: string)
    requires letter == 'a' || letter == 'p'
    requires 1 <= |d| <= 2 && AllDigits(d) && AllSpace(w)
    requires t == [] || !IsWordChar(t[0])
    ensures ExpandBare(d + w + [letter] + t, letter, false) == d + [letter, 'm'] + ExpandBare(t, letter, true)
  {
    var s := d + w + [letter] + t;
    BareMeridiemFront(d, w, letter, t);
    assert s[..|d|] == d;
    assert s[|d| + |w| + 1..] == t;
  }

  /** Lines 108-109: a bare `a` or `p` after one or two digits (`4a`, `6 p`) becomes `am`/`pm`. */
  function ExpandBareMeridiem(s: string, letter: char): (r: string)
    requires letter == 'a' || letter == 'p'
    ensures (forall i :: 0 <= i < |s| && s[i] == letter ==> i + 1 < |s| && IsWordChar(s[i + 1])) ==> r == s
  {
    ExpandBare(s, letter, false)
  }

  /** Lines 108-109 on a whole token: `9a`, `10 p` become `9am`, `10pm`. */
  lemma ExpandBareMeridiemOfToken(d: string, w: string, letter: char)
    requires letter == 'a' || letter == 'p'
    requires 1 <= |d| <= 2 && AllDigits(d) && AllSpace(w)
    ensures ExpandBareMeridiem(d + w + [letter], letter) == d + [letter, 'm']
  {
    assert d + w + [letter] == d + w + [letter] + [];
    ExpandBareFront(d, w, letter, []);
  }

  /* ---- single-character maps: dash glyphs (line 111) and separators (line 115) ---- */

  /** Em dash, en dash, minus sign, figure dash and horizontal bar. */
  predicate IsExoticDash(c: char)
  {
    c == '\U{2014}' || c == '\U{2013}' || c == '\U{2212}' || c == '\U{2012}' || c == '\U{2015}'
  }

  /** Newline, comma and semicolon. */
  predicate IsRangeSeparator(c: char)
  {
    c == '\n' || c == ',' || c == ';'
  }

  /** Every character `isTarget` accepts becomes `-`; the rest are kept in place. */
  function MapToDash(s: string, isTarget: char -> bool): (r: string)
    ensures |r| == |s|
    ensures forall i :: 0 <= i < |s| ==> r[i] == (if isTarget(s[i]) then '-' else s[i])
    decreases |s|
  {
    if s == [] then [] else [if isTarget(s[0]) then '-' else s[0]] + MapToDash(s[1..], isTarget)
  }

  lemma MapToDashUnchanged(s: string, isTarget: char -> bool)
    requires forall i :: 0 <= i < |s| ==> !isTarget(s[i])
    ensures MapToDash(s, isTarget) == s
  {
  }

  /** `normalize_dashes`. */
  function NormalizeDashes(s: string): (r: string)
    ensures |r| == |s| && forall i :: 0 <= i < |r| ==> !IsExoticDash(r[i])
    ensures forall i :: 0 <= i < |s| ==> (r[i] == '-' <==> s[i] == '-' || IsExoticDash(s[i]))
    ensures forall i :: 0 <= i < |s| && !IsExoticDash(s[i]) ==> r[i] == s[i]
  {
    MapToDash(s, IsExoticDash)
  }

  /** Line 115. */
  function SeparatorsToDash(s: string): (r: string)
    ensures |r| == |s| && forall i :: 0 <= i < |r| ==> !IsRangeSeparator(r[i])
    ensures forall i :: 0 <= i < |s| ==> (r[i] == '-' <==> s[i] == '-' || IsRangeSeparator(s[i]))
    ensures forall i :: 0 <= i < |s| && !IsRangeSeparator(s[i]) ==> r[i] == s[i]
  {
    MapToDash(s, IsRangeSeparator)
  }

  /* ---- `"to"` -> `-` (line 113) ---- */

  /** After line 113 no "to" is left: the dash put in its place cannot start or end a new one. */
  lemma {:induction false} NoToAfterReplace(s: string)
    ensures !Contains(ReplaceAll(s, "to", "-"), "to")
    decreases |s|
  {
    var r := ReplaceAll(s, "to", "-");
    if s == [] {
    } else if "to" <= s {
      NoToAfterReplace(s[2..]);
      assert r == "-" + ReplaceAll(s[2..], "to", "-");
      assert r[1..] == ReplaceAll(s[2..], "to", "-");
    } else {
      var t := s[1..];
      NoToAfterReplace(t);
      var rest := ReplaceAll(t, "to", "-");
      assert r == [s[0]] + rest && r[1..] == rest;
    }
  }

  /* ---- `(\d{1,2}:\d{2}(am|pm))(\d{1,2}(am|pm))` (line 114) and `(\d{2}(am|pm))(\d{1,2}:\d{2}(am|pm))` (line 118) ---- */

  predicate IsMarkerAt(s: string, i: nat)
  {
    i + 2 <= |s| && (s[i..i + 2] == "am" || s[i..i + 2] == "pm")
  }

  /**
   * Length of `\d{1,2}:\d{2}(am|pm)` at the front of `s`, or 0. The two
   * digit counts exclude each other (the second character is a digit or a
   * colon), so backtracking never finds a second match.
   */
  function ClockMarkLength(s: string): (n: nat)
    ensures n == 0 || ((n == 6 || n == 7) && n <= |s| && IsDigit(s[0]) && IsMarkerAt(s, n - 2))
  {
    if |s| >= 2 && IsDigit(s[0]) && IsDigit(s[1]) then
      (if |s| >= 7 && s[2] == ':' && IsDigit(s[3]) && IsDigit(s[4]) && IsMarkerAt(s, 5) then 7 else 0)
    else if |s| >= 6 && IsDigit(s[0]) && s[1] == ':' && IsDigit(s[2]) && IsDigit(s[3]) && IsMarkerAt(s, 4) then 6
    else 0
  }

  /** Length of `\d{1,2}(am|pm)` at the front of `s`, or 0. */
  function HourMarkLength(s: string): (n: nat)
    ensures n == 0 || ((n == 3 || n == 4) && n <= |s| && IsDigit(s[0]) && IsMarkerAt(s, n - 2))
  {
    if |s| >= 2 && IsDigit(s[0]) && IsDigit(s[1]) then (if IsMarkerAt(s, 2) then 4 else 0)
    else if |s| >= 1 && IsDigit(s[0]) && IsMarkerAt(s, 1) then 3
    else 0
  }

  /** Length of `\d{2}(am|pm)` at the front of `s`, or 0. */
  function TwoDigitMarkLength(s: string): (n: nat)
    ensures n == 0 || (n == 4 && n <= |s| && IsDigit(s[0]) && IsMarkerAt(s, 2))
  {
    if |s| >= 4 && IsDigit(s[0]) && IsDigit(s[1]) && IsMarkerAt(s, 2) then 4 else 0
  }

  /** The two substitutions that put a dash between two glued times. */
  datatype Glue =
    | TimeThenHour  // line 114: `9:00am5pm`
    | HourThenTime  // line 118: `11am1:30pm`

  /** Lengths of the two groups of the glued-times pattern at the front of `s`, or (0, 0). */
  function GlueMatch(s: string, g: Glue): (m: (nat, nat))
    ensures (m.0 == 0) == (m.1 == 0) && m.0 + m.1 <= |s|
    ensures m.0 > 0 ==> m.0 >= 3 && IsMarkerAt(s, m.0 - 2) && IsDigit(s[m.0])
  {
    var a := if g.TimeThenHour? then ClockMarkLength(s) else TwoDigitMarkLength(s);
    var b := if a == 0 then 0 else if g.TimeThenHour? then HourMarkLength(s[a..]) else ClockMarkLength(s[a..]);
    if a > 0 && b > 0 then (a, b) else (0, 0)
  }

  lemma ClockMarkLengthOf(h: string, mm: string, pm: bool, t: string)
    requires 1 <= |h| <= 2 && AllDigits(h) && |mm| == 2 && AllDigits(mm)
    ensures ClockMarkLength(h + ":" + mm + (if pm then "pm" else "am") + t) == |h| + 5
  {
    var s := h + ":" + mm + (if pm then "pm" else "am") + t;
    var k := |h|;
    assert s[0] == h[0] && s[k] == ':' && s[k + 1] == mm[0] && s[k + 2] == mm[1];
    assert s[k + 3..k + 5] == (if pm then "pm" else "am");
    if k == 2 { assert s[1] == h[1]; }
  }

  lemma HourMarkLengthOf(h: string, pm: bool, t: string)
    requires 1 <= |h| <= 2 && AllDigits(h)
    ensures HourMarkLength(h + (if pm then "pm" else "am") + t) == |h| + 2
  {
    var s := h + (if pm then "pm" else "am") + t;
    assert s[0] == h[0] && s[|h|..|h| + 2] == (if pm then "pm" else "am");
    if |h| == 2 { assert s[1] == h[1]; } else { assert s[1] == (if pm then 'p' else 'a'); }
  }

  lemma TwoDigitMarkLengthOf(h: string, pm: bool, t: string)
    requires |h| == 2 && AllDigits(h)
    ensures TwoDigitMarkLength(h + (if pm then "pm" else "am") + t) == 4
  {
    var s := h + (if pm then "pm" else "am") + t;
    assert s[0] == h[0] && s[1] == h[1] && s[2..4] == (if pm then "pm" else "am");
  }

  /** Line 114: `9:00am5pm` is matched as `9:00am` then `5pm`. */
  lemma GlueTimeThenHourFront(h1: string, mm: string, pm1: bool, h2: string, pm2: bool, t: string)
    requires 1 <= |h1| <= 2 && AllDigits(h1) && |mm| == 2 && AllDigits(mm)
    requires 1 <= |h2| <= 2 && AllDigits(h2)
    ensures var a, b := h1 + ":" + mm + (if pm1 then "pm" else "am"), h2 + (if pm2 then "pm" else "am");
      GlueMatch(a + b + t, TimeThenHour) == (|a|, |b|)
  {
    var a, b := h1 + ":" + mm + (if pm1 then "pm" else "am"), h2 + (if pm2 then "pm" else "am");
    assert a + b + t == h1 + ":" + mm + (if pm1 then "pm" else "am") + (b + t);
    ClockMarkLengthOf(h1, mm, pm1, b + t);
    assert (a + b + t)[|a|..] == h2 + (if pm2 then "pm" else "am") + t;
    HourMarkLengthOf(h2, pm2, t);
  }

  /** Line 118: `11am1:30pm` is matched as `11am` then `1:30pm`. */
  lemma GlueHourThenTimeFront(h1: string, pm1: bool, h2: string, mm: string, pm2: bool, t: string)
    requires |h1| == 2 && AllDigits(h1)
    requires 1 <= |h2| <= 2 && AllDigits(h2) && |mm| == 2 && AllDigits(mm)
    ensures var a, b := h1 + (if pm1 then "pm" else "am"), h2 + ":" + mm + (if pm2 then "pm" else "am");
      GlueMatch(a + b + t, HourThenTime) == (|a|, |b|)
  {
    var a, b := h1 + (if pm1 then "pm" else "am"), h2 + ":" + mm + (if pm2 then "pm" else "am");
    assert a + b + t == h1 + (if pm1 then "pm" else "am") + (b + t);
    TwoDigitMarkLengthOf(h1, pm1, b + t);
    assert (a + b + t)[|a|..] == h2 + ":" + mm + (if pm2 then "pm" else "am") + t;
    ClockMarkLengthOf(h2, mm, pm2, t);
  }

  /** An "am"/"pm" is never directly followed by a digit. */
  predicate NoMarkerBeforeDigit(s: string)
  {
    forall i :: 0 <= i < |s| - 1 && s[i] == 'm' ==> !IsDigit(s[i + 1])
  }

  /** Lines 114 and 118: a dash is put between the two groups of every match. */
  function SplitGlued(s: string, g: Glue): (r: string)
    ensures NoMarkerBeforeDigit(s) ==> r == s
    decreases |s|
  {
    if s == [] then []
    else
      var m := GlueMatch(s, g);
      if m.0 > 0 then
        assert s[m.0 - 1] == s[m.0 - 2..m.0][1] == 'm';
        s[..m.0] + "-" + s[m.0..m.0 + m.1] + SplitGlued(s[m.0 + m.1..], g)
      else
        var r := [s[0]] + SplitGlued(s[1..], g);
        assert s == [s[0]] + s[1..];
        assert forall i :: 0 <= i < |s[1..]| ==> s[1..][i] == s[i + 1];
        r
  }

  lemma {:induction false} EraseInnerDash(a: string, b: string)
    ensures Erase(a + "-" + b, '-') == Erase(a + b, '-')
  {
    EraseConcat(a + "-", b, '-');
    EraseConcat(a, "-", '-');
    EraseConcat(a, b, '-');
  }

  lemma {:induction false} EraseAroundDash(a: string, b: string, x: string, y: string)
    requires Erase(x, '-') == Erase(y, '-')
    ensures Erase(a + "-" + b + x, '-') == Erase(a + b + y, '-')
  {
    EraseInnerDash(a, b);
    EraseConcat(a + "-" + b, x, '-');
    EraseConcat(a + b, y, '-');
  }

  /** One step of the scan of lines 114 and 118. */
  lemma SplitGluedStep(s: string, g: Glue)
    requires s != []
    ensures var m := GlueMatch(s, g);
      SplitGlued(s, g) ==
        if m.0 > 0 then s[..m.0] + "-" + s[m.0..m.0 + m.1] + SplitGlued(s[m.0 + m.1..], g)
        else [s[0]] + SplitGlued(s[1..], g)
  {
  }

  /** Where the glued-times pattern matches, a dash is put between its two groups. */
  lemma SplitGluedFront(a: string, b: string, t: string, g: Glue)
    requires a != [] && GlueMatch(a + b + t, g) == (|a|, |b|)
    ensures SplitGlued(a + b + t, g) == a + "-" + b + SplitGlued(t, g)
  {
    var s := a + b + t;
    SplitGluedStep(s, g);
    assert s[..|a|] == a && s[|a|..|a| + |b|] == b && s[|a| + |b|..] == t;
  }

  lemma {:induction false} EraseAfterKept(c: char, x: string, y: string)
    requires Erase(x, '-') == Erase(y, '-')
    ensures Erase([c] + x, '-') == Erase([c] + y, '-')
  {
    EraseConcat([c], x, '-');
    EraseConcat([c], y, '-');
  }

  lemma SliceThree(s: string, i: nat, j: nat)
    requires i <= j <= |s|
    ensures s == s[..i] + s[i..j] + s[j..]
  {
  }

  /** The glued-times passes only insert dashes. */
  lemma {:induction false} SplitGluedInsertsOnlyDashes(s: string, g: Glue)
    ensures Erase(SplitGlued(s, g), '-') == Erase(s, '-')
    decreases |s|
  {
    if s != [] {
      var m := GlueMatch(s, g);
      SplitGluedStep(s, g);
      if m.0 > 0 {
        var i, j := m.0, m.0 + m.1;
        SplitGluedInsertsOnlyDashes(s[j..], g);
        SliceThree(s, i, j);
        EraseAroundDash(s[..i], s[i..j], SplitGlued(s[j..], g), s[j..]);
      } else {
        SplitGluedInsertsOnlyDashes(s[1..], g);
        assert s == [s[0]] + s[1..];
        EraseAfterKept(s[0], SplitGlued(s[1..], g), s[1..]);
      }
    }
  }

  /* ---- `--+` -> `-` (line 117) ---- */

  /** The suffix after the leading run of dashes. */
  function DropDashes(s: string): (r: string)
    ensures |r| <= |s| && r == s[|s| - |r|..]
    ensures r == [] || r[0] != '-'
    ensures forall i :: 0 <= i < |s| - |r| ==> s[i] == '-'
    decreases |s|
  {
    if s != [] && s[0] == '-' then DropDashes(s[1..]) else s
  }

  predicate NoDoubleDash(s: string)
  {
    forall i :: 0 <= i < |s| - 1 ==> !(s[i] == '-' && s[i + 1] == '-')
  }

  /** Line 117: every run of dashes becomes a single dash. */
  function CollapseDashes(s: string): (r: string)
    ensures s != [] ==> r != [] && r[0] == s[0]
    ensures NoDoubleDash(r)
    decreases |s|
  {
    if s == [] then []
    else if s[0] == '-' then
      var rest := DropDashes(s);
      var r := "-" + CollapseDashes(rest);
      assert forall i :: 1 <= i < |r| ==> r[i] == CollapseDashes(rest)[i - 1];
      r
    else
      var r := [s[0]] + CollapseDashes(s[1..]);
      assert forall i :: 1 <= i < |r| ==> r[i] == CollapseDashes(s[1..])[i - 1];
      r
  }

  predicate AllDashes(s: string)
  {
    forall i :: 0 <= i < |s| ==> s[i] == '-'
  }

  lemma {:induction false} EraseAllDashes(s: string)
    requires AllDashes(s)
    ensures Erase(s, '-') == []
    decreases |s|
  {
    if s != [] {
      EraseAllDashes(s[1..]);
    }
  }

  lemma {:induction false} DropDashesOf(dashes: string, t: string)
    requires AllDashes(dashes) && (t == [] || t[0] != '-')
    ensures DropDashes(dashes + t) == t
    decreases |dashes|
  {
    if dashes == [] {
      assert dashes + t == t;
    } else {
      assert (dashes + t)[1..] == dashes[1..] + t;
      DropDashesOf(dashes[1..], t);
    }
  }

  /** Line 117 keeps every character that is not a dash, in order. */
  lemma {:induction false} CollapseDashesKeepsOthers(s: string)
    ensures Erase(CollapseDashes(s), '-') == Erase(s, '-')
    decreases |s|
  {
    if s != [] {
      if s[0] == '-' {
        var rest := DropDashes(s);
        CollapseDashesKeepsOthers(rest);
        CollapseDashesRunStep(s);
      } else {
        CollapseDashesKeepsOthers(s[1..]);
        assert s == [s[0]] + s[1..];
        EraseConcat([s[0]], s[1..], '-');
        EraseConcat([s[0]], CollapseDashes(s[1..]), '-');
      }
    }
  }

  lemma {:induction false} EraseDropDashes(s: string)
    ensures Erase(DropDashes(s), '-') == Erase(s, '-')
    decreases |s|
  {
    if s != [] && s[0] == '-' {
      EraseDropDashes(s[1..]);
      assert DropDashes(s) == DropDashes(s[1..]);
      assert Erase(s, '-') == Erase(s[1..], '-');
    }
  }

  lemma CollapseDashesRunStep(s: string)
    requires s != [] && s[0] == '-'
    requires Erase(CollapseDashes(DropDashes(s)), '-') == Erase(DropDashes(s), '-')
    ensures Erase(CollapseDashes(s), '-') == Erase(s, '-')
  {
    var r := CollapseDashes(DropDashes(s));
    assert CollapseDashes(s) == "-" + r;
    EraseDropDashes(s);
    assert Erase("-" + r, '-') == Erase(("-" + r)[1..], '-');
    assert ("-" + r)[1..] == r;
  }

  /** Line 117: a run of one or more dashes becomes a single dash. */
  lemma CollapseDashesRun(dashes: string, t: string)
    requires dashes != [] && AllDashes(dashes) && (t == [] || t[0] != '-')
    ensures CollapseDashes(dashes + t) == "-" + CollapseDashes(t)
  {
    assert (dashes + t)[0] == '-';
    DropDashesOf(dashes, t);
  }

  /** A string without two dashes in a row is left as it is. */
  lemma {:induction false} CollapseDashesUnchanged(s: string)
    requires NoDoubleDash(s)
    ensures CollapseDashes(s) == s
    decreases |s|
  {
    if s != [] {
      assert NoDoubleDash(s[1..]) by {
        forall i | 0 <= i < |s[1..]| - 1 ensures !(s[1..][i] == '-' && s[1..][i + 1] == '-') {
          assert s[1..][i] == s[i + 1] && s[1..][i + 1] == s[i + 2];
        }
      }
      CollapseDashesUnchanged(s[1..]);
      if s[0] == '-' {
        assert DropDashes(s) == DropDashes(s[1..]);
        assert s[1..] == [] || s[1] != '-';
        assert DropDashes(s[1..]) == s[1..];
      }
      assert s == [s[0]] + s[1..];
    }
  }
}
