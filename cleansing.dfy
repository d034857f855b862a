/**
 * `cleanse_time_range`: one free-text opening-hours cell becomes a list of
 * `[start, end]` pairs of canonical `HH:MM` times.
 * Line numbers in the comments below refer to src/app/process_data.py.
 */
module Cleansing {
  import opened Wrappers
  import opened PyText
  import opened Clock
  import opened Rewrites

  /** One `[start, end]` pair of 24-hour times. */
  datatype TimePair = TimePair(start: string, end: string)

  predicate IsClockPair(p: TimePair)
  {
    IsClock(p.start) && IsClock(p.end)
  }

  /** The pair standing for "closed", also every fallback of the cleanser. */
  const Closed: TimePair := TimePair("00:00", "00:00")

  /** The pair standing for "24 hours". */
  const AllDay: TimePair := TimePair("00:00", "23:59")

  /**
   * One `(start, end)` token pair of the loop body: am/pm inference, colon
   * insertion, then conversion; `None` when either side does not convert,
   * in which case the pair is skipped.
   */
  function ParsePair(start: string, end: string): (r: Option<TimePair>)
    ensures r.Some? ==> IsClockPair(r.value)
  {
    var (s, e) := InferMissingAmPm(start, end);
    var s24 := ConvertTo24h(FixIrregularTimeFormat(s));
    var e24 := ConvertTo24h(FixIrregularTimeFormat(e));
    if s24.Some? && e24.Some? then Some(TimePair(s24.value, e24.value)) else None
  }

  /**
   * How the loop walks the dash-separated tokens two at a time: `None` when
   * it returns the closed fallback early (an empty token, or a last token
   * with no partner), otherwise the consecutive `(start, end)` token pairs.
   */
  function Pairs(tokens: seq<string>): (r: Option<seq<(string, string)>>)
    ensures r.Some? ==> 2 * |r.value| == |tokens|
    ensures r.Some? ==> forall k :: 0 <= k < |r.value| ==> r.value[k] == (tokens[2 * k], tokens[2 * k + 1])
    decreases |tokens|
  {
    if tokens == [] then Some([])
    else if tokens[0] == [] || |tokens| == 1 || tokens[1] == [] then None
    else
      match Pairs(tokens[2..])
      case None => None
      case Some(rest) =>
        var r := [(tokens[0], tokens[1])] + rest;
        assert forall k :: 1 <= k < |r| ==> r[k] == rest[k - 1] && tokens[2 * k] == tokens[2..][2 * (k - 1)];
        Some(r)
  }

  /** What one result contributes: its value when it succeeded, nothing otherwise. */
  function Kept(x: Option<TimePair>): seq<TimePair>
  {
    if x.Some? then [x.value] else []
  }

  /** The values of the successful results, in order. */
  function Successes(rs: seq<Option<TimePair>>): (r: seq<TimePair>)
    ensures |r| <= |rs|
    decreases |rs|
  {
    if rs == [] then []
    else
      assert forall k :: 1 <= k < |rs| ==> rs[k] == rs[1..][k - 1];
      Kept(rs[0]) + Successes(rs[1..])
  }

  /** When every successful result is a clock pair, so is every kept value. */
  lemma {:induction false} SuccessesAreClockPairs(rs: seq<Option<TimePair>>)
    requires forall k :: 0 <= k < |rs| && rs[k].Some? ==> IsClockPair(rs[k].value)
    ensures forall k :: 0 <= k < |Successes(rs)| ==> IsClockPair(Successes(rs)[k])
    decreases |rs|
  {
    if rs != [] {
      var t := rs[1..];
      assert forall k :: 0 <= k < |t| ==> t[k] == rs[k + 1];
      SuccessesAreClockPairs(t);
      var r := Successes(rs);
      assert r == Kept(rs[0]) + Successes(t);
      assert forall k :: |Kept(rs[0])| <= k < |r| ==> r[k] == Successes(t)[k - |Kept(rs[0])|];
    }
  }

  /** Exactly the values of the successful results are kept. */
  lemma {:induction false} SuccessesMembers(rs: seq<Option<TimePair>>)
    ensures forall x :: x in Successes(rs) <==> Some(x) in rs
    decreases |rs|
  {
    if rs != [] {
      SuccessesMembers(rs[1..]);
      assert rs == [rs[0]] + rs[1..];
    }
  }

  /** `parse` applied to every `(start, end)` token pair, in order. */
  function MapPairs(pairs: seq<(string, string)>, parse: (string, string) -> Option<TimePair>): (r: seq<Option<TimePair>>)
    ensures |r| == |pairs|
    ensures forall k :: 0 <= k < |pairs| ==> r[k] == parse(pairs[k].0, pairs[k].1)
  {
    seq(|pairs|, k requires 0 <= k < |pairs| => parse(pairs[k].0, pairs[k].1))
  }

  lemma {:induction false} MapPairsSlice(pairs: seq<(string, string)>, parse: (string, string) -> Option<TimePair>, i: nat, j: nat)
    requires i <= j <= |pairs|
    ensures MapPairs(pairs, parse)[i..j] == MapPairs(pairs[i..j], parse)
  {
    assert forall k :: 0 <= k < j - i ==> pairs[i..j][k] == pairs[i + k];
  }

  lemma {:induction false} MapPairsConcat(a: seq<(string, string)>, b: seq<(string, string)>, parse: (string, string) -> Option<TimePair>)
    ensures MapPairs(a + b, parse) == MapPairs(a, parse) + MapPairs(b, parse)
  {
    assert forall k :: |a| <= k < |a + b| ==> (a + b)[k] == b[k - |a|];
  }

  /** The pairs that convert, in order; a pair where either side fails is skipped. */
  function Converted(pairs: seq<(string, string)>): (r: seq<TimePair>)
    ensures |r| <= |pairs|
    ensures forall k :: 0 <= k < |r| ==> IsClockPair(r[k])
  {
    var rs := MapPairs(pairs, ParsePair);
    SuccessesAreClockPairs(rs);
    Successes(rs)
  }

  /** The whole loop: `None` for the early return, otherwise the pairs appended to `times`. */
  function ParsePairs(tokens: seq<string>): (r: Option<seq<TimePair>>)
    ensures r.Some? ==> 2 * |r.value| <= |tokens| && forall k :: 0 <= k < |r.value| ==> IsClockPair(r.value[k])
  {
    match Pairs(tokens)
    case None => None
    case Some(ps) => Some(Converted(ps))
  }

  /** What the pairs collected so far become once the rest of the loop has run. */
  function Prepend(done: seq<TimePair>, rest: Option<seq<TimePair>>): Option<seq<TimePair>>
  {
    match rest
    case None => None
    case Some(ps) => Some(done + ps)
  }

  /** The final `return`: the collected pairs, or the closed fallback when there are none. */
  function Fallback(r: Option<seq<TimePair>>): (f: seq<TimePair>)
    ensures |f| >= 1
    ensures r.Some? && (forall k :: 0 <= k < |r.value| ==> IsClockPair(r.value[k])) ==> forall k :: 0 <= k < |f| ==> IsClockPair(f[k])
  {
    if r.Some? && r.value != [] then r.value else [Closed]
  }

  /** The rewrite passes applied to the stripped, lower-cased cell, in order. */
  function Normalise(s: string): string
  {
    var s := Erase(s, NarrowNoBreakSpace);
    var s := Erase(s, ' ');
    var s := StripDayPrefix(s);
    var s := CollapseMeridiem(s, 'a');
    var s := CollapseMeridiem(s, 'p');
    var s := ExpandBareMeridiem(s, 'a');
    var s := ExpandBareMeridiem(s, 'p');
    var s := NormalizeDashes(s);
    var s := ReplaceAll(s, "to", "-");
    var s := SplitGlued(s, TimeThenHour);
    var s := SeparatorsToDash(s);
    var s := CollapseDashes(s);
    SplitGlued(s, HourThenTime)
  }

  /**
   * What `cleanse_time_range` returns for a cell (`None` for a missing one):
   * never an empty list, and only canonical times.
   */
  function TimeRanges(cell: Option<string>): (r: seq<TimePair>)
    ensures |r| >= 1
    ensures forall k :: 0 <= k < |r| ==> IsClockPair(r[k])
    ensures cell.None? || AllSpace(cell.value) ==> r == [Closed]
  {
    if cell.None? || Strip(cell.value) == [] then [Closed]
    else
      var s := Lower(Strip(cell.value));
      if Contains(s, "24 hours") then [AllDay]
      else if Contains(s, "closed") then [Closed]
      else Fallback(ParsePairs(Split(Normalise(s), '-')))
  }

  /** `cleanse_time_range`, step by step as the source runs it. */
  method CleanseTimeRange(cell: Option<string>) returns (times: seq<TimePair>)
    ensures times == TimeRanges(cell)
  {
    if cell.None? || Strip(cell.value) == [] {
      return [Closed];
    }
    var timeRange := Lower(Strip(cell.value));
    if Contains(timeRange, "24 hours") {
      return [AllDay];
    }
    if Contains(timeRange, "closed") {
      return [Closed];
    }
    ghost var lowered := timeRange;
    timeRange := Erase(timeRange, NarrowNoBreakSpace);
    timeRange := Erase(timeRange, ' ');
    timeRange := StripDayPrefix(timeRange);
    timeRange := CollapseMeridiem(timeRange, 'a');
    timeRange := CollapseMeridiem(timeRange, 'p');
    timeRange := ExpandBareMeridiem(timeRange, 'a');
    timeRange := ExpandBareMeridiem(timeRange, 'p');
    timeRange := NormalizeDashes(timeRange);
    timeRange := ReplaceAll(timeRange, "to", "-");
    timeRange := SplitGlued(timeRange, TimeThenHour);
    timeRange := SeparatorsToDash(timeRange);
    timeRange := CollapseDashes(timeRange);
    timeRange := SplitGlued(timeRange, HourThenTime);
    assert timeRange == Normalise(lowered);

    var ranges := Split(timeRange, '-');
    times := [];
    var i := 0;
    assert ranges[i..] == ranges;
    PrependNothing(ParsePairs(ranges));
    while i < |ranges|
      invariant 0 <= i <= |ranges|
      invariant ParsePairs(ranges) == Prepend(times, ParsePairs(ranges[i..]))
      decreases |ranges| - i
    {
      var start := ranges[i];
      if start == [] || i + 1 >= |ranges| || ranges[i + 1] == [] {
        ParsePairsReset(ranges[i..]);
        return [Closed];
      }
      var end := ranges[i + 1];
      ParsePairsStep(ranges[i..]);
      assert ranges[i..][2..] == ranges[i + 2..];
      var (s, e) := InferMissingAmPm(start, end);
      s := FixIrregularTimeFormat(s);
      e := FixIrregularTimeFormat(e);
      var s24 := ConvertTo24h(s);
      var e24 := ConvertTo24h(e);
      PrependTwice(times, Kept(ParsePair(start, end)), ParsePairs(ranges[i + 2..]));
      if s24.Some? && e24.Some? {
        times := times + [TimePair(s24.value, e24.value)];
      } else {
        assert times + [] == times;
      }
      i := i + 2;
    }
    assert ranges[i..] == [];
    assert times + [] == times;
    if times == [] {
      times := [Closed];
    }
  }

  /* ---- the early return of the loop ---- */

  /**
   * A word that is not padded with whitespace survives, lower-cased, the
   * stripping and lower-casing of any cell it occurs in.
   */
  lemma KeywordSurvives(x: string, word: string, y: string)
    requires word != [] && !IsSpace(Lower(word)[0]) && !IsSpace(Lower(word)[|word| - 1])
    ensures !AllSpace(x + word + y)
    ensures Contains(Lower(Strip(x + word + y)), Lower(word))
  {
    if IsSpace(word[0]) {
      SpaceLowerFixed(word[0]);
    }
    if IsSpace(word[|word| - 1]) {
      SpaceLowerFixed(word[|word| - 1]);
    }
    StripKeepsInner(x, word, y);
    LowerContains(Strip(x + word + y), word);
  }

  /** A cell mentioning "24 hours", in any case, reads as open all day whatever else it says, "closed" included. */
  lemma AllDayWins(x: string, word: string, y: string)
    requires Lower(word) == "24 hours"
    ensures TimeRanges(Some(x + word + y)) == [AllDay]
  {
    KeywordSurvives(x, word, y);
  }

  /** A cell mentioning "closed", in any case, and not "24 hours", reads as closed. */
  lemma ClosedCell(x: string, word: string, y: string)
    requires Lower(word) == "closed"
    requires !Contains(Lower(Strip(x + word + y)), "24 hours")
    ensures TimeRanges(Some(x + word + y)) == [Closed]
  {
    KeywordSurvives(x, word, y);
  }

  /**
   * The loop gives up, and the cell reads as closed, exactly when the tokens
   * cannot be paired off: an odd number of them, or an empty one anywhere.
   */
  lemma {:induction false} PairsResetIff(tokens: seq<string>)
    ensures Pairs(tokens).None? <==> |tokens| % 2 == 1 || exists j :: 0 <= j < |tokens| && tokens[j] == []
    decreases |tokens|
  {
    if tokens != [] && tokens[0] != [] && |tokens| > 1 && tokens[1] != [] {
      var rest := tokens[2..];
      PairsResetIff(rest);
      if exists j :: 0 <= j < |rest| && rest[j] == [] {
        var j :| 0 <= j < |rest| && rest[j] == [];
        assert tokens[j + 2] == [];
      }
      if exists j :: 0 <= j < |tokens| && tokens[j] == [] {
        var j :| 0 <= j < |tokens| && tokens[j] == [];
        assert rest[j - 2] == [];
      }
    } else if tokens != [] {
      if tokens[0] == [] {
        assert tokens[0] == [];
      } else if |tokens| > 1 {
        assert tokens[1] == [];
      }
    }
  }

  /** When every result succeeds, all of them are kept, in order. */
  lemma {:induction false} SuccessesOfAll(rs: seq<Option<TimePair>>)
    requires forall k :: 0 <= k < |rs| ==> rs[k].Some?
    ensures |Successes(rs)| == |rs|
    ensures forall k :: 0 <= k < |rs| ==> Successes(rs)[k] == rs[k].value
    decreases |rs|
  {
    if rs != [] {
      SuccessesOfAll(rs[1..]);
      var r := Successes(rs);
      assert r == [rs[0].value] + Successes(rs[1..]);
      assert forall k :: 1 <= k < |rs| ==> r[k] == Successes(rs[1..])[k - 1] && rs[k] == rs[1..][k - 1];
    }
  }

  /** A failed result is dropped and nothing else changes. */
  lemma {:induction false} SuccessesSkipFailure(rs: seq<Option<TimePair>>, j: nat)
    requires j < |rs| && rs[j].None?
    ensures Successes(rs) == Successes(rs[..j]) + Successes(rs[j + 1..])
    decreases j
  {
    if j == 0 {
      assert rs[..0] == [];
      assert rs[1..] == rs[j + 1..];
      assert Successes(rs) == [] + Successes(rs[1..]);
    } else {
      var t := rs[1..];
      SuccessesSkipFailure(t, j - 1);
      assert t[..j - 1] == rs[..j][1..];
      assert t[j..] == rs[j + 1..];
      assert rs[..j][0] == rs[0];
      var head := Kept(rs[0]);
      assert Successes(rs) == head + Successes(t);
      assert Successes(rs[..j]) == head + Successes(t[..j - 1]);
      assert head + (Successes(t[..j - 1]) + Successes(t[j..])) == (head + Successes(t[..j - 1])) + Successes(t[j..]);
    }
  }

  lemma {:induction false} MapPairsSkipFailure(pairs: seq<(string, string)>, parse: (string, string) -> Option<TimePair>, j: nat)
    requires j < |pairs| && parse(pairs[j].0, pairs[j].1).None?
    ensures Successes(MapPairs(pairs, parse)) ==
      Successes(MapPairs(pairs[..j], parse)) + Successes(MapPairs(pairs[j + 1..], parse))
  {
    var rs := MapPairs(pairs, parse);
    SuccessesSkipFailure(rs, j);
    MapPairsSlice(pairs, parse, 0, j);
    MapPairsSlice(pairs, parse, j + 1, |pairs|);
    assert pairs[0..j] == pairs[..j] && rs[0..j] == rs[..j];
    assert pairs[j + 1..|pairs|] == pairs[j + 1..] && rs[j + 1..|pairs|] == rs[j + 1..];
  }

  /** A pair that fails to convert is skipped, and nothing else changes. */
  lemma {:induction false} ConvertedSkipsFailedPair(pairs: seq<(string, string)>, j: nat)
    requires j < |pairs| && ParsePair(pairs[j].0, pairs[j].1).None?
    ensures Converted(pairs) == Converted(pairs[..j]) + Converted(pairs[j + 1..])
  {
    MapPairsSkipFailure(pairs, ParsePair, j);
  }

  /** When every pair converts, each one is kept, in order. */
  lemma {:induction false} ConvertedKeepsGoodPairs(pairs: seq<(string, string)>)
    requires forall k :: 0 <= k < |pairs| ==> ParsePair(pairs[k].0, pairs[k].1).Some?
    ensures |Converted(pairs)| == |pairs|
    ensures forall k :: 0 <= k < |pairs| ==> Converted(pairs)[k] == ParsePair(pairs[k].0, pairs[k].1).value
  {
    SuccessesOfAll(MapPairs(pairs, ParsePair));
  }

  /** One turn of the loop: the first two tokens are converted and the rest of the tokens follow. */
  lemma {:induction false} ParsePairsStep(t: seq<string>)
    requires |t| >= 2 && t[0] != [] && t[1] != []
    ensures ParsePairs(t) == Prepend(Kept(ParsePair(t[0], t[1])), ParsePairs(t[2..]))
  {
    match Pairs(t[2..])
    case None =>
    case Some(rest) =>
      assert Pairs(t) == Some([(t[0], t[1])] + rest);
      MapPairsConcat([(t[0], t[1])], rest, ParsePair);
      var head := MapPairs([(t[0], t[1])], ParsePair);
      assert head == [ParsePair(t[0], t[1])];
      var rs := head + MapPairs(rest, ParsePair);
      assert rs[0] == ParsePair(t[0], t[1]) && rs[1..] == MapPairs(rest, ParsePair);
      assert Successes(rs) == Kept(ParsePair(t[0], t[1])) + Converted(rest);
  }

  /** The loop's early return: a missing or empty token at the front. */
  lemma {:induction false} ParsePairsReset(t: seq<string>)
    requires t != [] && (t[0] == [] || |t| == 1 || t[1] == [])
    ensures ParsePairs(t) == None
  {
  }

  lemma {:induction false} PrependNothing(r: Option<seq<TimePair>>)
    ensures Prepend([], r) == r
  {
    if r.Some? {
      assert [] + r.value == r.value;
    }
  }

  lemma {:induction false} PrependTwice(a: seq<TimePair>, b: seq<TimePair>, r: Option<seq<TimePair>>)
    ensures Prepend(a, Prepend(b, r)) == Prepend(a + b, r)
  {
    if r.Some? {
      assert a + (b + r.value) == (a + b) + r.value;
    }
  }

  /** An empty token anywhere, say from a trailing dash as in `9am-`, makes the whole cell read as closed. */
  lemma {:induction false} EmptyTokenMeansClosed(tokens: seq<string>, j: nat)
    requires j < |tokens| && tokens[j] == []
    ensures Fallback(ParsePairs(tokens)) == [Closed]
  {
    PairsResetIff(tokens);
  }

  /* ---- texts the rewrite passes leave alone ---- */

  /** Characters of a plain range text: digits, colon, dash and the letters of am/pm. */
  predicate IsPlainChar(c: char)
  {
    IsDigit(c) || c == ':' || c == '-' || c == 'a' || c == 'p' || c == 'm'
  }

  /** Neighbours no pass rewrites: no double dash, no marker glued to a digit, `a`/`p` only before `m`. */
  predicate PlainPair(x: char, y: char)
  {
    !(x == '-' && y == '-') && !(x == 'm' && IsDigit(y)) && ((x == 'a' || x == 'p') ==> y == 'm')
  }

  predicate IsPlainText(s: string)
  {
    (forall i :: 0 <= i < |s| ==> IsPlainChar(s[i])) &&
    (forall i :: 0 <= i < |s| - 1 ==> PlainPair(s[i], s[i + 1])) &&
    (s != [] ==> s[|s| - 1] != 'a' && s[|s| - 1] != 'p')
  }

  /** A token of a plain range text: non-empty and dash-free. */
  predicate IsPlainToken(t: string)
  {
    t != [] && '-' !in t && IsPlainText(t)
  }

  lemma {:induction false} ConcatPlain(a: string, b: string)
    requires IsPlainText(a) && IsPlainText(b)
    requires a != [] && b != [] ==> PlainPair(a[|a| - 1], b[0])
    ensures IsPlainText(a + b)
  {
    var s := a + b;
    forall i | 0 <= i < |s| - 1 ensures PlainPair(s[i], s[i + 1]) {
      if i < |a| - 1 {
        assert s[i] == a[i] && s[i + 1] == a[i + 1];
      } else if i >= |a| {
        assert s[i] == b[i - |a|] && s[i + 1] == b[i + 1 - |a|];
      }
    }
  }

  /** Plain tokens joined with dashes make a plain text that starts like its first token. */
  lemma {:induction false} JoinPlainTokens(parts: seq<string>)
    requires |parts| > 0
    requires forall k :: 0 <= k < |parts| ==> IsPlainToken(parts[k])
    ensures IsPlainText(Join(parts, '-'))
    ensures IsPlainToken(parts[0]) && Join(parts, '-') != [] && Join(parts, '-')[0] == parts[0][0]
    decreases |parts|
  {
    if |parts| > 1 {
      var rest := Join(parts[1..], '-');
      JoinPlainTokens(parts[1..]);
      var a := parts[0];
      assert a[|a| - 1] in a;
      ConcatPlain(a, "-");
      assert rest[0] == parts[1][0] && parts[1][0] in parts[1];
      ConcatPlain(a + "-", rest);
      assert Join(parts, '-') == (a + "-") + rest;
    }
  }

  lemma {:induction false} PlainLacks(s: string, c: char)
    requires IsPlainText(s) && !IsPlainChar(c)
    ensures c !in s
  {
  }

  lemma {:induction false} PlainKeptByMeridiemPasses(s: string)
    requires IsPlainText(s)
    ensures CollapseMeridiem(s, 'a') == s && CollapseMeridiem(s, 'p') == s
    ensures ExpandBareMeridiem(s, 'a') == s && ExpandBareMeridiem(s, 'p') == s
  {
    PlainLacks(s, '.');
    forall i | 0 <= i < |s| && (s[i] == 'a' || s[i] == 'p') ensures i + 1 < |s| && IsWordChar(s[i + 1]) {
      assert i != |s| - 1;
      assert PlainPair(s[i], s[i + 1]);
    }
  }

  lemma {:induction false} PlainKeptByDashPasses(s: string)
    requires IsPlainText(s)
    ensures NormalizeDashes(s) == s && ReplaceAll(s, "to", "-") == s
    ensures SplitGlued(s, TimeThenHour) == s && SplitGlued(s, HourThenTime) == s
    ensures SeparatorsToDash(s) == s && CollapseDashes(s) == s
  {
    assert NormalizeDashes(s) == s;
    assert SeparatorsToDash(s) == s;
    PlainLacks(s, 't');
    if Contains(s, "to") {
      ContainsChars(s, "to", 't');
    }
    assert NoMarkerBeforeDigit(s) by {
      forall i | 0 <= i < |s| - 1 && s[i] == 'm' ensures !IsDigit(s[i + 1]) {
        assert PlainPair(s[i], s[i + 1]);
      }
    }
    assert NoDoubleDash(s) by {
      forall i | 0 <= i < |s| - 1 ensures !(s[i] == '-' && s[i + 1] == '-') {
        assert PlainPair(s[i], s[i + 1]);
      }
    }
    CollapseDashesUnchanged(s);
  }

  /** Every pass of `Normalise` leaves a plain text that starts with a digit unchanged. */
  lemma {:induction false} NormaliseKeepsPlainText(s: string)
    requires s != [] && IsDigit(s[0]) && IsPlainText(s)
    ensures Normalise(s) == s
  {
    PlainLacks(s, NarrowNoBreakSpace);
    PlainLacks(s, ' ');
    assert Erase(s, NarrowNoBreakSpace) == s && Erase(s, ' ') == s;
    assert StripDayPrefix(s) == s;
    PlainKeptByMeridiemPasses(s);
    PlainKeptByDashPasses(s);
  }

  lemma {:induction false} PlainStripKept(s: string)
    requires s != [] && IsDigit(s[0]) && IsPlainText(s)
    ensures Strip(s) == s && !AllSpace(s)
  {
    assert IsPlainChar(s[|s| - 1]);
    assert !IsSpace(s[0]) && !IsSpace(s[|s| - 1]);
    StripUnchanged(s);
  }

  lemma {:induction false} PlainLowerKept(s: string)
    requires IsPlainText(s)
    ensures Lower(s) == s
  {
    assert forall i :: 0 <= i < |s| ==> LowerChar(s[i]) == s[i];
  }

  lemma {:induction false} PlainHasNoKeyword(s: string)
    requires IsPlainText(s)
    ensures !Contains(s, "24 hours") && !Contains(s, "closed")
  {
    PlainLacks(s, ' ');
    PlainLacks(s, 'c');
    if Contains(s, "24 hours") {
      assert ' ' in "24 hours";
      ContainsChars(s, "24 hours", ' ');
    }
    if Contains(s, "closed") {
      assert 'c' in "closed";
      ContainsChars(s, "closed", 'c');
    }
  }

  lemma {:induction false} PlainPassesShortCircuits(s: string)
    requires s != [] && IsDigit(s[0]) && IsPlainText(s)
    ensures Strip(s) == s && !AllSpace(s) && Lower(s) == s
    ensures !Contains(s, "24 hours") && !Contains(s, "closed")
  {
    PlainStripKept(s);
    PlainLowerKept(s);
    PlainHasNoKeyword(s);
  }

  /** A plain text read as a cell goes straight to the token loop. */
  lemma {:induction false} PlainTextSkipsRewrites(s: string)
    requires s != [] && IsDigit(s[0]) && IsPlainText(s)
    ensures TimeRanges(Some(s)) == Fallback(ParsePairs(Split(s, '-')))
  {
    PlainPassesShortCircuits(s);
    NormaliseKeepsPlainText(s);
  }

  lemma {:induction false} SplitTwo(a: string, b: string)
    requires '-' !in a && '-' !in b
    ensures Split(a + "-" + b, '-') == [a, b]
  {
    assert Join([a, b], '-') == a + "-" + b;
    SplitJoin([a, b], '-');
  }

  lemma {:induction false} PairsOfTwo(a: string, b: string)
    requires a != [] && b != []
    ensures Pairs([a, b]) == Some([(a, b)])
  {
    assert [a, b][2..] == [];
    assert Pairs([a, b][2..]) == Some([]);
    assert [([a, b][0], [a, b][1])] + [] == [(a, b)];
  }

  lemma {:induction false} ConvertedOfOne(a: string, b: string, p: TimePair)
    requires ParsePair(a, b) == Some(p)
    ensures Converted([(a, b)]) == [p]
  {
    var rs := MapPairs([(a, b)], ParsePair);
    assert rs == [Some(p)];
    assert rs[1..] == [];
    assert Successes(rs) == [p] + [] == [p];
  }

  lemma {:induction false} ParsePairsOfTwo(a: string, b: string, p: TimePair)
    requires a != [] && b != [] && ParsePair(a, b) == Some(p)
    ensures ParsePairs([a, b]) == Some([p])
  {
    PairsOfTwo(a, b);
    ConvertedOfOne(a, b, p);
  }

  /** A range of two plain tokens reads as the one pair they parse to. */
  lemma {:induction false} SinglePairText(a: string, b: string, p: TimePair)
    requires IsPlainToken(a) && IsPlainToken(b) && IsDigit(a[0])
    requires ParsePair(a, b) == Some(p)
    ensures TimeRanges(Some(a + "-" + b)) == [p]
  {
    JoinPlainTokens([a, b]);
    assert Join([a, b], '-') == a + "-" + b;
    PlainTextSkipsRewrites(a + "-" + b);
    SplitTwo(a, b);
    ParsePairsOfTwo(a, b, p);
  }

  /* ---- canonical input reads back as itself ---- */

  function Flatten(ps: seq<TimePair>): (r: seq<string>)
    ensures |r| == 2 * |ps|
  {
    if ps == [] then [] else [ps[0].start, ps[0].end] + Flatten(ps[1..])
  }

  /** The pairs written `HH:MM-HH:MM-...`, the form the cleanser produces. */
  function RangeText(ps: seq<TimePair>): string
    requires ps != []
  {
    Join(Flatten(ps), '-')
  }

  lemma {:induction false} ClockIsPlainToken(t: string)
    requires IsClock(t)
    ensures IsPlainToken(t) && IsDigit(t[0])
  {
  }

  lemma {:induction false} FlattenClocks(ps: seq<TimePair>)
    requires forall k :: 0 <= k < |ps| ==> IsClockPair(ps[k])
    ensures forall i :: 0 <= i < |Flatten(ps)| ==> IsClock(Flatten(ps)[i])
    decreases |ps|
  {
    if ps != [] {
      FlattenClocks(ps[1..]);
      assert forall i :: 2 <= i < |Flatten(ps)| ==> Flatten(ps)[i] == Flatten(ps[1..])[i - 2];
    }
  }

  lemma {:induction false} ClockStripKept(t: string)
    requires IsClock(t)
    ensures Strip(t) == t
  {
    assert !IsSpace(t[0]) && !IsSpace(t[|t| - 1]);
    StripUnchanged(t);
  }

  lemma {:induction false} ClockFixKept(t: string)
    requires IsClock(t)
    ensures FixIrregularTimeFormat(t) == t
  {
    assert t[|t| - 1] != '\n';
    assert Chomp(t) == t;
    assert !IsDigit(t[2]);
    assert !IsDigitRunTime(t);
  }

  lemma {:induction false} ClockTokenKept(t: string)
    requires IsClock(t)
    ensures Strip(t) == t && !HasMarker(t) && FixIrregularTimeFormat(t) == t && ConvertTo24h(t) == Some(t)
  {
    ClockStripKept(t);
    NoMarkerWithoutLetters(t);
    ClockFixKept(t);
    ConvertKeepsCanonical(t);
  }

  /** A pair of canonical times parses to itself. */
  lemma {:induction false} ParsePairOfClocks(a: string, b: string)
    requires IsClock(a) && IsClock(b)
    ensures ParsePair(a, b) == Some(TimePair(a, b))
  {
    ClockTokenKept(a);
    ClockTokenKept(b);
    InferOnlyStrips(a, b);
  }

  /** The `(start, end)` pairs of texts. */
  function AsTokens(ps: seq<TimePair>): (r: seq<(string, string)>)
    ensures |r| == |ps| && forall k :: 0 <= k < |ps| ==> r[k] == (ps[k].start, ps[k].end)
  {
    seq(|ps|, k requires 0 <= k < |ps| => (ps[k].start, ps[k].end))
  }

  lemma {:induction false} PairsOfFlatten(ps: seq<TimePair>)
    requires forall k :: 0 <= k < |ps| ==> ps[k].start != [] && ps[k].end != []
    ensures Pairs(Flatten(ps)) == Some(AsTokens(ps))
    decreases |ps|
  {
    if ps != [] {
      var t := Flatten(ps);
      assert forall k :: 0 <= k < |ps| - 1 ==> ps[1..][k] == ps[k + 1];
      PairsOfFlatten(ps[1..]);
      assert t == [ps[0].start, ps[0].end] + Flatten(ps[1..]);
      assert t[0] == ps[0].start && t[1] == ps[0].end;
      assert t[2..] == Flatten(ps[1..]);
      var rest := AsTokens(ps[1..]);
      assert Pairs(t) == Some([(t[0], t[1])] + rest);
      assert forall k :: 1 <= k < |ps| ==> AsTokens(ps)[k] == rest[k - 1];
      assert AsTokens(ps) == [(ps[0].start, ps[0].end)] + rest;
    }
  }

  lemma {:induction false} ParsePairsOfClocks(ps: seq<TimePair>)
    requires forall k :: 0 <= k < |ps| ==> IsClockPair(ps[k])
    ensures ParsePairs(Flatten(ps)) == Some(ps)
  {
    PairsOfFlatten(ps);
    var pairs := AsTokens(ps);
    var rs := MapPairs(pairs, ParsePair);
    forall k | 0 <= k < |rs| ensures rs[k] == Some(ps[k]) {
      assert pairs[k] == (ps[k].start, ps[k].end);
      ParsePairOfClocks(ps[k].start, ps[k].end);
    }
    SuccessesOfAll(rs);
    assert Successes(rs) == ps;
    assert Converted(pairs) == ps;
  }

  /**
   * Round trip: the cleanser's own output, written back as `HH:MM-HH:MM`
   * text, reads as the same pairs.
   */
  lemma {:induction false} CanonicalRoundTrip(ps: seq<TimePair>)
    requires ps != []
    requires forall k :: 0 <= k < |ps| ==> IsClockPair(ps[k])
    ensures TimeRanges(Some(RangeText(ps))) == ps
  {
    var parts := Flatten(ps);
    FlattenClocks(ps);
    forall k | 0 <= k < |parts| ensures IsPlainToken(parts[k]) {
      ClockIsPlainToken(parts[k]);
    }
    JoinPlainTokens(parts);
    ClockIsPlainToken(parts[0]);
    PlainTextSkipsRewrites(RangeText(ps));
    SplitJoin(parts, '-');
    ParsePairsOfClocks(ps);
  }

  /* ---- twelve-hour input ---- */

  /** `h:MMam` / `h:MMpm` as such cells usually write a time. */
  function TwelveHourText(h: nat, m: nat, pm: bool): string
    requires 1 <= h <= 12 && m < 60
  {
    NatText(h) + ":" + Pad2(m) + MarkerText(pm)
  }

  lemma {:induction false} DigitsArePlain(d: string)
    requires forall i :: 0 <= i < |d| ==> IsDigit(d[i])
    ensures IsPlainText(d) && '-' !in d
  {
  }

  lemma {:induction false} MarkerIsPlain(pm: bool)
    ensures IsPlainToken(MarkerText(pm))
  {
  }

  lemma {:induction false} TwelveHourTextIsPlain(h: nat, m: nat, pm: bool)
    requires 1 <= h <= 12 && m < 60
    ensures IsPlainToken(TwelveHourText(h, m, pm)) && IsDigit(TwelveHourText(h, m, pm)[0])
  {
    var d := NatText(h);
    DigitsArePlain(d);
    DigitsArePlain(Pad2(m));
    MarkerIsPlain(pm);
    assert d[|d| - 1] in d;
    ConcatPlain(d, ":");
    ConcatPlain(d + ":", Pad2(m));
    ConcatPlain(d + ":" + Pad2(m), MarkerText(pm));
  }

  lemma {:induction false} TwelveHourParses(h: nat, m: nat, pm: bool)
    requires 1 <= h <= 12 && m < 60
    ensures var t := TwelveHourText(h, m, pm);
      Strip(t) == t && HasMarker(t) && FixIrregularTimeFormat(t) == t && LastTwo(t) == MarkerText(pm) &&
      ConvertTo24h(t) == Some(ClockText(To24(h, pm), m))
  {
    var t := TwelveHourText(h, m, pm);
    StripUnchanged(t);
    SuffixContained(NatText(h) + ":" + Pad2(m), MarkerText(pm));
    assert t[|NatText(h)|] == ':';
    assert Chomp(t) == t;
    Convert12WithMinutes(h, m, pm, NatText(h));
  }

  /** `9:00am-5:30pm`: both ends are read as written on the 12-hour clock. */
  lemma {:induction false} TwelveHourRange(h1: nat, m1: nat, pm1: bool, h2: nat, m2: nat, pm2: bool)
    requires 1 <= h1 <= 12 && m1 < 60 && 1 <= h2 <= 12 && m2 < 60
    ensures TimeRanges(Some(TwelveHourText(h1, m1, pm1) + "-" + TwelveHourText(h2, m2, pm2))) ==
      [TimePair(ClockText(To24(h1, pm1), m1), ClockText(To24(h2, pm2), m2))]
  {
    var a, b := TwelveHourText(h1, m1, pm1), TwelveHourText(h2, m2, pm2);
    TwelveHourTextIsPlain(h1, m1, pm1);
    TwelveHourTextIsPlain(h2, m2, pm2);
    TwelveHourParses(h1, m1, pm1);
    TwelveHourParses(h2, m2, pm2);
    InferOnlyStrips(a, b);
    SinglePairText(a, b, TimePair(ClockText(To24(h1, pm1), m1), ClockText(To24(h2, pm2), m2)));
  }

  /** A pair whose two tokens are already known to read as `p`. */
  lemma {:induction false} ParsePairOfTokens(a: string, b: string, sa: string, sb: string, p: TimePair)
    requires InferMissingAmPm(a, b) == (sa, sb)
    requires ConvertTo24h(FixIrregularTimeFormat(sa)) == Some(p.start)
    requires ConvertTo24h(FixIrregularTimeFormat(sb)) == Some(p.end)
    ensures ParsePair(a, b) == Some(p)
  {
  }

  /** A bare hour such as `9`. */
  lemma {:induction false} BareHourToken(h: nat)
    requires 1 <= h <= 12
    ensures var t := NatText(h);
      IsPlainToken(t) && IsDigit(t[0]) && Strip(t) == t && !HasMarker(t)
  {
    var t := NatText(h);
    DigitsArePlain(t);
    assert !IsSpace(t[0]) && !IsSpace(t[|t| - 1]);
    StripUnchanged(t);
    NoMarkerWithoutLetters(t);
  }

  /** An hour with its marker, such as `5pm`. */
  lemma {:induction false} MarkedHourPlain(h: nat, pm: bool)
    requires 1 <= h <= 12
    ensures var t := NatText(h) + MarkerText(pm);
      IsPlainToken(t) && Strip(t) == t
  {
    var t := NatText(h) + MarkerText(pm);
    DigitsArePlain(NatText(h));
    MarkerIsPlain(pm);
    assert NatText(h)[|NatText(h)| - 1] in NatText(h);
    ConcatPlain(NatText(h), MarkerText(pm));
    assert !IsSpace(t[0]) && !IsSpace(t[|t| - 1]);
    StripUnchanged(t);
  }

  lemma {:induction false} MarkedHourReads(h: nat, pm: bool)
    requires 1 <= h <= 12
    ensures var t := NatText(h) + MarkerText(pm);
      HasMarker(t) && LastTwo(t) == MarkerText(pm) &&
      ConvertTo24h(FixIrregularTimeFormat(t)) == Some(ClockText(To24(h, pm), 0))
  {
    var t := NatText(h) + MarkerText(pm);
    SuffixContained(NatText(h), MarkerText(pm));
    assert t[|t| - 1] != '\n';
    assert Chomp(t) == t;
    assert !IsDigitRunTime(t);
    ConvertBareHour(h, pm);
  }

  lemma {:induction false} InferredMarkerPair(h1: nat, h2: nat, pm: bool)
    requires 1 <= h1 <= 12 && 1 <= h2 <= 12
    ensures var a, b := NatText(h1), NatText(h2) + MarkerText(pm);
      IsPlainToken(a) && IsPlainToken(b) && IsDigit(a[0]) &&
      ParsePair(a, b) == Some(TimePair(ClockText(To24(h1, pm), 0), ClockText(To24(h2, pm), 0)))
  {
    var a, b := NatText(h1), NatText(h2) + MarkerText(pm);
    BareHourToken(h1);
    MarkedHourPlain(h2, pm);
    MarkedHourReads(h1, pm);
    MarkedHourReads(h2, pm);
    InferCopiesMarker(a, b, pm);
    ParsePairOfTokens(a, b, a + MarkerText(pm), b, TimePair(ClockText(To24(h1, pm), 0), ClockText(To24(h2, pm), 0)));
  }

  /**
   * `9-5pm`: the start borrows the end's marker, so both ends are read on
   * the same half of the day (here 21:00 to 17:00).
   */
  lemma {:induction false} InferredMarkerRange(h1: nat, h2: nat, pm: bool)
    requires 1 <= h1 <= 12 && 1 <= h2 <= 12
    ensures TimeRanges(Some(NatText(h1) + "-" + NatText(h2) + MarkerText(pm))) ==
      [TimePair(ClockText(To24(h1, pm), 0), ClockText(To24(h2, pm), 0))]
  {
    var a, b := NatText(h1), NatText(h2) + MarkerText(pm);
    InferredMarkerPair(h1, h2, pm);
    assert a + "-" + b == NatText(h1) + "-" + NatText(h2) + MarkerText(pm);
    SinglePairText(a, b, TimePair(ClockText(To24(h1, pm), 0), ClockText(To24(h2, pm), 0)));
  }

  /** A time written as a digit run with its marker, such as `600pm`. */
  function DigitRunText(h: nat, m: nat, pm: bool): string
    requires 1 <= h <= 12 && m < 60
  {
    NatText(h) + Pad2(m) + MarkerText(pm)
  }

  /** A digit run with its marker, such as `600pm`. */
  lemma {:induction false} DigitRunPlain(h: nat, m: nat, pm: bool)
    requires 1 <= h <= 12 && m < 60
    ensures var t := NatText(h) + Pad2(m) + MarkerText(pm);
      IsPlainToken(t) && IsDigit(t[0]) && Strip(t) == t
  {
    var t := NatText(h) + Pad2(m) + MarkerText(pm);
    DigitsArePlain(NatText(h) + Pad2(m));
    MarkerIsPlain(pm);
    ConcatPlain(NatText(h) + Pad2(m), MarkerText(pm));
    assert !IsSpace(t[0]) && !IsSpace(t[|t| - 1]);
    StripUnchanged(t);
  }

  lemma {:induction false} DigitRunReads(h: nat, m: nat, pm: bool)
    requires 1 <= h <= 12 && m < 60
    ensures var t := NatText(h) + Pad2(m) + MarkerText(pm);
      HasMarker(t) && ConvertTo24h(FixIrregularTimeFormat(t)) == Some(ClockText(To24(h, pm), m))
  {
    SuffixContained(NatText(h) + Pad2(m), MarkerText(pm));
    FixDigitRun(h, m, pm);
    Convert12WithMinutes(h, m, pm, NatText(h));
  }

  lemma {:induction false} DigitRunPair(h1: nat, m1: nat, h2: nat, m2: nat, pm: bool)
    requires 1 <= h1 <= 12 && m1 < 60 && 1 <= h2 <= 12 && m2 < 60
    ensures var a, b := NatText(h1) + Pad2(m1) + MarkerText(pm), NatText(h2) + Pad2(m2) + MarkerText(pm);
      IsPlainToken(a) && IsPlainToken(b) && IsDigit(a[0]) &&
      ParsePair(a, b) == Some(TimePair(ClockText(To24(h1, pm), m1), ClockText(To24(h2, pm), m2)))
  {
    var a, b := NatText(h1) + Pad2(m1) + MarkerText(pm), NatText(h2) + Pad2(m2) + MarkerText(pm);
    DigitRunPlain(h1, m1, pm);
    DigitRunPlain(h2, m2, pm);
    DigitRunReads(h1, m1, pm);
    DigitRunReads(h2, m2, pm);
    InferOnlyStrips(a, b);
    ParsePairOfTokens(a, b, a, b, TimePair(ClockText(To24(h1, pm), m1), ClockText(To24(h2, pm), m2)));
  }

  /** `600pm-900pm`: a digit run gets its colon before the minutes. */
  lemma {:induction false} DigitRunRange(h1: nat, m1: nat, h2: nat, m2: nat, pm: bool)
    requires 1 <= h1 <= 12 && m1 < 60 && 1 <= h2 <= 12 && m2 < 60
    ensures TimeRanges(Some(DigitRunText(h1, m1, pm) + "-" + DigitRunText(h2, m2, pm))) ==
      [TimePair(ClockText(To24(h1, pm), m1), ClockText(To24(h2, pm), m2))]
  {
    DigitRunPair(h1, m1, h2, m2, pm);
    SinglePairText(DigitRunText(h1, m1, pm), DigitRunText(h2, m2, pm),
      TimePair(ClockText(To24(h1, pm), m1), ClockText(To24(h2, pm), m2)));
  }

  lemma {:induction false} MarkedHourPair(h1: nat, pm1: bool, h2: nat, pm2: bool)
    requires 1 <= h1 <= 12 && 1 <= h2 <= 12
    ensures var a, b := NatText(h1) + MarkerText(pm1), NatText(h2) + MarkerText(pm2);
      IsPlainToken(a) && IsPlainToken(b) && IsDigit(a[0]) &&
      ParsePair(a, b) == Some(TimePair(ClockText(To24(h1, pm1), 0), ClockText(To24(h2, pm2), 0)))
  {
    var a, b := NatText(h1) + MarkerText(pm1), NatText(h2) + MarkerText(pm2);
    MarkedHourPlain(h1, pm1);
    MarkedHourPlain(h2, pm2);
    MarkedHourReads(h1, pm1);
    MarkedHourReads(h2, pm2);
    InferOnlyStrips(a, b);
    ParsePairOfTokens(a, b, a, b, TimePair(ClockText(To24(h1, pm1), 0), ClockText(To24(h2, pm2), 0)));
    assert a[0] == NatText(h1)[0];
  }

  /** `9am-5pm`: each end is read with its own marker. */
  lemma {:induction false} MarkedHourRange(h1: nat, pm1: bool, h2: nat, pm2: bool)
    requires 1 <= h1 <= 12 && 1 <= h2 <= 12
    ensures TimeRanges(Some(NatText(h1) + MarkerText(pm1) + "-" + (NatText(h2) + MarkerText(pm2)))) ==
      [TimePair(ClockText(To24(h1, pm1), 0), ClockText(To24(h2, pm2), 0))]
  {
    MarkedHourPair(h1, pm1, h2, pm2);
    SinglePairText(NatText(h1) + MarkerText(pm1), NatText(h2) + MarkerText(pm2),
      TimePair(ClockText(To24(h1, pm1), 0), ClockText(To24(h2, pm2), 0)));
  }

  /* ---- several ranges in one cell ---- */

  /** The two plain texts joined by a bare comma, as line 102 leaves `x, y`. */
  lemma {:induction false} CommaTextShape(x: string, y: string)
    requires IsPlainText(x) && IsPlainText(y) && x != [] && y != [] && IsDigit(y[0])
    ensures var u := x + "," + y;
      (forall i :: 0 <= i < |u| ==> IsPlainChar(u[i]) || u[i] == ',') &&
      NoMarkerBeforeDigit(u) &&
      (forall i :: 0 <= i < |u| && (u[i] == 'a' || u[i] == 'p') ==> i + 1 < |u| && u[i + 1] == 'm')
  {
    var u := x + "," + y;
    assert forall i :: 0 <= i < |x| ==> u[i] == x[i];
    assert u[|x|] == ',';
    assert forall i :: |x| < i < |u| ==> u[i] == y[i - |x| - 1];
    forall i | 0 <= i < |u| - 1 && u[i] == 'm' ensures !IsDigit(u[i + 1]) {
      if i < |x| - 1 {
        assert PlainPair(x[i], x[i + 1]);
      } else if i > |x| {
        assert PlainPair(y[i - |x| - 1], y[i - |x|]);
      }
    }
    forall i | 0 <= i < |u| && (u[i] == 'a' || u[i] == 'p') ensures i + 1 < |u| && u[i + 1] == 'm' {
      if i < |x| {
        assert i != |x| - 1;
        assert PlainPair(x[i], x[i + 1]);
      } else {
        assert i != |u| - 1;
        assert PlainPair(y[i - |x| - 1], y[i - |x|]);
      }
    }
  }

  /** Lines 102-103: the space after the comma goes. */
  lemma {:induction false} CommaTextErased(x: string, y: string)
    requires IsPlainText(x) && IsPlainText(y)
    ensures Erase(Erase(x + ", " + y, NarrowNoBreakSpace), ' ') == x + "," + y
  {
    var s := x + ", " + y;
    PlainLacks(x, NarrowNoBreakSpace);
    PlainLacks(y, NarrowNoBreakSpace);
    PlainLacks(x, ' ');
    PlainLacks(y, ' ');
    assert NarrowNoBreakSpace !in s;
    EraseConcat(x + ", ", y, ' ');
    EraseConcat(x, ", ", ' ');
    assert Erase(", ", ' ') == ",";
  }

  /** Lines 104-109 leave `x,y` alone. */
  lemma {:induction false} CommaTextMeridiemKept(x: string, y: string)
    requires IsPlainText(x) && IsPlainText(y) && x != [] && y != [] && IsDigit(x[0]) && IsDigit(y[0])
    ensures var u := x + "," + y;
      StripDayPrefix(u) == u && CollapseMeridiem(u, 'a') == u && CollapseMeridiem(u, 'p') == u &&
      ExpandBareMeridiem(u, 'a') == u && ExpandBareMeridiem(u, 'p') == u
  {
    var u := x + "," + y;
    assert !IsDayPrefixChar(u[0]);
    PlainLacks(x, '.');
    PlainLacks(y, '.');
    assert '.' !in u;
    CommaTextShape(x, y);
  }

  /** Lines 111-114 leave `x,y` alone. */
  lemma {:induction false} CommaTextDashKept(x: string, y: string)
    requires IsPlainText(x) && IsPlainText(y) && x != [] && y != [] && IsDigit(y[0])
    ensures var u := x + "," + y;
      NormalizeDashes(u) == u && ReplaceAll(u, "to", "-") == u && SplitGlued(u, TimeThenHour) == u
  {
    var u := x + "," + y;
    CommaTextShape(x, y);
    assert NormalizeDashes(u) == u by {
      forall i | 0 <= i < |u| ensures NormalizeDashes(u)[i] == u[i] {
        assert IsPlainChar(u[i]) || u[i] == ',';
      }
    }
    PlainLacks(x, 't');
    PlainLacks(y, 't');
    assert 't' !in u;
    if Contains(u, "to") {
      ContainsChars(u, "to", 't');
    }
  }

  /** Lines 102-114 take `x, y` to `x,y` and leave it there. */
  lemma {:induction false} CommaTextEarlyPasses(x: string, y: string)
    requires IsPlainText(x) && IsPlainText(y) && x != [] && y != [] && IsDigit(x[0]) && IsDigit(y[0])
    ensures var u := x + "," + y;
      SplitGlued(ReplaceAll(NormalizeDashes(ExpandBareMeridiem(ExpandBareMeridiem(CollapseMeridiem(CollapseMeridiem(
        StripDayPrefix(Erase(Erase(x + ", " + y, NarrowNoBreakSpace), ' ')), 'a'), 'p'), 'a'), 'p')), "to", "-"), TimeThenHour) == u
  {
    CommaTextErased(x, y);
    CommaTextMeridiemKept(x, y);
    CommaTextDashKept(x, y);
  }

  /** Line 115 turns the comma into the dash between the two ranges. */
  lemma {:induction false} SeparatorsOfCommaText(x: string, y: string)
    requires IsPlainText(x) && IsPlainText(y)
    ensures SeparatorsToDash(x + "," + y) == x + "-" + y
  {
    var u, v := x + "," + y, x + "-" + y;
    var r := SeparatorsToDash(u);
    forall i | 0 <= i < |u| ensures r[i] == v[i] {
      if i < |x| {
        assert u[i] == x[i] == v[i] && IsPlainChar(x[i]);
      } else if i > |x| {
        assert u[i] == y[i - |x| - 1] == v[i] && IsPlainChar(y[i - |x| - 1]);
      } else {
        assert u[i] == ',' && v[i] == '-';
      }
    }
  }

  /** Lines 102-118 take `x, y` to `x-y`: the comma separates two ranges like a dash. */
  lemma {:induction false} NormaliseCommaList(x: string, y: string)
    requires IsPlainText(x) && IsPlainText(y) && x != [] && y != [] && IsDigit(x[0]) && IsDigit(y[0])
    requires x[|x| - 1] != '-'
    ensures Normalise(x + ", " + y) == x + "-" + y
  {
    var u, v := x + "," + y, x + "-" + y;
    CommaTextEarlyPasses(x, y);
    CommaTextShape(x, y);
    SeparatorsOfCommaText(x, y);
    ConcatPlain(x, "-");
    ConcatPlain(x + "-", y);
    PlainKeptByDashPasses(v);
  }

  /** `x, y` passes the stripping, lower-casing and keyword tests unchanged. */
  lemma {:induction false} CommaTextShortCircuits(x: string, y: string)
    requires IsPlainText(x) && IsPlainText(y) && x != [] && y != [] && IsDigit(x[0])
    ensures var s := x + ", " + y;
      Strip(s) == s && s != [] && Lower(s) == s && !Contains(s, "24 hours") && !Contains(s, "closed")
  {
    var s := x + ", " + y;
    assert s[|s| - 1] == y[|y| - 1] && IsPlainChar(y[|y| - 1]);
    StripUnchanged(s);
    assert forall i :: 0 <= i < |s| ==> IsPlainChar(s[i]) || s[i] == ',' || s[i] == ' ';
    assert Lower(s) == s;
    PlainLacks(x, 'h');
    PlainLacks(y, 'h');
    PlainLacks(x, 'c');
    PlainLacks(y, 'c');
    if Contains(s, "24 hours") {
      assert 'h' in "24 hours";
      ContainsChars(s, "24 hours", 'h');
    }
    if Contains(s, "closed") {
      assert 'c' in "closed";
      ContainsChars(s, "closed", 'c');
    }
  }

  /** A cell listing two plain range texts separated by `, ` reads as if a dash stood there. */
  lemma {:induction false} CommaListReadsAsDash(x: string, y: string)
    requires IsPlainText(x) && IsPlainText(y) && x != [] && y != [] && IsDigit(x[0]) && IsDigit(y[0])
    requires x[|x| - 1] != '-'
    ensures TimeRanges(Some(x + ", " + y)) == TimeRanges(Some(x + "-" + y))
    ensures TimeRanges(Some(x + ", " + y)) == Fallback(ParsePairs(Split(x + "-" + y, '-')))
  {
    var s, v := x + ", " + y, x + "-" + y;
    CommaTextShortCircuits(x, y);
    assert TimeRanges(Some(s)) == Fallback(ParsePairs(Split(Normalise(s), '-')));
    NormaliseCommaList(x, y);
    ConcatPlain(x, "-");
    ConcatPlain(x + "-", y);
    PlainTextSkipsRewrites(v);
  }

  /** The loop's first two tokens give the first pair, ahead of what the rest gives. */
  lemma {:induction false} ParsePairsCons(a: string, b: string, t: seq<string>, p: TimePair)
    requires a != [] && b != [] && ParsePair(a, b) == Some(p)
    ensures ParsePairs([a, b] + t) == Prepend([p], ParsePairs(t))
  {
    var u := [a, b] + t;
    assert u[0] == a && u[1] == b && u[2..] == t;
    ParsePairsStep(u);
  }

  lemma {:induction false} ParsePairsOfFour(a: string, b: string, c: string, d: string, p: TimePair, q: TimePair)
    requires a != [] && b != [] && c != [] && d != []
    requires ParsePair(a, b) == Some(p) && ParsePair(c, d) == Some(q)
    ensures ParsePairs([a, b] + [c, d]) == Some([p] + [q])
  {
    ParsePairsCons(a, b, [c, d], p);
    ParsePairsOfTwo(c, d, q);
  }

  lemma {:induction false} SplitFour(a: string, b: string, c: string, d: string)
    requires '-' !in a && '-' !in b && '-' !in c && '-' !in d
    ensures Split(a + "-" + b + "-" + (c + "-" + d), '-') == [a, b] + [c, d]
  {
    var parts := [a, b, c, d];
    var tail2, tail1 := [c, d], [b, c, d];
    assert tail2[1..] == [d] && Join(tail2, '-') == c + "-" + d;
    assert tail1[1..] == tail2 && Join(tail1, '-') == b + "-" + (c + "-" + d);
    assert parts[1..] == tail1 && Join(parts, '-') == a + "-" + (b + "-" + (c + "-" + d));
    assert a + "-" + (b + "-" + (c + "-" + d)) == a + "-" + b + "-" + (c + "-" + d);
    SplitJoin(parts, '-');
    assert parts == [a, b] + [c, d];
  }

  /** The token loop over `a-b-c-d` gives the two pairs. */
  lemma {:induction false} TwoRangesParse(a: string, b: string, c: string, d: string, p: TimePair, q: TimePair)
    requires IsPlainToken(a) && IsPlainToken(b) && IsPlainToken(c) && IsPlainToken(d)
    requires ParsePair(a, b) == Some(p) && ParsePair(c, d) == Some(q)
    ensures Fallback(ParsePairs(Split((a + "-" + b) + "-" + (c + "-" + d), '-'))) == [p, q]
  {
    SplitFour(a, b, c, d);
    ParsePairsOfFour(a, b, c, d, p, q);
    assert [p] + [q] == [p, q];
  }

  /** One range `a-b` of plain tokens is a plain text that neither starts nor ends with a dash. */
  lemma {:induction false} RangeOfTokensPlain(a: string, b: string)
    requires IsPlainToken(a) && IsPlainToken(b)
    ensures var x := a + "-" + b;
      IsPlainText(x) && x != [] && x[0] == a[0] && x[|x| - 1] != '-'
  {
    var x := a + "-" + b;
    JoinPlainTokens([a, b]);
    assert Join([a, b], '-') == x;
    assert x[|x| - 1] == b[|b| - 1] && b[|b| - 1] in b;
  }

  /** `9:00am-12:00pm, 1:00pm-5:00pm`: two ranges in one cell give both pairs, in order. */
  lemma {:induction false} TwoRangesText(a: string, b: string, c: string, d: string, p: TimePair, q: TimePair)
    requires IsPlainToken(a) && IsPlainToken(b) && IsPlainToken(c) && IsPlainToken(d)
    requires IsDigit(a[0]) && IsDigit(c[0])
    requires ParsePair(a, b) == Some(p) && ParsePair(c, d) == Some(q)
    ensures TimeRanges(Some((a + "-" + b) + ", " + (c + "-" + d))) == [p, q]
  {
    var x, y := a + "-" + b, c + "-" + d;
    RangeOfTokensPlain(a, b);
    RangeOfTokensPlain(c, d);
    CommaListReadsAsDash(x, y);
    TwoRangesParse(a, b, c, d, p, q);
  }

  /** Two twelve-hour ranges separated by `, `, such as `9:00am-12:00pm, 1:00pm-5:00pm`. */
  lemma {:induction false} TwelveHourTwoRanges(h1: nat, m1: nat, pm1: bool, h2: nat, m2: nat, pm2: bool,
                                               h3: nat, m3: nat, pm3: bool, h4: nat, m4: nat, pm4: bool)
    requires 1 <= h1 <= 12 && m1 < 60 && 1 <= h2 <= 12 && m2 < 60
    requires 1 <= h3 <= 12 && m3 < 60 && 1 <= h4 <= 12 && m4 < 60
    ensures TimeRanges(Some((TwelveHourText(h1, m1, pm1) + "-" + TwelveHourText(h2, m2, pm2)) + ", " +
                            (TwelveHourText(h3, m3, pm3) + "-" + TwelveHourText(h4, m4, pm4)))) ==
      [TimePair(ClockText(To24(h1, pm1), m1), ClockText(To24(h2, pm2), m2)),
       TimePair(ClockText(To24(h3, pm3), m3), ClockText(To24(h4, pm4), m4))]
  {
    var a, b := TwelveHourText(h1, m1, pm1), TwelveHourText(h2, m2, pm2);
    var c, d := TwelveHourText(h3, m3, pm3), TwelveHourText(h4, m4, pm4);
    TwelveHourTextIsPlain(h1, m1, pm1);
    TwelveHourTextIsPlain(h2, m2, pm2);
    TwelveHourTextIsPlain(h3, m3, pm3);
    TwelveHourTextIsPlain(h4, m4, pm4);
    TwelveHourParses(h1, m1, pm1);
    TwelveHourParses(h2, m2, pm2);
    TwelveHourParses(h3, m3, pm3);
    TwelveHourParses(h4, m4, pm4);
    InferOnlyStrips(a, b);
    InferOnlyStrips(c, d);
    TwoRangesText(a, b, c, d, TimePair(ClockText(To24(h1, pm1), m1), ClockText(To24(h2, pm2), m2)),
      TimePair(ClockText(To24(h3, pm3), m3), ClockText(To24(h4, pm4), m4)));
  }
}
