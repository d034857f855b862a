/**
 * The three read endpoints over the stored businesses: by category, by
 * weekday and open now. The database is an in-memory sequence of business
 * records, each with its category and hours records attached (what
 * `prefetch_related("hours", "categories")` loads); a query keeps the
 * matching records in stored order. The current weekday and time, which
 * the service reads from the clock, are parameters.
 */
module Crud {
  import opened Wrappers
  import opened PyText
  import opened Clock

  /** One `BusinessHours` row; a shift field is `None` where the column is NULL. */
  datatype Hours = Hours(id: int, day: string,
                         shift1Start: Option<string>, shift1End: Option<string>,
                         shift2Start: Option<string>, shift2End: Option<string>)

  /** One `Category` row. */
  datatype Category = Category(id: int, category: string)

  /**
   * A `Business` row with its categories and hours; the response of an
   * endpoint carries the same fields, so it is the same value.
   */
  datatype Business = Business(id: int, timezone: string, rating: real, maxRating: real, reviewCount: int,
                               categories: seq<Category>, hours: seq<Hours>)

  /** An `HTTPException`: status code and detail text. */
  datatype HttpError = HttpError(status: nat, detail: string)

  const Midnight: string := "00:00"

  /* ---- the closed check ---- */

  /** An hours record whose four shift fields are all `"00:00"`. */
  predicate ClosedRecord(h: Hours)
  {
    h.shift1Start == Some(Midnight) && h.shift1End == Some(Midnight) &&
    h.shift2Start == Some(Midnight) && h.shift2End == Some(Midnight)
  }

  /**
   * `is_closed`: `all(...)` over the hours records, scanned in order. It
   * holds when every record is a closed day, so also for a business with no
   * hours records at all.
   */
  function IsClosed(hours: seq<Hours>): (r: bool)
    ensures r <==> forall i :: 0 <= i < |hours| ==> ClosedRecord(hours[i])
    ensures hours == [] ==> r
  {
    if hours == [] then true else ClosedRecord(hours[0]) && IsClosed(hours[1..])
  }

  /* ---- the response loop ---- */

  /** The elements of `s` that satisfy `keep`, in their order. */
  function Filter(s: seq<Business>, keep: Business -> bool): (r: seq<Business>)
    ensures |r| <= |s|
    ensures forall i :: 0 <= i < |r| ==> keep(r[i])
    decreases |s|
  {
    if s == [] then [] else Filter(s[..|s| - 1], keep) + (if keep(s[|s| - 1]) then [s[|s| - 1]] else [])
  }

  /** Filtering a concatenation filters each part, keeping the order. */
  lemma {:induction false} FilterConcat(a: seq<Business>, b: seq<Business>, keep: Business -> bool)
    ensures Filter(a + b, keep) == Filter(a, keep) + Filter(b, keep)
    decreases |b|
  {
    if b == [] {
      assert a + b == a;
    } else {
      var last := b[|b| - 1];
      assert (a + b)[..|a + b| - 1] == a + b[..|b| - 1];
      assert (a + b)[|a + b| - 1] == last;
      FilterConcat(a, b[..|b| - 1], keep);
    }
  }

  /** A kept element appears as often as in the input, a dropped one not at all. */
  lemma {:induction false} FilterCount(s: seq<Business>, keep: Business -> bool, x: Business)
    ensures multiset(Filter(s, keep))[x] == if keep(x) then multiset(s)[x] else 0
    decreases |s|
  {
    if s != [] {
      FilterCount(s[..|s| - 1], keep, x);
      assert s == s[..|s| - 1] + [s[|s| - 1]];
    }
  }

  /** An element is in the result exactly when it is in the input and kept. */
  lemma FilterMembers(s: seq<Business>, keep: Business -> bool, x: Business)
    ensures x in Filter(s, keep) <==> x in s && keep(x)
  {
    FilterCount(s, keep, x);
    assert x in Filter(s, keep) <==> multiset(Filter(s, keep))[x] > 0;
    assert x in s <==> multiset(s)[x] > 0;
  }

  /** The result is empty exactly when no element of the input is kept. */
  lemma {:induction false} FilterEmpty(s: seq<Business>, keep: Business -> bool)
    ensures Filter(s, keep) == [] <==> forall i :: 0 <= i < |s| ==> !keep(s[i])
    decreases |s|
  {
    if s != [] {
      var init := s[..|s| - 1];
      FilterEmpty(init, keep);
      assert forall i :: 0 <= i < |init| ==> init[i] == s[i];
    }
  }

  /** When every element is kept the result is the input itself. */
  lemma {:induction false} FilterAll(s: seq<Business>, keep: Business -> bool)
    requires forall i :: 0 <= i < |s| ==> keep(s[i])
    ensures Filter(s, keep) == s
    decreases |s|
  {
    if s != [] {
      var init := s[..|s| - 1];
      assert forall i :: 0 <= i < |init| ==> init[i] == s[i];
      FilterAll(init, keep);
      assert s == init + [s[|s| - 1]];
    }
  }

  /** A business the loop does not skip. */
  predicate NotClosed(b: Business)
  {
    !IsClosed(b.hours)
  }

  /** What the loop appends: every fetched business that is not closed. */
  function OpenOnes(fetched: seq<Business>): (r: seq<Business>)
    ensures |r| <= |fetched|
    ensures forall i :: 0 <= i < |r| ==> NotClosed(r[i])
  {
    Filter(fetched, NotClosed)
  }

  /** The value of an endpoint once its query has run: 404 for an empty fetch, else the open businesses. */
  function Response(fetched: seq<Business>, notFound: string): (r: Result<seq<Business>, HttpError>)
    ensures r.Failure? <==> fetched == []
    ensures r.Failure? ==> r.error.status == 404
    ensures r.Success? ==> |r.value| <= |fetched| && forall i :: 0 <= i < |r.value| ==> NotClosed(r.value[i])
  {
    if fetched == [] then Failure(HttpError(404, notFound)) else Success(OpenOnes(fetched))
  }

  /**
   * The part the three endpoints share: a 404 with the endpoint's own
   * detail when nothing was fetched; otherwise each fetched business in
   * turn, skipping the closed ones.
   */
  method Respond(fetched: seq<Business>, notFound: string) returns (r: Result<seq<Business>, HttpError>)
    ensures r.Failure? <==> fetched == []
    ensures r.Failure? ==> r.error == HttpError(404, notFound)
    ensures r.Success? ==> r.value == OpenOnes(fetched)
  {
    if fetched == [] {
      return Failure(HttpError(404, notFound));
    }
    var response: seq<Business> := [];
    for i := 0 to |fetched|
      invariant response == OpenOnes(fetched[..i])
    {
      var business := fetched[i];
      assert fetched[..i + 1] == fetched[..i] + [business];
      assert fetched[..i + 1][..i] == fetched[..i];
      if IsClosed(business.hours) {
        continue;
      }
      response := response + [business];
    }
    assert fetched[..|fetched|] == fetched;
    return Success(response);
  }

  /**
   * The response lists each fetched business that is not closed as often as
   * it was fetched and in fetched order, and no closed one; when every
   * fetched business is closed it is empty, with no error.
   */
  lemma ResponseContents(fetched: seq<Business>, notFound: string, x: Business)
    ensures Response(fetched, notFound).Failure? <==> fetched == []
    ensures fetched != [] ==>
      multiset(Response(fetched, notFound).value)[x] == if IsClosed(x.hours) then 0 else multiset(fetched)[x]
    ensures fetched != [] ==>
      (Response(fetched, notFound).value == [] <==> forall i :: 0 <= i < |fetched| ==> IsClosed(fetched[i].hours))
  {
    FilterCount(fetched, NotClosed, x);
    FilterEmpty(fetched, NotClosed);
  }

  /** Fetching in two parts answers with the two responses one after the other. */
  lemma ResponseKeepsOrder(a: seq<Business>, b: seq<Business>)
    ensures OpenOnes(a + b) == OpenOnes(a) + OpenOnes(b)
  {
    FilterConcat(a, b, NotClosed);
  }

  /* ---- the queries ---- */

  /** `days_map`: lower-case weekday names to the capitalised ones stored in `day`. */
  const DaysMap: map<string, string> := map[
    "monday" := "Monday", "tuesday" := "Tuesday", "wednesday" := "Wednesday", "thursday" := "Thursday",
    "friday" := "Friday", "saturday" := "Saturday", "sunday" := "Sunday"]

  const Weekdays: seq<string> := ["Monday", "Tuesday", "Wednesday", "Thursday", "Friday", "Saturday", "Sunday"]

  const DayKeys: seq<string> := ["monday", "tuesday", "wednesday", "thursday", "friday", "saturday", "sunday"]

  /** `days_map.get(day_of_week.lower())`. */
  function DayOfWeek(s: string): (r: Option<string>)
    ensures r.Some? ==> r.value in Weekdays && Lower(r.value) == Lower(s)
  {
    DaysMapKeys();
    var key := Lower(s);
    if key in DaysMap then Some(DaysMap[key]) else None
  }

  /** A name lower-cases to a key when it does so character by character. */
  lemma LowerName(d: string, k: string)
    requires |d| == |k| && forall i :: 0 <= i < |d| ==> LowerChar(d[i]) == k[i]
    ensures Lower(d) == k
  {
  }

  /** The `j`-th weekday name, lower-cased, is the `j`-th key of the map. */
  lemma WeekdayKey(j: nat)
    requires j < |Weekdays|
    ensures Lower(Weekdays[j]) == DayKeys[j]
    ensures DayKeys[j] in DaysMap && DaysMap[DayKeys[j]] == Weekdays[j]
  {
    LowerName(Weekdays[j], DayKeys[j]);
  }

  /** Each weekday name is found under its own lower-case form, and only weekday names are stored. */
  lemma DaysMapKeys()
    ensures forall k :: k in DaysMap ==> DaysMap[k] in Weekdays && Lower(DaysMap[k]) == k
    ensures forall j :: 0 <= j < |Weekdays| ==> Lower(Weekdays[j]) in DaysMap && DaysMap[Lower(Weekdays[j])] == Weekdays[j]
  {
    forall j | 0 <= j < |Weekdays|
      ensures Lower(Weekdays[j]) in DaysMap && DaysMap[Lower(Weekdays[j])] == Weekdays[j]
    {
      WeekdayKey(j);
    }
    forall k | k in DaysMap ensures DaysMap[k] in Weekdays && Lower(DaysMap[k]) == k {
      assert k in DayKeys;
      var j :| 0 <= j < |DayKeys| && DayKeys[j] == k;
      WeekdayKey(j);
    }
  }

  /**
   * The lookup accepts exactly the seven weekday names in any mix of case,
   * and answers with the capitalised name.
   */
  lemma DayOfWeekIff(s: string, d: string)
    ensures DayOfWeek(s) == Some(d) <==> d in Weekdays && Lower(s) == Lower(d)
  {
    DaysMapKeys();
    if d in Weekdays {
      var j :| 0 <= j < |Weekdays| && Weekdays[j] == d;
      assert Lower(d) in DaysMap && DaysMap[Lower(d)] == d;
    }
  }

  /** A capitalised weekday name, as `strftime("%A")` prints it, is accepted as it is. */
  lemma WeekdayAccepted(i: nat)
    requires i < |Weekdays|
    ensures DayOfWeek(Weekdays[i]) == Some(Weekdays[i])
  {
    DayOfWeekIff(Weekdays[i], Weekdays[i]);
  }

  /** Python's `<=` on strings: code points compared left to right, a prefix first. */
  predicate LessEq(a: string, b: string)
    decreases |a|
  {
    a == [] || (b != [] && (a[0] < b[0] || (a[0] == b[0] && LessEq(a[1..], b[1..]))))
  }

  /** `start <= now <= end` on two shift fields; a NULL field matches nothing. */
  predicate Within(start: Option<string>, end: Option<string>, now: string)
  {
    start.Some? && end.Some? && LessEq(start.value, now) && LessEq(now, end.value)
  }

  /** The open-now condition on one hours record: today's record, with now inside shift 1 or shift 2. */
  predicate OpenAt(h: Hours, day: string, now: string)
  {
    h.day == day && (Within(h.shift1Start, h.shift1End, now) || Within(h.shift2Start, h.shift2End, now))
  }

  /** The `filter(...)` of each endpoint. */
  datatype Query = InCategory(name: string) | OnDay(day: string) | OpenNow(day: string, now: string)

  /** A business matches when one of its category or hours records satisfies the whole condition. */
  predicate Matches(b: Business, q: Query)
  {
    match q
    case InCategory(name) => exists i :: 0 <= i < |b.categories| && b.categories[i].category == name
    case OnDay(day) => exists i :: 0 <= i < |b.hours| && b.hours[i].day == day
    case OpenNow(day, now) => exists i :: 0 <= i < |b.hours| && OpenAt(b.hours[i], day, now)
  }

  /** The businesses a query fetches, in stored order. */
  function Fetch(store: seq<Business>, q: Query): (r: seq<Business>)
    ensures |r| <= |store|
    ensures forall i :: 0 <= i < |r| ==> Matches(r[i], q)
  {
    Filter(store, b => Matches(b, q))
  }

  /**
   * An endpoint answers 404 exactly when no stored business matches its
   * query; otherwise it lists every matching business that is not closed,
   * as often as it is stored, and nothing else.
   */
  lemma EndpointContents(store: seq<Business>, q: Query, notFound: string, x: Business)
    ensures Response(Fetch(store, q), notFound).Failure? <==> forall i :: 0 <= i < |store| ==> !Matches(store[i], q)
    ensures Response(Fetch(store, q), notFound).Success? ==>
      multiset(Response(Fetch(store, q), notFound).value)[x] ==
        if Matches(x, q) && !IsClosed(x.hours) then multiset(store)[x] else 0
  {
    var keep := b => Matches(b, q);
    FilterEmpty(store, keep);
    FilterCount(store, keep, x);
    FilterCount(Fetch(store, q), NotClosed, x);
  }

  /** `get_businesses_by_category`. */
  method GetBusinessesByCategory(store: seq<Business>, categoryName: string)
    returns (r: Result<seq<Business>, HttpError>)
    ensures r == Response(Fetch(store, InCategory(categoryName)), "No businesses found for this category")
  {
    var businesses := Fetch(store, InCategory(categoryName));
    r := Respond(businesses, "No businesses found for this category");
  }

  /** `get_businesses_by_day`: 400 for a name that is not a weekday, before any query runs. */
  method GetBusinessesByDay(store: seq<Business>, dayOfWeek: string)
    returns (r: Result<seq<Business>, HttpError>)
    ensures DayOfWeek(dayOfWeek).None? ==> r == Failure(HttpError(400, "Invalid day of the week"))
    ensures DayOfWeek(dayOfWeek).Some? ==>
      r == Response(Fetch(store, OnDay(DayOfWeek(dayOfWeek).value)), "No businesses found open on this day")
  {
    var day := DayOfWeek(dayOfWeek);
    if day.None? {
      return Failure(HttpError(400, "Invalid day of the week"));
    }
    var businesses := Fetch(store, OnDay(day.value));
    r := Respond(businesses, "No businesses found open on this day");
  }

  /** `get_businesses_open_now`, given the weekday name and `HH:MM` time the clock reads. */
  method GetBusinessesOpenNow(store: seq<Business>, currentDay: string, currentTime: string)
    returns (r: Result<seq<Business>, HttpError>)
    ensures r == Response(Fetch(store, OpenNow(currentDay, currentTime)), "No businesses are open now")
  {
    var businesses := Fetch(store, OpenNow(currentDay, currentTime));
    r := Respond(businesses, "No businesses are open now");
  }

  /* ---- string order on clock times ---- */

  /** Minutes since midnight of a canonical time. */
  function Minutes(s: string): nat
    requires IsClock(s)
  {
    60 * HourOf(s) + MinuteOf(s)
  }

  lemma {:induction false} LessEqReflexive(a: string)
    ensures LessEq(a, a)
    decreases |a|
  {
    if a != [] {
      LessEqReflexive(a[1..]);
    }
  }

  lemma {:induction false} LessEqAntisymmetric(a: string, b: string)
    requires LessEq(a, b) && LessEq(b, a)
    ensures a == b
    decreases |a|
  {
    if a != [] {
      LessEqAntisymmetric(a[1..], b[1..]);
      assert a == [a[0]] + a[1..] && b == [b[0]] + b[1..];
    }
  }

  lemma {:induction false} LessEqTransitive(a: string, b: string, c: string)
    requires LessEq(a, b) && LessEq(b, c)
    ensures LessEq(a, c)
    decreases |a|
  {
    if a != [] && a[0] == b[0] && b[0] == c[0] {
      LessEqTransitive(a[1..], b[1..], c[1..]);
    }
  }

  /** Two five-character strings with `:` in the middle compare on their four digit positions in turn. */
  lemma ClockLessEqShape(a: string, b: string)
    requires IsClock(a) && IsClock(b)
    ensures LessEq(a, b) <==>
      a[0] < b[0] || (a[0] == b[0] && (a[1] < b[1] || (a[1] == b[1] &&
        (a[3] < b[3] || (a[3] == b[3] && a[4] <= b[4])))))
  {
    var a1, b1 := a[1..], b[1..];
    var a2, b2 := a1[1..], b1[1..];
    var a3, b3 := a2[1..], b2[1..];
    var a4, b4 := a3[1..], b3[1..];
    assert a4[1..] == [] && b4[1..] == [];
    assert LessEq(a4, b4) <==> a[4] <= b[4];
    assert LessEq(a3, b3) <==> a[3] < b[3] || (a[3] == b[3] && LessEq(a4, b4));
    assert LessEq(a2, b2) <==> LessEq(a3, b3);
    assert LessEq(a1, b1) <==> a[1] < b[1] || (a[1] == b[1] && LessEq(a2, b2));
    assert LessEq(a, b) <==> a[0] < b[0] || (a[0] == b[0] && LessEq(a1, b1));
  }

  /**
   * On canonical times, the string comparison the query uses is the order
   * of the times of day.
   */
  lemma ClockOrder(a: string, b: string)
    requires IsClock(a) && IsClock(b)
    ensures LessEq(a, b) <==> Minutes(a) <= Minutes(b)
  {
    ClockLessEqShape(a, b);
  }

  /**
   * A shift that matches runs forward through the current time; so a shift
   * that ends before it starts (one that runs past midnight) never matches.
   */
  lemma MatchedShiftContainsNow(start: string, end: string, now: string)
    requires IsClock(start) && IsClock(end) && IsClock(now)
    requires Within(Some(start), Some(end), now)
    ensures Minutes(start) <= Minutes(now) <= Minutes(end)
  {
    ClockOrder(start, now);
    ClockOrder(now, end);
  }

  /** A record of a closed day (all four fields `"00:00"`) matches only at `"00:00"`. */
  lemma ClosedRecordMatchesAtMidnight(h: Hours, day: string, now: string)
    requires ClosedRecord(h) && OpenAt(h, day, now)
    ensures now == Midnight
  {
    LessEqAntisymmetric(Midnight, now);
  }

  /**
   * A business reported as open now has a record for the current day whose
   * shift contains the current time, and a record that is not a closed
   * day.
   */
  lemma OpenNowSound(store: seq<Business>, day: string, now: string, x: Business)
    requires Response(Fetch(store, OpenNow(day, now)), "No businesses are open now").Success?
    requires x in Response(Fetch(store, OpenNow(day, now)), "No businesses are open now").value
    ensures x in store
    ensures exists i :: 0 <= i < |x.hours| && OpenAt(x.hours[i], day, now)
    ensures exists i :: 0 <= i < |x.hours| && !ClosedRecord(x.hours[i])
  {
    var fetched := Fetch(store, OpenNow(day, now));
    FilterMembers(fetched, NotClosed, x);
    FilterMembers(store, b => Matches(b, OpenNow(day, now)), x);
  }
}
