/**
 * `assign_time_shifts`, `format_timeranges` and `format_categories`: the
 * steps that add columns to the table of businesses, one row per business.
 * A table is a map from column names to equally long columns of cells.
 */
module Shifts {
  import opened Wrappers
  import opened PyText
  import opened Clock
  import opened Cleansing

  /** A table cell: a missing value (`NaN`), a string, or a list of strings. */
  datatype Cell = Missing | Text(text: string) | Items(items: seq<string>)

  /** A column read from the CSV: every cell is a string or missing. */
  predicate IsTextColumn(col: seq<Cell>)
  {
    forall i :: 0 <= i < |col| ==> !col[i].Items?
  }

  /** What `cleanse_time_range` is given for a cell: `None` for a missing value. */
  function CellText(c: Cell): Option<string>
  {
    if c.Text? then Some(c.text) else None
  }

  /* ---- assign_time_shifts ---- */

  /** The four shift columns added per day. */
  datatype Slot = Start1 | End1 | Start2 | End2

  function SlotSuffix(slot: Slot): string
  {
    match slot
    case Start1 => "_start_time_shift1"
    case End1 => "_end_time_shift1"
    case Start2 => "_start_time_shift2"
    case End2 => "_end_time_shift2"
  }

  /** The name of the column a slot of `day` is written to, such as `Monday_start_time_shift1`. */
  function ShiftKey(day: string, slot: Slot): string
  {
    day + SlotSuffix(slot)
  }

  /** The value of a slot for one cleansed cell: the first pair fills shift 1, the second shift 2, `"00:00"` where there is no such pair. */
  function SlotValue(times: seq<TimePair>, slot: Slot): (r: string)
    ensures (forall k :: 0 <= k < |times| ==> IsClockPair(times[k])) ==> IsClock(r)
  {
    match slot
    case Start1 => if |times| > 0 then times[0].start else "00:00"
    case End1 => if |times| > 0 then times[0].end else "00:00"
    case Start2 => if |times| > 1 then times[1].start else "00:00"
    case End2 => if |times| > 1 then times[1].end else "00:00"
  }

  /** The day column passed through `cleanse_time_range`, cell by cell. */
  function CleansedColumn(col: seq<Cell>): (r: seq<seq<TimePair>>)
    ensures |r| == |col|
    ensures forall i :: 0 <= i < |col| ==> r[i] == TimeRanges(CellText(col[i]))
    ensures forall i :: 0 <= i < |r| ==> |r[i]| >= 1
    ensures forall i :: 0 <= i < |r| ==> AllClockPairs(r[i])
    ensures forall i :: 0 <= i < |col| && col[i].Missing? ==> r[i] == [Closed]
  {
    seq(|col|, i requires 0 <= i < |col| => TimeRanges(CellText(col[i])))
  }

  /** A cleansed cell: every pair holds two canonical times. */
  predicate AllClockPairs(ps: seq<TimePair>)
  {
    forall k :: 0 <= k < |ps| ==> IsClockPair(ps[k])
  }

  /** One of the four `apply` calls: the slot of every cleansed cell. */
  function SlotColumn(times: seq<seq<TimePair>>, slot: Slot): (r: seq<Cell>)
    ensures |r| == |times|
    ensures forall i :: 0 <= i < |times| ==> r[i] == Text(SlotValue(times[i], slot))
    ensures forall i :: 0 <= i < |times| && AllClockPairs(times[i]) ==> IsClock(r[i].text)
    ensures slot == Start2 || slot == End2 ==>
      forall i :: 0 <= i < |times| && |times[i]| < 2 ==> r[i] == Text("00:00")
  {
    seq(|times|, i requires 0 <= i < |times| => Text(SlotValue(times[i], slot)))
  }

  function ShiftColumn(col: seq<Cell>, slot: Slot): seq<Cell>
  {
    SlotColumn(CleansedColumn(col), slot)
  }

  /** The columns after `assign_time_shifts(df, day)`. */
  function WithShifts(columns: map<string, seq<Cell>>, day: string): (r: map<string, seq<Cell>>)
    requires day in columns
    ensures columns.Keys <= r.Keys
    ensures day in r && r[day] == columns[day]
  {
    var col := columns[day];
    assert forall slot: Slot :: |ShiftKey(day, slot)| > |day|;
    columns[ShiftKey(day, Start1) := ShiftColumn(col, Start1)]
           [ShiftKey(day, End1) := ShiftColumn(col, End1)]
           [ShiftKey(day, Start2) := ShiftColumn(col, Start2)]
           [ShiftKey(day, End2) := ShiftColumn(col, End2)]
  }

  /** Shift 2 of a cell with one pair only, and every slot of a cell with none, is `"00:00"`. */
  lemma {:induction false} MissingPairsAreMidnight(times: seq<TimePair>, slot: Slot)
    requires |times| <= 1
    requires slot == Start2 || slot == End2 || times == []
    ensures SlotValue(times, slot) == "00:00"
  {
  }

  /** Pairs beyond the second are discarded. */
  lemma {:induction false} LaterPairsIgnored(times: seq<TimePair>, more: seq<TimePair>, slot: Slot)
    requires |times| >= 2
    ensures SlotValue(times + more, slot) == SlotValue(times, slot)
  {
    assert (times + more)[0] == times[0] && (times + more)[1] == times[1];
  }

  /**
   * Every slot holds a canonical time, and shift 1 is always the first pair
   * of the cell (a cleansed cell is never empty); a blank cell gives
   * `"00:00"` in all four slots.
   */
  lemma {:induction false} SlotsOfCell(cell: Option<string>, slot: Slot)
    ensures IsClock(SlotValue(TimeRanges(cell), slot))
    ensures SlotValue(TimeRanges(cell), Start1) == TimeRanges(cell)[0].start
    ensures SlotValue(TimeRanges(cell), End1) == TimeRanges(cell)[0].end
    ensures cell.None? || AllSpace(cell.value) ==> SlotValue(TimeRanges(cell), slot) == "00:00"
  {
    var times := TimeRanges(cell);
    assert IsClockPair(times[0]);
    if |times| > 1 {
      assert IsClockPair(times[1]);
    }
  }

  lemma {:induction false} SuffixesDiffer(s1: Slot, s2: Slot)
    requires s1 != s2
    ensures SlotSuffix(s1) != SlotSuffix(s2)
  {
  }

  /** The four keys of one day are different columns. */
  lemma {:induction false} ShiftKeysDistinct(day: string, s1: Slot, s2: Slot)
    requires s1 != s2
    ensures ShiftKey(day, s1) != ShiftKey(day, s2)
  {
    SuffixesDiffer(s1, s2);
    assert ShiftKey(day, s1)[|day|..] == SlotSuffix(s1);
    assert ShiftKey(day, s2)[|day|..] == SlotSuffix(s2);
  }

  /**
   * For day names without an underscore (the weekday names), a shift key
   * names its day and slot: keys of different days never collide, and no
   * shift key is itself a day column.
   */
  lemma {:induction false} ShiftKeyInjective(d1: string, s1: Slot, d2: string, s2: Slot)
    requires '_' !in d1 && '_' !in d2
    requires ShiftKey(d1, s1) == ShiftKey(d2, s2)
    ensures d1 == d2 && s1 == s2
  {
    var k := ShiftKey(d1, s1);
    assert k == ShiftKey(d2, s2);
    assert k[|d1|] == SlotSuffix(s1)[0] == '_';
    assert k[|d2|] == SlotSuffix(s2)[0] == '_';
    assert |d1| == |d2|;
    assert d1 == k[..|d1|] == d2;
    if s1 != s2 {
      ShiftKeysDistinct(d1, s1, s2);
    }
  }

  lemma {:induction false} ShiftKeyNotPlain(day: string, slot: Slot, name: string)
    requires '_' !in name
    ensures ShiftKey(day, slot) != name
  {
    assert ShiftKey(day, slot)[|day|] == '_';
  }

  /** `assign_time_shifts` adds the four shift columns of the day to the columns there were. */
  lemma WithShiftsKeys(columns: map<string, seq<Cell>>, day: string)
    requires day in columns
    ensures WithShifts(columns, day).Keys ==
      columns.Keys + {ShiftKey(day, Start1), ShiftKey(day, End1), ShiftKey(day, Start2), ShiftKey(day, End2)}
  {
  }

  /** Each shift column of the day is computed from the day column. */
  lemma {:induction false} WithShiftsSlot(columns: map<string, seq<Cell>>, day: string, slot: Slot)
    requires day in columns
    ensures ShiftKey(day, slot) in WithShifts(columns, day)
    ensures WithShifts(columns, day)[ShiftKey(day, slot)] == ShiftColumn(columns[day], slot)
  {
    match slot
    case Start1 =>
      ShiftKeysDistinct(day, Start1, End1);
      ShiftKeysDistinct(day, Start1, Start2);
      ShiftKeysDistinct(day, Start1, End2);
    case End1 =>
      ShiftKeysDistinct(day, End1, Start2);
      ShiftKeysDistinct(day, End1, End2);
    case Start2 =>
      ShiftKeysDistinct(day, Start2, End2);
    case End2 =>
  }

  /** Every column that is not a shift column of the day is left as it was. */
  lemma WithShiftsOther(columns: map<string, seq<Cell>>, day: string, k: string)
    requires day in columns && k in columns
    requires forall slot: Slot :: k != ShiftKey(day, slot)
    ensures k in WithShifts(columns, day) && WithShifts(columns, day)[k] == columns[k]
  {
    assert k != ShiftKey(day, Start1) && k != ShiftKey(day, End1);
    assert k != ShiftKey(day, Start2) && k != ShiftKey(day, End2);
  }

  lemma {:induction false} WithShiftsKeepsPlain(columns: map<string, seq<Cell>>, day: string, name: string)
    requires day in columns && name in columns && '_' !in name
    ensures name in WithShifts(columns, day) && WithShifts(columns, day)[name] == columns[name]
  {
    forall slot: Slot ensures name != ShiftKey(day, slot) {
      ShiftKeyNotPlain(day, slot, name);
    }
    WithShiftsOther(columns, day, name);
  }

  /** Every listed day has its column, and no day name has an underscore. */
  predicate DaysReady(columns: map<string, seq<Cell>>, days: seq<string>)
  {
    forall i :: 0 <= i < |days| ==> days[i] in columns && '_' !in days[i]
  }

  /** The columns after `format_timeranges`: `assign_time_shifts` for each day in turn. */
  function AllShifts(columns: map<string, seq<Cell>>, days: seq<string>): (r: map<string, seq<Cell>>)
    requires DaysReady(columns, days)
    ensures columns.Keys <= r.Keys
    decreases |days|
  {
    if days == [] then columns
    else
      DaysReadyAfterFirst(columns, days);
      AllShifts(WithShifts(columns, days[0]), days[1..])
  }

  /** A column name that `format_timeranges` writes for one of the days. */
  predicate IsShiftKeyOf(k: string, days: seq<string>)
  {
    exists i, slot: Slot :: 0 <= i < |days| && k == ShiftKey(days[i], slot)
  }

  /** The day columns themselves are not changed by `format_timeranges`. */
  lemma {:induction false} AllShiftsKeepsDays(columns: map<string, seq<Cell>>, days: seq<string>, name: string)
    requires DaysReady(columns, days)
    requires name in columns && '_' !in name
    ensures name in AllShifts(columns, days) && AllShifts(columns, days)[name] == columns[name]
    decreases |days|
  {
    if days != [] {
      WithShiftsKeepsPlain(columns, days[0], name);
      AllShiftsKeepsDays(WithShifts(columns, days[0]), days[1..], name);
    }
  }

  /** The days after the first still have their columns, underscore-free, once the first day's shifts are added. */
  lemma DaysReadyAfterFirst(columns: map<string, seq<Cell>>, days: seq<string>)
    requires DaysReady(columns, days) && days != []
    ensures DaysReady(WithShifts(columns, days[0]), days[1..])
  {
    forall i | 0 <= i < |days| - 1 ensures days[1..][i] in WithShifts(columns, days[0]) && '_' !in days[1..][i] {
      WithShiftsKeepsPlain(columns, days[0], days[1..][i]);
    }
  }

  /**
   * After `format_timeranges`, each day's four shift columns are computed
   * from that day's original column.
   */
  lemma {:induction false} AllShiftsSlot(columns: map<string, seq<Cell>>, days: seq<string>, i: nat, slot: Slot)
    requires DaysReady(columns, days) && i < |days|
    ensures ShiftKey(days[i], slot) in AllShifts(columns, days)
    ensures AllShifts(columns, days)[ShiftKey(days[i], slot)] == ShiftColumn(columns[days[i]], slot)
    decreases |days|, 1
  {
    if i > 0 {
      var next := WithShifts(columns, days[0]);
      var rest := days[1..];
      DaysReadyAfterFirst(columns, days);
      assert AllShifts(columns, days) == AllShifts(next, rest);
      assert days[i] == rest[i - 1];
      WithShiftsKeepsPlain(columns, days[0], days[i]);
      assert next[rest[i - 1]] == columns[days[i]];
      AllShiftsSlot(next, rest, i - 1, slot);
    } else {
      AllShiftsSlotFirst(columns, days, slot);
    }
  }

  /** The first day's shift columns: written by its own pass, or again by a later pass over the same day. */
  lemma {:induction false} AllShiftsSlotFirst(columns: map<string, seq<Cell>>, days: seq<string>, slot: Slot)
    requires DaysReady(columns, days) && days != []
    ensures ShiftKey(days[0], slot) in AllShifts(columns, days)
    ensures AllShifts(columns, days)[ShiftKey(days[0], slot)] == ShiftColumn(columns[days[0]], slot)
    decreases |days|, 0
  {
    var day := days[0];
    var next := WithShifts(columns, day);
    var rest := days[1..];
    DaysReadyAfterFirst(columns, days);
    assert AllShifts(columns, days) == AllShifts(next, rest);
    WithShiftsSlot(columns, day, slot);
    var key := ShiftKey(day, slot);
    if IsShiftKeyOf(key, rest) {
      // the day is listed again later: its later pass writes the same column
      var j, s :| 0 <= j < |rest| && key == ShiftKey(rest[j], s);
      ShiftKeyInjective(day, slot, rest[j], s);
      WithShiftsKeepsPlain(columns, day, day);
      AllShiftsSlot(next, rest, j, slot);
    } else {
      AllShiftsOther(next, rest, key);
    }
  }

  /** Every column that is not a shift column of a listed day is as it was. */
  lemma {:induction false} AllShiftsOther(columns: map<string, seq<Cell>>, days: seq<string>, k: string)
    requires DaysReady(columns, days)
    requires k in columns && !IsShiftKeyOf(k, days)
    ensures k in AllShifts(columns, days) && AllShifts(columns, days)[k] == columns[k]
    decreases |days|
  {
    if days != [] {
      var day := days[0];
      var rest := days[1..];
      DaysReadyAfterFirst(columns, days);
      forall slot: Slot ensures k != ShiftKey(day, slot) {
        assert days[0] == day;
      }
      WithShiftsOther(columns, day, k);
      forall j, s: Slot | 0 <= j < |rest| ensures k != ShiftKey(rest[j], s) {
        assert days[j + 1] == rest[j];
      }
      AllShiftsOther(WithShifts(columns, day), rest, k);
    }
  }

  /* ---- format_categories ---- */

  const Uncategorized: string := "Uncategorized"

  /** `fillna("Uncategorized")` on one cell. */
  function OrUncategorized(cell: Option<string>): string
  {
    if cell.Some? then cell.value else Uncategorized
  }

  /** `[item.strip() for item in x]`. */
  function StripAll(items: seq<string>): (r: seq<string>)
    ensures |r| == |items|
    ensures forall i :: 0 <= i < |items| ==> r[i] == Strip(items[i])
    ensures forall i :: 0 <= i < |r| ==> r[i] == [] || (!IsSpace(r[i][0]) && !IsSpace(r[i][|r[i]| - 1]))
    ensures forall i, c :: 0 <= i < |r| && c in r[i] ==> c in items[i]
  {
    seq(|items|, i requires 0 <= i < |items| => Strip(items[i]))
  }

  /**
   * The `categories_split` list of one cell: the cell (or "Uncategorized"
   * when it is missing) split on `;`, each item stripped.
   */
  function CategoryItems(cell: Option<string>): (r: seq<string>)
    ensures |r| >= 1
    ensures forall j :: 0 <= j < |r| ==> ';' !in r[j] && (r[j] == [] || (!IsSpace(r[j][0]) && !IsSpace(r[j][|r[j]| - 1])))
  {
    StripAll(Split(OrUncategorized(cell), ';'))
  }

  lemma {:induction false} StripKeepsOut(s: string, c: char)
    requires c !in s
    ensures c !in Strip(s)
  {
    var k := LeadingSpaces(s);
    if k < |s| {
      var r := Strip(s);
      assert r == s[k..|s| - TrailingSpaces(s)];
      assert forall i :: 0 <= i < |r| ==> r[i] == s[k + i];
    }
  }

  /** A semicolon-free cell with no whitespace at either end is a single item. */
  lemma {:induction false} SingleCategory(s: string)
    requires s != [] && ';' !in s && !IsSpace(s[0]) && !IsSpace(s[|s| - 1])
    ensures CategoryItems(Some(s)) == [s]
  {
    SplitWithout(s, ';');
    StripUnchanged(s);
  }

  /** A missing cell becomes the single item "Uncategorized". */
  lemma MissingCategory()
    ensures CategoryItems(None) == [Uncategorized]
  {
    LetterNotSpace(Uncategorized[0]);
    LetterNotSpace(Uncategorized[|Uncategorized| - 1]);
    SingleCategory(Uncategorized);
  }

  /**
   * A present cell has one item more than it has semicolons, and every item
   * is stripped and free of semicolons.
   */
  lemma CategoryItemsShape(s: string)
    ensures |CategoryItems(Some(s))| == Count(s, ';') + 1
    ensures forall i :: 0 <= i < |CategoryItems(Some(s))| ==>
      ';' !in CategoryItems(Some(s))[i] && Strip(CategoryItems(Some(s))[i]) == CategoryItems(Some(s))[i]
  {
    var parts := Split(s, ';');
    var r := CategoryItems(Some(s));
    forall i | 0 <= i < |r| ensures ';' !in r[i] && Strip(r[i]) == r[i] {
      StripKeepsOut(parts[i], ';');
      StripIdempotent(parts[i]);
    }
  }

  /** Joining the items of a cell without spaces around its semicolons gives the cell back. */
  lemma {:induction false} CategoryItemsRoundTrip(s: string)
    requires forall i :: 0 <= i < |Split(s, ';')| ==> Strip(Split(s, ';')[i]) == Split(s, ';')[i]
    ensures Join(CategoryItems(Some(s)), ';') == s
  {
    var parts := Split(s, ';');
    assert CategoryItems(Some(s)) == parts;
    JoinSplit(s, ';');
  }

  /** The `categories` column after `fillna("Uncategorized")`. */
  function FilledColumn(col: seq<Cell>): (r: seq<Cell>)
    ensures |r| == |col|
    ensures forall i :: 0 <= i < |col| ==> r[i] == Text(OrUncategorized(CellText(col[i])))
    ensures forall i :: 0 <= i < |r| ==> r[i].Text?
    ensures forall i :: 0 <= i < |col| && col[i].Text? ==> r[i] == col[i]
    ensures forall i :: 0 <= i < |col| && col[i].Missing? ==> r[i] == Text(Uncategorized)
  {
    seq(|col|, i requires 0 <= i < |col| => Text(OrUncategorized(CellText(col[i]))))
  }

  /** A `categories_split` cell: a non-empty list of stripped, semicolon-free items. */
  predicate IsSplitCell(c: Cell)
  {
    c.Items? && |c.items| >= 1 &&
    forall j :: 0 <= j < |c.items| ==>
      ';' !in c.items[j] && (c.items[j] == [] || (!IsSpace(c.items[j][0]) && !IsSpace(c.items[j][|c.items[j]| - 1])))
  }

  /** Every missing cell of a column splits to the single item "Uncategorized". */
  lemma MissingCells(col: seq<Cell>)
    ensures forall i :: 0 <= i < |col| && col[i].Missing? ==> CategoryItems(CellText(col[i])) == [Uncategorized]
  {
    MissingCategory();
  }

  /** The `categories_split` column. */
  function SplitColumn(col: seq<Cell>): (r: seq<Cell>)
    ensures |r| == |col|
    ensures forall i :: 0 <= i < |col| ==> r[i] == Items(CategoryItems(CellText(col[i])))
    ensures forall i :: 0 <= i < |r| ==> IsSplitCell(r[i])
    ensures forall i :: 0 <= i < |col| && col[i].Missing? ==> r[i] == Items([Uncategorized])
  {
    MissingCells(col);
    seq(|col|, i requires 0 <= i < |col| => Items(CategoryItems(CellText(col[i]))))
  }

  /* ---- the table ---- */

  /** The DataFrame the ingestion works on: named columns of `rows` cells each. */
  class Frame {
    var columns: map<string, seq<Cell>>
    var rows: nat

    ghost predicate Valid()
      reads this
    {
      forall k :: k in columns ==> |columns[k]| == rows
    }

    constructor (columns: map<string, seq<Cell>>, rows: nat)
      requires forall k :: k in columns ==> |columns[k]| == rows
      ensures Valid() && this.columns == columns && this.rows == rows
    {
      this.columns := columns;
      this.rows := rows;
    }

    /** `assign_time_shifts(df, day)`: the day column is cleansed cell by cell and four shift columns are added. */
    method AssignTimeShifts(day: string)
      requires Valid() && day in columns && IsTextColumn(columns[day])
      modifies this
      ensures Valid() && rows == old(rows)
      ensures columns == WithShifts(old(columns), day)
    {
      var timeRanges := CleansedColumn(columns[day]);
      columns := columns[ShiftKey(day, Start1) := SlotColumn(timeRanges, Start1)];
      columns := columns[ShiftKey(day, End1) := SlotColumn(timeRanges, End1)];
      columns := columns[ShiftKey(day, Start2) := SlotColumn(timeRanges, Start2)];
      columns := columns[ShiftKey(day, End2) := SlotColumn(timeRanges, End2)];
    }

    /** `format_timeranges`: `assign_time_shifts` for every day of the week, in order. */
    method FormatTimeranges(days: seq<string>)
      requires Valid() && DaysReady(columns, days)
      requires forall i :: 0 <= i < |days| ==> IsTextColumn(columns[days[i]])
      modifies this
      ensures Valid() && rows == old(rows)
      ensures columns == AllShifts(old(columns), days)
    {
      for i := 0 to |days|
        invariant Valid() && rows == old(rows)
        invariant DaysReady(columns, days[i..])
        invariant forall j :: i <= j < |days| ==> columns[days[j]] == old(columns)[days[j]]
        invariant AllShifts(old(columns), days) == AllShifts(columns, days[i..])
      {
        var rest := days[i + 1..];
        assert days[i..][1..] == rest;
        forall j | i + 1 <= j < |days| ensures days[j] in WithShifts(columns, days[i]) && WithShifts(columns, days[i])[days[j]] == columns[days[j]] {
          WithShiftsKeepsPlain(columns, days[i], days[j]);
        }
        AssignTimeShifts(days[i]);
      }
      assert days[|days|..] == [];
    }

    /** `format_categories`: missing categories are filled in and each cell is split into its stripped items. */
    method FormatCategories()
      requires Valid() && "categories" in columns && IsTextColumn(columns["categories"])
      modifies this
      ensures Valid() && rows == old(rows)
      ensures columns == old(columns)["categories" := FilledColumn(old(columns)["categories"])]
                                     ["categories_split" := SplitColumn(old(columns)["categories"])]
    {
      var col := columns["categories"];
      columns := columns["categories" := FilledColumn(col)];
      columns := columns["categories_split" := SplitColumn(col)];
    }
  }
}
