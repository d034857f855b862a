# Business hours ETL: a verified model of the cleanser and the read endpoints

This project models, in Dafny, the core of a small ETL service for business
listings. The service reads a CSV of businesses, with one free-text opening
hours cell per weekday and a `;`-separated categories cell. It normalises those
cells into canonical 24-hour shift columns and stores the result. Three HTTP
endpoints then list businesses by category, by weekday, or open now.

The model covers two parts of the service.

- **Hours cleanser and table steps** (`src/app/process_data.py`):
  - the per-token helpers `normalize_dashes`, `fix_irregular_time_format`,
    `infer_missing_am_pm` and `convert_to_24h`;
  - the chain of rewrites and the pairing loop of `cleanse_time_range`;
  - the table steps `assign_time_shifts`, `format_timeranges` and
    `format_categories`.
- **Query layer** (`src/app/crud.py`):
  - the weekday lookup;
  - the `is_closed` check;
  - the response loop the three endpoints share;
  - the open-now shift condition.

Modules, one per file:

| module | file | what it holds |
|---|---|---|
| `Wrappers` | wrappers.dfy | `Option` and `Result` |
| `PyText` | pytext.dfy | the Python `str` operations the code uses: `strip`, ASCII `lower`, `in`, `replace`, `split`, `join`, `count` |
| `Clock` | clock.dfy | the three `strptime` formats as whole-string grammars, `convert_to_24h`, `fix_irregular_time_format`, `infer_missing_am_pm` |
| `Rewrites` | rewrites.dfy | the regular-expression and replace passes of `cleanse_time_range`, lines 101-118 |
| `Cleansing` | cleansing.dfy | `cleanse_time_range`, as a specification function `TimeRanges` and as a method `CleanseTimeRange` that runs step by step like the source, with its loop |
| `Shifts` | shifts.dfy | the table as a class `Frame` whose `columns` map the methods update in place; `assign_time_shifts`, `format_timeranges`, `format_categories` |
| `Crud` | crud.dfy | the rows as datatypes; the weekday map, `is_closed`, the shared response loop (method `Respond`), the three endpoints, and string order on `HH:MM` times |

One behaviour of the code is easy to misread:

- A range such as `9-5pm` becomes `21:00`-`17:00`, not `09:00`-`17:00`.
  `infer_missing_am_pm` copies the end's `pm` onto the bare start (lines 52-53), and `9pm` is 21:00.
  `Cleansing.InferredMarkerRange` states this behaviour.

## Model

| member | source | states |
|---|---|---|
| PyText.Strip | src/app/process_data.py:46-47 | `str.strip()`: the result is no longer than the input, does not start or end with whitespace, is empty exactly when the input is all whitespace, and holds no character the input lacks |
| PyText.StripCuts | src/app/process_data.py:46-47 | what stripping removes is one whitespace run at the front and one at the back; the text between them is kept as it is |
| PyText.Lower | src/app/process_data.py:93 | `str.lower()` keeps the length, leaves no capital letter, turns each capital into a lower-case letter and keeps every other character where it was |
| PyText.StripIdempotent | src/app/process_data.py:93 | stripping twice is stripping once |
| PyText.StripKeepsStretch | src/app/process_data.py:93 | a stretch that starts and ends with non-whitespace survives stripping |
| PyText.LowerContains | src/app/process_data.py:93 | lower-casing keeps every occurrence of a substring, lower-cased |
| PyText.ReplaceAll | src/app/process_data.py:67 | `str.replace`: nothing changes when the pattern does not occur; a one-character pattern that the replacement does not contain no longer occurs; a replacement no longer than the pattern does not lengthen the string; a one-character pattern with a one-character replacement maps each occurrence to the replacement and keeps every other character in place |
| PyText.Erase | src/app/process_data.py:102 | `replace(c, "")` removes every `c`: none is left, the result is shorter by the number of `c`s, and a string without `c` is unchanged |
| PyText.EraseConcat | src/app/process_data.py:102-103 | erasing from a concatenation erases from each part, so the characters that stay keep their order |
| PyText.Split | src/app/process_data.py:120 | `split(sep)` gives one more piece than there are separators, and no piece contains the separator |
| PyText.JoinSplit | src/app/process_data.py:120 | joining the pieces of a split with the separator gives back the original string |
| PyText.SplitJoin | src/app/process_data.py:120 | splitting a join of separator-free pieces gives back the pieces |
| Rewrites.NormalizeDashes | src/app/process_data.py:12-20 | the five exotic dashes become `-`, every other character is kept in place, and no exotic dash is left |
| Rewrites.StripDayPrefix | src/app/process_data.py:104 | the longest `^[:a-z]{0,4}:` prefix is removed; text without such a prefix is unchanged |
| Rewrites.LongestDayPrefix | src/app/process_data.py:104 | the greedy `{0,4}` quantifier picks the longest prefix that ends in a colon, and no longer one exists |
| Rewrites.CollapseMeridiem | src/app/process_data.py:105-106 | text without full stops is unchanged, and the first character is kept |
| Rewrites.CollapseMeridiemDropsOnlyDots | src/app/process_data.py:105-106 | the `a\.?m\.?` / `p\.?m\.?` passes only delete full stops |
| Rewrites.CollapseMeridiemLeavesNoDottedMarker | src/app/process_data.py:105-106 | after the pass, no `a.m` (resp. `p.m`) is left anywhere |
| Rewrites.CollapseMeridiemMarker | src/app/process_data.py:105-106 | a marker written `am`, `a.m`, `am.` or `a.m.` becomes `am` (the same for `p`), and the scan goes on after it |
| Rewrites.CollapseMeridiemCopies | src/app/process_data.py:105-106 | text without the marker letter is copied as it is |
| Rewrites.CollapseMeridiemOfToken | src/app/process_data.py:105-106 | on a whole token, `9a.m.`, `9a.m`, `9am.` and `9am` all become `9am` |
| Rewrites.ExpandBareMeridiem | src/app/process_data.py:108-109 | text in which every `a`/`p` is followed by a word character is unchanged |
| Rewrites.BareMeridiemLength | src/app/process_data.py:108-109 | a match of `\b(\d{1,2})(\s*a)\b` is one or two digits, then whitespace, then the letter, with a non-word character or the end after it |
| Rewrites.BareMeridiemFront | src/app/process_data.py:108-109 | conversely, one or two digits, whitespace and the letter before a non-word character or the end are matched, with exactly that length |
| Rewrites.ExpandBareFront | src/app/process_data.py:108-109 | such a match becomes the digits and `am` (resp. `pm`), the whitespace goes, and the scan goes on after it |
| Rewrites.ExpandBareMeridiemOfToken | src/app/process_data.py:108-109 | on a whole token, `9a` and `10 p` become `9am` and `10pm` |
| Rewrites.NoToAfterReplace | src/app/process_data.py:113 | after `replace("to", "-")` no `to` is left |
| Rewrites.SplitGluedInsertsOnlyDashes | src/app/process_data.py:114 | the glued-times substitutions (lines 114 and 118) only insert dashes |
| Rewrites.GlueMatch | src/app/process_data.py:114 | a glued-times match has both groups non-empty, and the first ends in am/pm just before a digit |
| Rewrites.ClockMarkLengthOf | src/app/process_data.py:114 | the time group of the pattern, one or two digits, a colon, two digits and am/pm, matches `h:MMam` with its full length |
| Rewrites.HourMarkLengthOf | src/app/process_data.py:114 | the hour group, one or two digits and am/pm, matches `ham` with its full length |
| Rewrites.TwoDigitMarkLengthOf | src/app/process_data.py:118 | the hour group of line 118, two digits and am/pm, matches `hham` with its full length |
| Rewrites.GlueTimeThenHourFront | src/app/process_data.py:114 | conversely, `9:00am5pm` at the front is matched, as `9:00am` then `5pm` |
| Rewrites.GlueHourThenTimeFront | src/app/process_data.py:118 | conversely, `11am1:30pm` at the front is matched, as `11am` then `1:30pm` |
| Rewrites.SplitGlued | src/app/process_data.py:114 | text with no am/pm directly before a digit is unchanged |
| Rewrites.SplitGluedFront | src/app/process_data.py:114 | where the pattern matches, a dash is put between its two groups and the scan goes on after them |
| Rewrites.SeparatorsToDash | src/app/process_data.py:115 | newlines, commas and semicolons become `-`, everything else stays, and none of them is left |
| Rewrites.CollapseDashes | src/app/process_data.py:117 | no two dashes in a row are left, and the first character is kept |
| Rewrites.CollapseDashesKeepsOthers | src/app/process_data.py:117 | every character that is not a dash is kept, in order |
| Rewrites.CollapseDashesRun | src/app/process_data.py:117 | a run of one or more dashes becomes a single dash, and the scan goes on after the run |
| Rewrites.EraseDropDashes | src/app/process_data.py:117 | skipping a leading run of dashes drops only dashes |
| Rewrites.CollapseDashesUnchanged | src/app/process_data.py:117 | text without a double dash is unchanged |
| Clock.FixIrregularTimeFormat | src/app/process_data.py:23-34 | a token of 3-4 digits followed by am/pm (and, as Python's `$` allows, an optional final newline, which is dropped) gets a colon before its last two digits; any other token is returned unchanged |
| Clock.FixIrregularIdempotent | src/app/process_data.py:31-34 | fixing twice is fixing once |
| Clock.FixDigitRun | src/app/process_data.py:31-33 | `HMMpm` becomes `H:MMpm` (for example `600pm` becomes `6:00pm`) |
| Clock.InferMissingAmPm | src/app/process_data.py:37-55 | both sides are stripped; a side changes exactly when it lacks am/pm and the other side has it, and it then gets the other side's last two characters appended |
| Clock.InferCopiesMarker | src/app/process_data.py:49-53 | when only one side ends in a marker, the marker is copied to the other side, in either order |
| Clock.InferOnlyStrips | src/app/process_data.py:46-55 | when both sides or neither side mention am/pm, the sides are only stripped |
| Clock.Parse12 | src/app/process_data.py:70 | a successful `%I:%M%p` parse, formatted with `%H:%M`, is a canonical time |
| Clock.Parse12Bare | src/app/process_data.py:72 | a successful `%I%p` parse, formatted with `%H:%M`, is a canonical time |
| Clock.Parse24 | src/app/process_data.py:75 | a successful `%H:%M` parse is a canonical time, and the text had a colon |
| Clock.Parse24Parts | src/app/process_data.py:75 | `H:M` parses to the time with hour `H` and minute `M` exactly when both parts are accepted |
| Clock.Convert24 | src/app/process_data.py:75 | a token without am/pm whose hour lies in 0-23 and minute in 0-59, each written plainly or padded, converts to that time (`9:05` to `09:05`) |
| Clock.Hour12 | src/app/process_data.py:70-72 | an hour read by `%I` lies in 1-12, and the text was that number, written plainly or padded to two digits |
| Clock.Minute | src/app/process_data.py:70-75 | a minute read by `%M` lies in 0-59, and the text was that number, written plainly or padded to two digits |
| Clock.MinuteOfText | src/app/process_data.py:70-75 | conversely, a minute below 60, written plainly or padded, is read as itself |
| Clock.Hour24 | src/app/process_data.py:75 | an hour read by `%H` lies in 0-23, and the text was that number, written plainly or padded to two digits |
| Clock.Hour24OfText | src/app/process_data.py:75 | conversely, an hour below 24, written plainly or padded, is read as itself |
| Clock.ConvertTo24h | src/app/process_data.py:58-77 | a successful conversion is always a zero-padded `HH:MM` with hour 00-23 and minute 00-59 |
| Clock.ConvertKeepsCanonical | src/app/process_data.py:75 | an already canonical `HH:MM` converts to itself |
| Clock.ConvertReadsDotsAsColons | src/app/process_data.py:67 | dotted and colon forms of a token convert alike |
| Clock.ConvertDottedTwelveHour | src/app/process_data.py:67-70 | `9.30pm` converts as `9:30pm`, to 21:30 |
| Clock.Convert12WithMinutes | src/app/process_data.py:70 | `h:MMam`/`h:MMpm` with hour 1-12 converts to the matching hour of day: 12am is 00, 12pm is 12, and 1-11pm add 12 |
| Clock.ConvertBareHour | src/app/process_data.py:72 | `9am`, `12pm` and the like convert to that hour on the hour |
| Clock.ConvertRejectsHourOutOfRange | src/app/process_data.py:68-77 | with a marker and no minutes, an hour of 0 or above 12 gives None |
| Clock.ConvertRejectsHourOutOfRangeWithMinutes | src/app/process_data.py:68-77 | with a marker and minutes (`13:00pm`, `0:30am`), an hour of 0 or above 12 gives None |
| Clock.To24 | src/app/process_data.py:70-72 | the 12-hour to 24-hour mapping keeps the hour modulo 12, and the result is at least 12 exactly for pm |
| Clock.ClockText | src/app/process_data.py:70-75 | `strftime("%H:%M")` produces a canonical time with the given hour and minute |
| Clock.ClockTextOfParts | src/app/process_data.py:75 | a canonical time is determined by its hour and minute |
| Cleansing.TimeRanges | src/app/process_data.py:81-144 | the result is never empty and holds only canonical times; a missing or blank cell gives `[["00:00","00:00"]]` |
| Cleansing.NormaliseKeepsPlainText | src/app/process_data.py:101-118 | every rewrite pass leaves a text of digits, colons, dashes and am/pm markers unchanged |
| Cleansing.NormaliseCommaList | src/app/process_data.py:101-118 | the passes take `x, y` to `x-y`: the space goes and the comma becomes the dash between two ranges |
| Cleansing.CleanseTimeRange | src/app/process_data.py:90-144 | the step-by-step method, with its loop over token pairs and its early returns, gives exactly `TimeRanges` of the cell |
| Cleansing.AllDayWins | src/app/process_data.py:93-96 | a cell mentioning "24 hours", in any case, gives `[["00:00","23:59"]]` whatever else it says, "closed" included |
| Cleansing.ClosedCell | src/app/process_data.py:93-99 | a cell mentioning "closed", in any case, but not "24 hours", gives `[["00:00","00:00"]]` |
| Cleansing.KeywordSurvives | src/app/process_data.py:93-98 | a keyword anywhere in a cell survives stripping and lower-casing, so the `in` test sees it |
| Cleansing.PairsResetIff | src/app/process_data.py:124-130 | the loop returns the closed fallback early exactly when the token count is odd or some token is empty |
| Cleansing.EmptyTokenMeansClosed | src/app/process_data.py:129-130 | an empty token anywhere (as in `9am-`) makes the whole cell read as closed, even after pairs have already parsed |
| Cleansing.ParsePair | src/app/process_data.py:132-140 | a pair that converts is a pair of canonical times |
| Cleansing.ConvertedSkipsFailedPair | src/app/process_data.py:136-140 | a pair where either side fails to convert is dropped, and nothing else changes |
| Cleansing.ConvertedKeepsGoodPairs | src/app/process_data.py:136-140 | when every pair converts, each is kept, in order |
| Cleansing.SuccessesMembers | src/app/process_data.py:139-140 | exactly the successful conversions are appended |
| Cleansing.Converted | src/app/process_data.py:136-144 | the kept pairs are at most as many as the token pairs, and all are canonical |
| Cleansing.ParsePairsStep | src/app/process_data.py:124-140 | one turn of the loop converts the first two tokens, and the rest of the loop follows |
| Cleansing.Pairs | src/app/process_data.py:124-127 | the loop reads consecutive tokens `2k`, `2k+1` as the k-th pair, and that covers all the tokens |
| Cleansing.ParsePairs | src/app/process_data.py:124-140 | when the loop runs to the end, it collects at most one pair per two tokens, all canonical |
| Cleansing.Fallback | src/app/process_data.py:144 | the final `return` is never empty, and holds only canonical pairs when the collected pairs are |
| Cleansing.PlainTextSkipsRewrites | src/app/process_data.py:93-120 | a text made of digits, colons, dashes and am/pm markers passes all the rewrites unchanged |
| Cleansing.SinglePairText | src/app/process_data.py:120-144 | a range of two plain tokens reads as the one pair they parse to |
| Cleansing.CanonicalRoundTrip | src/app/process_data.py:81-144 | round trip: the cleanser's own output, written back as `HH:MM-HH:MM-...`, reads as the same pairs |
| Cleansing.TwelveHourParses | src/app/process_data.py:132-137 | an `h:MMam`/`h:MMpm` token passes the token helpers unchanged and converts to its hour of day |
| Cleansing.TwelveHourRange | src/app/process_data.py:120-140 | `9:00am-5:30pm` style ranges read both ends on the 12-hour clock |
| Cleansing.MarkedHourReads | src/app/process_data.py:133-137 | a marked bare hour such as `5pm` converts to that hour on the hour |
| Cleansing.InferredMarkerRange | src/app/process_data.py:52-53 | in `9-5pm` the start borrows the end's marker, so both ends are on the same half of the day (21:00 to 17:00) |
| Cleansing.MarkedHourRange | src/app/process_data.py:120-140 | `9am-5pm`: each end is read with its own marker |
| Cleansing.DigitRunReads | src/app/process_data.py:133-137 | a digit run such as `600pm` is repaired and converts to its time |
| Cleansing.ParsePairsOfClocks | src/app/process_data.py:124-140 | the loop reads back the tokens of canonical pairs as those same pairs |
| Cleansing.DigitRunRange | src/app/process_data.py:133-134 | `600pm-900pm` style ranges get their colons before the minutes and convert |
| Cleansing.CommaListReadsAsDash | src/app/process_data.py:101-120 | a cell listing two plain range texts separated by `, ` reads as if a dash stood there |
| Cleansing.ParsePairsOfFour | src/app/process_data.py:124-140 | four tokens that read as two pairs give both pairs, in order |
| Cleansing.TwoRangesText | src/app/process_data.py:101-144 | `a-b, c-d` of plain tokens gives the pair of `a-b` then the pair of `c-d` |
| Cleansing.TwelveHourTwoRanges | src/app/process_data.py:101-144 | `9:00am-12:00pm, 1:00pm-5:00pm` style cells give both 12-hour ranges, in order |
| Shifts.CleansedColumn | src/app/process_data.py:156 | after `df[day].apply(cleanse_time_range)` every cell is a non-empty list of pairs of canonical `HH:MM` times, and a missing cell is the closed pair `00:00`-`00:00` |
| Shifts.SlotColumn | src/app/process_data.py:159-171 | a shift column built from canonical pairs holds a canonical `HH:MM` text in every row, and the second-shift columns are `00:00` in each row with fewer than two pairs |
| Shifts.SlotValue | src/app/process_data.py:157-171 | when every pair is canonical, each slot holds a canonical time |
| Shifts.WithShifts | src/app/process_data.py:147-171 | `assign_time_shifts` keeps every column there was, the day column itself unchanged |
| Shifts.SlotsOfCell | src/app/process_data.py:156-171 | every slot holds a canonical time; shift 1 is the first pair of the cleansed cell; a blank cell gives `"00:00"` in all four slots |
| Shifts.MissingPairsAreMidnight | src/app/process_data.py:166-171 | with fewer than two pairs, shift 2 is `"00:00"`/`"00:00"` |
| Shifts.LaterPairsIgnored | src/app/process_data.py:159-171 | pairs beyond the second do not affect any slot |
| Shifts.ShiftKeyInjective | src/app/process_data.py:159-170 | for day names without `_`, a shift column name determines its day and slot |
| Shifts.ShiftKeysDistinct | src/app/process_data.py:159-170 | the four shift columns of one day are different columns |
| Shifts.WithShiftsKeys | src/app/process_data.py:147-171 | `assign_time_shifts` adds exactly the four shift columns of the day to the columns already present |
| Shifts.WithShiftsSlot | src/app/process_data.py:156-171 | each shift column is the slot of the cleansed day column |
| Shifts.WithShiftsOther | src/app/process_data.py:147-171 | every column that is not a shift column of the day is left unchanged |
| Shifts.WithShiftsKeepsPlain | src/app/process_data.py:147-171 | a column whose name has no `_`, such as any day column or `categories`, is unchanged |
| Shifts.Frame.AssignTimeShifts | src/app/process_data.py:147-171 | the table afterwards is `WithShifts` of the table before, and all columns keep the row count |
| Shifts.Frame.FormatTimeranges | src/app/process_data.py:174-193 | the loop over the days leaves the table as `AllShifts` of the days, applied in order |
| Shifts.AllShiftsSlot | src/app/process_data.py:192-193 | after `format_timeranges`, each day's four shift columns are computed from that day's original column |
| Shifts.AllShiftsOther | src/app/process_data.py:192-193 | after `format_timeranges`, every column that is not a shift column of a listed day is unchanged |
| Shifts.AllShiftsKeepsDays | src/app/process_data.py:192-193 | the day columns themselves are not changed |
| Shifts.AllShifts | src/app/process_data.py:190-193 | `format_timeranges` keeps every column there was |
| Shifts.Frame.FormatCategories | src/app/process_data.py:196-219 | `categories` is filled and `categories_split` is added; nothing else changes |
| Shifts.FilledColumn | src/app/process_data.py:211 | after `fillna("Uncategorized")` every cell is text, a present cell is kept as it was and a missing cell becomes "Uncategorized" |
| Shifts.SplitColumn | src/app/process_data.py:212-217 | every `categories_split` cell is a non-empty list of items that have no semicolon and no whitespace at either end, and a missing cell becomes the list ["Uncategorized"] |
| Shifts.CategoryItems | src/app/process_data.py:211-217 | the `categories_split` list of a cell is never empty, and no item holds a semicolon or starts or ends with whitespace |
| Shifts.StripAll | src/app/process_data.py:215-217 | no item starts or ends with whitespace afterwards, and no item gains a character its original lacked |
| Shifts.MissingCategory | src/app/process_data.py:211 | a missing categories cell becomes `["Uncategorized"]` |
| Shifts.CategoryItemsShape | src/app/process_data.py:212-217 | a present cell gives one more item than it has semicolons; every item is stripped and has no semicolon |
| Shifts.CategoryItemsRoundTrip | src/app/process_data.py:212-217 | joining the items of an unpadded cell with `;` gives the cell back |
| Shifts.SingleCategory | src/app/process_data.py:212-217 | a semicolon-free cell with no whitespace at either end gives itself as its only item |
| Crud.IsClosed | src/app/crud.py:46-50 | `is_closed` holds exactly when every hours record has all four shift fields equal to `"00:00"`; it holds vacuously with no hours records |
| Crud.Filter | src/app/crud.py:38-65 | the scan keeps only elements that satisfy the condition, and no more than it was given |
| Crud.OpenOnes | src/app/crud.py:38-65 | every business the loop appends is not closed, and there are no more than were fetched |
| Crud.Response | src/app/crud.py:32-69 | a failure, with status 404, exactly when nothing was fetched; a success lists only businesses that are not closed |
| Crud.Respond | src/app/crud.py:32-69 | a 404 with the endpoint's detail exactly when nothing was fetched; otherwise success, with the fetched businesses that are not closed |
| Crud.ResponseContents | src/app/crud.py:38-69 | each open fetched business appears as often as it was fetched and no closed one does; all closed gives an empty list with no error |
| Crud.ResponseKeepsOrder | src/app/crud.py:38-65 | the response keeps the fetched order |
| Crud.FilterCount | src/app/crud.py:39-65 | a kept business appears as often as in the input; a dropped one not at all |
| Crud.FilterConcat | src/app/crud.py:39-65 | the scan is compositional over concatenation |
| Crud.FilterEmpty | src/app/crud.py:52-53 | the result is empty exactly when every business is skipped |
| Crud.FilterAll | src/app/crud.py:52-65 | when no business is skipped, the response is the fetch itself |
| Crud.EndpointContents | src/app/crud.py:28-36 | an endpoint answers 404 exactly when no stored business matches its query; otherwise it lists each matching, not-closed business as often as it is stored |
| Crud.Fetch | src/app/crud.py:28-30 | a query returns only stored businesses that match it, no more than are stored |
| Crud.GetBusinessesByCategory | src/app/crud.py:14-69 | the endpoint's answer is the shared response over the businesses with a category record of that name |
| Crud.GetBusinessesByDay | src/app/crud.py:72-131 | 400 "Invalid day of the week" for a name that is not a weekday; otherwise the shared response over the businesses with an hours record for that day |
| Crud.GetBusinessesOpenNow | src/app/crud.py:134-190 | the shared response over the businesses with an hours record for today whose shift 1 or shift 2 contains the current time |
| Crud.DaysMapKeys | src/app/crud.py:75-83 | each weekday name is stored under its own lower-case form, and only weekday names are stored |
| Crud.DayOfWeek | src/app/crud.py:85-88 | a name the lookup accepts maps to a weekday name with the same lower-case form |
| Crud.DayOfWeekIff | src/app/crud.py:85-88 | the lookup accepts exactly the seven weekday names in any mix of case, and answers with the capitalised name |
| Crud.WeekdayAccepted | src/app/crud.py:85 | a capitalised weekday name, as `strftime("%A")` prints it, is accepted as it is |
| Crud.WeekdayKey | src/app/crud.py:75-83 | each weekday is stored under its lower-case name |
| Crud.ClockLessEqShape | src/app/crud.py:144-151 | on two `HH:MM` times, string `<=` compares the digits from the left |
| Crud.ClockOrder | src/app/crud.py:144-151 | on canonical times, the string comparison the query uses is the order of the times of day |
| Crud.LessEqReflexive | src/app/crud.py:144-151 | string `<=` is reflexive |
| Crud.LessEqAntisymmetric | src/app/crud.py:144-151 | string `<=` both ways means equal |
| Crud.LessEqTransitive | src/app/crud.py:144-151 | string `<=` is transitive |
| Crud.MatchedShiftContainsNow | src/app/crud.py:144-151 | a matching shift runs forward through the current time, so a shift past midnight (end before start) never matches |
| Crud.ClosedRecordMatchesAtMidnight | src/app/crud.py:144-151 | a closed-day record matches only at `"00:00"` |
| Crud.OpenNowSound | src/app/crud.py:134-190 | a business reported open now has a record for today containing the current time, and a record that is not a closed day |

## Left out

- I/O is not modelled: the CSV read, pandas internals, the database writes, async/await, logging, FastAPI routing and `uvicorn`. The table is a map from column names to columns; the database is a sequence of business records with their hours and categories attached.
- The current time is a parameter. `datetime.now()` is outside the model; `GetBusinessesOpenNow` takes the weekday name and the `HH:MM` time as its inputs.
- The ORM query is modelled as a filter of the stored records in stored order. The row order the database returns, and any duplicate rows a join might produce, are not modelled. Each open-now condition is applied to a single hours record, as one SQL join does.
- Strings compare by code point, as Python does. Database collations are not modelled.
- Floating-point fields (`rating`, `max_rating`) are reals and are only passed through.
- PyText.ReplaceAll: for a pattern longer than one character (only `to`, line 113, uses one) the contract states that no occurrence is left and the string does not grow, not where each replacement goes.
- PyText.Lower: lower-cases ASCII letters only; Python's `str.lower` also maps non-ASCII letters.
- `\d` and `\w` match ASCII digits and word characters only; Python also matches other Unicode digits and letters.
- `DAYS_OF_WEEK` comes from `src/app/constants.py`, which is not part of this model. `FormatTimeranges` takes the list of days as a parameter. Day names must not contain `_` (the weekday names do not), so that shift column names cannot collide with day columns.
- The `except (ValueError, IndexError)` at src/app/process_data.py:141-142 is not modelled: nothing in its `try` block can raise. `convert_to_24h` catches its own `ValueError`, and indexing is guarded.
- Day columns and the categories column hold strings or missing values. A column holding lists is excluded by a precondition, because the CSV cannot produce one.
- `datetime.strptime` is modelled by the whole-string grammars of `%I:%M%p`, `%I%p` and `%H:%M`. These are the only formats the code uses. `%p` is matched in lower case; the tokens reaching it are already lower-cased.
- The response objects (`BusinessResponse`, `CategoryBase`, `BusinessHoursBase`) are not modelled separately: a response element is the business value itself, because it copies the same fields.
- `apply` over a column is a whole-column function (`CleansedColumn`, `SlotColumn`, `FilledColumn`, `SplitColumn`), not a loop, because the source has no loop there.
