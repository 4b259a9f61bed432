# Group meeting scheduler — a Dafny model of its scheduling core

This project models the logic of a small web app for scheduling group meetings. An organiser
creates a meeting: a title, a set of candidate days and a daily time range. Each participant
marks the half-hour slots when they are free on a grid. A heatmap then shows how many people are
free in each slot, and marks the slots where everyone is free.

The model covers three parts of the source:

- `src/utils/timeSlots.js`. This part:
  - generates the slots as `"<date> HH:MM"` strings;
  - tallies the heatmap and finds the slots where everyone is free;
  - writes the 12-hour labels (`9:00 AM`, `9:30 AM – 10:00 AM`), with and without a
    display-timezone offset;
  - shifts `"HH:MM"` times by a whole number of minutes, wrapping within the day;
  - chooses the heatmap colour (none, green or terracotta).
- `src/components/AvailabilityGrid.jsx`. This part:
  - runs the click-and-drag (and touch-drag) selection as a small state machine over two
    mutable fields;
  - derives the grid's rows, its Monday-to-Sunday columns and its active cells from the
    generated slots;
  - chooses a cell's fill.
- `src/pages/CreateMeeting.jsx`. This part keeps the sorted list of candidate days that calendar
  clicks toggle, and applies the ordered checks and row shaping of the submit handler.

Each Dafny module follows one concern:

- `Wrappers`: `Option` and `Result`.
- `JsText`: the JavaScript string built-ins the source uses:
  - `split`;
  - `Number` on digit strings;
  - `String(n)` and `padStart`;
  - `trim`;
  - string `<`.
- `ClockTime`: `"HH:MM"` parsing and printing, and `applyOffsetToTime`.
- `SlotLabels`: the 12-hour formatters.
- `SlotGeneration`: `generateSlots`.
- `Collections`: duplicate-free lists and `[...new Set(xs)]`.
- `Heatmap`: `computeHeatmap`, `findBestSlots` and `heatmapColor`.
- `DragSelection`: the drag controller.
- `GridLayout`: the grid derivations and the cell style.
- `CreateMeeting`: the create form.

The imperative parts of the source become imperative Dafny, each proved against a specification
function:

- `generateSlots` is the method `GenerateSlots`, a `for` loop over the dates proved against
  `Generated`; for each date it calls the method `PushDateSlots`, the inner `while` loop over
  the half hours, proved against `DateSlots`;
- `computeHeatmap` is a method that fills a map in place, proved against `HeatmapOf`;
- `findBestSlots` is a method with a loop that fills a set, proved against `BestOf`;
- the drag handlers are a class whose fields are the two React refs, and each handler method is
  proved against the pure transition function `Step`.

Dates inside slot strings are pre-formatted `yyyy-MM-dd` texts without spaces. Calendar days are
whole day numbers, with day 0 = 1970-01-01, a Thursday. UTC offsets, today's date and date-fns
`format` are parameters.

## Model

| member | source | states |
|---|---|---|
| `JsText.DigitValue` | src/utils/timeSlots.js:9 | `Number` of a digit character is a value below ten |
| `JsText.DigitChar` | src/utils/timeSlots.js:22-23 | the character written for a value below ten is a digit that reads back as that value |
| `JsText.DecimalStringShape` | src/utils/timeSlots.js:22-23 | `String(n)` is all digits, one digit below 10, two from 10 to 99, never a leading zero beyond one digit |
| `JsText.DecimalRoundTrip` | src/utils/timeSlots.js:22-23 | `Number(String(n)) == n` |
| `JsText.RepeatShape` | src/utils/timeSlots.js:22-23 | the padding is exactly `n` copies of the fill character |
| `JsText.PadStartShape` | src/utils/timeSlots.js:22-23 | `padStart` gives at least `width` characters, ends with the original text, and is fill before it |
| `JsText.ZerosValue` | src/utils/timeSlots.js:9 | a run of zeros reads as 0 |
| `JsText.LeadingZeros` | src/utils/timeSlots.js:9 | leading zeros do not change what `Number` reads |
| `JsText.Pad2Value` | src/utils/timeSlots.js:22-23 | a two-digit-padded number is digits and reads back as the number |
| `JsText.Pad2Digits` | src/utils/timeSlots.js:22-23 | below 100 the padded text is the tens digit then the units digit |
| `JsText.Pad2Injective` | src/utils/timeSlots.js:22-23 | different numbers get different padded texts |
| `JsText.Split` | src/utils/timeSlots.js:9 | `split` always returns at least one piece |
| `JsText.SplitJoin` | src/components/AvailabilityGrid.jsx:48 | no piece holds the separator, and joining the pieces gives back the text |
| `JsText.SplitNoSeparator` | src/utils/timeSlots.js:41 | a text without the separator splits into itself alone |
| `JsText.SplitAtFirst` | src/utils/timeSlots.js:41-42 | splitting cuts at the first separator, then splits the rest |
| `JsText.StrLessCommonPrefix` | src/pages/CreateMeeting.jsx:59 | a common prefix does not decide a string comparison |
| `JsText.StrLessDifferingPrefix` | src/pages/CreateMeeting.jsx:59 | differing equal-length prefixes decide a string comparison |
| `JsText.LeadingBlanks` | src/pages/CreateMeeting.jsx:57 | the leading run it counts is white space and is followed by a non-space |
| `JsText.TrailingBlanks` | src/pages/CreateMeeting.jsx:57 | the trailing run it counts is white space and is preceded by a non-space |
| `JsText.Trim` | src/pages/CreateMeeting.jsx:57 | `trim` keeps a middle slice, cuts only white space on both sides, and leaves no white space at either end |
| `JsText.TrimEmpty` | src/pages/CreateMeeting.jsx:57 | a trimmed text is empty exactly when the text is all white space |
| `JsText.TrimUnpadded` | src/pages/CreateMeeting.jsx:64 | a text with no white space at either end is its own trim |
| `JsText.TrimIdempotent` | src/pages/CreateMeeting.jsx:64 | trimming twice is trimming once |
| `ClockTime.ParseClock` | src/utils/timeSlots.js:9-10 | reads `"HH:MM"` or `"HH:MM:SS"` as two numbers when the first two fields are digits; `ParseTwoFields`, `ParseThreeFields` and `ClockRoundTrip` state what it returns |
| `ClockTime.ParseTwoFields` | src/utils/timeSlots.js:9-10 | `"a:b"` with digit fields reads as the two numbers |
| `ClockTime.ParseThreeFields` | src/utils/timeSlots.js:8-10 | a third `:SS` field is not read |
| `ClockTime.TwoDigits` | src/utils/timeSlots.js:22-23 | two digits that read back as the number |
| `ClockTime.ClockIsPadded` | src/utils/timeSlots.js:22-24 | the `HH:MM` text is the source's padded template |
| `ClockTime.ClockRoundTrip` | src/utils/timeSlots.js:9-10 | reading a written `HH:MM` gives back the hour and the minute |
| `ClockTime.SecondsIgnored` | src/utils/timeSlots.js:8-10 | `HH:MM:SS` reads as `HH:MM` |
| `ClockTime.HalfHourLaterMinutes` | src/utils/timeSlots.js:27-31 | the carry step adds exactly 30 minutes and keeps the minute below 60 |
| `ClockTime.DayDivMod` | src/utils/timeSlots.js:147 | a minute of the day splits into an hour below 24 and a minute below 60 |
| `ClockTime.ClockOfRoundTrip` | src/utils/timeSlots.js:147 | the text written for a minute of the day is a valid time that reads back as that minute |
| `ClockTime.ClockOfInjective` | src/utils/timeSlots.js:147 | different minutes of the day get different texts |
| `ClockTime.MinuteFields` | src/utils/timeSlots.js:145-147 | `h * 60 + m` lies in the day and divides back into `h` and `m` |
| `ClockTime.ClockIsClockOf` | src/utils/timeSlots.js:147 | writing a minute of the day is writing its hour and minute |
| `ClockTime.ValidClockValue` | src/utils/timeSlots.js:145 | a valid time is a minute of the day |
| `ClockTime.JsRemDayRange` | src/utils/timeSlots.js:146 | JavaScript `% 1440` lies strictly between -1440 and 1440, with the sign of the dividend |
| `ClockTime.WrapIsEuclidean` | src/utils/timeSlots.js:146 | `((x % 1440) + 1440) % 1440` is the non-negative remainder |
| `ClockTime.WrapDay` | src/utils/timeSlots.js:146 | the wrapped total is the non-negative remainder, a minute of the day |
| `ClockTime.ApplyOffsetToTime` | src/utils/timeSlots.js:143-148 | the shifted text is the time `(h * 60 + m + offset) mod 1440` |
| `ClockTime.ApplyOffsetFields` | src/utils/timeSlots.js:143-148 | the shifted text reads back as that minute's hour and minute |
| `ClockTime.ApplyOffsetInDay` | src/utils/timeSlots.js:143-148 | every shift is a valid time of day |
| `ClockTime.ApplyZeroOffset` | src/utils/timeSlots.js:143-148 | a zero shift of a valid `HH:MM` gives it back |
| `ClockTime.ApplyOffsetCompose` | src/utils/timeSlots.js:143-148 | shifting by `a` then by `b` is shifting by `a + b` |
| `ClockTime.ShiftMod` | src/utils/timeSlots.js:146 | offsets that differ by whole days shift alike |
| `ClockTime.ApplyOffsetRoundTrip` | src/utils/timeSlots.js:143-148 | shifting by `d` then by `-d` gives back the time |
| `SlotLabels.DisplayHourRange` | src/utils/timeSlots.js:43-44 | the 12-hour hour is 1 to 12, is 12 exactly on multiples of 12, agrees with `h` mod 12, and the period is AM exactly before noon |
| `SlotLabels.SlotSplit` | src/utils/timeSlots.js:41 | `"<date> <time>"` splits into the date and the time |
| `SlotLabels.DigitsNoSpace` | src/utils/timeSlots.js:41 | digit strings hold no space and no colon |
| `SlotLabels.ClockTextNoSpace` | src/utils/timeSlots.js:41 | a `digits:digits` time holds no space |
| `SlotLabels.ClockSlot` | src/utils/timeSlots.js:41-42 | a slot with an `HH:MM` time is readable and its time reads back |
| `SlotLabels.FormatSlotTime` | src/utils/timeSlots.js:40-46 | `formatSlotTime`: the 12-hour label of the slot's time part; `FormatClockSlot`, `TimeLabelShape` and `FormatSlotTimeUnshifted` state the label |
| `SlotLabels.FormatClockSlot` | src/utils/timeSlots.js:40-46 | `formatSlotTime` of a slot at `HH:MM` is the 12-hour label of `(h, m)` |
| `SlotLabels.TimeLabelShape` | src/utils/timeSlots.js:43-45 | a label is the unpadded hour, `:`, the two-digit minute, a space and the period; midnight and noon read 12 |
| `SlotLabels.LabelColonSplit` | src/utils/timeSlots.js:45 | a label splits at its colon into the hour and the rest |
| `SlotLabels.TimeLabelInjective` | src/utils/timeSlots.js:40-46 | different times of day get different labels |
| `SlotLabels.HourFromLabel` | src/utils/timeSlots.js:43-44 | the 12-hour hour and the period determine the 24-hour hour |
| `SlotLabels.PaddedSlot` | src/utils/timeSlots.js:22-24 | a generated slot is readable and its time reads back as its fields |
| `SlotLabels.SplitPieceNoSeparator` | src/utils/timeSlots.js:41 | a piece of a split holds no separator |
| `SlotLabels.FormatSlotRange` | src/utils/timeSlots.js:108-115 | `formatSlotRange` as written, carrying the end hour without wrapping; `FormatSlotRangeLabels`, `FormatSlotRangeBeforeLastHalfHour` and `FormatSlotRangeLastHalfHour` state the label |
| `SlotLabels.FormatSlotRangeLabels` | src/utils/timeSlots.js:108-115 | the range label is the start label, the separator and the label of the time 30 minutes later, without wrapping the hour |
| `SlotLabels.FormatSlotRangeBeforeLastHalfHour` | src/utils/timeSlots.js:108-115 | before 23:30 the range label is the intended "start – start plus 30 minutes" |
| `SlotLabels.RangeEndArithmetic` | src/utils/timeSlots.js:111-112 | before 23:30 the carried end time is the minute 30 later |
| `SlotLabels.FormatSlotRangeLastHalfHour` | src/utils/timeSlots.js:111-114 | from 23:30 on the end label is written for hour 24 |
| `SlotLabels.NoonIsNotMidnight` | src/utils/timeSlots.js:43-45 | hour 24 is labelled PM, not as midnight |
| `SlotLabels.WrappedEndArithmetic` | src/utils/timeSlots.js:169-170 | carrying with the hour modulo 24 gives the minute 30 later in the day |
| `SlotLabels.WrappedEndLabelOfMinute` | src/utils/timeSlots.js:169-172 | the wrapped end label is the label of the minute 30 later, modulo the day |
| `SlotLabels.RangeOfLabels` | src/utils/timeSlots.js:172 | a start label and its half-hour-later label form the intended range |
| `SlotLabels.ClockLabelOfMinute` | src/utils/timeSlots.js:40-46 | a valid time is labelled as its minute of the day |
| `SlotLabels.FormatSlotTimeUnshifted` | src/utils/timeSlots.js:40-46 | `formatSlotTime` labels a slot by the minute of its time |
| `SlotLabels.ValidTimeFields` | src/utils/timeSlots.js:41-42 | a slot's time fields are its minute's hour and minute |
| `SlotLabels.FormatSlotRangeWrapped` | src/utils/timeSlots.js:108-115 | corrected `formatSlotRange`: the end hour wraps at 24; `FormatSlotRangeWrappedIntended` states the label |
| `SlotLabels.FormatSlotRangeWrappedIntended` | src/utils/timeSlots.js:169-172 | the corrected range label is the intended range of the slot's minute, 23:30 included |
| `SlotLabels.DayClockSlot` | src/utils/timeSlots.js:157 | a placeholder-date slot at a minute is readable and is labelled as that minute |
| `SlotLabels.FormatShiftedLabel` | src/utils/timeSlots.js:157 | labelling a shifted time labels `(minute + offset) mod 1440` |
| `SlotLabels.FormatSlotTimeOffset` | src/utils/timeSlots.js:154-158 | `formatSlotTimeOffset`: the plain label for a zero offset, the label of the shifted time otherwise; `FormatSlotTimeOffsetShifts` and `FormatSlotTimeOffsetPlain` state it |
| `SlotLabels.FormatSlotTimeOffsetShifts` | src/utils/timeSlots.js:154-158 | `formatSlotTimeOffset` labels the slot's minute shifted by the offset within the day, for every offset |
| `SlotLabels.FormatSlotTimeOffsetZero` | src/utils/timeSlots.js:155 | a zero offset labels the slot's own minute |
| `SlotLabels.FormatSlotTimeOffsetPlain` | src/utils/timeSlots.js:155 | a zero offset is `formatSlotTime` |
| `SlotLabels.FormatSlotTimeOffsetNonzero` | src/utils/timeSlots.js:156-157 | a non-zero offset labels the shifted minute, even for a time outside the day |
| `SlotLabels.FormatShiftedRangeParts` | src/utils/timeSlots.js:166-172 | the offset range is the shifted start label, the separator and the wrapped end label |
| `SlotLabels.FormatShiftedRangeLabel` | src/utils/timeSlots.js:166-172 | the offset range is the intended range of the shifted minute |
| `SlotLabels.FormatSlotRangeOffset` | src/utils/timeSlots.js:164-173 | `formatSlotRangeOffset`: `formatSlotRange` for a zero offset, the shifted range otherwise; `FormatSlotRangeOffsetShifts` and `FormatSlotRangeOffsetZero` state it |
| `SlotLabels.FormatSlotRangeOffsetShifts` | src/utils/timeSlots.js:164-173 | with a non-zero offset, `formatSlotRangeOffset` is the intended range of the shifted minute |
| `SlotLabels.FormatSlotRangeOffsetZero` | src/utils/timeSlots.js:165 | with a zero offset it is `formatSlotRange` |
| `SlotLabels.RangeOffsetZeroDisagrees` | src/utils/timeSlots.js:165 | offsets 0 and 1440 label the 23:30 slot differently |
| `SlotLabels.LastHalfHourWrapped` | src/utils/timeSlots.js:170 | the intended range of 23:30 ends at 12:00 AM |
| `SlotLabels.FormatSlotRangeOffsetWrapped` | src/utils/timeSlots.js:164-173 | corrected `formatSlotRangeOffset`: the wrapped range for a zero offset; `FormatSlotRangeOffsetWrappedShifts` states it for every offset |
| `SlotLabels.FormatSlotRangeOffsetWrappedShifts` | src/utils/timeSlots.js:164-173 | corrected, every offset gives the intended range of the shifted minute |
| `SlotLabels.FormatSlotRangeOffsetWrappedZero` | src/utils/timeSlots.js:165 | corrected, a zero offset gives the intended range of the slot's minute |
| `SlotLabels.FormatSlotRangeOffsetWrappedPlain` | src/utils/timeSlots.js:165 | corrected, a zero offset is the corrected `formatSlotRange` |
| `SlotLabels.FormatSlotRangeOffsetWrappedNonzero` | src/utils/timeSlots.js:166-172 | corrected, a non-zero offset is as in the source |
| `SlotGeneration.Generated` | src/utils/timeSlots.js:7-35 | what `generateSlots` returns; `GeneratedLength`, `GeneratedSlotAt`, `GeneratedDates` and `GeneratedDistinct` state its contents |
| `SlotGeneration.GenerateSlots` | src/utils/timeSlots.js:7-35 | the loops build exactly the specified slot list |
| `SlotGeneration.PushDateSlots` | src/utils/timeSlots.js:18-31 | the inner loop appends exactly the date's slots, in time order |
| `SlotGeneration.UniverseStep` | src/utils/timeSlots.js:13 | each date appends its slots after those of the earlier dates |
| `SlotGeneration.RunStep` | src/utils/timeSlots.js:21-30 | while the time is before the end, one loop turn emits it and goes on half an hour later |
| `SlotGeneration.DateSlotsPush` | src/utils/timeSlots.js:22-24 | the pushed text is the next slot of the date |
| `SlotGeneration.BeforeIsEarlier` | src/utils/timeSlots.js:21 | the loop condition is "earlier than the end time" |
| `SlotGeneration.TimeRunShape` | src/utils/timeSlots.js:18-31 | a date gets ceil((end − start)/30) times, none when start ≥ end; the k-th is start + 30k, before the end, minute below 60 |
| `SlotGeneration.CountStep` | src/utils/timeSlots.js:21-30 | one more half hour before the end is one more slot |
| `SlotGeneration.TimeRunIncreasing` | src/utils/timeSlots.js:18-31 | the times of a date strictly increase |
| `SlotGeneration.TimeRunDistinct` | src/utils/timeSlots.js:18-31 | no time repeats within a date |
| `SlotGeneration.SlotUniverseLength` | src/utils/timeSlots.js:13-32 | the list holds one run per date |
| `SlotGeneration.SlotUniverseIndex` | src/utils/timeSlots.js:13-32 | slot `i * n + k` is date `i` at time `k`: grouped by date, in the order the dates were given |
| `SlotGeneration.SlotTextParts` | src/utils/timeSlots.js:24 | a slot splits into its date and its padded time, and the time reads back |
| `SlotGeneration.DateSlotsRead` | src/utils/timeSlots.js:21-25 | each of a date's slots splits into the date and a time that reads back as its fields, one per time |
| `SlotGeneration.SlotTextInjective` | src/utils/timeSlots.js:24 | different dates or times give different slots |
| `SlotGeneration.SlotUniverseDates` | src/utils/timeSlots.js:13-24 | every slot's date is one of the given dates |
| `SlotGeneration.DateSlotsDistinct` | src/utils/timeSlots.js:18-31 | a date's slots are distinct |
| `SlotGeneration.SlotUniverseDistinct` | src/utils/timeSlots.js:13-32 | distinct dates give distinct slots |
| `SlotGeneration.GeneratedLength` | src/utils/timeSlots.js:7-35 | there are \|dates\| × ceil((end − start)/30) slots |
| `SlotGeneration.UniverseSlotAt` | src/utils/timeSlots.js:13-32 | the k-th time of date `i` is start + 30k, before the end |
| `SlotGeneration.SlotOfMinute` | src/utils/timeSlots.js:22-24 | a slot is its date and the `HH:MM` of its minute |
| `SlotGeneration.GeneratedSlotAt` | src/utils/timeSlots.js:7-35 | slot `i * n + k` is `"<date i> HH:MM"` for the minute start + 30k, which is before the end |
| `SlotGeneration.GeneratedIgnoresSeconds` | src/utils/timeSlots.js:8-10 | a `:SS` suffix on the start time changes nothing |
| `SlotGeneration.GeneratedIgnoresEndSeconds` | src/utils/timeSlots.js:8-10 | a `:SS` suffix on the end time changes nothing |
| `SlotGeneration.GeneratedDates` | src/utils/timeSlots.js:13-24 | every generated slot begins with one of the dates |
| `SlotGeneration.GeneratedDistinct` | src/utils/timeSlots.js:7-35 | distinct dates give a duplicate-free slot list |
| `Collections.DistinctConcat` | src/components/AvailabilityGrid.jsx:36 | two duplicate-free lists with no common value join into one |
| `Collections.DedupMembers` | src/components/AvailabilityGrid.jsx:36 | `[...new Set(xs)]` holds exactly the values of `xs`, once each |
| `Collections.DedupDistinct` | src/components/AvailabilityGrid.jsx:36 | a duplicate-free list is its own de-duplication |
| `Collections.DedupAppendSeen` | src/components/AvailabilityGrid.jsx:36 | values seen already add nothing |
| `Heatmap.HeatmapOf` | src/utils/timeSlots.js:65-86 | what `computeHeatmap` returns; `HeatmapKeys` and `DistinctUniverseEntry` state its keys and entries |
| `Heatmap.ComputeHeatmap` | src/utils/timeSlots.js:65-86 | the loops build exactly the specified heatmap |
| `Heatmap.InitialStep` | src/utils/timeSlots.js:68-70 | the first loop sets each universe slot to a zero entry |
| `Heatmap.InitialIsTally` | src/utils/timeSlots.js:68-70 | after the first loop the map is the tally of no rows |
| `Heatmap.MidwayStart` | src/utils/timeSlots.js:74 | the inner loop starts from the tally of the earlier rows |
| `Heatmap.OccurrencesStep` | src/utils/timeSlots.js:74-75 | one more slot of the universe adds one occurrence when it matches |
| `Heatmap.MidwayHeld` | src/utils/timeSlots.js:75-80 | a slot the row holds gets one more count and the row's name appended |
| `Heatmap.MidwayNotHeld` | src/utils/timeSlots.js:75 | a slot the row does not hold is left alone |
| `Heatmap.MidwayEnd` | src/utils/timeSlots.js:72-83 | after a row's inner loop the map is the tally of one more row |
| `Heatmap.HeatmapKeys` | src/utils/timeSlots.js:68-69 | the keys are exactly the universe slots, and every entry's total is the number of rows |
| `Heatmap.TalliedIsLength` | src/utils/timeSlots.js:78-79 | the count and the participant list grow together |
| `Heatmap.CopiesLength` | src/utils/timeSlots.js:79 | a name pushed `n` times adds `n` names |
| `Heatmap.CountIsParticipants` | src/utils/timeSlots.js:78-79 | every entry's count is its number of participants |
| `Heatmap.DistinctOccursOnce` | src/utils/timeSlots.js:74 | a slot of a duplicate-free universe is met once per row |
| `Heatmap.AbsentNoOccurrences` | src/utils/timeSlots.js:77 | a slot outside the universe is never met |
| `Heatmap.PushedOnce` | src/utils/timeSlots.js:74-80 | a slot met once per row lists the holders' names in row order |
| `Heatmap.HoldersBound` | src/utils/timeSlots.js:72-83 | at most all rows hold a slot, and all do exactly when each row holds it |
| `Heatmap.HoldersEmpty` | src/utils/timeSlots.js:72-83 | nobody holds a slot exactly when no row holds it |
| `Heatmap.DistinctUniverseEntry` | src/utils/timeSlots.js:65-86 | with a duplicate-free universe, an entry lists its holders and counts them, at most the total |
| `Heatmap.TallySameRows` | src/utils/timeSlots.js:72-83 | rows agreeing on names and on a slot tally that slot alike |
| `Heatmap.HeatmapSameRows` | src/utils/timeSlots.js:73 | only each row's set of slots matters, not its order or repeats |
| `Heatmap.NullSlotsAsEmpty` | src/utils/timeSlots.js:73 | a `null` slot list counts as empty |
| `Heatmap.BestOf` | src/utils/timeSlots.js:92-103 | what `findBestSlots` returns; `FindBestSlots` and `BestOfHeatmap` state which slots it holds |
| `Heatmap.FindBestSlots` | src/utils/timeSlots.js:92-103 | the best slots are the keys whose count equals the total, and none when the total is 0 |
| `Heatmap.BestOfHeatmap` | src/utils/timeSlots.js:92-103 | on a heatmap, a slot is best exactly when it is in the universe and every row holds it |
| `Heatmap.HeatmapColor` | src/utils/timeSlots.js:209-216 | `heatmapColor`: none, green or terracotta; `HeatmapColorOfEntry` states when each is chosen |
| `Heatmap.HeatmapColorOfEntry` | src/utils/timeSlots.js:209-216 | no colour exactly when there are no rows or nobody holds the slot, and green exactly for the best slots |
| `DragSelection.Toggle` | src/components/AvailabilityGrid.jsx:55-61 | a change is emitted exactly when the grid is editable and has a handler; only the slot changes; it is in exactly when the mode is select |
| `DragSelection.DragController.constructor` | src/components/AvailabilityGrid.jsx:51-52 | the refs start idle: not dragging, no mode |
| `DragSelection.DragController.HandleMouseDown` | src/components/AvailabilityGrid.jsx:63-70 | the new fields and the emitted set are the press transition |
| `DragSelection.DragController.HandleMouseEnter` | src/components/AvailabilityGrid.jsx:72-75 | the new fields and the emitted set are the enter transition |
| `DragSelection.DragController.HandleMouseUp` | src/components/AvailabilityGrid.jsx:77-81 | the new fields are the release transition |
| `DragSelection.DragController.HandleTouchStart` | src/components/AvailabilityGrid.jsx:83-93 | the new fields and the emitted set are the touch-start transition |
| `DragSelection.DragController.HandleTouchMove` | src/components/AvailabilityGrid.jsx:95-102 | the new fields and the emitted set are the touch-move transition |
| `DragSelection.DragController.HandleTouchEnd` | src/components/AvailabilityGrid.jsx:104-106 | the new fields are the release transition |
| `DragSelection.ToggleTwice` | src/components/AvailabilityGrid.jsx:55-61 | toggling again in the same mode changes nothing |
| `DragSelection.PressFlipsSlot` | src/components/AvailabilityGrid.jsx:63-70 | a press starts a drag whose mode deselects exactly a selected slot, and flips that slot |
| `DragSelection.IdleMoveIsInert` | src/components/AvailabilityGrid.jsx:72-75 | entering or moving over a cell without a drag does nothing |
| `DragSelection.DragAppliesMode` | src/components/AvailabilityGrid.jsx:72-75 | during a drag every entered slot takes the drag's mode |
| `DragSelection.ReleaseStops` | src/components/AvailabilityGrid.jsx:77-81 | a release ends the drag, keeps the mode and emits nothing |
| `DragSelection.TouchOffGridIgnored` | src/components/AvailabilityGrid.jsx:88-89 | a touch outside any cell does nothing |
| `DragSelection.Step` | src/components/AvailabilityGrid.jsx:55-106 | one event of the drag handlers: the next refs and the emitted selection; the handler methods and `PressFlipsSlot`, `DragAppliesMode`, `ReleaseStops` state it |
| `DragSelection.StepConsistent` | src/components/AvailabilityGrid.jsx:63-106 | a drag always has a mode, after every event |
| `DragSelection.ReleasedRunIsInert` | src/components/AvailabilityGrid.jsx:72-106 | without a press, no sequence of events changes the selection |
| `DragSelection.ReadOnlyRunIsInert` | src/components/AvailabilityGrid.jsx:64 | a read-only grid never changes the selection or starts a drag |
| `DragSelection.StepChangesOnlyItsSlot` | src/components/AvailabilityGrid.jsx:55-61 | an event changes at most the slot it names |
| `DragSelection.RunChangesOnlyActive` | src/components/AvailabilityGrid.jsx:194-202 | events on active cells only ever add or remove active cells |
| `GridLayout.OffsetMins` | src/components/AvailabilityGrid.jsx:25-28 | `offsetMins`; `OffsetMinsCases` states its cases |
| `GridLayout.OffsetMinsCases` | src/components/AvailabilityGrid.jsx:25-28 | the offset is zero when no other display zone is chosen, and the difference of the two UTC offsets otherwise |
| `GridLayout.FmtTime` | src/components/AvailabilityGrid.jsx:31-33 | `fmtTime`; `FmtTimeLabel` and `FmtTimeUnshifted` state its label |
| `GridLayout.FmtTimeLabel` | src/components/AvailabilityGrid.jsx:31-33 | a row label is the label of the time shifted by the offset within the day |
| `GridLayout.FmtTimeUnshifted` | src/components/AvailabilityGrid.jsx:31-33 | with no offset, a row label is the label of its time |
| `GridLayout.EndTimePart` | src/components/AvailabilityGrid.jsx:48 | `endTimePart`; `EndTimePartOfClock` states its text |
| `GridLayout.EndTimePartOfClock` | src/components/AvailabilityGrid.jsx:48 | the end label's text is `HH:MM`, with or without seconds |
| `GridLayout.JoinTwo` | src/components/AvailabilityGrid.jsx:48 | joining two pieces puts the separator between them |
| `GridLayout.SlotTextFields` | src/components/AvailabilityGrid.jsx:35-36 | a slot's two fields are its date and its time |
| `GridLayout.RunTimesRead` | src/components/AvailabilityGrid.jsx:36 | one row text per time, each reading back as its fields |
| `GridLayout.SlotInUniverse` | src/components/AvailabilityGrid.jsx:22 | every slot is some date at some time |
| `GridLayout.UniverseSplits` | src/components/AvailabilityGrid.jsx:35-36 | every generated slot has a date and a time field |
| `GridLayout.MeetingDateSet` | src/components/AvailabilityGrid.jsx:35 | `meetingDateSet`; `MeetingDatesOfUniverse` states it is the given dates |
| `GridLayout.MeetingDatesOfUniverse` | src/components/AvailabilityGrid.jsx:35 | the meeting dates are exactly the given dates, when the day has at least one slot |
| `GridLayout.FirstSlotOfDate` | src/components/AvailabilityGrid.jsx:35 | every given date is a meeting date |
| `GridLayout.SlotAtIndex` | src/components/AvailabilityGrid.jsx:22 | each date at each time is in the slot list |
| `GridLayout.DateTimeFields` | src/components/AvailabilityGrid.jsx:36 | a date's slots give its times in order |
| `GridLayout.TimeFieldsConcat` | src/components/AvailabilityGrid.jsx:36 | the time fields of a concatenation are concatenated |
| `GridLayout.RunTimesDistinct` | src/components/AvailabilityGrid.jsx:36 | distinct times give distinct row texts |
| `GridLayout.TimeStrings` | src/components/AvailabilityGrid.jsx:36 | `timeStrings`; `TimeStringsOfUniverse` states it is the day's times once each |
| `GridLayout.TimeStringsOfUniverse` | src/components/AvailabilityGrid.jsx:36 | the grid rows are the day's times, once each, in order |
| `GridLayout.GridRowsOfGenerated` | src/components/AvailabilityGrid.jsx:22-36 | on generated slots, the meeting dates are the given dates and the rows are the day's times |
| `GridLayout.Earliest` | src/components/AvailabilityGrid.jsx:39-40 | the first sorted date is one of the dates and no later than any |
| `GridLayout.Latest` | src/components/AvailabilityGrid.jsx:39-41 | the last sorted date is one of the dates and no earlier than any |
| `GridLayout.Columns` | src/components/AvailabilityGrid.jsx:39-45 | `dateStrings` as day numbers; `ColumnsShape` states the weeks it spans |
| `GridLayout.ColumnsShape` | src/components/AvailabilityGrid.jsx:39-45 | the columns are whole Monday-to-Sunday weeks of consecutive days, covering every date, beginning and ending within six days of the first and the last date |
| `GridLayout.WeekStartIsMonday` | src/components/AvailabilityGrid.jsx:42-43 | a week starts on the Monday on or before the day and ends on a Sunday |
| `GridLayout.WeeksApart` | src/components/AvailabilityGrid.jsx:42-44 | two Mondays lie whole weeks apart |
| `GridLayout.DateTimeInUniverse` | src/components/AvailabilityGrid.jsx:182 | a date and a row time form a generated slot |
| `GridLayout.ActiveSlots` | src/components/AvailabilityGrid.jsx:181-202 | the `data-slot` values of the active cells; `ActiveSlotsInUniverse` states they are generated slots |
| `GridLayout.ActiveSlotsInUniverse` | src/components/AvailabilityGrid.jsx:181-202 | every active cell is a generated slot |
| `GridLayout.DragStaysInUniverse` | src/components/AvailabilityGrid.jsx:185-202 | dragging over active cells only ever adds or removes generated slots |
| `GridLayout.CellStyle` | src/components/AvailabilityGrid.jsx:108-121 | `getCellStyle`; `CellStyleCases` and `HeatFillOfHeatmap` state the fill |
| `GridLayout.CellStyleCases` | src/components/AvailabilityGrid.jsx:108-121 | the fill in each mode: selection only on the editing grid; highlight, faint or nothing with a highlight set; the heat colour of a non-zero count otherwise |
| `GridLayout.HeatFillOfHeatmap` | src/components/AvailabilityGrid.jsx:116-117 | on a heatmap a cell is never uncoloured heat, and green exactly for the best slots |
| `CreateMeeting.RemoveDate` | src/pages/CreateMeeting.jsx:50 | the filter of `removeDate` and `toggleDate`; `RemoveDateMultiset` and `RemoveDateMembers` state what it keeps |
| `CreateMeeting.RemoveDateConcat` | src/pages/CreateMeeting.jsx:50 | removal keeps the remaining days in order |
| `CreateMeeting.RemoveDateMultiset` | src/pages/CreateMeeting.jsx:50 | removal drops every entry for the day, past or not, and keeps every other day as often as it was |
| `CreateMeeting.RemoveDateMembers` | src/pages/CreateMeeting.jsx:50 | what is left is exactly the other days |
| `CreateMeeting.RemoveDateAbsent` | src/pages/CreateMeeting.jsx:50 | removing an absent day changes nothing |
| `CreateMeeting.RemoveDateLower` | src/pages/CreateMeeting.jsx:44 | removal keeps a lower bound |
| `CreateMeeting.RemoveDateSorted` | src/pages/CreateMeeting.jsx:44 | removal keeps a list sorted and duplicate-free |
| `CreateMeeting.InsertLower` | src/pages/CreateMeeting.jsx:45 | insertion keeps a lower bound |
| `CreateMeeting.InsertSorted` | src/pages/CreateMeeting.jsx:45 | insertion keeps a list sorted and adds one entry |
| `CreateMeeting.InsertMultiset` | src/pages/CreateMeeting.jsx:45 | insertion adds the day once and keeps the rest |
| `CreateMeeting.ConsSorted` | src/pages/CreateMeeting.jsx:45 | a least value can lead a sorted list |
| `CreateMeeting.Sort` | src/pages/CreateMeeting.jsx:45 | `sort((a, b) => a - b)`; `SortSorted` and `SortedUnique` state it is the ascending permutation |
| `CreateMeeting.SortSorted` | src/pages/CreateMeeting.jsx:45 | the sort is ascending and a permutation of its input |
| `CreateMeeting.SortedFirstIsLeast` | src/pages/CreateMeeting.jsx:45 | a sorted list starts with its least value |
| `CreateMeeting.SplitFirst` | src/pages/CreateMeeting.jsx:45 | the tail of a sorted list is sorted and holds the rest |
| `CreateMeeting.SameFirst` | src/pages/CreateMeeting.jsx:45 | sorted permutations of each other start alike |
| `CreateMeeting.SortedUnique` | src/pages/CreateMeeting.jsx:45 | there is one ascending arrangement of given days, so every sorting algorithm gives it |
| `CreateMeeting.SortOfSorted` | src/pages/CreateMeeting.jsx:45 | sorting a sorted list changes nothing |
| `CreateMeeting.DistinctMultiplicity` | src/pages/CreateMeeting.jsx:43 | in a duplicate-free list a day occurs at most once |
| `CreateMeeting.InsertDistinct` | src/pages/CreateMeeting.jsx:45 | inserting an absent day keeps the list duplicate-free |
| `CreateMeeting.ToggleDate` | src/pages/CreateMeeting.jsx:40-47 | `toggleDate`; the `ToggleDate*` lemmas state its cases, the order it keeps and that it undoes itself |
| `CreateMeeting.ToggleDatePast` | src/pages/CreateMeeting.jsx:41 | a day before today leaves the list unchanged |
| `CreateMeeting.ToggleDatePresent` | src/pages/CreateMeeting.jsx:43-44 | a chosen day from today on is removed everywhere, the other days keep their counts |
| `CreateMeeting.ToggleDateAbsent` | src/pages/CreateMeeting.jsx:45 | a new day from today on is added once and the list comes out ascending; on a sorted list it is inserted in place |
| `CreateMeeting.ToggleDateKeepsOrder` | src/pages/CreateMeeting.jsx:40-47 | every toggle keeps the list sorted and duplicate-free |
| `CreateMeeting.ToggleDateTwice` | src/pages/CreateMeeting.jsx:40-47 | toggling the same day twice restores a sorted, duplicate-free list |
| `CreateMeeting.FormatDates` | src/pages/CreateMeeting.jsx:68 | one formatted date per selected day, in list order |
| `CreateMeeting.Submit` | src/pages/CreateMeeting.jsx:53-70 | `handleSubmit` up to the insert; `SubmitGuards` and `SubmitRow` state its errors and its row |
| `CreateMeeting.SubmitGuards` | src/pages/CreateMeeting.jsx:57-59 | each message is reported exactly when its check is the first to fail: blank title, then no dates, then start not before end as strings; the row is made exactly when all pass |
| `CreateMeeting.SubmitRow` | src/pages/CreateMeeting.jsx:64-70 | the row has a non-empty trimmed title, `null` for a blank description or link and the trimmed text otherwise, the formatted dates in order and the times as entered |
| `CreateMeeting.DigitCharOrder` | src/pages/CreateMeeting.jsx:59 | digit characters are ordered as their values |
| `CreateMeeting.TwoDigitsOrder` | src/pages/CreateMeeting.jsx:59 | two-digit fields compare as text as they do as numbers |
| `CreateMeeting.ClockOrder` | src/pages/CreateMeeting.jsx:59 | for zero-padded `HH:MM` the string check `startTime >= endTime` is numeric order |
| `CreateMeeting.EmptyStartAccepted` | src/pages/CreateMeeting.jsx:59 | an empty start time passes the check against any end time, though it is no time of day |
| `CreateMeeting.SubmitChecked` | src/pages/CreateMeeting.jsx:57-70 | corrected `handleSubmit`: the time guard requires two valid times; `SubmitCheckedTimes` and `SubmitCheckedAgrees` state it |
| `CreateMeeting.SubmitCheckedTimes` | src/pages/CreateMeeting.jsx:59 | corrected, the form passes only with two valid times, the start first |
| `CreateMeeting.AcceptedRangeHasSlots` | src/utils/timeSlots.js:7-35 | an accepted range gives every date of the meeting at least one slot |
| `CreateMeeting.SubmitCheckedAgrees` | src/pages/CreateMeeting.jsx:57-59 | on `HH:MM` times as a time input writes them, the corrected check decides as the original does |

## Left out

- Persistence and navigation are not modelled. This covers the Supabase insert and select, the database error message, `navigate`, `localStorage`, the clipboard and toasts. The submit model stops at the row it would insert.
- `getUtcOffsetMinutes` and `detectTimezone` depend on `Intl` and locale date parsing. The offsets are a function parameter `utcOffset` in `GridLayout.OffsetMins`.
- date-fns is not modelled. This covers `format`, `startOfWeek`, `endOfWeek`, `eachDayOfInterval`, `isSameDay`, `isBefore`, `startOfDay`, weekday and month names, and `formatSlotDate` (src/utils/timeSlots.js:51-59). Slot dates are pre-formatted `yyyy-MM-dd` texts. Calendar days are day numbers with a weekday function. `format` is a parameter of `CreateMeeting.Submit`. The conversion from day numbers to `yyyy-MM-dd` texts in `dateStrings` is not modelled.
- The opacity arithmetic and `toFixed` of `heatmapColor` (src/utils/timeSlots.js:219-220) use floating point. Only its three branches are modelled: none, green and terracotta.
- React rendering is not modelled: JSX markup, tooltips, `getCellClass`, the calendar grid of the create page and the month navigation. The drag model receives the current selection as an argument of each event and returns the set it would emit, instead of reading a React closure.
- The DOM lookup `document.elementFromPoint(...).dataset.slot` is not modelled. A touch event carries the slot as an `Option`, and `None` stands for a touch outside every cell.
- Time texts whose hour and minute fields are not plain decimal digits are not modelled.
  `ClockTime.ParseClock` reads only digit fields, and the members that read a time require it to
  succeed: `SlotGeneration.Generated` and `SlotGeneration.GenerateSlots` on both times, and
  `ClockTime.ApplyOffsetToTime` and `GridLayout.FmtTime` on their time. `SlotLabels.FormatSlotTime`,
  `FormatSlotRange`, `FormatSlotTimeOffset` and `FormatSlotRangeOffset` require the same through
  `ReadableSlot`, which also demands a time part after a space. So do the corrected
  `FormatSlotRangeWrapped` and `FormatSlotRangeOffsetWrapped`. No caller in the source passes such
  text, apart from the cleared start time of the second finding. JavaScript's `Number` is more lenient:
  - it reads `" 9"`, `"+9"`, `"1e1"`, `"0x1"` and `".5"` as numbers, and `""` as 0;
  - a missing field is `undefined`, and any other text is `NaN`;
  - a slot with no time part makes the formatters throw a `TypeError`.
- `SlotGeneration.GenerateSlots`: the `Date` branch of line 15 is modelled as identity on date texts. The date-fns round trip through `T12:00:00` is not part of this model.
- `GridLayout.ColumnsShape` requires at least one meeting date. With none, the source builds an invalid `Date` (src/components/AvailabilityGrid.jsx:39-40).
- The strings are sequences of characters. JavaScript compares UTF-16 code units, so the two agree on the digit and `:` texts compared here, not on arbitrary text.
- `SlotLabels.FormatSlotTimeOffsetShifts`, `SlotLabels.FormatSlotRangeOffsetWrappedShifts`: periodicity in the offset, e.g. offsets 0 and 1440 give the same label, is not stated as a separate lemma. These two lemmas state the label as a function of `(minute + offset) mod 1440`, which implies it.
- `MeetingView.jsx` and `ResultsView.jsx`, apart from their calls into the modelled utilities, are not part of this model.

## Findings

| source | as written | input that shows it | evidently intended | confidence | as-written member | corrected member |
|---|---|---|---|---|---|---|
| src/utils/timeSlots.js:112 | `formatSlotRange` carries into hour 24 without wrapping, so the last half hour of the day is labelled "11:30 PM – 12:00 PM". `formatSlotRangeOffset` wraps with `% 24` at line 170 for non-zero offsets. | the slot `"2025-01-15 23:30"` with offset 0, against the same slot with offset 1440 | "11:30 PM – 12:00 AM" for every offset, as line 170 does | not executed | `SlotLabels.RangeOffsetZeroDisagrees` | `SlotLabels.FormatSlotRangeOffsetWrappedShifts` |
| src/pages/CreateMeeting.jsx:59 | `startTime >= endTime` compares strings, so a cleared start input `""` is accepted, since `"" >= "17:00"` is false. The stored start time is then no time of day. `generateSlots` reads it as hour 0 with an undefined minute, so its minute never reaches 60 and its loop does not end. | title "Standup", one date, start `""`, end `"17:00"` | reject unless both are times of day and the start comes first | not executed; whether the database column accepts `""` is not part of this model | `CreateMeeting.EmptyStartAccepted` | `CreateMeeting.SubmitCheckedTimes` |
