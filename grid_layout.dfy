/**
 * The values src/components/AvailabilityGrid.jsx derives for drawing the grid: the display
 * offset, the time labels, the set of meeting dates, the time rows, the Monday-to-Sunday day
 * columns, which cells are active, and each cell's fill. Time zones' UTC offsets are a
 * parameter; day columns are day numbers, day 0 being 1970-01-01.
 */
module GridLayout {
  import opened Wrappers
  import opened JsText
  import opened ClockTime
  import opened SlotLabels
  import opened SlotGeneration
  import opened Collections
  import Heatmap
  import DragSelection

  // ---------------------------------------------------------------- the display offset

  /** `displayTimezone || meetingTimezone`: an absent or empty display zone falls back. */
  function EffectiveZone(displayZone: Option<string>, meetingZone: string): string {
    if displayZone.Some? && displayZone.value != "" then displayZone.value else meetingZone
  }

  /** `offsetMins`: minutes to add to meeting times for display, `utcOffset` giving each zone's offset. */
  function OffsetMins(displayZone: Option<string>, meetingZone: string, utcOffset: string -> int): int {
    var effective := EffectiveZone(displayZone, meetingZone);
    if effective != meetingZone then utcOffset(effective) - utcOffset(meetingZone) else 0
  }

  /**
   * The offset is zero when no display zone is given or it is the meeting's own zone, and
   * otherwise the display zone's UTC offset less the meeting zone's.
   */
  lemma OffsetMinsCases(displayZone: Option<string>, meetingZone: string, utcOffset: string -> int)
    ensures displayZone.None? || displayZone == Some("") || displayZone == Some(meetingZone)
            ==> OffsetMins(displayZone, meetingZone, utcOffset) == 0
    ensures displayZone.Some? && displayZone.value != "" && displayZone.value != meetingZone
            ==> OffsetMins(displayZone, meetingZone, utcOffset)
                == utcOffset(displayZone.value) - utcOffset(meetingZone)
  {
  }

  // ---------------------------------------------------------------- time labels

  /** `fmtTime(hhmm)`: the label of `hhmm`, shifted when the offset is not zero. */
  function FmtTime(hhmm: string, offsetMins: int): string
    requires ' ' !in hhmm && ParseClock(hhmm).Some?
  {
    SlotSplit(PlaceholderDate, hhmm);
    if offsetMins != 0 then FormatShifted(PlaceholderDate, hhmm, offsetMins)
    else FormatSlotTime(PlaceholderDate + " " + hhmm)
  }

  /** The label of a time of day is that of its minute count shifted by the offset within the day. */
  lemma FmtTimeLabel(hhmm: string, offsetMins: int)
    requires ' ' !in hhmm && ValidClock(hhmm)
    ensures FmtTime(hhmm, offsetMins) == DayLabel((ClockValue(hhmm) + offsetMins) % MinutesPerDay)
  {
    if offsetMins == 0 {
      FmtTimeUnshifted(hhmm);
    } else {
      FormatShiftedLabel(PlaceholderDate, hhmm, offsetMins);
    }
  }

  lemma FmtTimeUnshifted(hhmm: string)
    requires ' ' !in hhmm && ValidClock(hhmm)
    ensures FmtTime(hhmm, 0) == DayLabel((ClockValue(hhmm) + 0) % MinutesPerDay)
  {
    SlotSplit(PlaceholderDate, hhmm);
    ClockLabelOfMinute(hhmm);
    NoShift(ClockValue(hhmm));
  }

  /** `endTimePart`: the first two colon-separated fields of the end time, joined again. */
  function EndTimePart(endTime: string): string {
    var parts := Split(endTime, ':');
    Join(parts[..if |parts| >= 2 then 2 else |parts|], ':')
  }

  /** The end time "HH:MM", with or without a seconds field, gives "HH:MM" back. */
  lemma EndTimePartOfClock(h: nat, m: nat, seconds: string)
    requires h < 100 && m < 100
    ensures EndTimePart(Clock(h, m)) == Clock(h, m)
    ensures EndTimePart(Clock(h, m) + ":" + seconds) == Clock(h, m)
  {
    var hh, mm := TwoDigits(h), TwoDigits(m);
    DigitsNoSpace(hh);
    DigitsNoSpace(mm);
    JoinTwo(hh, mm);
    assert Clock(h, m) == hh + [':'] + mm;
    SplitAtFirst(hh, ':', mm);
    SplitNoSeparator(mm, ':');
    assert Split(Clock(h, m), ':') == [hh, mm];
    assert [hh, mm][..2] == [hh, mm];
    assert Clock(h, m) + ":" + seconds == hh + [':'] + (mm + [':'] + seconds);
    SplitAtFirst(hh, ':', mm + [':'] + seconds);
    SplitAtFirst(mm, ':', seconds);
    var parts := Split(Clock(h, m) + ":" + seconds, ':');
    assert parts == [hh] + ([mm] + Split(seconds, ':'));
    assert parts[..2] == [hh, mm];
  }

  /** Two fields joined by a colon. */
  lemma JoinTwo(a: string, b: string)
    ensures Join([a, b], ':') == a + [':'] + b
  {
    assert [a, b][1..] == [b];
  }

  // ---------------------------------------------------------------- meeting dates and time rows

  /** The date text of a slot, `s.split(' ')[0]`. */
  function DateField(slot: string): string {
    Split(slot, ' ')[0]
  }

  /** `meetingDateSet`: the dates the slots carry. */
  function MeetingDateSet(slots: seq<string>): set<string> {
    set s | s in slots :: DateField(s)
  }

  /** Every slot has a date and a time text. */
  predicate AllSplit(slots: seq<string>) {
    forall k :: 0 <= k < |slots| ==> |Split(slots[k], ' ')| >= 2
  }

  /** The time text of every slot, in order: `allSlots.map(s => s.split(' ')[1])`. */
  function TimeFields(slots: seq<string>): seq<string>
    requires AllSplit(slots)
  {
    seq(|slots|, k requires 0 <= k < |slots| && |Split(slots[k], ' ')| >= 2 => Split(slots[k], ' ')[1])
  }

  /** `timeStrings`: the time texts, once each, in order of first occurrence. */
  function TimeStrings(slots: seq<string>): seq<string>
    requires AllSplit(slots)
  {
    Dedup(TimeFields(slots))
  }

  /** The padded time texts of a run of fields. */
  function RunTimes(run: seq<(nat, nat)>): seq<string> {
    seq(|run|, k requires 0 <= k < |run| => PaddedClock(run[k].0, run[k].1))
  }

  /** One row text per pair of fields, each reading back as its fields. */
  lemma RunTimesRead(run: seq<(nat, nat)>)
    ensures |RunTimes(run)| == |run|
    ensures forall k :: 0 <= k < |run| ==> ParseClock(RunTimes(run)[k]) == Some(run[k])
  {
    forall k | 0 <= k < |run| ensures ParseClock(RunTimes(run)[k]) == Some(run[k]) {
      Pad2Value(run[k].0);
      Pad2Value(run[k].1);
      ParseTwoFields(Pad2(run[k].0), Pad2(run[k].1));
    }
  }

  /** A slot text splits into its date and its padded time. */
  lemma SlotTextFields(date: string, hm: (nat, nat))
    requires ' ' !in date
    ensures |Split(SlotText(date, hm), ' ')| == 2
    ensures DateField(SlotText(date, hm)) == date
    ensures Split(SlotText(date, hm), ' ')[1] == PaddedClock(hm.0, hm.1)
  {
    SlotTextParts(date, hm);
  }

  /** A slot of the universe is the text of one of the dates and one of the run's fields. */
  lemma {:induction false} SlotInUniverse(dates: seq<string>, run: seq<(nat, nat)>, x: string)
    requires forall d :: d in dates ==> ' ' !in d
    requires x in SlotUniverse(dates, run)
    ensures exists i, k :: 0 <= i < |dates| && 0 <= k < |run| && x == SlotText(dates[i], run[k])
    decreases |dates|
  {
    var prefix := dates[..|dates| - 1];
    if x in SlotUniverse(prefix, run) {
      SlotInUniverse(prefix, run, x);
      var i, k :| 0 <= i < |prefix| && 0 <= k < |run| && x == SlotText(prefix[i], run[k]);
      assert prefix[i] == dates[i];
    } else {
      var k :| 0 <= k < |run| && x == SlotText(dates[|dates| - 1], run[k]);
    }
  }

  /** Every slot of a universe of space-free dates splits into date and time. */
  lemma UniverseSplits(dates: seq<string>, run: seq<(nat, nat)>)
    requires forall d :: d in dates ==> ' ' !in d
    ensures AllSplit(SlotUniverse(dates, run))
  {
    var u := SlotUniverse(dates, run);
    forall k | 0 <= k < |u| ensures |Split(u[k], ' ')| >= 2 {
      assert u[k] in u;
      SlotInUniverse(dates, run, u[k]);
      var i, j :| 0 <= i < |dates| && 0 <= j < |run| && u[k] == SlotText(dates[i], run[j]);
      SlotTextFields(dates[i], run[j]);
    }
  }

  /** When each date has at least one time, the meeting dates are exactly the dates. */
  lemma MeetingDatesOfUniverse(dates: seq<string>, run: seq<(nat, nat)>, d: string)
    requires forall d :: d in dates ==> ' ' !in d
    requires |run| > 0
    ensures d in MeetingDateSet(SlotUniverse(dates, run)) <==> d in dates
  {
    var u := SlotUniverse(dates, run);
    if d in MeetingDateSet(u) {
      var s :| s in u && d == DateField(s);
      SlotUniverseDates(dates, run, s);
    }
    if d in dates {
      var i :| 0 <= i < |dates| && dates[i] == d;
      FirstSlotOfDate(dates, run, i, u);
    }
  }

  /** The first slot of the `i`-th date carries that date. */
  lemma FirstSlotOfDate(dates: seq<string>, run: seq<(nat, nat)>, i: nat, u: seq<string>)
    requires forall d :: d in dates ==> ' ' !in d
    requires |run| > 0 && i < |dates| && u == SlotUniverse(dates, run)
    ensures dates[i] in MeetingDateSet(u)
  {
    var x := SlotText(dates[i], run[0]);
    SlotAtIndex(dates, run, i, 0, u);
    SlotTextFields(dates[i], run[0]);
    assert DateField(x) == dates[i];
  }

  /** The text of the `i`-th date with the `k`-th fields is a slot of the universe. */
  lemma {:induction false} SlotAtIndex(dates: seq<string>, run: seq<(nat, nat)>, i: nat, k: nat, u: seq<string>)
    requires i < |dates| && k < |run| && u == SlotUniverse(dates, run)
    ensures SlotText(dates[i], run[k]) in u
    decreases |dates|
  {
    var prefix := dates[..|dates| - 1];
    var before := SlotUniverse(prefix, run);
    var mine := DateSlots(dates[|dates| - 1], run);
    UniverseLast(dates, run);
    if i == |dates| - 1 {
      assert mine[k] == SlotText(dates[i], run[k]);
      InConcatRight(before, mine, k);
    } else {
      SlotAtIndex(prefix, run, i, k, before);
      assert prefix[i] == dates[i];
      InConcatLeft(before, mine, SlotText(dates[i], run[k]));
    }
  }

  /** The time texts of one date's slots are the run's padded times. */
  lemma DateTimeFields(date: string, run: seq<(nat, nat)>)
    requires ' ' !in date
    ensures AllSplit(DateSlots(date, run)) && TimeFields(DateSlots(date, run)) == RunTimes(run)
  {
    var slots := DateSlots(date, run);
    forall k | 0 <= k < |slots|
      ensures |Split(slots[k], ' ')| >= 2 && Split(slots[k], ' ')[1] == PaddedClock(run[k].0, run[k].1)
    {
      SlotTextFields(date, run[k]);
    }
  }

  /** Time texts of a concatenation are the concatenation of the time texts. */
  lemma TimeFieldsConcat(xs: seq<string>, ys: seq<string>)
    requires AllSplit(xs) && AllSplit(ys)
    ensures AllSplit(xs + ys) && TimeFields(xs + ys) == TimeFields(xs) + TimeFields(ys)
  {
    var s := xs + ys;
    forall k | 0 <= k < |s| ensures |Split(s[k], ' ')| >= 2 {
      if k >= |xs| {
        assert s[k] == ys[k - |xs|];
      }
    }
  }

  /** Distinct fields give distinct padded times. */
  lemma RunTimesDistinct(run: seq<(nat, nat)>)
    requires Distinct(run)
    ensures Distinct(RunTimes(run))
  {
    var times := RunTimes(run);
    forall a, b | 0 <= a < b < |times| ensures times[a] != times[b] {
      SlotTextParts("", run[a]);
      SlotTextParts("", run[b]);
    }
  }

  /** The universe of one date more is the universe so far and that date's slots. */
  lemma UniverseLast(dates: seq<string>, run: seq<(nat, nat)>)
    requires |dates| > 0
    ensures SlotUniverse(dates, run) == SlotUniverse(dates[..|dates| - 1], run) + DateSlots(dates[|dates| - 1], run)
  {
  }

  /**
   * For at least one date, the time rows of a universe are the run's padded times, once each:
   * every date repeats the same times.
   */
  lemma {:induction false} TimeStringsOfUniverse(dates: seq<string>, run: seq<(nat, nat)>)
    requires forall d :: d in dates ==> ' ' !in d
    requires |dates| > 0 && Distinct(run)
    ensures AllSplit(SlotUniverse(dates, run)) && TimeStrings(SlotUniverse(dates, run)) == RunTimes(run)
    decreases |dates|
  {
    var prefix := dates[..|dates| - 1];
    var before := SlotUniverse(prefix, run);
    var mine := DateSlots(dates[|dates| - 1], run);
    UniverseLast(dates, run);
    UniverseSplits(prefix, run);
    DateTimeFields(dates[|dates| - 1], run);
    TimeFieldsConcat(before, mine);
    RunTimesDistinct(run);
    if |prefix| == 0 {
      assert before == [];
      assert before + mine == mine;
      DedupDistinct(RunTimes(run));
    } else {
      TimeStringsOfUniverse(prefix, run);
      DedupMembers(TimeFields(before));
      DedupAppendSeen(TimeFields(before), RunTimes(run));
    }
  }

  /**
   * For the slots `generateSlots` makes from a start before the end: the meeting dates are the
   * dates and the time rows are the times of one date, once each.
   */
  lemma GridRowsOfGenerated(dates: seq<string>, startTime: string, endTime: string,
                            h: nat, m: nat, endH: nat, endM: nat, d: string)
    requires ParseClock(startTime) == Some((h, m)) && ParseClock(endTime) == Some((endH, endM))
    requires m < 60 && endM < 60 && h * 60 + m < endH * 60 + endM
    requires |dates| > 0 && forall d :: d in dates ==> ' ' !in d
    ensures AllSplit(Generated(dates, startTime, endTime))
    ensures TimeStrings(Generated(dates, startTime, endTime)) == RunTimes(TimeRun(h, m, endH, endM))
    ensures d in MeetingDateSet(Generated(dates, startTime, endTime)) <==> d in dates
  {
    TimeRunShape(h, m, endH, endM);
    TimeRunDistinct(h, m, endH, endM);
    TimeStringsOfUniverse(dates, TimeRun(h, m, endH, endM));
    MeetingDatesOfUniverse(dates, TimeRun(h, m, endH, endM), d);
  }

  // ---------------------------------------------------------------- day columns

  /** The weekday of a day number, Monday being 0 (1970-01-01 was a Thursday). */
  function Weekday(day: int): nat {
    (day + 3) % 7
  }

  /** `startOfWeek(day, { weekStartsOn: 1 })`: the Monday on or before the day. */
  function WeekStart(day: int): int {
    day - Weekday(day)
  }

  /** `endOfWeek(day, { weekStartsOn: 1 })`: the Sunday on or after the day. */
  function WeekEnd(day: int): int {
    WeekStart(day) + 6
  }

  /** The earliest day, `sortedMeetingDates[0]`. */
  function Earliest(days: seq<int>): (d: int)
    requires |days| > 0
    ensures d in days && forall x :: x in days ==> d <= x
  {
    if |days| == 1 then days[0]
    else
      var rest := Earliest(days[1..]);
      assert forall x :: x in days ==> x == days[0] || x in days[1..];
      if days[0] <= rest then days[0] else rest
  }

  /** The latest day, `sortedMeetingDates[sortedMeetingDates.length - 1]`. */
  function Latest(days: seq<int>): (d: int)
    requires |days| > 0
    ensures d in days && forall x :: x in days ==> x <= d
  {
    if |days| == 1 then days[0]
    else
      var rest := Latest(days[1..]);
      assert forall x :: x in days ==> x == days[0] || x in days[1..];
      if days[0] >= rest then days[0] else rest
  }

  /** `dateStrings` as day numbers: every day from the first Monday to the last Sunday. */
  function Columns(days: seq<int>): seq<int>
    requires |days| > 0
  {
    var first := WeekStart(Earliest(days));
    var last := WeekEnd(Latest(days));
    seq(last - first + 1, k => first + k)
  }

  /**
   * The columns are consecutive days from a Monday to a Sunday, a whole number of weeks, cover
   * every meeting day, and start and end within the weeks of the earliest and latest days.
   */
  lemma ColumnsShape(days: seq<int>)
    requires |days| > 0
    ensures var cols := Columns(days);
      && |cols| > 0 && |cols| % 7 == 0
      && Weekday(cols[0]) == 0 && Weekday(cols[|cols| - 1]) == 6
      && (forall k :: 0 < k < |cols| ==> cols[k] == cols[k - 1] + 1)
      && (forall d :: d in days ==> d in cols)
      && Earliest(days) - 6 <= cols[0] <= Earliest(days)
      && Latest(days) <= cols[|cols| - 1] <= Latest(days) + 6
  {
    var cols := Columns(days);
    var first, last := WeekStart(Earliest(days)), WeekEnd(Latest(days));
    WeekStartIsMonday(Earliest(days));
    WeekStartIsMonday(Latest(days));
    WeeksApart(first, WeekStart(Latest(days)));
    forall d | d in days ensures d in cols {
      assert cols[d - first] == d;
    }
  }

  lemma WeekStartIsMonday(day: int)
    ensures Weekday(WeekStart(day)) == 0 && Weekday(WeekEnd(day)) == 6
    ensures day - 6 <= WeekStart(day) <= day
  {
  }

  /** Two Mondays lie a whole number of weeks apart. */
  lemma WeeksApart(a: int, b: int)
    requires Weekday(a) == 0 && Weekday(b) == 0
    ensures (b - a) % 7 == 0
  {
  }

  // ---------------------------------------------------------------- active cells

  /**
   * The slots of the cells that carry `data-slot` and handlers: a column date that is a
   * meeting date, with a time row.
   */
  function ActiveSlots(columns: seq<string>, times: seq<string>, meetingDates: set<string>): set<string> {
    set c, t | c in columns && c in meetingDates && t in times :: c + " " + t
  }

  /** The active slots of the grid drawn for the universe of `dates` and `run`. */
  function ActiveSlotsOf(columns: seq<string>, dates: seq<string>, run: seq<(nat, nat)>): set<string>
    requires AllSplit(SlotUniverse(dates, run))
  {
    var u := SlotUniverse(dates, run);
    ActiveSlots(columns, TimeStrings(u), MeetingDateSet(u))
  }

  /** A date with one of the run's times is a slot of the universe. */
  lemma DateTimeInUniverse(dates: seq<string>, run: seq<(nat, nat)>, i: nat, k: nat)
    requires i < |dates| && k < |run|
    ensures dates[i] + " " + RunTimes(run)[k] in SlotUniverse(dates, run)
  {
    SlotAtIndex(dates, run, i, k, SlotUniverse(dates, run));
    assert SlotText(dates[i], run[k]) == dates[i] + " " + RunTimes(run)[k];
  }

  /** Every active cell's slot is one of the generated slots. */
  lemma ActiveSlotsInUniverse(columns: seq<string>, dates: seq<string>, run: seq<(nat, nat)>, x: string)
    requires forall d :: d in dates ==> ' ' !in d
    requires |dates| > 0 && |run| > 0 && Distinct(run)
    requires AllSplit(SlotUniverse(dates, run)) && x in ActiveSlotsOf(columns, dates, run)
    ensures x in SlotUniverse(dates, run)
  {
    var u := SlotUniverse(dates, run);
    var times, meeting := TimeStrings(u), MeetingDateSet(u);
    var c, t :| c in columns && c in meeting && t in times && x == c + " " + t;
    TimeStringsOfUniverse(dates, run);
    MeetingDatesOfUniverse(dates, run, c);
    var i :| 0 <= i < |dates| && dates[i] == c;
    var k :| 0 <= k < |run| && RunTimes(run)[k] == t;
    DateTimeInUniverse(dates, run, i, k);
  }

  /**
   * A drag over the grid, every event naming an active cell's slot, gains and loses only
   * generated slots.
   */
  lemma DragStaysInUniverse(settings: DragSelection.Settings, state: DragSelection.DragState, selected: set<string>,
                            events: seq<DragSelection.Event<string>>, columns: seq<string>,
                            dates: seq<string>, run: seq<(nat, nat)>)
    requires forall d :: d in dates ==> ' ' !in d
    requires |dates| > 0 && |run| > 0 && Distinct(run)
    requires AllSplit(SlotUniverse(dates, run))
    requires forall i :: 0 <= i < |events| && DragSelection.EventSlot(events[i]).Some? ==>
      DragSelection.EventSlot(events[i]).value in ActiveSlotsOf(columns, dates, run)
    ensures var after := DragSelection.Run(settings, state, selected, events).1;
      && (forall x :: x in after && x !in selected ==> x in SlotUniverse(dates, run))
      && (forall x :: x in selected && x !in after ==> x in SlotUniverse(dates, run))
  {
    var active := ActiveSlotsOf(columns, dates, run);
    forall x | x in active ensures x in SlotUniverse(dates, run) {
      ActiveSlotsInUniverse(columns, dates, run, x);
    }
    DragSelection.RunChangesOnlyActive(settings, state, selected, events, active);
  }

  // ---------------------------------------------------------------- cell fill

  /** The fills `getCellStyle` chooses: none, the brand colour, the faint grey, or a heatmap colour. */
  datatype Fill = NoFill | Brand | Faint | Heat(colour: Heatmap.CellColor)

  /** `getCellStyle(slot)`. */
  function CellStyle<K(==)>(heatmap: Option<map<K, Heatmap.Entry>>, highlight: Option<set<K>>,
                            selected: set<K>, slot: K): Fill
  {
    if heatmap.Some? then
      var heat := heatmap.value;
      if highlight.Some? then
        if slot in highlight.value then Brand
        else if slot in heat && heat[slot].count > 0 then Faint
        else NoFill
      else if slot !in heat || heat[slot].count == 0 then NoFill
      else Heat(Heatmap.HeatmapColor(heat[slot].count, heat[slot].total))
    else if slot in selected then Brand
    else NoFill
  }

  /**
   * Every case of the decision: in selection mode the brand colour marks exactly the selected
   * slots; with a highlight the brand colour marks exactly the highlighted ones and the faint
   * grey the others someone marked; otherwise a cell is filled exactly when someone marked it,
   * with its heatmap colour.
   */
  lemma CellStyleCases<K>(heatmap: Option<map<K, Heatmap.Entry>>, highlight: Option<set<K>>,
                          selected: set<K>, slot: K)
    ensures var fill := CellStyle(heatmap, highlight, selected, slot);
      && (heatmap.None? ==> (fill == Brand <==> slot in selected) && (fill != Brand ==> fill == NoFill))
      && (heatmap.Some? && highlight.Some? ==>
            (fill == Brand <==> slot in highlight.value)
            && (fill == Faint <==> slot !in highlight.value && slot in heatmap.value && heatmap.value[slot].count > 0)
            && !fill.Heat?)
      && (heatmap.Some? && highlight.None? ==>
            (fill != NoFill <==> slot in heatmap.value && heatmap.value[slot].count > 0)
            && (fill != NoFill ==> fill == Heat(Heatmap.HeatmapColor(heatmap.value[slot].count, heatmap.value[slot].total))))
  {
  }

  /**
   * On a heatmap of a duplicate-free universe without a highlight, a filled cell is never
   * uncoloured, and it is green exactly when its slot is one of the best slots.
   */
  lemma HeatFillOfHeatmap<K>(u: seq<K>, rows: seq<Heatmap.Row<K>>, selected: set<K>, slot: K)
    requires Distinct(u) && slot in u
    ensures var heat := Heatmap.HeatmapOf(u, rows);
      var fill := CellStyle(Some(heat), None, selected, slot);
      && fill != Heat(Heatmap.Uncoloured)
      && (fill == Heat(Heatmap.Green) <==> slot in Heatmap.BestOf(heat, |rows|))
  {
    Heatmap.DistinctUniverseEntry(u, rows, slot);
    Heatmap.HeatmapColorOfEntry(u, rows, slot);
  }
}
