/**
 * The 12-hour labels of src/utils/timeSlots.js: `formatSlotTime`, `formatSlotRange`,
 * `formatSlotTimeOffset` and `formatSlotRangeOffset`. A slot is the text "<date> HH:MM"; the
 * formatters read its time part with `split(' ')` and `split(':').map(Number)`.
 */
module SlotLabels {
  import opened Wrappers
  import opened JsText
  import opened ClockTime

  /** The hour shown on a 12-hour clock: 0 and 12 show as 12. */
  function DisplayHour(h: nat): nat {
    if h % 12 == 0 then 12 else h % 12
  }

  /** "AM" before noon, "PM" from noon on. */
  function Period(h: nat): string {
    if h < 12 then "AM" else "PM"
  }

  /**
   * The displayed hour is between 1 and 12, is 12 exactly on the hours 0 and 12 (modulo 12),
   * and agrees with the hour modulo 12; the period is "AM" exactly before noon.
   */
  lemma DisplayHourRange(h: nat)
    ensures 1 <= DisplayHour(h) <= 12
    ensures DisplayHour(h) == 12 <==> h % 12 == 0
    ensures DisplayHour(h) % 12 == h % 12
    ensures Period(h) == "AM" <==> h < 12
    ensures Period(h) == "AM" || Period(h) == "PM"
  {
  }

  /** `${displayH}:${String(m).padStart(2, '0')} ${period}`. */
  function TimeLabel(h: nat, m: nat): string {
    DecimalString(DisplayHour(h)) + ":" + Pad2(m) + " " + Period(h)
  }

  /** The separator `formatSlotRange` puts between the two ends: space, en dash, space. */
  const RangeSeparator: string := " \U{2013} "

  /** The text `slot.split(' ')[1]` of a slot with at least one space. */
  function TimePart(slot: string): string
    requires |Split(slot, ' ')| >= 2
  {
    Split(slot, ' ')[1]
  }

  /** A slot whose time part has hour and minute fields: the slots the formatters can read. */
  predicate ReadableSlot(slot: string) {
    |Split(slot, ' ')| >= 2 && ParseClock(TimePart(slot)).Some?
  }

  /** The 12-hour label of a time text with hour and minute fields. */
  function ClockLabel(t: string): string
    requires ParseClock(t).Some?
  {
    var hm := ParseClock(t).value;
    TimeLabel(hm.0, hm.1)
  }

  /** `formatSlotTime(slot)`: the 12-hour label of the slot's time part. */
  function FormatSlotTime(slot: string): string
    requires ReadableSlot(slot)
  {
    ClockLabel(TimePart(slot))
  }

  /** A date and a time part, neither containing a space, split back into the two. */
  lemma SlotSplit(date: string, time: string)
    requires ' ' !in date && ' ' !in time
    ensures Split(date + " " + time, ' ') == [date, time]
  {
    assert date + " " + time == date + [' '] + time;
    SplitAtFirst(date, ' ', time);
    SplitNoSeparator(time, ' ');
  }

  /** The digits of a field contain no space or colon. */
  lemma DigitsNoSpace(s: string)
    requires AllDigits(s)
    ensures ' ' !in s && ':' !in s
  {
    forall i | 0 <= i < |s| ensures s[i] != ' ' && s[i] != ':' {
      assert IsDigit(s[i]);
    }
  }

  /** Two digit fields joined by a colon contain no space. */
  lemma ClockTextNoSpace(a: string, b: string)
    requires AllDigits(a) && AllDigits(b)
    ensures ' ' !in a + ":" + b
  {
    DigitsNoSpace(a);
    DigitsNoSpace(b);
  }

  /** The slot "<date> HH:MM" is readable and its time part is the clock text. */
  lemma ClockSlot(date: string, h: nat, m: nat)
    requires ' ' !in date && h < 100 && m < 100
    ensures Split(date + " " + Clock(h, m), ' ') == [date, Clock(h, m)]
    ensures ReadableSlot(date + " " + Clock(h, m))
    ensures ParseClock(TimePart(date + " " + Clock(h, m))) == Some((h, m))
  {
    ClockTextNoSpace(TwoDigits(h), TwoDigits(m));
    SlotSplit(date, Clock(h, m));
    ClockRoundTrip(h, m);
  }

  /** `formatSlotTime` of a canonical slot is the label of its hour and minute. */
  lemma FormatClockSlot(date: string, h: nat, m: nat)
    requires ' ' !in date && h < 100 && m < 100
    ensures ReadableSlot(date + " " + Clock(h, m))
    ensures FormatSlotTime(date + " " + Clock(h, m)) == TimeLabel(h, m)
  {
    ClockSlot(date, h, m);
  }

  /**
   * The shape of a label: the hour unpadded and between 1 and 12 (midnight and noon show 12),
   * the minute as two digits, and the period "AM" exactly before noon.
   */
  lemma TimeLabelShape(h: nat, m: nat)
    requires m < 100
    ensures TimeLabel(h, m) == DecimalString(DisplayHour(h)) + ":" + TwoDigits(m) + " " + Period(h)
    ensures DisplayHour(0) == 12 && DisplayHour(12) == 12 && Period(0) == "AM" && Period(12) == "PM"
    ensures |DecimalString(DisplayHour(h))| == if DisplayHour(h) < 10 then 1 else 2
  {
    Pad2Digits(m);
    DisplayHourRange(h);
    DecimalStringShape(DisplayHour(h));
  }

  /** The label splits at its colon into the display hour and "MM PERIOD". */
  lemma LabelColonSplit(h: nat, m: nat)
    requires m < 100
    ensures Split(TimeLabel(h, m), ':')
         == [DecimalString(DisplayHour(h)), TwoDigits(m) + " " + Period(h)]
  {
    var d := DecimalString(DisplayHour(h));
    var rest := TwoDigits(m) + " " + Period(h);
    TimeLabelShape(h, m);
    DecimalStringShape(DisplayHour(h));
    DigitsNoSpace(d);
    DigitsNoSpace(TwoDigits(m));
    assert ':' !in rest by {
      assert rest == TwoDigits(m) + (" " + Period(h));
    }
    assert TimeLabel(h, m) == d + [':'] + rest;
    SplitAtFirst(d, ':', rest);
    SplitNoSeparator(rest, ':');
  }

  /** On times of day, distinct hours or minutes give distinct labels. */
  lemma TimeLabelInjective(h1: nat, m1: nat, h2: nat, m2: nat)
    requires h1 < 24 && m1 < 60 && h2 < 24 && m2 < 60
    requires TimeLabel(h1, m1) == TimeLabel(h2, m2)
    ensures h1 == h2 && m1 == m2
  {
    LabelColonSplit(h1, m1);
    LabelColonSplit(h2, m2);
    DecimalRoundTrip(DisplayHour(h1));
    DecimalRoundTrip(DisplayHour(h2));
    var r1 := TwoDigits(m1) + " " + Period(h1);
    var r2 := TwoDigits(m2) + " " + Period(h2);
    assert r1 == r2;
    assert TwoDigits(m1) == r1[..2] && TwoDigits(m2) == r2[..2];
    assert Period(h1) == r1[3..] && Period(h2) == r2[3..];
    HourFromLabel(h1, h2);
  }

  /** The display hour and the period together determine the hour of the day. */
  lemma HourFromLabel(h1: nat, h2: nat)
    requires h1 < 24 && h2 < 24
    requires DisplayHour(h1) == DisplayHour(h2) && Period(h1) == Period(h2)
    ensures h1 == h2
  {
    DisplayHourRange(h1);
    DisplayHourRange(h2);
  }

  /** `String(h).padStart(2, '0') + ':' + String(m).padStart(2, '0')` for any fields. */
  function PaddedClock(h: nat, m: nat): string {
    Pad2(h) + ":" + Pad2(m)
  }

  /** A slot built from a date and padded fields is readable and reads back the fields. */
  lemma PaddedSlot(date: string, h: nat, m: nat)
    requires ' ' !in date
    ensures ReadableSlot(date + " " + PaddedClock(h, m))
    ensures ParseClock(TimePart(date + " " + PaddedClock(h, m))) == Some((h, m))
  {
    Pad2Value(h);
    Pad2Value(m);
    ClockTextNoSpace(Pad2(h), Pad2(m));
    SlotSplit(date, PaddedClock(h, m));
    ParseTwoFields(Pad2(h), Pad2(m));
  }

  /** The pieces of a split hold no separator. */
  lemma SplitPieceNoSeparator(s: string, sep: char, i: nat)
    requires i < |Split(s, sep)|
    ensures sep !in Split(s, sep)[i]
  {
    SplitJoin(s, sep);
  }

  /**
   * `formatSlotRange(slot)`: the label of the slot's time, the separator, and the label of the
   * time 30 minutes later, the later time written back into a slot with the same date part.
   */
  function FormatSlotRange(slot: string): string
    requires ReadableSlot(slot)
  {
    var hm := ParseClock(TimePart(slot)).value;
    var e := HalfHourLater(hm.0, hm.1);
    var datePart := Split(slot, ' ')[0];
    SplitPieceNoSeparator(slot, ' ', 0);
    PaddedSlot(datePart, e.0, e.1);
    FormatSlotTime(slot) + RangeSeparator + FormatSlotTime(datePart + " " + PaddedClock(e.0, e.1))
  }

  /** `formatSlotRange` is the label of the start and the label of the unwrapped end. */
  lemma FormatSlotRangeLabels(slot: string)
    requires ReadableSlot(slot)
    ensures FormatSlotRange(slot)
         == TimeLabel(ParseClock(TimePart(slot)).value.0, ParseClock(TimePart(slot)).value.1)
            + RangeSeparator
            + TimeLabel(HalfHourLater(ParseClock(TimePart(slot)).value.0, ParseClock(TimePart(slot)).value.1).0,
                        HalfHourLater(ParseClock(TimePart(slot)).value.0, ParseClock(TimePart(slot)).value.1).1)
  {
    var hm := ParseClock(TimePart(slot)).value;
    var e := HalfHourLater(hm.0, hm.1);
    SplitPieceNoSeparator(slot, ' ', 0);
    PaddedSlot(Split(slot, ' ')[0], e.0, e.1);
  }

  /** The label of a minute of the day. */
  function DayLabel(t: nat): string
    requires t < MinutesPerDay
  {
    TimeLabel(t / 60, t % 60)
  }

  /** The range label intended for the slot starting at minute `t`: up to `t + 30` within the day. */
  function IntendedRange(t: nat): string
    requires t < MinutesPerDay
  {
    DayLabel(t) + RangeSeparator + DayLabel((t + 30) % MinutesPerDay)
  }

  /** The offset-free range of a canonical slot ends at the wrapped time, except from 23:30 on. */
  lemma FormatSlotRangeBeforeLastHalfHour(date: string, h: nat, m: nat)
    requires ' ' !in date && h < 24 && m < 60 && h * 60 + m < 1410
    ensures ReadableSlot(date + " " + Clock(h, m))
    ensures h * 60 + m < MinutesPerDay
    ensures FormatSlotRange(date + " " + Clock(h, m)) == IntendedRange(h * 60 + m)
  {
    ClockSlot(date, h, m);
    FormatSlotRangeLabels(date + " " + Clock(h, m));
    RangeEndArithmetic(h, m);
  }

  /** The unwrapped end of a time before 23:30 is the wrapped end. */
  lemma RangeEndArithmetic(h: nat, m: nat)
    requires h < 24 && m < 60 && h * 60 + m < 1410
    ensures var e := (h * 60 + m + 30) % MinutesPerDay;
      HalfHourLater(h, m) == (e / 60, e % 60) && (h * 60 + m) / 60 == h && (h * 60 + m) % 60 == m
  {
  }

  /** From 23:30 on, the end is hour 24, which `formatSlotTime` renders as noon. */
  lemma FormatSlotRangeLastHalfHour(date: string, m: nat)
    requires ' ' !in date && 30 <= m < 60
    ensures ReadableSlot(date + " " + Clock(23, m))
    ensures FormatSlotRange(date + " " + Clock(23, m))
         == TimeLabel(23, m) + RangeSeparator + TimeLabel(24, m - 30)
  {
    ClockSlot(date, 23, m);
    FormatSlotRangeLabels(date + " " + Clock(23, m));
  }

  /** Hour 24 and hour 0 differ only in the period, so their labels differ. */
  lemma NoonIsNotMidnight(m: nat)
    ensures TimeLabel(24, m) != TimeLabel(0, m)
  {
    var a, b := TimeLabel(24, m), TimeLabel(0, m);
    var prefix := DecimalString(12) + ":" + Pad2(m) + " ";
    assert a == prefix + "PM" && b == prefix + "AM";
    assert a[|prefix|] == 'P' && b[|prefix|] == 'A';
  }

  /** The wrapped end of any time of day is the time 30 minutes later, modulo a day. */
  lemma WrappedEndArithmetic(h: nat, m: nat)
    requires h < 24 && m < 60
    ensures var e := (h * 60 + m + 30) % MinutesPerDay;
      (HalfHourLater(h, m).0 % 24, HalfHourLater(h, m).1) == (e / 60, e % 60)
      && (h * 60 + m) / 60 == h && (h * 60 + m) % 60 == m
  {
  }

  /**
   * The label of the end of the range starting at `h:m`: 30 minutes later with the hour wrapped
   * modulo 24, written back into a slot dated `date`.
   */
  function WrappedEndLabel(date: string, h: nat, m: nat): string
    requires ' ' !in date
  {
    var e := HalfHourLater(h, m);
    PaddedSlot(date, e.0 % 24, e.1);
    FormatSlotTime(date + " " + PaddedClock(e.0 % 24, e.1))
  }

  /** The wrapped end of the range starting at minute `n` is labelled with minute `n + 30` of the day. */
  lemma WrappedEndLabelOfMinute(date: string, n: nat)
    requires ' ' !in date && n < MinutesPerDay
    ensures WrappedEndLabel(date, n / 60, n % 60) == DayLabel((n + 30) % MinutesPerDay)
  {
    var e := HalfHourLater(n / 60, n % 60);
    WrappedEndArithmetic(n / 60, n % 60);
    DayDivMod(n);
    PaddedSlot(date, e.0 % 24, e.1);
  }

  /** Two labels joined by the separator, when they are the ends of the range from minute `n`. */
  lemma RangeOfLabels(n: nat, start: string, end: string)
    requires n < MinutesPerDay && start == DayLabel(n) && end == DayLabel((n + 30) % MinutesPerDay)
    ensures start + RangeSeparator + end == IntendedRange(n)
  {
  }

  /**
   * The corrected range label: the end hour wraps modulo 24 as `formatSlotRangeOffset` does,
   * so the last half hour of the day ends at midnight.
   */
  function FormatSlotRangeWrapped(slot: string): string
    requires ReadableSlot(slot)
  {
    var hm := ParseClock(TimePart(slot)).value;
    SplitPieceNoSeparator(slot, ' ', 0);
    FormatSlotTime(slot) + RangeSeparator + WrappedEndLabel(Split(slot, ' ')[0], hm.0, hm.1)
  }

  /** A valid time is labelled as its minute count is. */
  lemma ClockLabelOfMinute(t: string)
    requires ValidClock(t)
    ensures ClockValue(t) < MinutesPerDay && ClockLabel(t) == DayLabel(ClockValue(t))
  {
    var hm := ParseClock(t).value;
    MinuteFields(hm.0, hm.1, ClockValue(t));
  }

  /** The label of a slot whose time part `t` is a valid time is the label of its minute count. */
  lemma FormatSlotTimeUnshifted(slot: string, t: string)
    requires ReadableSlot(slot) && t == TimePart(slot) && ValidClock(t)
    ensures ClockValue(t) < MinutesPerDay && FormatSlotTime(slot) == DayLabel(ClockValue(t))
  {
    ClockLabelOfMinute(t);
  }

  /** A slot whose time part `t` is a valid time: the hour and minute recovered from its count. */
  lemma ValidTimeFields(slot: string, t: string)
    requires ReadableSlot(slot) && t == TimePart(slot) && ValidClock(t)
    ensures ClockValue(t) < MinutesPerDay
    ensures ParseClock(TimePart(slot)).value == (ClockValue(t) / 60, ClockValue(t) % 60)
  {
  }

  /** The corrected range of a slot at a valid time is the intended range of its minute count. */
  lemma FormatSlotRangeWrappedIntended(slot: string, t: string)
    requires ReadableSlot(slot) && t == TimePart(slot) && ValidClock(t)
    ensures ClockValue(t) < MinutesPerDay
    ensures FormatSlotRangeWrapped(slot) == IntendedRange(ClockValue(t))
  {
    var n := ClockValue(t);
    var date := Split(slot, ' ')[0];
    SplitPieceNoSeparator(slot, ' ', 0);
    ValidTimeFields(slot, t);
    FormatSlotTimeUnshifted(slot, t);
    WrappedEndLabelOfMinute(date, n);
    RangeOfLabels(n, FormatSlotTime(slot), WrappedEndLabel(date, n / 60, n % 60));
  }

  /** A slot holding the canonical text of a minute of the day is labelled with that minute. */
  lemma DayClockSlot(date: string, n: nat)
    requires ' ' !in date && n < MinutesPerDay
    ensures ParseClock(ClockOf(n)) == Some((n / 60, n % 60))
    ensures ReadableSlot(date + " " + ClockOf(n))
    ensures ParseClock(TimePart(date + " " + ClockOf(n))) == Some((n / 60, n % 60))
    ensures FormatSlotTime(date + " " + ClockOf(n)) == DayLabel(n)
  {
    DayDivMod(n);
    ClockRoundTrip(n / 60, n % 60);
    ClockSlot(date, n / 60, n % 60);
  }

  /** The date `formatSlotTimeOffset` and `formatSlotRangeOffset` give a shifted time. */
  const PlaceholderDate: string := "2000-01-01"

  /** `formatSlotTime(date + ' ' + applyOffsetToTime(timeStr, offsetMins))`. */
  function FormatShifted(date: string, timeStr: string, offsetMins: int): string
    requires ' ' !in date && ParseClock(timeStr).Some?
  {
    DayClockSlot(date, (ClockValue(timeStr) + offsetMins) % MinutesPerDay);
    FormatSlotTime(date + " " + ApplyOffsetToTime(timeStr, offsetMins))
  }

  /** The shifted label is the label of the wrapped minute count. */
  lemma FormatShiftedLabel(date: string, timeStr: string, offsetMins: int)
    requires ' ' !in date && ParseClock(timeStr).Some?
    ensures FormatShifted(date, timeStr, offsetMins)
         == DayLabel((ClockValue(timeStr) + offsetMins) % MinutesPerDay)
  {
    DayClockSlot(date, (ClockValue(timeStr) + offsetMins) % MinutesPerDay);
  }

  /**
   * `formatSlotTimeOffset(slot, offsetMins)`: with a zero offset the plain label; otherwise the
   * label of the shifted time part, placed in a slot dated 2000-01-01.
   */
  function FormatSlotTimeOffset(slot: string, offsetMins: int): string
    requires ReadableSlot(slot)
  {
    if offsetMins == 0 then FormatSlotTime(slot)
    else FormatShifted(PlaceholderDate, TimePart(slot), offsetMins)
  }

  /**
   * With any offset, a slot whose time part `t` is a valid time is labelled with `t` shifted by
   * the offset within the day.
   */
  lemma FormatSlotTimeOffsetShifts(slot: string, t: string, offsetMins: int)
    requires ReadableSlot(slot) && t == TimePart(slot) && ValidClock(t)
    ensures FormatSlotTimeOffset(slot, offsetMins)
         == DayLabel((ClockValue(t) + offsetMins) % MinutesPerDay)
  {
    if offsetMins == 0 {
      FormatSlotTimeOffsetZero(slot, t);
    } else {
      FormatSlotTimeOffsetNonzero(slot, t, offsetMins);
    }
  }

  lemma FormatSlotTimeOffsetZero(slot: string, t: string)
    requires ReadableSlot(slot) && t == TimePart(slot) && ValidClock(t)
    ensures FormatSlotTimeOffset(slot, 0) == DayLabel((ClockValue(t) + 0) % MinutesPerDay)
  {
    FormatSlotTimeOffsetPlain(slot);
    FormatSlotTimeUnshifted(slot, t);
    NoShift(ClockValue(t));
  }

  /** A zero offset gives the plain label. */
  lemma FormatSlotTimeOffsetPlain(slot: string)
    requires ReadableSlot(slot)
    ensures FormatSlotTimeOffset(slot, 0) == FormatSlotTime(slot)
  {
  }

  /** A minute of the day shifted by nothing stays put. */
  lemma NoShift(v: int)
    requires 0 <= v < MinutesPerDay
    ensures (v + 0) % MinutesPerDay == v
  {
  }

  lemma FormatSlotTimeOffsetNonzero(slot: string, t: string, offsetMins: int)
    requires ReadableSlot(slot) && t == TimePart(slot) && offsetMins != 0
    ensures FormatSlotTimeOffset(slot, offsetMins)
         == DayLabel((ClockValue(t) + offsetMins) % MinutesPerDay)
  {
    FormatShiftedLabel(PlaceholderDate, t, offsetMins);
  }

  /**
   * The range `formatSlotRangeOffset` builds for a non-zero offset: the shifted start and 30
   * minutes later, the end hour wrapping modulo 24, both placed in slots dated `date`.
   */
  function FormatShiftedRange(date: string, timeStr: string, offsetMins: int): string
    requires ' ' !in date && ParseClock(timeStr).Some?
  {
    ApplyOffsetFields(timeStr, offsetMins);
    var adj := ParseClock(ApplyOffsetToTime(timeStr, offsetMins)).value;
    FormatShifted(date, timeStr, offsetMins) + RangeSeparator + WrappedEndLabel(date, adj.0, adj.1)
  }

  /** The shifted range joins the shifted start and the wrapped end of the wrapped minute count. */
  lemma FormatShiftedRangeParts(date: string, timeStr: string, offsetMins: int)
    requires ' ' !in date && ParseClock(timeStr).Some?
    ensures var n := (ClockValue(timeStr) + offsetMins) % MinutesPerDay;
      FormatShiftedRange(date, timeStr, offsetMins)
         == FormatShifted(date, timeStr, offsetMins) + RangeSeparator + WrappedEndLabel(date, n / 60, n % 60)
  {
    ApplyOffsetFields(timeStr, offsetMins);
  }

  /** The shifted range is the intended range of the wrapped minute count. */
  lemma FormatShiftedRangeLabel(date: string, timeStr: string, offsetMins: int)
    requires ' ' !in date && ParseClock(timeStr).Some?
    ensures FormatShiftedRange(date, timeStr, offsetMins)
         == IntendedRange((ClockValue(timeStr) + offsetMins) % MinutesPerDay)
  {
    var n := (ClockValue(timeStr) + offsetMins) % MinutesPerDay;
    FormatShiftedRangeParts(date, timeStr, offsetMins);
    FormatShiftedLabel(date, timeStr, offsetMins);
    WrappedEndLabelOfMinute(date, n);
    RangeOfLabels(n, FormatShifted(date, timeStr, offsetMins), WrappedEndLabel(date, n / 60, n % 60));
  }

  /**
   * `formatSlotRangeOffset(slot, offsetMins)`: with a zero offset `formatSlotRange`; otherwise the
   * shifted range, placed in slots dated 2000-01-01.
   */
  function FormatSlotRangeOffset(slot: string, offsetMins: int): string
    requires ReadableSlot(slot)
  {
    if offsetMins == 0 then FormatSlotRange(slot)
    else FormatShiftedRange(PlaceholderDate, TimePart(slot), offsetMins)
  }

  /** With a non-zero offset, the range is the intended range of the shifted time part `t`. */
  lemma FormatSlotRangeOffsetShifts(slot: string, t: string, offsetMins: int)
    requires ReadableSlot(slot) && t == TimePart(slot) && offsetMins != 0
    ensures FormatSlotRangeOffset(slot, offsetMins)
         == IntendedRange((ClockValue(t) + offsetMins) % MinutesPerDay)
  {
    FormatShiftedRangeLabel(PlaceholderDate, t, offsetMins);
  }

  /** A zero offset gives `formatSlotRange`. */
  lemma FormatSlotRangeOffsetZero(slot: string)
    requires ReadableSlot(slot)
    ensures FormatSlotRangeOffset(slot, 0) == FormatSlotRange(slot)
  {
  }

  /**
   * As written, a zero offset and a whole-day offset disagree on the slot at 23:30: the first
   * ends at "12:00 PM", the second at "12:00 AM".
   */
  lemma RangeOffsetZeroDisagrees(date: string)
    requires ' ' !in date
    ensures ReadableSlot(date + " " + Clock(23, 30))
    ensures FormatSlotRangeOffset(date + " " + Clock(23, 30), 0)
         != FormatSlotRangeOffset(date + " " + Clock(23, 30), MinutesPerDay)
  {
    var slot := date + " " + Clock(23, 30);
    ClockSlot(date, 23, 30);
    var p := TimeLabel(23, 30) + RangeSeparator;
    FormatSlotRangeLastHalfHour(date, 30);
    var x := FormatSlotRangeOffset(slot, 0);
    assert x == p + TimeLabel(24, 0);
    FormatSlotRangeOffsetShifts(slot, Clock(23, 30), MinutesPerDay);
    var y := FormatSlotRangeOffset(slot, MinutesPerDay);
    LastHalfHourWrapped();
    assert y == p + TimeLabel(0, 0);
    NoonIsNotMidnight(0);
    SuffixDiffers(p, TimeLabel(24, 0), TimeLabel(0, 0));
  }

  /** The slot at 23:30, moved by a whole day, starts at minute 1410 and ends at midnight. */
  lemma LastHalfHourWrapped()
    ensures (23 * 60 + 30 + MinutesPerDay) % MinutesPerDay == 1410
    ensures IntendedRange(1410) == TimeLabel(23, 30) + RangeSeparator + TimeLabel(0, 0)
  {
    assert 1410 / 60 == 23 && 1410 % 60 == 30 && (1410 + 30) % MinutesPerDay == 0;
  }

  lemma SuffixDiffers(p: string, x: string, y: string)
    requires x != y
    ensures p + x != p + y
  {
    assert (p + x)[|p|..] == x && (p + y)[|p|..] == y;
  }

  /** The corrected offset range: the wrapped range when the offset is zero. */
  function FormatSlotRangeOffsetWrapped(slot: string, offsetMins: int): string
    requires ReadableSlot(slot)
  {
    if offsetMins == 0 then FormatSlotRangeWrapped(slot)
    else FormatShiftedRange(PlaceholderDate, TimePart(slot), offsetMins)
  }

  /**
   * Corrected, every offset labels a slot at a valid time `t` with the intended range of `t`
   * shifted within the day.
   */
  lemma FormatSlotRangeOffsetWrappedShifts(slot: string, t: string, offsetMins: int)
    requires ReadableSlot(slot) && t == TimePart(slot) && ValidClock(t)
    ensures FormatSlotRangeOffsetWrapped(slot, offsetMins)
         == IntendedRange((ClockValue(t) + offsetMins) % MinutesPerDay)
  {
    if offsetMins == 0 {
      FormatSlotRangeOffsetWrappedZero(slot, t);
    } else {
      FormatSlotRangeOffsetWrappedNonzero(slot, t, offsetMins);
    }
  }

  lemma FormatSlotRangeOffsetWrappedZero(slot: string, t: string)
    requires ReadableSlot(slot) && t == TimePart(slot) && ValidClock(t)
    ensures FormatSlotRangeOffsetWrapped(slot, 0) == IntendedRange((ClockValue(t) + 0) % MinutesPerDay)
  {
    FormatSlotRangeOffsetWrappedPlain(slot);
    FormatSlotRangeWrappedIntended(slot, t);
    NoShift(ClockValue(t));
  }

  /** Corrected, a zero offset gives the wrapped range. */
  lemma FormatSlotRangeOffsetWrappedPlain(slot: string)
    requires ReadableSlot(slot)
    ensures FormatSlotRangeOffsetWrapped(slot, 0) == FormatSlotRangeWrapped(slot)
  {
  }

  lemma FormatSlotRangeOffsetWrappedNonzero(slot: string, t: string, offsetMins: int)
    requires ReadableSlot(slot) && t == TimePart(slot) && offsetMins != 0
    ensures FormatSlotRangeOffsetWrapped(slot, offsetMins)
         == IntendedRange((ClockValue(t) + offsetMins) % MinutesPerDay)
  {
    FormatShiftedRangeLabel(PlaceholderDate, t, offsetMins);
  }
}
