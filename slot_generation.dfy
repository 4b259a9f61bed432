/**
 * `generateSlots(dates, startTime, endTime)` of src/utils/timeSlots.js: for each date in turn,
 * every half-hour slot "<date> HH:MM" from the start time up to, and not including, the end
 * time. Dates are the "yyyy-MM-dd" texts the date formatter would print; times are read with
 * `split(':').map(Number)`, so a seconds field is ignored.
 */
module SlotGeneration {
  import opened Wrappers
  import opened JsText
  import opened ClockTime
  import opened SlotLabels
  import opened Collections

  /** The loop guard `h < endH || (h === endH && m < endM)`. */
  predicate Before(h: nat, m: nat, endH: nat, endM: nat) {
    h < endH || (h == endH && m < endM)
  }

  /** The number of loop steps still possible: at most two per hour up to `endH`. */
  function Remaining(h: nat, m: nat, endH: nat): nat {
    if h <= endH then 2 * (endH + 1 - h) + (if m < 30 then 1 else 0) else 0
  }

  /** The hour and minute fields the loop of one date visits, starting from (`h`, `m`). */
  function TimeRun(h: nat, m: nat, endH: nat, endM: nat): seq<(nat, nat)>
    decreases Remaining(h, m, endH)
  {
    if Before(h, m, endH, endM) then
      var next := HalfHourLater(h, m);
      [(h, m)] + TimeRun(next.0, next.1, endH, endM)
    else
      []
  }

  /** The minute count `h * 60 + m` of a pair of fields. */
  function Minutes(hm: (nat, nat)): nat {
    hm.0 * 60 + hm.1
  }

  /** The number of slots from minute `s` up to minute `e`: the ceiling of `(e - s) / 30`. */
  function HalfHourCount(s: nat, e: nat): nat {
    if s < e then (e - s + 29) / 30 else 0
  }

  /** `${dateStr} ${hh}:${mm}` with both fields padded to two digits. */
  function SlotText(date: string, hm: (nat, nat)): string {
    date + " " + PaddedClock(hm.0, hm.1)
  }

  /** The slots one date contributes, in the order the loop pushes them. */
  function DateSlots(date: string, run: seq<(nat, nat)>): seq<string> {
    seq(|run|, k requires 0 <= k < |run| => SlotText(date, run[k]))
  }

  /** The slots of all dates, date after date. */
  function SlotUniverse(dates: seq<string>, run: seq<(nat, nat)>): seq<string>
    decreases |dates|
  {
    if |dates| == 0 then []
    else SlotUniverse(dates[..|dates| - 1], run) + DateSlots(dates[|dates| - 1], run)
  }

  /** What `generateSlots(dates, startTime, endTime)` returns. */
  function Generated(dates: seq<string>, startTime: string, endTime: string): seq<string>
    requires ParseClock(startTime).Some? && ParseClock(endTime).Some?
  {
    var s := ParseClock(startTime).value;
    var e := ParseClock(endTime).value;
    SlotUniverse(dates, TimeRun(s.0, s.1, e.0, e.1))
  }

  /** `generateSlots`: a loop over the dates, and for each the loop over its half hours. */
  method GenerateSlots(dates: seq<string>, startTime: string, endTime: string) returns (slots: seq<string>)
    requires ParseClock(startTime).Some? && ParseClock(endTime).Some?
    ensures slots == Generated(dates, startTime, endTime)
  {
    var start := ParseClock(startTime).value;
    var end := ParseClock(endTime).value;
    ghost var run := TimeRun(start.0, start.1, end.0, end.1);
    slots := [];
    for i := 0 to |dates|
      invariant slots == SlotUniverse(dates[..i], run)
    {
      slots := PushDateSlots(slots, dates[i], start, end);
      UniverseStep(dates, i, run);
    }
    assert dates[..|dates|] == dates;
  }

  /** The inner loop of `generateSlots`: pushes the slots of one date onto `slots`. */
  method PushDateSlots(slots: seq<string>, date: string, start: (nat, nat), end: (nat, nat))
    returns (pushed: seq<string>)
    ensures pushed == slots + DateSlots(date, TimeRun(start.0, start.1, end.0, end.1))
  {
    ghost var run := TimeRun(start.0, start.1, end.0, end.1);
    pushed := slots;
    var h: nat, m: nat := start.0, start.1;
    ghost var done: seq<(nat, nat)> := [];
    while h < end.0 || (h == end.0 && m < end.1)
      invariant run == done + TimeRun(h, m, end.0, end.1)
      invariant pushed == slots + DateSlots(date, done)
      decreases Remaining(h, m, end.0)
    {
      var slot := date + " " + Pad2(h) + ":" + Pad2(m);
      DateSlotsPush(date, done, (h, m), slot);
      RunStep(h, m, end.0, end.1, done);
      pushed := pushed + [slot];
      done := done + [(h, m)];
      m := m + 30;
      if m >= 60 {
        m := m - 60;
        h := h + 1;
      }
    }
    assert done == run;
  }

  /** The universe of one date more. */
  lemma UniverseStep(dates: seq<string>, i: nat, run: seq<(nat, nat)>)
    requires i < |dates|
    ensures SlotUniverse(dates[..i + 1], run) == SlotUniverse(dates[..i], run) + DateSlots(dates[i], run)
  {
    assert dates[..i + 1][..i] == dates[..i];
  }

  /** One step of the loop moves one pair of fields from the rest of the run to the done part. */
  lemma RunStep(h: nat, m: nat, endH: nat, endM: nat, done: seq<(nat, nat)>)
    requires Before(h, m, endH, endM)
    ensures var next := HalfHourLater(h, m);
      done + TimeRun(h, m, endH, endM) == (done + [(h, m)]) + TimeRun(next.0, next.1, endH, endM)
  {
  }

  /** Pushing one more slot onto a date's list. */
  lemma DateSlotsPush(date: string, done: seq<(nat, nat)>, hm: (nat, nat), slot: string)
    requires slot == date + " " + Pad2(hm.0) + ":" + Pad2(hm.1)
    ensures DateSlots(date, done + [hm]) == DateSlots(date, done) + [slot]
  {
    assert slot == SlotText(date, hm);
    var l, r := DateSlots(date, done + [hm]), DateSlots(date, done) + [slot];
    assert |l| == |r|;
    forall k | 0 <= k < |l| ensures l[k] == r[k] {
      if k < |done| {
        assert (done + [hm])[k] == done[k];
      }
    }
  }

  /** With minute fields below 60, the loop guard is the order of minute counts. */
  lemma BeforeIsEarlier(h: nat, m: nat, endH: nat, endM: nat)
    requires m < 60 && endM < 60
    ensures Before(h, m, endH, endM) <==> h * 60 + m < endH * 60 + endM
  {
  }

  /**
   * From a start below an end (minute fields below 60), the loop visits the minute counts
   * start, start + 30, start + 60, ... while they are below the end: ceil((end - start) / 30)
   * of them, each with a minute field below 60; from a start at or after the end it visits none.
   */
  lemma {:induction false} TimeRunShape(h: nat, m: nat, endH: nat, endM: nat)
    requires m < 60 && endM < 60
    ensures var run := TimeRun(h, m, endH, endM);
      && |run| == HalfHourCount(h * 60 + m, endH * 60 + endM)
      && forall k :: 0 <= k < |run| ==>
           run[k].1 < 60 && Minutes(run[k]) == h * 60 + m + 30 * k && Minutes(run[k]) < endH * 60 + endM
    decreases Remaining(h, m, endH)
  {
    var run := TimeRun(h, m, endH, endM);
    var s, e := h * 60 + m, endH * 60 + endM;
    BeforeIsEarlier(h, m, endH, endM);
    if s < e {
      var next := HalfHourLater(h, m);
      HalfHourLaterMinutes(h, m);
      TimeRunShape(next.0, next.1, endH, endM);
      var rest := TimeRun(next.0, next.1, endH, endM);
      assert run == [(h, m)] + rest;
      CountStep(s, e);
      forall k | 0 <= k < |run|
        ensures run[k].1 < 60 && Minutes(run[k]) == s + 30 * k && Minutes(run[k]) < e
      {
        if k > 0 {
          assert run[k] == rest[k - 1];
        }
      }
    }
  }

  /** One slot more than the count from half an hour later. */
  lemma CountStep(s: nat, e: nat)
    requires s < e
    ensures HalfHourCount(s, e) == 1 + HalfHourCount(s + 30, e)
  {
  }

  /** Within a date the times strictly increase. */
  lemma TimeRunIncreasing(h: nat, m: nat, endH: nat, endM: nat, j: nat, k: nat)
    requires m < 60 && endM < 60
    requires j < k < |TimeRun(h, m, endH, endM)|
    ensures Minutes(TimeRun(h, m, endH, endM)[j]) < Minutes(TimeRun(h, m, endH, endM)[k])
  {
    TimeRunShape(h, m, endH, endM);
  }

  /** A run with minute fields below 60 whose minute counts strictly increase has no repeats. */
  lemma TimeRunDistinct(h: nat, m: nat, endH: nat, endM: nat)
    requires m < 60 && endM < 60
    ensures Distinct(TimeRun(h, m, endH, endM))
  {
    var run := TimeRun(h, m, endH, endM);
    TimeRunShape(h, m, endH, endM);
    forall a, b | 0 <= a < b < |run| ensures run[a] != run[b] {
      assert Minutes(run[a]) < Minutes(run[b]);
    }
  }

  /** Every date contributes the same number of slots. */
  lemma {:induction false} SlotUniverseLength(dates: seq<string>, run: seq<(nat, nat)>)
    ensures |SlotUniverse(dates, run)| == |dates| * |run|
    decreases |dates|
  {
    if |dates| > 0 {
      SlotUniverseLength(dates[..|dates| - 1], run);
      assert |dates| * |run| == (|dates| - 1) * |run| + |run|;
    }
  }

  /** Slot number `i * |run| + k` is the `k`-th time of the `i`-th date: the output is grouped by date. */
  lemma {:induction false} SlotUniverseIndex(dates: seq<string>, run: seq<(nat, nat)>, i: nat, k: nat)
    requires i < |dates| && k < |run|
    ensures i * |run| + k < |SlotUniverse(dates, run)|
    ensures SlotUniverse(dates, run)[i * |run| + k] == SlotText(dates[i], run[k])
    decreases |dates|
  {
    var n := |run|;
    var prefix := dates[..|dates| - 1];
    SlotUniverseLength(dates, run);
    SlotUniverseLength(prefix, run);
    if i < |dates| - 1 {
      SlotUniverseIndex(prefix, run, i, k);
      MulBelow(i, k, n, |dates| - 1);
    } else {
      assert i * n + k == |prefix| * n + k;
    }
  }

  /** `i * n + k` stays below `d * n` when `i < d` and `k < n`. */
  lemma MulBelow(i: nat, k: nat, n: nat, d: nat)
    requires i < d && k < n
    ensures i * n + k < d * n
  {
    assert (i + 1) * n <= d * n;
  }

  /** The text of a slot splits into its date and its padded time, which reads back as the fields. */
  lemma SlotTextParts(date: string, hm: (nat, nat))
    requires ' ' !in date
    ensures Split(SlotText(date, hm), ' ') == [date, PaddedClock(hm.0, hm.1)]
    ensures ParseClock(PaddedClock(hm.0, hm.1)) == Some(hm)
  {
    Pad2Value(hm.0);
    Pad2Value(hm.1);
    ClockTextNoSpace(Pad2(hm.0), Pad2(hm.1));
    SlotSplit(date, PaddedClock(hm.0, hm.1));
    ParseTwoFields(Pad2(hm.0), Pad2(hm.1));
  }

  /** Each slot of a space-free date splits into that date and a time that reads back as its fields. */
  lemma DateSlotsRead(date: string, run: seq<(nat, nat)>)
    requires ' ' !in date
    ensures |DateSlots(date, run)| == |run|
    ensures forall k :: 0 <= k < |run| ==>
      Split(DateSlots(date, run)[k], ' ') == [date, PaddedClock(run[k].0, run[k].1)] &&
      ParseClock(PaddedClock(run[k].0, run[k].1)) == Some(run[k])
  {
    forall k | 0 <= k < |run|
      ensures Split(DateSlots(date, run)[k], ' ') == [date, PaddedClock(run[k].0, run[k].1)]
      ensures ParseClock(PaddedClock(run[k].0, run[k].1)) == Some(run[k])
    {
      SlotTextParts(date, run[k]);
    }
  }

  /** Slot texts of space-free dates are one-to-one in the date and the fields. */
  lemma SlotTextInjective(d1: string, p1: (nat, nat), d2: string, p2: (nat, nat))
    requires ' ' !in d1 && ' ' !in d2 && SlotText(d1, p1) == SlotText(d2, p2)
    ensures d1 == d2 && p1 == p2
  {
    SlotTextParts(d1, p1);
    SlotTextParts(d2, p2);
  }

  /** Every slot of the universe carries one of the dates. */
  lemma {:induction false} SlotUniverseDates(dates: seq<string>, run: seq<(nat, nat)>, x: string)
    requires forall d :: d in dates ==> ' ' !in d
    requires x in SlotUniverse(dates, run)
    ensures Split(x, ' ')[0] in dates
    decreases |dates|
  {
    var prefix := dates[..|dates| - 1];
    var last := dates[|dates| - 1];
    if x in SlotUniverse(prefix, run) {
      SlotUniverseDates(prefix, run, x);
    } else {
      var k :| 0 <= k < |run| && x == SlotText(last, run[k]);
      SlotTextParts(last, run[k]);
    }
  }

  /** A date's slots repeat no value when its run repeats no fields. */
  lemma DateSlotsDistinct(date: string, run: seq<(nat, nat)>)
    requires ' ' !in date && Distinct(run)
    ensures Distinct(DateSlots(date, run))
  {
    var slots := DateSlots(date, run);
    forall a, b | 0 <= a < b < |slots| ensures slots[a] != slots[b] {
      if slots[a] == slots[b] {
        SlotTextInjective(date, run[a], date, run[b]);
      }
    }
  }

  /** Distinct space-free dates and a repeat-free run give a duplicate-free universe. */
  lemma {:induction false} SlotUniverseDistinct(dates: seq<string>, run: seq<(nat, nat)>)
    requires forall d :: d in dates ==> ' ' !in d
    requires Distinct(dates) && Distinct(run)
    ensures Distinct(SlotUniverse(dates, run))
    decreases |dates|
  {
    if |dates| > 0 {
      var prefix := dates[..|dates| - 1];
      var last := dates[|dates| - 1];
      assert last !in prefix;
      SlotUniverseDistinct(prefix, run);
      DateSlotsDistinct(last, run);
      forall y | y in DateSlots(last, run) ensures y !in SlotUniverse(prefix, run) {
        var k :| 0 <= k < |run| && y == SlotText(last, run[k]);
        SlotTextParts(last, run[k]);
        if y in SlotUniverse(prefix, run) {
          SlotUniverseDates(prefix, run, y);
        }
      }
      DistinctConcat(SlotUniverse(prefix, run), DateSlots(last, run));
    }
  }

  /** For time-of-day inputs, one date contributes ceil((end - start) / 30) slots, none when the end is not after the start. */
  lemma GeneratedLength(dates: seq<string>, startTime: string, endTime: string)
    requires ValidClock(startTime) && ValidClock(endTime)
    ensures |Generated(dates, startTime, endTime)| == |dates| * HalfHourCount(ClockValue(startTime), ClockValue(endTime))
  {
    var s := ParseClock(startTime).value;
    var e := ParseClock(endTime).value;
    TimeRunShape(s.0, s.1, e.0, e.1);
    SlotUniverseLength(dates, TimeRun(s.0, s.1, e.0, e.1));
  }

  /** The `k`-th time of every date, at the level of the parsed fields. */
  lemma UniverseSlotAt(dates: seq<string>, h: nat, m: nat, endH: nat, endM: nat, i: nat, k: nat)
    requires m < 60 && endH < 24 && endM < 60
    requires i < |dates| && k < HalfHourCount(h * 60 + m, endH * 60 + endM)
    ensures var run := TimeRun(h, m, endH, endM);
      && h * 60 + m + 30 * k < endH * 60 + endM
      && k < |run| && i * |run| + k < |SlotUniverse(dates, run)|
      && SlotUniverse(dates, run)[i * |run| + k] == dates[i] + " " + ClockOf(h * 60 + m + 30 * k)
  {
    var run := TimeRun(h, m, endH, endM);
    TimeRunShape(h, m, endH, endM);
    SlotUniverseIndex(dates, run, i, k);
    SlotOfMinute(dates[i], run[k], h * 60 + m + 30 * k);
  }

  /** A slot text whose fields are the minute count `v` of the day. */
  lemma SlotOfMinute(date: string, hm: (nat, nat), v: nat)
    requires hm.1 < 60 && v == Minutes(hm) && v < MinutesPerDay
    ensures SlotText(date, hm) == date + " " + ClockOf(v)
  {
    assert hm.0 < 24;
    ClockIsClockOf(hm.0, hm.1);
    ClockIsPadded(hm.0, hm.1);
  }

  /**
   * For a start time reading (`h`, `m`) and an end time reading (`endH`, `endM`), both times
   * of day, slot number `i * count + k`, with `count` the slots per date, is the `i`-th date
   * followed by the time `30 * k` minutes after the start, which is still before the end.
   */
  lemma GeneratedSlotAt(dates: seq<string>, startTime: string, endTime: string, slots: seq<string>,
                        h: nat, m: nat, endH: nat, endM: nat, i: nat, k: nat)
    requires ParseClock(startTime) == Some((h, m)) && ParseClock(endTime) == Some((endH, endM))
    requires m < 60 && endH < 24 && endM < 60
    requires slots == Generated(dates, startTime, endTime)
    requires i < |dates| && k < HalfHourCount(h * 60 + m, endH * 60 + endM)
    ensures h * 60 + m + 30 * k < endH * 60 + endM
    ensures i * HalfHourCount(h * 60 + m, endH * 60 + endM) + k < |slots|
    ensures slots[i * HalfHourCount(h * 60 + m, endH * 60 + endM) + k] == dates[i] + " " + ClockOf(h * 60 + m + 30 * k)
  {
    TimeRunShape(h, m, endH, endM);
    UniverseSlotAt(dates, h, m, endH, endM, i, k);
  }

  /** A seconds field in the start time does not change the slots. */
  lemma GeneratedIgnoresSeconds(dates: seq<string>, h: nat, m: nat, ss: string, endTime: string)
    requires h < 100 && m < 100 && ParseClock(endTime).Some?
    ensures ParseClock(Clock(h, m) + ":" + ss).Some? && ParseClock(Clock(h, m)).Some?
    ensures Generated(dates, Clock(h, m) + ":" + ss, endTime) == Generated(dates, Clock(h, m), endTime)
  {
    SecondsIgnored(h, m, ss);
    ClockRoundTrip(h, m);
  }

  /** A seconds field in the end time does not change the slots. */
  lemma GeneratedIgnoresEndSeconds(dates: seq<string>, startTime: string, h: nat, m: nat, ss: string)
    requires h < 100 && m < 100 && ParseClock(startTime).Some?
    ensures ParseClock(Clock(h, m) + ":" + ss).Some? && ParseClock(Clock(h, m)).Some?
    ensures Generated(dates, startTime, Clock(h, m) + ":" + ss) == Generated(dates, startTime, Clock(h, m))
  {
    SecondsIgnored(h, m, ss);
    ClockRoundTrip(h, m);
  }

  /** Every generated slot carries one of the dates, when no date contains a space. */
  lemma GeneratedDates(dates: seq<string>, startTime: string, endTime: string, x: string)
    requires ParseClock(startTime).Some? && ParseClock(endTime).Some?
    requires forall d :: d in dates ==> ' ' !in d
    requires x in Generated(dates, startTime, endTime)
    ensures Split(x, ' ')[0] in dates
  {
    var s := ParseClock(startTime).value;
    var e := ParseClock(endTime).value;
    SlotUniverseDates(dates, TimeRun(s.0, s.1, e.0, e.1), x);
  }

  /** Distinct, space-free dates and time-of-day inputs give slots without repeats. */
  lemma GeneratedDistinct(dates: seq<string>, startTime: string, endTime: string)
    requires ValidClock(startTime) && ValidClock(endTime)
    requires forall d :: d in dates ==> ' ' !in d
    requires Distinct(dates)
    ensures Distinct(Generated(dates, startTime, endTime))
  {
    var s := ParseClock(startTime).value;
    var e := ParseClock(endTime).value;
    TimeRunDistinct(s.0, s.1, e.0, e.1);
    SlotUniverseDistinct(dates, TimeRun(s.0, s.1, e.0, e.1));
  }
}
