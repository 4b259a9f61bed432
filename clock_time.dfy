/**
 * Wall-clock times of day as the scheduler writes them, "HH:MM" (a stored time may carry a
 * further ":SS" field), and the offset arithmetic of `applyOffsetToTime` in
 * src/utils/timeSlots.js.
 */
module ClockTime {
  import opened Wrappers
  import opened JsText

  /** Minutes in a day: the modulus of every display-offset wrap. */
  const MinutesPerDay := 1440

  /**
   * `s.split(':').map(Number)` read as `[h, m]`: defined when the first two fields are decimal
   * digits; any further field (seconds) is not read.
   */
  function ParseClock(s: string): Option<(nat, nat)> {
    var parts := Split(s, ':');
    if |parts| >= 2 && IsDigits(parts[0]) && IsDigits(parts[1]) then
      Some((DecimalValue(parts[0]), DecimalValue(parts[1])))
    else
      None
  }

  /** A time of day as a time input yields it: hour below 24, minute below 60. */
  predicate ValidClock(s: string) {
    ParseClock(s).Some? && ParseClock(s).value.0 < 24 && ParseClock(s).value.1 < 60
  }

  /** `h * 60 + m` for the parsed fields. */
  function ClockValue(s: string): nat
    requires ParseClock(s).Some?
  {
    ParseClock(s).value.0 * 60 + ParseClock(s).value.1
  }

  /** Two digit fields joined by a colon parse as the two numbers. */
  lemma ParseTwoFields(a: string, b: string)
    requires IsDigits(a) && IsDigits(b)
    ensures ParseClock(a + ":" + b) == Some((DecimalValue(a), DecimalValue(b)))
  {
    assert a + ":" + b == a + [':'] + b;
    SplitAtFirst(a, ':', b);
    SplitNoSeparator(b, ':');
  }

  /** A third field after the first two is not read. */
  lemma ParseThreeFields(a: string, b: string, c: string)
    requires IsDigits(a) && IsDigits(b)
    ensures ParseClock(a + ":" + b + ":" + c) == Some((DecimalValue(a), DecimalValue(b)))
  {
    assert a + ":" + b + ":" + c == a + [':'] + (b + [':'] + c);
    SplitAtFirst(a, ':', b + [':'] + c);
    SplitAtFirst(b, ':', c);
  }

  /** The two digits of a number below 100. */
  function TwoDigits(n: nat): (r: string)
    requires n < 100
    ensures IsDigits(r) && |r| == 2 && DecimalValue(r) == n
  {
    var r := [DigitChar(n / 10), DigitChar(n % 10)];
    assert r[..1] == [DigitChar(n / 10)] && r[..1][..0] == [];
    assert DecimalValue(r[..1]) == n / 10;
    r
  }

  /**
   * `${String(h).padStart(2, '0')}:${String(m).padStart(2, '0')}` for fields below 100, written
   * out digit by digit (`ClockIsPadded` shows it is that template).
   */
  function Clock(h: nat, m: nat): string
    requires h < 100 && m < 100
  {
    TwoDigits(h) + ":" + TwoDigits(m)
  }

  /** `Clock` is the padded template of the source. */
  lemma ClockIsPadded(h: nat, m: nat)
    requires h < 100 && m < 100
    ensures Clock(h, m) == Pad2(h) + ":" + Pad2(m)
  {
    Pad2Digits(h);
    Pad2Digits(m);
  }

  /** Parsing `Clock(h, m)` gives back the hour and the minute. */
  lemma ClockRoundTrip(h: nat, m: nat)
    requires h < 100 && m < 100
    ensures ParseClock(Clock(h, m)) == Some((h, m))
  {
    ParseTwoFields(TwoDigits(h), TwoDigits(m));
  }

  /** A ":SS" field after "HH:MM" is ignored. */
  lemma SecondsIgnored(h: nat, m: nat, ss: string)
    requires h < 100 && m < 100
    ensures ParseClock(Clock(h, m) + ":" + ss) == Some((h, m))
  {
    ParseThreeFields(TwoDigits(h), TwoDigits(m), ss);
  }

  /**
   * `m += 30; if (m >= 60) { m -= 60; h += 1 }`: half an hour later, carrying into the hour once
   * and never wrapping at 24.
   */
  function HalfHourLater(h: nat, m: nat): (nat, nat) {
    if m + 30 >= 60 then (h + 1, m + 30 - 60) else (h, m + 30)
  }

  /** Half an hour later counts 30 more minutes, and keeps a minute field below 60 below 60. */
  lemma HalfHourLaterMinutes(h: nat, m: nat)
    ensures HalfHourLater(h, m).0 * 60 + HalfHourLater(h, m).1 == h * 60 + m + 30
    ensures m < 60 ==> HalfHourLater(h, m).1 < 60
  {
  }

  /** The "HH:MM" text of a minute of the day. */
  function ClockOf(t: nat): string
    requires t < MinutesPerDay
  {
    Clock(t / 60, t % 60)
  }

  /** Hour and minute of a minute of the day. */
  lemma DayDivMod(t: nat)
    requires t < MinutesPerDay
    ensures t / 60 < 24 && t % 60 < 60 && (t / 60) * 60 + t % 60 == t
  {
  }

  /** A minute of the day is encoded losslessly as a valid time. */
  lemma ClockOfRoundTrip(t: nat)
    requires t < MinutesPerDay
    ensures ValidClock(ClockOf(t)) && ClockValue(ClockOf(t)) == t
  {
    DayDivMod(t);
    ClockRoundTrip(t / 60, t % 60);
  }

  /** Distinct minutes of the day have distinct texts. */
  lemma ClockOfInjective(a: nat, b: nat)
    requires a < MinutesPerDay && b < MinutesPerDay && ClockOf(a) == ClockOf(b)
    ensures a == b
  {
    ClockOfRoundTrip(a);
    ClockOfRoundTrip(b);
  }

  /** The minute count of a time of day, and its hour and minute recovered by division. */
  lemma MinuteFields(h: nat, m: nat, v: int)
    requires h < 24 && m < 60 && v == h * 60 + m
    ensures 0 <= v < MinutesPerDay && v / 60 == h && v % 60 == m && (v + 0) % MinutesPerDay == v
  {
  }

  /** A valid time written canonically is the encoding of its minute count. */
  lemma ClockIsClockOf(h: nat, m: nat)
    requires h < 24 && m < 60
    ensures h * 60 + m < MinutesPerDay && ClockOf(h * 60 + m) == Clock(h, m)
  {
    MinuteFields(h, m, h * 60 + m);
  }

  /** A valid time of day counts fewer than 1440 minutes. */
  lemma ValidClockValue(s: string)
    requires ValidClock(s)
    ensures ClockValue(s) < MinutesPerDay
  {
  }

  /** JavaScript's `a % 1440`: truncating division, so the remainder has the sign of `a`. */
  function JsRemDay(a: int): int {
    if a >= 0 then a % MinutesPerDay else -((-a) % MinutesPerDay)
  }

  /** The truncating remainder lies strictly between -1440 and 1440 and has the sign of `a`. */
  lemma JsRemDayRange(a: int)
    ensures -MinutesPerDay < JsRemDay(a) < MinutesPerDay
    ensures a >= 0 ==> JsRemDay(a) >= 0
    ensures a <= 0 ==> JsRemDay(a) <= 0
  {
  }

  /** `((x % 1440) + 1440) % 1440` with JavaScript's `%` is the mathematical residue. */
  lemma WrapIsEuclidean(x: int)
    ensures JsRemDay(JsRemDay(x) + MinutesPerDay) == x % MinutesPerDay
  {
    if x < 0 {
      var r := (-x) % MinutesPerDay;
      assert -x == MinutesPerDay * ((-x) / MinutesPerDay) + r;
      if r == 0 {
        assert x == MinutesPerDay * (-((-x) / MinutesPerDay));
      } else {
        assert x == MinutesPerDay * (-((-x) / MinutesPerDay) - 1) + (MinutesPerDay - r);
      }
    }
  }

  /** `((total % 1440) + 1440) % 1440` with JavaScript's `%`: the minute of the day. */
  function WrapDay(total: int): (n: nat)
    ensures n == total % MinutesPerDay && n < MinutesPerDay
  {
    WrapIsEuclidean(total);
    JsRemDay(JsRemDay(total) + MinutesPerDay)
  }

  /**
   * `applyOffsetToTime(timeStr, offsetMins)`: the time shifted by the offset and wrapped into
   * one day, written "HH:MM" (field widths are exact since the wrapped count is below 1440).
   */
  function ApplyOffsetToTime(timeStr: string, offsetMins: int): (r: string)
    requires ParseClock(timeStr).Some?
    ensures r == ClockOf((ClockValue(timeStr) + offsetMins) % MinutesPerDay)
  {
    var hm := ParseClock(timeStr).value;
    var norm := WrapDay(hm.0 * 60 + hm.1 + offsetMins);
    Clock(norm / 60, norm % 60)
  }

  /** A shifted time reads back as the hour and minute of the wrapped minute count. */
  lemma ApplyOffsetFields(timeStr: string, offsetMins: int)
    requires ParseClock(timeStr).Some?
    ensures var n := (ClockValue(timeStr) + offsetMins) % MinutesPerDay;
      && ParseClock(ApplyOffsetToTime(timeStr, offsetMins)) == Some((n / 60, n % 60))
      && ClockValue(ApplyOffsetToTime(timeStr, offsetMins)) == n
  {
    var n := (ClockValue(timeStr) + offsetMins) % MinutesPerDay;
    DayDivMod(n);
    ClockRoundTrip(n / 60, n % 60);
  }

  /** A shifted time is a valid time of day whose minute count is the wrapped sum. */
  lemma ApplyOffsetInDay(timeStr: string, offsetMins: int)
    requires ParseClock(timeStr).Some?
    ensures ValidClock(ApplyOffsetToTime(timeStr, offsetMins))
    ensures ClockValue(ApplyOffsetToTime(timeStr, offsetMins))
         == (ClockValue(timeStr) + offsetMins) % MinutesPerDay
  {
    ApplyOffsetFields(timeStr, offsetMins);
    DayDivMod((ClockValue(timeStr) + offsetMins) % MinutesPerDay);
  }

  /** Offset 0 is the identity on a canonical time of day. */
  lemma ApplyZeroOffset(h: nat, m: nat)
    requires h < 24 && m < 60
    ensures ParseClock(Clock(h, m)).Some? && ApplyOffsetToTime(Clock(h, m), 0) == Clock(h, m)
  {
    ClockRoundTrip(h, m);
    MinuteFields(h, m, ClockValue(Clock(h, m)));
  }

  /** Two shifts in a row are one shift by the sum, on any parseable time. */
  lemma ApplyOffsetCompose(timeStr: string, a: int, b: int, c: int)
    requires ParseClock(timeStr).Some? && a + b == c
    ensures ParseClock(ApplyOffsetToTime(timeStr, a)).Some?
    ensures ApplyOffsetToTime(ApplyOffsetToTime(timeStr, a), b) == ApplyOffsetToTime(timeStr, c)
  {
    ApplyOffsetFields(timeStr, a);
    ShiftAgain(ApplyOffsetToTime(timeStr, a), timeStr, a, b, c);
  }

  /** Shifting a time that counts `v + a` minutes (modulo a day) by `b` is shifting `v` by `a + b`. */
  lemma ShiftAgain(x: string, timeStr: string, a: int, b: int, c: int)
    requires ParseClock(timeStr).Some? && ParseClock(x).Some? && a + b == c
    requires ClockValue(x) == (ClockValue(timeStr) + a) % MinutesPerDay
    ensures ApplyOffsetToTime(x, b) == ApplyOffsetToTime(timeStr, c)
  {
    var v := ClockValue(timeStr);
    ModCompose(v, a, b, ClockValue(x), (v + c) % MinutesPerDay);
  }

  /** Adding to a residue and reducing again is reducing the sum. */
  lemma ModCompose(v: int, a: int, b: int, n: int, k: int)
    requires n == (v + a) % MinutesPerDay && k == (v + a + b) % MinutesPerDay
    ensures (n + b) % MinutesPerDay == k
  {
    var q := (v + a) / MinutesPerDay;
    assert v + a == MinutesPerDay * q + n;
    ShiftMod(v + a + b, -q);
  }

  lemma ShiftMod(x: int, k: int)
    ensures (x + MinutesPerDay * k) % MinutesPerDay == x % MinutesPerDay
  {
    var q, r := x / MinutesPerDay, x % MinutesPerDay;
    assert x + MinutesPerDay * k == MinutesPerDay * (q + k) + r;
  }

  /** Shifting by `d` and back by `-d` restores a canonical time of day. */
  lemma ApplyOffsetRoundTrip(h: nat, m: nat, d: int)
    requires h < 24 && m < 60
    ensures ParseClock(Clock(h, m)).Some? && ParseClock(ApplyOffsetToTime(Clock(h, m), d)).Some?
    ensures ApplyOffsetToTime(ApplyOffsetToTime(Clock(h, m), d), -d) == Clock(h, m)
  {
    ApplyZeroOffset(h, m);
    ApplyOffsetCompose(Clock(h, m), d, -d, 0);
  }
}
