/**
 * The create-meeting form of src/pages/CreateMeeting.jsx: the list of candidate days that a
 * click on the calendar toggles, and the ordered guards and the row shaping of the submit
 * handler. A day is a whole day number (a local midnight, as `startOfDay` produces), so
 * `isBefore` is `<`, `isSameDay` is `==` and the comparator `(a, b) => a - b` is numeric order.
 */
module CreateMeeting {
  import opened Wrappers
  import opened JsText
  import opened ClockTime
  import opened Collections
  import SlotGeneration

  /** Ascending order, repeats allowed. */
  predicate Sorted(s: seq<int>) {
    forall a, b :: 0 <= a < b < |s| ==> s[a] <= s[b]
  }

  /** `prev.filter(d => !isSameDay(d, day))`: the list without any entry for `day`. */
  function RemoveDate(prev: seq<int>, day: int): seq<int>
    decreases |prev|
  {
    if |prev| == 0 then []
    else (if prev[0] == day then [] else [prev[0]]) + RemoveDate(prev[1..], day)
  }

  /** The place of `x` in a sorted list: before the first entry that is not smaller. */
  function Insert(s: seq<int>, x: int): seq<int>
    decreases |s|
  {
    if |s| == 0 then [x]
    else if x <= s[0] then [x] + s
    else [s[0]] + Insert(s[1..], x)
  }

  /**
   * `.sort((a, b) => a - b)` on whole numbers. Equal numbers are indistinguishable, so every
   * sorting algorithm yields this list (`SortedUnique`).
   */
  function Sort(s: seq<int>): seq<int>
    decreases |s|
  {
    if |s| == 0 then [] else Insert(Sort(s[..|s| - 1]), s[|s| - 1])
  }

  /** `toggleDate`: past days are refused, a chosen day is dropped, a new one is added in order. */
  function ToggleDate(prev: seq<int>, day: int, today: int): seq<int> {
    if day < today then prev
    else if day in prev then RemoveDate(prev, day)
    else Sort(prev + [day])
  }

  /** Removal keeps the other entries, in order: it distributes over concatenation. */
  lemma {:induction false} RemoveDateConcat(xs: seq<int>, ys: seq<int>, day: int)
    ensures RemoveDate(xs + ys, day) == RemoveDate(xs, day) + RemoveDate(ys, day)
    decreases |xs|
  {
    if |xs| == 0 {
      assert xs + ys == ys;
    } else {
      assert (xs + ys)[0] == xs[0];
      assert (xs + ys)[1..] == xs[1..] + ys;
      RemoveDateConcat(xs[1..], ys, day);
    }
  }

  /** Removal drops every entry for `day` and no other (its count of every other day is kept). */
  lemma {:induction false} RemoveDateMultiset(prev: seq<int>, day: int)
    ensures multiset(RemoveDate(prev, day)) == multiset(prev)[day := 0]
    decreases |prev|
  {
    if |prev| > 0 {
      RemoveDateMultiset(prev[1..], day);
      assert prev == [prev[0]] + prev[1..];
    }
  }

  /** The entries left are exactly the entries for other days. */
  lemma RemoveDateMembers(prev: seq<int>, day: int)
    ensures forall x :: x in RemoveDate(prev, day) <==> x in prev && x != day
  {
    RemoveDateMultiset(prev, day);
    forall x ensures x in RemoveDate(prev, day) <==> x in prev && x != day {
      assert x in RemoveDate(prev, day) <==> x in multiset(RemoveDate(prev, day));
      assert x in prev <==> x in multiset(prev);
    }
  }

  /** Removing a day that is not in the list changes nothing. */
  lemma {:induction false} RemoveDateAbsent(prev: seq<int>, day: int)
    requires day !in prev
    ensures RemoveDate(prev, day) == prev
    decreases |prev|
  {
    if |prev| > 0 {
      assert prev[0] != day;
      RemoveDateAbsent(prev[1..], day);
      assert prev == [prev[0]] + prev[1..];
    }
  }

  /** A list whose entries are all at least `x` stays so after a removal. */
  lemma {:induction false} RemoveDateLower(prev: seq<int>, day: int, x: int)
    requires forall i :: 0 <= i < |prev| ==> x <= prev[i]
    ensures forall i :: 0 <= i < |RemoveDate(prev, day)| ==> x <= RemoveDate(prev, day)[i]
    decreases |prev|
  {
    if |prev| > 0 {
      RemoveDateLower(prev[1..], day, x);
    }
  }

  /** Removal keeps a sorted list sorted and a duplicate-free list duplicate-free. */
  lemma {:induction false} RemoveDateSorted(prev: seq<int>, day: int)
    requires Sorted(prev)
    ensures Sorted(RemoveDate(prev, day))
    ensures Distinct(prev) ==> Distinct(RemoveDate(prev, day))
    decreases |prev|
  {
    if |prev| > 0 {
      var rest := RemoveDate(prev[1..], day);
      RemoveDateSorted(prev[1..], day);
      RemoveDateLower(prev[1..], day, prev[0]);
      if Distinct(prev) {
        RemoveDateMembers(prev[1..], day);
        assert prev[0] !in prev[1..];
        DistinctConcat(if prev[0] == day then [] else [prev[0]], rest);
      }
    }
  }

  /** A list whose entries are all at least `lo` stays so after inserting `x >= lo`. */
  lemma {:induction false} InsertLower(s: seq<int>, x: int, lo: int)
    requires lo <= x && forall i :: 0 <= i < |s| ==> lo <= s[i]
    ensures forall i :: 0 <= i < |Insert(s, x)| ==> lo <= Insert(s, x)[i]
    decreases |s|
  {
    if |s| > 0 && x > s[0] {
      InsertLower(s[1..], x, lo);
    }
  }

  /** Inserting into a sorted list gives a sorted list with one more `x`. */
  lemma {:induction false} InsertSorted(s: seq<int>, x: int)
    requires Sorted(s)
    ensures Sorted(Insert(s, x))
    ensures multiset(Insert(s, x)) == multiset(s) + multiset{x}
    decreases |s|
  {
    InsertMultiset(s, x);
    if |s| > 0 {
      if x <= s[0] {
        ConsSorted(x, s);
      } else {
        SplitFirst(s);
        InsertSorted(s[1..], x);
        InsertLower(s[1..], x, s[0]);
        ConsSorted(s[0], Insert(s[1..], x));
      }
    }
  }

  /** Insertion adds one `x` and keeps every other entry. */
  lemma {:induction false} InsertMultiset(s: seq<int>, x: int)
    ensures multiset(Insert(s, x)) == multiset(s) + multiset{x}
    decreases |s|
  {
    if |s| > 0 {
      assert s == [s[0]] + s[1..];
      if x > s[0] {
        InsertMultiset(s[1..], x);
      }
    }
  }

  /** A value no larger than any entry of a sorted list can go in front of it. */
  lemma ConsSorted(x: int, s: seq<int>)
    requires Sorted(s) && forall i :: 0 <= i < |s| ==> x <= s[i]
    ensures Sorted([x] + s)
  {
    var t := [x] + s;
    forall a, b | 0 <= a < b < |t| ensures t[a] <= t[b] {
      assert t[b] == s[b - 1];
      if a > 0 {
        assert t[a] == s[a - 1];
      }
    }
  }

  /** The sort yields an ascending rearrangement of its input. */
  lemma {:induction false} SortSorted(s: seq<int>)
    ensures Sorted(Sort(s))
    ensures multiset(Sort(s)) == multiset(s)
    decreases |s|
  {
    if |s| > 0 {
      var init := s[..|s| - 1];
      SortSorted(init);
      InsertSorted(Sort(init), s[|s| - 1]);
      assert s == init + [s[|s| - 1]];
    }
  }

  /** The smallest value of a sorted list is its first entry. */
  lemma SortedFirstIsLeast(s: seq<int>, x: int)
    requires Sorted(s) && x in multiset(s)
    ensures |s| > 0 && s[0] <= x
  {
    assert x in s;
  }

  /** A non-empty list is its first entry followed by the rest. */
  lemma SplitFirst(s: seq<int>)
    requires |s| > 0
    ensures Sorted(s) ==> Sorted(s[1..])
    ensures multiset(s[1..]) == multiset(s) - multiset{s[0]}
  {
    assert s == [s[0]] + s[1..];
  }

  /** Two ascending lists with the same values start alike. */
  lemma SameFirst(a: seq<int>, b: seq<int>)
    requires Sorted(a) && Sorted(b) && multiset(a) == multiset(b) && |a| > 0
    ensures |b| > 0 && a[0] == b[0]
  {
    assert a[0] in multiset(a);
    SortedFirstIsLeast(b, a[0]);
    assert b[0] in multiset(b);
    SortedFirstIsLeast(a, b[0]);
  }

  /** Two ascending lists holding the same values the same number of times are equal. */
  lemma {:induction false} SortedUnique(a: seq<int>, b: seq<int>)
    requires Sorted(a) && Sorted(b) && multiset(a) == multiset(b)
    ensures a == b
    decreases |a|
  {
    if |a| == 0 {
      assert |multiset(b)| == 0;
    } else {
      SameFirst(a, b);
      SplitFirst(a);
      SplitFirst(b);
      SortedUnique(a[1..], b[1..]);
      assert a == [a[0]] + a[1..] && b == [b[0]] + b[1..];
    }
  }

  /** A sorted list is its own sort. */
  lemma SortOfSorted(s: seq<int>)
    requires Sorted(s)
    ensures Sort(s) == s
  {
    SortSorted(s);
    SortedUnique(Sort(s), s);
  }

  /** In a duplicate-free list a value occurs at most once. */
  lemma {:induction false} DistinctMultiplicity(s: seq<int>, x: int)
    requires Distinct(s)
    ensures multiset(s)[x] <= 1
    decreases |s|
  {
    if |s| > 0 {
      assert s == [s[0]] + s[1..];
      assert s[0] !in s[1..];
      assert Distinct(s[1..]);
      DistinctMultiplicity(s[1..], x);
    }
  }

  /** Inserting a new value into a duplicate-free list keeps it duplicate-free. */
  lemma {:induction false} InsertDistinct(s: seq<int>, x: int)
    requires Sorted(s) && Distinct(s) && x !in s
    ensures Distinct(Insert(s, x))
    decreases |s|
  {
    if |s| > 0 {
      if x <= s[0] {
        DistinctConcat([x], s);
      } else {
        var rest := Insert(s[1..], x);
        SplitFirst(s);
        assert Distinct(s[1..]);
        InsertDistinct(s[1..], x);
        InsertSorted(s[1..], x);
        assert s[0] !in multiset(rest) by {
          assert s[0] !in s[1..];
        }
        DistinctConcat([s[0]], rest);
      }
    }
  }

  /** Toggling a day before today leaves the list as it was. */
  lemma ToggleDatePast(prev: seq<int>, day: int, today: int)
    requires day < today
    ensures ToggleDate(prev, day, today) == prev
  {
  }

  /**
   * Toggling a chosen day that is not in the past drops every entry for it and keeps the
   * others in their order.
   */
  lemma ToggleDatePresent(prev: seq<int>, day: int, today: int)
    requires today <= day && day in prev
    ensures ToggleDate(prev, day, today) == RemoveDate(prev, day)
    ensures day !in ToggleDate(prev, day, today)
    ensures multiset(ToggleDate(prev, day, today)) == multiset(prev)[day := 0]
  {
    RemoveDateMultiset(prev, day);
    RemoveDateMembers(prev, day);
  }

  /** Toggling a new day that is not in the past adds it once and sorts the list ascending. */
  lemma ToggleDateAbsent(prev: seq<int>, day: int, today: int)
    requires today <= day && day !in prev
    ensures Sorted(ToggleDate(prev, day, today))
    ensures multiset(ToggleDate(prev, day, today)) == multiset(prev) + multiset{day}
    ensures Sorted(prev) ==> ToggleDate(prev, day, today) == Insert(prev, day)
  {
    SortSorted(prev + [day]);
    if Sorted(prev) {
      SortedUnique(Sort(prev + [day]), Insert(prev, day)) by {
        InsertSorted(prev, day);
      }
    }
  }

  /** The selection list stays sorted and duplicate-free under every toggle. */
  lemma ToggleDateKeepsOrder(prev: seq<int>, day: int, today: int)
    requires Sorted(prev) && Distinct(prev)
    ensures Sorted(ToggleDate(prev, day, today)) && Distinct(ToggleDate(prev, day, today))
  {
    if today <= day {
      if day in prev {
        RemoveDateSorted(prev, day);
      } else {
        ToggleDateAbsent(prev, day, today);
        InsertSorted(prev, day);
        InsertDistinct(prev, day);
      }
    }
  }

  /** On a sorted, duplicate-free list, toggling the same day twice restores the list. */
  lemma ToggleDateTwice(prev: seq<int>, day: int, today: int)
    requires Sorted(prev) && Distinct(prev)
    ensures ToggleDate(ToggleDate(prev, day, today), day, today) == prev
  {
    if today <= day {
      var once := ToggleDate(prev, day, today);
      var twice := ToggleDate(once, day, today);
      if day in prev {
        ToggleDatePresent(prev, day, today);
        RemoveDateSorted(prev, day);
        ToggleDateAbsent(once, day, today);
        DistinctMultiplicity(prev, day);
        assert day in multiset(prev);
        assert multiset(twice) == multiset(prev);
        SortedUnique(twice, prev);
      } else {
        ToggleDateAbsent(prev, day, today);
        assert day in multiset(once);
        ToggleDatePresent(once, day, today);
        assert day !in multiset(prev);
        assert multiset(twice) == multiset(prev);
        RemoveDateSorted(once, day);
        SortSorted(prev + [day]);
        SortedUnique(twice, prev);
      }
    }
  }

  /** The messages of `handleSubmit`, in the order it checks them. */
  datatype FormError = TitleRequired | NoDates | EndNotAfterStart

  /** The row inserted into the meetings table. */
  datatype MeetingRow = MeetingRow(
    title: string,
    description: Option<string>,
    meetingUrl: Option<string>,
    dates: seq<string>,
    startTime: string,
    endTime: string)

  /** `s.trim() || null`: an empty trimmed text is stored as `null`. */
  function TrimOrNull(s: string): Option<string> {
    var t := Trim(s);
    if t == "" then None else Some(t)
  }

  /** `selectedDates.map(d => format(d, 'yyyy-MM-dd'))`: one text per day, in list order. */
  function FormatDates(days: seq<int>, format: int -> string): (texts: seq<string>)
    ensures |texts| == |days|
    ensures forall i :: 0 <= i < |days| ==> texts[i] == format(days[i])
    decreases |days|
  {
    if |days| == 0 then [] else [format(days[0])] + FormatDates(days[1..], format)
  }

  /**
   * `handleSubmit` up to the insert: the first failing guard stops it with its message;
   * otherwise it shapes the row. `format` is date-fns `format(d, 'yyyy-MM-dd')`.
   */
  function Submit(title: string, description: string, meetingUrl: string, selectedDates: seq<int>,
                  startTime: string, endTime: string, format: int -> string): Result<MeetingRow, FormError>
  {
    if Trim(title) == "" then Err(TitleRequired)
    else if |selectedDates| == 0 then Err(NoDates)
    else if !StrLess(startTime, endTime) then Err(EndNotAfterStart)
    else Ok(MeetingRow(Trim(title), TrimOrNull(description), TrimOrNull(meetingUrl),
                       FormatDates(selectedDates, format),
                       startTime, endTime))
  }

  /** Each message is reported exactly when its guard is the first one to fail. */
  lemma SubmitGuards(title: string, description: string, meetingUrl: string, selectedDates: seq<int>,
                     startTime: string, endTime: string, format: int -> string)
    ensures (Submit(title, description, meetingUrl, selectedDates, startTime, endTime, format)
            == Err(TitleRequired)) <==> (IsBlank(title))
    ensures (Submit(title, description, meetingUrl, selectedDates, startTime, endTime, format)
            == Err(NoDates)) <==> (!IsBlank(title) && |selectedDates| == 0)
    ensures (Submit(title, description, meetingUrl, selectedDates, startTime, endTime, format)
            == Err(EndNotAfterStart)) <==> (!IsBlank(title) && |selectedDates| > 0 && !StrLess(startTime, endTime))
    ensures Submit(title, description, meetingUrl, selectedDates, startTime, endTime, format).Ok?
            <==> !IsBlank(title) && |selectedDates| > 0 && StrLess(startTime, endTime)
  {
    TrimEmpty(title);
  }

  /**
   * The inserted row: a non-empty trimmed title, `null` for a blank description or link and
   * the trimmed text otherwise, one formatted date per selected day in list order, and the two
   * times as entered.
   */
  lemma SubmitRow(title: string, description: string, meetingUrl: string, selectedDates: seq<int>,
                  startTime: string, endTime: string, format: int -> string)
    requires Submit(title, description, meetingUrl, selectedDates, startTime, endTime, format).Ok?
    ensures var row := Submit(title, description, meetingUrl, selectedDates, startTime, endTime, format).value;
      && row.title != "" && Trim(row.title) == row.title && Trim(title) == row.title
      && (row.description.None? <==> IsBlank(description))
      && (row.description.Some? ==> row.description.value == Trim(description))
      && (row.meetingUrl.None? <==> IsBlank(meetingUrl))
      && (row.meetingUrl.Some? ==> row.meetingUrl.value == Trim(meetingUrl))
      && row.dates == FormatDates(selectedDates, format)
      && row.startTime == startTime && row.endTime == endTime
  {
    TrimIdempotent(title);
    TrimEmpty(description);
    TrimEmpty(meetingUrl);
  }

  /** Decimal digits are ordered as their values. */
  lemma DigitCharOrder(d: nat, e: nat)
    requires d < 10 && e < 10
    ensures DigitChar(d) < DigitChar(e) <==> d < e
    ensures DigitChar(d) == DigitChar(e) <==> d == e
  {
    assert DigitChar(d) as int == '0' as int + d;
    assert DigitChar(e) as int == '0' as int + e;
  }

  /** Two-digit fields compare as strings the way they compare as numbers. */
  lemma TwoDigitsOrder(a: nat, b: nat)
    requires a < 100 && b < 100
    ensures StrLess(TwoDigits(a), TwoDigits(b)) <==> a < b
    ensures TwoDigits(a) == TwoDigits(b) <==> a == b
  {
    var x := TwoDigits(a);
    var y := TwoDigits(b);
    DigitCharOrder(a / 10, b / 10);
    DigitCharOrder(a % 10, b % 10);
    assert x == [DigitChar(a / 10), DigitChar(a % 10)];
    assert y == [DigitChar(b / 10), DigitChar(b % 10)];
    assert x[1..] == [DigitChar(a % 10)] && y[1..] == [DigitChar(b % 10)];
    assert x[1..][1..] == [] && y[1..][1..] == [];
    assert a == 10 * (a / 10) + a % 10 && b == 10 * (b / 10) + b % 10;
    if a / 10 != b / 10 {
      assert StrLess(x, y) == (DigitChar(a / 10) < DigitChar(b / 10));
    } else {
      assert StrLess(x, y) == StrLess(x[1..], y[1..]);
      assert StrLess(x[1..], y[1..]) == (DigitChar(a % 10) < DigitChar(b % 10));
    }
  }

  /** For zero-padded "HH:MM" times the string guard `startTime >= endTime` is numeric order. */
  lemma ClockOrder(h1: nat, m1: nat, h2: nat, m2: nat)
    requires h1 < 100 && m1 < 60 && h2 < 100 && m2 < 60
    ensures StrLess(Clock(h1, m1), Clock(h2, m2)) <==> h1 * 60 + m1 < h2 * 60 + m2
  {
    TwoDigitsOrder(h1, h2);
    TwoDigitsOrder(m1, m2);
    var p := TwoDigits(h1);
    var q := TwoDigits(h2);
    var x := ":" + TwoDigits(m1);
    var y := ":" + TwoDigits(m2);
    assert Clock(h1, m1) == p + x && Clock(h2, m2) == q + y;
    if h1 == h2 {
      StrLessCommonPrefix(p, x, y);
      StrLessCommonPrefix(":", TwoDigits(m1), TwoDigits(m2));
    } else {
      StrLessDifferingPrefix(p, q, x, y);
    }
  }

  /**
   * A cleared time input gives "". The string guard lets it through as a start time, as
   * "" >= "17:00" is false, though "" is no time of day and its slots cannot be generated.
   */
  lemma EmptyStartAccepted(title: string, description: string, meetingUrl: string, selectedDates: seq<int>,
                            endTime: string, format: int -> string)
    requires !IsBlank(title) && |selectedDates| > 0 && endTime != ""
    ensures Submit(title, description, meetingUrl, selectedDates, "", endTime, format).Ok?
    ensures !ValidClock("")
  {
    SubmitGuards(title, description, meetingUrl, selectedDates, "", endTime, format);
    assert Split("", ':') == [""];
  }

  /**
   * The guard as evidently meant: both times must be times of day and the start must come
   * before the end; the other guards and the row are as in `Submit`.
   */
  function SubmitChecked(title: string, description: string, meetingUrl: string, selectedDates: seq<int>,
                         startTime: string, endTime: string, format: int -> string): Result<MeetingRow, FormError>
  {
    if Trim(title) == "" then Err(TitleRequired)
    else if |selectedDates| == 0 then Err(NoDates)
    else if !(ValidClock(startTime) && ValidClock(endTime) && ClockValue(startTime) < ClockValue(endTime)) then
      Err(EndNotAfterStart)
    else Submit(title, description, meetingUrl, selectedDates, startTime, endTime, format)
  }

  /** The corrected guard accepts only a range of two times of day, the start first. */
  lemma SubmitCheckedTimes(title: string, description: string, meetingUrl: string, selectedDates: seq<int>,
                           startTime: string, endTime: string, format: int -> string)
    ensures SubmitChecked(title, description, meetingUrl, selectedDates, startTime, endTime, format).Ok?
            <==> !IsBlank(title) && |selectedDates| > 0 && ValidClock(startTime) && ValidClock(endTime)
                 && ClockValue(startTime) < ClockValue(endTime) && StrLess(startTime, endTime)
  {
    TrimEmpty(title);
  }

  /** A product with a positive factor is at least the other factor. */
  lemma MulAtLeast(a: nat, n: nat)
    requires n >= 1
    ensures a * n >= a
  {
    assert a * n == a + a * (n - 1);
  }

  /** A range the corrected guard accepts gives every date of the meeting at least one slot. */
  lemma AcceptedRangeHasSlots(dates: seq<string>, startTime: string, endTime: string)
    requires ValidClock(startTime) && ValidClock(endTime) && ClockValue(startTime) < ClockValue(endTime)
    ensures |SlotGeneration.Generated(dates, startTime, endTime)| >= |dates|
  {
    var n := SlotGeneration.HalfHourCount(ClockValue(startTime), ClockValue(endTime));
    SlotGeneration.GeneratedLength(dates, startTime, endTime);
    MulAtLeast(|dates|, n);
  }

  /** On times as a time input writes them, the corrected guard agrees with the original one. */
  lemma SubmitCheckedAgrees(title: string, description: string, meetingUrl: string, selectedDates: seq<int>,
                            h1: nat, m1: nat, h2: nat, m2: nat, format: int -> string)
    requires h1 < 24 && m1 < 60 && h2 < 24 && m2 < 60
    ensures SubmitChecked(title, description, meetingUrl, selectedDates, Clock(h1, m1), Clock(h2, m2), format)
            == Submit(title, description, meetingUrl, selectedDates, Clock(h1, m1), Clock(h2, m2), format)
  {
    ClockRoundTrip(h1, m1);
    ClockRoundTrip(h2, m2);
    ClockOrder(h1, m1, h2, m2);
  }
}
