/**
 * `computeHeatmap`, `findBestSlots` and the branches of `heatmapColor` of src/utils/timeSlots.js.
 * A heatmap maps each slot of the meeting's universe to how many participants marked it, the
 * number of participants, and their names in row order. The slot type is a parameter: the
 * aggregation only compares slots for equality.
 */
module Heatmap {
  import opened Wrappers
  import opened Collections

  /** One participant's availability record; `slots` is `None` when the stored field is null. */
  datatype Row<K> = Row(name: string, slots: Option<seq<K>>)

  /** `{ count, total, participants }`. */
  datatype Entry = Entry(count: nat, total: nat, participants: seq<string>)

  /** The members of `new Set(row.slots || [])`. */
  function RowMembers<K(==)>(row: Row<K>): set<K> {
    match row.slots
    case None => {}
    case Some(s) => set v | v in s
  }

  /** The row's slot set holds `x`. */
  predicate Holds<K(==)>(row: Row<K>, x: K) {
    x in RowMembers(row)
  }

  /** The number of times `x` occurs in `s`. */
  function Occurrences<K(==)>(s: seq<K>, x: K): nat
    decreases |s|
  {
    if |s| == 0 then 0
    else Occurrences(s[..|s| - 1], x) + (if s[|s| - 1] == x then 1 else 0)
  }

  /** `n` copies of `v`. */
  function Copies<T>(v: T, n: nat): seq<T> {
    if n == 0 then [] else Copies(v, n - 1) + [v]
  }

  /**
   * The increments `x` has received after the rows `done`: one for each occurrence of `x` in
   * the universe, in every row whose set holds `x`.
   */
  function Tallied<K(==)>(u: seq<K>, done: seq<Row<K>>, x: K): nat
    decreases |done|
  {
    if |done| == 0 then 0
    else
      var last := done[|done| - 1];
      Tallied(u, done[..|done| - 1], x) + (if Holds(last, x) then Occurrences(u, x) else 0)
  }

  /** The names pushed for `x` after the rows `done`, in push order. */
  function Pushed<K(==)>(u: seq<K>, done: seq<Row<K>>, x: K): seq<string>
    decreases |done|
  {
    if |done| == 0 then []
    else
      var last := done[|done| - 1];
      Pushed(u, done[..|done| - 1], x) + (if Holds(last, x) then Copies(last.name, Occurrences(u, x)) else [])
  }

  /** The map after the rows `done`, every entry carrying `total`. */
  function Tally<K(==)>(u: seq<K>, total: nat, done: seq<Row<K>>): map<K, Entry> {
    map x | x in u :: Entry(Tallied(u, done, x), total, Pushed(u, done, x))
  }

  /** What `computeHeatmap(allSlots, participantRows)` returns. */
  function HeatmapOf<K(==)>(u: seq<K>, rows: seq<Row<K>>): map<K, Entry> {
    Tally(u, |rows|, rows)
  }

  /** The map part way through the row `row`, after the first `j` universe slots. */
  function Midway<K(==)>(u: seq<K>, total: nat, done: seq<Row<K>>, row: Row<K>, j: nat): map<K, Entry>
    requires j <= |u|
  {
    map x | x in u ::
      var extra := if Holds(row, x) then Occurrences(u[..j], x) else 0;
      Entry(Tallied(u, done, x) + extra, total, Pushed(u, done, x) + Copies(row.name, extra))
  }

  /** The map after the first `i` `map.set(slot, { count: 0, total, participants: [] })` calls. */
  function Fresh<K(==)>(u: seq<K>, total: nat, i: nat): map<K, Entry>
    requires i <= |u|
  {
    map x | x in u[..i] :: Entry(0, total, [])
  }

  /** The names of the rows whose set holds `x`, in row order. */
  function Holders<K(==)>(rows: seq<Row<K>>, x: K): seq<string>
    decreases |rows|
  {
    if |rows| == 0 then []
    else
      var last := rows[|rows| - 1];
      Holders(rows[..|rows| - 1], x) + (if Holds(last, x) then [last.name] else [])
  }

  /** `computeHeatmap`: the entries are made first, then each row bumps the slots it holds. */
  method ComputeHeatmap<K(==)>(allSlots: seq<K>, participantRows: seq<Row<K>>) returns (heat: map<K, Entry>)
    ensures heat == HeatmapOf(allSlots, participantRows)
  {
    var total := |participantRows|;
    heat := map[];
    for i := 0 to |allSlots|
      invariant heat == Fresh(allSlots, total, i)
    {
      InitialStep(allSlots, total, i);
      heat := heat[allSlots[i] := Entry(0, total, [])];
    }
    InitialIsTally(allSlots, total);
    for r := 0 to |participantRows|
      invariant heat == Tally(allSlots, total, participantRows[..r])
    {
      var row := participantRows[r];
      var held := RowMembers(row);
      MidwayStart(allSlots, total, participantRows[..r], row);
      for j := 0 to |allSlots|
        invariant heat == Midway(allSlots, total, participantRows[..r], row, j)
      {
        var slot := allSlots[j];
        if slot in held {
          if slot in heat {
            var entry := heat[slot];
            MidwayHeld(allSlots, total, participantRows[..r], row, j);
            heat := heat[slot := Entry(entry.count + 1, entry.total, entry.participants + [row.name])];
          }
        } else {
          MidwayNotHeld(allSlots, total, participantRows[..r], row, j);
        }
      }
      MidwayEnd(allSlots, total, participantRows, r);
    }
    assert participantRows[..|participantRows|] == participantRows;
  }

  /** One more `map.set(slot, { count: 0, ... })`. */
  lemma InitialStep<K>(u: seq<K>, total: nat, i: nat)
    requires i < |u|
    ensures Fresh(u, total, i)[u[i] := Entry(0, total, [])] == Fresh(u, total, i + 1)
  {
    assert u[..i + 1] == u[..i] + [u[i]];
  }

  /** The fresh entries are the tally of no rows. */
  lemma InitialIsTally<K>(u: seq<K>, total: nat)
    ensures Fresh(u, total, |u|) == Tally(u, total, [])
  {
    assert u[..|u|] == u;
  }

  /** A row starts from the tally of the rows before it. */
  lemma MidwayStart<K>(u: seq<K>, total: nat, done: seq<Row<K>>, row: Row<K>)
    ensures Midway(u, total, done, row, 0) == Tally(u, total, done)
  {
    var a, b := Midway(u, total, done, row, 0), Tally(u, total, done);
    forall x | x in u ensures a[x] == b[x] {
      assert Occurrences(u[..0], x) == 0;
    }
  }

  /** Growing a prefix by one element adds one occurrence of that element. */
  lemma OccurrencesStep<K>(u: seq<K>, j: nat, x: K)
    requires j < |u|
    ensures Occurrences(u[..j + 1], x) == Occurrences(u[..j], x) + (if u[j] == x then 1 else 0)
  {
    assert u[..j + 1][..j] == u[..j];
  }

  /** A held slot gains one count and the row's name. */
  lemma MidwayHeld<K>(u: seq<K>, total: nat, done: seq<Row<K>>, row: Row<K>, j: nat)
    requires j < |u| && Holds(row, u[j])
    ensures var m := Midway(u, total, done, row, j);
      && u[j] in m
      && Midway(u, total, done, row, j + 1)
         == m[u[j] := Entry(m[u[j]].count + 1, m[u[j]].total, m[u[j]].participants + [row.name])]
  {
    var m, n := Midway(u, total, done, row, j), Midway(u, total, done, row, j + 1);
    var y := u[j];
    forall x | x in u ensures n[x] == m[y := Entry(m[y].count + 1, m[y].total, m[y].participants + [row.name])][x] {
      OccurrencesStep(u, j, x);
    }
  }

  /** A slot the row does not hold leaves the map as it is. */
  lemma MidwayNotHeld<K>(u: seq<K>, total: nat, done: seq<Row<K>>, row: Row<K>, j: nat)
    requires j < |u| && !Holds(row, u[j])
    ensures Midway(u, total, done, row, j + 1) == Midway(u, total, done, row, j)
  {
    var m, n := Midway(u, total, done, row, j), Midway(u, total, done, row, j + 1);
    forall x | x in u ensures n[x] == m[x] {
      OccurrencesStep(u, j, x);
    }
  }

  /** After the whole universe, the row is part of the tally. */
  lemma MidwayEnd<K>(u: seq<K>, total: nat, rows: seq<Row<K>>, r: nat)
    requires r < |rows|
    ensures Midway(u, total, rows[..r], rows[r], |u|) == Tally(u, total, rows[..r + 1])
  {
    var done := rows[..r + 1];
    assert done[..|done| - 1] == rows[..r];
    assert u[..|u|] == u;
  }

  /** Every universe slot has an entry, no other key does, and every entry's total is the number of rows. */
  lemma HeatmapKeys<K>(u: seq<K>, rows: seq<Row<K>>)
    ensures forall x :: x in HeatmapOf(u, rows) <==> x in u
    ensures forall x :: x in HeatmapOf(u, rows) ==> HeatmapOf(u, rows)[x].total == |rows|
  {
  }

  /** An entry's count is always the length of its participant list. */
  lemma {:induction false} TalliedIsLength<K>(u: seq<K>, done: seq<Row<K>>, x: K)
    ensures Tallied(u, done, x) == |Pushed(u, done, x)|
    decreases |done|
  {
    if |done| > 0 {
      TalliedIsLength(u, done[..|done| - 1], x);
      CopiesLength(done[|done| - 1].name, Occurrences(u, x));
    }
  }

  lemma {:induction false} CopiesLength<T>(v: T, n: nat)
    ensures |Copies(v, n)| == n
  {
    if n > 0 {
      CopiesLength(v, n - 1);
    }
  }

  /** In a heatmap, `count` equals the number of names in `participants`. */
  lemma CountIsParticipants<K>(u: seq<K>, rows: seq<Row<K>>, x: K)
    requires x in u
    ensures x in HeatmapOf(u, rows)
    ensures HeatmapOf(u, rows)[x].count == |HeatmapOf(u, rows)[x].participants|
  {
    TalliedIsLength(u, rows, x);
  }

  /** In a duplicate-free universe a slot occurs once. */
  lemma {:induction false} DistinctOccursOnce<K>(u: seq<K>, x: K)
    requires Distinct(u) && x in u
    ensures Occurrences(u, x) == 1
    decreases |u|
  {
    var init := u[..|u| - 1];
    assert Distinct(init);
    if u[|u| - 1] == x {
      assert x !in init;
      AbsentNoOccurrences(init, x);
    } else {
      assert x in init;
      DistinctOccursOnce(init, x);
    }
  }

  lemma {:induction false} AbsentNoOccurrences<K>(s: seq<K>, x: K)
    requires x !in s
    ensures Occurrences(s, x) == 0
    decreases |s|
  {
    if |s| > 0 {
      assert s[|s| - 1] != x;
      AbsentNoOccurrences(s[..|s| - 1], x);
    }
  }

  /** With one occurrence of `x`, the pushed names are the names of the rows holding `x`. */
  lemma {:induction false} PushedOnce<K>(u: seq<K>, done: seq<Row<K>>, x: K)
    requires Occurrences(u, x) == 1
    ensures Pushed(u, done, x) == Holders(done, x)
    decreases |done|
  {
    if |done| > 0 {
      PushedOnce(u, done[..|done| - 1], x);
      assert Copies(done[|done| - 1].name, 1) == [done[|done| - 1].name];
    }
  }

  /** At most one name per row. */
  lemma {:induction false} HoldersBound<K>(rows: seq<Row<K>>, x: K)
    ensures |Holders(rows, x)| <= |rows|
    ensures |Holders(rows, x)| == |rows| <==> forall i :: 0 <= i < |rows| ==> Holds(rows[i], x)
    decreases |rows|
  {
    if |rows| > 0 {
      var init := rows[..|rows| - 1];
      HoldersBound(init, x);
      if forall i :: 0 <= i < |init| ==> Holds(init[i], x) {
        assert forall i :: 0 <= i < |init| ==> Holds(rows[i], x);
      } else {
        var i :| 0 <= i < |init| && !Holds(init[i], x);
        assert !Holds(rows[i], x);
      }
    }
  }

  /** No name at all exactly when no row holds `x`. */
  lemma {:induction false} HoldersEmpty<K>(rows: seq<Row<K>>, x: K)
    ensures |Holders(rows, x)| == 0 <==> forall i :: 0 <= i < |rows| ==> !Holds(rows[i], x)
    decreases |rows|
  {
    if |rows| > 0 {
      var init := rows[..|rows| - 1];
      HoldersEmpty(init, x);
      if forall i :: 0 <= i < |init| ==> !Holds(init[i], x) {
        assert forall i :: 0 <= i < |init| ==> !Holds(rows[i], x);
      } else {
        var i :| 0 <= i < |init| && Holds(init[i], x);
        assert Holds(rows[i], x);
      }
    }
  }

  /**
   * For a duplicate-free universe, a slot's participants are the names of the rows holding it,
   * in row order, and its count is their number, which never exceeds the number of rows.
   */
  lemma DistinctUniverseEntry<K>(u: seq<K>, rows: seq<Row<K>>, x: K)
    requires Distinct(u) && x in u
    ensures x in HeatmapOf(u, rows)
    ensures HeatmapOf(u, rows)[x].participants == Holders(rows, x)
    ensures HeatmapOf(u, rows)[x].count == |Holders(rows, x)| <= HeatmapOf(u, rows)[x].total
  {
    DistinctOccursOnce(u, x);
    PushedOnce(u, rows, x);
    TalliedIsLength(u, rows, x);
    HoldersBound(rows, x);
  }

  /** Rows that agree on names and on membership of universe slots give the same counts. */
  lemma {:induction false} TallySameRows<K>(u: seq<K>, a: seq<Row<K>>, b: seq<Row<K>>, x: K)
    requires |a| == |b| && x in u
    requires forall i :: 0 <= i < |a| ==> a[i].name == b[i].name && (Holds(a[i], x) <==> Holds(b[i], x))
    ensures Tallied(u, a, x) == Tallied(u, b, x) && Pushed(u, a, x) == Pushed(u, b, x)
    decreases |a|
  {
    if |a| > 0 {
      TallySameRows(u, a[..|a| - 1], b[..|b| - 1], x);
    }
  }

  /**
   * Only the names and the membership of universe slots in each row matter: slots outside the
   * universe are ignored, and a null `slots` field is the same as an empty one.
   */
  lemma HeatmapSameRows<K>(u: seq<K>, a: seq<Row<K>>, b: seq<Row<K>>)
    requires |a| == |b|
    requires forall i :: 0 <= i < |a| ==> a[i].name == b[i].name
    requires forall i, x :: 0 <= i < |a| && x in u ==> (Holds(a[i], x) <==> Holds(b[i], x))
    ensures HeatmapOf(u, a) == HeatmapOf(u, b)
  {
    forall x | x in u ensures HeatmapOf(u, a)[x] == HeatmapOf(u, b)[x] {
      TallySameRows(u, a, b, x);
    }
  }

  /** A row whose `slots` field is null counts exactly as one with no slots. */
  lemma NullSlotsAsEmpty<K>(u: seq<K>, rows: seq<Row<K>>, i: nat, name: string)
    requires i < |rows|
    ensures HeatmapOf(u, rows[i := Row(name, None)]) == HeatmapOf(u, rows[i := Row(name, Some([]))])
  {
    HeatmapSameRows(u, rows[i := Row(name, None)], rows[i := Row(name, Some([]))]);
  }

  /** What `findBestSlots(heatmap, total)` returns. */
  function BestOf<K(==)>(heat: map<K, Entry>, total: int): set<K> {
    if total == 0 then {} else set x | x in heat && heat[x].count == total
  }

  /** `findBestSlots`: an early exit for no participants, then one pass over the entries. */
  method FindBestSlots<K(==)>(heat: map<K, Entry>, total: int) returns (best: set<K>)
    ensures best == BestOf(heat, total)
    ensures best <= heat.Keys
    ensures total == 0 ==> best == {}
    ensures total != 0 ==> forall x :: x in best <==> x in heat && heat[x].count == total
  {
    best := {};
    if total == 0 {
      return;
    }
    var remaining := heat.Keys;
    while remaining != {}
      invariant remaining <= heat.Keys
      invariant best == set x | x in heat && x !in remaining && heat[x].count == total
      decreases remaining
    {
      var slot :| slot in remaining;
      if heat[slot].count == total {
        best := best + {slot};
      }
      remaining := remaining - {slot};
    }
  }

  /**
   * For a duplicate-free universe and at least one row, the best slots are exactly the
   * universe slots that every row holds.
   */
  lemma BestOfHeatmap<K>(u: seq<K>, rows: seq<Row<K>>, x: K)
    requires Distinct(u) && |rows| > 0
    ensures x in BestOf(HeatmapOf(u, rows), |rows|)
        <==> x in u && forall i :: 0 <= i < |rows| ==> Holds(rows[i], x)
  {
    if x in u {
      DistinctUniverseEntry(u, rows, x);
      HoldersBound(rows, x);
    }
  }

  /** The branches of `heatmapColor`; the opacity of the terracotta shade is not modelled. */
  datatype CellColor = Uncoloured | Green | Terracotta

  /** `heatmapColor(count, total)`: `ratio === 1` is modelled as `count == total`. */
  function HeatmapColor(count: int, total: int): CellColor {
    if total == 0 || count == 0 then Uncoloured
    else if count == total then Green
    else Terracotta
  }

  /**
   * For a duplicate-free universe, a cell is uncoloured exactly when there are no rows or no row
   * holds its slot, and green exactly when its slot is one of the best slots.
   */
  lemma HeatmapColorOfEntry<K>(u: seq<K>, rows: seq<Row<K>>, x: K)
    requires Distinct(u) && x in u
    ensures x in HeatmapOf(u, rows)
    ensures var e := HeatmapOf(u, rows)[x];
      && (HeatmapColor(e.count, e.total) == Uncoloured
          <==> |rows| == 0 || forall i :: 0 <= i < |rows| ==> !Holds(rows[i], x))
      && (HeatmapColor(e.count, e.total) == Green <==> x in BestOf(HeatmapOf(u, rows), |rows|))
  {
    DistinctUniverseEntry(u, rows, x);
    HoldersEmpty(rows, x);
  }
}
