/**
 * Facts about sequences used by several parts of the scheduler: duplicate-free lists and the
 * number of occurrences of a value.
 */
module Collections {

  /** No value occurs twice. */
  predicate Distinct<T(==)>(s: seq<T>) {
    forall a, b :: 0 <= a < b < |s| ==> s[a] != s[b]
  }

  /** Two duplicate-free lists with no common value join into a duplicate-free list. */
  lemma DistinctConcat<T>(xs: seq<T>, ys: seq<T>)
    requires Distinct(xs) && Distinct(ys)
    requires forall y :: y in ys ==> y !in xs
    ensures Distinct(xs + ys)
  {
    var s := xs + ys;
    forall a, b | 0 <= a < b < |s| ensures s[a] != s[b] {
      if b < |xs| {
        assert s[a] == xs[a] && s[b] == xs[b];
      } else if a >= |xs| {
        assert s[a] == ys[a - |xs|] && s[b] == ys[b - |xs|];
      } else {
        assert s[a] == xs[a] && s[b] == ys[b - |xs|];
        assert ys[b - |xs|] in ys;
      }
    }
  }

  /** `[...new Set(s)]`: the values of `s` in order of first occurrence. */
  function Dedup<T(==)>(s: seq<T>): seq<T>
    decreases |s|
  {
    if |s| == 0 then []
    else
      var d := Dedup(s[..|s| - 1]);
      if s[|s| - 1] in d then d else d + [s[|s| - 1]]
  }

  /** De-duplication keeps exactly the values of the list, once each. */
  lemma {:induction false} DedupMembers<T>(s: seq<T>)
    ensures forall x :: x in Dedup(s) <==> x in s
    ensures Distinct(Dedup(s))
    decreases |s|
  {
    if |s| > 0 {
      var init := s[..|s| - 1];
      DedupMembers(init);
      assert s == init + [s[|s| - 1]];
      var d := Dedup(init);
      if s[|s| - 1] !in d {
        DistinctConcat(d, [s[|s| - 1]]);
      }
    }
  }

  /** A duplicate-free list is its own de-duplication. */
  lemma {:induction false} DedupDistinct<T>(s: seq<T>)
    requires Distinct(s)
    ensures Dedup(s) == s
    decreases |s|
  {
    if |s| > 0 {
      var init := s[..|s| - 1];
      assert Distinct(init);
      DedupDistinct(init);
      assert s[|s| - 1] !in init;
      assert s == init + [s[|s| - 1]];
    }
  }

  /** Appending values already present does not change the de-duplication. */
  lemma {:induction false} DedupAppendSeen<T>(xs: seq<T>, ys: seq<T>)
    requires forall y :: y in ys ==> y in xs
    ensures Dedup(xs + ys) == Dedup(xs)
    decreases |ys|
  {
    if |ys| > 0 {
      var init := ys[..|ys| - 1];
      DedupAppendSeen(xs, init);
      var s := xs + ys;
      assert s[..|s| - 1] == xs + init;
      assert s[|s| - 1] == ys[|ys| - 1];
      DedupMembers(xs + init);
    } else {
      assert xs + ys == xs;
    }
  }

  /** A value of the first list is a value of the concatenation. */
  lemma InConcatLeft<T>(xs: seq<T>, ys: seq<T>, x: T)
    requires x in xs
    ensures x in xs + ys
  {
    var j :| 0 <= j < |xs| && xs[j] == x;
    assert (xs + ys)[j] == x;
  }

  /** A value of the second list is a value of the concatenation. */
  lemma InConcatRight<T>(xs: seq<T>, ys: seq<T>, k: nat)
    requires k < |ys|
    ensures ys[k] in xs + ys
  {
    assert (xs + ys)[|xs| + k] == ys[k];
  }
}
