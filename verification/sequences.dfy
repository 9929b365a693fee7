/** Small facts about sequences shared by the clustering model. */
module Sequences {

  /** The set of values occurring in `s` (Python's `set(s)`). */
  function Elems<T>(s: seq<T>): set<T>
  {
    set x | x in s
  }

  /** No value occurs twice in `s`. */
  predicate NoDup<T(==)>(s: seq<T>)
  {
    forall i, j :: 0 <= i < j < |s| ==> s[i] != s[j]
  }

  /** Every element is smaller than the next one. */
  predicate StrictlyIncreasing(s: seq<nat>)
  {
    forall i, j :: 0 <= i < j < |s| ==> s[i] < s[j]
  }

  /** A duplicate-free sequence has as many distinct values as elements. */
  lemma {:induction false} NoDupCardinality<T>(s: seq<T>)
    requires NoDup(s)
    ensures |Elems(s)| == |s|
  {
    if s != [] {
      NoDupCardinality(s[1..]);
      assert Elems(s) == {s[0]} + Elems(s[1..]);
      assert s[0] !in Elems(s[1..]) by {
        forall k | 0 <= k < |s[1..]|
          ensures s[1..][k] != s[0]
        {
          assert s[1..][k] == s[k + 1];
        }
      }
    }
  }

  /** A sequence has at most as many distinct values as elements. */
  lemma {:induction false} CardinalityAtMostLength<T>(s: seq<T>)
    ensures |Elems(s)| <= |s|
  {
    if s != [] {
      CardinalityAtMostLength(s[1..]);
      assert Elems(s) == {s[0]} + Elems(s[1..]);
    }
  }

  /** The `j`-th element of a strictly increasing sequence of naturals is
      at least `j`. */
  lemma {:induction false} IncreasingDominatesIndex(s: seq<nat>, j: nat)
    requires StrictlyIncreasing(s)
    requires j < |s|
    ensures s[j] >= j
  {
    if j > 0 {
      IncreasingDominatesIndex(s, j - 1);
    }
  }

  /** A strictly increasing sequence of naturals below `n` has at most `n`
      elements. */
  lemma IncreasingBelowIsShort(s: seq<nat>, n: nat)
    requires StrictlyIncreasing(s)
    requires forall j :: 0 <= j < |s| ==> s[j] < n
    ensures |s| <= n
  {
    if s != [] {
      IncreasingDominatesIndex(s, |s| - 1);
    }
  }
}
