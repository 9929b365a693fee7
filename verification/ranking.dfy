/** Ranking of candidate communities, largest first
    (app/modules/clustering/cluster_maker.py:77). Python's
    `sorted(key=len, reverse=True)` is stable, also in reverse mode:
    candidates of equal size keep the order they were extracted in. */
module Ranking {
  import opened Communities

  /** The communities of `s` that have exactly `n` members, in order. */
  function OfSize(s: seq<Community>, n: nat): seq<Community>
  {
    if s == [] then []
    else (if |s[0]| == n then [s[0]] else []) + OfSize(s[1..], n)
  }

  /** Sizes never grow along `s`. */
  predicate NonIncreasingSize(s: seq<Community>)
  {
    forall i, j :: 0 <= i < j < |s| ==> |s[i]| >= |s[j]|
  }

  /** Inserts `c` before the first community that is not larger than it, so
      that `c` precedes the equally sized communities of `s`. */
  function InsertBySize(c: Community, s: seq<Community>): (r: seq<Community>)
    ensures multiset(r) == multiset(s) + multiset{c}
  {
    if s == [] || |s[0]| <= |c| then [c] + s
    else
      assert s == [s[0]] + s[1..];
      [s[0]] + InsertBySize(c, s[1..])
  }

  /** Inserting a community no larger than `b` among communities no larger
      than `b` gives communities no larger than `b`. */
  lemma InsertKeepsBound(c: Community, s: seq<Community>, b: nat)
    requires |c| <= b
    requires forall k :: 0 <= k < |s| ==> |s[k]| <= b
    ensures forall k :: 0 <= k < |InsertBySize(c, s)| ==> |InsertBySize(c, s)[k]| <= b
  {
    var r := InsertBySize(c, s);
    forall k | 0 <= k < |r|
      ensures |r[k]| <= b
    {
      assert r[k] in multiset(r);
      if r[k] != c {
        assert r[k] in multiset(s);
      }
    }
  }

  /** A community at least as large as everything after it can lead a
      size-ordered sequence. */
  lemma ConsKeepsOrder(c: Community, t: seq<Community>)
    requires NonIncreasingSize(t)
    requires forall k :: 0 <= k < |t| ==> |t[k]| <= |c|
    ensures NonIncreasingSize([c] + t)
  {
    var r := [c] + t;
    forall i, j | 0 <= i < j < |r|
      ensures |r[i]| >= |r[j]|
    {
      assert r[j] == t[j - 1];
      if i > 0 {
        assert r[i] == t[i - 1];
      }
    }
  }

  /** Inserting into a size-ordered sequence keeps it size-ordered. */
  lemma {:induction false} InsertKeepsOrder(c: Community, s: seq<Community>)
    requires NonIncreasingSize(s)
    ensures NonIncreasingSize(InsertBySize(c, s))
  {
    if s == [] || |s[0]| <= |c| {
      ConsKeepsOrder(c, s);
    } else {
      var tail := s[1..];
      assert NonIncreasingSize(tail) by {
        forall i, j | 0 <= i < j < |tail|
          ensures |tail[i]| >= |tail[j]|
        {
          assert tail[i] == s[i + 1] && tail[j] == s[j + 1];
        }
      }
      InsertKeepsOrder(c, tail);
      assert forall k :: 0 <= k < |tail| ==> |tail[k]| <= |s[0]| by {
        forall k | 0 <= k < |tail|
          ensures |tail[k]| <= |s[0]|
        {
          assert tail[k] == s[k + 1];
        }
      }
      InsertKeepsBound(c, tail, |s[0]|);
      ConsKeepsOrder(s[0], InsertBySize(c, tail));
    }
  }

  /** Insertion puts `c` ahead of the communities of its own size and leaves
      every other size class alone. */
  lemma {:induction false} InsertIsStable(c: Community, s: seq<Community>, n: nat)
    ensures OfSize(InsertBySize(c, s), n) == (if |c| == n then [c] else []) + OfSize(s, n)
  {
    if s == [] || |s[0]| <= |c| {
      assert ([c] + s)[1..] == s;
    } else {
      var rest := InsertBySize(c, s[1..]);
      InsertIsStable(c, s[1..], n);
      assert ([s[0]] + rest)[1..] == rest;
    }
  }

  /** The ranking of line 77: a stable sort by size, largest first. Its
      contract: a permutation of the candidates, sizes non-increasing, and
      for every size the communities of that size in their original order. */
  function RankBySize(s: seq<Community>): (r: seq<Community>)
    ensures multiset(r) == multiset(s)
    ensures NonIncreasingSize(r)
    ensures forall n: nat :: OfSize(r, n) == OfSize(s, n)
  {
    if s == [] then []
    else
      var rest := RankBySize(s[1..]);
      assert s == [s[0]] + s[1..];
      InsertKeepsOrder(s[0], rest);
      forall n: nat
        ensures OfSize(InsertBySize(s[0], rest), n) == OfSize(s, n)
      {
        InsertIsStable(s[0], rest, n);
      }
      InsertBySize(s[0], rest)
  }

  /** A community of size `n` occurs in `s` exactly when it occurs among the
      communities of size `n`. */
  lemma {:induction false} OfSizeMembership(s: seq<Community>, n: nat, x: Community)
    ensures x in OfSize(s, n) <==> x in s && |x| == n
  {
    if s != [] {
      OfSizeMembership(s[1..], n, x);
      assert s == [s[0]] + s[1..];
    }
  }

  /** Two size-ordered sequences that agree on the communities of every
      size start with the same community. */
  lemma SizeOrderedHeadsAgree(a: seq<Community>, b: seq<Community>)
    requires NonIncreasingSize(a) && NonIncreasingSize(b)
    requires forall n: nat :: OfSize(a, n) == OfSize(b, n)
    requires a != []
    ensures b != [] && a[0] == b[0]
  {
    var n0 := |a[0]|;
    OfSizeMembership(a, n0, a[0]);
    OfSizeMembership(b, n0, a[0]);
    var n1 := |b[0]|;
    OfSizeMembership(b, n1, b[0]);
    OfSizeMembership(a, n1, b[0]);
    assert n1 == n0;
    assert OfSize(a, n0) == [a[0]] + OfSize(a[1..], n0);
    assert OfSize(b, n0) == [b[0]] + OfSize(b[1..], n0);
  }

  /** Dropping the same head from two sequences keeps their size classes
      equal. */
  lemma SameHeadSameTailClasses(a: seq<Community>, b: seq<Community>, n: nat)
    requires a != [] && b != [] && a[0] == b[0]
    requires OfSize(a, n) == OfSize(b, n)
    ensures OfSize(a[1..], n) == OfSize(b[1..], n)
  {
    var x, y := OfSize(a[1..], n), OfSize(b[1..], n);
    if |a[0]| == n {
      assert OfSize(a, n) == [a[0]] + x && OfSize(b, n) == [b[0]] + y;
      assert ([a[0]] + x)[1..] == x && ([b[0]] + y)[1..] == y;
    } else {
      assert OfSize(a, n) == x && OfSize(b, n) == y;
    }
  }

  /** Two size-ordered sequences that agree on the communities of every
      size are equal. */
  lemma {:induction false} SizeOrderedIsDeterminedByClasses(a: seq<Community>, b: seq<Community>)
    requires NonIncreasingSize(a) && NonIncreasingSize(b)
    requires forall n: nat :: OfSize(a, n) == OfSize(b, n)
    ensures a == b
  {
    if a == [] {
      if b != [] {
        OfSizeMembership(b, |b[0]|, b[0]);
      }
    } else {
      SizeOrderedHeadsAgree(a, b);
      forall n: nat
        ensures OfSize(a[1..], n) == OfSize(b[1..], n)
      {
        SameHeadSameTailClasses(a, b, n);
      }
      SizeOrderedIsDeterminedByClasses(a[1..], b[1..]);
      assert a == [a[0]] + a[1..] && b == [b[0]] + b[1..];
    }
  }

  /** The ranking is the only stable largest-first ordering of the
      candidates: any ordering with non-increasing sizes that keeps equally
      sized candidates in their original order is `RankBySize(s)`. */
  lemma StableSortIsUnique(s: seq<Community>, t: seq<Community>)
    requires NonIncreasingSize(t)
    requires forall n: nat :: OfSize(t, n) == OfSize(s, n)
    ensures t == RankBySize(s)
  {
    SizeOrderedIsDeterminedByClasses(t, RankBySize(s));
  }
}
