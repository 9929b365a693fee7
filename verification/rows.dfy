/** One row of the cosine-similarity matrix and the two ways
    `_detect_clusters` collects a seed's neighbours from it
    (app/modules/clustering/cluster_maker.py:55-72).

    The floating-point similarity computation is not modelled: a row is a
    sequence of reals, and the ordering that `torch.topk` produces is an
    input, a permutation of the row's indices listed most similar first. */
module Rows {
  import opened Sequences

  type Row = seq<real>

  /** Indices of `row` whose similarity reaches the threshold. */
  function ThresholdSet(row: Row, t: real): set<nat>
  {
    set j: nat | j < |row| && row[j] >= t
  }

  /** Every entry of `idxs` indexes into `row`. */
  predicate IndicesIn(row: Row, idxs: seq<nat>)
  {
    forall p :: 0 <= p < |idxs| ==> idxs[p] < |row|
  }

  /** `o` lists every index of `row` exactly once, most similar first; ties
      may come in any order. */
  predicate DescendingOrder(row: Row, o: seq<nat>)
  {
    && |o| == |row|
    && IndicesIn(row, o)
    && NoDup(o)
    && (forall j: nat :: j < |row| ==> j in o)
    && (forall p, q :: 0 <= p < q < |o| ==> row[o[p]] >= row[o[q]])
  }

  /** The scan of the top-k window (lines 63-67): take indices in order
      while their similarity reaches the threshold, stop at the first one
      below it. The contract says `r` is the longest such prefix. */
  function TakeWhileAbove(row: Row, idxs: seq<nat>, t: real): (r: seq<nat>)
    requires IndicesIn(row, idxs)
    ensures r <= idxs
    ensures forall p :: 0 <= p < |r| ==> row[r[p]] >= t
    ensures |r| < |idxs| ==> row[idxs[|r|]] < t
  {
    if idxs == [] || row[idxs[0]] < t then []
    else [idxs[0]] + TakeWhileAbove(row, idxs[1..], t)
  }

  /** The scan result is characterised by where it stops: a prefix whose
      values all reach the threshold, followed by a value below it or by the
      end of the list. */
  lemma TakeWhileIsLongestPrefix(row: Row, idxs: seq<nat>, t: real, q: nat)
    requires IndicesIn(row, idxs)
    requires q <= |idxs|
    requires forall e :: 0 <= e < q ==> row[idxs[e]] >= t
    requires q < |idxs| ==> row[idxs[q]] < t
    ensures TakeWhileAbove(row, idxs, t) == idxs[..q]
  {
  }

  /** The full scan of lines 70-72 over the indices `from..|row|-1`: every
      index whose similarity reaches the threshold, in increasing order. */
  function ScanFrom(row: Row, t: real, from: nat): (r: seq<nat>)
    requires from <= |row|
    decreases |row| - from
    ensures StrictlyIncreasing(r)
    ensures forall p :: 0 <= p < |r| ==> from <= r[p] < |row|
    ensures Elems(r) == set j: nat | from <= j < |row| && row[j] >= t
  {
    if from == |row| then []
    else
      var rest := ScanFrom(row, t, from + 1);
      assert (set j: nat | from <= j < |row| && row[j] >= t)
          == (if row[from] >= t then {from} else {})
             + (set j: nat | from + 1 <= j < |row| && row[j] >= t);
      if row[from] >= t then
        assert Elems([from] + rest) == {from} + Elems(rest);
        [from] + rest
      else rest
  }

  /** `enumerate(cos_scores[i].tolist())` filtered by the threshold. */
  function FullScan(row: Row, t: real): (r: seq<nat>)
    ensures StrictlyIncreasing(r)
    ensures Elems(r) == ThresholdSet(row, t)
  {
    ScanFrom(row, t, 0)
  }

  /** The candidate community of one seed row (lines 55-72): the window is
      the `validK` most similar indices; when its last value is below the
      threshold the window is scanned, otherwise the whole row is. */
  function Candidate(row: Row, o: seq<nat>, t: real, validK: nat): (c: seq<nat>)
    requires DescendingOrder(row, o)
    requires 1 <= validK <= |row|
    ensures Elems(c) == ThresholdSet(row, t)
    ensures NoDup(c)
  {
    var window := o[..validK];
    if row[window[validK - 1]] < t then
      TakeWhileIgnoresTail(row, o, t, validK, validK - 1);
      DescendingScanIsThresholdSet(row, o, t);
      TakeWhileAbove(row, window, t)
    else FullScan(row, t)
  }

  /** Positions from the first value below the threshold onwards stay below
      it in a descending ordering. */
  lemma BelowStaysBelow(row: Row, o: seq<nat>, t: real, c: nat, p: nat)
    requires DescendingOrder(row, o)
    requires c <= p < |o|
    requires row[o[c]] < t
    ensures row[o[p]] < t
  {
  }

  /** Scanning a full descending ordering while the threshold holds yields
      exactly the threshold set, without repetitions. */
  lemma {:induction false} DescendingScanIsThresholdSet(row: Row, o: seq<nat>, t: real)
    requires DescendingOrder(row, o)
    ensures Elems(TakeWhileAbove(row, o, t)) == ThresholdSet(row, t)
    ensures NoDup(TakeWhileAbove(row, o, t))
    ensures |ThresholdSet(row, t)| == |TakeWhileAbove(row, o, t)|
  {
    var r := TakeWhileAbove(row, o, t);
    var c := |r|;
    assert r == o[..c];
    forall j: nat | j in ThresholdSet(row, t)
      ensures j in Elems(r)
    {
      assert j < |row| && j in o;
      var p :| 0 <= p < |o| && o[p] == j;
      if p >= c {
        BelowStaysBelow(row, o, t, c, p);
        assert false;
      }
      assert r[p] == j;
    }
    forall j | j in Elems(r)
      ensures j in ThresholdSet(row, t)
    {
      var p :| 0 <= p < |r| && r[p] == j;
      assert row[j] >= t;
    }
    assert NoDup(r) by {
      forall i, k | 0 <= i < k < |r|
        ensures r[i] != r[k]
      {
        assert r[i] == o[i] && r[k] == o[k];
      }
    }
    NoDupCardinality(r);
  }

  /** Cutting the index list after a position whose value is already below
      the threshold changes nothing. */
  lemma {:induction false} TakeWhileIgnoresTail(row: Row, idxs: seq<nat>, t: real, k: nat, p: nat)
    requires IndicesIn(row, idxs)
    requires p < k <= |idxs|
    requires row[idxs[p]] < t
    ensures TakeWhileAbove(row, idxs[..k], t) == TakeWhileAbove(row, idxs, t)
  {
    if row[idxs[0]] >= t {
      assert p > 0;
      assert idxs[..k][1..] == idxs[1..][..k - 1];
      TakeWhileIgnoresTail(row, idxs[1..], t, k - 1, p - 1);
    }
  }

  /** Seed rule (line 50): the `m`-th largest value reaches the threshold
      exactly when at least `m` indices of the row reach it, whichever
      order ties come in. */
  lemma SeedRuleCountsNeighbours(row: Row, o: seq<nat>, t: real, m: nat)
    requires DescendingOrder(row, o)
    requires 1 <= m <= |row|
    ensures row[o[m - 1]] >= t <==> |ThresholdSet(row, t)| >= m
  {
    DescendingScanIsThresholdSet(row, o, t);
    var c := |TakeWhileAbove(row, o, t)|;
    if m > c {
      BelowStaysBelow(row, o, t, c, m - 1);
    }
  }

  /** Both paths of the candidate construction collect exactly the indices
      whose similarity reaches the threshold, each once: the prefix path
      loses nothing, the full-scan path adds nothing. */
  lemma CandidateIsThresholdSet(row: Row, o: seq<nat>, t: real, validK: nat)
    requires DescendingOrder(row, o)
    requires 1 <= validK <= |row|
    ensures Elems(Candidate(row, o, t, validK)) == ThresholdSet(row, t)
    ensures NoDup(Candidate(row, o, t, validK))
    ensures |Candidate(row, o, t, validK)| == |ThresholdSet(row, t)|
  {
    if row[o[validK - 1]] < t {
      TakeWhileIgnoresTail(row, o, t, validK, validK - 1);
      DescendingScanIsThresholdSet(row, o, t);
    } else {
      var r := FullScan(row, t);
      NoDupCardinality(r);
    }
  }

  /** Why the full-scan fallback exists: when the window's last value
      still reaches the threshold and more indices qualify than the window
      holds, scanning the window alone would miss some of them. */
  lemma WindowAloneWouldTruncate(row: Row, o: seq<nat>, t: real, validK: nat)
    requires DescendingOrder(row, o)
    requires 1 <= validK <= |row|
    requires row[o[validK - 1]] >= t
    requires validK < |ThresholdSet(row, t)|
    ensures Elems(TakeWhileAbove(row, o[..validK], t)) != ThresholdSet(row, t)
  {
    var r := TakeWhileAbove(row, o[..validK], t);
    var e := Elems(r);
    assert |e| <= |r| by {
      CardinalityAtMostLength(r);
    }
  }
}
