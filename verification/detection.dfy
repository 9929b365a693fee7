/** `_detect_clusters` (app/modules/clustering/cluster_maker.py:40-95):
    seed qualification, candidate construction, ranking by size and greedy
    removal of overlapping communities.

    The cosine-similarity matrix of line 42 is an input: `sim[i][j]` is the
    similarity of items `i` and `j`, and `order[i]` is the order in which
    `torch.topk` lists row `i`, most similar first. */
module Detection {
  import opened Outcomes
  import opened Sequences
  import opened Communities
  import opened Rows
  import Ranking
  import Greedy

  /** The keyword arguments of `_detect_clusters` (line 40). */
  datatype Params = Params(threshold: real, minCommunitySize: nat, initMaxSize: nat)

  /** The defaults `get_clusters_from_file` runs with (line 111). */
  const DefaultParams := Params(0.85, 15, 5000)

  /** What `_detect_clusters` raises. */
  datatype DetectError =
    | TopKLargerThanRow   // `topk(k=min_community_size)` on rows shorter than k (line 45)
    | EmptyTopK           // `[-1]` of an empty top-k result (lines 50 and 62)

  /** A square similarity matrix with a descending ordering of every row. */
  predicate WellFormed(sim: seq<seq<real>>, order: seq<seq<nat>>)
  {
    && |order| == |sim|
    && forall i :: 0 <= i < |sim| ==> |sim[i]| == |sim| && DescendingOrder(sim[i], order[i])
  }

  /** `valid_k = min(init_max_size, len(cos_scores[i]))` (line 55). */
  function ValidK(p: Params, n: nat): nat
  {
    if p.initMaxSize < n then p.initMaxSize else n
  }

  /** Line 50: the `m`-th largest similarity of row `i` reaches the
      threshold. */
  predicate IsSeed(sim: seq<seq<real>>, order: seq<seq<nat>>, t: real, m: nat, i: nat)
    requires WellFormed(sim, order)
    requires 1 <= m <= |sim| && i < |sim|
  {
    sim[i][order[i][m - 1]] >= t
  }

  /** The rows below `upTo` that qualify as seeds, in increasing order:
      the rows the loop of lines 49-74 has built a candidate for once it
      reaches row `upTo`. */
  function Seeds(sim: seq<seq<real>>, order: seq<seq<nat>>, t: real, m: nat, upTo: nat): (seeds: seq<nat>)
    requires WellFormed(sim, order)
    requires 1 <= m <= |sim| && upTo <= |sim|
    ensures StrictlyIncreasing(seeds)
    ensures forall j :: 0 <= j < |seeds| ==> seeds[j] < upTo
    ensures forall i: nat :: i < upTo ==> (i in seeds <==> IsSeed(sim, order, t, m, i))
  {
    if upTo == 0 then []
    else
      var earlier := Seeds(sim, order, t, m, upTo - 1);
      if IsSeed(sim, order, t, m, upTo - 1) then earlier + [upTo - 1] else earlier
  }

  /** The candidate community of every seed, in seed order (line 74). */
  function Candidates(sim: seq<seq<real>>, order: seq<seq<nat>>, t: real, k: nat, seeds: seq<nat>): (cs: seq<Community>)
    requires WellFormed(sim, order)
    requires 1 <= k <= |sim|
    requires forall j :: 0 <= j < |seeds| ==> seeds[j] < |sim|
    ensures |cs| == |seeds|
  {
    if seeds == [] then []
    else
      var last := |seeds| - 1;
      var i := seeds[last];
      Candidates(sim, order, t, k, seeds[..last]) + [Candidate(sim[i], order[i], t, k)]
  }

  /** The `j`-th candidate is the one built from the `j`-th seed. */
  lemma {:induction false} CandidatesAt(sim: seq<seq<real>>, order: seq<seq<nat>>, t: real, k: nat, seeds: seq<nat>, j: nat)
    requires WellFormed(sim, order)
    requires 1 <= k <= |sim|
    requires forall j :: 0 <= j < |seeds| ==> seeds[j] < |sim|
    requires j < |seeds|
    ensures Candidates(sim, order, t, k, seeds)[j] == Candidate(sim[seeds[j]], order[seeds[j]], t, k)
  {
    var last := |seeds| - 1;
    var earlier := Candidates(sim, order, t, k, seeds[..last]);
    var c := Candidate(sim[seeds[last]], order[seeds[last]], t, k);
    assert Candidates(sim, order, t, k, seeds) == earlier + [c];
    var i := seeds[j];
    if j < last {
      assert seeds[..last][j] == i;
      CandidatesAt(sim, order, t, k, seeds[..last], j);
      assert earlier[j] == Candidate(sim[i], order[i], t, k);
      assert (earlier + [c])[j] == earlier[j];
    } else {
      assert (earlier + [c])[j] == c;
    }
  }

  /** `_detect_clusters` on a similarity matrix. */
  function DetectClusters(sim: seq<seq<real>>, order: seq<seq<nat>>, p: Params): (r: Result<seq<Community>, DetectError>)
    requires WellFormed(sim, order)
    ensures r.Success? ==> PairwiseDisjoint(r.value) && |r.value| <= |sim|
  {
    var n := |sim|;
    var m := p.minCommunitySize;
    if m > n then Failure(TopKLargerThanRow)
    else if m == 0 then (if n == 0 then Success([]) else Failure(EmptyTopK))
    else
      var seeds := Seeds(sim, order, p.threshold, m, n);
      if seeds == [] then Success([])
      else if ValidK(p, n) == 0 then Failure(EmptyTopK)
      else
        var candidates := Candidates(sim, order, p.threshold, ValidK(p, n), seeds);
        var ranked := Ranking.RankBySize(candidates);
        Greedy.SelectIsDisjoint(ranked);
        IncreasingBelowIsShort(seeds, n);
        assert |ranked| == |candidates| by {
          assert |multiset(ranked)| == |multiset(candidates)|;
        }
        Success(Greedy.Select(ranked))
  }

  /** Lines 51-72 as written: the early-exit scan of the top-`validK`
      window, or the scan of the whole row when the window's last value
      still reaches the threshold. */
  method BuildCandidate(row: Row, o: seq<nat>, t: real, validK: nat) returns (newCluster: Community)
    requires DescendingOrder(row, o)
    requires 1 <= validK <= |row|
    ensures newCluster == Candidate(row, o, t, validK)
    ensures Elems(newCluster) == ThresholdSet(row, t)
  {
    var window := o[..validK];
    newCluster := [];
    if row[window[validK - 1]] < t {
      var q := 0;
      while q < validK
        invariant 0 <= q <= validK
        invariant newCluster == window[..q]
        invariant forall e :: 0 <= e < q ==> row[window[e]] >= t
      {
        if row[window[q]] < t {
          break;
        }
        newCluster := newCluster + [window[q]];
        q := q + 1;
      }
      TakeWhileIsLongestPrefix(row, window, t, q);
    } else {
      var q := 0;
      while q < |row|
        invariant 0 <= q <= |row|
        invariant newCluster + ScanFrom(row, t, q) == FullScan(row, t)
      {
        if row[q] >= t {
          newCluster := newCluster + [q];
        }
        q := q + 1;
      }
    }
    CandidateIsThresholdSet(row, o, t, validK);
  }

  /** The seed loop of lines 49-74 as written: a candidate for every seed
      row, in increasing row order; an empty window raises at the first
      seed. */
  method ExtractCommunities(sim: seq<seq<real>>, order: seq<seq<nat>>, p: Params)
    returns (r: Result<seq<Community>, DetectError>)
    requires WellFormed(sim, order)
    requires 1 <= p.minCommunitySize <= |sim|
    ensures var seeds := Seeds(sim, order, p.threshold, p.minCommunitySize, |sim|);
            if seeds == [] then r == Success([])
            else if ValidK(p, |sim|) == 0 then r == Failure(EmptyTopK)
            else r == Success(Candidates(sim, order, p.threshold, ValidK(p, |sim|), seeds))
  {
    var n := |sim|;
    var m, t := p.minCommunitySize, p.threshold;
    var extracted: seq<Community> := [];
    var i := 0;
    while i < n
      invariant 0 <= i <= n
      invariant Extracted(sim, order, p, i, extracted)
    {
      var failed;
      failed, extracted := ExtractRow(sim, order, p, i, extracted);
      if failed {
        assert i in Seeds(sim, order, t, m, n);
        return Failure(EmptyTopK);
      }
      i := i + 1;
    }
    return Success(extracted);
  }

  /** The loop state of lines 49-74 after rows `0..i`: one candidate per
      seed so far, and a usable window size once there is a seed. */
  ghost predicate Extracted(sim: seq<seq<real>>, order: seq<seq<nat>>, p: Params, i: nat,
                            extracted: seq<Community>)
    requires WellFormed(sim, order)
    requires 1 <= p.minCommunitySize <= |sim| && i <= |sim|
  {
    var seeds := Seeds(sim, order, p.threshold, p.minCommunitySize, i);
    && |extracted| == |seeds|
    && (seeds != [] ==> 1 <= ValidK(p, |sim|)
                        && extracted == Candidates(sim, order, p.threshold, ValidK(p, |sim|), seeds))
  }

  /** One iteration of the seed loop: a seed row raises when the window is
      empty and otherwise contributes its candidate. */
  method ExtractRow(sim: seq<seq<real>>, order: seq<seq<nat>>, p: Params, i: nat,
                    extracted: seq<Community>)
    returns (failed: bool, next: seq<Community>)
    requires WellFormed(sim, order)
    requires 1 <= p.minCommunitySize <= |sim| && i < |sim|
    requires Extracted(sim, order, p, i, extracted)
    ensures failed <==> IsSeed(sim, order, p.threshold, p.minCommunitySize, i) && ValidK(p, |sim|) == 0
    ensures !failed ==> Extracted(sim, order, p, i + 1, next)
  {
    var m, t := p.minCommunitySize, p.threshold;
    next := extracted;
    failed := false;
    if sim[i][order[i][m - 1]] >= t {
      var validK := ValidK(p, |sim|);
      if validK == 0 {
        return true, extracted;
      }
      var newCluster := BuildCandidate(sim[i], order[i], t, validK);
      SeedStep(sim, order, t, m, validK, Seeds(sim, order, t, m, i), i);
      next := extracted + [newCluster];
    }
  }

  /** Reaching a seed row appends it to the seeds and its candidate to the
      candidates. */
  lemma SeedStep(sim: seq<seq<real>>, order: seq<seq<nat>>, t: real, m: nat, k: nat,
                 seeds: seq<nat>, i: nat)
    requires WellFormed(sim, order)
    requires 1 <= m <= |sim| && 1 <= k <= |sim| && i < |sim|
    requires seeds == Seeds(sim, order, t, m, i) && IsSeed(sim, order, t, m, i)
    ensures Seeds(sim, order, t, m, i + 1) == seeds + [i]
    ensures Candidates(sim, order, t, k, seeds + [i])
            == Candidates(sim, order, t, k, seeds) + [Candidate(sim[i], order[i], t, k)]
  {
    assert (seeds + [i])[..|seeds|] == seeds;
  }

  /** `_detect_clusters` as written (lines 44-95): the argument checks
      `torch.topk` performs, the seed loop, the ranking and the removal of
      overlapping candidates. */
  method DetectClustersLoop(sim: seq<seq<real>>, order: seq<seq<nat>>, p: Params)
    returns (r: Result<seq<Community>, DetectError>)
    requires WellFormed(sim, order)
    ensures r == DetectClusters(sim, order, p)
  {
    var n := |sim|;
    if p.minCommunitySize > n {
      return Failure(TopKLargerThanRow);
    }
    if p.minCommunitySize == 0 {
      if n == 0 {
        return Success([]);
      }
      return Failure(EmptyTopK);
    }
    var extracted := ExtractCommunities(sim, order, p);
    if extracted.Failure? {
      return Failure(extracted.error);
    }
    var ranked := Ranking.RankBySize(extracted.value);
    var unique := Greedy.RemoveOverlapping(ranked);
    return Success(unique);
  }

  /** A row qualifies as a seed when at least `m` items (itself included,
      when its own similarity reaches the threshold) are similar enough. */
  predicate HasEnoughNeighbours(sim: seq<seq<real>>, t: real, m: nat, i: nat)
    requires i < |sim|
  {
    |ThresholdSet(sim[i], t)| >= m
  }

  /** The community a qualifying seed row contributes: its threshold set,
      listed once each. */
  predicate IsSeedCommunity(sim: seq<seq<real>>, t: real, m: nat, c: Community)
  {
    exists i :: 0 <= i < |sim| && HasEnoughNeighbours(sim, t, m, i)
                && Elems(c) == ThresholdSet(sim[i], t) && NoDup(c)
  }

  /** A valid result of the detection: pairwise disjoint communities of
      corpus indices, each the threshold set of a qualifying seed. */
  predicate ValidClusterSet(sim: seq<seq<real>>, t: real, m: nat, cs: seq<Community>)
  {
    && PairwiseDisjoint(cs)
    && IndicesBelow(cs, |sim|)
    && |cs| <= |sim|
    && forall k :: 0 <= k < |cs| ==> IsSeedCommunity(sim, t, m, cs[k])
  }

  /** The seed rule of line 50 does not depend on how ties are ordered. */
  lemma IsSeedIffEnoughNeighbours(sim: seq<seq<real>>, order: seq<seq<nat>>, t: real, m: nat, i: nat)
    requires WellFormed(sim, order)
    requires 1 <= m <= |sim| && i < |sim|
    ensures IsSeed(sim, order, t, m, i) <==> HasEnoughNeighbours(sim, t, m, i)
  {
    SeedRuleCountsNeighbours(sim[i], order[i], t, m);
  }

  /** The detection raises exactly when the minimum community size exceeds
      the corpus, when it is zero on a non-empty corpus, or when the window
      is empty and some row qualifies as a seed. */
  lemma DetectClustersFailsExactly(sim: seq<seq<real>>, order: seq<seq<nat>>, p: Params)
    requires WellFormed(sim, order)
    ensures DetectClusters(sim, order, p).Failure? <==>
              || p.minCommunitySize > |sim|
              || (p.minCommunitySize == 0 && |sim| > 0)
              || (p.initMaxSize == 0 && p.minCommunitySize >= 1
                  && exists i :: 0 <= i < |sim| && HasEnoughNeighbours(sim, p.threshold, p.minCommunitySize, i))
  {
    var n, m, t := |sim|, p.minCommunitySize, p.threshold;
    if 1 <= m <= n {
      var seeds := Seeds(sim, order, t, m, |sim|);
      if exists i :: 0 <= i < n && HasEnoughNeighbours(sim, t, m, i) {
        var i :| 0 <= i < n && HasEnoughNeighbours(sim, t, m, i);
        IsSeedIffEnoughNeighbours(sim, order, t, m, i);
        assert i in seeds;
      }
      if seeds != [] {
        var i := seeds[0];
        IsSeedIffEnoughNeighbours(sim, order, t, m, i);
      }
    }
  }

  /** Ranking and greedy selection keep only whole candidates, pairwise
      disjoint. */
  lemma SelectionKeepsCandidates(candidates: seq<Community>)
    ensures PairwiseDisjoint(Greedy.Select(Ranking.RankBySize(candidates)))
    ensures forall c :: c in Greedy.Select(Ranking.RankBySize(candidates)) ==> c in candidates
  {
    var ranked := Ranking.RankBySize(candidates);
    var cs := Greedy.Select(ranked);
    Greedy.SelectIsDisjoint(ranked);
    Greedy.SelectIsOrderedSubsequence(ranked);
    var ranks := Greedy.KeptRanks(ranked);
    forall c | c in cs
      ensures c in candidates
    {
      var q :| 0 <= q < |cs| && cs[q] == c;
      assert ranked[ranks[q]] in multiset(candidates);
    }
  }

  /** The `j`-th candidate is the threshold set of a qualifying seed. */
  lemma CandidateIsSeedCommunity(sim: seq<seq<real>>, order: seq<seq<nat>>, t: real, m: nat, k: nat, j: nat)
    requires WellFormed(sim, order)
    requires 1 <= m <= |sim| && 1 <= k <= |sim|
    requires j < |Seeds(sim, order, t, m, |sim|)|
    ensures IsSeedCommunity(sim, t, m, Candidates(sim, order, t, k, Seeds(sim, order, t, m, |sim|))[j])
    ensures forall x :: x in Candidates(sim, order, t, k, Seeds(sim, order, t, m, |sim|))[j] ==> x < |sim|
  {
    var seeds := Seeds(sim, order, t, m, |sim|);
    var c := Candidates(sim, order, t, k, seeds)[j];
    var i := seeds[j];
    IsSeedIffEnoughNeighbours(sim, order, t, m, i);
    CandidatesAt(sim, order, t, k, seeds, j);
    CandidateIsThresholdSet(sim[i], order[i], t, k);
    assert HasEnoughNeighbours(sim, t, m, i);
    assert Elems(c) == ThresholdSet(sim[i], t) && NoDup(c);
    forall x | x in c
      ensures x < |sim|
    {
      assert x in Elems(c);
    }
  }

  /** Every candidate is the threshold set of a qualifying seed. */
  lemma CandidatesAreSeedCommunities(sim: seq<seq<real>>, order: seq<seq<nat>>, t: real, m: nat, k: nat)
    requires WellFormed(sim, order)
    requires 1 <= m <= |sim| && 1 <= k <= |sim|
    ensures forall c :: c in Candidates(sim, order, t, k, Seeds(sim, order, t, m, |sim|)) ==>
              IsSeedCommunity(sim, t, m, c) && forall x :: x in c ==> x < |sim|
  {
    var candidates := Candidates(sim, order, t, k, Seeds(sim, order, t, m, |sim|));
    forall j | 0 <= j < |candidates|
      ensures IsSeedCommunity(sim, t, m, candidates[j]) && forall x :: x in candidates[j] ==> x < |sim|
    {
      CandidateIsSeedCommunity(sim, order, t, m, k, j);
    }
  }

  /** Every successful result is a valid cluster set: pairwise disjoint,
      inside the corpus, at most one community per row, and each community
      is exactly the threshold set of a row with at least
      `min_community_size` similar items. */
  lemma DetectClustersSound(sim: seq<seq<real>>, order: seq<seq<nat>>, p: Params)
    requires WellFormed(sim, order)
    requires DetectClusters(sim, order, p).Success?
    ensures ValidClusterSet(sim, p.threshold, p.minCommunitySize, DetectClusters(sim, order, p).value)
  {
    var n, m, t := |sim|, p.minCommunitySize, p.threshold;
    if m >= 1 {
      var seeds := Seeds(sim, order, t, m, |sim|);
      if seeds != [] {
        var k := ValidK(p, n);
        var candidates := Candidates(sim, order, t, k, seeds);
        var ranked := Ranking.RankBySize(candidates);
        var cs := Greedy.Select(ranked);
        assert DetectClusters(sim, order, p) == Success(cs);
        SelectionKeepsCandidates(candidates);
        CandidatesAreSeedCommunities(sim, order, t, m, k);
        forall q | 0 <= q < |cs|
          ensures IsSeedCommunity(sim, t, m, cs[q]) && forall x :: x in cs[q] ==> x < n
        {
          assert cs[q] in candidates;
        }
        assert |ranked| == |candidates| by {
          assert |multiset(ranked)| == |multiset(candidates)|;
        }
        IncreasingBelowIsShort(seeds, n);
        assert ValidClusterSet(sim, t, m, cs);
      }
    }
  }

  /** When some row qualifies and the detection succeeds, at least one
      community is found, and the first one kept is as large as any seed's
      candidate. */
  lemma DetectKeepsLargestCandidate(sim: seq<seq<real>>, order: seq<seq<nat>>, p: Params, i: nat)
    requires WellFormed(sim, order)
    requires DetectClusters(sim, order, p).Success?
    requires 1 <= p.minCommunitySize && i < |sim|
    requires HasEnoughNeighbours(sim, p.threshold, p.minCommunitySize, i)
    ensures DetectClusters(sim, order, p).value != []
    ensures |DetectClusters(sim, order, p).value[0]| >= |ThresholdSet(sim[i], p.threshold)|
  {
    var n, m, t := |sim|, p.minCommunitySize, p.threshold;
    IsSeedIffEnoughNeighbours(sim, order, t, m, i);
    var seeds := Seeds(sim, order, t, m, |sim|);
    assert i in seeds;
    var j :| 0 <= j < |seeds| && seeds[j] == i;
    var k := ValidK(p, n);
    var candidates := Candidates(sim, order, t, k, seeds);
    var ranked := Ranking.RankBySize(candidates);
    Greedy.SelectKeepsFirst(ranked);
    assert candidates[j] in multiset(ranked);
    var q :| 0 <= q < |ranked| && ranked[q] == candidates[j];
    CandidatesAt(sim, order, t, k, seeds, j);
    CandidateIsThresholdSet(sim[i], order[i], t, k);
  }
}
