/** Greedy removal of overlapping communities
    (app/modules/clustering/cluster_maker.py:79-95): ranked candidates are
    visited in order, and one is kept only when none of its indices has been
    claimed by a community kept before it. */
module Greedy {
  import opened Sequences
  import opened Communities

  /** No index of `c` is in `ids`. */
  predicate AvoidsClaimed(c: Community, ids: set<nat>)
  {
    forall x :: x in c ==> x !in ids
  }

  /** The indices claimed by the communities of `cs` (`extracted_ids`). */
  function Claimed(cs: seq<Community>): set<nat>
  {
    if cs == [] then {} else Claimed(cs[..|cs| - 1]) + Elems(cs[|cs| - 1])
  }

  /** An index is claimed exactly when some community of `cs` holds it. */
  lemma {:induction false} ClaimedMembership(cs: seq<Community>, x: nat)
    ensures x in Claimed(cs) <==> exists k :: 0 <= k < |cs| && x in cs[k]
  {
    if cs != [] {
      var earlier := cs[..|cs| - 1];
      ClaimedMembership(earlier, x);
      if x in Claimed(earlier) {
        var k :| 0 <= k < |earlier| && x in earlier[k];
        assert cs[k] == earlier[k];
      }
      if exists k :: 0 <= k < |cs| && x in cs[k] {
        var k :| 0 <= k < |cs| && x in cs[k];
        if k < |earlier| {
          assert cs[k] == earlier[k];
        }
      }
    }
  }

  /** The communities kept from `ranked`: each one is kept exactly when it
      avoids every index claimed by the communities kept before it. */
  function Select(ranked: seq<Community>): (accepted: seq<Community>)
    ensures |accepted| <= |ranked|
    ensures forall c :: c in accepted ==> c in ranked
    ensures ranked != [] ==> accepted != [] && accepted[0] == ranked[0]
  {
    if ranked == [] then []
    else
      var earlier := Select(ranked[..|ranked| - 1]);
      var c := ranked[|ranked| - 1];
      if AvoidsClaimed(c, Claimed(earlier)) then earlier + [c] else earlier
  }

  /** The communities kept are pairwise disjoint. */
  lemma {:induction false} SelectIsDisjoint(ranked: seq<Community>)
    ensures PairwiseDisjoint(Select(ranked))
  {
    if ranked != [] {
      var earlier := Select(ranked[..|ranked| - 1]);
      var c := ranked[|ranked| - 1];
      SelectIsDisjoint(ranked[..|ranked| - 1]);
      if AvoidsClaimed(c, Claimed(earlier)) {
        var acc := earlier + [c];
        forall i, j | 0 <= i < j < |acc|
          ensures Disjoint(acc[i], acc[j])
        {
          if j == |acc| - 1 {
            forall x | x in acc[i]
              ensures x !in c
            {
              assert acc[i] == earlier[i];
              ClaimedMembership(earlier, x);
            }
          } else {
            assert acc[i] == earlier[i] && acc[j] == earlier[j];
          }
        }
      }
    }
  }

  /** Deciding the first `j` candidates fixes the beginning of the final
      selection: later candidates only append. */
  lemma {:induction false} SelectExtends(ranked: seq<Community>, j: nat)
    requires j <= |ranked|
    ensures Select(ranked[..j]) <= Select(ranked)
    decreases |ranked| - j
  {
    if j < |ranked| {
      SelectExtends(ranked, j + 1);
      var prefix := ranked[..j + 1];
      assert prefix[..|prefix| - 1] == ranked[..j];
    } else {
      assert ranked[..j] == ranked;
    }
  }

  /** The first ranked candidate, if there is one, is always kept. */
  lemma SelectKeepsFirst(ranked: seq<Community>)
    requires ranked != []
    ensures Select(ranked) != [] && Select(ranked)[0] == ranked[0]
  {
    SelectExtends(ranked, 1);
    var first := ranked[..1];
    assert first[..0] == [];
  }

  /** The ranks (positions in `ranked`) of the kept communities. */
  function KeptRanks(ranked: seq<Community>): (ranks: seq<nat>)
    ensures forall k :: 0 <= k < |ranks| ==> ranks[k] < |ranked|
  {
    if ranked == [] then []
    else
      var n := |ranked| - 1;
      var earlier := KeptRanks(ranked[..n]);
      if AvoidsClaimed(ranked[n], Claimed(Select(ranked[..n]))) then earlier + [n] else earlier
  }

  /** Every kept community is a ranked candidate admitted unchanged, and
      kept communities appear in ranked order. */
  lemma {:induction false} SelectIsOrderedSubsequence(ranked: seq<Community>)
    ensures |KeptRanks(ranked)| == |Select(ranked)|
    ensures StrictlyIncreasing(KeptRanks(ranked))
    ensures forall k :: 0 <= k < |KeptRanks(ranked)| ==>
              Select(ranked)[k] == ranked[KeptRanks(ranked)[k]]
  {
    if ranked != [] {
      var n := |ranked| - 1;
      var init := ranked[..n];
      SelectIsOrderedSubsequence(init);
      var earlier := KeptRanks(init);
      var before := Select(init);
      forall k | 0 <= k < |earlier|
        ensures before[k] == ranked[earlier[k]]
      {
        assert init[earlier[k]] == ranked[earlier[k]];
      }
      if AvoidsClaimed(ranked[n], Claimed(before)) {
        assert KeptRanks(ranked) == earlier + [n];
        assert Select(ranked) == before + [ranked[n]];
        AppendKeepsIncreasing(earlier, n);
        AppendKeepsRanks(ranked, before, earlier, Select(ranked), KeptRanks(ranked));
      }
    }
  }

  /** Appending a value above every element keeps a sequence increasing. */
  lemma AppendKeepsIncreasing(s: seq<nat>, n: nat)
    requires StrictlyIncreasing(s)
    requires forall k :: 0 <= k < |s| ==> s[k] < n
    ensures StrictlyIncreasing(s + [n])
  {
  }

  /** Admitting the last candidate extends the kept-to-rank correspondence. */
  lemma AppendKeepsRanks(ranked: seq<Community>, kept: seq<Community>, ranks: seq<nat>,
                         kept2: seq<Community>, ranks2: seq<nat>)
    requires ranked != [] && |kept| == |ranks|
    requires forall k :: 0 <= k < |ranks| ==> ranks[k] < |ranked| && kept[k] == ranked[ranks[k]]
    requires kept2 == kept + [ranked[|ranked| - 1]] && ranks2 == ranks + [|ranked| - 1]
    ensures forall k :: 0 <= k < |ranks2| ==> kept2[k] == ranked[ranks2[k]]
  {
  }

  /** Candidate `j` is kept exactly when it avoids the indices claimed by the
      communities kept before it; a rejected candidate contributes nothing. */
  lemma {:induction false} KeptExactlyWhenUnclaimed(ranked: seq<Community>, j: nat)
    requires j < |ranked|
    ensures j in KeptRanks(ranked) <==> AvoidsClaimed(ranked[j], Claimed(Select(ranked[..j])))
  {
    var n := |ranked| - 1;
    var init := ranked[..n];
    var earlier := KeptRanks(init);
    var admitted := AvoidsClaimed(ranked[n], Claimed(Select(init)));
    assert KeptRanks(ranked) == if admitted then earlier + [n] else earlier;
    if j < n {
      KeptExactlyWhenUnclaimed(init, j);
      assert init[j] == ranked[j];
      assert init[..j] == ranked[..j];
      assert j in KeptRanks(ranked) <==> j in earlier;
    } else {
      assert ranked[..j] == init;
      assert n !in earlier;
    }
  }

  /** Every non-empty ranked candidate meets the indices claimed by the kept
      communities: it was kept itself or it overlaps one that was. */
  lemma SelectIsMaximal(ranked: seq<Community>, j: nat)
    requires j < |ranked| && ranked[j] != []
    ensures exists x :: x in ranked[j] && x in Claimed(Select(ranked))
  {
    SelectIsOrderedSubsequence(ranked);
    KeptExactlyWhenUnclaimed(ranked, j);
    var positions := KeptRanks(ranked);
    SelectExtends(ranked, j);
    var before := Select(ranked[..j]);
    if AvoidsClaimed(ranked[j], Claimed(before)) {
      var k :| 0 <= k < |positions| && positions[k] == j;
      ClaimedMembership(Select(ranked), ranked[j][0]);
      assert ranked[j][0] in Select(ranked)[k];
    } else {
      var x :| x in ranked[j] && x in Claimed(before);
      ClaimedMembership(before, x);
      var k :| 0 <= k < |before| && x in before[k];
      assert before[k] == Select(ranked)[k];
      ClaimedMembership(Select(ranked), x);
    }
  }

  /** The membership scan of lines 84-88, leaving at the first claimed
      index. */
  method AvoidsClaimedLoop(community: Community, extractedIds: set<nat>) returns (addCluster: bool)
    ensures addCluster <==> AvoidsClaimed(community, extractedIds)
  {
    addCluster := true;
    var p := 0;
    while p < |community|
      invariant 0 <= p <= |community|
      invariant addCluster <==> forall q :: 0 <= q < p ==> community[q] !in extractedIds
    {
      if community[p] in extractedIds {
        addCluster := false;
        break;
      }
      p := p + 1;
    }
  }

  /** Lines 92-93: every index of the kept community becomes claimed. */
  method ClaimAll(extractedIds: set<nat>, community: Community) returns (ids: set<nat>)
    ensures ids == extractedIds + Elems(community)
  {
    ids := extractedIds;
    var q := 0;
    while q < |community|
      invariant 0 <= q <= |community|
      invariant ids == extractedIds + Elems(community[..q])
    {
      assert community[..q + 1] == community[..q] + [community[q]];
      ids := ids + {community[q]};
      q := q + 1;
    }
    assert community[..q] == community;
  }

  /** The loops of lines 80-93, with `extracted_ids` as a set. */
  method RemoveOverlapping(ranked: seq<Community>) returns (unique: seq<Community>)
    ensures unique == Select(ranked)
    ensures PairwiseDisjoint(unique)
  {
    unique := [];
    var extractedIds: set<nat> := {};
    var i := 0;
    while i < |ranked|
      invariant 0 <= i <= |ranked|
      invariant unique == Select(ranked[..i])
      invariant extractedIds == Claimed(unique)
    {
      var community := ranked[i];
      var addCluster := AvoidsClaimedLoop(community, extractedIds);
      assert ranked[..i + 1][..i] == ranked[..i];
      if addCluster {
        var before := unique;
        unique := unique + [community];
        extractedIds := ClaimAll(extractedIds, community);
        assert unique[..|unique| - 1] == before;
      }
      i := i + 1;
    }
    assert ranked[..i] == ranked;
    SelectIsDisjoint(ranked);
  }
}
