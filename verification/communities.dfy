/** Communities: lists of corpus indices, as `_detect_clusters` builds them
    (app/modules/clustering/cluster_maker.py:51-74), and the facts about
    lists of communities that the pipeline relies on. */
module Communities {

  type Community = seq<nat>

  /** No index of `a` occurs in `b`. */
  predicate Disjoint(a: Community, b: Community)
  {
    forall x :: x in a ==> x !in b
  }

  /** No index occurs in two different communities of `cs`. */
  predicate PairwiseDisjoint(cs: seq<Community>)
  {
    forall i, j :: 0 <= i < j < |cs| ==> Disjoint(cs[i], cs[j])
  }

  /** Every index in every community of `cs` is below `n`. */
  predicate IndicesBelow(cs: seq<Community>, n: nat)
  {
    forall k, x :: 0 <= k < |cs| && x in cs[k] ==> x < n
  }

  /** Removing one community keeps the rest pairwise disjoint. */
  lemma RemoveKeepsDisjoint(s: seq<Community>, p: nat)
    requires PairwiseDisjoint(s)
    requires p < |s|
    ensures PairwiseDisjoint(s[..p] + s[p + 1..])
  {
    var rest := s[..p] + s[p + 1..];
    forall i, j | 0 <= i < j < |rest|
      ensures Disjoint(rest[i], rest[j])
    {
      var i' := if i < p then i else i + 1;
      var j' := if j < p then j else j + 1;
      assert rest[i] == s[i'] && rest[j] == s[j'];
    }
  }

  /** In a pairwise disjoint list, the community at position `p` is disjoint
      from every community left after removing it. */
  lemma RemovedIsDisjointFromRest(s: seq<Community>, p: nat, c: Community)
    requires PairwiseDisjoint(s)
    requires p < |s|
    requires c in s[..p] + s[p + 1..]
    ensures Disjoint(s[p], c)
  {
    var rest := s[..p] + s[p + 1..];
    var q :| 0 <= q < |rest| && rest[q] == c;
    var q' := if q < p then q else q + 1;
    assert rest[q] == s[q'] && q' != p;
    if q' < p {
      assert Disjoint(s[q'], s[p]);
    } else {
      assert Disjoint(s[p], s[q']);
    }
  }

  /** A community disjoint from each of a pairwise disjoint list can be put
      in front of it. */
  lemma ConsKeepsDisjoint(c: Community, t: seq<Community>)
    requires PairwiseDisjoint(t)
    requires forall k :: 0 <= k < |t| ==> Disjoint(c, t[k])
    ensures PairwiseDisjoint([c] + t)
  {
    var r := [c] + t;
    forall i, j | 0 <= i < j < |r|
      ensures Disjoint(r[i], r[j])
    {
      assert r[j] == t[j - 1];
      if i > 0 {
        assert r[i] == t[i - 1];
      }
    }
  }

  /** Removing the community at `p` removes one copy of it. */
  lemma RemoveAtMultiset(s: seq<Community>, p: nat)
    requires p < |s|
    ensures multiset(s[..p] + s[p + 1..]) == multiset(s) - multiset{s[p]}
  {
    assert s == s[..p] + [s[p]] + s[p + 1..];
    assert multiset(s) == multiset(s[..p]) + multiset{s[p]} + multiset(s[p + 1..]);
  }

  /** Dropping the head removes one copy of it. */
  lemma TailMultiset(t: seq<Community>)
    requires t != []
    ensures multiset(t[1..]) == multiset(t) - multiset{t[0]}
  {
    assert t == [t[0]] + t[1..];
  }

  /** The community at `p` is disjoint from any rearrangement of the
      others. */
  lemma HeadAvoidsRest(s: seq<Community>, p: nat, c: Community, u: seq<Community>)
    requires PairwiseDisjoint(s)
    requires p < |s| && s[p] == c
    requires multiset(u) == multiset(s[..p] + s[p + 1..])
    ensures forall k :: 0 <= k < |u| ==> Disjoint(c, u[k])
  {
    forall k | 0 <= k < |u|
      ensures Disjoint(c, u[k])
    {
      assert u[k] in multiset(s[..p] + s[p + 1..]);
      RemovedIsDisjointFromRest(s, p, u[k]);
    }
  }

  /** Reordering communities keeps them pairwise disjoint: a list of
      communities can only be rearranged, never made to overlap. */
  lemma {:induction false} PermutationKeepsDisjoint(s: seq<Community>, t: seq<Community>)
    requires PairwiseDisjoint(s)
    requires multiset(t) == multiset(s)
    ensures PairwiseDisjoint(t)
  {
    if t != [] {
      assert t[0] in multiset(s);
      var p :| 0 <= p < |s| && s[p] == t[0];
      var rest := s[..p] + s[p + 1..];
      RemoveAtMultiset(s, p);
      TailMultiset(t);
      RemoveKeepsDisjoint(s, p);
      PermutationKeepsDisjoint(rest, t[1..]);
      HeadAvoidsRest(s, p, t[0], t[1..]);
      ConsKeepsDisjoint(t[0], t[1..]);
      assert t == [t[0]] + t[1..];
    }
  }

  /** Reordering communities does not invent indices. */
  lemma PermutationKeepsIndicesBelow(s: seq<Community>, t: seq<Community>, n: nat)
    requires IndicesBelow(s, n)
    requires multiset(t) == multiset(s)
    ensures IndicesBelow(t, n)
  {
    forall k, x | 0 <= k < |t| && x in t[k]
      ensures x < n
    {
      assert t[k] in multiset(s);
      var p :| 0 <= p < |s| && s[p] == t[k];
    }
  }
}
