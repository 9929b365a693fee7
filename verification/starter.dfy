/** The dashboard logic of app/start.py that is not user interface: the
    representative sentences of a community (`get_sentences_in_cluster`,
    lines 63-72) and the two-column display of the first twenty topics
    (`run_all`, lines 113-138).

    Streamlit output is modelled as the sequence of panels written: a topic
    header, and the sentences written under it. */
module Starter {
  import opened Outcomes
  import opened Communities
  import ClusterMaker

  /** At most this many sentences represent a community (line 67). */
  const SentencesPerTopic: nat := 5

  /** `range(1, 20, 2)` pairs the first twenty communities (line 125). */
  const TopicSlots: nat := 20

  function Min(a: nat, b: nat): nat
  {
    if a <= b then a else b
  }

  /** Every id of `ids` indexes into a list of `n` comments. */
  predicate AllBelow(ids: seq<nat>, n: nat)
  {
    forall k :: 0 <= k < |ids| ==> ids[k] < n
  }

  /** The distinct comments the ids point at. */
  function Texts(ids: seq<nat>, comments: seq<string>): set<string>
    requires AllBelow(ids, |comments|)
  {
    if ids == [] then {} else {comments[ids[0]]} + Texts(ids[1..], comments)
  }

  /** The loop of lines 66-71 from the set `acc` on: stop once five
      distinct sentences are collected; an id outside the comment list
      raises `IndexError` (`None`). */
  function Collect(ids: seq<nat>, comments: seq<string>, acc: set<string>): (r: Option<set<string>>)
    requires |acc| <= SentencesPerTopic
    ensures r.Some? ==> acc <= r.value && |r.value| <= SentencesPerTopic
    decreases |ids|
  {
    if |acc| >= SentencesPerTopic || ids == [] then Some(acc)
    else if ids[0] >= |comments| then None
    else Collect(ids[1..], comments, acc + {comments[ids[0]]})
  }

  /** Every sentence collected past `acc` is the comment of some in-range
      id of the community, whether or not a later id is out of range. */
  lemma {:induction false} CollectMembers(ids: seq<nat>, comments: seq<string>, acc: set<string>)
    requires |acc| <= SentencesPerTopic
    ensures Collect(ids, comments, acc).Some? ==>
              Collect(ids, comments, acc).value
                <= acc + (set k | 0 <= k < |ids| && ids[k] < |comments| :: comments[ids[k]])
    decreases |ids|
  {
    if |acc| < SentencesPerTopic && ids != [] && ids[0] < |comments| {
      var next := acc + {comments[ids[0]]};
      CollectMembers(ids[1..], comments, next);
      var rest := ids[1..];
      forall k | 0 <= k < |rest| && rest[k] < |comments|
        ensures comments[rest[k]] in (set k | 0 <= k < |ids| && ids[k] < |comments| :: comments[ids[k]])
      {
        assert rest[k] == ids[k + 1];
      }
      assert comments[ids[0]] in (set k | 0 <= k < |ids| && ids[k] < |comments| :: comments[ids[k]]);
    }
  }

  /** `get_sentences_in_cluster`. */
  function SentencesInCluster(cluster: Community, comments: seq<string>): (r: Option<set<string>>)
    ensures r.Some? ==> |r.value| <= SentencesPerTopic
  {
    Collect(cluster, comments, {})
  }

  /** Lines 63-72 as written, with the counter `num`. */
  method GetSentencesInCluster(cluster: Community, comments: seq<string>) returns (r: Option<set<string>>)
    ensures r == SentencesInCluster(cluster, comments)
  {
    var sentences: set<string> := {};
    var num := 0;
    var i := 0;
    while i < |cluster|
      invariant 0 <= i <= |cluster|
      invariant num == |sentences| <= SentencesPerTopic
      invariant Collect(cluster[i..], comments, sentences) == Collect(cluster, comments, {})
    {
      if num >= 5 {
        break;
      }
      if cluster[i] >= |comments| {
        return None;
      }
      var sentence := comments[cluster[i]];
      assert cluster[i..][1..] == cluster[i + 1..];
      if sentence !in sentences {
        sentences := sentences + {sentence};
        num := num + 1;
      } else {
        assert sentences + {sentence} == sentences;
      }
      i := i + 1;
    }
    assert i == |cluster| ==> cluster[i..] == [];
    return Some(sentences);
  }

  /** A subset has at most as many elements. */
  lemma SubsetCardinality(a: set<string>, b: set<string>)
    requires a <= b
    ensures |a| <= |b|
  {
    assert b == a + (b - a);
  }

  /** With every id in range, the loop never raises, returns only sentences
      of the community, and collects `min(5, distinct)` of them: all of
      them when the community has at most five distinct sentences. */
  lemma {:induction false} CollectCovers(ids: seq<nat>, comments: seq<string>, acc: set<string>)
    requires |acc| <= SentencesPerTopic
    requires AllBelow(ids, |comments|)
    ensures var r := Collect(ids, comments, acc);
            && r.Some?
            && r.value <= acc + Texts(ids, comments)
            && |r.value| == Min(SentencesPerTopic, |acc + Texts(ids, comments)|)
            && exists j: nat :: PrefixSelection(ids, comments, acc, j, r.value)
    decreases |ids|
  {
    CollectTakesPrefix(ids, comments, acc);
    if |acc| >= SentencesPerTopic {
      SubsetCardinality(acc, acc + Texts(ids, comments));
    } else if ids != [] {
      var next := acc + {comments[ids[0]]};
      CollectCovers(ids[1..], comments, next);
      assert next + Texts(ids[1..], comments) == acc + Texts(ids, comments);
    }
  }

  /** The texts of the first `j + 1` ids are the first id's text and the
      texts of the next `j`. */
  lemma TextsOfLongerPrefix(ids: seq<nat>, comments: seq<string>, j: nat)
    requires AllBelow(ids, |comments|) && j < |ids|
    ensures AllBelow(ids[..j + 1], |comments|) && AllBelow(ids[1..][..j], |comments|)
    ensures Texts(ids[..j + 1], comments) == {comments[ids[0]]} + Texts(ids[1..][..j], comments)
  {
    var prefix := ids[..j + 1];
    assert prefix[0] == ids[0] && prefix[1..] == ids[1..][..j];
  }

  /** `held` is `acc` with the texts of the first `j` ids, and stopping
      after them is forced: either every id is used or five sentences are
      held. */
  predicate PrefixSelection(ids: seq<nat>, comments: seq<string>, acc: set<string>, j: nat, held: set<string>)
  {
    && j <= |ids|
    && AllBelow(ids[..j], |comments|)
    && held == acc + Texts(ids[..j], comments)
    && (j < |ids| ==> |held| == SentencesPerTopic)
  }

  /** A prefix selection of the remaining ids, after the first id's
      sentence is taken, is a prefix selection of all the ids. */
  lemma PrefixSelectionStep(ids: seq<nat>, comments: seq<string>, acc: set<string>, j: nat, held: set<string>)
    requires ids != [] && AllBelow(ids, |comments|)
    requires PrefixSelection(ids[1..], comments, acc + {comments[ids[0]]}, j, held)
    ensures PrefixSelection(ids, comments, acc, j + 1, held)
  {
    TextsOfLongerPrefix(ids, comments, j);
  }

  /** The sentences kept are those of a prefix of the ids: all of them, or
      a prefix that reaches five distinct sentences. */
  lemma {:induction false} CollectTakesPrefix(ids: seq<nat>, comments: seq<string>, acc: set<string>)
    requires |acc| <= SentencesPerTopic
    requires AllBelow(ids, |comments|)
    ensures Collect(ids, comments, acc).Some?
    ensures exists j: nat :: PrefixSelection(ids, comments, acc, j, Collect(ids, comments, acc).value)
    decreases |ids|
  {
    if |acc| >= SentencesPerTopic || ids == [] {
      assert ids[..0] == [];
      assert PrefixSelection(ids, comments, acc, 0, acc);
    } else {
      var next := acc + {comments[ids[0]]};
      CollectTakesPrefix(ids[1..], comments, next);
      var held := Collect(ids[1..], comments, next).value;
      var j: nat :| PrefixSelection(ids[1..], comments, next, j, held);
      PrefixSelectionStep(ids, comments, acc, j, held);
    }
  }

  /** `CollectTakesPrefix` from an empty selection. */
  lemma SentencesTakePrefix(cluster: Community, comments: seq<string>)
    requires AllBelow(cluster, |comments|)
    ensures SentencesInCluster(cluster, comments).Some?
    ensures exists j: nat :: j <= |cluster| && AllBelow(cluster[..j], |comments|)
              && SentencesInCluster(cluster, comments).value == Texts(cluster[..j], comments)
              && (j < |cluster| ==> |Texts(cluster[..j], comments)| == SentencesPerTopic)
  {
    CollectTakesPrefix(cluster, comments, {});
    var j: nat :| PrefixSelection(cluster, comments, {}, j, Collect(cluster, comments, {}).value);
    assert {} + Texts(cluster[..j], comments) == Texts(cluster[..j], comments);
  }

  /** The sentence selection on a community whose ids are all in range. */
  lemma SentencesCover(cluster: Community, comments: seq<string>)
    requires AllBelow(cluster, |comments|)
    ensures var r := SentencesInCluster(cluster, comments);
            && r.Some?
            && r.value <= Texts(cluster, comments)
            && |r.value| == Min(SentencesPerTopic, |Texts(cluster, comments)|)
            && (|Texts(cluster, comments)| <= SentencesPerTopic ==> r.value == Texts(cluster, comments))
            && exists j: nat :: j <= |cluster| && AllBelow(cluster[..j], |comments|)
                 && r.value == Texts(cluster[..j], comments)
                 && (j < |cluster| ==> |r.value| == SentencesPerTopic)
  {
    CollectCovers(cluster, comments, {});
    SentencesTakePrefix(cluster, comments);
    assert {} + Texts(cluster, comments) == Texts(cluster, comments);
    var r := SentencesInCluster(cluster, comments).value;
    if |Texts(cluster, comments)| <= SentencesPerTopic {
      SubsetCardinality(Texts(cluster, comments) - r, Texts(cluster, comments));
      assert Texts(cluster, comments) == r + (Texts(cluster, comments) - r);
    }
  }

  /** An id is visited while fewer than five distinct sentences are held:
      position `j` is the first id out of range and the ids before it
      leave room. */
  predicate FailsAt(ids: seq<nat>, comments: seq<string>, acc: set<string>, j: nat)
  {
    && j < |ids|
    && ids[j] >= |comments|
    && AllBelow(ids[..j], |comments|)
    && |acc + Texts(ids[..j], comments)| < SentencesPerTopic
  }

  /** With five sentences held, no later id is reached. */
  lemma FullNeverFails(ids: seq<nat>, comments: seq<string>, acc: set<string>, j: nat)
    requires |acc| >= SentencesPerTopic
    ensures !FailsAt(ids, comments, acc, j)
  {
    if j < |ids| && AllBelow(ids[..j], |comments|) {
      SubsetCardinality(acc, acc + Texts(ids[..j], comments));
    }
  }

  /** Past an in-range first id, failing at `j` is failing at `j - 1` of
      the rest with that id's sentence held. */
  lemma FailsAtShift(ids: seq<nat>, comments: seq<string>, acc: set<string>, j: nat)
    requires ids != [] && ids[0] < |comments| && j >= 1
    ensures FailsAt(ids, comments, acc, j) <==>
              FailsAt(ids[1..], comments, acc + {comments[ids[0]]}, j - 1)
  {
    if j <= |ids| {
      assert ids[..j] == [ids[0]] + ids[1..][..j - 1];
      if AllBelow(ids[..j], |comments|) {
        assert ids[..j][1..] == ids[1..][..j - 1];
        assert acc + Texts(ids[..j], comments)
            == acc + {comments[ids[0]]} + Texts(ids[1..][..j - 1], comments);
      }
    }
  }

  /** The selection raises exactly when an out-of-range id is reached
      before five distinct sentences are collected. */
  lemma {:induction false} CollectFailsExactly(ids: seq<nat>, comments: seq<string>, acc: set<string>)
    requires |acc| <= SentencesPerTopic
    ensures Collect(ids, comments, acc).None? <==> exists j: nat :: FailsAt(ids, comments, acc, j)
    decreases |ids|
  {
    if |acc| >= SentencesPerTopic {
      forall j: nat
        ensures !FailsAt(ids, comments, acc, j)
      {
        FullNeverFails(ids, comments, acc, j);
      }
    } else if ids != [] {
      if ids[0] >= |comments| {
        assert ids[..0] == [];
        assert FailsAt(ids, comments, acc, 0);
      } else {
        var next := acc + {comments[ids[0]]};
        CollectFailsExactly(ids[1..], comments, next);
        if exists j: nat :: FailsAt(ids, comments, acc, j) {
          var j: nat :| FailsAt(ids, comments, acc, j);
          assert j != 0;
          FailsAtShift(ids, comments, acc, j);
        }
        if exists j: nat :: FailsAt(ids[1..], comments, next, j) {
          var j: nat :| FailsAt(ids[1..], comments, next, j);
          FailsAtShift(ids, comments, acc, j + 1);
        }
      }
    }
  }

  /** What the topic expander writes: a topic header, or the list of
      sentences under it. */
  datatype Panel = Header(topic: nat) | Sentences(topic: nat, texts: set<string>)

  /** One iteration of lines 126-138 for odd `i`: both communities are
      fetched before anything is written, so a missing one shows nothing; an
      `IndexError` while selecting sentences ends the pair after the header
      already written. */
  function ShowPair(clusters: seq<Community>, comments: seq<string>, i: nat): (ps: seq<Panel>)
    requires i >= 1
    ensures i >= |clusters| ==> ps == []
    ensures i < |clusters| ==> |ps| >= 1 && ps[0] == Header(i)
    ensures forall p :: p in ps ==> i <= p.topic <= i + 1
  {
    if i >= |clusters| then []
    else
      match SentencesInCluster(clusters[i - 1], comments)
      case None => [Header(i)]
      case Some(first) =>
        [Header(i), Sentences(i, first)]
        + match SentencesInCluster(clusters[i], comments)
          case None => [Header(i + 1)]
          case Some(second) => [Header(i + 1), Sentences(i + 1, second)]
  }

  /** The loop of line 125 from `i` on. */
  function ShowPairsFrom(clusters: seq<Community>, comments: seq<string>, i: nat): (ps: seq<Panel>)
    requires i >= 1
    ensures forall p :: p in ps ==> i <= p.topic <= TopicSlots
    decreases TopicSlots - i
  {
    if i >= TopicSlots then [] else ShowPair(clusters, comments, i) + ShowPairsFrom(clusters, comments, i + 2)
  }

  /** What the topics section shows (lines 120-138): an error for no
      communities, otherwise the panels. */
  datatype TopicsView = NoClusters | Topics(found: nat, panels: seq<Panel>)

  function ShowTopics(clusters: seq<Community>, comments: seq<string>): (v: TopicsView)
    ensures v.NoClusters? <==> clusters == []
    ensures v.Topics? ==> v.found == |clusters|
  {
    if clusters == [] then NoClusters
    else Topics(|clusters|, ShowPairsFrom(clusters, comments, 1))
  }

  /** The number of topics shown: only whole pairs, and at most twenty. */
  function ShownCount(n: nat): nat
  {
    Min(TopicSlots, 2 * (n / 2))
  }

  /** Topics `k..last`, each a header followed by its sentences, as they
      are shown when every id is in range. */
  function Panels(clusters: seq<Community>, comments: seq<string>, k: nat, last: nat): (ps: seq<Panel>)
    requires 1 <= k && last <= |clusters|
    requires forall q :: 0 <= q < |clusters| ==> AllBelow(clusters[q], |comments|)
    ensures |ps| == if k <= last then 2 * (last - k + 1) else 0
    decreases last + 1 - k
  {
    if k > last then []
    else
      SentencesCover(clusters[k - 1], comments);
      [Header(k), Sentences(k, SentencesInCluster(clusters[k - 1], comments).value)]
      + Panels(clusters, comments, k + 1, last)
  }

  /** Every topic header or sentence list written is for one of the first
      `ShownCount` topics: a topic whose partner is missing never shows. */
  lemma {:induction false} ShownTopicsAreComplete(clusters: seq<Community>, comments: seq<string>, i: nat)
    requires i >= 1 && i % 2 == 1
    ensures forall p :: p in ShowPairsFrom(clusters, comments, i) ==>
              i <= p.topic <= ShownCount(|clusters|)
    decreases TopicSlots - i
  {
    if i < TopicSlots {
      ShownTopicsAreComplete(clusters, comments, i + 2);
      if i < |clusters| {
        OddBelowFitsPairs(i, |clusters|);
      }
      assert ShowPairsFrom(clusters, comments, i)
          == ShowPair(clusters, comments, i) + ShowPairsFrom(clusters, comments, i + 2);
    }
  }

  /** An odd topic number below `n` has its partner among the first
      `ShownCount(n)` topics when it is below twenty. */
  lemma OddBelowFitsPairs(i: nat, n: nat)
    requires i % 2 == 1 && i < n && i < TopicSlots
    ensures i + 1 <= ShownCount(n)
  {
    assert 2 * ((i + 1) / 2) == i + 1;
    assert (i + 1) / 2 <= n / 2;
  }

  /** An odd topic number at or above `n` is past the topics shown. */
  lemma OddAboveIsPast(i: nat, n: nat)
    requires i % 2 == 1 && i >= n
    ensures i > ShownCount(n)
  {
    assert 2 * (n / 2) <= n;
  }

  /** Topics `i..last` start with the pair `i, i + 1`. */
  lemma PanelsStartWithPair(clusters: seq<Community>, comments: seq<string>, i: nat, last: nat)
    requires 1 <= i && i + 1 <= last <= |clusters|
    requires forall q :: 0 <= q < |clusters| ==> AllBelow(clusters[q], |comments|)
    ensures Panels(clusters, comments, i, last)
            == Panels(clusters, comments, i, i + 1) + Panels(clusters, comments, i + 2, last)
  {
    SentencesCover(clusters[i - 1], comments);
    SentencesCover(clusters[i], comments);
    var b := [Header(i + 1), Sentences(i + 1, SentencesInCluster(clusters[i], comments).value)];
    assert Panels(clusters, comments, i + 1, last) == b + Panels(clusters, comments, i + 2, last);
    assert Panels(clusters, comments, i + 1, i + 1) == b + Panels(clusters, comments, i + 2, i + 1);
    assert Panels(clusters, comments, i + 2, i + 1) == [];
  }

  /** With every id in range, a pair that exists shows both topics, each
      with its sentences. */
  lemma ShowPairIsPanels(clusters: seq<Community>, comments: seq<string>, i: nat)
    requires 1 <= i && i + 1 <= |clusters|
    requires forall q :: 0 <= q < |clusters| ==> AllBelow(clusters[q], |comments|)
    ensures ShowPair(clusters, comments, i) == Panels(clusters, comments, i, i + 1)
  {
    SentencesCover(clusters[i - 1], comments);
    SentencesCover(clusters[i], comments);
    assert Panels(clusters, comments, i + 2, i + 1) == [];
  }

  /** With every id in range, the loop from odd `i` shows topic `k` for
      each `k` from `i` to `ShownCount`, header first. */
  lemma {:induction false} ShowPairsFromIsPanels(clusters: seq<Community>, comments: seq<string>, i: nat)
    requires i >= 1 && i % 2 == 1
    requires forall q :: 0 <= q < |clusters| ==> AllBelow(clusters[q], |comments|)
    ensures ShowPairsFrom(clusters, comments, i) == Panels(clusters, comments, i, ShownCount(|clusters|))
    decreases TopicSlots - i
  {
    var last := ShownCount(|clusters|);
    if i < TopicSlots {
      ShowPairsFromIsPanels(clusters, comments, i + 2);
      if i < |clusters| {
        OddBelowFitsPairs(i, |clusters|);
        ShowPairIsPanels(clusters, comments, i);
        PanelsStartWithPair(clusters, comments, i, last);
      } else {
        OddAboveIsPast(i, |clusters|);
      }
    }
  }

  /** When every id is in range, exactly `min(20, 2 * (n / 2))` topics are
      shown, in order, each with its sentences. */
  lemma ShowTopicsCount(clusters: seq<Community>, comments: seq<string>)
    requires clusters != []
    requires forall q :: 0 <= q < |clusters| ==> AllBelow(clusters[q], |comments|)
    ensures ShowTopics(clusters, comments).panels == Panels(clusters, comments, 1, ShownCount(|clusters|))
    ensures |ShowTopics(clusters, comments).panels| == 2 * ShownCount(|clusters|)
  {
    ShowPairsFromIsPanels(clusters, comments, 1);
  }

  /** After a successful clustering of embeddings computed from at most as
      many items as there are comments, every id of every community is in
      range, so no sentence selection raises and every pair is shown. */
  lemma ClusteredTopicsShowCompletely(cache: ClusterMaker.Cache, filename: string, comments: seq<string>,
                                      encode: seq<string> -> ClusterMaker.Similarity)
    requires ClusterMaker.GetClustersFromFile(cache, filename, comments, encode).clusters.Success?
    requires |ClusterMaker.GetEmbeddings(cache, filename, comments, encode).embeddings.sim| <= |comments|
    requires ClusterMaker.GetClustersFromFile(cache, filename, comments, encode).clusters.value != []
    ensures var cs := ClusterMaker.GetClustersFromFile(cache, filename, comments, encode).clusters.value;
            && (forall q :: 0 <= q < |cs| ==> AllBelow(cs[q], |comments|))
            && ShowTopics(cs, comments).panels == Panels(cs, comments, 1, ShownCount(|cs|))
            && |ShowTopics(cs, comments).panels| == 2 * ShownCount(|cs|)
  {
    var cs := ClusterMaker.GetClustersFromFile(cache, filename, comments, encode).clusters.value;
    ClusterMaker.GetClustersFromFileSound(cache, filename, comments, encode);
    forall q | 0 <= q < |cs|
      ensures AllBelow(cs[q], |comments|)
    {
      forall k | 0 <= k < |cs[q]|
        ensures cs[q][k] < |comments|
      {
        assert cs[q][k] in cs[q];
      }
    }
    ShowTopicsCount(cs, comments);
  }
  /** On a cache miss the row bound holds by itself when the encoder yields
      one row per comment, so every pair of topics shows completely. */
  lemma FreshClusteringShowsCompletely(cache: ClusterMaker.Cache, filename: string, comments: seq<string>,
                                       encode: seq<string> -> ClusterMaker.Similarity)
    requires ClusterMaker.CacheKey(filename) !in cache
    requires forall texts :: |encode(texts).sim| == |texts|
    requires ClusterMaker.GetClustersFromFile(cache, filename, comments, encode).clusters.Success?
    requires ClusterMaker.GetClustersFromFile(cache, filename, comments, encode).clusters.value != []
    ensures var cs := ClusterMaker.GetClustersFromFile(cache, filename, comments, encode).clusters.value;
            && (forall q :: 0 <= q < |cs| ==> AllBelow(cs[q], |comments|))
            && ShowTopics(cs, comments).panels == Panels(cs, comments, 1, ShownCount(|cs|))
            && |ShowTopics(cs, comments).panels| == 2 * ShownCount(|cs|)
  {
    ClusterMaker.MissEncodes(cache, filename, comments, encode);
    var e := encode(comments);
    assert |e.sim| == |comments|;
    ClusteredTopicsShowCompletely(cache, filename, comments, encode);
  }

}
