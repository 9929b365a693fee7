/** `get_clusters_from_file` (app/modules/clustering/cluster_maker.py:99-123):
    look up the corpus embeddings in the cache or encode and store them,
    detect communities with the default parameters, and sort the result.

    The encoder and the pickle files are not modelled: the cache directory
    is a map from file name to stored value, and the encoder is a function
    parameter. A stored value is represented by what detection needs of
    it, the cosine-similarity matrix with its descending row orderings. */
module ClusterMaker {
  import opened Outcomes
  import opened Communities
  import Detection
  import LexOrder

  /** The similarity structure of an embedding matrix: square, with a
      descending ordering of every row. */
  datatype Embeddings = Embeddings(sim: seq<seq<real>>, order: seq<seq<nat>>)

  type Similarity = e: Embeddings | Detection.WellFormed(e.sim, e.order) witness Embeddings([], [])

  /** The cache directory: file name to stored embeddings. */
  type Cache = map<string, Similarity>

  const CacheSuffix: string := "_embedding_cache.pkl"

  /** The cache file of a data file (lines 100, 104 and 108). */
  function CacheKey(filename: string): (key: string)
    ensures |key| == |filename| + |CacheSuffix|
    ensures key[..|filename|] == filename && key[|filename|..] == CacheSuffix
  {
    filename + CacheSuffix
  }

  /** Different data files never share a cache file. */
  lemma CacheKeyInjective(a: string, b: string)
    requires CacheKey(a) == CacheKey(b)
    ensures a == b
  {
    assert a == CacheKey(a)[..|a|];
  }

  /** The result of a lookup: the cache afterwards, the embeddings used, and
      whether the encoder ran. */
  datatype Lookup = Lookup(cache: Cache, embeddings: Similarity, encoded: bool)

  /** Lines 100-109: on a hit the stored embeddings are used and the
      encoder is not called; on a miss the encoder's output is stored under
      the file's key and used. */
  function GetEmbeddings(cache: Cache, filename: string, comments: seq<string>,
                         encode: seq<string> -> Similarity): (r: Lookup)
    ensures CacheKey(filename) in r.cache
    ensures r.embeddings == r.cache[CacheKey(filename)]
    ensures r.encoded <==> CacheKey(filename) !in cache
    ensures CacheKey(filename) in cache ==> r.cache == cache && r.embeddings == cache[CacheKey(filename)]
    ensures CacheKey(filename) !in cache ==> r.embeddings == encode(comments)
    ensures forall key :: key != CacheKey(filename) ==>
              (key in r.cache <==> key in cache) && (key in cache ==> r.cache[key] == cache[key])
  {
    var key := CacheKey(filename);
    if key in cache then Lookup(cache, cache[key], false)
    else
      var embeddings := encode(comments);
      Lookup(cache[key := embeddings], embeddings, true)
  }

  /** A hit leaves the cache as it was and returns what is stored. */
  lemma HitReturnsStored(cache: Cache, filename: string, comments: seq<string>,
                         encode: seq<string> -> Similarity)
    requires CacheKey(filename) in cache
    ensures GetEmbeddings(cache, filename, comments, encode)
            == Lookup(cache, cache[CacheKey(filename)], false)
  {
  }

  /** A miss returns the encoding of the given comments. */
  lemma MissEncodes(cache: Cache, filename: string, comments: seq<string>,
                    encode: seq<string> -> Similarity)
    requires CacheKey(filename) !in cache
    ensures GetEmbeddings(cache, filename, comments, encode).embeddings == encode(comments)
  {
  }

  /** After one lookup, a second lookup for the same file hits and returns
      the same embeddings, whatever comments it is given. */
  lemma SecondLookupHits(cache: Cache, filename: string, comments: seq<string>,
                         later: seq<string>, encode: seq<string> -> Similarity)
    ensures var first := GetEmbeddings(cache, filename, comments, encode);
            var second := GetEmbeddings(first.cache, filename, later, encode);
            second.embeddings == first.embeddings && !second.encoded && second.cache == first.cache
  {
  }

  /** The result of `get_clusters_from_file`: the cache afterwards and the
      detection outcome. */
  datatype FileClusters = FileClusters(cache: Cache, clusters: Result<seq<Community>, Detection.DetectError>)

  /** Lines 99-123: detection with the default parameters (line 111),
      then `all_clusters.sort()` (line 114). */
  function GetClustersFromFile(cache: Cache, filename: string, comments: seq<string>,
                               encode: seq<string> -> Similarity): (r: FileClusters)
    ensures r.cache == GetEmbeddings(cache, filename, comments, encode).cache
    ensures var e := GetEmbeddings(cache, filename, comments, encode).embeddings;
            var detected := Detection.DetectClusters(e.sim, e.order, Detection.DefaultParams);
            && (r.clusters.Failure? <==> detected.Failure?)
            && (r.clusters.Failure? ==> r.clusters.error == detected.error)
            && (r.clusters.Success? ==>
                  && multiset(r.clusters.value) == multiset(detected.value)
                  && LexOrder.LexSorted(r.clusters.value))
  {
    var lookup := GetEmbeddings(cache, filename, comments, encode);
    var e := lookup.embeddings;
    match Detection.DetectClusters(e.sim, e.order, Detection.DefaultParams)
    case Failure(err) => FileClusters(lookup.cache, Failure(err))
    case Success(found) => FileClusters(lookup.cache, Success(LexOrder.SortLex(found)))
  }

  /** A successful result is a valid cluster set of the embeddings used:
      pairwise disjoint communities of corpus indices, sorted as lists, each
      the threshold set of a row with enough similar items. */
  lemma GetClustersFromFileSound(cache: Cache, filename: string, comments: seq<string>,
                                 encode: seq<string> -> Similarity)
    requires GetClustersFromFile(cache, filename, comments, encode).clusters.Success?
    ensures var e := GetEmbeddings(cache, filename, comments, encode).embeddings;
            var cs := GetClustersFromFile(cache, filename, comments, encode).clusters.value;
            && LexOrder.LexSorted(cs)
            && PairwiseDisjoint(cs)
            && IndicesBelow(cs, |e.sim|)
            && |cs| <= |e.sim|
            && forall k :: 0 <= k < |cs| ==>
                 Detection.IsSeedCommunity(e.sim, Detection.DefaultParams.threshold,
                                           Detection.DefaultParams.minCommunitySize, cs[k])
  {
    var e := GetEmbeddings(cache, filename, comments, encode).embeddings;
    var found := Detection.DetectClusters(e.sim, e.order, Detection.DefaultParams).value;
    var cs := LexOrder.SortLex(found);
    Detection.DetectClustersSound(e.sim, e.order, Detection.DefaultParams);
    LexOrder.SortLexKeepsClusterSet(found, |e.sim|);
    assert |cs| == |found| by {
      assert |multiset(cs)| == |multiset(found)|;
    }
    forall k | 0 <= k < |cs|
      ensures Detection.IsSeedCommunity(e.sim, Detection.DefaultParams.threshold,
                                        Detection.DefaultParams.minCommunitySize, cs[k])
    {
      assert cs[k] in multiset(found);
      var q :| 0 <= q < |found| && found[q] == cs[k];
    }
  }

  /** The sorted result is the only sorted arrangement of the detected
      communities, so it does not depend on how Python sorts. */
  lemma GetClustersFromFileIsTheSortedDetection(cache: Cache, filename: string, comments: seq<string>,
                                                encode: seq<string> -> Similarity, sorted: seq<Community>)
    requires var e := GetEmbeddings(cache, filename, comments, encode).embeddings;
             var detected := Detection.DetectClusters(e.sim, e.order, Detection.DefaultParams);
             detected.Success? && multiset(sorted) == multiset(detected.value)
    requires LexOrder.LexSorted(sorted)
    ensures GetClustersFromFile(cache, filename, comments, encode).clusters == Success(sorted)
  {
    var e := GetEmbeddings(cache, filename, comments, encode).embeddings;
    var found := Detection.DetectClusters(e.sim, e.order, Detection.DefaultParams).value;
    LexOrder.SortedPermutationIsUnique(LexOrder.SortLex(found), sorted);
  }

  /** Once a file has been clustered, clustering it again gives the same
      communities whatever comments are passed, because the cache hits. */
  lemma SecondCallSameClusters(cache: Cache, filename: string, comments: seq<string>,
                               later: seq<string>, encode: seq<string> -> Similarity)
    ensures var first := GetClustersFromFile(cache, filename, comments, encode);
            GetClustersFromFile(first.cache, filename, later, encode) == first
  {
    SecondLookupHits(cache, filename, comments, later, encode);
  }
}
