# moodmap topic clustering, modelled in Dafny

moodmap fetches the comments of a YouTube video and groups them into topics.
This project models that pipeline, from the loaded comments to the topics the
dashboard displays:

- **Loading.** `load_data` reads a CSV file of comments and keeps the
  comments of at least 23 characters (`Loader`).
- **Detection.** `_detect_clusters` finds communities of similar comments in
  a cosine-similarity matrix. Each row whose `min_community_size`-th largest
  similarity reaches the threshold is a *seed*. A seed's *candidate* is the
  set of items similar enough to it, collected either by scanning a top-k
  window or by scanning the whole row. Candidates are ranked largest first
  by a stable sort. A candidate is then kept only when none of its items
  belongs to a community kept before it (`Rows`, `Detection`, `Ranking`,
  `Greedy`, `Communities`).
- **Clustering a file.** `get_clusters_from_file` puts an embedding cache,
  keyed by file name, in front of the encoder. It then sorts the
  communities as Python sorts lists of ints (`ClusterMaker`, `LexOrder`).
- **Collecting comments.** This covers the video id of a URL, the
  extraction of comment fields into four parallel lists, and the CSV save
  with its empty guard and file-name sanitisation (`Collector`).
- **Displaying topics.** The dashboard shows up to five representative
  sentences per community and the first twenty communities in pairs
  (`Starter`).

The similarity matrix is an input. `sim[i][j]` is the similarity of items
`i` and `j`. `order[i]` lists the indices of row `i` from most to least
similar, which stands in for what `torch.topk` returns. Ties may come in
any order, and the proofs do not depend on how ties are ordered. Errors
the source raises are modelled as `Failure` values or `None`.

Behaviour of the code worth noting:

- `min_community_size` larger than the corpus makes `topk` raise rather than
  giving an empty list of communities. The same holds for an
  empty corpus with the default `min_community_size` of 15.
- Nothing in the code fixes the order of equal similarities: `topk` may
  return tied indices in any order. The model takes any descending
  ordering and proves that the seed rule and the candidate sets do not
  depend on it (`Rows.SeedRuleCountsNeighbours`,
  `Rows.CandidateIsThresholdSet`).
- The final order of the communities is Python's list order:
  lexicographic, with a proper prefix first. Communities built by the
  window scan list their members in similarity order, not index order,
  so the first member of a community need not be its smallest.
- `load_data` returns `([], [], None)` for a CSV file with the header but
  no rows, not empty lists with an empty frame: the length test on an
  empty column gives an empty series of strings, which pandas reads as a
  list of column labels at line 27.
- An item that is not a seed can still belong to a community, because it
  can lie in a seed's threshold set.

## Model

| member | source | states |
|---|---|---|
| Rows.TakeWhileAbove | app/modules/clustering/cluster_maker.py:62-67 | the window scan returns the longest prefix of the window whose similarities reach the threshold, stopping at the first value below it |
| Rows.FullScan | app/modules/clustering/cluster_maker.py:69-72 | the full-row scan returns, in increasing index order, exactly the indices whose similarity reaches the threshold |
| Rows.Candidate | app/modules/clustering/cluster_maker.py:55-72 | whichever path the window test picks, the candidate lists exactly the indices whose similarity reaches the threshold, each once |
| Rows.DescendingScanIsThresholdSet | app/modules/clustering/cluster_maker.py:62-67 | scanning a whole descending ordering while the threshold holds yields the threshold set, without repetitions |
| Rows.SeedRuleCountsNeighbours | app/modules/clustering/cluster_maker.py:45-50 | the `m`-th largest value of a row reaches the threshold if and only if at least `m` indices of the row reach it, for every ordering of ties |
| Rows.CandidateIsThresholdSet | app/modules/clustering/cluster_maker.py:55-72 | both candidate paths produce exactly the row's threshold set, each index once; neither path truncates |
| Rows.WindowAloneWouldTruncate | app/modules/clustering/cluster_maker.py:62-72 | when the window's last value reaches the threshold and more indices qualify than the window holds, the window scan alone would miss some, which is why the full scan exists |
| Rows.TakeWhileIgnoresTail | app/modules/clustering/cluster_maker.py:58-67 | cutting the ordering to the `valid_k` window does not change the window scan once a value below the threshold lies inside the window |
| Detection.Seeds | app/modules/clustering/cluster_maker.py:49-50 | the seeds are strictly increasing row numbers, and a row is a seed if and only if its `m`-th largest value reaches the threshold |
| Detection.DetectClusters | app/modules/clustering/cluster_maker.py:40-95 | a successful detection is a pairwise disjoint list of at most one community per corpus item; when it fails is stated by `Detection.DetectClustersFailsExactly` |
| Detection.CandidatesAt | app/modules/clustering/cluster_maker.py:74 | the `j`-th extracted candidate is the candidate of the `j`-th seed |
| Detection.BuildCandidate | app/modules/clustering/cluster_maker.py:51-72 | the two loops, as written, compute the candidate, whose elements are exactly the row's threshold set |
| Detection.ExtractCommunities | app/modules/clustering/cluster_maker.py:48-74 | the seed loop yields one candidate per seed in seed order; with an empty window it raises at the first seed; without seeds it yields nothing |
| Detection.ExtractRow | app/modules/clustering/cluster_maker.py:49-74 | one row of the seed loop raises exactly when the row is a seed and the window is empty, and otherwise keeps one candidate per seed seen so far |
| Detection.DetectClustersLoop | app/modules/clustering/cluster_maker.py:40-95 | the loops as written compute the detection: topk argument errors, seed loop, ranking, greedy removal |
| Detection.IsSeedIffEnoughNeighbours | app/modules/clustering/cluster_maker.py:45-50 | a row qualifies if and only if at least `min_community_size` items are similar enough to it |
| Detection.DetectClustersFailsExactly | app/modules/clustering/cluster_maker.py:45-62 | detection raises if and only if `min_community_size` exceeds the corpus, or is zero on a non-empty corpus, or the window is empty while some row qualifies |
| Detection.SelectionKeepsCandidates | app/modules/clustering/cluster_maker.py:77-93 | ranking and greedy selection return pairwise disjoint communities, each one of the candidates |
| Detection.CandidatesAreSeedCommunities | app/modules/clustering/cluster_maker.py:49-74 | every candidate is the threshold set of a qualifying row, without repetitions, inside the corpus |
| Detection.DetectClustersSound | app/modules/clustering/cluster_maker.py:40-95 | a successful detection returns pairwise disjoint communities of corpus indices, at most one per row, each the threshold set of a qualifying row |
| Detection.DetectKeepsLargestCandidate | app/modules/clustering/cluster_maker.py:77-91 | when some row qualifies, the result is non-empty and its first community is at least as large as any qualifying row's threshold set |
| Ranking.RankBySize | app/modules/clustering/cluster_maker.py:77 | the ranking is a permutation of the candidates, sizes never increase, and the candidates of each size keep their extraction order |
| Ranking.InsertIsStable | app/modules/clustering/cluster_maker.py:77 | inserting a candidate puts it ahead of the candidates of its own size and leaves every other size class alone |
| Ranking.StableSortIsUnique | app/modules/clustering/cluster_maker.py:77 | any size-ordered arrangement that keeps equal-sized candidates in extraction order equals the ranking, so the result does not depend on the sorting algorithm |
| Greedy.Select | app/modules/clustering/cluster_maker.py:80-93 | every kept community is one of the ranked candidates, there are no more kept than ranked, and the first ranked candidate is always kept |
| Greedy.ClaimedMembership | app/modules/clustering/cluster_maker.py:81-93 | an index is in `extracted_ids` if and only if some kept community holds it |
| Greedy.SelectIsDisjoint | app/modules/clustering/cluster_maker.py:80-93 | the kept communities are pairwise disjoint |
| Greedy.SelectExtends | app/modules/clustering/cluster_maker.py:83-93 | deciding the first `j` candidates fixes the beginning of the selection; later candidates only append |
| Greedy.SelectKeepsFirst | app/modules/clustering/cluster_maker.py:83-91 | the first ranked candidate, if any, is always kept |
| Greedy.SelectIsOrderedSubsequence | app/modules/clustering/cluster_maker.py:83-91 | every kept community is a ranked candidate admitted unchanged, and kept communities appear in ranked order |
| Greedy.KeptExactlyWhenUnclaimed | app/modules/clustering/cluster_maker.py:84-91 | candidate `j` is kept if and only if it shares no index with the communities kept before it; a rejected candidate contributes nothing |
| Greedy.SelectIsMaximal | app/modules/clustering/cluster_maker.py:84-93 | every non-empty candidate shares an index with the kept communities, so no further candidate could be added |
| Greedy.RemoveOverlapping | app/modules/clustering/cluster_maker.py:80-95 | the loops as written, with the early `break`, compute the greedy selection, which is pairwise disjoint |
| Greedy.AvoidsClaimedLoop | app/modules/clustering/cluster_maker.py:84-88 | the inner scan with its `break` keeps the flag set if and only if no index of the community is already claimed |
| Greedy.ClaimAll | app/modules/clustering/cluster_maker.py:92-93 | after the inner loop the claimed indices are the earlier ones together with every index of the kept community |
| Communities.PermutationKeepsDisjoint | app/modules/clustering/cluster_maker.py:114 | rearranging pairwise disjoint communities keeps them pairwise disjoint |
| Communities.PermutationKeepsIndicesBelow | app/modules/clustering/cluster_maker.py:114 | rearranging communities does not introduce indices outside the corpus |
| LexOrder.LexLeTotal | app/modules/clustering/cluster_maker.py:114 | Python's list comparison makes any two communities comparable |
| LexOrder.LexLeAntisymmetric | app/modules/clustering/cluster_maker.py:114 | two lists each at most the other are equal |
| LexOrder.LexLeTransitive | app/modules/clustering/cluster_maker.py:114 | the list comparison is transitive |
| LexOrder.SortLex | app/modules/clustering/cluster_maker.py:114 | `all_clusters.sort()` returns a permutation of the communities in Python list order |
| LexOrder.SortedPermutationIsUnique | app/modules/clustering/cluster_maker.py:114 | there is one sorted arrangement of a list of communities, so the sorted result does not depend on the sorting algorithm |
| LexOrder.SortLexKeepsClusterSet | app/modules/clustering/cluster_maker.py:114 | sorting keeps the communities pairwise disjoint and inside the corpus |
| Loader.FillMissing | app/modules/clustering/cluster_maker.py:20-24 | a missing cell becomes the empty string and every other cell keeps its text, position by position |
| Loader.LoadData | app/modules/clustering/cluster_maker.py:12-37 | the result is `([], [], None)` exactly for an unreadable file, a missing 'Comment' column, or a header with no rows (the empty length test selects no column, so line 30 raises); otherwise the frame holds the short list |
| Loader.KeepLongIsLong | app/modules/clustering/cluster_maker.py:27 | every kept comment has at least 23 characters |
| Loader.KeepLongAppend | app/modules/clustering/cluster_maker.py:27 | the filter distributes over concatenation, so kept comments stay in their original order |
| Loader.KeepLongMembership | app/modules/clustering/cluster_maker.py:27 | a comment is kept if and only if it occurs in the input and has at least 23 characters |
| Loader.KeepLongIdempotent | app/modules/clustering/cluster_maker.py:27-31 | filtering an already filtered list changes nothing |
| Loader.LongEqualsShort | app/modules/clustering/cluster_maker.py:29-33 | the long list always equals the short list, and every loaded comment has at least 23 characters |
| Loader.LoadedCommentsArePresent | app/modules/clustering/cluster_maker.py:20-31 | a comment is loaded if and only if it is a present cell of at least 23 characters; missing cells never survive |
| ClusterMaker.CacheKey | app/modules/clustering/cluster_maker.py:100 | the cache file name is the data file name followed by `_embedding_cache.pkl` |
| ClusterMaker.CacheKeyInjective | app/modules/clustering/cluster_maker.py:100-109 | different data files never share a cache file |
| ClusterMaker.GetEmbeddings | app/modules/clustering/cluster_maker.py:100-109 | on a hit the stored embeddings are returned, the cache is unchanged and the encoder is not called; on a miss the encoding of the given comments is stored under the file's key and returned; other keys are unchanged |
| ClusterMaker.GetClustersFromFile | app/modules/clustering/cluster_maker.py:99-123 | the result fails exactly when detection does, and otherwise is a sorted permutation of the detected communities |
| ClusterMaker.GetClustersFromFileSound | app/modules/clustering/cluster_maker.py:111-114 | the returned communities are sorted, pairwise disjoint, inside the corpus, at most one per item, each the threshold set of a qualifying row |
| ClusterMaker.GetClustersFromFileIsTheSortedDetection | app/modules/clustering/cluster_maker.py:111-114 | any sorted permutation of the detected communities is the returned list |
| ClusterMaker.SecondCallSameClusters | app/modules/clustering/cluster_maker.py:99-111 | clustering the same file a second time returns the same result and cache, whatever comments are passed |
| Collector.Sanitize | app/modules/commentsextractor/comments_collector.py:59 | the sanitised name has the input's length; each of `< > : " / \ \| ? *` becomes `_` and every other character is kept |
| Collector.SanitizeIsClean | app/modules/commentsextractor/comments_collector.py:59 | the sanitised name contains no forbidden character |
| Collector.SanitizeFixesClean | app/modules/commentsextractor/comments_collector.py:59 | sanitising leaves a name unchanged if and only if it has no forbidden character |
| Collector.SanitizeIdempotent | app/modules/commentsextractor/comments_collector.py:59 | sanitising twice is sanitising once |
| Collector.Split | app/modules/commentsextractor/comments_collector.py:45 | `split('/')` yields at least one piece, no piece holds the separator, and a single piece is the whole string |
| Collector.JoinSplit | app/modules/commentsextractor/comments_collector.py:45 | joining the pieces of a split gives back the string |
| Collector.SplitJoin | app/modules/commentsextractor/comments_collector.py:45 | splitting a join of separator-free pieces gives back the pieces |
| Collector.LastPieceIsSuffix | app/modules/commentsextractor/comments_collector.py:45-47 | the last piece is the whole string when there is one piece, and otherwise the suffix after the last separator |
| Collector.GetId | app/modules/commentsextractor/comments_collector.py:37-47 | the id is always present: the first `v` query value if there is one, otherwise a path piece without `/` |
| Collector.GetIdFromPath | app/modules/commentsextractor/comments_collector.py:45-47 | without a `v` parameter, the id is the part of the path after its last `/`, possibly empty |
| Collector.ReadItem | app/modules/commentsextractor/comments_collector.py:119-124 | an item yields a record if and only if all five fields it reads are present, and the record holds `textDisplay` as the comment, the top-level comment's `id`, `likeCount` and `authorDisplayName` |
| Collector.Records | app/modules/commentsextractor/comments_collector.py:118-132 | a record is extracted for an item if and only if that item is well-formed, and every extracted record comes from some item; there are never more records than items |
| Collector.AddRecordsRow | app/modules/commentsextractor/comments_collector.py:126-130 | row `k` of the four lists holds the four fields of the `k`-th record, so the lists never drift apart |
| Collector.MalformedContributesNothing | app/modules/commentsextractor/comments_collector.py:118-132 | a malformed item contributes to none of the four lists |
| Collector.RecordsAppend | app/modules/commentsextractor/comments_collector.py:113-150 | items are read independently: the records of two item lists together are the records of each, in order |
| Collector.AddRecordsAppend | app/modules/commentsextractor/comments_collector.py:113-150 | adding records page by page gives the same lists as adding them all at once |
| Collector.ExtractPage | app/modules/commentsextractor/comments_collector.py:118-132 | the item loop as written appends the records of the well-formed items and keeps the four lists of equal length |
| Collector.CommentsHelper | app/modules/commentsextractor/comments_collector.py:73-160 | the helper returns a dictionary exactly when the title and first page were fetched, and then its four lists have equal length |
| Collector.CommentsHelperRows | app/modules/commentsextractor/comments_collector.py:113-160 | the lists hold one row per well-formed item of all fetched pages, each page appending its records |
| Collector.CsvPath | app/modules/commentsextractor/comments_collector.py:59-67 | the file written is `./data/` + the sanitised title + `.csv`, whose name part is clean |
| Collector.WriteTable | app/modules/commentsextractor/comments_collector.py:61-68 | a non-empty table is written if and only if its four lists have equal length; otherwise the frame constructor raises and nothing is written |
| Collector.SaveToCsvAsWritten | app/modules/commentsextractor/comments_collector.py:50-70 | as written, the save raises exactly on the empty dictionary, and anything written is the given non-empty table |
| Collector.SaveToCsv | app/modules/commentsextractor/comments_collector.py:50-70 | the intended save writes if and only if the dictionary has at least one comment and aligned lists, to the sanitised path |
| Collector.SaveToCsvAgrees | app/modules/commentsextractor/comments_collector.py:50-70 | the two versions agree on every dictionary the written version accepts |
| Collector.GetCommentsAsWritten | app/modules/commentsextractor/run_comments_collector.py:23-39 | as written, fetching comments for a URL raises if and only if the helper returned the empty dictionary |
| Collector.TitleFailureRaises | app/modules/commentsextractor/run_comments_collector.py:31-37 | when the title request fails, the save raises `KeyError` instead of skipping |
| Collector.GetComments | app/modules/commentsextractor/run_comments_collector.py:23-39 | with the intended save, anything written has aligned lists and at least one comment |
| Collector.GetCommentsWritesExactlyWhenCommented | app/modules/commentsextractor/run_comments_collector.py:28-39 | with the intended save, the title is returned and a file is written if and only if at least one well-formed comment was fetched |
| Starter.Collect | app/start.py:66-71 | the loop never loses a sentence already held and never holds more than five |
| Starter.SentencesInCluster | app/start.py:63-72 | at most five sentences are returned |
| Starter.CollectMembers | app/start.py:63-72 | every returned sentence is the comment of some in-range id of the community, even when a later id is out of range |
| Starter.GetSentencesInCluster | app/start.py:63-72 | the loop as written, with the counter `num` equal to the number of sentences held, computes the selection |
| Starter.CollectCovers | app/start.py:66-72 | with every id in range, the loop returns `min(5, distinct)` sentences of the community, namely those of a prefix of the ids that is either all of them or already holds five |
| Starter.CollectTakesPrefix | app/start.py:66-71 | with every id in range, the loop's result is the held sentences plus those of the first `j` ids, where `j` is all the ids or five sentences are held after `j` ids |
| Starter.SentencesCover | app/start.py:63-72 | with every id in range, the selection succeeds and returns `min(5, distinct)` sentences of the community: the sentences of its first `j` members, where `j` covers the whole community or the first `j` members already give five distinct sentences |
| Starter.CollectFailsExactly | app/start.py:66-70 | the selection raises if and only if an out-of-range id is reached while fewer than five distinct sentences are held |
| Starter.ShowPair | app/start.py:126-138 | one iteration writes nothing when the second community of the pair is missing, otherwise starts with the header of topic `i`, and writes only for topics `i` and `i + 1` |
| Starter.ShowPairsFrom | app/start.py:125-138 | the loop from `i` writes only for topics from `i` up to twenty |
| Starter.ShowTopics | app/start.py:120-138 | no communities shows the error, otherwise their count and the panels |
| Starter.ShownTopicsAreComplete | app/start.py:125-138 | every topic written is among the first `min(20, 2 * floor(n / 2))`; a topic whose partner is missing never shows |
| Starter.ShowPairIsPanels | app/start.py:126-136 | with every id in range, an existing pair shows both topics, each header followed by its sentences |
| Starter.ShowPairsFromIsPanels | app/start.py:125-138 | with every id in range, the pair loop shows topics `i` to `min(20, 2 * floor(n / 2))` in order |
| Starter.ShowTopicsCount | app/start.py:125-138 | with every id in range, exactly `min(20, 2 * floor(n / 2))` topics are shown, each with its sentences |
| Starter.ClusteredTopicsShowCompletely | app/start.py:117-138 | after a successful clustering of no more items than there are comments, every id is in range and the panels are exactly topics 1 to `min(20, 2 * floor(n / 2))`, each header followed by its sentences |
| Starter.FreshClusteringShowsCompletely | app/start.py:117-138 | on a cache miss, with an encoder that yields one row per comment, the same complete display follows without a row-count assumption |

## Left out

- The cosine similarity and `torch.topk` (cluster_maker.py lines 42, 45 and 58) are floating-point tensor numerics. The matrix and each row's descending ordering are inputs. The same ordering stands for both `topk` calls, whose tie order torch leaves unspecified.
- The encoder (`SentenceTransformer`) and the pickle files are left out. The cache is a map and the encoder a function parameter. A stored value is reduced to the similarity structure detection needs.
- `os.path.join` and the cache directory are left out. A file name that would escape the directory is not modelled, since cache keys are plain map keys.
- A stale cache entry whose row count differs from the comment list is left unchecked, as in the source. `Starter.ClusteredTopicsShowCompletely` therefore assumes the embeddings have no more rows than there are comments.
- pandas (`read_csv`, `fillna`, `astype`, `DataFrame`, `to_csv`) is left out. A CSV file is its 'Comment' column as optional strings, and a save is the path and table written. Disk errors on writing are not modelled.
- The YouTube API client, key files, page requests and the rate-limit sleep are network and file I/O. An API answer is given as a `Fetch` value holding the fetched pages. A page response without an `items` key is not modelled.
- `urlparse` and `parse_qs` are left out. A parsed URL is a query map and a path.
- Streamlit widgets, charts, emoji counting, sentiment, stop words and word frequencies are display code. Only the sentence selection and the pair loop of the topics expander are modelled. Writing a set with `list(...)` has no defined order, so sentences are modelled as a set.
- `Collector.GetId`: Python's `split` is modelled for a one-character separator only, which is the only use in the source.
- `Starter.SentencesInCluster`: negative ids are not modelled. Community members are natural numbers, so Python's negative indexing never applies.

## Findings

| source | as written | input that shows it | evidently intended | confidence | as-written member | corrected member |
|---|---|---|---|---|---|---|
| app/modules/commentsextractor/comments_collector.py:54 | `save_to_csv` reads `output_dict['Comment']` outside its `try`. `comments_helper` returns the empty dictionary `{}` when the title or the first page cannot be fetched (lines 95 and 107), and `_get_comments` passes it straight on (run_comments_collector.py:34-37). | a URL whose video-title request fails: `comments_helper` returns `({}, "")` and `save_to_csv({}, "")` raises `KeyError` | skip the save, as the guard does for a dictionary without comments, whose message announces a skipped save | medium, not executed | Collector.GetCommentsAsWritten, Collector.TitleFailureRaises | Collector.SaveToCsv, Collector.GetCommentsWritesExactlyWhenCommented |
