# documentexplore — a Dafny model of the pipeline core

documentexplore turns an uploaded document into an interactive topic explorer. The pipeline has several stages:

1. The text is split into documents and cut into fixed-width chunks.
2. Each chunk is embedded with TF-IDF.
3. The embeddings are clustered with KMeans, choosing the number of clusters by silhouette score.
4. Each cluster is named from its most frequent phrases.
5. Everything is assembled into one `docexplore.json` artifact.

The Streamlit page then reads the artifact back. It computes each topic's keywords, the keywords of the whole document, and the keyword overlap between topics. It also lays the topics out on a 2-D map and counts each topic's mentions.

This project models that deterministic core in Dafny and proves what it promises:

- `Chunking`, `Splitting`: the chunker and Python's `str.split(sep)`.
  - Chunks concatenate back to the text.
  - Every chunk but the last is full.
  - Chunks never span a document boundary.
  - The document marker round trip holds exactly when no document can be confused with the marker.
- `ChunkTransport`, `Text`: the chunk file written by the chunker and parsed by the embedding stage.
  - Parsing what was written gives back the stripped, non-empty chunks.
- `Embedding`: the `_vectorizer`/`_fitted` module globals and the records of the embedding stage.
  - The globals are a state machine, including the calls that raise.
- `Clustering`:
  - cluster-count selection;
  - the sample-count guard;
  - writing labels back onto the records.
- `TopicNaming`, `Decimal`: how a cluster title is built from ranked phrases, and the `str(cluster_id)` keys.
- `Artifact`, `Grouping`, `Records`: the artifact's cluster list.
  - It has one cluster per label, in order of first appearance.
  - Each cluster holds exactly its records.
  - Flattening the clusters permutes the records.
- `Counting`: `collections.Counter` and `most_common(n)`, a stable descending sort cut to `n`.
- `Keywords`, `Overlap`, `Layout`, `Mentions`: the analysis page's helpers.
  - `extract_keywords_per_topic`, `extract_all_keywords` and `compute_topic_overlap`;
  - the distance matrix of `compute_topic_positions`;
  - the mention table.

Scikit-learn, numpy and MDS are not modelled. Each appears as a function-typed parameter with the meaning stated on the member that takes it:

- `TfidfVectorizer` fit and transform;
- the scaler, KMeans and silhouette score;
- the phrase ranking of `CountVectorizer`;
- `np.mean`, `np.linalg.norm` and `MDS.fit_transform`.

A Python dict is modelled as a sequence of key/value pairs in insertion order.

Two behaviours of the code are easy to miss:

- A cluster whose every word is an English stop word makes `CountVectorizer` raise. The exception handler (backend/topic_naming.py:72-74) then names it `Cluster {id}`. It does not get the `Topic {id}` of the empty-selection fallback (line 58): see `TopicNaming.NameCluster`.
- An empty record list only prints a warning (backend/generate_json.py:13-14). The artifact is still built, with no clusters: see `Artifact.GenerateArtifact`.

## Model

| member | source | states |
|---|---|---|
| Chunking.Chunks | backend/text_chunking.py:3-11 | the chunks concatenate to the text, are non-empty and at most `max_chars` long, and all but the last are exactly `max_chars` |
| Chunking.ChunksCount | backend/text_chunking.py:3-11 | a positive `max_chars` cuts a text into ceil(len / max_chars) chunks |
| Chunking.ChunkText | backend/text_chunking.py:3-11 | the `start`-indexed loop with clamping slices produces exactly the chunks described by `Chunks` |
| Chunking.NineThousandCharacters | backend/text_chunking.py:3-11 | a 9000-character text cut at 4000 gives chunks of 4000, 4000 and 1000 characters |
| Chunking.ChunkDocuments | backend/text_chunking.py:19-22 | chunking documents one by one keeps every character in order, and the chunk count is the sum of the per-document counts |
| Chunking.ChunkAllTexts | backend/text_chunking.py:13-22 | chunking the full text splits it on the document marker and chunks every piece; the chunks rebuild the pieces, each is 1..max_chars long |
| Chunking.ChunkAllOfJoined | backend/text_chunking.py:18-22 | for documents joined with the marker, each separable from it, the chunks are exactly the per-document chunks: no chunk spans two documents |
| Chunking.MarkerFreeIsNotEnough | backend/text_chunking.py:18 | a document that does not contain the marker can still be split wrongly: `["x" + marker minus its last newline, "y"]` joined and split does not give the documents back |
| Splitting.Split | backend/text_chunking.py:18 | `str.split(sep)`: at least one piece, no piece contains the separator, and joining the pieces with the separator gives the string back |
| Splitting.SplitJoin | backend/text_chunking.py:18 | splitting a join gives back the pieces when every piece is separable from the separator |
| Splitting.SeparableNotContains | backend/text_chunking.py:18 | a separable piece does not contain the separator |
| ChunkTransport.KeepStripped | backend/embedding_generation.py:41 | the kept pieces are non-empty, stripped, and no more numerous than the pieces |
| ChunkTransport.ParseChunks | backend/embedding_generation.py:41 | every parsed chunk is non-empty, stripped, and free of the end marker |
| ChunkTransport.ParseSerialised | backend/text_chunking.py:25-27 | parsing the written chunk file gives back the chunks, stripped, with the blank ones dropped, whenever no chunk contains the end marker |
| ChunkTransport.OneMarkerPerChunk | backend/text_chunking.py:26-27 | the written file splits on the end marker into one piece per chunk plus a final one |
| ChunkTransport.SplitSerialised | backend/text_chunking.py:26-27 | splitting the written file on the end marker cuts right after each chunk's newline |
| Text.Strip | backend/text_chunking.py:27 | `strip()` returns the slice between the leading and the trailing whitespace run, and the result has no whitespace at either end |
| Text.StripEmpty | backend/embedding_generation.py:41 | a piece strips to the empty string exactly when it is all whitespace |
| Text.StripPadded | backend/embedding_generation.py:41 | stripping whitespace-padded stripped text returns that text |
| Text.Words | app.py:67 | `split()` yields non-empty words without whitespace |
| Text.WordsOfJoin | app.py:66-67 | splitting space-joined words gives the words back |
| Text.WordsOfSpaced | app.py:66-67 | splitting `a + " " + b` gives the words of `a` followed by the words of `b` |
| Text.WordsOfJoinedPhrases | backend/topic_naming.py:67 | splitting space-joined phrases gives the concatenation of their words |
| Text.Lower | app.py:60 | `lower()` keeps the length, lowers every letter and leaves a lower-case string |
| Text.CapitalizeShape | backend/topic_naming.py:61 | `capitalize()` keeps length and letters up to case, makes the first character upper-case and no later one |
| Text.SignificantWords | app.py:67 | every kept word is a word of the text, longer than three characters and alphabetic |
| Text.WordsOfLower | app.py:60-67 | a lower-case text splits into lower-case words |
| Embedding.GetEmbedding | backend/embedding_generation.py:6-27 | a fitted vectorizer is used unchanged; a first call fits on the one text and sets `_fitted`; a failing first fit raises and leaves `_fitted` false; success always leaves a fitted vectorizer |
| Embedding.GenerateEmbeddings | backend/embedding_generation.py:29-64 | fails exactly when fitting all chunks fails; otherwise one record `{id: idx, text, embedding}` per parsed chunk, in order, embedded with the model fitted on all chunks, and the globals left fitted |
| Embedding.UniformWidth | backend/embedding_generation.py:44-57 | all embeddings of one run have the same length |
| Embedding.FailedFirstFitPoisons | backend/embedding_generation.py:11-21 | after a first-import run whose fit raised, `_fitted` is unbound and every later `get_embedding` raises a `NameError` |
| Embedding.FailedRefitLeavesStaleFlag | backend/embedding_generation.py:44-47 | after a failed refit following a successful run, `_fitted` is still true with an unfitted vectorizer, so `get_embedding` raises |
| Clustering.Stride | backend/clustering.py:25-29 | the stride is at least 1, is 1 for upper bounds up to 30, and is smaller than the range otherwise |
| Clustering.Range | backend/clustering.py:27-29 | `range(lo, hi, step)`: the elements are `lo + i*step`, lie in `[lo, hi)`, increase, and run up to `hi` |
| Clustering.Candidates | backend/clustering.py:20-29 | the candidate counts increase, lie between the computed bounds and start at the lower bound |
| Clustering.Scored | backend/clustering.py:41-56 | the collected pairs are exactly the candidates below the sample count whose scoring did not raise, with their scores, in candidate order |
| Clustering.ScoredEmpty | backend/clustering.py:41-59 | nothing is collected exactly when every candidate below the sample count raised while being scored |
| Clustering.DetermineOptimalClusters | backend/clustering.py:14-66 | the lower bound when there are fewer than two candidates or none was scored; otherwise the first scored candidate with the greatest score |
| Clustering.ArgMaxIsFirst | backend/clustering.py:62 | `max(..., key=score)` picks a candidate scoring at least as high as all and strictly higher than every earlier one |
| Clustering.DefaultBounds | backend/clustering.py:21-22 | with the defaults the lower bound is 2 or 3 and the upper bound at least two above it |
| Clustering.DefaultHasTwoCandidates | backend/clustering.py:32-34 | with the defaults the early return for a short range never fires |
| Clustering.TwoSamplesGiveTwo | backend/clustering.py:45-46 | with two samples every candidate is skipped and the choice is 2 |
| Clustering.OptimalWithinSamples | backend/clustering.py:45-66 | once there are two samples the chosen count never exceeds the sample count |
| Clustering.DefaultOptimalRange | backend/clustering.py:14-66 | with the defaults the choice lies in `[2, 50)` and, from two samples on, does not exceed the sample count |
| Clustering.Vectors | backend/clustering.py:70 | every kept vector is non-empty; none are kept exactly when every embedding is empty; with no empty embedding, all are kept in record order |
| Clustering.VectorsAreComprehension | backend/clustering.py:70 | the kept vectors are the embeddings of exactly the records that have a non-empty one, in record order |
| Clustering.WantedCount | backend/clustering.py:82-83 | a positive request is used, otherwise the automatic choice, which is at least 2 |
| Clustering.ClusterCount | backend/clustering.py:80-90 | the count is positive and at most the sample count from two samples on; a fitting request is kept; a request above the sample count becomes `max(2, n // 3)`; the automatic choice is never reduced from two samples on and becomes 2 below that; one sample fits only a request for one cluster |
| Clustering.PerformClustering | backend/clustering.py:68-94 | raises `ValueError` exactly when no record has an embedding; succeeds exactly when KMeans gets enough samples; the count used is `ClusterCount` of the embedded-record count (requested, reduced or automatic) and the labels are KMeans's for that count; a too-few-samples failure carries the sample count and that cluster count |
| Clustering.SaveClusteredData | backend/clustering.py:96-98 | label `i` goes onto record `i`, the rest are untouched, and more labels than records raise |
| Clustering.AlignLabels | backend/clustering.py:96-98 | only the `cluster` field changes, and records without an embedding keep theirs |
| Clustering.AlignLabelsFollowVectors | backend/clustering.py:70-98 | every record KMeans saw receives its own label, in order |
| Clustering.SaveMatchesAlignedWhenDense | backend/clustering.py:96-98 | when every record has an embedding, writing by position is writing to the records KMeans saw |
| Clustering.SaveMisalignsAfterEmptyEmbedding | backend/clustering.py:96-98 | a record without an embedding ahead of one with an embedding takes the label meant for the other |
| Decimal.ParseIdText | backend/topic_naming.py:93 | `str(cluster_id)` has a left inverse |
| Decimal.IdTextInjective | backend/topic_naming.py:93 | distinct cluster ids never share a name key |
| TopicNaming.TopPhrases | backend/topic_naming.py:38-39 | the candidates are the first `2*MAX_KEYWORDS` ranked phrases |
| TopicNaming.FillSlots | backend/topic_naming.py:47-54 | `min(n, len(first) + len(second))` elements: as much of the first list as fits, in order, then the second list's head for the slots left |
| TopicNaming.SelectPhrases | backend/topic_naming.py:43-54 | multi-word candidates lead in rank order, single-word candidates follow in rank order, `min(MAX_KEYWORDS, #candidates)` in all |
| TopicNaming.SelectionFromTop | backend/topic_naming.py:38-54 | every selected phrase is among the first `2*MAX_KEYWORDS` ranked phrases |
| TopicNaming.SelectionSingleWordsLast | backend/topic_naming.py:43-54 | a single word is picked only when every multi-word candidate already was |
| TopicNaming.SingleWordsComeLast | backend/topic_naming.py:47-54 | a selection containing a single word contains every multi-word candidate |
| TopicNaming.SelectedCount | backend/topic_naming.py:43-54 | without blank candidates exactly `min(MAX_KEYWORDS, #candidates)` phrases are selected |
| TopicNaming.FormatTitle | backend/topic_naming.py:64-69 | a single phrase is the title; otherwise the title starts with the first phrase |
| TopicNaming.TitleWords | backend/topic_naming.py:64-69 | the title splits into the first phrase's words, `&`, and the other phrases' words |
| TopicNaming.NameCluster | backend/topic_naming.py:9-74 | `Topic {id}` for no texts or nothing selected, `Cluster {id}` when the extractor raises, else the non-empty title of the capitalised selection |
| TopicNaming.AssignClusterNames | backend/topic_naming.py:76-93 | one entry per distinct label, in first-seen order, keyed by `str(id)` and holding the name of exactly that label's texts |
| TopicNaming.GroupingKeepsEveryText | backend/topic_naming.py:80-86 | the groups hold every text exactly once |
| Grouping.GroupBy | backend/topic_naming.py:81-86 | the keys are the first-seen labels and each group is the values with that key, in order |
| Grouping.GroupByPermutes | backend/generate_json.py:20-25 | the groups together hold every value exactly once |
| Grouping.FromPairs | app.py:191 | a dict comprehension has distinct keys in first-seen order |
| Grouping.FromPairsLast | app.py:191 | each key of a dict comprehension holds the value of the last pair assigned under it |
| Grouping.FromDistinctPairs | app.py:191 | with distinct keys the comprehension keeps the pairs as they are |
| Grouping.Lookup | app.py:101-102 | `get` finds nothing exactly for a missing key and otherwise a stored pair |
| Grouping.LookupFinds | app.py:101-102 | on a dict, `get` returns the value stored under the key |
| Records.SelectLabelPairs | app.py:57-62 | a tracked label's group collects exactly the texts of the records carrying it, in input order |
| Records.LabelPairsKeys | app.py:57-62 | a label gets a group exactly when it is tracked and some record carries it |
| Artifact.ClusterName | backend/generate_json.py:30 | the stored name under `str(cid)`, otherwise `Cluster {cid}` |
| Artifact.FirstUnlabelled | backend/generate_json.py:21-22 | finds the first record without a label, and none exactly when all are labelled |
| Artifact.GenerateArtifact | backend/generate_json.py:5-44 | fails with a `KeyError` at the first unlabelled record; else keeps the metadata, makes one cluster per distinct label in first-seen order, each holding exactly its records in order and named from the names file |
| Artifact.SelectIsInCluster | backend/generate_json.py:20-25 | the group of a label is exactly the records carrying it |
| Artifact.DistinctClusterIds | backend/generate_json.py:20-35 | cluster ids are pairwise distinct |
| Artifact.FlattenPermutes | backend/generate_json.py:20-35 | the clusters' records, flattened, are a permutation of the input records |
| Artifact.ItemInOwnCluster | backend/generate_json.py:20-35 | every record lies in the cluster of its own label and in no other |
| Counting.Tally | app.py:68 | `Counter(words)`: distinct keys in first-seen order, each with its number of occurrences |
| Counting.MostCommonSorted | app.py:69 | `most_common` returns counts in non-increasing order |
| Counting.MostCommonStable | app.py:69 | among equal counts `most_common` keeps the counter's insertion order |
| Counting.TopCountsEntries | app.py:77-78 | `min(n, #distinct words)` entries, each a word with its exact count |
| Counting.TopCountsDistinct | app.py:77-78 | no word is returned twice |
| Counting.TopCountsTop | app.py:77-78 | a word left out is no more frequent than any word returned |
| Counting.TopCountsTies | app.py:77-78 | a word left out with the same count as a returned one was first seen after it |
| Counting.TopCountsSorted | app.py:77-78 | the returned counts do not increase |
| Keywords.KeywordsLower | app.py:66-67 | the counted words of lower-cased texts are lower-case, alphabetic and longer than three |
| Keywords.ExtractAllKeywords | app.py:73-78 | exactly `min(n, #distinct words)` distinct words, each a significant lower-case word of the document with its exact count, most frequent first |
| Keywords.AllKeywordsAreTop | app.py:73-78 | a document word left out is no more frequent than any returned, and on a tie comes later in first-seen order |
| Keywords.AllKeywordsComplete | app.py:73-78 | with `n` at least the number of distinct words, every word is returned |
| Keywords.TopicTexts | app.py:57-62 | one group per topic id with distinct ids, each holding the lower-cased texts of exactly its records, in order |
| Keywords.TopicTextsKeys | app.py:57-62 | a topic has a group exactly when some record carries its id |
| Keywords.TopKeywordsShape | app.py:66-69 | at most `n` distinct significant lower-case words of the texts, most frequent first |
| Keywords.ExtractKeywordsPerTopic | app.py:55-71 | the result is a dict: names are distinct |
| Keywords.PerTopicSource | app.py:64-71 | every entry is named after a mentioned topic and lists that topic's top keywords |
| Keywords.PerTopicCovers | app.py:57-71 | every mentioned topic has an entry under its name |
| Keywords.PerTopicShape | app.py:66-70 | every keyword list has at most `n` distinct significant lower-case words |
| Overlap.TopicWords | app.py:89-93 | one word set per topic group |
| Overlap.WordsOfTopic | app.py:82-102 | a topic's set is the set of its texts' keywords, and empty for a topic no record mentions |
| Overlap.ThresholdExact | app.py:105-106 | `common/total > 0.1` exactly when `total > 0` and `10*common > total`; the ratio lies in `[0, 1]` |
| Overlap.Compare | app.py:99-105 | the names of the two topics; shared at most total; total is zero exactly when both sets are empty |
| Overlap.UnionBounds | app.py:103-104 | the intersection is no bigger than the union, which is empty only for two empty sets |
| Overlap.CompareSymmetric | app.py:101-104 | swapping the two topics leaves both sizes unchanged |
| Overlap.DisjointNotMeaningful | app.py:103-106 | topics without a shared keyword are never reported |
| Overlap.PairsOf | app.py:97-98 | the loops visit `n(n-1)/2` pairs |
| Overlap.PairsOfMembers | app.py:97-98 | the visited pairs are exactly `(topics[i], topics[j])` with `i < j` |
| Overlap.AllComparisons | app.py:97-105 | one comparison per visited pair, in loop order |
| Overlap.OverlapFromPair | app.py:97-107 | a meaningful comparison of topics `i < j` is reported |
| Overlap.OverlapToPair | app.py:97-107 | every report is a meaningful comparison of some topics `i < j` |
| Overlap.OverlapReported | app.py:80-108 | a report is returned exactly when it compares topics `i < j` whose keyword overlap exceeds 0.1 |
| Layout.AverageEmbeddings | app.py:118 | one average per group of embeddings |
| Layout.AverageLookup | app.py:112-118 | a topic has an average exactly when one of its records has an embedding, and it is the mean of those embeddings in order |
| Layout.LayoutInputIsEmbeddedTopics | app.py:120-125 | the second loop selects, in `topics_dict` order, exactly the topics with an embedded record, each with its mean |
| Layout.EmbeddedTopicsEmpty | app.py:127-128 | nothing is selected exactly when no topic has a record with an embedding |
| Layout.DistanceSymmetric | app.py:135-140 | the cosine distance does not depend on the order of the vectors, and a zero-norm vector is at distance 1 |
| Layout.DistanceMatrix | app.py:130-142 | the matrix is square with a zero diagonal, holds the cosine distance of each pair off the diagonal, and is symmetric |
| Layout.ComputeTopicPositions | app.py:110-146 | `(None, None)` exactly when no topic has an embedded record; otherwise the selected names, their distance matrix and MDS's coordinates for it |
| Mentions.TopicsDict | app.py:191 | topic ids are distinct and follow the clusters' first-seen order |
| Mentions.TopicsFromClusters | app.py:191 | every topic is the id and name of some cluster |
| Mentions.ClusterIdsCount | app.py:197 | a label occurs among the collected ids as often as records carry it |
| Mentions.MentionRows | app.py:200-207 | one row per topic, in `topics_dict` order, with the topic's id and name |
| Mentions.CountedOrZero | app.py:198-202 | `counts.get(cid, 0)` is the number of occurrences of `cid` |
| Mentions.MentionCounts | app.py:192-207 | each row counts the flattened records carrying its id, and 0 for a topic none carries |
| Mentions.RowsNonEmpty | app.py:209-212 | with at least one cluster the table is never empty |
| Mentions.CountInClusters | app.py:192-195 | in clusters of distinct ids whose records carry their cluster's id, the records carrying `cid` are that cluster's records |
| Mentions.ArtifactMentions | app.py:191-207 | on a generated artifact, row `i` is cluster `i`'s name, its number of records, and its id |
| Mentions.TopMentions | app.py:214-218 | the first row after the descending sort carries the largest mention count, whatever the order of ties |
| Mentions.MentionSummary | app.py:186-218 | stops exactly when there are no clusters; otherwise the rows, the number of distinct topic ids, and the top mention count |

## Left out

- File and JSON I/O, `print` and `st.*` output, the Streamlit UI and session state, and the subprocess pipeline driver. `main.py`, `backend/data_extraction.py` and `backend/similarity.py` are outside the core. `Embedding` reads the chunk file's content as a string parameter.
- Scikit-learn, numpy and MDS become function parameters. Their results are whatever those functions return:
  - `TfidfVectorizer` is `fit` and `transform`;
  - the scaler, KMeans and silhouette score together are `score`;
  - `KMeans.fit_predict` is `kmeans`;
  - `CountVectorizer`'s phrase ranking is `extract`;
  - `np.mean`, `np.linalg.norm` and `MDS.fit_transform` are `mean`, `norm` and `mds`.
- `random_state` and `n_init` have no counterpart, because the engines that read them are parameters.
- Floating point is exact `real` arithmetic. Overlap ratios are kept as the exact pair of set sizes. `round(overlap, 2)` is not modelled, so a report carries the sizes instead of the rounded ratio.
- Python's Unicode-aware `strip`, `split`, `lower`, `capitalize` and `isalpha` are modelled on their ASCII part. Other characters count as non-space, non-letter and case-less.
- Chunking.Chunks: a non-positive `max_chars` with non-empty text makes the source loop forever. The model admits a non-positive `max_chars` only for empty text.
- Layout.Dot sums over the common length of the two vectors. numpy raises on vectors of different lengths. The embedding stage gives all vectors one width (`Embedding.UniformWidth`).
- `X.reshape(-1, 1)` for one-dimensional arrays (backend/clustering.py:78-79) is not modelled. A list of embeddings is always two-dimensional.
- The skip branch of `generate_embeddings` (backend/embedding_generation.py:58-59) is not modelled. `get_embedding` never returns `None`, so the branch cannot be reached.
- Keywords.PerTopicSource: when two topics share a name, it does not say that the later topic's keywords are the ones kept.
- `df_topics.sort_values` (app.py:214) is quicksort, which does not keep the order of tied rows. Only the top mention count is modelled, not the sorted order or `top_topic_name` (app.py:217).
- `"cluster" in item` is modelled by the `cluster` field being `None` when the key is absent. An explicit `null` value is not distinguished from a missing key.
- `item.get("text", "")` and `item.get("embedding")`: every record of the model has a text and an embedding list, possibly empty.

## Findings

| source | as written | input that shows it | evidently intended | confidence | as-written member | corrected member |
|---|---|---|---|---|---|---|
| backend/clustering.py:96-98 | label `i` is written onto record `i`, but KMeans only labelled the records with a non-empty embedding (line 70) | records `[id 0 with embedding [], id 1 with embedding [1.0]]` and labels `[7]`: record 0 gets 7 and record 1, the one KMeans saw, gets none | each label goes to the record whose embedding produced it | medium, not executed: the embedding stage never writes an empty embedding, so only hand-made input shows it | Clustering.SaveClusteredData | Clustering.AlignLabels |
