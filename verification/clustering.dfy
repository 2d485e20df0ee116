/**
 * backend/clustering.py: choosing the number of clusters, the sample-count guard of
 * `perform_clustering`, and writing the labels back onto the records. KMeans, the scaler and
 * the silhouette score are opaque: `score(k)` stands for standardising the vectors, running
 * KMeans with `k` clusters and scoring the labelling, and is `None` where any of that raises.
 */
module Clustering {
  import opened Wrappers
  import opened Seqs
  import opened Records

  const DefaultMinClusters: int := 3
  const DefaultMaxClusters: int := 50

  /** Lower end of the searched range: one cluster per 20 chunks, at least 2, capped by `minClusters`. */
  function MinK(n: nat, minClusters: int): int
  {
    Min(minClusters, Max(2, n / 20))
  }

  /** Upper end of the searched range (exclusive): one cluster per 5 chunks, at least two above the
      lower end, capped by `maxClusters`. */
  function MaxK(n: nat, minK: int, maxClusters: int): int
  {
    Min(maxClusters, Max(minK + 2, n / 5))
  }

  /** The stride: 1 for small ranges, otherwise about a tenth of the range. For a positive
      divisor Dafny's `/` is Python's floor division. */
  function Stride(minK: int, maxK: int): (step: int)
    ensures step >= 1
    ensures maxK <= 30 ==> step == 1
    ensures maxK > 30 && minK < maxK ==> step < maxK - minK || step == 1
  {
    if maxK > 30 then Max(1, (maxK - minK) / 10) else 1
  }

  /** Python's `range(lo, hi, step)` for a positive step. */
  function Range(lo: int, hi: int, step: int): (r: seq<int>)
    requires step >= 1
    ensures forall i :: 0 <= i < |r| ==> r[i] == lo + i * step
    ensures forall i :: 0 <= i < |r| ==> lo <= r[i] < hi
    ensures lo + |r| * step >= hi
    ensures Increasing(r)
    decreases hi - lo
  {
    if lo >= hi then []
    else
      var rest := Range(lo + step, hi, step);
      assert forall i :: 0 < i < |rest| + 1 ==> lo + i * step == (lo + step) + (i - 1) * step;
      assert lo + (|rest| + 1) * step == (lo + step) + |rest| * step;
      [lo] + rest
  }

  predicate Increasing(s: seq<int>)
  {
    forall i, j :: 0 <= i < j < |s| ==> s[i] < s[j]
  }

  /** The cluster counts `determine_optimal_clusters` considers for `n` samples. */
  function Candidates(n: nat, minClusters: int, maxClusters: int): (r: seq<int>)
    ensures Increasing(r)
    ensures forall i :: 0 <= i < |r| ==> MinK(n, minClusters) <= r[i] < MaxK(n, MinK(n, minClusters), maxClusters)
    ensures |r| > 0 ==> r[0] == MinK(n, minClusters)
  {
    var lo := MinK(n, minClusters);
    var hi := MaxK(n, lo, maxClusters);
    Range(lo, hi, Stride(lo, hi))
  }

  /** The `(k, score)` pairs collected by the loop: candidates below `n` whose scoring did not raise. */
  function Scored(cands: seq<int>, n: nat, score: int -> Option<real>): (r: seq<(int, real)>)
    ensures forall i :: 0 <= i < |r| ==> r[i].0 in cands && r[i].0 < n && score(r[i].0) == Some(r[i].1)
    ensures forall c :: c in cands && c < n && score(c).Some? ==> (c, score(c).value) in r
    ensures Increasing(cands) ==> forall i, j :: 0 <= i < j < |r| ==> r[i].0 < r[j].0
  {
    if |cands| == 0 then []
    else
      var rest := Scored(cands[1..], n, score);
      var r := if cands[0] < n && score(cands[0]).Some? then [(cands[0], score(cands[0]).value)] + rest
               else rest;
      ScoredSound(cands, n, score, rest, r);
      ScoredComplete(cands, n, score, rest, r);
      ScoredOrdered(cands, n, score, rest, r);
      r
  }

  /** One step of the loop collects only scored candidates below `n`. */
  lemma ScoredSound(cands: seq<int>, n: nat, score: int -> Option<real>, rest: seq<(int, real)>,
                    r: seq<(int, real)>)
    requires |cands| > 0
    requires forall i :: 0 <= i < |rest| ==> rest[i].0 in cands[1..] && rest[i].0 < n && score(rest[i].0) == Some(rest[i].1)
    requires r == if cands[0] < n && score(cands[0]).Some? then [(cands[0], score(cands[0]).value)] + rest else rest
    ensures forall i :: 0 <= i < |r| ==> r[i].0 in cands && r[i].0 < n && score(r[i].0) == Some(r[i].1)
  {
    forall i | 0 <= i < |r|
      ensures r[i].0 in cands && r[i].0 < n && score(r[i].0) == Some(r[i].1)
    {
      if r != rest && i == 0 {
        assert r[0] == (cands[0], score(cands[0]).value);
      } else {
        var j := if r != rest then i - 1 else i;
        assert r[i] == rest[j];
        assert rest[j].0 in cands[1..];
      }
    }
  }

  /** One step of the loop misses no scored candidate below `n`. */
  lemma ScoredComplete(cands: seq<int>, n: nat, score: int -> Option<real>, rest: seq<(int, real)>,
                       r: seq<(int, real)>)
    requires |cands| > 0
    requires forall c :: c in cands[1..] && c < n && score(c).Some? ==> (c, score(c).value) in rest
    requires r == if cands[0] < n && score(cands[0]).Some? then [(cands[0], score(cands[0]).value)] + rest else rest
    ensures forall c :: c in cands && c < n && score(c).Some? ==> (c, score(c).value) in r
  {
    forall c | c in cands && c < n && score(c).Some?
      ensures (c, score(c).value) in r
    {
      if c != cands[0] {
        var j :| 0 <= j < |cands| && cands[j] == c;
        assert cands[1..][j - 1] == c;
      }
    }
  }

  /** One step of the loop keeps the pairs in increasing candidate order. */
  lemma ScoredOrdered(cands: seq<int>, n: nat, score: int -> Option<real>, rest: seq<(int, real)>,
                      r: seq<(int, real)>)
    requires |cands| > 0
    requires forall i :: 0 <= i < |rest| ==> rest[i].0 in cands[1..]
    requires Increasing(cands[1..]) ==> forall i, j :: 0 <= i < j < |rest| ==> rest[i].0 < rest[j].0
    requires r == if cands[0] < n && score(cands[0]).Some? then [(cands[0], score(cands[0]).value)] + rest else rest
    ensures Increasing(cands) ==> forall i, j :: 0 <= i < j < |r| ==> r[i].0 < r[j].0
  {
    if Increasing(cands) {
      assert Increasing(cands[1..]) by {
        forall i, j | 0 <= i < j < |cands[1..]|
          ensures cands[1..][i] < cands[1..][j]
        {
          assert cands[1..][i] == cands[i + 1] && cands[1..][j] == cands[j + 1];
        }
      }
      forall i, j | 0 <= i < j < |r|
        ensures r[i].0 < r[j].0
      {
        if r != rest && i == 0 {
          var k :| 0 <= k < |cands[1..]| && cands[1..][k] == rest[j - 1].0;
          assert cands[1..][k] == cands[k + 1];
          assert r[j] == rest[j - 1];
        } else if r != rest {
          assert r[i] == rest[i - 1] && r[j] == rest[j - 1];
        }
      }
    }
  }

  /** Nothing is collected exactly when no candidate below `n` could be scored. */
  lemma ScoredEmpty(cands: seq<int>, n: nat, score: int -> Option<real>)
    ensures |Scored(cands, n, score)| == 0 <==> forall c :: c in cands && c < n ==> score(c).None?
  {
    var r := Scored(cands, n, score);
    if |r| > 0 {
      assert r[0].0 in cands && r[0].0 < n && score(r[0].0).Some?;
    }
    if exists c :: c in cands && c < n && score(c).Some? {
      var c :| c in cands && c < n && score(c).Some?;
      assert (c, score(c).value) in r;
    }
  }

  /** The score of a collected pair, the key of `max(silhouette_scores, key=lambda x: x[1])`. */
  function ScoreOf(p: (int, real)): real { p.1 }

  /** `determine_optimal_clusters(X, minClusters, maxClusters)` for `n = X.shape[0]` samples. */
  function DetermineOptimalClusters(n: nat, minClusters: int, maxClusters: int,
                                    score: int -> Option<real>): (k: int)
    // too few candidates, or none scored: the lower end of the range
    ensures |Candidates(n, minClusters, maxClusters)| < 2 ==> k == MinK(n, minClusters)
    ensures (forall c :: c in Candidates(n, minClusters, maxClusters) && c < n ==> score(c).None?)
            ==> k == MinK(n, minClusters)
    // otherwise the first candidate with the greatest score
    ensures |Candidates(n, minClusters, maxClusters)| >= 2
            && (exists c :: c in Candidates(n, minClusters, maxClusters) && c < n && score(c).Some?)
            ==> && k in Candidates(n, minClusters, maxClusters) && k < n && score(k).Some?
                && (forall c :: c in Candidates(n, minClusters, maxClusters) && c < n && score(c).Some?
                      ==> score(c).value <= score(k).value)
                && (forall c :: c in Candidates(n, minClusters, maxClusters) && c < k && score(c).Some?
                      ==> score(c).value < score(k).value)
  {
    var cands := Candidates(n, minClusters, maxClusters);
    if |cands| < 2 then MinK(n, minClusters)
    else
      var scored := Scored(cands, n, score);
      ScoredEmpty(cands, n, score);
      if |scored| == 0 then MinK(n, minClusters)
      else
        var k := scored[FirstArgMax(scored, ScoreOf)].0;
        ArgMaxIsFirst(cands, n, score, scored, k);
        k
  }

  /** The pair `max` picks scores at least as high as every collected candidate, and strictly
      higher than every earlier one. */
  lemma ArgMaxIsFirst(cands: seq<int>, n: nat, score: int -> Option<real>, scored: seq<(int, real)>, k: int)
    requires Increasing(cands)
    requires scored == Scored(cands, n, score) && |scored| > 0
    requires k == scored[FirstArgMax(scored, ScoreOf)].0
    ensures k in cands && k < n && score(k).Some?
    ensures forall c :: c in cands && c < n && score(c).Some? ==> score(c).value <= score(k).value
    ensures forall c :: c in cands && c < k && score(c).Some? ==> score(c).value < score(k).value
  {
    var i := FirstArgMax(scored, ScoreOf);
    PickBeatsAll(cands, n, score, i);
    PickBeatsEarlier(cands, n, score, i);
  }

  /** A pair scoring at least as high as every collected pair beats every scored candidate. */
  lemma PickBeatsAll(cands: seq<int>, n: nat, score: int -> Option<real>, i: nat)
    requires i < |Scored(cands, n, score)|
    requires forall j :: 0 <= j < |Scored(cands, n, score)| ==>
               ScoreOf(Scored(cands, n, score)[j]) <= ScoreOf(Scored(cands, n, score)[i])
    ensures var k := Scored(cands, n, score)[i].0;
            forall c :: c in cands && c < n && score(c).Some? ==> score(c).value <= score(k).value
  {
    var scored := Scored(cands, n, score);
    var k := scored[i].0;
    forall c | c in cands && c < n && score(c).Some?
      ensures score(c).value <= score(k).value
    {
      var j :| 0 <= j < |scored| && scored[j] == (c, score(c).value);
      assert ScoreOf(scored[j]) <= ScoreOf(scored[i]);
    }
  }

  /** A pair scoring strictly higher than every earlier pair beats every earlier scored
      candidate, the pairs being in increasing candidate order. */
  lemma PickBeatsEarlier(cands: seq<int>, n: nat, score: int -> Option<real>, i: nat)
    requires Increasing(cands)
    requires i < |Scored(cands, n, score)|
    requires forall j :: 0 <= j < i ==>
               ScoreOf(Scored(cands, n, score)[j]) < ScoreOf(Scored(cands, n, score)[i])
    ensures var k := Scored(cands, n, score)[i].0;
            forall c :: c in cands && c < k && score(c).Some? ==> score(c).value < score(k).value
  {
    var scored := Scored(cands, n, score);
    var k := scored[i].0;
    forall c | c in cands && c < k && score(c).Some?
      ensures score(c).value < score(k).value
    {
      assert c < n;
      var j :| 0 <= j < |scored| && scored[j] == (c, score(c).value);
      assert j < i;
      assert ScoreOf(scored[j]) < ScoreOf(scored[i]);
    }
  }

  /** With the default bounds the lower end is 2 or 3 and the upper end is at least two above it. */
  lemma DefaultBounds(n: nat)
    ensures MinK(n, DefaultMinClusters) == 2 || MinK(n, DefaultMinClusters) == 3
    ensures MaxK(n, MinK(n, DefaultMinClusters), DefaultMaxClusters) >= MinK(n, DefaultMinClusters) + 2
  {
  }

  /** With the default bounds there are always at least two candidates, so the early return for a
      short range is never taken. */
  lemma DefaultHasTwoCandidates(n: nat)
    ensures |Candidates(n, DefaultMinClusters, DefaultMaxClusters)| >= 2
  {
    var lo := MinK(n, DefaultMinClusters);
    var hi := MaxK(n, lo, DefaultMaxClusters);
    var step := Stride(lo, hi);
    var r := Range(lo, hi, step);
    DefaultBounds(n);
    assert lo + step < hi;
  }

  /** Two samples: both candidates 2 and 3 are skipped, and the fallback gives 2. */
  lemma TwoSamplesGiveTwo(score: int -> Option<real>)
    ensures DetermineOptimalClusters(2, DefaultMinClusters, DefaultMaxClusters, score) == 2
  {
    assert Candidates(2, DefaultMinClusters, DefaultMaxClusters) == [2, 3];
  }

  /** For any bounds, the chosen count never exceeds the number of samples once there are two. */
  lemma OptimalWithinSamples(n: nat, minClusters: int, maxClusters: int, score: int -> Option<real>)
    requires n >= 2
    ensures DetermineOptimalClusters(n, minClusters, maxClusters, score) <= n
  {
    var k := DetermineOptimalClusters(n, minClusters, maxClusters, score);
    if k != MinK(n, minClusters) {
      var cands := Candidates(n, minClusters, maxClusters);
      assert exists c :: c in cands && c < n && score(c).Some?;
    }
  }

  /** With the default bounds the chosen count lies in `[2, 50)` and, for two or more samples,
      does not exceed the number of samples. */
  lemma DefaultOptimalRange(n: nat, score: int -> Option<real>)
    ensures 2 <= DetermineOptimalClusters(n, DefaultMinClusters, DefaultMaxClusters, score) < DefaultMaxClusters
    ensures n >= 2 ==> DetermineOptimalClusters(n, DefaultMinClusters, DefaultMaxClusters, score) <= n
  {
    DefaultBounds(n);
    DefaultHasTwoCandidates(n);
    var k := DetermineOptimalClusters(n, DefaultMinClusters, DefaultMaxClusters, score);
    var cands := Candidates(n, DefaultMinClusters, DefaultMaxClusters);
    if k != MinK(n, DefaultMinClusters) {
      assert exists c :: c in cands && c < n && score(c).Some?;
      assert k in cands;
    }
    if n >= 2 {
      OptimalWithinSamples(n, DefaultMinClusters, DefaultMaxClusters, score);
    }
  }

  /** `[item["embedding"] for item in data if item["embedding"]]`. */
  function Vectors(items: seq<Item>): (vs: seq<seq<real>>)
    ensures |vs| <= |items|
    ensures forall i :: 0 <= i < |vs| ==> |vs[i]| > 0
    ensures |vs| == 0 <==> forall i :: 0 <= i < |items| ==> |items[i].embedding| == 0
    ensures (forall i :: 0 <= i < |items| ==> |items[i].embedding| > 0) ==>
              |vs| == |items| && forall i :: 0 <= i < |items| ==> vs[i] == items[i].embedding
  {
    if |items| == 0 then []
    else
      var rest := Vectors(items[1..]);
      assert forall i :: 1 <= i < |items| ==> items[1..][i - 1] == items[i];
      if |items[0].embedding| > 0 then [items[0].embedding] + rest else rest
  }

  /** The kept vectors are the embeddings of exactly the records that have one, in record order. */
  lemma {:induction false} VectorsAreComprehension(items: seq<Item>)
    ensures Vectors(items) == Map(Filter(items, HasEmbedding), EmbeddingOf)
    decreases |items|
  {
    if |items| > 0 {
      VectorsAreComprehension(items[1..]);
      var head := if HasEmbedding(items[0]) then [items[0]] else [];
      VectorsStep(items, head, Vectors(items[1..]));
    }
  }

  /** One record more adds its embedding, if any, in front of the rest. */
  lemma VectorsStep(items: seq<Item>, head: seq<Item>, rest: seq<seq<real>>)
    requires |items| > 0
    requires head == if HasEmbedding(items[0]) then [items[0]] else []
    requires rest == Map(Filter(items[1..], HasEmbedding), EmbeddingOf)
    ensures Map(Filter(items, HasEmbedding), EmbeddingOf)
            == if |items[0].embedding| > 0 then [items[0].embedding] + rest else rest
  {
    FilterCons(items, HasEmbedding);
    MapAppend(head, Filter(items[1..], HasEmbedding), EmbeddingOf);
  }

  /** The count asked for before any reduction: the request when it is positive, otherwise the
      automatic choice. */
  function WantedCount(n: nat, requested: Option<int>, score: int -> Option<real>): (w: int)
    ensures requested.Some? && requested.value > 0 ==> w == requested.value
    ensures (requested.None? || requested.value <= 0) ==>
              && w == DetermineOptimalClusters(n, DefaultMinClusters, DefaultMaxClusters, score)
              && 2 <= w && (n >= 2 ==> w <= n)
  {
    if requested.None? || requested.value <= 0 then
      DefaultOptimalRange(n, score);
      DetermineOptimalClusters(n, DefaultMinClusters, DefaultMaxClusters, score)
    else requested.value
  }

  /** The cluster count `perform_clustering` hands to KMeans for `n` samples: the requested count,
      or the automatic choice when none (or a non-positive one) is requested, reduced to
      `max(2, n // 3)` when it exceeds `n`. */
  function ClusterCount(n: nat, requested: Option<int>, score: int -> Option<real>): (k: int)
    ensures k >= 1
    ensures n >= 2 ==> k <= n
    // an explicit request that fits is used as it is
    ensures requested.Some? && 0 < requested.value <= n ==> k == requested.value
    // with automatic choice the reduction never fires once there are two samples
    ensures (requested.None? || requested.value <= 0) && n >= 2
            ==> k == DetermineOptimalClusters(n, DefaultMinClusters, DefaultMaxClusters, score)
    // a single sample fits only an explicit request for one cluster
    ensures n == 1 ==> (k <= n <==> requested == Some(1))
    // a request for more clusters than samples is cut to `max(2, n // 3)`
    ensures requested.Some? && requested.value > n ==> k == Max(2, n / 3)
    // so is the automatic choice, which is at least 2, for fewer than two samples
    ensures (requested.None? || requested.value <= 0) && n < 2 ==> k == 2
  {
    var wanted := WantedCount(n, requested, score);
    if n < wanted then Max(2, n / 3) else wanted
  }

  datatype ClusterError = NoEmbeddings | TooFewSamples(samples: nat, clusters: int)

  /** `perform_clustering(data, requested)`: the cluster count used and KMeans's labels, one per
      non-empty embedding. `kmeans(vs, k)` is `KMeans(n_clusters=k).fit_predict(vs)`, which raises
      when there are fewer samples than clusters. */
  function PerformClustering(items: seq<Item>, requested: Option<int>, score: int -> Option<real>,
                             kmeans: (seq<seq<real>>, int) -> seq<int>)
    : (r: Result<(int, seq<int>), ClusterError>)
    ensures r == Failure(NoEmbeddings) <==> forall i :: 0 <= i < |items| ==> |items[i].embedding| == 0
    ensures r.Success? <==> |Vectors(items)| >= 2 || (|Vectors(items)| == 1 && requested == Some(1))
    ensures r.Success? ==> 1 <= r.value.0 <= |Vectors(items)|
                           && r.value.1 == kmeans(Vectors(items), r.value.0)
    // the count handed to KMeans is the requested, automatic or reduced count of `ClusterCount`
    ensures r.Success? ==> r.value.0 == ClusterCount(|Vectors(items)|, requested, score)
    ensures r.Failure? && r != Failure(NoEmbeddings) ==>
              r == Failure(TooFewSamples(|Vectors(items)|, ClusterCount(|Vectors(items)|, requested, score)))
  {
    var vs := Vectors(items);
    if |vs| == 0 then Failure(NoEmbeddings)
    else
      var k := ClusterCount(|vs|, requested, score);
      if |vs| < k then Failure(TooFewSamples(|vs|, k))
      else Success((k, kmeans(vs, k)))
  }

  /** `save_clustered_data`: label `i` goes onto record `i`; a label list longer than the records
      raises an `IndexError` (`None`). */
  function SaveClusteredData(items: seq<Item>, labels: seq<int>): (r: Option<seq<Item>>)
    ensures r.None? <==> |labels| > |items|
    ensures r.Some? ==> |r.value| == |items|
    ensures r.Some? ==> forall i :: 0 <= i < |labels| ==> r.value[i] == items[i].(cluster := Some(labels[i]))
    ensures r.Some? ==> forall i :: |labels| <= i < |items| ==> r.value[i] == items[i]
  {
    if |labels| > |items| then None
    else if |labels| == 0 then Some(items)
    else
      var rest := SaveClusteredData(items[1..], labels[1..]);
      Some([items[0].(cluster := Some(labels[0]))] + rest.value)
  }

  /** The clusters given to the records that have a non-empty embedding, in order: the records
      KMeans actually saw. */
  function VectorLabels(items: seq<Item>): (ls: seq<Option<int>>)
    ensures |ls| == |Vectors(items)|
  {
    if |items| == 0 then []
    else if |items[0].embedding| > 0 then [items[0].cluster] + VectorLabels(items[1..])
    else VectorLabels(items[1..])
  }

  /** Labels written onto the records KMeans saw: label `k` goes to the `k`-th record with a
      non-empty embedding; records without one are left as they are. */
  function AlignLabels(items: seq<Item>, labels: seq<int>): (r: seq<Item>)
    ensures |r| == |items|
    ensures forall i :: 0 <= i < |items| ==> r[i] == items[i].(cluster := r[i].cluster)
    ensures forall i :: 0 <= i < |items| && |items[i].embedding| == 0 ==> r[i] == items[i]
  {
    if |items| == 0 then []
    else if |items[0].embedding| > 0 && |labels| > 0 then
      [items[0].(cluster := Some(labels[0]))] + AlignLabels(items[1..], labels[1..])
    else [items[0]] + AlignLabels(items[1..], labels)
  }

  /** Every record KMeans saw receives its own label. */
  lemma {:induction false} AlignLabelsFollowVectors(items: seq<Item>, labels: seq<int>)
    requires |labels| == |Vectors(items)|
    ensures VectorLabels(AlignLabels(items, labels)) == Map(labels, (l: int) => Some(l))
  {
    if |items| > 0 {
      var r := AlignLabels(items, labels);
      if |items[0].embedding| > 0 {
        AlignLabelsFollowVectors(items[1..], labels[1..]);
        assert r[1..] == AlignLabels(items[1..], labels[1..]);
        assert Map(labels, (l: int) => Some(l)) == [Some(labels[0])] + Map(labels[1..], (l: int) => Some(l));
      } else {
        AlignLabelsFollowVectors(items[1..], labels);
        assert r[1..] == AlignLabels(items[1..], labels);
      }
    } else {
      assert Map(labels, (l: int) => Some(l)) == [];
    }
  }

  /** When every record has a non-empty embedding, as the embedding stage guarantees, writing by
      position is the same as writing to the records KMeans saw. */
  lemma {:induction false} SaveMatchesAlignedWhenDense(items: seq<Item>, labels: seq<int>)
    requires forall i :: 0 <= i < |items| ==> |items[i].embedding| > 0
    requires |labels| == |items|
    ensures SaveClusteredData(items, labels) == Some(AlignLabels(items, labels))
  {
    if |items| > 0 {
      assert forall i :: 0 <= i < |items[1..]| ==> |items[1..][i].embedding| > 0;
      SaveMatchesAlignedWhenDense(items[1..], labels[1..]);
    }
  }

  /** A record without an embedding ahead of one with an embedding: writing by position puts
      KMeans's only label on the record it never saw. */
  lemma SaveMisalignsAfterEmptyEmbedding()
    ensures var items := [Item(0, "a", [], None), Item(1, "b", [1.0], None)];
            && |Vectors(items)| == 1
            && SaveClusteredData(items, [7]) == Some([Item(0, "a", [], Some(7)), Item(1, "b", [1.0], None)])
            && VectorLabels(SaveClusteredData(items, [7]).value) == [None]
            && VectorLabels(AlignLabels(items, [7])) == [Some(7)]
  {
    var items := [Item(0, "a", [], None), Item(1, "b", [1.0], None)];
    assert items[1..] == [Item(1, "b", [1.0], None)];
    assert Vectors(items) == Vectors(items[1..]);
    var saved := SaveClusteredData(items, [7]);
    assert saved.value == [Item(0, "a", [], Some(7)), Item(1, "b", [1.0], None)];
    assert VectorLabels(saved.value) == VectorLabels(saved.value[1..]);
    var aligned := AlignLabels(items, [7]);
    assert aligned == [items[0]] + AlignLabels(items[1..], [7]);
    assert AlignLabels(items[1..], [7]) == [Item(1, "b", [1.0], Some(7))];
    assert aligned == [Item(0, "a", [], None), Item(1, "b", [1.0], Some(7))];
    assert VectorLabels(aligned) == VectorLabels(aligned[1..]);
  }
}
