/**
 * app.py `compute_topic_positions`: which topics get a point on the topic map, and the
 * cosine-distance matrix handed to multidimensional scaling. `np.mean`, `np.linalg.norm`
 * and `MDS.fit_transform` are parameters.
 */
module Layout {
  import opened Wrappers
  import opened Seqs
  import opened Grouping
  import opened Records

  /** The embeddings of the records labelled `cid` that have one, in input order. */
  function Vectors(items: seq<Item>, cid: int): seq<seq<real>>
  {
    Map(Carrying(items, cid, HasEmbedding), EmbeddingOf)
  }

  /** `cluster_embeddings`: the first loop, over records with an embedding and a topic label. */
  function ClusterEmbeddings(items: seq<Item>, topics: seq<(int, string)>): seq<(int, seq<seq<real>>)>
  {
    GroupBy(LabelPairs(items, KeysOf(topics), HasEmbedding, EmbeddingOf))
  }

  /** `avg_embs`: the mean embedding of each group (every group is non-empty). */
  function AverageEmbeddings(items: seq<Item>, topics: seq<(int, string)>,
                             mean: seq<seq<real>> -> seq<real>): (avg: seq<(int, seq<real>)>)
    ensures KeysOf(avg) == KeysOf(ClusterEmbeddings(items, topics))
  {
    var g := ClusterEmbeddings(items, topics);
    Map(g, (e: (int, seq<seq<real>>)) => (e.0, mean(e.1)))
  }

  /** A topic has an average exactly when one of its records has an embedding, and the average
      is the mean of those embeddings. */
  lemma AverageLookup(items: seq<Item>, topics: seq<(int, string)>, mean: seq<seq<real>> -> seq<real>,
                      cid: int)
    requires cid in KeysOf(topics)
    ensures Lookup(AverageEmbeddings(items, topics, mean), cid)
            == if Carries(items, cid, HasEmbedding) then Some(mean(Vectors(items, cid))) else None
  {
    var ps := LabelPairs(items, KeysOf(topics), HasEmbedding, EmbeddingOf);
    var g := ClusterEmbeddings(items, topics);
    var avg := AverageEmbeddings(items, topics, mean);
    FirstSeenMembers(KeysOf(ps));
    LabelPairsKeys(items, KeysOf(topics), HasEmbedding, EmbeddingOf, cid);
    if Carries(items, cid, HasEmbedding) {
      var i :| 0 <= i < |g| && KeysOf(g)[i] == cid;
      SelectLabelPairs(items, KeysOf(topics), HasEmbedding, EmbeddingOf, cid);
      assert avg[i] == (cid, mean(Vectors(items, cid)));
      LookupFinds(avg, cid, mean(Vectors(items, cid)));
    }
  }

  /** The second loop: `for cid in topics_dict.keys(): if cid in avg_embs`, collecting the
      topic's name and its average embedding. */
  function LayoutInput(ts: seq<(int, string)>, avg: seq<(int, seq<real>)>): seq<(string, seq<real>)>
  {
    if |ts| == 0 then []
    else
      (match Lookup(avg, ts[0].0)
       case Some(v) => [(ts[0].1, v)]
       case None => [])
      + LayoutInput(ts[1..], avg)
  }

  /** Reference: the topics, in order, that have a record with an embedding, each with the mean
      of its records' embeddings. */
  function EmbeddedTopics(items: seq<Item>, ts: seq<(int, string)>, mean: seq<seq<real>> -> seq<real>)
    : seq<(string, seq<real>)>
  {
    if |ts| == 0 then []
    else
      (if Carries(items, ts[0].0, HasEmbedding) then [(ts[0].1, mean(Vectors(items, ts[0].0)))] else [])
      + EmbeddedTopics(items, ts[1..], mean)
  }

  /** The loops select exactly the reference topics, in `topics_dict` order. */
  lemma {:induction false} LayoutInputIsEmbeddedTopics(items: seq<Item>, topics: seq<(int, string)>,
                                                       mean: seq<seq<real>> -> seq<real>,
                                                       ts: seq<(int, string)>)
    requires forall k :: 0 <= k < |ts| ==> ts[k].0 in KeysOf(topics)
    ensures LayoutInput(ts, AverageEmbeddings(items, topics, mean)) == EmbeddedTopics(items, ts, mean)
    decreases |ts|
  {
    if |ts| > 0 {
      AverageLookup(items, topics, mean, ts[0].0);
      LayoutInputIsEmbeddedTopics(items, topics, mean, ts[1..]);
    }
  }

  /** The reference list is empty exactly when no topic has a record with an embedding. */
  lemma {:induction false} EmbeddedTopicsEmpty(items: seq<Item>, ts: seq<(int, string)>,
                                               mean: seq<seq<real>> -> seq<real>)
    ensures |EmbeddedTopics(items, ts, mean)| == 0
            <==> forall k :: 0 <= k < |ts| ==> !Carries(items, ts[k].0, HasEmbedding)
    decreases |ts|
  {
    if |ts| > 0 {
      EmbeddedTopicsEmpty(items, ts[1..], mean);
      if forall k :: 0 <= k < |ts[1..]| ==> !Carries(items, ts[1..][k].0, HasEmbedding) {
        forall k | 0 < k < |ts|
          ensures !Carries(items, ts[k].0, HasEmbedding)
        {
          assert ts[k] == ts[1..][k - 1];
        }
      }
    }
  }

  /** `np.dot` over the common length of the two vectors. */
  function Dot(a: seq<real>, b: seq<real>): real
  {
    if |a| == 0 || |b| == 0 then 0.0 else a[0] * b[0] + Dot(a[1..], b[1..])
  }

  lemma {:induction false} DotSymmetric(a: seq<real>, b: seq<real>)
    ensures Dot(a, b) == Dot(b, a)
  {
    if |a| > 0 && |b| > 0 {
      DotSymmetric(a[1..], b[1..]);
    }
  }

  /** `dot / (normA * normB) if normA and normB else 0.0`. */
  function Similarity(a: seq<real>, b: seq<real>, norm: seq<real> -> real): real
  {
    var na := norm(a);
    var nb := norm(b);
    if na != 0.0 && nb != 0.0 then Dot(a, b) / (na * nb) else 0.0
  }

  /** `1 - sim`. */
  function Distance(a: seq<real>, b: seq<real>, norm: seq<real> -> real): real
  {
    1.0 - Similarity(a, b, norm)
  }

  /** The distance does not depend on the order of the two vectors, and a zero-norm vector is at
      distance 1 from everything. */
  lemma DistanceSymmetric(a: seq<real>, b: seq<real>, norm: seq<real> -> real)
    ensures Distance(a, b, norm) == Distance(b, a, norm)
    ensures norm(a) == 0.0 ==> Distance(a, b, norm) == 1.0
  {
    DotSymmetric(a, b);
    assert norm(a) * norm(b) == norm(b) * norm(a);
  }

  /** A square matrix of side `n`. */
  predicate Square(m: seq<seq<real>>, n: nat)
  {
    |m| == n && forall i :: 0 <= i < n ==> |m[i]| == n
  }

  /** The distance the loops store at `[a][b]`: computed once, for the pair in increasing order. */
  function PairDistance(vs: seq<seq<real>>, a: nat, b: nat, norm: seq<real> -> real): real
    requires a < |vs| && b < |vs|
  {
    if a == b then 0.0 else Distance(vs[Min(a, b)], vs[Max(a, b)], norm)
  }

  /** The pair `{a, b}` has been visited once the loops reach `(i, j)`. */
  predicate Visited(a: nat, b: nat, i: nat, j: nat)
  {
    a != b && (Min(a, b) < i || (Min(a, b) == i && Max(a, b) < j))
  }

  /** `dist_matrix` after the loops: zeros on the diagonal, the pair's distance elsewhere. */
  method DistanceMatrix(vs: seq<seq<real>>, norm: seq<real> -> real) returns (m: seq<seq<real>>)
    ensures Square(m, |vs|)
    ensures forall i :: 0 <= i < |vs| ==> m[i][i] == 0.0
    ensures forall i, j :: 0 <= i < |vs| && 0 <= j < |vs| && i != j ==> m[i][j] == Distance(vs[i], vs[j], norm)
    ensures forall i, j :: 0 <= i < |vs| && 0 <= j < |vs| ==> m[i][j] == m[j][i]
  {
    var n := |vs|;
    m := seq(n, _ => seq(n, _ => 0.0));
    var i := 0;
    while i < n
      invariant 0 <= i <= n
      invariant Square(m, n)
      invariant forall a, b :: 0 <= a < n && 0 <= b < n ==>
                  m[a][b] == if Visited(a, b, i, 0) then PairDistance(vs, a, b, norm) else 0.0
    {
      var j := i + 1;
      while j < n
        invariant i + 1 <= j <= n
        invariant Square(m, n)
        invariant forall a, b :: 0 <= a < n && 0 <= b < n ==>
                    m[a][b] == if Visited(a, b, i, j) then PairDistance(vs, a, b, norm) else 0.0
      {
        var d := Distance(vs[i], vs[j], norm);
        m := m[i := m[i][j := d]];
        m := m[j := m[j][i := d]];
        j := j + 1;
      }
      i := i + 1;
    }
    forall a, b | 0 <= a < n && 0 <= b < n && a != b
      ensures m[a][b] == Distance(vs[a], vs[b], norm)
    {
      DistanceSymmetric(vs[a], vs[b], norm);
    }
  }

  /** What `compute_topic_positions` returns when some topic has an embedding: the names, the
      matrix handed to MDS, and MDS's coordinates for it. */
  datatype TopicMap = TopicMap(names: seq<string>, distances: seq<seq<real>>, positions: seq<(real, real)>)

  /** `compute_topic_positions`; `None` stands for `(None, None)`. */
  method ComputeTopicPositions(items: seq<Item>, topics: seq<(int, string)>,
                               mean: seq<seq<real>> -> seq<real>, norm: seq<real> -> real,
                               mds: seq<seq<real>> -> seq<(real, real)>)
    returns (r: Option<TopicMap>)
    ensures r.None? <==> forall k :: 0 <= k < |topics| ==> !Carries(items, topics[k].0, HasEmbedding)
    ensures r.Some? ==>
              var sel := EmbeddedTopics(items, topics, mean);
              && r.value.names == Map(sel, (e: (string, seq<real>)) => e.0)
              && Square(r.value.distances, |sel|)
              && (forall i, j :: 0 <= i < |sel| && 0 <= j < |sel| && i != j ==>
                    r.value.distances[i][j] == Distance(sel[i].1, sel[j].1, norm))
              && (forall i :: 0 <= i < |sel| ==> r.value.distances[i][i] == 0.0)
              && r.value.positions == mds(r.value.distances)
  {
    var avg := AverageEmbeddings(items, topics, mean);
    var input := LayoutInput(topics, avg);
    LayoutInputIsEmbeddedTopics(items, topics, mean, topics);
    EmbeddedTopicsEmpty(items, topics, mean);
    if |input| == 0 {
      return None;
    }
    var names := Map(input, (e: (string, seq<real>)) => e.0);
    var vs := Map(input, (e: (string, seq<real>)) => e.1);
    var m := DistanceMatrix(vs, norm);
    return Some(TopicMap(names, m, mds(m)));
  }
}
