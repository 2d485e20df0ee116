/**
 * The mention table of app.py's analysis page: `topics_dict` built from the artifact's
 * clusters, the records flattened back into one list, a `Counter` of their labels, and one
 * row `{TopicName, Mentions, ClusterID}` per topic.
 */
module Mentions {
  import opened Wrappers
  import opened Seqs
  import opened Grouping
  import opened Records
  import opened Counting
  import opened Artifact

  /** `{cluster["id"]: cluster["name"] for cluster in clusters}`. */
  function TopicsDict(clusters: seq<Cluster>): (topics: seq<(int, string)>)
    ensures Distinct(KeysOf(topics))
    ensures KeysOf(topics) == FirstSeen(Map(clusters, (c: Cluster) => c.id))
  {
    var ps := Map(clusters, (c: Cluster) => (c.id, c.name));
    assert KeysOf(ps) == Map(clusters, (c: Cluster) => c.id);
    FromPairs(ps)
  }

  /** Every topic is the id and name of one of the clusters. */
  lemma TopicsFromClusters(clusters: seq<Cluster>, i: nat)
    requires i < |TopicsDict(clusters)|
    ensures exists k :: 0 <= k < |clusters| && TopicsDict(clusters)[i] == (clusters[k].id, clusters[k].name)
  {
    var ps := Map(clusters, (c: Cluster) => (c.id, c.name));
    FromPairsEntries(ps);
    var k :| 0 <= k < |ps| && ps[k] == TopicsDict(clusters)[i];
  }

  /** `[item.get("cluster") for item in clustered_data if "cluster" in item]`. */
  function ClusterIds(data: seq<Item>): seq<int>
  {
    if |data| == 0 then []
    else (if data[0].cluster.Some? then [data[0].cluster.value] else []) + ClusterIds(data[1..])
  }

  /** A label occurs among the collected ids as often as records carry it. */
  lemma {:induction false} ClusterIdsCount(data: seq<Item>, cid: int)
    ensures multiset(ClusterIds(data))[cid] == |InCluster(data, cid)|
    decreases |data|
  {
    if |data| > 0 {
      ClusterIdsCount(data[1..], cid);
    }
  }

  /** One row of `df_topics`. */
  datatype Row = Row(topicName: string, mentions: nat, clusterId: int)

  /** `data_rows`, in `topics_dict` order, before `sort_values`. */
  function MentionRows(clusters: seq<Cluster>): (rows: seq<Row>)
    ensures |rows| == |TopicsDict(clusters)|
    ensures forall i :: 0 <= i < |rows| ==>
              rows[i].clusterId == TopicsDict(clusters)[i].0 && rows[i].topicName == TopicsDict(clusters)[i].1
  {
    var counts := Tally(ClusterIds(Flatten(clusters)));
    Map(TopicsDict(clusters), (e: (int, string)) => Row(e.1, Lookup(counts, e.0).GetOr(0), e.0))
  }

  /** `counts.get(cid, 0)` is the number of times `cid` was counted. */
  lemma CountedOrZero<T>(ws: seq<T>, w: T)
    ensures Lookup(Tally(ws), w).GetOr(0) == multiset(ws)[w]
  {
    var t := Tally(ws);
    TallyCounts(ws);
    if w in KeysOf(t) {
      var i :| 0 <= i < |t| && KeysOf(t)[i] == w;
      LookupFinds(t, w, t[i].1);
    }
  }

  /** Each row counts the records of the flattened clusters that carry the row's id; a topic no
      record carries gets 0. */
  lemma MentionCounts(clusters: seq<Cluster>, i: nat)
    requires i < |MentionRows(clusters)|
    ensures MentionRows(clusters)[i].mentions == |InCluster(Flatten(clusters), MentionRows(clusters)[i].clusterId)|
  {
    var data := Flatten(clusters);
    var cid := MentionRows(clusters)[i].clusterId;
    CountedOrZero(ClusterIds(data), cid);
    ClusterIdsCount(data, cid);
  }

  /** The second `st.stop()` (an empty `df_topics`) cannot fire once there are clusters. */
  lemma RowsNonEmpty(clusters: seq<Cluster>)
    requires |clusters| > 0
    ensures |MentionRows(clusters)| > 0
  {
    var ids := Map(clusters, (c: Cluster) => c.id);
    FirstSeenMembers(ids);
    assert ids[0] in FirstSeen(ids);
  }

  /** Every record of the cluster carries the cluster's id. */
  predicate Homogeneous(c: Cluster)
  {
    forall j :: 0 <= j < |c.items| ==> c.items[j].cluster == Some(c.id)
  }

  lemma FlattenCons(cs: seq<Cluster>)
    requires |cs| > 0
    ensures Flatten(cs) == cs[0].items + Flatten(cs[1..])
  {
    var f := (c: Cluster) => c.items;
    assert Map(cs, f) == [cs[0].items] + Map(cs[1..], f);
    ConcatCons(cs[0].items, Map(cs[1..], f));
  }

  lemma {:induction false} InClusterOwn(s: seq<Item>, cid: int)
    requires forall j :: 0 <= j < |s| ==> s[j].cluster == Some(cid)
    ensures InCluster(s, cid) == s
    decreases |s|
  {
    if |s| > 0 {
      InClusterOwn(s[1..], cid);
    }
  }

  lemma {:induction false} InClusterOther(s: seq<Item>, cid: int, other: int)
    requires forall j :: 0 <= j < |s| ==> s[j].cluster == Some(other)
    requires other != cid
    ensures InCluster(s, cid) == []
    decreases |s|
  {
    if |s| > 0 {
      InClusterOther(s[1..], cid, other);
    }
  }

  /** In homogeneous clusters with distinct ids, the records carrying `cid` are those of the
      cluster with that id, or none. */
  lemma {:induction false} CountInClusters(cs: seq<Cluster>, cid: int)
    requires forall k :: 0 <= k < |cs| ==> Homogeneous(cs[k])
    requires forall i, j :: 0 <= i < j < |cs| ==> cs[i].id != cs[j].id
    ensures forall k :: 0 <= k < |cs| && cs[k].id == cid ==> InCluster(Flatten(cs), cid) == cs[k].items
    ensures (forall k :: 0 <= k < |cs| ==> cs[k].id != cid) ==> InCluster(Flatten(cs), cid) == []
    decreases |cs|
  {
    if |cs| > 0 {
      var rest := cs[1..];
      CountInClusters(rest, cid);
      FlattenCons(cs);
      InClusterAppend(cs[0].items, Flatten(rest), cid);
      if cs[0].id == cid {
        InClusterOwn(cs[0].items, cid);
        forall k | 0 <= k < |rest|
          ensures rest[k].id != cid
        {
          assert rest[k] == cs[k + 1];
        }
        forall k | 0 <= k < |cs| && cs[k].id == cid
          ensures k == 0
        {
        }
      } else {
        InClusterOther(cs[0].items, cid, cs[0].id);
        forall k | 0 < k < |cs| && cs[k].id == cid
          ensures InCluster(Flatten(cs), cid) == cs[k].items
        {
          assert rest[k - 1] == cs[k];
        }
        if forall k :: 0 <= k < |cs| ==> cs[k].id != cid {
          forall k | 0 <= k < |rest|
            ensures rest[k].id != cid
          {
            assert rest[k] == cs[k + 1];
          }
        }
      }
    }
  }

  /** On a generated artifact, the table lists the clusters in artifact order, each with its name
      and, as its mention count, the number of its records. */
  lemma ArtifactMentions(title: string, description: string, items: seq<Item>,
                         names: seq<(string, string)>, similarity: real, charsPerPixel: int)
    requires GenerateArtifact(title, description, items, names, similarity, charsPerPixel).Success?
    ensures var cs := GenerateArtifact(title, description, items, names, similarity, charsPerPixel).value.clusters;
            MentionRows(cs) == Map(cs, (c: Cluster) => Row(c.name, |c.items|, c.id))
  {
    var cs := GenerateArtifact(title, description, items, names, similarity, charsPerPixel).value.clusters;
    DistinctClusterIds(title, description, items, names, similarity, charsPerPixel);
    forall k | 0 <= k < |cs|
      ensures Homogeneous(cs[k])
    {
      assert cs[k].items == InCluster(items, cs[k].id);
    }
    var ps := Map(cs, (c: Cluster) => (c.id, c.name));
    assert Distinct(KeysOf(ps)) by {
      forall i, j | 0 <= i < j < |ps|
        ensures KeysOf(ps)[i] != KeysOf(ps)[j]
      {
        assert KeysOf(ps)[i] == cs[i].id && KeysOf(ps)[j] == cs[j].id;
      }
    }
    FromDistinctPairs(ps);
    var rows := MentionRows(cs);
    forall i | 0 <= i < |cs|
      ensures rows[i] == Row(cs[i].name, |cs[i].items|, cs[i].id)
    {
      MentionCounts(cs, i);
      CountInClusters(cs, cs[i].id);
    }
  }

  /** `df_topics.iloc[0]["Mentions"]` after the descending sort: the largest mention count,
      whatever order the sort leaves tied rows in. */
  function TopMentions(rows: seq<Row>): (top: nat)
    requires |rows| > 0
    ensures exists i :: 0 <= i < |rows| && rows[i].mentions == top
    ensures forall i :: 0 <= i < |rows| ==> rows[i].mentions <= top
  {
    rows[FirstArgMax(rows, (r: Row) => r.mentions as real)].mentions
  }

  /** The page's summary: `None` stands for the `st.stop()` on an artifact without clusters;
      otherwise the rows, `total_topics` and `top_topic_mentions`. */
  datatype Summary = Summary(rows: seq<Row>, totalTopics: nat, topMentions: nat)

  function MentionSummary(clusters: seq<Cluster>): (r: Option<Summary>)
    ensures r.None? <==> |clusters| == 0
    ensures r.Some? ==> r.value.rows == MentionRows(clusters)
                        && r.value.totalTopics == |FirstSeen(Map(clusters, (c: Cluster) => c.id))|
                        && r.value.topMentions == TopMentions(MentionRows(clusters))
  {
    if |clusters| == 0 then None
    else
      var rows := MentionRows(clusters);
      RowsNonEmpty(clusters);
      Some(Summary(rows, |rows|, TopMentions(rows)))
  }
}
