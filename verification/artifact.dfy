/**
 * backend/generate_json.py: the `docexplore.json` artifact, with the records grouped by
 * cluster id in order of first appearance, a name per cluster, and the run's metadata.
 */
module Artifact {
  import opened Wrappers
  import opened Seqs
  import opened Decimal
  import opened Grouping
  import opened Records

  /** One entry of `"clusters"`: `{"id", "name", "items"}`. */
  datatype Cluster = Cluster(id: int, name: string, items: seq<Item>)

  /** The whole artifact; `similarity` and `charsPerPixel` are passed through. */
  datatype Doc = Doc(title: string, description: string, similarity: real, charsPerPixel: int,
                     clusters: seq<Cluster>)

  /** `item["cluster"]` on a record that never received a label raises a `KeyError`. */
  datatype ArtifactError = MissingCluster(itemIndex: nat)

  predicate AllLabelled(items: seq<Item>)
  {
    forall i :: 0 <= i < |items| ==> items[i].cluster.Some?
  }

  /** `cluster_names.get(str(cid), f"Cluster {cid}")`. */
  function ClusterName(names: seq<(string, string)>, cid: int): (name: string)
    ensures IntText(cid) !in KeysOf(names) ==> name == "Cluster " + IntText(cid)
    ensures IntText(cid) in KeysOf(names) ==> (IntText(cid), name) in names
  {
    match Lookup(names, IntText(cid))
    case None => "Cluster " + IntText(cid)
    case Some(n) => n
  }

  /** The first record without a label, if any. */
  function FirstUnlabelled(items: seq<Item>): (r: Option<nat>)
    ensures r.None? <==> AllLabelled(items)
    ensures r.Some? ==> r.value < |items| && items[r.value].cluster.None?
                        && AllLabelled(items[..r.value])
  {
    if |items| == 0 then None
    else if items[0].cluster.None? then Some(0)
    else
      match FirstUnlabelled(items[1..])
      case None => None
      case Some(j) =>
        assert items[..j + 1] == [items[0]] + items[1..][..j];
        Some(j + 1)
  }

  /** The `(cid, item)` pairs the grouping loop reads. */
  function Labelled(items: seq<Item>): (ps: seq<(int, Item)>)
    requires AllLabelled(items)
    ensures |ps| == |items|
    ensures forall i :: 0 <= i < |items| ==> ps[i] == (items[i].cluster.value, items[i])
  {
    seq(|items|, i requires 0 <= i < |items| => (items[i].cluster.value, items[i]))
  }

  /** Grouping by label selects, for each label, exactly the records that carry it. */
  lemma {:induction false} SelectIsInCluster(items: seq<Item>, cid: int)
    requires AllLabelled(items)
    ensures Select(Labelled(items), cid) == InCluster(items, cid)
    decreases |items|
  {
    if |items| > 0 {
      var n := |items| - 1;
      var front := items[..n];
      SelectIsInCluster(front, cid);
      SelectStep(items, cid);
    }
  }

  /** The last record is selected under `cid` exactly when the filter keeps it. */
  lemma SelectStep(items: seq<Item>, cid: int)
    requires AllLabelled(items) && |items| > 0
    requires Select(Labelled(items[..|items| - 1]), cid) == InCluster(items[..|items| - 1], cid)
    ensures Select(Labelled(items), cid) == InCluster(items, cid)
  {
    var n := |items| - 1;
    var front := items[..n];
    var x := items[n];
    var kv := (x.cluster.value, x);
    assert Labelled(items) == Labelled(front) + [kv];
    SelectSnoc(Labelled(front), kv, cid);
    assert items == front + [x];
    InClusterAppend(front, [x], cid);
    InClusterSingle(x, cid);
  }

  /** `generate_docexplore_json`. An empty record list only prints a warning in the source; the
      artifact is still written, with no clusters. */
  function GenerateArtifact(title: string, description: string, items: seq<Item>,
                            names: seq<(string, string)>, similarity: real, charsPerPixel: int)
    : (r: Result<Doc, ArtifactError>)
    ensures r.Failure? <==> !AllLabelled(items)
    ensures r.Failure? ==> r.error == MissingCluster(FirstUnlabelled(items).value)
    ensures r.Success? ==>
              && r.value.title == title && r.value.description == description
              && r.value.similarity == similarity && r.value.charsPerPixel == charsPerPixel
    // one cluster per distinct label, in order of first appearance
    ensures r.Success? ==>
              Map(r.value.clusters, (c: Cluster) => c.id) == FirstSeen(KeysOf(Labelled(items)))
    // each cluster holds exactly the records carrying its label, in input order, and its name
    ensures r.Success? ==> forall i :: 0 <= i < |r.value.clusters| ==>
              && r.value.clusters[i].items == InCluster(items, r.value.clusters[i].id)
              && r.value.clusters[i].name == ClusterName(names, r.value.clusters[i].id)
    ensures |items| == 0 ==> r == Success(Doc(title, description, similarity, charsPerPixel, []))
  {
    match FirstUnlabelled(items)
    case Some(j) => Failure(MissingCluster(j))
    case None =>
      var groups := GroupBy(Labelled(items));
      var clusters := seq(|groups|, i requires 0 <= i < |groups|
                                      => Cluster(groups[i].0, ClusterName(names, groups[i].0), groups[i].1));
      assert forall i :: 0 <= i < |groups| ==> groups[i].1 == InCluster(items, groups[i].0) by {
        forall i | 0 <= i < |groups|
          ensures groups[i].1 == InCluster(items, groups[i].0)
        {
          SelectIsInCluster(items, groups[i].0);
        }
      }
      assert Map(clusters, (c: Cluster) => c.id) == KeysOf(groups);
      Success(Doc(title, description, similarity, charsPerPixel, clusters))
  }

  /** All records of the artifact, cluster after cluster. */
  function Flatten(clusters: seq<Cluster>): seq<Item>
  {
    Concat(Map(clusters, (c: Cluster) => c.items))
  }

  /** Cluster ids are pairwise distinct. */
  lemma DistinctClusterIds(title: string, description: string, items: seq<Item>,
                           names: seq<(string, string)>, similarity: real, charsPerPixel: int)
    requires GenerateArtifact(title, description, items, names, similarity, charsPerPixel).Success?
    ensures var cs := GenerateArtifact(title, description, items, names, similarity, charsPerPixel).value.clusters;
            forall i, j :: 0 <= i < j < |cs| ==> cs[i].id != cs[j].id
  {
    var cs := GenerateArtifact(title, description, items, names, similarity, charsPerPixel).value.clusters;
    var ids := Map(cs, (c: Cluster) => c.id);
    assert Distinct(ids);
    forall i, j | 0 <= i < j < |cs|
      ensures cs[i].id != cs[j].id
    {
      assert ids[i] == cs[i].id && ids[j] == cs[j].id;
    }
  }

  /** Flattening the clusters gives back the records, each exactly once. */
  lemma FlattenPermutes(title: string, description: string, items: seq<Item>,
                        names: seq<(string, string)>, similarity: real, charsPerPixel: int)
    requires GenerateArtifact(title, description, items, names, similarity, charsPerPixel).Success?
    ensures multiset(Flatten(GenerateArtifact(title, description, items, names, similarity, charsPerPixel).value.clusters))
         == multiset(items)
  {
    var cs := GenerateArtifact(title, description, items, names, similarity, charsPerPixel).value.clusters;
    var groups := GroupBy(Labelled(items));
    GroupByPermutes(Labelled(items));
    assert |cs| == |groups| by {
      assert |Map(cs, (c: Cluster) => c.id)| == |KeysOf(groups)|;
    }
    assert Map(cs, (c: Cluster) => c.items) == ValuesOf(groups) by {
      forall i | 0 <= i < |cs|
        ensures cs[i].items == groups[i].1
      {
        assert cs[i].id == groups[i].0 by {
          assert Map(cs, (c: Cluster) => c.id)[i] == KeysOf(groups)[i];
        }
      }
    }
    assert ValuesOf(Labelled(items)) == items;
  }

  /** Every record sits in the cluster whose id is its label, and nowhere else. */
  lemma ItemInOwnCluster(title: string, description: string, items: seq<Item>,
                         names: seq<(string, string)>, similarity: real, charsPerPixel: int,
                         doc: Doc, k: nat)
    requires GenerateArtifact(title, description, items, names, similarity, charsPerPixel) == Success(doc)
    requires k < |items|
    ensures exists i :: 0 <= i < |doc.clusters| && doc.clusters[i].id == items[k].cluster.value
                        && items[k] in doc.clusters[i].items
    ensures forall i :: 0 <= i < |doc.clusters| && items[k] in doc.clusters[i].items
                        ==> doc.clusters[i].id == items[k].cluster.value
  {
    var cs := doc.clusters;
    var ids := Map(cs, (c: Cluster) => c.id);
    var cid := items[k].cluster.value;
    FirstSeenMembers(KeysOf(Labelled(items)));
    assert KeysOf(Labelled(items))[k] == cid;
    assert cid in ids;
    var i :| 0 <= i < |ids| && ids[i] == cid;
    assert cs[i].id == cid;
    assert items[k] in cs[i].items;
  }
}
