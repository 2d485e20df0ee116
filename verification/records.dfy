/** The per-chunk record handed from stage to stage as a JSON list, and the grouping loops
    that read records by their cluster label. */
module Records {
  import opened Wrappers
  import opened Seqs
  import opened Grouping

  /** `{"id", "text", "embedding", "cluster"}`; `cluster` is `None` until the
      clustering stage writes a label (the key is absent in the JSON). */
  datatype Item = Item(id: int, text: string, embedding: seq<real>, cluster: Option<int>)

  /** `if emb`: the record has a non-empty embedding. */
  function HasEmbedding(it: Item): bool
  {
    |it.embedding| > 0
  }

  function EmbeddingOf(it: Item): seq<real>
  {
    it.embedding
  }

  /** The records labelled `cid`, in input order. */
  function InCluster(items: seq<Item>, cid: int): seq<Item>
  {
    Filter(items, (it: Item) => it.cluster == Some(cid))
  }

  /** Selecting a label distributes over concatenation. */
  lemma {:induction false} InClusterAppend(a: seq<Item>, b: seq<Item>, cid: int)
    ensures InCluster(a + b, cid) == InCluster(a, cid) + InCluster(b, cid)
    decreases |a|
  {
    if |a| == 0 {
      assert a + b == b;
    } else {
      assert (a + b)[1..] == a[1..] + b;
      InClusterAppend(a[1..], b, cid);
    }
  }

  /** A single record is selected exactly when it carries the label. */
  lemma InClusterSingle(it: Item, cid: int)
    ensures InCluster([it], cid) == if it.cluster == Some(cid) then [it] else []
  {
    assert [it][1..] == [];
  }

  /** The record's label is one of `ids`. */
  predicate Tracked(it: Item, ids: seq<int>)
  {
    it.cluster.Some? && it.cluster.value in ids
  }

  /** The `(cid, val(item))` pairs a loop of the form
      `for item in data: if keep(item) and item.get("cluster") in ids: groups[cid].append(val(item))`
      appends, in input order. */
  function LabelPairs<V>(items: seq<Item>, ids: seq<int>, keep: Item -> bool, val: Item -> V)
    : (ps: seq<(int, V)>)
    ensures forall k :: 0 <= k < |ps| ==> ps[k].0 in ids
    decreases |items|
  {
    if |items| == 0 then []
    else
      var it := items[|items| - 1];
      LabelPairs(items[..|items| - 1], ids, keep, val)
        + (if keep(it) && Tracked(it, ids) then [(it.cluster.value, val(it))] else [])
  }

  /** The records labelled `cid` that pass `keep`, in input order. */
  function Carrying(items: seq<Item>, cid: int, keep: Item -> bool): seq<Item>
  {
    Filter(items, (it: Item) => it.cluster == Some(cid) && keep(it))
  }

  /** Some record labelled `cid` passes `keep`. */
  predicate Carries(items: seq<Item>, cid: int, keep: Item -> bool)
  {
    exists i :: 0 <= i < |items| && items[i].cluster == Some(cid) && keep(items[i])
  }

  lemma {:induction false} CarryingAppend(a: seq<Item>, b: seq<Item>, cid: int, keep: Item -> bool)
    ensures Carrying(a + b, cid, keep) == Carrying(a, cid, keep) + Carrying(b, cid, keep)
    decreases |a|
  {
    if |a| == 0 {
      assert a + b == b;
    } else {
      assert (a + b)[1..] == a[1..] + b;
      CarryingAppend(a[1..], b, cid, keep);
    }
  }

  lemma CarryingSnoc(front: seq<Item>, it: Item, cid: int, keep: Item -> bool)
    ensures Carrying(front + [it], cid, keep)
            == Carrying(front, cid, keep) + (if it.cluster == Some(cid) && keep(it) then [it] else [])
  {
    CarryingAppend(front, [it], cid, keep);
    assert [it][1..] == [];
  }

  lemma CarryingLast(items: seq<Item>, cid: int, keep: Item -> bool)
    requires |items| > 0
    ensures var it := items[|items| - 1];
            Carrying(items, cid, keep)
            == Carrying(items[..|items| - 1], cid, keep) + (if it.cluster == Some(cid) && keep(it) then [it] else [])
  {
    var n := |items| - 1;
    CarryingSnoc(items[..n], items[n], cid, keep);
    assert items[..n] + [items[n]] == items;
  }

  /** Some record is selected exactly when some record carries the label and passes `keep`. */
  lemma CarryingNonEmpty(items: seq<Item>, cid: int, keep: Item -> bool)
    ensures |Carrying(items, cid, keep)| > 0 <==> Carries(items, cid, keep)
  {
    var sel := Carrying(items, cid, keep);
    if |sel| > 0 {
      assert sel[0] in items;
    }
    if Carries(items, cid, keep) {
      var i :| 0 <= i < |items| && items[i].cluster == Some(cid) && keep(items[i]);
      assert items[i] in sel;
    }
  }

  /** For a tracked label, the group collects `val` of exactly the records carrying it, in order. */
  lemma {:induction false} SelectLabelPairs<V>(items: seq<Item>, ids: seq<int>, keep: Item -> bool,
                                               val: Item -> V, cid: int)
    requires cid in ids
    ensures Select(LabelPairs(items, ids, keep, val), cid) == Map(Carrying(items, cid, keep), val)
    decreases |items|
  {
    if |items| > 0 {
      SelectLabelPairs(items[..|items| - 1], ids, keep, val, cid);
      SelectLabelPairsStep(items, ids, keep, val, cid);
    }
  }

  lemma SelectLabelPairsStep<V>(items: seq<Item>, ids: seq<int>, keep: Item -> bool, val: Item -> V, cid: int)
    requires cid in ids && |items| > 0
    requires Select(LabelPairs(items[..|items| - 1], ids, keep, val), cid)
             == Map(Carrying(items[..|items| - 1], cid, keep), val)
    ensures Select(LabelPairs(items, ids, keep, val), cid) == Map(Carrying(items, cid, keep), val)
  {
    var front := items[..|items| - 1];
    var it := items[|items| - 1];
    var ps := LabelPairs(front, ids, keep, val);
    var last := if it.cluster == Some(cid) && keep(it) then [it] else [];
    CarryingLast(items, cid, keep);
    MapAppend(Carrying(front, cid, keep), last, val);
    if keep(it) && Tracked(it, ids) {
      SelectSnoc(ps, (it.cluster.value, val(it)), cid);
    } else {
      assert LabelPairs(items, ids, keep, val) == ps + [];
      assert ps + [] == ps;
    }
  }

  /** A label occurs among the pairs exactly when it is tracked and some record carrying it
      passes `keep`. */
  lemma LabelPairsKeys<V>(items: seq<Item>, ids: seq<int>, keep: Item -> bool, val: Item -> V, cid: int)
    ensures cid in KeysOf(LabelPairs(items, ids, keep, val)) <==> cid in ids && Carries(items, cid, keep)
  {
    var ps := LabelPairs(items, ids, keep, val);
    if cid in ids {
      SelectLabelPairs(items, ids, keep, val, cid);
      SelectNonEmpty(ps, cid);
      CarryingNonEmpty(items, cid, keep);
    } else {
      forall k | 0 <= k < |ps|
        ensures KeysOf(ps)[k] != cid
      {
        assert ps[k].0 in ids;
      }
    }
  }
}
