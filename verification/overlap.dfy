/**
 * app.py `compute_topic_overlap`: the Jaccard overlap of the keyword sets of every unordered
 * pair of topics, reported when it exceeds 0.1. The ratio is kept as the exact pair
 * (shared, total) of set sizes; `round(overlap, 2)` is not modelled.
 */
module Overlap {
  import opened Wrappers
  import opened Seqs
  import opened Grouping
  import opened Records
  import opened Keywords

  /** The set of keywords of a group of texts. */
  function WordSet(texts: seq<string>): set<string>
  {
    set w | w in CountedWords(texts)
  }

  /** `topic_words`: each mentioned topic's keyword set. */
  function TopicWords(items: seq<Item>, topics: seq<(int, string)>): (tw: seq<(int, set<string>)>)
    ensures KeysOf(tw) == KeysOf(TopicTexts(items, topics))
  {
    var g := TopicTexts(items, topics);
    Map(g, (e: (int, seq<string>)) => (e.0, WordSet(e.1)))
  }

  /** `topic_words.get(cid, set())`. */
  function WordsOf(items: seq<Item>, topics: seq<(int, string)>, cid: int): set<string>
  {
    Lookup(TopicWords(items, topics), cid).GetOr({})
  }

  /** A topic's word set is the keyword set of the texts carrying its id; a topic no record
      mentions has none. */
  lemma WordsOfTopic(items: seq<Item>, topics: seq<(int, string)>, cid: int)
    requires cid in KeysOf(topics)
    ensures WordsOf(items, topics, cid) == WordSet(ClusterTexts(items, cid))
    ensures !Mentioned(items, cid) ==> WordsOf(items, topics, cid) == {}
  {
    var tw := TopicWords(items, topics);
    var g := TopicTexts(items, topics);
    TopicTextsKeys(items, topics, cid);
    CarryingNonEmpty(items, cid, AnyItem);
    if cid in KeysOf(tw) {
      var i :| 0 <= i < |g| && KeysOf(g)[i] == cid;
      assert tw[i] == (cid, WordSet(g[i].1));
      LookupFinds(tw, cid, WordSet(g[i].1));
    } else {
      assert ClusterTexts(items, cid) == [];
      assert CountedWords([]) == [];
    }
  }

  /** One report: the two topic names and the sizes of the shared and of the combined keyword
      sets; the overlap is `common / total`. */
  datatype Report = Report(first: string, second: string, common: nat, total: nat)

  /** `common / total if total > 0 else 0`, exactly. */
  function Ratio(common: nat, total: nat): real
  {
    if total > 0 then common as real / total as real else 0.0
  }

  /** `overlap > 0.1`, in whole numbers. */
  predicate Meaningful(common: nat, total: nat)
  {
    total > 0 && 10 * common > total
  }

  lemma MulPos(x: real, y: real)
    requires x > 0.0 && y > 0.0
    ensures x * y > 0.0
  {
  }

  lemma PosFactor(x: real, y: real)
    requires y > 0.0 && x * y > 0.0
    ensures x > 0.0
  {
  }

  /** Comparing a quotient with `q` is comparing the dividend with `q` times the divisor. */
  lemma DivCompare(c: real, t: real, q: real)
    requires t > 0.0
    ensures c / t > q <==> c > q * t
    ensures c / t < q <==> c < q * t
  {
    var r := c / t;
    assert r * t == c;
    assert (r - q) * t == c - q * t;
    assert (q - r) * t == q * t - c;
    if r > q {
      MulPos(r - q, t);
    }
    if c > q * t {
      PosFactor(r - q, t);
    }
    if r < q {
      MulPos(q - r, t);
    }
    if c < q * t {
      PosFactor(q - r, t);
    }
  }

  /** The integer test is the source's real one, and the ratio lies in [0, 1] when the shared
      part is no bigger than the whole. */
  lemma ThresholdExact(common: nat, total: nat)
    ensures Ratio(common, total) > 0.1 <==> Meaningful(common, total)
    ensures common <= total ==> 0.0 <= Ratio(common, total) <= 1.0
  {
    if total > 0 {
      var c := common as real;
      var t := total as real;
      DivCompare(c, t, 0.1);
      DivCompare(c, t, 1.0);
      DivCompare(c, t, 0.0);
      assert (10 * common) as real == 10.0 * c;
    }
  }

  /** One comparison of the inner loop. */
  function Compare(items: seq<Item>, topics: seq<(int, string)>, a: (int, string), b: (int, string))
    : (o: Report)
    ensures o.first == a.1 && o.second == b.1
    ensures o.common <= o.total
    ensures o.total == 0 <==> WordsOf(items, topics, a.0) == {} && WordsOf(items, topics, b.0) == {}
  {
    var wa := WordsOf(items, topics, a.0);
    var wb := WordsOf(items, topics, b.0);
    UnionBounds(wa, wb);
    Report(a.1, b.1, |wa * wb|, |wa + wb|)
  }

  /** The intersection is no bigger than the union, which is empty only for two empty sets. */
  lemma UnionBounds<T>(a: set<T>, b: set<T>)
    ensures |a * b| <= |a + b|
    ensures |a + b| == 0 <==> a == {} && b == {}
  {
    SubsetCard(a * b, a + b);
    SubsetCard(a, a + b);
    SubsetCard(b, a + b);
  }

  lemma SubsetCard<T>(a: set<T>, b: set<T>)
    requires a <= b
    ensures |a| <= |b|
  {
    if b != {} {
      var x :| x in b;
      SubsetCard(a - {x}, b - {x});
    }
  }

  /** Swapping the two topics changes only the order of the names. */
  lemma CompareSymmetric(items: seq<Item>, topics: seq<(int, string)>, a: (int, string), b: (int, string))
    ensures Compare(items, topics, a, b).common == Compare(items, topics, b, a).common
    ensures Compare(items, topics, a, b).total == Compare(items, topics, b, a).total
  {
    var wa := WordsOf(items, topics, a.0);
    var wb := WordsOf(items, topics, b.0);
    assert wa * wb == wb * wa;
    assert wa + wb == wb + wa;
  }

  /** Topics without a shared keyword are never reported. */
  lemma DisjointNotMeaningful(items: seq<Item>, topics: seq<(int, string)>, a: (int, string), b: (int, string))
    requires WordsOf(items, topics, a.0) * WordsOf(items, topics, b.0) == {}
    ensures !Meaningful(Compare(items, topics, a, b).common, Compare(items, topics, a, b).total)
  {
  }

  /** `for i in range(n): for j in range(i + 1, n)`: every pair `(ts[i], ts[j])` with `i < j`,
      in loop order. */
  function PairsOf<T>(ts: seq<T>): (ps: seq<(T, T)>)
    ensures |ps| == |ts| * (|ts| - 1) / 2
    decreases |ts|
  {
    if |ts| == 0 then []
    else Map(ts[1..], (y: T) => (ts[0], y)) + PairsOf(ts[1..])
  }

  /** The loops visit exactly the pairs `i < j`. */
  lemma {:induction false} PairsOfMembers<T>(ts: seq<T>, p: (T, T))
    ensures p in PairsOf(ts) <==> exists i, j :: 0 <= i < j < |ts| && p == (ts[i], ts[j])
    decreases |ts|
  {
    if |ts| > 0 {
      var row := Map(ts[1..], (y: T) => (ts[0], y));
      var tail := ts[1..];
      PairsOfMembers(tail, p);
      assert PairsOf(ts) == row + PairsOf(tail);
      if p in row {
        var d :| 0 <= d < |row| && row[d] == p;
        assert p == (ts[0], ts[d + 1]);
      } else if p in PairsOf(tail) {
        var i, j :| 0 <= i < j < |tail| && p == (tail[i], tail[j]);
        assert p == (ts[i + 1], ts[j + 1]);
      }
      if exists i, j :: 0 <= i < j < |ts| && p == (ts[i], ts[j]) {
        var i, j :| 0 <= i < j < |ts| && p == (ts[i], ts[j]);
        if i == 0 {
          assert row[j - 1] == p;
        } else {
          assert p == (tail[i - 1], tail[j - 1]);
        }
      }
    }
  }

  /** Every comparison of the two loops, in loop order. */
  function AllComparisons(items: seq<Item>, topics: seq<(int, string)>): (all: seq<Report>)
    ensures |all| == |PairsOf(topics)|
    ensures forall k :: 0 <= k < |all| ==>
              all[k] == Compare(items, topics, PairsOf(topics)[k].0, PairsOf(topics)[k].1)
  {
    Map(PairsOf(topics), (p: ((int, string), (int, string))) => Compare(items, topics, p.0, p.1))
  }

  /** `compute_topic_overlap`: the meaningful comparisons, in loop order. */
  function ComputeTopicOverlap(items: seq<Item>, topics: seq<(int, string)>): seq<Report>
  {
    Filter(AllComparisons(items, topics), (o: Report) => Meaningful(o.common, o.total))
  }

  /** A meaningful comparison of topics `i < j` is reported. */
  lemma OverlapFromPair(items: seq<Item>, topics: seq<(int, string)>, i: nat, j: nat)
    requires i < j < |topics|
    requires var o := Compare(items, topics, topics[i], topics[j]); Meaningful(o.common, o.total)
    ensures Compare(items, topics, topics[i], topics[j]) in ComputeTopicOverlap(items, topics)
  {
    var ps := PairsOf(topics);
    var all := AllComparisons(items, topics);
    PairsOfMembers(topics, (topics[i], topics[j]));
    var k :| 0 <= k < |ps| && ps[k] == (topics[i], topics[j]);
    assert all[k] == Compare(items, topics, topics[i], topics[j]);
  }

  /** Every report is a meaningful comparison of some topics `i < j`. */
  lemma OverlapToPair(items: seq<Item>, topics: seq<(int, string)>, o: Report) returns (i: nat, j: nat)
    requires o in ComputeTopicOverlap(items, topics)
    ensures i < j < |topics|
    ensures o == Compare(items, topics, topics[i], topics[j]) && Meaningful(o.common, o.total)
  {
    var ps := PairsOf(topics);
    var all := AllComparisons(items, topics);
    var k :| 0 <= k < |all| && all[k] == o;
    PairsOfMembers(topics, ps[k]);
    i, j :| 0 <= i < j < |topics| && ps[k] == (topics[i], topics[j]);
  }

  /** A report is returned exactly when it compares topics `i < j` of `topics_dict` and the overlap
      of their keyword sets exceeds 0.1. */
  lemma OverlapReported(items: seq<Item>, topics: seq<(int, string)>, o: Report)
    ensures o in ComputeTopicOverlap(items, topics) <==>
              exists i, j :: 0 <= i < j < |topics| && o == Compare(items, topics, topics[i], topics[j])
                             && Meaningful(o.common, o.total)
  {
    if o in ComputeTopicOverlap(items, topics) {
      var i, j := OverlapToPair(items, topics, o);
    }
    if exists i, j :: 0 <= i < j < |topics| && o == Compare(items, topics, topics[i], topics[j])
                      && Meaningful(o.common, o.total) {
      var i, j :| 0 <= i < j < |topics| && o == Compare(items, topics, topics[i], topics[j])
                  && Meaningful(o.common, o.total);
      OverlapFromPair(items, topics, i, j);
    }
  }
}
