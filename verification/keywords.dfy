/**
 * app.py, analysis page: the keywords of each topic and of the whole document. Texts are
 * lower-cased, joined with spaces and split on whitespace; a word counts when it is longer
 * than three characters and alphabetic; `collections.Counter(...).most_common(n)` ranks them.
 */
module Keywords {
  import opened Wrappers
  import opened Seqs
  import opened Text
  import opened Grouping
  import opened Records
  import opened Counting

  /** The `top_n` defaults of `extract_keywords_per_topic` and `extract_all_keywords`. */
  const TopicKeywordCount: nat := 5
  const AllKeywordCount: nat := 20

  /** `item.get("text", "").lower()`. */
  function LowerText(it: Item): string
  {
    Lower(it.text)
  }

  /** The analysis page's text loops keep every record. */
  function AnyItem(it: Item): bool
  {
    true
  }

  /** The lower-cased text of each record. */
  function LoweredTexts(items: seq<Item>): (ts: seq<string>)
    ensures |ts| == |items|
    ensures forall i :: 0 <= i < |ts| ==> IsLowerWord(ts[i])
  {
    Map(items, LowerText)
  }

  /** `[w for w in " ".join(texts).split() if len(w) > 3 and w.isalpha()]`. */
  function CountedWords(texts: seq<string>): seq<string>
  {
    SignificantWords(Join(texts, " "))
  }

  /** The keywords of lower-case texts are lower-case, alphabetic and longer than three characters. */
  lemma KeywordsLower(texts: seq<string>)
    requires forall i :: 0 <= i < |texts| ==> IsLowerWord(texts[i])
    ensures forall i :: 0 <= i < |CountedWords(texts)| ==>
              Significant(CountedWords(texts)[i]) && IsLowerWord(CountedWords(texts)[i])
  {
    var joined := Join(texts, " ");
    JoinLower(texts, " ");
    WordsOfLower(joined);
    var kws := CountedWords(texts);
    forall i | 0 <= i < |kws|
      ensures IsLowerWord(kws[i])
    {
      var j :| 0 <= j < |Words(joined)| && Words(joined)[j] == kws[i];
    }
  }

  /** The words `extract_all_keywords` counts: those of every record's text. */
  function DocumentWords(items: seq<Item>): seq<string>
  {
    CountedWords(LoweredTexts(items))
  }

  /** `extract_all_keywords`: the `n` most frequent words of the document with their counts. */
  function ExtractAllKeywords(items: seq<Item>, n: nat): (r: seq<(string, nat)>)
    ensures |r| == Min(n, |FirstSeen(DocumentWords(items))|)
    ensures forall k :: 0 <= k < |r| ==> r[k].0 in DocumentWords(items)
    ensures forall k :: 0 <= k < |r| ==> Significant(r[k].0) && IsLowerWord(r[k].0)
    ensures forall k :: 0 <= k < |r| ==> r[k].1 == multiset(DocumentWords(items))[r[k].0]
    ensures Descending(r)
    ensures Distinct(KeysOf(r))
  {
    var words := DocumentWords(items);
    KeywordsLower(LoweredTexts(items));
    TopCountsEntries(words, n);
    TopCountsDistinct(words, n);
    TopCountsSorted(words, n);
    assert forall k :: 0 <= k < |TopCounts(words, n)| ==> TopCounts(words, n)[k].0 in words;
    TopCounts(words, n)
  }

  /** A word of the document that `extract_all_keywords` leaves out is no more frequent than any
      it returns, and on a tie it was first seen after the returned one. */
  lemma AllKeywordsAreTop(items: seq<Item>, n: nat, w: string, k: nat)
    requires w in DocumentWords(items) && w !in KeysOf(ExtractAllKeywords(items, n))
    requires k < |ExtractAllKeywords(items, n)|
    ensures multiset(DocumentWords(items))[w] <= ExtractAllKeywords(items, n)[k].1
    ensures multiset(DocumentWords(items))[w] == ExtractAllKeywords(items, n)[k].1 ==>
              Before(FirstSeen(DocumentWords(items)), ExtractAllKeywords(items, n)[k].0, w)
  {
    var words := DocumentWords(items);
    TopCountsTop(words, n, w);
    if multiset(words)[w] == ExtractAllKeywords(items, n)[k].1 {
      TopCountsTies(words, n, w, k);
    }
  }

  /** `extract_all_keywords` returns all the document's words once it may return that many. */
  lemma AllKeywordsComplete(items: seq<Item>, n: nat)
    requires n >= |FirstSeen(DocumentWords(items))|
    ensures forall w :: w in DocumentWords(items) ==> w in KeysOf(ExtractAllKeywords(items, n))
  {
    var words := DocumentWords(items);
    var r := ExtractAllKeywords(items, n);
    forall w | w in words
      ensures w in KeysOf(r)
    {
      TopCountsEntries(words, n);
      TopCountsDistinct(words, n);
      FirstSeenMembers(words);
      if w !in KeysOf(r) {
        var x := LeftOutEntry(words, n, w);
        MostCommonAll(Tally(words), n) by {
          assert |Tally(words)| == |KeysOf(Tally(words))|;
        }
        assert false;
      }
    }
  }

  /** Some record carries the label `cid`. */
  predicate Mentioned(items: seq<Item>, cid: int)
  {
    Carries(items, cid, AnyItem)
  }

  /** The `(cid, text)` pairs the grouping loop appends: records whose label is a topic id. */
  function TopicPairs(items: seq<Item>, ids: seq<int>): seq<(int, string)>
  {
    LabelPairs(items, ids, AnyItem, LowerText)
  }

  /** The lower-cased texts of the records labelled `cid`, in input order. */
  function ClusterTexts(items: seq<Item>, cid: int): seq<string>
  {
    LoweredTexts(Carrying(items, cid, AnyItem))
  }

  /** `topic_texts` after the first loop of `extract_keywords_per_topic` (and of
      `compute_topic_overlap`): one group per mentioned topic, in order of first mention. */
  function TopicTexts(items: seq<Item>, topics: seq<(int, string)>): (g: seq<(int, seq<string>)>)
    ensures Distinct(KeysOf(g))
    ensures forall i :: 0 <= i < |g| ==> g[i].0 in KeysOf(topics)
    ensures forall i :: 0 <= i < |g| ==> g[i].1 == ClusterTexts(items, g[i].0)
  {
    var ps := TopicPairs(items, KeysOf(topics));
    var g := GroupBy(ps);
    FirstSeenMembers(KeysOf(ps));
    forall i | 0 <= i < |g|
      ensures g[i].0 in KeysOf(topics) && g[i].1 == ClusterTexts(items, g[i].0)
    {
      assert KeysOf(g)[i] == g[i].0;
      assert g[i].0 in KeysOf(ps);
      var k :| 0 <= k < |ps| && KeysOf(ps)[k] == g[i].0;
      SelectLabelPairs(items, KeysOf(topics), AnyItem, LowerText, g[i].0);
    }
    g
  }

  /** A topic has a group exactly when some record carries its id. */
  lemma TopicTextsKeys(items: seq<Item>, topics: seq<(int, string)>, cid: int)
    ensures cid in KeysOf(TopicTexts(items, topics)) <==> cid in KeysOf(topics) && Mentioned(items, cid)
  {
    var ps := TopicPairs(items, KeysOf(topics));
    FirstSeenMembers(KeysOf(ps));
    LabelPairsKeys(items, KeysOf(topics), AnyItem, LowerText, cid);
  }

  /** `[word for word, count in Counter(words).most_common(n)]` over the keywords of `texts`. */
  function TopKeywords(texts: seq<string>, n: nat): seq<string>
  {
    KeysOf(TopCounts(CountedWords(texts), n))
  }

  /** At most `n` distinct keywords of the texts, most frequent first. */
  lemma TopKeywordsShape(texts: seq<string>, n: nat)
    requires forall i :: 0 <= i < |texts| ==> IsLowerWord(texts[i])
    ensures |TopKeywords(texts, n)| <= n
    ensures Distinct(TopKeywords(texts, n))
    ensures forall j :: 0 <= j < |TopKeywords(texts, n)| ==>
              && TopKeywords(texts, n)[j] in CountedWords(texts)
              && Significant(TopKeywords(texts, n)[j]) && IsLowerWord(TopKeywords(texts, n)[j])
    ensures forall a, b :: 0 <= a < b < |TopKeywords(texts, n)| ==>
              multiset(CountedWords(texts))[TopKeywords(texts, n)[b]]
              <= multiset(CountedWords(texts))[TopKeywords(texts, n)[a]]
  {
    var words := CountedWords(texts);
    var r := TopCounts(words, n);
    var kw := TopKeywords(texts, n);
    KeywordsLower(texts);
    TopCountsEntries(words, n);
    TopCountsDistinct(words, n);
    TopCountsSorted(words, n);
    forall j | 0 <= j < |kw|
      ensures kw[j] in words && Significant(kw[j]) && IsLowerWord(kw[j])
    {
      assert kw[j] == r[j].0;
      var p :| 0 <= p < |words| && words[p] == kw[j];
    }
    forall a, b | 0 <= a < b < |kw|
      ensures multiset(words)[kw[b]] <= multiset(words)[kw[a]]
    {
      assert kw[a] == r[a].0 && kw[b] == r[b].0;
    }
  }

  /** The name and keyword list `extract_keywords_per_topic` files for one group. */
  function TopicEntry(topics: seq<(int, string)>, group: (int, seq<string>), n: nat): (string, seq<string>)
    requires group.0 in KeysOf(topics)
  {
    (Lookup(topics, group.0).value, TopKeywords(group.1, n))
  }

  /** The `topic_keywords[topics_dict[cid]] = ...` assignments, in group order. */
  function TopicEntries(items: seq<Item>, topics: seq<(int, string)>, n: nat): (es: seq<(string, seq<string>)>)
    ensures |es| == |TopicTexts(items, topics)|
    ensures forall i :: 0 <= i < |es| ==> es[i] == TopicEntry(topics, TopicTexts(items, topics)[i], n)
  {
    var g := TopicTexts(items, topics);
    seq(|g|, i requires 0 <= i < |g| => TopicEntry(topics, g[i], n))
  }

  /** `extract_keywords_per_topic`: topic name to its top `n` keywords. Two topics with the same
      name share one entry, holding the later topic's keywords. */
  function ExtractKeywordsPerTopic(items: seq<Item>, topics: seq<(int, string)>, n: nat)
    : (r: seq<(string, seq<string>)>)
    ensures Distinct(KeysOf(r))
  {
    FromPairs(TopicEntries(items, topics, n))
  }

  /** Each entry belongs to a topic some record mentions, under that topic's name, and lists the
      top keywords of that topic's texts. */
  lemma PerTopicSource(items: seq<Item>, topics: seq<(int, string)>, n: nat, k: nat)
    requires Distinct(KeysOf(topics))
    requires k < |ExtractKeywordsPerTopic(items, topics, n)|
    ensures var e := ExtractKeywordsPerTopic(items, topics, n)[k];
            exists c :: && (c, e.0) in topics && Mentioned(items, c)
                        && e.1 == TopKeywords(ClusterTexts(items, c), n)
  {
    var es := TopicEntries(items, topics, n);
    var g := TopicTexts(items, topics);
    var e := ExtractKeywordsPerTopic(items, topics, n)[k];
    FromPairsEntries(es);
    var i :| 0 <= i < |es| && es[i] == e;
    var c := g[i].0;
    assert KeysOf(g)[i] == c;
    TopicTextsKeys(items, topics, c);
    assert (c, e.0) in topics;
  }

  /** Every topic some record mentions has an entry under its name. */
  lemma PerTopicCovers(items: seq<Item>, topics: seq<(int, string)>, n: nat, c: int, name: string)
    requires Distinct(KeysOf(topics))
    requires (c, name) in topics && Mentioned(items, c)
    ensures name in KeysOf(ExtractKeywordsPerTopic(items, topics, n))
  {
    var es := TopicEntries(items, topics, n);
    var g := TopicTexts(items, topics);
    var j :| 0 <= j < |topics| && topics[j] == (c, name);
    assert KeysOf(topics)[j] == c;
    TopicTextsKeys(items, topics, c);
    var i :| 0 <= i < |g| && KeysOf(g)[i] == c;
    LookupFinds(topics, c, name);
    assert es[i].0 == name;
    assert KeysOf(es)[i] == name;
    FirstSeenMembers(KeysOf(es));
  }

  /** Every keyword list has at most `n` distinct lower-case alphabetic words longer than three. */
  lemma PerTopicShape(items: seq<Item>, topics: seq<(int, string)>, n: nat, k: nat)
    requires Distinct(KeysOf(topics))
    requires k < |ExtractKeywordsPerTopic(items, topics, n)|
    ensures var kw := ExtractKeywordsPerTopic(items, topics, n)[k].1;
            && |kw| <= n && Distinct(kw)
            && forall j :: 0 <= j < |kw| ==> Significant(kw[j]) && IsLowerWord(kw[j])
  {
    PerTopicSource(items, topics, n, k);
    var e := ExtractKeywordsPerTopic(items, topics, n)[k];
    var c :| (c, e.0) in topics && Mentioned(items, c) && e.1 == TopKeywords(ClusterTexts(items, c), n);
    TopKeywordsShape(ClusterTexts(items, c), n);
  }
}
