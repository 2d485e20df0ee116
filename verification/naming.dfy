/**
 * backend/topic_naming.py: a title for each cluster built from the phrases that occur most
 * often in its texts. The phrase extractor (`CountVectorizer` with English stop words and
 * 1- to 3-grams, features ranked by total count) is opaque: `extract(texts)` is the ranked
 * phrase list, or `None` where scikit-learn raises, as it does when every word of the cluster
 * is a stop word. `maxKeywords` is the configured `MAX_KEYWORDS`.
 */
module TopicNaming {
  import opened Wrappers
  import opened Seqs
  import opened Text
  import opened Decimal
  import opened Grouping
  import opened Records

  predicate IsMultiWord(p: string) { |Words(p)| > 1 }
  predicate IsSingleWord(p: string) { |Words(p)| == 1 }

  /** `f"Topic {cluster_id}"`. */
  function TopicLabel(id: Option<int>): string { "Topic " + IdText(id) }

  /** `f"Cluster {cluster_id}"`. */
  function ClusterLabel(id: Option<int>): string { "Cluster " + IdText(id) }

  /** The phrases considered: the first `2 * maxKeywords` of the ranking. */
  function TopPhrases(ranked: seq<string>, maxKeywords: nat): (top: seq<string>)
    ensures |top| == Min(2 * maxKeywords, |ranked|)
    ensures top == ranked[..|top|]
  {
    ranked[..Min(2 * maxKeywords, |ranked|)]
  }

  /** `r` fills `n` slots: as much of `first` as fits, in order, then `second`, in order, until
      the slots or the elements run out. */
  ghost predicate SlotsFilled<T>(r: seq<T>, first: seq<T>, second: seq<T>, n: nat)
  {
    && |r| == Min(n, |first| + |second|)
    && Min(n, |first|) <= |r|
    && r[..Min(n, |first|)] == first[..Min(n, |first|)]
    && r[Min(n, |first|)..] == second[..|r| - Min(n, |first|)]
  }

  /** Up to `n` elements of `first`, then elements of `second` for the slots left. */
  function FillSlots<T>(first: seq<T>, second: seq<T>, n: nat): (r: seq<T>)
    ensures SlotsFilled(r, first, second, n)
  {
    var chosen := first[..Min(n, |first|)];
    if |chosen| < n then
      var r := chosen + second[..Min(n - |chosen|, |second|)];
      assert r[..|chosen|] == chosen;
      assert r[|chosen|..] == second[..Min(n - |chosen|, |second|)];
      r
    else
      assert chosen[..|chosen|] == chosen;
      chosen
  }

  /** The multi-word candidates, in rank order. */
  function MultiWordCandidates(ranked: seq<string>, maxKeywords: nat): seq<string>
  {
    Filter(TopPhrases(ranked, maxKeywords), IsMultiWord)
  }

  /** The single-word candidates, in rank order. */
  function SingleWordCandidates(ranked: seq<string>, maxKeywords: nat): seq<string>
  {
    Filter(TopPhrases(ranked, maxKeywords), IsSingleWord)
  }

  /** Multi-word phrases first, up to `maxKeywords`, then single words for the slots left. The
      source's `if multi_word_phrases:` guard makes no difference: slicing an empty list gives
      an empty list. */
  function SelectPhrases(ranked: seq<string>, maxKeywords: nat): (sel: seq<string>)
    requires maxKeywords >= 1
    // the multi-word phrases lead, in rank order; the single words follow, in rank order
    ensures SlotsFilled(sel, MultiWordCandidates(ranked, maxKeywords), SingleWordCandidates(ranked, maxKeywords), maxKeywords)
  {
    FillSlots(MultiWordCandidates(ranked, maxKeywords), SingleWordCandidates(ranked, maxKeywords), maxKeywords)
  }

  /** Every selected phrase is one of the top `2 * maxKeywords` of the ranking. */
  lemma SelectionFromTop(ranked: seq<string>, maxKeywords: nat)
    requires maxKeywords >= 1
    ensures forall i :: 0 <= i < |SelectPhrases(ranked, maxKeywords)| ==>
              SelectPhrases(ranked, maxKeywords)[i] in TopPhrases(ranked, maxKeywords)
  {
    SelectedFromTop(TopPhrases(ranked, maxKeywords), maxKeywords, SelectPhrases(ranked, maxKeywords));
  }

  /** A single word is chosen only when every multi-word candidate already was. */
  lemma SelectionSingleWordsLast(ranked: seq<string>, maxKeywords: nat)
    requires maxKeywords >= 1
    ensures (exists i :: 0 <= i < |SelectPhrases(ranked, maxKeywords)| && IsSingleWord(SelectPhrases(ranked, maxKeywords)[i]))
            ==> forall p :: p in TopPhrases(ranked, maxKeywords) && IsMultiWord(p) ==> p in SelectPhrases(ranked, maxKeywords)
  {
    SingleWordsComeLast(TopPhrases(ranked, maxKeywords), maxKeywords, SelectPhrases(ranked, maxKeywords));
  }

  /** Every slot is filled from the candidates. */
  lemma SelectedFromTop(top: seq<string>, maxKeywords: nat, sel: seq<string>)
    requires sel == FillSlots(Filter(top, IsMultiWord), Filter(top, IsSingleWord), maxKeywords)
    ensures forall i :: 0 <= i < |sel| ==> sel[i] in top
  {
    var multi := Filter(top, IsMultiWord);
    var single := Filter(top, IsSingleWord);
    FillSlotsFrom(multi, single, maxKeywords);
    forall i | 0 <= i < |sel|
      ensures sel[i] in top
    {
      if sel[i] in multi {
        FilterFrom(top, IsMultiWord, sel[i]);
      } else {
        FilterFrom(top, IsSingleWord, sel[i]);
      }
    }
  }

  /** Each slot holds an element of one of the two lists. */
  lemma FillSlotsFrom<T>(first: seq<T>, second: seq<T>, n: nat)
    ensures forall i :: 0 <= i < |FillSlots(first, second, n)| ==>
              FillSlots(first, second, n)[i] in first || FillSlots(first, second, n)[i] in second
  {
    var r := FillSlots(first, second, n);
    var m := Min(n, |first|);
    forall i | 0 <= i < |r|
      ensures r[i] in first || r[i] in second
    {
      if i < m {
        assert r[i] == r[..m][i] == first[i];
      } else {
        assert r[i] == r[m..][i - m] == second[i - m];
      }
    }
  }

  lemma SingleWordsComeLast(top: seq<string>, maxKeywords: nat, sel: seq<string>)
    requires sel == FillSlots(Filter(top, IsMultiWord), Filter(top, IsSingleWord), maxKeywords)
    ensures (exists i :: 0 <= i < |sel| && IsSingleWord(sel[i])) ==>
              forall p :: p in top && IsMultiWord(p) ==> p in sel
  {
    var multi := Filter(top, IsMultiWord);
    var single := Filter(top, IsSingleWord);
    var m := Min(maxKeywords, |multi|);
    if i :| 0 <= i < |sel| && IsSingleWord(sel[i]) {
      assert forall k :: 0 <= k < m ==> IsMultiWord(sel[k]) by {
        forall k | 0 <= k < m
          ensures IsMultiWord(sel[k])
        {
          assert sel[k] == sel[..m][k] == multi[..m][k];
        }
      }
      assert !IsMultiWord(sel[i]);
      FillSlotsPastFirst(multi, single, maxKeywords, i);
      forall p | p in top && IsMultiWord(p)
        ensures p in sel
      {
        FilterKeeps(top, IsMultiWord, p);
      }
    }
  }

  /** A slot past the first list's share means the whole first list was taken. */
  lemma FillSlotsPastFirst<T>(first: seq<T>, second: seq<T>, n: nat, i: nat)
    requires Min(n, |first|) <= i < |FillSlots(first, second, n)|
    ensures forall x :: x in first ==> x in FillSlots(first, second, n)
  {
    var r := FillSlots(first, second, n);
    assert r[..|first|] == first;
    forall x | x in first
      ensures x in r
    {
      var j :| 0 <= j < |first| && first[j] == x;
      assert r[..|first|][j] == x;
    }
  }

  /** When every candidate has at least one word, the two groups split the candidates. */
  lemma {:induction false} FilterWordsPartition(top: seq<string>)
    requires forall i :: 0 <= i < |top| ==> |Words(top[i])| >= 1
    ensures |Filter(top, IsMultiWord)| + |Filter(top, IsSingleWord)| == |top|
  {
    if |top| > 0 {
      FilterWordsPartition(top[1..]);
    }
  }

  /** Exactly `min(maxKeywords, #candidates)` phrases are selected when no candidate is blank. */
  lemma SelectedCount(ranked: seq<string>, maxKeywords: nat)
    requires maxKeywords >= 1
    requires forall i :: 0 <= i < |ranked| ==> |Words(ranked[i])| >= 1
    ensures |SelectPhrases(ranked, maxKeywords)| == Min(maxKeywords, |TopPhrases(ranked, maxKeywords)|)
  {
    FilterWordsPartition(TopPhrases(ranked, maxKeywords));
  }

  /** The title: the first phrase, `" & "`, then the other phrases separated by spaces. */
  function FormatTitle(phrases: seq<string>): (title: string)
    requires |phrases| > 0
    ensures |phrases| == 1 ==> title == phrases[0]
    ensures |title| >= |phrases[0]|
    ensures title[..|phrases[0]|] == phrases[0]
  {
    if |phrases| > 1 then phrases[0] + " & " + Join(phrases[1..], " ") else phrases[0]
  }

  /** The title splits back into the first phrase's words, the `&`, and the other phrases' words. */
  lemma TitleWords(phrases: seq<string>)
    requires |phrases| > 1
    ensures Words(FormatTitle(phrases))
         == Words(phrases[0]) + (["&"] + Concat(Map(phrases[1..], Words)))
  {
    var rest := Join(phrases[1..], " ");
    assert FormatTitle(phrases) == phrases[0] + " " + ("&" + " " + rest);
    WordsOfSpaced(phrases[0], "&" + " " + rest);
    WordsOfSpaced("&", rest);
    WordsOfWord("&");
    WordsOfJoinedPhrases(phrases[1..]);
  }

  /** `name_cluster(texts, id)`. */
  function NameCluster(texts: seq<string>, id: Option<int>,
                       extract: seq<string> -> Option<seq<string>>, maxKeywords: nat): (name: string)
    requires maxKeywords >= 1
    ensures |texts| == 0 ==> name == TopicLabel(id)
    // the extractor raising, e.g. on an all-stop-word cluster, is caught
    ensures |texts| > 0 && extract(texts).None? ==> name == ClusterLabel(id)
    ensures |texts| > 0 && extract(texts).Some? && |SelectPhrases(extract(texts).value, maxKeywords)| == 0
            ==> name == TopicLabel(id)
    // otherwise the title of the capitalised selection; the empty-title fallback is never taken
    ensures |texts| > 0 && extract(texts).Some? && |SelectPhrases(extract(texts).value, maxKeywords)| > 0
            ==> && name == FormatTitle(Map(SelectPhrases(extract(texts).value, maxKeywords), Capitalize))
                && |name| > 0
  {
    if |texts| == 0 then TopicLabel(id)
    else
      match extract(texts)
      case None => ClusterLabel(id)
      case Some(ranked) =>
        var sel := SelectPhrases(ranked, maxKeywords);
        if |sel| == 0 then TopicLabel(id)
        else
          assert sel[..Min(maxKeywords, |sel|)] == sel;
          var formatted := Map(sel[..Min(maxKeywords, |sel|)], Capitalize);
          assert |Words(sel[0])| >= 1;
          CapitalizeShape(sel[0]);
          var title := FormatTitle(formatted);
          if |title| > 0 then title else ClusterLabel(id)
  }

  /** `item.get("cluster")` paired with `item["text"]`, the input of the grouping loop. */
  function TextsByCluster(items: seq<Item>): (ps: seq<(Option<int>, string)>)
    ensures |ps| == |items|
    ensures forall i :: 0 <= i < |items| ==> ps[i] == (items[i].cluster, items[i].text)
  {
    Map(items, (it: Item) => (it.cluster, it.text))
  }

  /** `assign_cluster_names`: one name per distinct cluster id, keyed by `str(id)`, in order of
      first appearance. `samples_per_cluster` is unused by the source and has no counterpart. */
  function AssignClusterNames(items: seq<Item>, extract: seq<string> -> Option<seq<string>>,
                              maxKeywords: nat): (names: seq<(string, string)>)
    requires maxKeywords >= 1
    ensures Distinct(KeysOf(names))
    ensures |names| == |FirstSeen(KeysOf(TextsByCluster(items)))|
    ensures forall i :: 0 <= i < |names| ==>
              var cid := FirstSeen(KeysOf(TextsByCluster(items)))[i];
              names[i] == (IdText(cid), NameCluster(Select(TextsByCluster(items), cid), cid, extract, maxKeywords))
  {
    var groups := GroupBy(TextsByCluster(items));
    var named := seq(|groups|, i requires 0 <= i < |groups|
                               => (IdText(groups[i].0), NameCluster(groups[i].1, groups[i].0, extract, maxKeywords)));
    assert Distinct(KeysOf(named)) by {
      forall i, j | 0 <= i < j < |named|
        ensures named[i].0 != named[j].0
      {
        assert KeysOf(groups)[i] != KeysOf(groups)[j];
        IdTextInjective(groups[i].0, groups[j].0);
      }
    }
    FromDistinctPairs(named);
    FromPairs(named)
  }

  /** Grouping puts every text into exactly one group. */
  lemma GroupingKeepsEveryText(items: seq<Item>)
    ensures multiset(Concat(ValuesOf(GroupBy(TextsByCluster(items)))))
         == multiset(Map(items, (it: Item) => it.text))
  {
    GroupByPermutes(TextsByCluster(items));
    assert ValuesOf(TextsByCluster(items)) == Map(items, (it: Item) => it.text);
  }
}
