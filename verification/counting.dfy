/**
 * Python's `collections.Counter` as the analysis page uses it: counting hashable items in
 * order of first occurrence, and `most_common(n)`, which is a stable sort by descending count
 * cut to `n` entries (ties keep the counter's insertion order).
 */
module Counting {
  import opened Wrappers
  import opened Seqs
  import opened Grouping

  /** `Counter(ws)`: one `d[w] = d.get(w, 0) + 1` per element, on an insertion-ordered dict. */
  function Tally<T(==)>(ws: seq<T>): (t: seq<(T, nat)>)
    ensures Distinct(KeysOf(t))
    ensures KeysOf(t) == FirstSeen(ws)
    ensures forall i :: 0 <= i < |t| ==> t[i].1 == multiset(ws)[t[i].0]
    decreases |ws|
  {
    if |ws| == 0 then []
    else
      var p := ws[..|ws| - 1];
      var w := ws[|ws| - 1];
      var d := Tally(p);
      assert ws == p + [w];
      CountSoFar(p, w, d);
      TallyStep(p, w, d, multiset(p)[w] + 1);
      var t := Assign(d, w, Lookup(d, w).GetOr(0) + 1);
      assert CountsExact(t, ws);
      t
  }

  /** Every entry's count is the number of occurrences of its key in `ws`. */
  predicate CountsExact<T(==)>(d: seq<(T, nat)>, ws: seq<T>)
  {
    forall i :: 0 <= i < |d| ==> d[i].1 == multiset(ws)[d[i].0]
  }

  /** `d.get(w, 0)` on exact counts of `p` is the number of occurrences of `w` in `p`. */
  lemma CountSoFar<T>(p: seq<T>, w: T, d: seq<(T, nat)>)
    requires KeysOf(d) == FirstSeen(p)
    requires CountsExact(d, p)
    ensures Lookup(d, w).GetOr(0) == multiset(p)[w]
  {
    if w in KeysOf(d) {
      var c := Lookup(d, w).value;
      var j :| 0 <= j < |d| && d[j] == (w, c);
      assert d[j].1 == multiset(p)[d[j].0];
    } else {
      FirstSeenMembers(p);
      assert w !in p;
    }
  }

  /** Storing the new count keeps the keys in first-seen order and the counts exact. */
  lemma TallyStep<T>(p: seq<T>, w: T, d: seq<(T, nat)>, v: nat)
    requires Distinct(KeysOf(d)) && KeysOf(d) == FirstSeen(p)
    requires CountsExact(d, p)
    requires v == multiset(p)[w] + 1
    ensures KeysOf(Assign(d, w, v)) == FirstSeen(p + [w])
    ensures CountsExact(Assign(d, w, v), p + [w])
  {
    TallyStepKeys(p, w, d, v);
    if w in KeysOf(d) {
      SeenCounts(p, w, d, v);
    } else {
      FirstSeenMembers(p);
      NewCounts(p, w, d, v);
    }
  }

  /** Assigning any value under `w` keeps the keys in first-seen order. */
  lemma TallyStepKeys<T>(p: seq<T>, w: T, d: seq<(T, nat)>, v: nat)
    requires Distinct(KeysOf(d)) && KeysOf(d) == FirstSeen(p)
    ensures KeysOf(Assign(d, w, v)) == FirstSeen(p + [w])
  {
    AssignKeys(d, w, v);
    FirstSeenStep(p, w, KeysOf(d), KeysOf(Assign(d, w, v)));
  }

  /** Counting an element already seen raises its count in place. */
  lemma SeenCounts<T>(p: seq<T>, w: T, d: seq<(T, nat)>, v: nat)
    requires Distinct(KeysOf(d)) && w in KeysOf(d)
    requires CountsExact(d, p)
    requires v == multiset(p)[w] + 1
    ensures CountsExact(Assign(d, w, v), p + [w])
  {
    var r := Assign(d, w, v);
    forall i | 0 <= i < |r|
      ensures r[i].1 == multiset(p + [w])[r[i].0]
    {
      SeenCount(p, w, d, v, i);
    }
  }

  lemma SeenCount<T>(p: seq<T>, w: T, d: seq<(T, nat)>, v: nat, i: nat)
    requires Distinct(KeysOf(d)) && w in KeysOf(d) && i < |d|
    requires CountsExact(d, p)
    requires v == multiset(p)[w] + 1
    ensures i < |Assign(d, w, v)|
    ensures Assign(d, w, v)[i].1 == multiset(p + [w])[Assign(d, w, v)[i].0]
  {
    var r := Assign(d, w, v);
    assert multiset(p + [w]) == multiset(p) + multiset{w};
    assert d[i].1 == multiset(p)[d[i].0];
    if d[i].0 == w {
      assert r[i] == (w, v);
    } else {
      assert r[i] == d[i];
    }
  }

  /** Counting a new element appends it with count 1. */
  lemma NewCounts<T>(p: seq<T>, w: T, d: seq<(T, nat)>, v: nat)
    requires Distinct(KeysOf(d)) && w !in p && w !in KeysOf(d)
    requires CountsExact(d, p)
    requires v == multiset(p)[w] + 1
    ensures CountsExact(Assign(d, w, v), p + [w])
  {
    var r := Assign(d, w, v);
    assert r == d + [(w, v)];
    assert multiset(p + [w]) == multiset(p) + multiset{w};
    assert multiset(p)[w] == 0;
    forall i | 0 <= i < |r|
      ensures r[i].1 == multiset(p + [w])[r[i].0]
    {
      if i < |d| {
        assert r[i] == d[i] && d[i].1 == multiset(p)[d[i].0];
        assert d[i].0 == KeysOf(d)[i];
      }
    }
  }

  /** Every distinct element is counted, with a positive count. */
  lemma TallyCounts<T>(ws: seq<T>)
    ensures forall w :: w in ws <==> w in KeysOf(Tally(ws))
    ensures forall i :: 0 <= i < |Tally(ws)| ==> Tally(ws)[i].0 in ws && Tally(ws)[i].1 > 0
  {
    FirstSeenMembers(ws);
    var t := Tally(ws);
    forall i | 0 <= i < |t|
      ensures t[i].0 in ws && t[i].1 > 0
    {
      assert KeysOf(t)[i] == t[i].0;
      assert t[i].0 in FirstSeen(ws);
    }
  }

  /** Taking away a sum is taking away its parts one after the other. */
  lemma MinusSum<T>(a: multiset<T>, b: multiset<T>, c: multiset<T>)
    ensures a - (b + c) == (a - b) - c
  {
    assert forall x :: (a - (b + c))[x] == ((a - b) - c)[x];
  }

  /** Putting back one removed element keeps a sub-multiset inside the whole. */
  lemma AddBack<T>(a: multiset<T>, x: T, b: multiset<T>)
    requires x in a && b <= a - multiset{x}
    ensures multiset{x} + b <= a
    ensures b == a - multiset{x} ==> multiset{x} + b == a
  {
  }

  /** The sort key of `most_common`, `itemgetter(1)`. */
  function CountOf<T>(p: (T, nat)): real { p.1 as real }

  /** `s` without its element at position `i`. */
  function RemoveAt<T>(s: seq<T>, i: nat): (r: seq<T>)
    requires i < |s|
    ensures |r| == |s| - 1
  {
    s[..i] + s[i + 1..]
  }

  /** Position `q` of the remainder holds what position `q` or `q + 1` held before. */
  lemma RemoveAtIndex<T>(s: seq<T>, i: nat)
    requires i < |s|
    ensures forall q :: 0 <= q < |RemoveAt(s, i)| ==> RemoveAt(s, i)[q] == s[if q < i then q else q + 1]
  {
  }

  lemma RemoveAtMultiset<T>(s: seq<T>, i: nat)
    requires i < |s|
    ensures multiset(RemoveAt(s, i)) == multiset(s) - multiset{s[i]}
  {
    assert s == s[..i] + [s[i]] + s[i + 1..];
  }

  /** Whatever remains after a removal was there before, at another position. */
  lemma FromRemoved<T>(s: seq<T>, i: nat, x: T)
    requires i < |s| && x in RemoveAt(s, i)
    ensures exists p :: 0 <= p < |s| && p != i && s[p] == x
  {
    var q :| 0 <= q < |RemoveAt(s, i)| && RemoveAt(s, i)[q] == x;
    RemoveAtIndex(s, i);
    var p := if q < i then q else q + 1;
    assert s[p] == x;
  }

  /** `x` occurs in `s` somewhere before an occurrence of `y`. */
  predicate Before<T(==)>(s: seq<T>, x: T, y: T)
  {
    exists a, b :: 0 <= a < b < |s| && s[a] == x && s[b] == y
  }

  /** Removing an element keeps the relative order of the others. */
  lemma BeforeRemove<T>(s: seq<T>, i: nat, x: T, y: T)
    requires i < |s| && Before(RemoveAt(s, i), x, y)
    ensures Before(s, x, y)
  {
    var r := RemoveAt(s, i);
    RemoveAtIndex(s, i);
    var a, b :| 0 <= a < b < |r| && r[a] == x && r[b] == y;
    var a' := if a < i then a else a + 1;
    var b' := if b < i then b else b + 1;
    assert s[a'] == x && s[b'] == y;
  }

  /** Removing one element from a duplicate-free sequence leaves it duplicate-free and without it. */
  lemma RemoveDistinct<T>(s: seq<T>, i: nat)
    requires i < |s| && Distinct(s)
    ensures Distinct(RemoveAt(s, i))
    ensures s[i] !in RemoveAt(s, i)
  {
    var r := RemoveAt(s, i);
    RemoveAtIndex(s, i);
    forall p, q | 0 <= p < q < |r|
      ensures r[p] != r[q]
    {
      var p' := if p < i then p else p + 1;
      var q' := if q < i then q else q + 1;
      assert r[p] == s[p'] && r[q] == s[q'];
    }
    forall q | 0 <= q < |r|
      ensures r[q] != s[i]
    {
      assert r[q] == s[if q < i then q else q + 1];
    }
  }

  /** An order fact about `[h] + s` is about its head or about `s`. */
  lemma BeforeCons<T>(h: T, s: seq<T>, x: T, y: T)
    requires Before([h] + s, x, y)
    ensures Before(s, x, y) || (h == x && y in s)
  {
    var a, b :| 0 <= a < b < |[h] + s| && ([h] + s)[a] == x && ([h] + s)[b] == y;
    assert ([h] + s)[b] == s[b - 1];
    if a > 0 {
      assert ([h] + s)[a] == s[a - 1];
    }
  }

  /** An entry left after the pick, with the pick's count, came after the pick. */
  lemma TieAfterPick<T>(t: seq<(T, nat)>, y: (T, nat))
    requires |t| > 0
    requires y in RemoveAt(t, FirstArgMax(t, CountOf)) && y.1 == t[FirstArgMax(t, CountOf)].1
    ensures Before(t, t[FirstArgMax(t, CountOf)], y)
  {
    var i := FirstArgMax(t, CountOf);
    var rest := RemoveAt(t, i);
    PickIsLargest(t);
    RemoveAtIndex(t, i);
    var q :| 0 <= q < |rest| && rest[q] == y;
    if q < i {
      assert false;
    }
    assert t[q + 1] == y;
  }

  /** The entry `max` picks has the greatest count, and every entry before it a smaller one. */
  lemma PickIsLargest<T>(t: seq<(T, nat)>)
    requires |t| > 0
    ensures var i := FirstArgMax(t, CountOf);
            && (forall j :: 0 <= j < |t| ==> t[j].1 <= t[i].1)
            && (forall j :: 0 <= j < i ==> t[j].1 < t[i].1)
  {
    var i := FirstArgMax(t, CountOf);
    forall j | 0 <= j < |t|
      ensures t[j].1 <= t[i].1
    {
      assert CountOf(t[j]) <= CountOf(t[i]);
    }
    forall j | 0 <= j < i
      ensures t[j].1 < t[i].1
    {
      assert CountOf(t[j]) < CountOf(t[i]);
    }
  }

  /** `Counter.most_common(n)`: the `n` entries with the largest counts, largest first, ties in
      the counter's order. Computed by repeatedly taking the first entry of greatest count. */
  function MostCommon<T(==)>(t: seq<(T, nat)>, n: nat): (r: seq<(T, nat)>)
    ensures |r| == Min(n, |t|)
    decreases n
  {
    if n == 0 || |t| == 0 then []
    else
      var i := FirstArgMax(t, CountOf);
      [t[i]] + MostCommon(RemoveAt(t, i), n - 1)
  }

  /** One step of `most_common`: the pick, then the rest chosen from what remains. */
  lemma MostCommonUnfold<T>(t: seq<(T, nat)>, n: nat, m: nat)
    requires |t| > 0 && n == m + 1
    ensures MostCommon(t, n)
            == [t[FirstArgMax(t, CountOf)]] + MostCommon(RemoveAt(t, FirstArgMax(t, CountOf)), m)
  {
  }

  /** `most_common` takes each counter entry at most as often as it is there. */
  lemma {:induction false} MostCommonSub<T>(t: seq<(T, nat)>, n: nat)
    ensures multiset(MostCommon(t, n)) <= multiset(t)
    decreases n
  {
    if n > 0 && |t| > 0 {
      var i := FirstArgMax(t, CountOf);
      var rest := RemoveAt(t, i);
      var m := n - 1;
      var r' := MostCommon(rest, m);
      MostCommonUnfold(t, n, m);
      assert multiset(r') <= multiset(rest) by { MostCommonSub(rest, m); }
      RemoveAtMultiset(t, i);
      assert multiset([t[i]] + r') == multiset{t[i]} + multiset(r');
      AddBack(multiset(t), t[i], multiset(r'));
    }
  }

  /** Every entry `most_common` returns is one of the counter's. */
  lemma KeptIsCounted<T>(t: seq<(T, nat)>, n: nat, k: nat)
    requires k < |MostCommon(t, n)|
    ensures MostCommon(t, n)[k] in t
  {
    MostCommonSub(t, n);
    assert MostCommon(t, n)[k] in multiset(MostCommon(t, n));
  }

  /** Asking for at least as many entries as there are returns all of them. */
  lemma {:induction false} MostCommonAll<T>(t: seq<(T, nat)>, n: nat)
    requires n >= |t|
    ensures multiset(MostCommon(t, n)) == multiset(t)
    decreases n
  {
    if n > 0 && |t| > 0 {
      var i := FirstArgMax(t, CountOf);
      var rest := RemoveAt(t, i);
      var m := n - 1;
      var r' := MostCommon(rest, m);
      MostCommonUnfold(t, n, m);
      assert multiset(r') == multiset(rest) by { MostCommonAll(rest, m); }
      RemoveAtMultiset(t, i);
      assert multiset([t[i]] + r') == multiset{t[i]} + multiset(r');
      AddBack(multiset(t), t[i], multiset(r'));
    }
  }

  /** The multiset left out after one pick is the one left out by the recursive call. */
  lemma LeftOverStep<T>(t: seq<(T, nat)>, n: nat, m: nat)
    requires |t| > 0 && n == m + 1
    ensures multiset(t) - multiset(MostCommon(t, n))
            == multiset(RemoveAt(t, FirstArgMax(t, CountOf))) - multiset(MostCommon(RemoveAt(t, FirstArgMax(t, CountOf)), m))
  {
    var i := FirstArgMax(t, CountOf);
    var rest := RemoveAt(t, i);
    var r' := MostCommon(rest, m);
    MostCommonUnfold(t, n, m);
    RemoveAtMultiset(t, i);
    assert multiset([t[i]] + r') == multiset{t[i]} + multiset(r');
    MinusSum(multiset(t), multiset{t[i]}, multiset(r'));
  }

  /** Counts never increase along `r`. */
  predicate Descending<T>(r: seq<(T, nat)>)
  {
    forall a, b :: 0 <= a < b < |r| ==> r[b].1 <= r[a].1
  }

  lemma DescendingCons<T>(h: (T, nat), s: seq<(T, nat)>)
    requires Descending(s)
    requires forall k :: 0 <= k < |s| ==> s[k].1 <= h.1
    ensures Descending([h] + s)
  {
    var r := [h] + s;
    forall a, b | 0 <= a < b < |r|
      ensures r[b].1 <= r[a].1
    {
      assert r[b] == s[b - 1];
      if a > 0 {
        assert r[a] == s[a - 1];
      }
    }
  }

  /** Nothing left after the pick counts more than the pick. */
  lemma PickBoundsRest<T>(t: seq<(T, nat)>, x: (T, nat))
    requires |t| > 0 && x in RemoveAt(t, FirstArgMax(t, CountOf))
    ensures x.1 <= t[FirstArgMax(t, CountOf)].1
  {
    PickIsLargest(t);
    FromRemoved(t, FirstArgMax(t, CountOf), x);
  }

  /** Counts never increase along the result. */
  lemma {:induction false} MostCommonSorted<T>(t: seq<(T, nat)>, n: nat)
    ensures Descending(MostCommon(t, n))
    decreases n
  {
    if n > 0 && |t| > 0 {
      var i := FirstArgMax(t, CountOf);
      var rest := RemoveAt(t, i);
      var m := n - 1;
      var r' := MostCommon(rest, m);
      MostCommonUnfold(t, n, m);
      assert Descending(r') by { MostCommonSorted(rest, m); }
      forall k | 0 <= k < |r'|
        ensures r'[k].1 <= t[i].1
      {
        KeptIsCounted(rest, m, k);
        PickBoundsRest(t, r'[k]);
      }
      DescendingCons(t[i], r');
    }
  }

  /** Nothing left out counts more than anything kept. */
  lemma {:induction false} MostCommonTop<T>(t: seq<(T, nat)>, n: nat, x: (T, nat))
    requires x in multiset(t) - multiset(MostCommon(t, n))
    ensures forall k :: 0 <= k < |MostCommon(t, n)| ==> x.1 <= MostCommon(t, n)[k].1
    decreases n
  {
    if n > 0 && |t| > 0 {
      var i := FirstArgMax(t, CountOf);
      var rest := RemoveAt(t, i);
      var m := n - 1;
      var r' := MostCommon(rest, m);
      var r := MostCommon(t, n);
      LeftOverStep(t, n, m);
      MostCommonUnfold(t, n, m);
      PickIsLargest(t);
      assert x in multiset(rest);
      FromRemoved(t, i, x);
      assert forall k :: 0 <= k < |r'| ==> x.1 <= r'[k].1 by { MostCommonTop(rest, m, x); }
      forall k | 0 <= k < |r|
        ensures x.1 <= r[k].1
      {
        if k > 0 {
          assert r[k] == r'[k - 1];
        }
      }
    }
  }

  /** Distinct counter entries give distinct results. */
  lemma {:induction false} MostCommonDistinct<T>(t: seq<(T, nat)>, n: nat)
    requires Distinct(t)
    ensures Distinct(MostCommon(t, n))
    decreases n
  {
    if n > 0 && |t| > 0 {
      var i := FirstArgMax(t, CountOf);
      var rest := RemoveAt(t, i);
      var m := n - 1;
      var r' := MostCommon(rest, m);
      var r := MostCommon(t, n);
      MostCommonUnfold(t, n, m);
      RemoveDistinct(t, i);
      assert Distinct(r') by { MostCommonDistinct(rest, m); }
      forall a, b | 0 <= a < b < |r|
        ensures r[a] != r[b]
      {
        assert r[b] == r'[b - 1];
        if a == 0 {
          KeptIsCounted(rest, m, b - 1);
        } else {
          assert r[a] == r'[a - 1];
        }
      }
    }
  }

  /** Entries with equal counts come out in the order they had in the counter. */
  lemma {:induction false} MostCommonStable<T>(t: seq<(T, nat)>, n: nat, x: (T, nat), y: (T, nat))
    requires Before(MostCommon(t, n), x, y) && x.1 == y.1
    ensures Before(t, x, y)
    decreases n
  {
    var i := FirstArgMax(t, CountOf);
    var rest := RemoveAt(t, i);
    var m := n - 1;
    var r' := MostCommon(rest, m);
    MostCommonUnfold(t, n, m);
    BeforeCons(t[i], r', x, y);
    if Before(r', x, y) {
      assert Before(rest, x, y) by { MostCommonStable(rest, m, x, y); }
      BeforeRemove(t, i, x, y);
    } else {
      var k :| 0 <= k < |r'| && r'[k] == y;
      KeptIsCounted(rest, m, k);
      TieAfterPick(t, y);
    }
  }

  lemma {:induction false} MostCommonPrefersEarlier<T>(t: seq<(T, nat)>, n: nat, x: (T, nat), y: (T, nat))
    requires y in MostCommon(t, n)
    requires x in multiset(t) - multiset(MostCommon(t, n))
    requires x.1 == y.1
    ensures Before(t, y, x)
    decreases n
  {
    var i := FirstArgMax(t, CountOf);
    var rest := RemoveAt(t, i);
    var m := n - 1;
    var r' := MostCommon(rest, m);
    LeftOverStep(t, n, m);
    MostCommonUnfold(t, n, m);
    PickIsLargest(t);
    assert x in multiset(rest) - multiset(r');
    if y in r' {
      assert Before(rest, y, x) by { MostCommonPrefersEarlier(rest, m, x, y); }
      BeforeRemove(t, i, y, x);
    } else {
      assert y == t[i];
      assert x in rest;
      FromRemoved(t, i, x);
      var p :| 0 <= p < |t| && p != i && t[p] == x;
      assert i < p;
    }
  }

  /** `Counter(ws).most_common(n)`. */
  function TopCounts<T(==)>(ws: seq<T>, n: nat): seq<(T, nat)>
  {
    MostCommon(Tally(ws), n)
  }

  /** Entries with distinct keys are distinct. */
  lemma DistinctKeysDistinct<K, V>(d: seq<(K, V)>)
    requires Distinct(KeysOf(d))
    ensures Distinct(d)
  {
    forall a, b | 0 <= a < b < |d|
      ensures d[a] != d[b]
    {
      assert KeysOf(d)[a] != KeysOf(d)[b];
    }
  }

  /** `min(n, number of distinct elements)` entries, each an element of `ws` with its exact count. */
  lemma TopCountsEntries<T>(ws: seq<T>, n: nat)
    ensures |TopCounts(ws, n)| == Min(n, |FirstSeen(ws)|)
    ensures forall k :: 0 <= k < |TopCounts(ws, n)| ==>
              TopCounts(ws, n)[k].0 in ws && TopCounts(ws, n)[k].1 == multiset(ws)[TopCounts(ws, n)[k].0]
  {
    var t := Tally(ws);
    var r := TopCounts(ws, n);
    assert |t| == |KeysOf(t)|;
    TallyCounts(ws);
    forall k | 0 <= k < |r|
      ensures r[k].0 in ws && r[k].1 == multiset(ws)[r[k].0]
    {
      KeptIsCounted(t, n, k);
    }
  }

  /** No element is listed twice. */
  lemma TopCountsDistinct<T>(ws: seq<T>, n: nat)
    ensures Distinct(KeysOf(TopCounts(ws, n)))
  {
    var t := Tally(ws);
    var r := TopCounts(ws, n);
    DistinctKeysDistinct(t);
    MostCommonDistinct(t, n);
    forall a, b | 0 <= a < b < |r|
      ensures r[a].0 != r[b].0
    {
      KeptIsCounted(t, n, a);
      KeptIsCounted(t, n, b);
      var p :| 0 <= p < |t| && t[p] == r[a];
      var q :| 0 <= q < |t| && t[q] == r[b];
      assert KeysOf(t)[p] == r[a].0 && KeysOf(t)[q] == r[b].0;
      assert p != q;
    }
  }

  /** The entry of `Tally(ws)` for an element `w` of `ws`. */
  lemma TallyEntry<T>(ws: seq<T>, w: T) returns (i: nat)
    requires w in ws
    ensures i < |Tally(ws)| && Tally(ws)[i] == (w, multiset(ws)[w])
  {
    TallyCounts(ws);
    var t := Tally(ws);
    i :| 0 <= i < |t| && KeysOf(t)[i] == w;
  }

  /** An element left out of the listing is one the counter holds but the listing does not. */
  lemma LeftOutEntry<T>(ws: seq<T>, n: nat, w: T) returns (x: (T, nat))
    requires w in ws && w !in KeysOf(TopCounts(ws, n))
    ensures x == (w, multiset(ws)[w])
    ensures x in multiset(Tally(ws)) - multiset(TopCounts(ws, n))
  {
    var i := TallyEntry(ws, w);
    x := Tally(ws)[i];
    var r := TopCounts(ws, n);
    forall k | 0 <= k < |r|
      ensures r[k] != x
    {
      assert KeysOf(r)[k] == r[k].0;
    }
    assert x !in r;
    assert multiset(r)[x] == 0;
  }

  /** An element left out occurs no more often than any element listed. */
  lemma TopCountsTop<T>(ws: seq<T>, n: nat, w: T)
    requires w in ws && w !in KeysOf(TopCounts(ws, n))
    ensures forall k :: 0 <= k < |TopCounts(ws, n)| ==> multiset(ws)[w] <= TopCounts(ws, n)[k].1
  {
    var x := LeftOutEntry(ws, n, w);
    MostCommonTop(Tally(ws), n, x);
  }

  /** An element left out with the same count as a listed one was first seen after it. */
  lemma TopCountsTies<T>(ws: seq<T>, n: nat, w: T, k: nat)
    requires w in ws && w !in KeysOf(TopCounts(ws, n))
    requires k < |TopCounts(ws, n)| && multiset(ws)[w] == TopCounts(ws, n)[k].1
    ensures Before(FirstSeen(ws), TopCounts(ws, n)[k].0, w)
  {
    var t := Tally(ws);
    var r := TopCounts(ws, n);
    var x := LeftOutEntry(ws, n, w);
    MostCommonPrefersEarlier(t, n, x, r[k]);
    var a, b :| 0 <= a < b < |t| && t[a] == r[k] && t[b] == x;
    assert KeysOf(t)[a] == r[k].0 && KeysOf(t)[b] == w;
  }

  /** Counts never increase along the listing. */
  lemma TopCountsSorted<T>(ws: seq<T>, n: nat)
    ensures Descending(TopCounts(ws, n))
  {
    MostCommonSorted(Tally(ws), n);
  }
}
