/**
 * Insertion-ordered dictionaries, as Python 3.7+ `dict`s behave, represented as
 * sequences of key/value pairs with pairwise distinct keys. Two idioms recur in
 * the pipeline:
 *   - group-by: `if k not in d: d[k] = []` then `d[k].append(v)`, over a sequence;
 *   - assignment: `d[k] = v`, which keeps the position of an existing key.
 */
module Grouping {
  import opened Wrappers
  import opened Seqs

  function KeysOf<K, V>(d: seq<(K, V)>): (ks: seq<K>)
    ensures |ks| == |d|
    ensures forall i :: 0 <= i < |d| ==> ks[i] == d[i].0
  {
    seq(|d|, i requires 0 <= i < |d| => d[i].0)
  }

  function ValuesOf<K, V>(d: seq<(K, V)>): (vs: seq<V>)
    ensures |vs| == |d|
    ensures forall i :: 0 <= i < |d| ==> vs[i] == d[i].1
  {
    seq(|d|, i requires 0 <= i < |d| => d[i].1)
  }

  /** Distinct elements of `ks`, each at the position of its first occurrence. */
  function FirstSeen<K(==)>(ks: seq<K>): (r: seq<K>)
    ensures Distinct(r)
    decreases |ks|
  {
    if |ks| == 0 then []
    else
      var p := FirstSeen(ks[..|ks| - 1]);
      var k := ks[|ks| - 1];
      if k in p then p else p + [k]
  }

  /** `FirstSeen` keeps exactly the elements of its input. */
  lemma {:induction false} FirstSeenMembers<K>(ks: seq<K>)
    ensures forall k {:trigger k in FirstSeen(ks)} {:trigger k in ks} :: k in FirstSeen(ks) <==> k in ks
  {
    if |ks| > 0 {
      var p := ks[..|ks| - 1];
      FirstSeenMembers(p);
      assert ks == p + [ks[|ks| - 1]];
    }
  }

  /** The values paired with key `k`, in input order. */
  function Select<K(==), V>(xs: seq<(K, V)>, k: K): (vs: seq<V>)
    ensures |vs| <= |xs|
    decreases |xs|
  {
    if |xs| == 0 then []
    else Select(xs[..|xs| - 1], k) + (if xs[|xs| - 1].0 == k then [xs[|xs| - 1].1] else [])
  }

  /** Every selected value comes from a pair with the selected key, and vice versa. */
  lemma {:induction false} SelectMembers<K, V>(xs: seq<(K, V)>, k: K)
    ensures forall v :: v in Select(xs, k) <==> (k, v) in xs
  {
    if |xs| > 0 {
      var ys := xs[..|xs| - 1];
      SelectMembers(ys, k);
      assert xs == ys + [xs[|xs| - 1]];
    }
  }

  /** One step of the group-by loop: append `v` to the list under `k`, creating it at the end if new. */
  function Insert<K(==), V>(g: seq<(K, seq<V>)>, k: K, v: V): (r: seq<(K, seq<V>)>)
    ensures k in KeysOf(g) ==> KeysOf(r) == KeysOf(g)
    ensures k in KeysOf(g) ==>
      forall i :: 0 <= i < |g| ==> r[i].1 == if g[i].0 == k then g[i].1 + [v] else g[i].1
    ensures k !in KeysOf(g) ==> r == g + [(k, [v])]
  {
    if k in KeysOf(g) then
      seq(|g|, i requires 0 <= i < |g| => if g[i].0 == k then (k, g[i].1 + [v]) else g[i])
    else g + [(k, [v])]
  }

  lemma SelectSnoc<K, V>(ys: seq<(K, V)>, kv: (K, V), k': K)
    ensures Select(ys + [kv], k') == Select(ys, k') + (if kv.0 == k' then [kv.1] else [])
  {
    assert (ys + [kv])[..|ys|] == ys;
  }

  lemma SelectAbsent<K, V>(ys: seq<(K, V)>, k: K)
    requires k !in KeysOf(ys)
    ensures Select(ys, k) == []
  {
    SelectMembers(ys, k);
  }

  lemma FirstSeenSnoc<K>(ks: seq<K>, k: K)
    ensures FirstSeen(ks + [k]) == if k in FirstSeen(ks) then FirstSeen(ks) else FirstSeen(ks) + [k]
  {
    assert (ks + [k])[..|ks|] == ks;
  }

  /** Keys kept in first-seen order stay so when the next key is appended. */
  lemma FirstSeenStep<K>(p: seq<K>, k: K, ks: seq<K>, ks': seq<K>)
    requires ks == FirstSeen(p)
    requires ks' == if k in ks then ks else ks + [k]
    ensures ks' == FirstSeen(p + [k])
  {
    FirstSeenSnoc(p, k);
  }

  /** Inserting keeps the keys, adding `k` at the end when it is new. */
  lemma InsertKeys<K, V>(g: seq<(K, seq<V>)>, k: K, v: V)
    ensures KeysOf(Insert(g, k, v)) == if k in KeysOf(g) then KeysOf(g) else KeysOf(g) + [k]
  {
    if k !in KeysOf(g) {
      assert KeysOf(g + [(k, [v])]) == KeysOf(g) + [k];
    }
  }

  /** One iteration of the group-by loop keeps the group-by invariant. */
  lemma GroupByStepKeys<K, V>(ys: seq<(K, V)>, kv: (K, V), g0: seq<(K, seq<V>)>)
    requires KeysOf(g0) == FirstSeen(KeysOf(ys))
    ensures KeysOf(Insert(g0, kv.0, kv.1)) == FirstSeen(KeysOf(ys + [kv]))
  {
    assert KeysOf(ys + [kv]) == KeysOf(ys) + [kv.0];
    InsertKeys(g0, kv.0, kv.1);
    FirstSeenStep(KeysOf(ys), kv.0, KeysOf(g0), KeysOf(Insert(g0, kv.0, kv.1)));
  }

  lemma GroupByStepValues<K, V>(ys: seq<(K, V)>, kv: (K, V), g0: seq<(K, seq<V>)>, i: nat)
    requires KeysOf(g0) == FirstSeen(KeysOf(ys))
    requires forall i :: 0 <= i < |g0| ==> g0[i].1 == Select(ys, g0[i].0)
    requires i < |Insert(g0, kv.0, kv.1)|
    ensures Insert(g0, kv.0, kv.1)[i].1 == Select(ys + [kv], Insert(g0, kv.0, kv.1)[i].0)
  {
    var k, v := kv.0, kv.1;
    var g := Insert(g0, k, v);
    SelectSnoc(ys, kv, g[i].0);
    if k in KeysOf(g0) {
      assert g[i].0 == g0[i].0;
    } else if i < |g0| {
      assert g[i] == g0[i];
      assert g0[i].0 != k;
    } else {
      assert g[i] == (k, [v]);
      FirstSeenMembers(KeysOf(ys));
      assert k !in KeysOf(ys);
      SelectAbsent(ys, k);
    }
  }

  lemma GroupByStep<K, V>(ys: seq<(K, V)>, kv: (K, V), g0: seq<(K, seq<V>)>)
    requires KeysOf(g0) == FirstSeen(KeysOf(ys))
    requires forall i :: 0 <= i < |g0| ==> g0[i].1 == Select(ys, g0[i].0)
    ensures KeysOf(Insert(g0, kv.0, kv.1)) == FirstSeen(KeysOf(ys + [kv]))
    ensures forall i :: 0 <= i < |Insert(g0, kv.0, kv.1)| ==>
      Insert(g0, kv.0, kv.1)[i].1 == Select(ys + [kv], Insert(g0, kv.0, kv.1)[i].0)
  {
    GroupByStepKeys(ys, kv, g0);
    forall i | 0 <= i < |Insert(g0, kv.0, kv.1)|
      ensures Insert(g0, kv.0, kv.1)[i].1 == Select(ys + [kv], Insert(g0, kv.0, kv.1)[i].0)
    {
      GroupByStepValues(ys, kv, g0, i);
    }
  }

  /** The group-by loop over `xs`: one group per distinct key in first-seen order,
      each holding exactly that key's values in input order. */
  function GroupBy<K(==), V>(xs: seq<(K, V)>): (g: seq<(K, seq<V>)>)
    ensures KeysOf(g) == FirstSeen(KeysOf(xs))
    ensures forall i :: 0 <= i < |g| ==> g[i].1 == Select(xs, g[i].0)
    decreases |xs|
  {
    if |xs| == 0 then []
    else
      var ys := xs[..|xs| - 1];
      var kv := xs[|xs| - 1];
      var g0 := GroupBy(ys);
      assert xs == ys + [kv];
      GroupByStep(ys, kv, g0);
      Insert(g0, kv.0, kv.1)
  }

  /** Every key of a group-by result has at least one value. */
  lemma GroupsNonEmpty<K, V>(xs: seq<(K, V)>, i: nat)
    requires i < |GroupBy(xs)|
    ensures |GroupBy(xs)[i].1| > 0
  {
    var g := GroupBy(xs);
    var k := g[i].0;
    var ks := KeysOf(xs);
    assert KeysOf(g)[i] == k;
    assert k in FirstSeen(ks);
    FirstSeenMembers(ks);
    assert k in ks;
    var j :| 0 <= j < |ks| && ks[j] == k;
    SelectMembers(xs, k);
    assert xs[j] == (k, xs[j].1);
    assert xs[j].1 in Select(xs, k);
  }

  lemma ValuesOfCons<K, V>(a: (K, V), rest: seq<(K, V)>)
    ensures ValuesOf([a] + rest) == [a.1] + ValuesOf(rest)
  {
  }

  /** `Insert` on a dict with a first entry `h`: either `h` takes the value, or the rest does. */
  lemma InsertCons<K, V>(h: (K, seq<V>), rest: seq<(K, seq<V>)>, k: K, v: V)
    requires Distinct(KeysOf([h] + rest))
    ensures Insert([h] + rest, k, v)
            == if h.0 == k then [(k, h.1 + [v])] + rest else [h] + Insert(rest, k, v)
  {
    if h.0 == k {
      InsertHead(h, rest, v);
    } else {
      InsertPast(h, rest, k, v);
    }
  }

  lemma InsertHead<K, V>(h: (K, seq<V>), rest: seq<(K, seq<V>)>, v: V)
    requires Distinct(KeysOf([h] + rest))
    ensures Insert([h] + rest, h.0, v) == [(h.0, h.1 + [v])] + rest
  {
    var g := [h] + rest;
    var r := Insert(g, h.0, v);
    assert KeysOf(g)[0] == h.0;
    forall i | 0 < i < |g|
      ensures r[i] == rest[i - 1]
    {
      assert KeysOf(g)[0] != KeysOf(g)[i];
    }
  }

  lemma InsertPast<K, V>(h: (K, seq<V>), rest: seq<(K, seq<V>)>, k: K, v: V)
    requires h.0 != k
    ensures Insert([h] + rest, k, v) == [h] + Insert(rest, k, v)
  {
    assert KeysOf([h] + rest) == [h.0] + KeysOf(rest);
    if k in KeysOf(rest) {
      InsertPastExisting(h, rest, k, v);
    } else {
      assert ([h] + rest) + [(k, [v])] == [h] + (rest + [(k, [v])]);
    }
  }

  lemma InsertPastExisting<K, V>(h: (K, seq<V>), rest: seq<(K, seq<V>)>, k: K, v: V)
    requires h.0 != k && k in KeysOf(rest)
    ensures Insert([h] + rest, k, v) == [h] + Insert(rest, k, v)
  {
    var g := [h] + rest;
    assert k in KeysOf(g) by {
      assert KeysOf(g) == [h.0] + KeysOf(rest);
    }
    InsertAt(g, k, v, 0);
    InsertAtRest(h, rest, k, v);
    ShiftedEqual(Insert(g, k, v), Insert(rest, k, v), h);
  }

  lemma InsertAtRest<K, V>(h: (K, seq<V>), rest: seq<(K, seq<V>)>, k: K, v: V)
    requires k in KeysOf([h] + rest) && k in KeysOf(rest)
    ensures |Insert([h] + rest, k, v)| == 1 + |Insert(rest, k, v)|
    ensures forall i :: 0 < i < |Insert([h] + rest, k, v)| ==> Insert([h] + rest, k, v)[i] == Insert(rest, k, v)[i - 1]
  {
    var g := [h] + rest;
    InsertAt(g, k, v, 0);
    if |rest| > 0 {
      InsertAt(rest, k, v, 0);
    }
    forall i | 0 < i < |g|
      ensures Insert(g, k, v)[i] == Insert(rest, k, v)[i - 1]
    {
      InsertAt(g, k, v, i);
      InsertAt(rest, k, v, i - 1);
      assert g[i] == rest[i - 1];
    }
  }

  /** A sequence whose head is `h` and whose tail matches `t` elementwise is `[h] + t`. */
  lemma ShiftedEqual<T>(s: seq<T>, t: seq<T>, h: T)
    requires |s| == 1 + |t| && s[0] == h
    requires forall i :: 0 < i < |s| ==> s[i] == t[i - 1]
    ensures s == [h] + t
  {
  }

  /** Adding to an existing key extends that key's list in place. */
  lemma InsertAt<K, V>(g: seq<(K, seq<V>)>, k: K, v: V, i: nat)
    requires k in KeysOf(g) && i < |g|
    ensures |Insert(g, k, v)| == |g|
    ensures Insert(g, k, v)[i] == if g[i].0 == k then (k, g[i].1 + [v]) else g[i]
  {
  }

  lemma {:induction false} InsertAddsOne<K, V>(g: seq<(K, seq<V>)>, k: K, v: V)
    requires Distinct(KeysOf(g))
    ensures multiset(Concat(ValuesOf(Insert(g, k, v)))) == multiset(Concat(ValuesOf(g))) + multiset{v}
  {
    if |g| == 0 {
      ValuesOfCons((k, [v]), []);
      ConcatCons([v], []);
    } else {
      var rest := g[1..];
      assert g == [g[0]] + rest;
      InsertCons(g[0], rest, k, v);
      ValuesOfCons(g[0], rest);
      ConcatCons(g[0].1, ValuesOf(rest));
      assert KeysOf(rest) == KeysOf(g)[1..];
      if g[0].0 == k {
        ValuesOfCons((k, g[0].1 + [v]), rest);
        ConcatCons(g[0].1 + [v], ValuesOf(rest));
      } else {
        InsertAddsOne(rest, k, v);
        ValuesOfCons(g[0], Insert(rest, k, v));
        ConcatCons(g[0].1, ValuesOf(Insert(rest, k, v)));
      }
    }
  }

  /** Flattening the groups gives back the input values, rearranged. */
  lemma {:induction false} GroupByPermutes<K, V>(xs: seq<(K, V)>)
    ensures multiset(Concat(ValuesOf(GroupBy(xs)))) == multiset(ValuesOf(xs))
  {
    if |xs| > 0 {
      var ys := xs[..|xs| - 1];
      var kv := xs[|xs| - 1];
      var g0 := GroupBy(ys);
      var g := GroupBy(xs);
      assert xs == ys + [kv];
      assert g == Insert(g0, kv.0, kv.1);
      assert multiset(Concat(ValuesOf(g0))) == multiset(ValuesOf(ys)) by {
        GroupByPermutes(ys);
      }
      assert multiset(Concat(ValuesOf(g))) == multiset(Concat(ValuesOf(g0))) + multiset{kv.1} by {
        InsertAddsOne(g0, kv.0, kv.1);
      }
      ValuesOfSnoc(ys, kv);
    }
  }

  lemma ValuesOfSnoc<K, V>(ys: seq<(K, V)>, kv: (K, V))
    ensures ValuesOf(ys + [kv]) == ValuesOf(ys) + [kv.1]
  {
  }

  /** Python's `d[k] = v` on an insertion-ordered dict: an existing key keeps its place. */
  function Assign<K(==), V>(d: seq<(K, V)>, k: K, v: V): (r: seq<(K, V)>)
    requires Distinct(KeysOf(d))
    ensures Distinct(KeysOf(r))
    ensures k in KeysOf(d) ==> |r| == |d|
    ensures k in KeysOf(d) ==> forall i :: 0 <= i < |d| ==> r[i] == (if d[i].0 == k then (k, v) else d[i])
    ensures k !in KeysOf(d) ==> r == d + [(k, v)]
  {
    if k in KeysOf(d) then
      var r := seq(|d|, i requires 0 <= i < |d| => if d[i].0 == k then (k, v) else d[i]);
      assert KeysOf(r) == KeysOf(d);
      r
    else
      var r := d + [(k, v)];
      assert KeysOf(r) == KeysOf(d) + [k];
      r
  }

  /** Assigning keeps the keys, adding `k` at the end when it is new. */
  lemma AssignKeys<K, V>(d: seq<(K, V)>, k: K, v: V)
    requires Distinct(KeysOf(d))
    ensures KeysOf(Assign(d, k, v)) == if k in KeysOf(d) then KeysOf(d) else KeysOf(d) + [k]
  {
    var r := Assign(d, k, v);
    if k in KeysOf(d) {
      assert forall i :: 0 <= i < |d| ==> KeysOf(r)[i] == KeysOf(d)[i];
    } else {
      assert KeysOf(r) == KeysOf(d) + [k];
    }
  }

  /** A dict comprehension `{k: v for (k, v) in ps}`: assignments left to right. */
  function FromPairs<K(==), V>(ps: seq<(K, V)>): (d: seq<(K, V)>)
    ensures Distinct(KeysOf(d))
    ensures KeysOf(d) == FirstSeen(KeysOf(ps))
    decreases |ps|
  {
    if |ps| == 0 then []
    else
      var qs := ps[..|ps| - 1];
      assert KeysOf(ps)[..|ps| - 1] == KeysOf(qs);
      var d0 := FromPairs(qs);
      var d := Assign(d0, ps[|ps| - 1].0, ps[|ps| - 1].1);
      assert KeysOf(d) == FirstSeen(KeysOf(ps)) by {
        if ps[|ps| - 1].0 in KeysOf(d0) {
          assert KeysOf(d) == KeysOf(d0);
        } else {
          assert KeysOf(d) == KeysOf(d0) + [ps[|ps| - 1].0];
        }
      }
      d
  }

  /** With distinct keys the comprehension changes nothing. */
  lemma {:induction false} FromDistinctPairs<K, V>(ps: seq<(K, V)>)
    requires Distinct(KeysOf(ps))
    ensures FromPairs(ps) == ps
  {
    if |ps| > 0 {
      var qs := ps[..|ps| - 1];
      var kv := ps[|ps| - 1];
      assert KeysOf(qs) == KeysOf(ps)[..|ps| - 1];
      FromDistinctPairs(qs);
      assert kv.0 !in KeysOf(qs) by {
        assert KeysOf(ps)[|ps| - 1] == kv.0;
      }
      assert FromPairs(ps) == Assign(qs, kv.0, kv.1);
      assert Assign(qs, kv.0, kv.1) == qs + [(kv.0, kv.1)];
      assert (kv.0, kv.1) == kv;
      assert qs + [kv] == ps;
    }
  }

  /** `d.get(k)` on a dict with distinct keys. */
  function Lookup<K(==), V>(d: seq<(K, V)>, k: K): (r: Option<V>)
    ensures r.None? <==> k !in KeysOf(d)
    ensures r.Some? ==> (k, r.value) in d
  {
    if |d| == 0 then None
    else if d[0].0 == k then Some(d[0].1)
    else
      assert KeysOf(d) == [d[0].0] + KeysOf(d[1..]);
      Lookup(d[1..], k)
  }

  /** `d.get(k)` finds the value stored under `k`. */
  lemma {:induction false} LookupFinds<K, V>(d: seq<(K, V)>, k: K, v: V)
    requires Distinct(KeysOf(d)) && (k, v) in d
    ensures Lookup(d, k) == Some(v)
  {
    if d[0] != (k, v) {
      var j :| 0 <= j < |d| && d[j] == (k, v);
      assert KeysOf(d)[0] != KeysOf(d)[j];
      assert d[1..][j - 1] == (k, v);
      assert KeysOf(d[1..]) == KeysOf(d)[1..];
      LookupFinds(d[1..], k, v);
    }
  }

  /** Every entry of a dict comprehension is one of its pairs. */
  lemma {:induction false} FromPairsEntries<K, V>(ps: seq<(K, V)>)
    ensures forall i :: 0 <= i < |FromPairs(ps)| ==> FromPairs(ps)[i] in ps
    decreases |ps|
  {
    if |ps| > 0 {
      var qs := ps[..|ps| - 1];
      var kv := ps[|ps| - 1];
      FromPairsEntries(qs);
      var d0 := FromPairs(qs);
      assert FromPairs(ps) == Assign(d0, kv.0, kv.1);
      forall i | 0 <= i < |FromPairs(ps)|
        ensures FromPairs(ps)[i] in ps
      {
        if FromPairs(ps)[i] != kv {
          assert FromPairs(ps)[i] == d0[i];
          assert d0[i] in qs;
        }
      }
    }
  }

  /** `kv` is the last pair of `ps` with key `kv.0`. */
  ghost predicate LastWithKey<K, V>(ps: seq<(K, V)>, kv: (K, V))
  {
    exists j :: 0 <= j < |ps| && ps[j] == kv && forall j2 :: j < j2 < |ps| ==> ps[j2].0 != kv.0
  }

  /** Each key of a dict comprehension keeps the value of its last assignment. */
  lemma {:induction false} FromPairsLast<K, V>(ps: seq<(K, V)>)
    ensures forall i :: 0 <= i < |FromPairs(ps)| ==> LastWithKey(ps, FromPairs(ps)[i])
    decreases |ps|
  {
    if |ps| > 0 {
      var qs := ps[..|ps| - 1];
      var kv := ps[|ps| - 1];
      FromPairsLast(qs);
      assert ps == qs + [kv];
      FromPairsLastStep(qs, kv);
    }
  }

  /** One more assignment: its key now holds it, and every other entry is still the last pair
      with its key. */
  lemma FromPairsLastStep<K, V>(qs: seq<(K, V)>, kv: (K, V))
    requires forall i :: 0 <= i < |FromPairs(qs)| ==> LastWithKey(qs, FromPairs(qs)[i])
    ensures forall i :: 0 <= i < |FromPairs(qs + [kv])| ==> LastWithKey(qs + [kv], FromPairs(qs + [kv])[i])
  {
    var ps := qs + [kv];
    var d0 := FromPairs(qs);
    var d := FromPairs(ps);
    assert ps[..|ps| - 1] == qs;
    assert d == Assign(d0, kv.0, kv.1);
    forall i | 0 <= i < |d|
      ensures LastWithKey(ps, d[i])
    {
      if d[i].0 == kv.0 {
        assert d[i] == kv && ps[|ps| - 1] == kv;
      } else {
        assert i < |d0| && d[i] == d0[i];
        LastExtends(qs, kv, d0[i]);
      }
    }
  }

  lemma LastExtends<K, V>(qs: seq<(K, V)>, kv: (K, V), e: (K, V))
    requires LastWithKey(qs, e) && e.0 != kv.0
    ensures LastWithKey(qs + [kv], e)
  {
    var j :| 0 <= j < |qs| && qs[j] == e && forall j2 :: j < j2 < |qs| ==> qs[j2].0 != e.0;
    assert (qs + [kv])[j] == e;
  }

  /** A key has selected values exactly when it occurs. */
  lemma {:induction false} SelectNonEmpty<K, V>(xs: seq<(K, V)>, k: K)
    ensures |Select(xs, k)| > 0 <==> k in KeysOf(xs)
    decreases |xs|
  {
    if |xs| > 0 {
      var front := xs[..|xs| - 1];
      SelectNonEmpty(front, k);
      assert KeysOf(xs) == KeysOf(front) + [xs[|xs| - 1].0];
    }
  }
}
