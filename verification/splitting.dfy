/**
 * Python's `s.split(sep)` with an explicit separator and its inverse `sep.join(parts)`.
 * The chunker splits on the document marker and the embedding stage splits on the
 * end-of-chunk marker; both rely on the behaviour stated here.
 */
module Splitting {
  import opened Wrappers
  import opened Seqs

  /** `pat` occurs in `s` starting at index `i`. */
  predicate OccursAt<T(==)>(s: seq<T>, pat: seq<T>, i: int)
  {
    0 <= i && i + |pat| <= |s| && s[i..i + |pat|] == pat
  }

  /** Python's `pat in s`. */
  predicate Contains<T(==)>(s: seq<T>, pat: seq<T>)
  {
    exists i | 0 <= i <= |s| :: OccursAt(s, pat, i)
  }

  /** An occurrence inside a slice is an occurrence in the whole sequence. */
  lemma OccursInSlice<T>(s: seq<T>, pat: seq<T>, a: nat, b: nat, j: int)
    requires a <= b <= |s|
    requires OccursAt(s[a..b], pat, j)
    ensures OccursAt(s, pat, a + j)
  {
    var u := s[a..b][j..j + |pat|];
    var v := s[a + j..a + j + |pat|];
    assert |u| == |v|;
    assert forall k :: 0 <= k < |u| ==> u[k] == v[k];
    assert u == v;
  }

  lemma ContainsSlice<T>(s: seq<T>, pat: seq<T>, a: nat, b: nat)
    requires a <= b <= |s|
    requires Contains(s[a..b], pat)
    ensures Contains(s, pat)
  {
    var j :| OccursAt(s[a..b], pat, j);
    OccursInSlice(s, pat, a, b, j);
  }

  /** Leftmost occurrence of `pat` at or after `from`, as `s.find(pat, from)` computes it. */
  function FindFrom<T(==)>(s: seq<T>, pat: seq<T>, from: nat): (r: Option<nat>)
    requires |pat| > 0
    ensures r.Some? ==> from <= r.value && OccursAt(s, pat, r.value)
    ensures r.Some? ==> forall j :: from <= j < r.value ==> !OccursAt(s, pat, j)
    ensures r.None? ==> forall j :: from <= j ==> !OccursAt(s, pat, j)
    decreases |s| - from
  {
    if from + |pat| > |s| then None
    else if s[from..from + |pat|] == pat then Some(from)
    else FindFrom(s, pat, from + 1)
  }

  /** Python's `s.split(sep)`: the pieces between successive leftmost occurrences of `sep`. */
  function Split<T(==)>(s: seq<T>, sep: seq<T>): (parts: seq<seq<T>>)
    requires |sep| > 0
    ensures |parts| >= 1
    ensures forall k :: 0 <= k < |parts| ==> !Contains(parts[k], sep)
    ensures Join(parts, sep) == s
    decreases |s|
  {
    match FindFrom(s, sep, 0)
    case None => [s]
    case Some(i) =>
      var head := s[..i];
      var rest := Split(s[i + |sep|..], sep);
      assert !Contains(head, sep) by {
        forall j | OccursAt(head, sep, j)
          ensures false
        {
          OccursInSlice(s, sep, 0, i, j);
        }
      }
      assert s == head + sep + s[i + |sep|..];
      [head] + rest
  }

  /** One step of `Split`: the piece before the leftmost separator, then the split of the rest. */
  lemma SplitFound<T>(s: seq<T>, sep: seq<T>, i: nat)
    requires |sep| > 0 && FindFrom(s, sep, 0) == Some(i)
    ensures i + |sep| <= |s|
    ensures Split(s, sep) == [s[..i]] + Split(s[i + |sep|..], sep)
  {
  }

  /** A piece `d` followed by the separator meets the separator only at the join:
      no occurrence of `sep` in `d + sep` starts inside `d`. */
  predicate Separable<T(==)>(d: seq<T>, sep: seq<T>)
  {
    forall j :: 0 <= j < |d| ==> !OccursAt(d + sep, sep, j)
  }

  lemma SeparableNotContains<T>(d: seq<T>, sep: seq<T>)
    requires |sep| > 0 && Separable(d, sep)
    ensures !Contains(d, sep)
  {
    forall j | OccursAt(d, sep, j)
      ensures false
    {
      assert (d + sep)[j..j + |sep|] == d[j..j + |sep|];
      assert OccursAt(d + sep, sep, j);
    }
  }

  /** Splitting inverts joining when every piece is separable. */
  lemma {:induction false} SplitJoin<T>(parts: seq<seq<T>>, sep: seq<T>)
    requires |sep| > 0 && |parts| >= 1
    requires forall k :: 0 <= k < |parts| ==> Separable(parts[k], sep)
    ensures Split(Join(parts, sep), sep) == parts
  {
    var d := parts[0];
    SeparableNotContains(d, sep);
    if |parts| == 1 {
      assert FindFrom(d, sep, 0).None?;
    } else {
      var rest := Join(parts[1..], sep);
      var s := d + sep + rest;
      assert Join(parts, sep) == s;
      assert s[|d|..|d| + |sep|] == sep;
      assert OccursAt(s, sep, |d|);
      var r := FindFrom(s, sep, 0);
      assert r.Some?;
      if r.value < |d| {
        var i := r.value;
        assert s[i..i + |sep|] == (d + sep)[i..i + |sep|];
        assert OccursAt(d + sep, sep, i);
        assert false;
      }
      assert r.value == |d|;
      assert s[|d| + |sep|..] == rest;
      assert s[..|d|] == d;
      SplitJoin(parts[1..], sep);
      assert parts == [d] + parts[1..];
    }
  }
}
