/**
 * Character-level string operations the pipeline borrows from Python's `str`:
 * `strip()`, `split()` with no argument, `lower()`, `capitalize()` and `isalpha()`.
 * Python decides these with Unicode tables; this model uses their ASCII part.
 */
module Text {
  import opened Seqs

  /** ASCII whitespace as Python's `str.isspace` sees it: tab..carriage return, the
      four information separators 0x1C..0x1F, and the space. */
  predicate IsSpace(c: char)
  {
    var n := c as int;
    n == 32 || 9 <= n <= 13 || 28 <= n <= 31
  }

  predicate AllSpace(s: string)
  {
    forall i :: 0 <= i < |s| ==> IsSpace(s[i])
  }

  predicate NoSpace(s: string)
  {
    forall i :: 0 <= i < |s| ==> !IsSpace(s[i])
  }

  /** Neither end of the string is whitespace: the fixed points of `strip()`. */
  predicate IsStripped(s: string)
  {
    |s| == 0 || (!IsSpace(s[0]) && !IsSpace(s[|s| - 1]))
  }

  /** Length of the leading whitespace run. */
  function LeadingSpace(s: string): (k: nat)
    ensures k <= |s|
    ensures AllSpace(s[..k])
    ensures k < |s| ==> !IsSpace(s[k])
  {
    if |s| == 0 || !IsSpace(s[0]) then 0
    else
      var k := 1 + LeadingSpace(s[1..]);
      assert s[..k] == [s[0]] + s[1..][..k - 1];
      k
  }

  /** Index where the trailing whitespace run begins. */
  function TrailingStart(s: string): (k: nat)
    ensures k <= |s|
    ensures AllSpace(s[k..])
    ensures k > 0 ==> !IsSpace(s[k - 1])
  {
    if |s| == 0 || !IsSpace(s[|s| - 1]) then |s|
    else
      var k := TrailingStart(s[..|s| - 1]);
      assert s[k..] == s[..|s| - 1][k..] + [s[|s| - 1]];
      k
  }

  /** Python's `s.strip()`: the slice left after removing whitespace from both ends. */
  function Strip(s: string): (r: string)
    ensures IsStripped(r)
    ensures LeadingSpace(s) + |r| <= |s|
    ensures r == s[LeadingSpace(s)..LeadingSpace(s) + |r|]
    ensures AllSpace(s[LeadingSpace(s) + |r|..])
  {
    var a := LeadingSpace(s);
    var t := s[a..];
    var b := TrailingStart(t);
    assert t[..b] == s[a..a + b];
    assert s[a + b..] == t[b..];
    assert b > 0 ==> t[0] == s[a];
    t[..b]
  }

  /** `strip()` leaves nothing exactly when the string is all whitespace. */
  lemma StripEmpty(s: string)
    ensures |Strip(s)| == 0 <==> AllSpace(s)
  {
    var a := LeadingSpace(s);
    if |Strip(s)| == 0 {
      assert s == s[..a] + s[a..];
    }
  }

  /** Whitespace around a stripped core is exactly what `strip()` removes. */
  lemma StripPadded(p: string, x: string, q: string)
    requires AllSpace(p) && AllSpace(q) && IsStripped(x)
    ensures Strip(p + x + q) == x
  {
    var s := p + x + q;
    var r := Strip(s);
    if |x| == 0 {
      assert AllSpace(s);
      StripEmpty(s);
    } else {
      var a := LeadingSpace(s);
      assert s[|p|] == x[0];
      assert forall i :: 0 <= i < |p| ==> s[i] == p[i];
      assert a == |p|;
      assert s[a + |x| - 1] == x[|x| - 1];
      assert |r| == |x|;
      assert r == s[|p|..|p| + |x|];
    }
  }

  lemma StripStripped(x: string)
    requires IsStripped(x)
    ensures Strip(x) == x
  {
    StripPadded([], x, []);
    assert [] + x + [] == x;
  }

  /** Length of the leading run of non-whitespace characters. */
  function WordLength(s: string): (k: nat)
    ensures k <= |s|
    ensures NoSpace(s[..k])
    ensures k < |s| ==> IsSpace(s[k])
  {
    if |s| == 0 || IsSpace(s[0]) then 0
    else
      var k := 1 + WordLength(s[1..]);
      assert s[..k] == [s[0]] + s[1..][..k - 1];
      k
  }

  /** Python's `s.split()` with no argument: the maximal runs of non-whitespace, in order. */
  function Words(s: string): (ws: seq<string>)
    ensures forall i :: 0 <= i < |ws| ==> |ws[i]| > 0 && NoSpace(ws[i])
    decreases |s|
  {
    var a := LeadingSpace(s);
    if a == |s| then []
    else
      var t := s[a..];
      var k := WordLength(t);
      assert k > 0 by {
        assert t[0] == s[a];
      }
      [t[..k]] + Words(t[k..])
  }

  /** A single word splits to itself. */
  lemma WordsOfWord(w: string)
    requires |w| > 0 && NoSpace(w)
    ensures Words(w) == [w]
  {
    assert LeadingSpace(w) == 0;
    var k := WordLength(w);
    assert k == |w|;
    assert w[0..] == w;
    assert w[..k] == w;
    assert Words([]) == [];
  }

  /** A word followed by a space splits off as the first word. */
  lemma WordsCons(w: string, rest: string)
    requires |w| > 0 && NoSpace(w)
    ensures Words(w + " " + rest) == [w] + Words(rest)
  {
    var s := w + " " + rest;
    assert s[0] == w[0];
    assert LeadingSpace(s) == 0;
    assert s[0..] == s;
    assert s[..|w|] == w;
    assert s[|w|] == ' ';
    assert WordLength(s) == |w|;
    var tail := s[|w|..];
    assert tail == " " + rest;
    assert tail[1..] == rest;
    assert LeadingSpace(tail) == 1 + LeadingSpace(rest);
    assert tail[LeadingSpace(tail)..] == rest[LeadingSpace(rest)..];
  }

  /** Splitting space-joined words recovers the words. */
  lemma {:induction false} WordsOfJoin(ws: seq<string>)
    requires forall i :: 0 <= i < |ws| ==> |ws[i]| > 0 && NoSpace(ws[i])
    ensures Words(Join(ws, " ")) == ws
  {
    if |ws| == 1 {
      WordsOfWord(ws[0]);
    } else if |ws| > 1 {
      WordsCons(ws[0], Join(ws[1..], " "));
      WordsOfJoin(ws[1..]);
    }
  }

  /** The contracts of `LeadingSpace` pin it down. */
  lemma {:induction false} LeadingSpaceUnique(s: string, j: nat)
    requires j <= |s| && AllSpace(s[..j]) && (j < |s| ==> !IsSpace(s[j]))
    ensures LeadingSpace(s) == j
  {
    if j > 0 {
      assert s[..j][0] == s[0];
      assert s[1..][..j - 1] == s[..j][1..];
      LeadingSpaceUnique(s[1..], j - 1);
    }
  }

  /** The contracts of `WordLength` pin it down. */
  lemma {:induction false} WordLengthUnique(s: string, j: nat)
    requires j <= |s| && NoSpace(s[..j]) && (j < |s| ==> IsSpace(s[j]))
    ensures WordLength(s) == j
  {
    if j > 0 {
      assert s[..j][0] == s[0];
      assert s[1..][..j - 1] == s[..j][1..];
      WordLengthUnique(s[1..], j - 1);
    }
  }

  /** Leading whitespace adds no words. */
  lemma {:induction false} WordsAfterSpace(sp: string, s: string)
    requires AllSpace(sp)
    ensures Words(sp + s) == Words(s)
  {
    var a := LeadingSpace(s);
    var x := sp + s;
    assert x[..|sp| + a] == sp + s[..a];
    if |sp| + a < |x| {
      assert x[|sp| + a] == s[a];
    }
    LeadingSpaceUnique(x, |sp| + a);
    assert x[|sp| + a..] == s[a..];
  }

  /** When `a` has a word, `a + " " + b` starts with the same leading space and the same first word. */
  lemma {:induction false} FirstWordOfSpaced(a: string, b: string)
    requires LeadingSpace(a) < |a|
    ensures LeadingSpace(a + " " + b) == LeadingSpace(a)
    ensures (a + " " + b)[LeadingSpace(a)..] == a[LeadingSpace(a)..] + " " + b
    ensures WordLength(a[LeadingSpace(a)..] + " " + b) == WordLength(a[LeadingSpace(a)..])
    ensures WordLength(a[LeadingSpace(a)..]) > 0
  {
    var s := a + " " + b;
    var la := LeadingSpace(a);
    assert s[..la] == a[..la];
    assert s[la] == a[la];
    LeadingSpaceUnique(s, la);
    var t := a[la..];
    var k := WordLength(t);
    var u := t + " " + b;
    assert u[..k] == t[..k];
    assert k < |u| && IsSpace(u[k]) by {
      if k < |t| { assert u[k] == t[k]; } else { assert u[k] == ' '; }
    }
    WordLengthUnique(u, k);
    assert t[0] == a[la];
  }

  lemma WordsUnfold(s: string)
    requires LeadingSpace(s) < |s|
    ensures Words(s) == [s[LeadingSpace(s)..][..WordLength(s[LeadingSpace(s)..])]]
                        + Words(s[LeadingSpace(s)..][WordLength(s[LeadingSpace(s)..])..])
  {
  }

  lemma {:induction false} WordsOfSpacedBlank(a: string, b: string)
    requires LeadingSpace(a) == |a|
    ensures Words(a + " " + b) == Words(a) + Words(b)
  {
    assert a[..|a|] == a;
    assert a + " " + b == (a + " ") + b;
    WordsAfterSpace(a + " ", b);
  }

  /** The first word of `a + " " + b` is the first word of `a`, when `a` has one. */
  lemma {:induction false} WordsOfSpacedHead(a: string, b: string)
    requires LeadingSpace(a) < |a|
    ensures WordLength(a[LeadingSpace(a)..]) > 0
    ensures Words(a + " " + b)
         == [a[LeadingSpace(a)..][..WordLength(a[LeadingSpace(a)..])]]
            + Words(a[LeadingSpace(a)..][WordLength(a[LeadingSpace(a)..])..] + " " + b)
  {
    var t := a[LeadingSpace(a)..];
    var k := WordLength(t);
    var u := t + " " + b;
    FirstWordOfSpaced(a, b);
    WordsUnfold(a + " " + b);
    assert u[..k] == t[..k];
    assert u[k..] == t[k..] + " " + b;
  }

  /** Splitting on whitespace distributes over a join with a space. */
  lemma {:induction false} WordsOfSpaced(a: string, b: string)
    ensures Words(a + " " + b) == Words(a) + Words(b)
    decreases |a|, 1
  {
    if LeadingSpace(a) == |a| {
      WordsOfSpacedBlank(a, b);
    } else {
      WordsOfSpacedWord(a, b);
    }
  }

  lemma {:induction false} WordsOfSpacedWord(a: string, b: string)
    requires LeadingSpace(a) < |a|
    ensures Words(a + " " + b) == Words(a) + Words(b)
    decreases |a|, 0
  {
    var t := a[LeadingSpace(a)..];
    var k := WordLength(t);
    var w := t[..k];
    var x := Words(t[k..]);
    var y := Words(b);
    assert k > 0 && Words(a + " " + b) == [w] + Words(t[k..] + " " + b) by {
      WordsOfSpacedHead(a, b);
    }
    assert Words(a) == [w] + x by {
      WordsUnfold(a);
    }
    assert Words(t[k..] + " " + b) == x + y by {
      WordsOfSpaced(t[k..], b);
    }
    ConsAppend(Words(a + " " + b), Words(a), w, x, y);
  }

  lemma ConsAppend<T>(p: seq<T>, q: seq<T>, w: T, x: seq<T>, y: seq<T>)
    requires p == [w] + (x + y) && q == [w] + x
    ensures p == q + y
  {
  }

  /** Splitting space-joined phrases gives the words of the phrases, in order. */
  lemma {:induction false} WordsOfJoinedPhrases(ps: seq<string>)
    ensures Words(Join(ps, " ")) == Concat(Map(ps, Words))
  {
    var m := Map(ps, Words);
    if |ps| == 0 {
      assert Words([]) == [];
      assert m == [];
    } else if |ps| == 1 {
      assert m == [Words(ps[0])];
      ConcatSingle(Words(ps[0]));
    } else {
      assert m[1..] == Map(ps[1..], Words);
      assert Concat(m) == m[0] + Concat(m[1..]);
      assert Words(Join(ps, " ")) == Words(ps[0]) + Words(Join(ps[1..], " ")) by {
        WordsOfSpaced(ps[0], Join(ps[1..], " "));
      }
      WordsOfJoinedPhrases(ps[1..]);
    }
  }

  predicate IsUpper(c: char) { 'A' <= c <= 'Z' }
  predicate IsLower(c: char) { 'a' <= c <= 'z' }
  predicate IsLetter(c: char) { IsUpper(c) || IsLower(c) }

  function LowerChar(c: char): char
  {
    if IsUpper(c) then (c as int + 32) as char else c
  }

  function UpperChar(c: char): char
  {
    if IsLower(c) then (c as int - 32) as char else c
  }

  /** Python's `s.lower()`, restricted to ASCII letters. */
  function Lower(s: string): (r: string)
    ensures |r| == |s|
    ensures forall i :: 0 <= i < |s| ==> r[i] == LowerChar(s[i])
    ensures IsLowerWord(r)
  {
    seq(|s|, i requires 0 <= i < |s| => LowerChar(s[i]))
  }

  /** Python's `s.capitalize()`: first character upper-cased, the rest lower-cased. */
  function Capitalize(s: string): string
  {
    if |s| == 0 then s else [UpperChar(s[0])] + Lower(s[1..])
  }

  /** `capitalize()` keeps the length and changes letters only in case. */
  lemma CapitalizeShape(s: string)
    ensures |Capitalize(s)| == |s|
    ensures forall i :: 0 <= i < |s| ==> LowerChar(Capitalize(s)[i]) == LowerChar(s[i])
    ensures |s| > 0 ==> !IsLower(Capitalize(s)[0])
    ensures forall i :: 0 < i < |s| ==> !IsUpper(Capitalize(s)[i])
  {
  }

  /** Python's `w.isalpha()` for ASCII: non-empty and letters only. */
  predicate IsAlphaWord(w: string)
  {
    |w| > 0 && forall i :: 0 <= i < |w| ==> IsLetter(w[i])
  }

  /** A lower-case ASCII word. */
  predicate IsLowerWord(w: string)
  {
    forall i :: 0 <= i < |w| ==> !IsUpper(w[i])
  }

  /** The words the analysis page keeps: longer than 3 characters and alphabetic. */
  predicate Significant(w: string)
  {
    |w| > 3 && IsAlphaWord(w)
  }

  /** `[w for w in text.split() if len(w) > 3 and w.isalpha()]`. */
  function SignificantWords(text: string): (ws: seq<string>)
    ensures forall i :: 0 <= i < |ws| ==> Significant(ws[i]) && ws[i] in Words(text)
  {
    Filter(Words(text), Significant)
  }

  /** Splitting a lower-case string gives lower-case words. */
  lemma {:induction false} WordsOfLower(s: string)
    requires IsLowerWord(s)
    ensures forall i :: 0 <= i < |Words(s)| ==> IsLowerWord(Words(s)[i])
    decreases |s|
  {
    var a := LeadingSpace(s);
    if a < |s| {
      var t := s[a..];
      var k := WordLength(t);
      assert Words(s) == [t[..k]] + Words(t[k..]);
      assert t[k..] == s[a + k..];
      WordsOfLower(t[k..]);
      forall i | 0 <= i < |Words(s)|
        ensures IsLowerWord(Words(s)[i])
      {
        if i > 0 {
          assert Words(s)[i] == Words(t[k..])[i - 1];
        }
      }
    }
  }

  /** Joining lower-case parts with a lower-case separator gives a lower-case string. */
  lemma {:induction false} JoinLower(parts: seq<string>, sep: string)
    requires forall i :: 0 <= i < |parts| ==> IsLowerWord(parts[i])
    requires IsLowerWord(sep)
    ensures IsLowerWord(Join(parts, sep))
  {
    if |parts| > 1 {
      JoinLower(parts[1..], sep);
      var rest := Join(parts[1..], sep);
      var j := parts[0] + sep + rest;
      assert Join(parts, sep) == j;
      forall i | 0 <= i < |j|
        ensures !IsUpper(j[i])
      {
        if i < |parts[0]| {
          assert j[i] == parts[0][i];
        } else if i < |parts[0]| + |sep| {
          assert j[i] == sep[i - |parts[0]|];
        } else {
          assert j[i] == rest[i - |parts[0]| - |sep|];
        }
      }
    }
  }
}
