/**
 * The chunk file between the chunker and the embedding stage: the writer at
 * backend/text_chunking.py:26-27 and the parser at backend/embedding_generation.py:41.
 */
module ChunkTransport {
  import opened Wrappers
  import opened Seqs
  import opened Text
  import opened Splitting

  const ChunkEndMarker: string := "---CHUNK END---"

  /** What the chunker writes: each chunk stripped, then the end marker on a line of its own. */
  function Serialise(chunks: seq<string>): string
  {
    if |chunks| == 0 then []
    else Strip(chunks[0]) + "\n" + ChunkEndMarker + "\n" + Serialise(chunks[1..])
  }

  /** `[c.strip() for c in parts if c.strip()]`. */
  function KeepStripped(parts: seq<string>): (r: seq<string>)
    ensures |r| <= |parts|
    ensures forall i :: 0 <= i < |r| ==> |r[i]| > 0 && IsStripped(r[i])
  {
    if |parts| == 0 then []
    else (if |Strip(parts[0])| > 0 then [Strip(parts[0])] else []) + KeepStripped(parts[1..])
  }

  /** Stripping never creates an occurrence of a pattern. */
  lemma StripAvoids(s: string, pat: string)
    requires !Contains(s, pat)
    ensures !Contains(Strip(s), pat)
  {
    var a := LeadingSpace(s);
    var r := Strip(s);
    if Contains(r, pat) {
      ContainsSlice(s, pat, a, a + |r|);
    }
  }

  lemma {:induction false} KeepStrippedAvoids(parts: seq<string>, pat: string)
    requires forall k :: 0 <= k < |parts| ==> !Contains(parts[k], pat)
    ensures forall i :: 0 <= i < |KeepStripped(parts)| ==> !Contains(KeepStripped(parts)[i], pat)
  {
    if |parts| > 0 {
      StripAvoids(parts[0], pat);
      KeepStrippedAvoids(parts[1..], pat);
    }
  }

  /** The parse at line 41: split on the end marker, strip, drop empty pieces. */
  function ParseChunks(content: string): (chunks: seq<string>)
    ensures forall i :: 0 <= i < |chunks| ==> |chunks[i]| > 0 && IsStripped(chunks[i])
    ensures forall i :: 0 <= i < |chunks| ==> !Contains(chunks[i], ChunkEndMarker)
  {
    var parts := Split(content, ChunkEndMarker);
    KeepStrippedAvoids(parts, ChunkEndMarker);
    KeepStripped(parts)
  }

  /** The pieces `Split` finds in `p + Serialise(cs)`. */
  function Pieces(p: string, cs: seq<string>): seq<string>
    decreases |cs|
  {
    if |cs| == 0 then [p]
    else [p + Strip(cs[0]) + "\n"] + Pieces("\n", cs[1..])
  }

  lemma MarkerHasNoNewline()
    ensures |ChunkEndMarker| == 15
    ensures forall i :: 0 <= i < |ChunkEndMarker| ==> ChunkEndMarker[i] != '\n'
  {
  }

  /** An occurrence lying inside `[a, b)` is an occurrence in the slice `s[a..b]`. */
  lemma OccursWithin(s: string, pat: string, a: nat, b: nat, j: int)
    requires a <= j && j + |pat| <= b <= |s|
    requires OccursAt(s, pat, j)
    ensures OccursAt(s[a..b], pat, j - a)
  {
    var u := s[a..b][j - a..j - a + |pat|];
    var v := s[j..j + |pat|];
    assert |u| == |v|;
    assert forall k :: 0 <= k < |u| ==> u[k] == v[k];
    assert u == v;
  }

  /** No end marker starts before the one written right after a marker-free chunk. */
  lemma NoEarlyMarker(p: string, x: string, tail: string, j: int)
    requires p == "" || p == "\n"
    requires !Contains(x, ChunkEndMarker)
    requires 0 <= j < |p| + |x| + 1
    ensures !OccursAt(p + x + "\n" + ChunkEndMarker + tail, ChunkEndMarker, j)
  {
    var m := ChunkEndMarker;
    var s := p + x + "\n" + m + tail;
    var q := |p| + |x|;
    MarkerHasNoNewline();
    if j + |m| <= |s| {
      var w := s[j..j + |m|];
      if j < |p| {
        assert w[0] == s[j] == p[j];
        assert w[0] != m[0];
      } else if j + |m| <= q {
        var i := j - |p|;
        assert !OccursAt(x, m, i);
        assert w == x[i..i + |m|] by {
          forall k | 0 <= k < |m|
            ensures w[k] == x[i + k]
          {
            assert w[k] == s[j + k];
          }
        }
      } else {
        assert w[q - j] == s[q] == '\n';
        assert w[q - j] != m[q - j];
      }
    }
  }

  lemma FirstMarker(p: string, x: string, tail: string)
    requires p == "" || p == "\n"
    requires !Contains(x, ChunkEndMarker)
    ensures FindFrom(p + x + "\n" + ChunkEndMarker + tail, ChunkEndMarker, 0) == Some(|p| + |x| + 1)
  {
    var m := ChunkEndMarker;
    var s := p + x + "\n" + m + tail;
    var idx := |p| + |x| + 1;
    assert s[idx..idx + |m|] == m;
    assert OccursAt(s, m, idx);
    var r := FindFrom(s, m, 0);
    if r.value < idx {
      NoEarlyMarker(p, x, tail, r.value);
    }
  }

  /** Splitting at the marker written after a marker-free chunk cuts exactly there. */
  lemma SplitAfterChunk(p: string, x: string, tail: string)
    requires p == "" || p == "\n"
    requires !Contains(x, ChunkEndMarker)
    ensures Split(p + x + "\n" + ChunkEndMarker + tail, ChunkEndMarker)
         == [p + x + "\n"] + Split(tail, ChunkEndMarker)
  {
    var m := ChunkEndMarker;
    var s := p + x + "\n" + m + tail;
    var idx := |p| + |x| + 1;
    FirstMarker(p, x, tail);
    SplitFound(s, m, idx);
    assert s[..idx] == p + x + "\n";
    assert s[idx + |m|..] == tail;
  }

  lemma {:induction false} SplitSerialised(p: string, cs: seq<string>)
    requires p == "" || p == "\n"
    requires forall k :: 0 <= k < |cs| ==> !Contains(cs[k], ChunkEndMarker)
    ensures Split(p + Serialise(cs), ChunkEndMarker) == Pieces(p, cs)
    decreases |cs|
  {
    if |cs| == 0 {
      SplitNothing(p);
    } else {
      SplitSerialised("\n", cs[1..]);
      SplitOneChunk(p, cs);
    }
  }

  /** With no chunk, only the lead-in is left and it holds no marker. */
  lemma SplitNothing(p: string)
    requires p == "" || p == "\n"
    ensures Split(p + Serialise([]), ChunkEndMarker) == Pieces(p, [])
  {
    assert p + Serialise([]) == p;
    assert FindFrom(p, ChunkEndMarker, 0).None?;
  }

  /** The first chunk becomes the first piece, the rest are split as before. */
  lemma SplitOneChunk(p: string, cs: seq<string>)
    requires p == "" || p == "\n"
    requires |cs| > 0 && !Contains(cs[0], ChunkEndMarker)
    requires Split("\n" + Serialise(cs[1..]), ChunkEndMarker) == Pieces("\n", cs[1..])
    ensures Split(p + Serialise(cs), ChunkEndMarker) == Pieces(p, cs)
  {
    var x := Strip(cs[0]);
    var tail := "\n" + Serialise(cs[1..]);
    assert Serialise(cs) == x + "\n" + ChunkEndMarker + "\n" + Serialise(cs[1..]);
    Regroup(p, x, "\n", ChunkEndMarker, Serialise(cs[1..]));
    StripAvoids(cs[0], ChunkEndMarker);
    SplitAfterChunk(p, x, tail);
  }

  lemma Regroup<T>(p: seq<T>, x: seq<T>, nl: seq<T>, m: seq<T>, rest: seq<T>)
    ensures p + (x + nl + m + nl + rest) == p + x + nl + m + (nl + rest)
  {
  }

  lemma {:induction false} KeepStrippedPieces(p: string, cs: seq<string>)
    requires AllSpace(p)
    ensures KeepStripped(Pieces(p, cs)) == KeepStripped(cs)
    decreases |cs|
  {
    if |cs| == 0 {
      StripEmpty(p);
      assert KeepStripped([p]) == [];
    } else {
      var x := Strip(cs[0]);
      StripPadded(p, x, "\n");
      var ps := Pieces(p, cs);
      assert ps[0] == p + x + "\n";
      assert ps[1..] == Pieces("\n", cs[1..]);
      KeepStrippedPieces("\n", cs[1..]);
    }
  }

  lemma ParsePieces(text: string, cs: seq<string>)
    requires Split(text, ChunkEndMarker) == Pieces("", cs)
    ensures ParseChunks(text) == KeepStripped(cs)
  {
    KeepStrippedPieces("", cs);
  }

  /** Parsing what the chunker wrote gives back its chunks, stripped, with the empty ones dropped,
      provided no chunk contains the end marker. */
  lemma {:induction false} ParseSerialised(chunks: seq<string>)
    requires forall k :: 0 <= k < |chunks| ==> !Contains(chunks[k], ChunkEndMarker)
    ensures ParseChunks(Serialise(chunks)) == KeepStripped(chunks)
  {
    var text := Serialise(chunks);
    assert "" + text == text;
    SplitSerialised("", chunks);
    ParsePieces(text, chunks);
  }

  lemma {:induction false} PiecesCount(p: string, cs: seq<string>)
    ensures |Pieces(p, cs)| == |cs| + 1
    decreases |cs|
  {
    if |cs| > 0 {
      PiecesCount("\n", cs[1..]);
    }
  }

  /** The serialised form holds exactly one end marker per chunk. */
  lemma {:induction false} OneMarkerPerChunk(chunks: seq<string>)
    requires forall k :: 0 <= k < |chunks| ==> !Contains(chunks[k], ChunkEndMarker)
    ensures |Split(Serialise(chunks), ChunkEndMarker)| == |chunks| + 1
  {
    SplitSerialised("", chunks);
    assert "" + Serialise(chunks) == Serialise(chunks);
    PiecesCount("", chunks);
  }
}
