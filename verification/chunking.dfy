/**
 * The chunker (backend/text_chunking.py): fixed-width splitting of each document
 * of the extracted text, after splitting that text on the document marker.
 */
module Chunking {
  import opened Seqs
  import opened Splitting

  /** The literal written between documents by the extraction stage. */
  const DocumentMarker: string := "\n\n=== NEW DOCUMENT ===\n\n"
  const DefaultMaxChars: int := 4000

  /** Chunks of `text`: consecutive slices of `maxChars` characters, the last possibly shorter.
      With `maxChars <= 0` the source loop never advances, so only empty text is admitted then. */
  function Chunks(text: string, maxChars: int): (cs: seq<string>)
    requires maxChars > 0 || |text| == 0
    ensures Concat(cs) == text
    ensures forall i :: 0 <= i < |cs| ==> 0 < |cs[i]| <= maxChars
    ensures forall i :: 0 <= i < |cs| - 1 ==> |cs[i]| == maxChars
    ensures |text| == 0 ==> |cs| == 0
    decreases |text|
  {
    if |text| == 0 then []
    else if |text| <= maxChars then
      ConcatSingle(text);
      [text]
    else
      var rest := Chunks(text[maxChars..], maxChars);
      ConcatCons(text[..maxChars], rest);
      assert text == text[..maxChars] + text[maxChars..];
      [text[..maxChars]] + rest
  }

  /** There are `ceil(len(text) / maxChars)` chunks. */
  lemma {:induction false} ChunksCount(text: string, maxChars: int)
    requires maxChars > 0
    ensures |Chunks(text, maxChars)| == CeilDiv(|text|, maxChars)
    decreases |text|
  {
    if |text| > maxChars {
      ChunksCount(text[maxChars..], maxChars);
      CeilDivStep(|text|, maxChars);
    } else if |text| > 0 {
      CeilDivSmall(|text|, maxChars);
    }
  }

  /** `ceil(n / m)` for a positive `m`. */
  function CeilDiv(n: nat, m: int): nat
    requires m > 0
  {
    (n + m - 1) / m
  }

  lemma CeilDivStep(n: nat, m: int)
    requires m > 0 && n > m
    ensures CeilDiv(n, m) == 1 + CeilDiv(n - m, m)
  {
    var a := n - 1;
    DivUnique(a + m, m, a / m + 1, a % m);
  }

  lemma CeilDivSmall(n: nat, m: int)
    requires m > 0 && 0 < n <= m
    ensures CeilDiv(n, m) == 1
  {
    DivUnique(n + m - 1, m, 1, n - 1);
  }

  /** Euclidean division is determined by quotient and remainder. */
  lemma DivUnique(n: int, m: int, q: int, r: int)
    requires m > 0 && 0 <= r < m && n == q * m + r
    ensures n / m == q
  {
    var q' := n / m;
    var r' := n % m;
    assert (q' - q) * m == r - r';
    if q' > q {
      MulAtLeast(q' - q, m);
    } else if q' < q {
      MulAtLeast(q - q', m);
    }
  }

  lemma MulAtLeast(a: int, m: int)
    requires a >= 1 && m > 0
    ensures a * m >= m
  {
  }

  /** `chunk_text`: the `start`-indexed loop, with Python's clamping slice `text[start:start+max_chars]`. */
  method ChunkText(text: string, maxChars: int) returns (chunks: seq<string>)
    requires maxChars > 0 || |text| == 0
    ensures chunks == Chunks(text, maxChars)
  {
    chunks := [];
    var start := 0;
    while start < |text|
      invariant 0 <= start
      invariant Progress(text, start, maxChars, chunks)
      decreases |text| - start
    {
      var stop := Min(start + maxChars, |text|);
      var next := chunks + [text[start..stop]];
      LoopStep(text, start, maxChars, chunks, next);
      chunks := next;
      start := start + maxChars;
    }
    assert text[Min(start, |text|)..] == [];
  }

  /** `done` are the chunks before `start`: together with the chunks of the rest they make up
      all of the text's chunks. */
  predicate Progress(text: string, start: nat, maxChars: int, done: seq<string>)
    requires maxChars > 0 || |text| == 0
  {
    done + Chunks(text[Min(start, |text|)..], maxChars) == Chunks(text, maxChars)
  }

  /** The loop invariant of `ChunkText` survives one iteration. */
  lemma LoopStep(text: string, start: nat, maxChars: int, chunks: seq<string>, next: seq<string>)
    requires 0 <= start < |text| && maxChars > 0
    requires Progress(text, start, maxChars, chunks)
    requires next == chunks + [text[start..Min(start + maxChars, |text|)]]
    ensures Progress(text, start + maxChars, maxChars, next)
  {
    var stop := Min(start + maxChars, |text|);
    assert Min(start, |text|) == start;
    ChunksStep(text, start, maxChars);
    ShiftOne(chunks, Chunks(text, maxChars), Chunks(text[start..], maxChars), text[start..stop],
             Chunks(text[stop..], maxChars));
  }

  /** Moving the head of the remainder onto the done part keeps the whole. */
  lemma ShiftOne<T>(done: seq<T>, whole: seq<T>, rest: seq<T>, x: T, tail: seq<T>)
    requires done + rest == whole && rest == [x] + tail
    ensures (done + [x]) + tail == whole
  {
  }

  /** One iteration of the loop peels exactly the first chunk off the remaining text. */
  lemma ChunksStep(text: string, start: nat, maxChars: int)
    requires 0 <= start < |text| && maxChars > 0
    ensures Chunks(text[start..], maxChars)
      == [text[start..Min(start + maxChars, |text|)]] + Chunks(text[Min(start + maxChars, |text|)..], maxChars)
  {
    var rest := text[start..];
    var stop := Min(start + maxChars, |text|);
    assert rest[..stop - start] == text[start..stop];
    assert rest[stop - start..] == text[stop..];
    if |rest| <= maxChars {
      assert text[stop..] == [];
    }
  }

  /** The example of a 9000-character text cut at 4000. */
  lemma NineThousandCharacters(text: string)
    requires |text| == 9000
    ensures |Chunks(text, 4000)| == 3
    ensures |Chunks(text, 4000)[0]| == 4000 && |Chunks(text, 4000)[1]| == 4000
    ensures |Chunks(text, 4000)[2]| == 1000
  {
    var cs := Chunks(text, 4000);
    var r1 := Chunks(text[4000..], 4000);
    var r2 := Chunks(text[4000..][4000..], 4000);
    assert cs == [text[..4000]] + r1;
    assert r1 == [text[4000..][..4000]] + r2;
    assert r2 == [text[4000..][4000..]];
  }

  /** Chunk every document separately and concatenate the results. */
  function ChunkDocuments(docs: seq<string>, maxChars: int): (cs: seq<string>)
    requires maxChars > 0
    ensures Concat(cs) == Concat(docs)
    ensures forall i :: 0 <= i < |cs| ==> 0 < |cs[i]| <= maxChars
    ensures |cs| == ChunkCount(docs, maxChars)
  {
    if |docs| == 0 then []
    else
      var head := Chunks(docs[0], maxChars);
      var rest := ChunkDocuments(docs[1..], maxChars);
      ConcatAppend(head, rest);
      ChunksCount(docs[0], maxChars);
      head + rest
  }

  /** Sum over the documents of `ceil(len(doc) / maxChars)`. */
  function ChunkCount(docs: seq<string>, maxChars: int): nat
    requires maxChars > 0
  {
    if |docs| == 0 then 0
    else CeilDiv(|docs[0]|, maxChars) + ChunkCount(docs[1..], maxChars)
  }

  /** `chunk_all_texts` without its file I/O: split on the document marker, chunk each part. */
  function ChunkAllTexts(fullText: string, maxChars: int): (cs: seq<string>)
    requires maxChars > 0
    ensures Concat(cs) == Concat(Split(fullText, DocumentMarker))
    ensures |cs| == ChunkCount(Split(fullText, DocumentMarker), maxChars)
    ensures forall i :: 0 <= i < |cs| ==> 0 < |cs[i]| <= maxChars
  {
    ChunkDocuments(Split(fullText, DocumentMarker), maxChars)
  }

  /** No chunk spans a document boundary: chunking the joined documents is chunking
      each document on its own, whenever each document is separable from the marker. */
  lemma ChunkAllOfJoined(docs: seq<string>, maxChars: int)
    requires maxChars > 0 && |docs| >= 1
    requires forall k :: 0 <= k < |docs| ==> Separable(docs[k], DocumentMarker)
    ensures ChunkAllTexts(Join(docs, DocumentMarker), maxChars) == ChunkDocuments(docs, maxChars)
    ensures |ChunkAllTexts(Join(docs, DocumentMarker), maxChars)| == ChunkCount(docs, maxChars)
  {
    SplitJoin(docs, DocumentMarker);
  }

  /** A document that merely avoids the marker is not enough for the round trip: one that
      ends in the marker minus its last newline makes the marker match one character early. */
  const NearMissDocs: seq<string> := ["x" + DocumentMarker[..23], "y"]

  lemma MarkerFreeIsNotEnough()
    ensures forall k :: 0 <= k < |NearMissDocs| ==> !Contains(NearMissDocs[k], DocumentMarker)
    ensures Split(Join(NearMissDocs, DocumentMarker), DocumentMarker) != NearMissDocs
  {
    NearMissAvoidsMarker();
    NearMissSplitsEarly();
  }

  lemma NearMissAvoidsMarker()
    ensures forall k :: 0 <= k < |NearMissDocs| ==> !Contains(NearMissDocs[k], DocumentMarker)
  {
    var docs := NearMissDocs;
    assert |DocumentMarker| == 24;
    assert !Contains(docs[0], DocumentMarker) by {
      assert |docs[0]| == |DocumentMarker|;
      assert docs[0][0] != DocumentMarker[0];
      assert docs[0] != DocumentMarker;
    }
    assert !Contains(docs[1], DocumentMarker);
  }

  lemma NearMissSplitsEarly()
    ensures Split(Join(NearMissDocs, DocumentMarker), DocumentMarker) != NearMissDocs
  {
    var docs := NearMissDocs;
    var joined := Join(docs, DocumentMarker);
    assert docs[1..] == ["y"];
    assert Join(["y"], DocumentMarker) == "y";
    assert joined == docs[0] + DocumentMarker + "y";
    assert |DocumentMarker| == 24;
    assert joined[1..25] == DocumentMarker[..23] + DocumentMarker[..1];
    assert DocumentMarker[..1] == DocumentMarker[23..];
    assert DocumentMarker[..23] + DocumentMarker[23..] == DocumentMarker;
    assert OccursAt(joined, DocumentMarker, 1);
    var r := FindFrom(joined, DocumentMarker, 0);
    assert r.Some? && r.value <= 1;
    assert |Split(joined, DocumentMarker)[0]| <= 1;
  }
}
