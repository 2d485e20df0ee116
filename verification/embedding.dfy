/**
 * The embedding stage of backend/embedding_generation.py: one TF-IDF vectorizer held in two
 * module globals (`_vectorizer`, `_fitted`), and the records built from the chunk file.
 * The vectorizer is opaque: `fit` stands for `TfidfVectorizer(...).fit(texts)`, returning
 * `None` where scikit-learn raises (an empty vocabulary), and `transform` for
 * `transform([text]).toarray()[0]` on a fitted model.
 */
module Embedding {
  import opened Wrappers
  import opened Records
  import opened ChunkTransport

  /** A `TfidfVectorizer` object: freshly constructed, or fitted to a model `M`. */
  datatype Vectorizer<M> = Unfitted | Fitted(model: M)

  /** The two module globals; `None` means the name is not bound yet. */
  datatype Globals<M> = Globals(vectorizer: Option<Vectorizer<M>>, fitted: Option<bool>)

  /** What can be raised: reading the unbound `_fitted` (a `NameError`), transforming with a
      vectorizer that was never fitted, or fitting on texts that leave no vocabulary. */
  datatype EmbedError = NameError | NotFitted | EmptyVocabulary

  /** A call's outcome together with the globals it leaves behind, also when it raises. */
  datatype Step<M, T> = Step(result: Result<T, EmbedError>, globals: Globals<M>)

  /** The module as first imported: neither global is bound. */
  function Initial<M>(): Globals<M>
  {
    Globals(None, None)
  }

  /** `get_embedding(text)`. */
  function GetEmbedding<M>(g: Globals<M>, text: string,
                           fit: seq<string> -> Option<M>, transform: (M, string) -> seq<real>)
    : (out: Step<M, seq<real>>)
    // a vectorizer that is already marked fitted is used as it is: no refit, no state change
    ensures g.vectorizer.Some? && g.fitted == Some(true) ==> out.globals == g
    ensures g.fitted == Some(true) && g.vectorizer.Some? && g.vectorizer.value.Fitted?
            ==> out.result == Success(transform(g.vectorizer.value.model, text))
    // a first call fits on the one text and marks the vectorizer fitted
    ensures g.vectorizer.None? && fit([text]).Some? ==>
              out == Step(Success(transform(fit([text]).value, text)),
                          Globals(Some(Fitted(fit([text]).value)), Some(true)))
    ensures g.vectorizer.None? && fit([text]).None? ==>
              out == Step(Failure(EmptyVocabulary), Globals(Some(Unfitted), Some(false)))
    // every call that succeeds leaves the globals marked fitted with a fitted vectorizer
    ensures out.result.Success? ==> out.globals.fitted == Some(true) && out.globals.vectorizer.Some?
                                    && out.globals.vectorizer.value.Fitted?
  {
    var g1 := if g.vectorizer.None? then Globals(Some(Unfitted), Some(false)) else g;
    match g1.fitted
    case None => Step(Failure(NameError), g1)
    case Some(false) =>
      (match fit([text])
       case None => Step(Failure(EmptyVocabulary), g1)
       case Some(m) => Step(Success(transform(m, text)), Globals(Some(Fitted(m)), Some(true))))
    case Some(true) =>
      (match g1.vectorizer.value
       case Unfitted => Step(Failure(NotFitted), g1)
       case Fitted(m) => Step(Success(transform(m, text)), g1))
  }

  /** The record `generate_embeddings` writes for chunk `idx`; the `cluster` key is absent. */
  function ChunkRecord(idx: int, chunk: string, embedding: seq<real>): Item
  {
    Item(idx, chunk, embedding, None)
  }

  /** `generate_embeddings` on the chunk file's `content`: parse, fit a new vectorizer on all
      chunks, then embed chunk by chunk through `get_embedding`. */
  method GenerateEmbeddings<M>(content: string, g: Globals<M>,
                               fit: seq<string> -> Option<M>, transform: (M, string) -> seq<real>)
    returns (out: Step<M, seq<Item>>)
    ensures out.result.Failure? <==> fit(ParseChunks(content)).None?
    ensures fit(ParseChunks(content)).None? ==>
              out == Step(Failure(EmptyVocabulary), Globals(Some(Unfitted), g.fitted))
    ensures fit(ParseChunks(content)).Some? ==>
              var m := fit(ParseChunks(content)).value;
              var chunks := ParseChunks(content);
              && out.globals == Globals(Some(Fitted(m)), Some(true))
              && |out.result.value| == |chunks|
              && forall i :: 0 <= i < |chunks| ==>
                   out.result.value[i] == ChunkRecord(i, chunks[i], transform(m, chunks[i]))
  {
    var chunks := ParseChunks(content);
    var reset: Globals<M> := Globals(Some(Unfitted), g.fitted);
    var fitted := fit(chunks);
    if fitted.None? {
      return Step(Failure(EmptyVocabulary), reset);
    }
    var m := fitted.value;
    var state := Globals(Some(Fitted(m)), Some(true));
    var records: seq<Item> := [];
    var idx := 0;
    while idx < |chunks|
      invariant 0 <= idx <= |chunks|
      invariant state == Globals(Some(Fitted(m)), Some(true))
      invariant |records| == idx
      invariant forall i :: 0 <= i < idx ==> records[i] == ChunkRecord(i, chunks[i], transform(m, chunks[i]))
    {
      var step := GetEmbedding(state, chunks[idx], fit, transform);
      // with the globals fitted, `get_embedding` neither raises nor returns `None`,
      // so the skip branch of the source is never taken
      records := records + [ChunkRecord(idx, chunks[idx], step.result.value)];
      state := step.globals;
      idx := idx + 1;
    }
    return Step(Success(records), state);
  }

  lemma TransformWidth<M>(transform: (M, string) -> seq<real>, width: M -> nat, m: M, text: string)
    requires forall m: M, t: string :: |transform(m, t)| == width(m)
    ensures |transform(m, text)| == width(m)
  {
  }

  /** Every embedding of one run has the same length, when the transform's output length
      depends only on the fitted model. */
  lemma UniformWidth<M>(content: string, fit: seq<string> -> Option<M>,
                        transform: (M, string) -> seq<real>, width: M -> nat,
                        records: seq<Item>)
    requires forall m: M, t: string :: |transform(m, t)| == width(m)
    requires fit(ParseChunks(content)).Some?
    requires |records| == |ParseChunks(content)|
    requires forall i :: 0 <= i < |records| ==>
               records[i] == ChunkRecord(i, ParseChunks(content)[i],
                                         transform(fit(ParseChunks(content)).value, ParseChunks(content)[i]))
    ensures forall i, j :: 0 <= i < |records| && 0 <= j < |records| ==>
              |records[i].embedding| == |records[j].embedding|
  {
    var m := fit(ParseChunks(content)).value;
    forall i | 0 <= i < |records|
      ensures |records[i].embedding| == width(m)
    {
      var c := ParseChunks(content)[i];
      assert records[i].embedding == transform(m, c);
      TransformWidth(transform, width, m, c);
    }
  }

  /** A run whose fit raises on the very first import leaves `_vectorizer` bound but `_fitted`
      unbound, so every later `get_embedding` raises a `NameError`. */
  lemma FailedFirstFitPoisons<M>(text: string, fit: seq<string> -> Option<M>,
                                 transform: (M, string) -> seq<real>)
    ensures GetEmbedding(Globals(Some(Unfitted), Initial<M>().fitted), text, fit, transform).result
            == Failure(NameError)
  {
  }

  /** After a run whose fit raises when an earlier run had succeeded, `_fitted` is still true but
      the vectorizer is the fresh one, so every later `get_embedding` raises `NotFitted`. */
  lemma FailedRefitLeavesStaleFlag<M>(text: string, fit: seq<string> -> Option<M>,
                                      transform: (M, string) -> seq<real>)
    ensures GetEmbedding(Globals(Some(Unfitted), Some(true)), text, fit, transform).result == Failure(NotFitted)
  {
  }
}
