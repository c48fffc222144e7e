/** Embedding of chunks (backend/app/core/embedder.py, `embed_chunks`).
    The provider behind `get_embeddings` (a network service with its own
    retry policy) is a function from a batch of texts to its outcome. */
module Embedder {
  import opened Chunks

  /** The batch sent to the provider: the chunks' texts, in order. */
  function Texts(chunks: seq<Chunk>): seq<string> {
    seq(|chunks|, i requires 0 <= i < |chunks| => chunks[i].text)
  }

  /** Vector i written onto chunk i, for as many pairs as there are; a
      surplus of vectors is dropped, a shortfall leaves the remaining chunks
      as they were. Only the embedding changes. */
  function WithVectors(chunks: seq<Chunk>, vectors: seq<Vector>): (r: seq<Chunk>)
    ensures |r| == |chunks|
    ensures forall i :: 0 <= i < |chunks| ==> SameWindow(r[i], chunks[i])
    ensures forall i :: 0 <= i < |chunks| ==>
              r[i].embedding == if i < |vectors| then Some(vectors[i]) else chunks[i].embedding
  {
    if chunks == [] then []
    else if vectors == [] then chunks
    else [chunks[0].(embedding := Some(vectors[0]))] + WithVectors(chunks[1..], vectors[1..])
  }

  /** What embed_chunks leaves in the caller's list for a given provider
      outcome: every chunk in a failure, and the positional merge on
      success. */
  function Embedded(chunks: seq<Chunk>, outcome: ProviderOutcome): seq<Chunk> {
    match outcome
    case Failure => chunks
    case Success(vectors) => WithVectors(chunks, vectors)
  }

  /** embed_chunks, in place on the caller's list. The second result is the
      batch handed to the provider, None when it was not called. An empty
      list is answered with a new empty list; otherwise the list itself is
      returned. A provider failure, and the index error raised when it
      returns more vectors than there are chunks, are both swallowed. */
  method EmbedChunks(chunks: array<Chunk>, provider: seq<string> -> ProviderOutcome)
    returns (r: array<Chunk>, request: Option<seq<string>>)
    modifies chunks
    ensures chunks.Length == 0 ==> fresh(r) && r.Length == 0 && request == None
    ensures chunks.Length > 0 ==> r == chunks && request == Some(Texts(old(chunks[..])))
    ensures chunks[..] == Embedded(old(chunks[..]), provider(Texts(old(chunks[..]))))
  {
    if chunks.Length == 0 {
      r := new Chunk[0];
      request := None;
      return;
    }
    var texts := Texts(chunks[..]);
    request := Some(texts);
    r := chunks;
    var outcome := provider(texts);
    match outcome
    case Failure =>
    case Success(vectors) =>
      var i := 0;
      while i < |vectors|
        invariant 0 <= i <= |vectors| && i <= chunks.Length
        invariant chunks[..] == WithVectors(old(chunks[..]), vectors[..i])
      {
        if i >= chunks.Length {
          break;  // the index error, caught by the handler
        }
        chunks[i] := chunks[i].(embedding := Some(vectors[i]));
        i := i + 1;
      }
  }
}
