/** Values shared by the chunker, the embedder and the retriever.

    A chunk is a dictionary in the system (keys "text", "file_path", "start",
    "end" and, once embedded, "embedding"); here it is a record whose optional
    embedding distinguishes "no embedding key" (None) from "an embedding that
    happens to be empty" (Some([])). */
module Chunks {

  datatype Option<+T> = None | Some(value: T)

  /** An embedding vector (floating point in the system, reals here). */
  type Vector = seq<real>

  datatype Chunk = Chunk(
    text: string,
    filePath: string,
    start: int,
    end: int,
    embedding: Option<Vector>)

  /** What the embedding provider answered for one batch of texts: the
      vectors it returned, or a failure (an exception in the system). */
  datatype ProviderOutcome = Success(vectors: seq<Vector>) | Failure

  /** The two chunks describe the same window of the same file, whatever
      their embeddings. */
  predicate SameWindow(a: Chunk, b: Chunk) {
    a.text == b.text && a.filePath == b.filePath && a.start == b.start && a.end == b.end
  }

  function Min(a: int, b: int): int {
    if a <= b then a else b
  }
}
