/** The in-memory vector store of one repository (backend/app/core/retriever.py).
    The store keeps two index-aligned lists, the chunks and their embedding
    vectors; the embedder it owns is reached through the provider function
    passed to each call, and cosine similarity is the `sim` parameter. */
module Retrieval {
  import opened Chunks
  import opened Embedder
  import opened Ranking

  /** get_relevant_chunks' defaults for `top_k` and `min_similarity`. */
  const DefaultTopK := 3
  const DefaultMinSimilarity := 0.7

  /** A query result: a copy of a stored chunk with its score attached. */
  datatype ScoredChunk = ScoredChunk(chunk: Chunk, score: real)

  /** A query either answers, or fails because the query embedding could
      not be obtained (the provider failed, or returned no vector); that
      failure is not caught in the source and reaches the caller. */
  datatype QueryOutcome = Answer(results: seq<ScoredChunk>) | QueryFailure

  /** The embeddings-list entry for a chunk: its embedding, or [] without one. */
  function EmbeddingOf(c: Chunk): Vector {
    match c.embedding
    case Some(v) => v
    case None => []
  }

  function EmbeddingsOf(cs: seq<Chunk>): seq<Vector> {
    seq(|cs|, i requires 0 <= i < |cs| => EmbeddingOf(cs[i]))
  }

  /** The two lists are index-aligned: the same length, and each stored
      vector is the embedding its chunk carried when it was added. */
  predicate Aligned(chunks: seq<Chunk>, embeddings: seq<Vector>) {
    |chunks| == |embeddings| && forall i :: 0 <= i < |chunks| ==> embeddings[i] == EmbeddingOf(chunks[i])
  }

  /** The chunks that have no embedding, in their order. */
  function Unembedded(cs: seq<Chunk>): (r: seq<Chunk>)
    ensures |r| <= |cs|
    ensures forall c :: c in r ==> c in cs && c.embedding == None
  {
    if cs == [] then []
    else (if cs[0].embedding == None then [cs[0]] else []) + Unembedded(cs[1..])
  }

  /** Put the `embedded` chunks, in order, back at the positions of `cs`
      that had no embedding; the other positions keep their chunk. In the
      source these are the very dictionaries the embedder updated. */
  function MergeBack(cs: seq<Chunk>, embedded: seq<Chunk>): (r: seq<Chunk>)
    requires |embedded| == |Unembedded(cs)|
    ensures |r| == |cs|
    ensures forall i :: 0 <= i < |cs| && cs[i].embedding != None ==> r[i] == cs[i]
  {
    if cs == [] then []
    else if cs[0].embedding == None then [embedded[0]] + MergeBack(cs[1..], embedded[1..])
    else [cs[0]] + MergeBack(cs[1..], embedded)
  }

  /** Merging the unembedded chunks back unchanged gives the input back. */
  lemma {:induction false} MergeBackUnchanged(cs: seq<Chunk>)
    ensures MergeBack(cs, Unembedded(cs)) == cs
  {
    if cs != [] {
      MergeBackUnchanged(cs[1..]);
      if cs[0].embedding == None {
        assert Unembedded(cs) == [cs[0]] + Unembedded(cs[1..]);
      } else {
        assert Unembedded(cs) == Unembedded(cs[1..]);
      }
      assert cs == [cs[0]] + cs[1..];
    }
  }

  /** By position: the chunk at a position without an embedding is replaced
      by the embedded chunk with the same rank among the unembedded ones. */
  lemma {:induction false} MergeBackAt(cs: seq<Chunk>, embedded: seq<Chunk>, i: nat)
    requires |embedded| == |Unembedded(cs)|
    requires i < |cs| && cs[i].embedding == None
    ensures |Unembedded(cs[..i])| < |embedded|
    ensures MergeBack(cs, embedded)[i] == embedded[|Unembedded(cs[..i])|]
  {
    UnembeddedBefore(cs, i);
    if i > 0 {
      var rest := cs[1..];
      assert rest[..i - 1] == cs[1..i];
      assert (cs[..i])[0] == cs[0] && (cs[..i])[1..] == cs[1..i];
      if cs[0].embedding == None {
        assert Unembedded(cs[..i]) == [cs[0]] + Unembedded(cs[1..i]);
        MergeBackAt(rest, embedded[1..], i - 1);
        assert MergeBack(cs, embedded)[i] == MergeBack(rest, embedded[1..])[i - 1];
      } else {
        assert Unembedded(cs[..i]) == Unembedded(cs[1..i]);
        MergeBackAt(rest, embedded, i - 1);
        assert MergeBack(cs, embedded)[i] == MergeBack(rest, embedded)[i - 1];
      }
    }
  }

  /** A position without an embedding has fewer unembedded chunks before it
      than there are in all. */
  lemma UnembeddedBefore(cs: seq<Chunk>, i: nat)
    requires i < |cs| && cs[i].embedding == None
    ensures |Unembedded(cs[..i])| < |Unembedded(cs)|
  {
    assert cs[..i + 1] == cs[..i] + [cs[i]];
    UnembeddedAppend(cs[..i], cs[i]);
    UnembeddedPrefix(cs, i + 1);
  }

  lemma {:induction false} UnembeddedAppend(cs: seq<Chunk>, c: Chunk)
    ensures Unembedded(cs + [c]) == Unembedded(cs) + (if c.embedding == None then [c] else [])
  {
    if cs == [] {
      assert [c][1..] == [];
    } else {
      var t := cs[1..];
      var head := if cs[0].embedding == None then [cs[0]] else [];
      var last := if c.embedding == None then [c] else [];
      assert (cs + [c])[0] == cs[0] && (cs + [c])[1..] == t + [c];
      assert Unembedded(cs + [c]) == head + Unembedded(t + [c]);
      UnembeddedAppend(t, c);
      assert Unembedded(cs) == head + Unembedded(t);
      assert head + (Unembedded(t) + last) == (head + Unembedded(t)) + last;
    }
  }

  lemma {:induction false} UnembeddedPrefix(cs: seq<Chunk>, n: nat)
    requires n <= |cs|
    ensures |Unembedded(cs[..n])| <= |Unembedded(cs)|
    decreases |cs| - n
  {
    if n < |cs| {
      assert cs[..n + 1] == cs[..n] + [cs[n]];
      UnembeddedAppend(cs[..n], cs[n]);
      UnembeddedPrefix(cs, n + 1);
    } else {
      assert cs[..n] == cs;
    }
  }

  /** Pairwise the same windows. */
  predicate SameWindows(a: seq<Chunk>, b: seq<Chunk>) {
    |a| == |b| && forall k :: 0 <= k < |a| ==> SameWindow(a[k], b[k])
  }

  /** Merging back preserves every window (text, path and offsets) when the
      embedded chunks are the unembedded ones with embeddings added. */
  lemma {:induction false} MergeBackKeepsWindows(cs: seq<Chunk>, embedded: seq<Chunk>)
    requires |embedded| == |Unembedded(cs)|
    requires SameWindows(embedded, Unembedded(cs))
    ensures SameWindows(MergeBack(cs, embedded), cs)
  {
    if cs != [] {
      var r := MergeBack(cs, embedded);
      if cs[0].embedding == None {
        var u := Unembedded(cs[1..]);
        assert Unembedded(cs) == [cs[0]] + u;
        assert SameWindows(embedded[1..], u) by {
          forall k | 0 <= k < |u| ensures SameWindow(embedded[1..][k], u[k]) {
            assert embedded[1..][k] == embedded[k + 1];
            assert SameWindow(embedded[k + 1], Unembedded(cs)[k + 1]);
          }
        }
        MergeBackKeepsWindows(cs[1..], embedded[1..]);
        assert r == [embedded[0]] + MergeBack(cs[1..], embedded[1..]);
        assert SameWindow(embedded[0], Unembedded(cs)[0]);
      } else {
        assert Unembedded(cs) == Unembedded(cs[1..]);
        MergeBackKeepsWindows(cs[1..], embedded);
        assert r == [cs[0]] + MergeBack(cs[1..], embedded);
      }
      forall k | 0 < k < |cs| ensures SameWindow(r[k], cs[k]) {
        assert r[k] == r[1..][k - 1] && cs[k] == cs[1..][k - 1];
      }
    }
  }

  /** When every embedded chunk carries an embedding, no chunk of the merge
      lacks one: adding the same chunks again sends nothing to the provider. */
  lemma {:induction false} MergeBackComplete(cs: seq<Chunk>, embedded: seq<Chunk>)
    requires |embedded| == |Unembedded(cs)|
    requires forall k :: 0 <= k < |embedded| ==> embedded[k].embedding != None
    ensures Unembedded(MergeBack(cs, embedded)) == []
  {
    if cs != [] {
      if cs[0].embedding == None {
        MergeBackComplete(cs[1..], embedded[1..]);
      } else {
        MergeBackComplete(cs[1..], embedded);
      }
    }
  }

  /** What add_chunks leaves in the caller's list, for the provider's
      answer to the batch of unembedded texts. */
  function AfterAdd(cs: seq<Chunk>, outcome: ProviderOutcome): seq<Chunk> {
    MergeBack(cs, Embedded(Unembedded(cs), outcome))
  }

  /** add_chunks keeps every window; a provider failure leaves the chunks as
      they were; a provider that answers with a vector for every unembedded
      chunk leaves none unembedded, so adding the result again makes no
      provider call. */
  lemma AfterAddFacts(cs: seq<Chunk>, outcome: ProviderOutcome)
    ensures var r := AfterAdd(cs, outcome);
            |r| == |cs| &&
            (forall i :: 0 <= i < |cs| ==> SameWindow(r[i], cs[i])) &&
            (outcome == Failure ==> r == cs) &&
            (outcome.Success? && |outcome.vectors| >= |Unembedded(cs)| ==> Unembedded(r) == [])
  {
    var u := Unembedded(cs);
    assert SameWindows(Embedded(u, outcome), u);
    MergeBackKeepsWindows(cs, Embedded(u, outcome));
    if outcome == Failure {
      MergeBackUnchanged(cs);
    } else if |outcome.vectors| >= |u| {
      MergeBackComplete(cs, Embedded(u, outcome));
    }
  }

  /** The stored copies of the chosen pairs, each with its score. */
  function Results(chunks: seq<Chunk>, hits: seq<Hit>): seq<ScoredChunk>
    requires InRange(chunks, hits)
  {
    seq(|hits|, i requires 0 <= i < |hits| => ScoredChunk(chunks[hits[i].index], hits[i].score))
  }

  /** The outcome of get_relevant_chunks on a non-empty store, given what
      the provider answered for the query text. */
  function QueryAnswer(chunks: seq<Chunk>, embeddings: seq<Vector>, response: ProviderOutcome,
                       topK: nat, minSimilarity: real, sim: (Vector, Vector) -> real): QueryOutcome
    requires |chunks| == |embeddings|
  {
    match response
    case Failure => QueryFailure
    case Success(vectors) =>
      if vectors == [] then QueryFailure
      else
        RelevantSound(embeddings, vectors[0], topK, minSimilarity, sim);
        Answer(Results(chunks, Relevant(embeddings, vectors[0], topK, minSimilarity, sim)))
  }

  /** Every answer holds at most `topK` stored chunks, best first, each one
      with a non-empty embedding and a score, against the query vector, of
      at least the threshold. */
  lemma QueryAnswerSound(chunks: seq<Chunk>, embeddings: seq<Vector>, query: Vector,
                         topK: nat, minSimilarity: real, sim: (Vector, Vector) -> real)
    requires Aligned(chunks, embeddings)
    ensures var r := QueryAnswer(chunks, embeddings, Success([query]), topK, minSimilarity, sim).results;
            |r| <= topK &&
            (forall i, j :: 0 <= i < j < |r| ==> r[i].score >= r[j].score) &&
            forall i :: 0 <= i < |r| ==>
              r[i].chunk in chunks && EmbeddingOf(r[i].chunk) != [] &&
              r[i].score == sim(query, EmbeddingOf(r[i].chunk)) && r[i].score >= minSimilarity
  {
    var hits := Relevant(embeddings, query, topK, minSimilarity, sim);
    RelevantSound(embeddings, query, topK, minSimilarity, sim);
    var r := Results(chunks, hits);
    forall i | 0 <= i < |r|
      ensures r[i].chunk in chunks && EmbeddingOf(r[i].chunk) != []
      ensures r[i].score == sim(query, EmbeddingOf(r[i].chunk)) && r[i].score >= minSimilarity
    {
      assert hits[i] in hits;
    }
  }

  /** The scoring loop of get_relevant_chunks: a (position, score) pair for
      every stored embedding that is not empty, in storage order. */
  method ScoreEmbeddings(embeddings: seq<Vector>, query: Vector, sim: (Vector, Vector) -> real)
    returns (similarities: seq<Hit>)
    ensures similarities == Candidates(embeddings, query, sim)
  {
    similarities := [];
    for i := 0 to |embeddings|
      invariant similarities == Candidates(embeddings[..i], query, sim)
    {
      var upTo := embeddings[..i + 1];
      assert upTo[..|upTo| - 1] == embeddings[..i] && upTo[|upTo| - 1] == embeddings[i];
      assert Candidates(upTo, query, sim) == Candidates(embeddings[..i], query, sim) +
        (if embeddings[i] == [] then [] else [Hit(i, sim(query, embeddings[i]))]);
      if embeddings[i] == [] {  // no embedding: skipped
        continue;
      }
      similarities := similarities + [Hit(i, sim(query, embeddings[i]))];
    }
    assert embeddings[..|embeddings|] == embeddings;
  }

  /** The result loop of get_relevant_chunks: over the first `top_k` pairs,
      skip those below the threshold and copy the others' chunks with their
      score. */
  method CopyAtLeast(chunks: seq<Chunk>, top: seq<Hit>, minSimilarity: real) returns (result: seq<ScoredChunk>)
    requires InRange(chunks, top)
    ensures result == Results(chunks, AtLeast(top, minSimilarity))
  {
    result := [];
    for j := 0 to |top|
      invariant InRange(chunks, AtLeast(top[..j], minSimilarity))
      invariant result == Results(chunks, AtLeast(top[..j], minSimilarity))
    {
      CopyStep(chunks, top, j, minSimilarity);
      var hit := top[j];
      if hit.score < minSimilarity {
        continue;
      }
      result := result + [ScoredChunk(chunks[hit.index], hit.score)];
    }
    assert top[..|top|] == top;
  }

  /** One round of the result loop: the filtered prefix grows by the next
      pair exactly when it reaches the threshold. */
  lemma CopyStep(chunks: seq<Chunk>, top: seq<Hit>, j: nat, minSimilarity: real)
    requires InRange(chunks, top) && j < |top|
    requires InRange(chunks, AtLeast(top[..j], minSimilarity))
    ensures InRange(chunks, AtLeast(top[..j + 1], minSimilarity))
    ensures top[j].index < |chunks|
    ensures Results(chunks, AtLeast(top[..j + 1], minSimilarity)) ==
            Results(chunks, AtLeast(top[..j], minSimilarity)) +
            (if top[j].score >= minSimilarity then [ScoredChunk(chunks[top[j].index], top[j].score)] else [])
  {
    var kept := AtLeast(top[..j], minSimilarity);
    AtLeastStep(top, j, minSimilarity);
    assert top[j] in top;
    ResultsAppend(chunks, kept, top[j]);
    assert kept + [] == kept;
  }

  predicate InRange(chunks: seq<Chunk>, hits: seq<Hit>) {
    forall h :: h in hits ==> h.index < |chunks|
  }

  lemma ResultsAppend(chunks: seq<Chunk>, hits: seq<Hit>, h: Hit)
    requires InRange(chunks, hits) && h.index < |chunks|
    ensures InRange(chunks, hits + [h])
    ensures Results(chunks, hits + [h]) == Results(chunks, hits) + [ScoredChunk(chunks[h.index], h.score)]
  {
  }

  class Retriever {
    var chunks: seq<Chunk>
    var embeddings: seq<Vector>

    ghost predicate Valid()
      reads this
    {
      Aligned(chunks, embeddings)
    }

    constructor ()
      ensures Valid() && chunks == [] && embeddings == []
    {
      chunks := [];
      embeddings := [];
    }

    /** add_chunks: embed the chunks that lack an embedding (one provider
        call, none if there are no such chunks), write the embeddings onto
        the caller's chunks by position, then append every chunk and its
        embedding (or []) in arrival order. The result is the batch sent to
        the provider, None when it was not called. */
    method AddChunks(cs: array<Chunk>, provider: seq<string> -> ProviderOutcome)
      returns (request: Option<seq<string>>)
      requires Valid()
      modifies this, cs
      ensures Valid()
      ensures var pending := Unembedded(old(cs[..]));
              cs[..] == AfterAdd(old(cs[..]), provider(Texts(pending))) &&
              request == if pending == [] then None else Some(Texts(pending))
      ensures chunks == old(chunks) + cs[..]
      ensures embeddings == old(embeddings) + EmbeddingsOf(cs[..])
    {
      var incoming := cs[..];
      if cs.Length == 0 {
        return None;
      }
      var pending := Unembedded(incoming);
      request := None;
      var embedded := pending;
      if |pending| > 0 {
        var batch := new Chunk[|pending|](i requires 0 <= i < |pending| => pending[i]);
        assert batch[..] == pending;
        var _, sent := EmbedChunks(batch, provider);
        request := sent;
        embedded := batch[..];
      }
      var merged := MergeBack(incoming, embedded);
      forall i | 0 <= i < cs.Length {
        cs[i] := merged[i];
      }
      assert cs[..] == merged;
      chunks := chunks + merged;
      embeddings := embeddings + EmbeddingsOf(merged);
    }

    /** get_relevant_chunks. An empty store answers [] without asking for a
        query embedding. Otherwise the query text is sent to the provider
        and the answer is QueryAnswer's, which the store does not change. */
    method GetRelevantChunks(query: string, topK: int, minSimilarity: real,
                             provider: seq<string> -> ProviderOutcome, sim: (Vector, Vector) -> real)
      returns (outcome: QueryOutcome, request: Option<seq<string>>)
      requires Valid() && topK >= 0
      ensures chunks == [] ==> outcome == Answer([]) && request == None
      ensures chunks != [] ==>
                request == Some([query]) &&
                outcome == QueryAnswer(chunks, embeddings, provider([query]), topK, minSimilarity, sim)
    {
      if chunks == [] {
        return Answer([]), None;
      }
      request := Some([query]);
      var response := provider([query]);
      if response.Failure? || response.vectors == [] {
        return QueryFailure, request;
      }
      var queryEmbedding := response.vectors[0];

      var similarities := ScoreEmbeddings(embeddings, queryEmbedding, sim);
      similarities := SortByScore(similarities);  // stable, by score, descending
      RelevantSound(embeddings, queryEmbedding, topK, minSimilarity, sim);
      var top := Top(similarities, topK);
      assert forall h :: h in top ==> h in multiset(similarities);
      var result := CopyAtLeast(chunks, top, minSimilarity);
      outcome := Answer(result);
    }

    /** clear: both lists become empty; the store stays usable. */
    method Clear()
      modifies this
      ensures Valid() && chunks == [] && embeddings == []
    {
      chunks := [];
      embeddings := [];
    }

    /** get_chunk_count: the number of stored chunks, which is also the
        number of stored embeddings. */
    function ChunkCount(): (n: nat)
      reads this
      requires Valid()
      ensures n == |chunks| && n == |embeddings|
    {
      |chunks|
    }
  }
}
