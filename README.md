# ask-my-github: the ingestion and retrieval core in Dafny

ask-my-github answers questions about a GitHub repository. It cuts the
repository's files into overlapping character windows ("chunks"), embeds each
chunk through an embedding provider, keeps the chunks and vectors in an
in-memory store per repository, and answers a query with the stored chunks
whose vectors are most similar to the query's vector. This project models
that core and proves properties of the model:

- `Chunks` (`chunks.dfy`): the chunk record (text, file path, start, end,
  optional embedding), provider outcomes and small shared helpers.
- `Chunker` (`chunker.dfy`): `Chunker.chunk_file` as a method with a loop,
  proved equal to a recursive definition of its windows, and
  `Chunker._should_skip_file` as a predicate over a model of
  `os.path.splitext` and of `str.lower`.
- `Embedder` (`embedder.dfy`): `Embedder.embed_chunks` on an array, which it
  updates in place as the source updates the caller's list of dictionaries.
- `Ranking` (`ranking.dfy`): the scoring, stable sort, top-k cut and
  threshold filter inside `Retriever.get_relevant_chunks`, as functions.
- `Retrieval` (`retriever.dfy`): the `Retriever` class with its two
  index-aligned lists.
- `Shared` (`shared.dfy`): the process-wide registry from repository URL to
  retriever, as a class holding a map plus its insertion order.

The embedding provider (`Embedder.get_embeddings`, a network call) is a
function parameter `seq<string> -> ProviderOutcome`; the methods that call it
also return the batch they sent (`None` when they made no call). Cosine
similarity is the parameter `sim: (Vector, Vector) -> real`. Vectors are
sequences of reals.

The model follows what the code does, including where that is easy to
misread:

- 2500 characters with the default size 1000 and overlap 200 give three
  chunks, [0,1000), [800,1800), [1600,2500), because the loop stops as soon
  as a window reaches the end (`Chunker.DefaultSettingsOn2500`).
- The guard at chunker.py:33 is commented as preventing an infinite loop,
  but on non-empty content with a positive overlap and a size that is not
  positive, or is at most the overlap while the content is longer than one
  window, the loop never ends (`Chunker.NeverStops`). `Chunker.ChunkFile` requires `Terminates`,
  which holds for exactly the other inputs, so every input on which the
  source returns is covered, including a size of 0 or less with an overlap
  of 0 or less (`Chunker.NonPositiveSize`, with Python's slicing).
- There is no fallback result when nothing among the top `top_k` reaches
  the threshold (`Ranking.RelevantEmptyIff`).
- Registry keys are URLs exactly as given, with no normalisation
  (`Shared.TrailingSlashIsAnotherKey`).
- A failure to embed the query is not caught in `get_relevant_chunks`; it
  is `QueryFailure` here, not an empty answer.
- The defaults `top_k = 3` and `min_similarity = 0.7` are the constants
  `Retrieval.DefaultTopK` and `Retrieval.DefaultMinSimilarity`; the
  chunker's are `Chunker.DefaultChunkSize` and `Chunker.DefaultChunkOverlap`
  (chunker.py:5, retriever.py:31-32). The refused extensions are the
  constant `Chunker.SkipExtensions`, the set at chunker.py:64-70 as listed.

## Model

| member | source | states |
|---|---|---|
| Chunker.Terminates | backend/app/core/chunker.py:18-34 | the inputs on which the loop ends: no content, an overlap of 0 or less, or a positive size that exceeds the overlap or covers the content |
| Chunker.SliceIndex | backend/app/core/chunker.py:20 | a Python slice bound: negative counts from the end, clamped to [0, length]; in-range bounds are unchanged |
| Chunker.Slice | backend/app/core/chunker.py:20 | Python's `content[start:end]`; equal to the plain sub-sequence when 0 <= start <= end <= length |
| Chunker.IsWindowOf | backend/app/core/chunker.py:19-27 | a chunk as the loop builds it with a positive size: offsets inside the content, its text the content between them, the file path, no embedding |
| Chunker.ChunksFrom | backend/app/core/chunker.py:18-34 | defines the chunks the loop emits from a given start: one chunk per round, stopping at the end of the content or when the guard fires |
| Chunker.Windows | backend/app/core/chunker.py:14-36 | defines chunk_file's result: `ChunksFrom` started at offset 0 |
| Chunker.ChunkFile | backend/app/core/chunker.py:9-36 | on every input where the source returns, the loop's chunks are exactly `Windows` of the content; empty content gives no chunk |
| Chunker.ChunksAreWindows | backend/app/core/chunker.py:18-27 | with a positive size, every chunk's text is the content between its start and end, with the given file path, no embedding, 0 <= start < end <= length, no chunk starting before the loop's first start |
| Chunker.WindowsShape | backend/app/core/chunker.py:15-30 | no chunk exactly when there is no content left; the first chunk starts at 0; every chunk but the last is a full window of `chunk_size` characters ending before the content does |
| Chunker.ChunksFromStep | backend/app/core/chunker.py:18-32 | for 0 < overlap < size and a window ending before the content does, one full window at start followed by the chunks from start + size − overlap |
| Chunker.WindowsSlide | backend/app/core/chunker.py:29-32 | for 0 < overlap < size, each chunk starts `chunk_overlap` before the previous one ends (starts advance by size − overlap) and the last chunk ends at the end of the content |
| Chunker.SingleWindow | backend/app/core/chunker.py:29-34 | with overlap <= 0 or overlap >= size, at most one chunk is emitted: the first window |
| Chunker.NonPositiveSize | backend/app/core/chunker.py:18-34 | a size of 0 or less with an overlap of 0 or less gives one chunk [0, size), whose text is empty for size 0 and the content without its last -size characters otherwise |
| Chunker.NegativeSizeOnEight | backend/app/core/chunker.py:18-34 | size -5, overlap 0, eight characters: one chunk of the first three characters, with end -5 |
| Chunker.ZeroSizeOnAbc | backend/app/core/chunker.py:18-34 | size 0, overlap 0, "abc": one empty chunk [0, 0) |
| Chunker.LoopStart | backend/app/core/chunker.py:32 | the start after k rounds in which no exit fired |
| Chunker.NeverStops | backend/app/core/chunker.py:18-34 | whenever `Terminates` fails, after any number of rounds none of the loop's exits fires |
| Chunker.DefaultSettingsOn2500 | backend/app/core/chunker.py:5-36 | default settings on 2500 characters give [0,1000), [800,1800), [1600,2500) |
| Chunker.ZeroOverlapDropsTail | backend/app/core/chunker.py:32-34 | with overlap 0 and content longer than one window, a single chunk ending before the content's end |
| Chunker.ProgressChunksFrom | backend/app/core/chunker.py:18-34 | defines the chunks of the corrected loop: as `ChunksFrom`, but stopping when the next start does not exceed the current one |
| Chunker.ProgressWindows | backend/app/core/chunker.py:14-36 | defines the corrected loop's result from offset 0 |
| Chunker.ProgressStep | backend/app/core/chunker.py:18-34 | one round of the corrected loop: the window at start, then the chunks from the next start unless it stops |
| Chunker.ChunkFileWithProgressGuard | backend/app/core/chunker.py:9-36 | the corrected loop (stop when the next start does not advance) terminates for every positive size and returns `ProgressWindows` |
| Chunker.ProgressWindowsCover | backend/app/core/chunker.py:29-34 | with the corrected guard and 0 <= overlap < size, consecutive chunks overlap by exactly `chunk_overlap` and the last chunk ends at the end of the content |
| Chunker.ProgressGuardAgrees | backend/app/core/chunker.py:29-34 | for 0 < overlap < size the corrected guard emits the same chunks as the source's |
| Chunker.LastIndex | backend/app/core/chunker.py:72 | the last position of a character, or -1: it holds the character and none follows |
| Chunker.CutAt | backend/app/core/chunker.py:72 | where splitext may cut: a '.' followed by neither '.' nor '/', with a character other than '.' and '/' before it in the same path component |
| Chunker.ExtensionStart | backend/app/core/chunker.py:72 | the cut is within the name, and what follows it is an extension (the `CutAt` rule is `SplitExtRule`'s) |
| Chunker.CutAtLastDot | backend/app/core/chunker.py:72 | the last '.' after the last '/', with a non-dot before it in that component, is a cut position |
| Chunker.CutForcesRule | backend/app/core/chunker.py:72 | a cut position is the last '.', after the last '/', with a non-dot before it in that component |
| Chunker.LastSepBefore | backend/app/core/chunker.py:72 | with no '/' from a position to the end, the last '/' lies before it |
| Chunker.SliceWitness | backend/app/core/chunker.py:72 | a non-dot character inside a range makes that part of the name hold a non-dot |
| Chunker.SplitExtRule | backend/app/core/chunker.py:72 | the extension starts at a cut position when it is not empty, and is empty exactly when no position is a cut position |
| Chunker.SplitExt | backend/app/core/chunker.py:72 | root + extension is the name; the extension is empty or a well-formed extension |
| Chunker.ExtensionAfterLastDot | backend/app/core/chunker.py:72 | the suffix from the last dot of the last path component is an extension |
| Chunker.Lower | backend/app/core/chunker.py:73 | same length, each character lower-cased, no upper-case ASCII letter left |
| Chunker.ShouldSkipFile | backend/app/core/chunker.py:62-73 | defines _should_skip_file: the lower-cased splitext extension is listed, or the name starts with '.' |
| Chunker.DotFilesSkipped | backend/app/core/chunker.py:73 | any name starting with '.' is skipped |
| Chunker.SkipByLastSuffix | backend/app/core/chunker.py:62-73 | a plain name not starting with '.' is skipped exactly when it has a last dot after its first character and the lower-cased suffix from there is a listed extension |
| Chunker.DsStoreEntryUnreachable | backend/app/core/chunker.py:69-73 | the lower-cased extension never equals the ".DS_Store" entry |
| Chunker.ListedLengths | backend/app/core/chunker.py:64-70 | every listed extension but ".DS_Store" has at most five characters |
| Chunker.LastIndexIs | backend/app/core/chunker.py:72 | the last position of a character is the one after which it does not occur |
| Chunker.UpperCaseExtensionSkipped | backend/app/core/chunker.py:64-73 | "photo.PNG" is skipped |
| Chunker.LastSuffixSkipped | backend/app/core/chunker.py:64-73 | "a.tar.gz" is skipped (by ".gz") |
| Chunker.SourceFileKept | backend/app/core/chunker.py:64-73 | "main.py" is kept |
| Chunker.DsStoreSuffixKept | backend/app/core/chunker.py:64-73 | "notes.DS_Store" is kept |
| Embedder.Texts | backend/app/core/embedder.py:37 | defines the batch sent: the chunks' texts, in order |
| Embedder.WithVectors | backend/app/core/embedder.py:44-45 | same length and windows; chunk i gets vector i when there is one and keeps its embedding otherwise; surplus vectors are dropped |
| Embedder.Embedded | backend/app/core/embedder.py:39-52 | defines the list after embed_chunks for a provider outcome: unchanged on failure, the positional write-back on success |
| Embedder.EmbedChunks | backend/app/core/embedder.py:28-52 | empty input: a new empty list and no provider call; otherwise the texts in order are sent, the list itself is returned and afterwards holds the vectors written by position, or is unchanged on a provider failure |
| Ranking.Candidates | backend/app/core/retriever.py:45-54 | a pair for exactly the stored positions with a non-empty embedding, scored against the query, in storage order |
| Ranking.Insert | backend/app/core/retriever.py:57 | the result holds the inserted pair and the others, nothing else |
| Ranking.SortByScore | backend/app/core/retriever.py:57 | the sorted list is a permutation of the input |
| Ranking.BeforeTransitive | backend/app/core/retriever.py:57 | the ranking order is transitive |
| Ranking.InsertSorted | backend/app/core/retriever.py:57 | inserting into a sorted list keeps it sorted |
| Ranking.SortByScoreSorted | backend/app/core/retriever.py:57 | scores never increase along the sorted list and equal scores keep position order |
| Ranking.HeadRanksFirst | backend/app/core/retriever.py:57 | the head of a sorted list ranks ahead of every other entry |
| Ranking.SortedHeadsEqual | backend/app/core/retriever.py:57 | two sorted arrangements of the same pairs start with the same pair |
| Ranking.StrictlySortedUnique | backend/app/core/retriever.py:57 | two sorted arrangements of the same pairs are equal |
| Ranking.StableSortIsUnique | backend/app/core/retriever.py:57 | any permutation of the similarity list with non-increasing scores and ties in position order is the sort's result (the sort is the stable descending sort) |
| Ranking.Ranked | backend/app/core/retriever.py:45-57 | defines the similarity list after the sort |
| Ranking.Top | backend/app/core/retriever.py:61 | the first min(top_k, length) pairs |
| Ranking.AtLeast | backend/app/core/retriever.py:61-63 | exactly the pairs at or above the threshold, in their order |
| Ranking.AtLeastStep | backend/app/core/retriever.py:61-63 | filtering one more pair appends it exactly when it reaches the threshold |
| Ranking.Relevant | backend/app/core/retriever.py:59-67 | defines the pairs answered: the first top_k ranked pairs that reach the threshold |
| Ranking.RelevantSound | backend/app/core/retriever.py:45-67 | at most top_k pairs, scores non-increasing, ties in storage order, each a stored position with a non-empty embedding scored against the query and at or above the threshold |
| Ranking.RelevantComplete | backend/app/core/retriever.py:56-64 | a qualifying position is left out only when top_k pairs rank strictly ahead of it |
| Ranking.RelevantOfNothing | backend/app/core/retriever.py:45-61 | no embeddings, no pairs |
| Ranking.RelevantEmptyIff | backend/app/core/retriever.py:59-69 | the answer is empty exactly when none of the first top_k pairs reaches the threshold |
| Retrieval.EmbeddingOf | backend/app/core/retriever.py:26 | defines a chunk's embeddings-list entry: its embedding, or [] |
| Retrieval.EmbeddingsOf | backend/app/core/retriever.py:26 | defines the entries appended for a batch, in order |
| Retrieval.Aligned | backend/app/core/retriever.py:8-9 | defines the store's invariant: the two lists have one entry per chunk, each the chunk's embedding or [] |
| Retrieval.Unembedded | backend/app/core/retriever.py:19 | the chunks without an embedding, taken from the input |
| Retrieval.MergeBack | backend/app/core/retriever.py:19-25 | same length; positions that had an embedding keep their chunk |
| Retrieval.MergeBackUnchanged | backend/app/core/retriever.py:19-25 | merging the unembedded chunks back unchanged gives the input |
| Retrieval.MergeBackAt | backend/app/core/retriever.py:19-25 | the i-th unembedded position receives the i-th embedded chunk |
| Retrieval.UnembeddedAppend | backend/app/core/retriever.py:19 | the unembedded chunks of a list extended by one chunk |
| Retrieval.UnembeddedPrefix | backend/app/core/retriever.py:19 | the unembedded chunks of a prefix are a prefix of the unembedded chunks |
| Retrieval.UnembeddedBefore | backend/app/core/retriever.py:19 | a position without an embedding has fewer unembedded chunks before it than in all |
| Retrieval.MergeBackKeepsWindows | backend/app/core/retriever.py:19-25 | merging back chunks with the same windows changes only embeddings |
| Retrieval.MergeBackComplete | backend/app/core/retriever.py:19-25 | merging back chunks that all have an embedding leaves none unembedded |
| Retrieval.AfterAdd | backend/app/core/retriever.py:19-22 | defines the caller's chunks after add_chunks: the unembedded ones embedded as one batch and written back at their positions |
| Retrieval.AfterAddFacts | backend/app/core/retriever.py:11-26 | adding keeps every window; a provider failure leaves the chunks as they were; a vector for every pending chunk leaves none pending, so adding them again asks the provider nothing |
| Retrieval.Results | backend/app/core/retriever.py:65-67 | defines the answer for chosen pairs: each position's stored chunk with its score |
| Retrieval.QueryAnswer | backend/app/core/retriever.py:42-69 | defines a non-empty store's answer: `QueryFailure` when the provider fails or returns no vector, else the `Results` of `Relevant` for the first vector |
| Retrieval.QueryAnswerSound | backend/app/core/retriever.py:38-69 | every answer holds at most top_k stored chunks, best first, each with a non-empty embedding and its score against the query at or above the threshold |
| Retrieval.ScoreEmbeddings | backend/app/core/retriever.py:45-54 | the scoring loop builds exactly `Candidates` |
| Retrieval.CopyAtLeast | backend/app/core/retriever.py:60-67 | the result loop returns the stored chunks of exactly the pairs at or above the threshold, with their scores, in order |
| Retrieval.CopyStep | backend/app/core/retriever.py:61-67 | one round of the result loop appends the next pair's chunk copy exactly when its score reaches the threshold |
| Retrieval.ResultsAppend | backend/app/core/retriever.py:65-67 | appending one pair appends its chunk copy with its score |
| Retrieval.Retriever.constructor | backend/app/core/retriever.py:6-9 | a new store is empty and aligned |
| Retrieval.Retriever.AddChunks | backend/app/core/retriever.py:11-26 | one provider call with the texts of exactly the unembedded chunks (none if there are none); the caller's chunks receive the vectors by position; every chunk and its embedding (or []) is appended in order, existing entries unchanged; the lists stay aligned |
| Retrieval.Retriever.GetRelevantChunks | backend/app/core/retriever.py:28-69 | an empty store answers [] without a provider call; otherwise the query alone is sent and the answer is `QueryAnswer`; the store is not changed |
| Retrieval.Retriever.Clear | backend/app/core/retriever.py:71-74 | both lists become empty |
| Retrieval.Retriever.ChunkCount | backend/app/core/retriever.py:76-78 | the number of stored chunks, equal to the number of stored embeddings |
| Shared.FirstOccurrences | backend/app/core/shared.py:14-18 | every inserted URL exactly once, nothing else |
| Shared.FirstOccurrencesStable | backend/app/core/shared.py:14-18 | later insertions never move a URL: the earlier key order is a prefix of the later one |
| Shared.Registry.constructor | backend/app/core/shared.py:6 | the registry starts empty |
| Shared.Registry.GetRetriever | backend/app/core/shared.py:8-10 | the retriever stored under exactly this URL, None exactly when the URL was never set |
| Shared.Registry.SetRetriever | backend/app/core/shared.py:12-14 | this URL maps to the new retriever and every other URL keeps its own; a new URL goes last in the key order, an existing one keeps its place |
| Shared.Registry.ListRetrievers | backend/app/core/shared.py:16-18 | the set URLs, each once, in first-insertion order |
| Shared.TrailingSlashIsAnotherKey | backend/app/core/shared.py:8-14 | after setting "https://x/y", "https://x/y/" is not found and only "https://x/y" is listed |
| Shared.OverwriteKeepsPlace | backend/app/core/shared.py:12-18 | setting a URL again replaces its retriever and keeps its place in the listing |

## Left out

- Chunker.process_directory: directory walking, file reading and decoding errors are I/O.
- Embedder.get_embeddings and its retry policy: a network call; it is the provider parameter, and its failure after all retries is `Failure`.
- Embedder.cosine_similarity: floating-point arithmetic; it is the `sim` parameter.
- Embedder and Retriever construction of the API client: not modelled.
- github_client.py, the API routes and main.py are not part of this model; neither is the async/await scheduling.
- Retrieval.Retriever.GetRelevantChunks: requires top_k >= 0; a negative top_k, for which Python's slice drops pairs from the end, is not modelled.
- Chunker.Lower: lower-cases ASCII letters only and keeps the length. `str.lower` also maps other characters, some onto ASCII: KELVIN SIGN becomes 'k', and U+0130 becomes the two characters 'i' and U+0307, so its result can be longer. The lookup is unaffected: no listed extension contains 'k' or U+0307, so neither character can turn a name into a listed one.
- Chunker.SplitExt: models POSIX splitext, with '/' as the only separator.
- Retrieval.Retriever.AddChunks: chunks are values, so aliasing is not modelled: the stored chunks are not the caller's dictionaries, a dictionary listed twice is two chunks, and later changes by the caller do not reach the store. The positional write-back stands in for the embedder updating the shared dictionaries.
- Retrieval.QueryAnswer: results are value copies with a score beside the chunk rather than a dictionary with a "score" key.
- Scores and vectors are reals; NaN and rounding in floating point are not modelled.

## Findings

| source | as written | input that shows it | evidently intended | confidence | as-written member | corrected member |
|---|---|---|---|---|---|---|
| backend/app/core/chunker.py:32-34 | the guard `start >= end` fires whenever the overlap is 0 or negative, so the rest of the content is dropped | 2000 characters, chunk_size 1000, chunk_overlap 0: one chunk [0,1000) and characters 1000..1999 are never chunked | stop only when the next start does not advance past the current one, so the windows cover the content | medium; not executed | Chunker.ZeroOverlapDropsTail | Chunker.ProgressWindowsCover |
| backend/app/core/chunker.py:32-34 | the guard meant to prevent an infinite loop never fires when the overlap is positive and at least the size, including every size of 0 or less | 1001 characters, chunk_size 1000, chunk_overlap 1000: the start returns to 0 every round, forever | the loop terminates for every positive size | medium; not executed | Chunker.NeverStops | Chunker.ChunkFileWithProgressGuard |

`Chunker.ChunkFile` keeps the guard as written, since that is what the
repository runs; the corrected loop sits beside it (nothing else in the model
calls chunk_file) and agrees with it wherever the source's guard works
(`Chunker.ProgressGuardAgrees`).
