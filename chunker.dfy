/** The sliding-window chunker (backend/app/core/chunker.py): `chunk_file`
    and the file-name filter `_should_skip_file`. The chunker object only
    holds its two settings, so they are parameters here. */
module Chunker {
  import opened Chunks

  const DefaultChunkSize := 1000
  const DefaultChunkOverlap := 200

  /** The window loop ends, for content of this length, exactly when this
      holds (`NeverStops` shows the other cases run forever): there is no
      content; or the overlap is not positive, so the guard `start >= end`
      fires after the first window whatever the size; or the size is
      positive and either exceeds the overlap (every step moves forward) or
      the whole content fits in the first window. */
  predicate Terminates(contentLength: nat, chunkSize: int, chunkOverlap: int) {
    contentLength == 0 || chunkOverlap <= 0 ||
    (chunkSize > 0 && (chunkOverlap < chunkSize || contentLength <= chunkSize))
  }

  /** A Python slice index for a sequence of length `n`: a negative index
      counts from the end, and the result is clamped to [0, n]. */
  function SliceIndex(i: int, n: nat): (k: nat)
    ensures k <= n
    ensures 0 <= i <= n ==> k == i
    ensures i < 0 ==> k == if i + n < 0 then 0 else i + n
  {
    if i < 0 then (if i + n < 0 then 0 else i + n)
    else if i > n then n
    else i
  }

  /** Python's `s[a:b]`: empty when the clamped bounds cross. */
  function Slice(s: string, a: int, b: int): (r: string)
    ensures 0 <= a <= b <= |s| ==> r == s[a..b]
  {
    var lo := SliceIndex(a, |s|);
    var hi := SliceIndex(b, |s|);
    if lo >= hi then [] else s[lo..hi]
  }

  /** `c` is a window of `content` as the chunker emits it. */
  predicate IsWindowOf(c: Chunk, filePath: string, content: string) {
    0 <= c.start < c.end <= |content| &&
    c.text == content[c.start..c.end] &&
    c.filePath == filePath &&
    c.embedding == None
  }

  /** The chunks the window loop emits once it has reached offset `start`. */
  function ChunksFrom(filePath: string, content: string, chunkSize: int, chunkOverlap: int, start: nat): seq<Chunk>
    requires Terminates(|content|, chunkSize, chunkOverlap)
    decreases |content| - start
  {
    if start >= |content| then []
    else
      var end := Min(start + chunkSize, |content|);
      var chunk := Chunk(Slice(content, start, end), filePath, start, end, None);
      if end == |content| || end - chunkOverlap >= end then [chunk]
      else [chunk] + ChunksFrom(filePath, content, chunkSize, chunkOverlap, end - chunkOverlap)
  }

  /** The chunks of one file: the window loop started at offset 0. */
  function Windows(filePath: string, content: string, chunkSize: int, chunkOverlap: int): seq<Chunk>
    requires Terminates(|content|, chunkSize, chunkOverlap)
  {
    ChunksFrom(filePath, content, chunkSize, chunkOverlap, 0)
  }

  /** chunk_file: slide a window of `chunkSize` characters over `content`,
      stepping back `chunkOverlap` characters from each window's end. */
  method ChunkFile(filePath: string, content: string, chunkSize: int, chunkOverlap: int) returns (chunks: seq<Chunk>)
    requires Terminates(|content|, chunkSize, chunkOverlap)
    ensures chunks == Windows(filePath, content, chunkSize, chunkOverlap)
    ensures content == [] ==> chunks == []
  {
    chunks := [];
    var start: int := 0;
    var contentLength := |content|;
    while start < contentLength
      invariant 0 <= start
      invariant chunks + ChunksFrom(filePath, content, chunkSize, chunkOverlap, start)
             == Windows(filePath, content, chunkSize, chunkOverlap)
      decreases contentLength - start
    {
      var end := Min(start + chunkSize, contentLength);
      var chunkContent := Slice(content, start, end);
      chunks := chunks + [Chunk(chunkContent, filePath, start, end, None)];
      if end == contentLength {
        break;
      }
      start := end - chunkOverlap;
      if start >= end {  // the source's guard against an endless loop
        break;
      }
    }
  }

  /** Every chunk of `r` is a window of `content` starting at `start` or later. */
  predicate AllWindowsOf(r: seq<Chunk>, filePath: string, content: string, start: int) {
    forall j :: 0 <= j < |r| ==> IsWindowOf(r[j], filePath, content) && start <= r[j].start
  }

  /** With a positive size, every emitted chunk is a window of the content,
      its text is the content between its offsets, and it carries the file
      path (a non-positive size is `NonPositiveSize`). */
  lemma {:induction false} ChunksAreWindows(filePath: string, content: string, chunkSize: int, chunkOverlap: int, start: nat)
    requires Terminates(|content|, chunkSize, chunkOverlap) && chunkSize > 0
    ensures AllWindowsOf(ChunksFrom(filePath, content, chunkSize, chunkOverlap, start), filePath, content, start)
    decreases |content| - start
  {
    if start < |content| {
      var end := Min(start + chunkSize, |content|);
      if !(end == |content| || end - chunkOverlap >= end) {
        var next := end - chunkOverlap;
        ChunksAreWindows(filePath, content, chunkSize, chunkOverlap, next);
      }
    }
  }

  /** Empty content yields no chunk; otherwise the first chunk starts where
      the loop stands, and every chunk but the last is a full window of
      exactly `chunkSize` characters that ends before the content does. */
  lemma {:induction false} WindowsShape(filePath: string, content: string, chunkSize: int, chunkOverlap: int, start: nat)
    requires Terminates(|content|, chunkSize, chunkOverlap)
    ensures var r := ChunksFrom(filePath, content, chunkSize, chunkOverlap, start);
            (start >= |content| <==> r == []) &&
            (r != [] ==> r[0].start == start) &&
            forall j :: 0 <= j < |r| - 1 ==> r[j].end - r[j].start == chunkSize && r[j].end < |content|
    decreases |content| - start
  {
    if start < |content| {
      var end := Min(start + chunkSize, |content|);
      var chunk := Chunk(Slice(content, start, end), filePath, start, end, None);
      if end == |content| || end - chunkOverlap >= end {
        assert ChunksFrom(filePath, content, chunkSize, chunkOverlap, start) == [chunk];
      } else {
        var next := end - chunkOverlap;
        WindowsShape(filePath, content, chunkSize, chunkOverlap, next);
        var tail := ChunksFrom(filePath, content, chunkSize, chunkOverlap, next);
        assert ChunksFrom(filePath, content, chunkSize, chunkOverlap, start) == [chunk] + tail;
        assert end - start == chunkSize && end < |content|;
      }
    }
  }

  /** One round of the loop when it goes on: the window at `start`, then
      the chunks from `end - chunkOverlap`. */
  lemma ChunksFromStep(filePath: string, content: string, chunkSize: int, chunkOverlap: int, start: nat)
    requires 0 < chunkOverlap < chunkSize && start < |content| && start + chunkSize < |content|
    ensures var r := ChunksFrom(filePath, content, chunkSize, chunkOverlap, start);
            var tail := ChunksFrom(filePath, content, chunkSize, chunkOverlap, start + chunkSize - chunkOverlap);
            r == [r[0]] + tail && r[0].start == start && r[0].end == start + chunkSize
  {
  }

  /** With 0 < overlap < size, each next chunk starts `chunkOverlap`
      characters before the previous one ends (so starts advance by
      `chunkSize - chunkOverlap`), and the last chunk ends at the end of the
      content: together the windows cover all of it. */
  lemma {:induction false} WindowsSlide(filePath: string, content: string, chunkSize: int, chunkOverlap: int, start: nat)
    requires 0 < chunkOverlap < chunkSize
    ensures var r := ChunksFrom(filePath, content, chunkSize, chunkOverlap, start);
            (forall j :: 0 <= j < |r| - 1 ==>
               r[j + 1].start == r[j].end - chunkOverlap &&
               r[j + 1].start == r[j].start + (chunkSize - chunkOverlap)) &&
            (r != [] ==> r[|r| - 1].end == |content|)
    decreases |content| - start
  {
    if start < |content| {
      var end := Min(start + chunkSize, |content|);
      if end != |content| {
        var next := end - chunkOverlap;
        WindowsSlide(filePath, content, chunkSize, chunkOverlap, next);
        WindowsShape(filePath, content, chunkSize, chunkOverlap, next);
        ChunksFromStep(filePath, content, chunkSize, chunkOverlap, start);
        var r := ChunksFrom(filePath, content, chunkSize, chunkOverlap, start);
        var tail := ChunksFrom(filePath, content, chunkSize, chunkOverlap, next);
        forall j | 0 <= j < |r| - 1
          ensures r[j + 1].start == r[j].end - chunkOverlap
          ensures r[j + 1].start == r[j].start + (chunkSize - chunkOverlap)
        {
          if j == 0 {
            assert r[1] == tail[0];
          } else {
            assert r[j] == tail[j - 1] && r[j + 1] == tail[j];
          }
        }
        assert r[|r| - 1] == tail[|tail| - 1];
      }
    }
  }

  /** With a non-positive overlap (including 0), or an overlap of at least
      the size (which terminates only for content that fits one window), at
      most one chunk is emitted: the first window, even when the content is
      longer. */
  lemma SingleWindow(filePath: string, content: string, chunkSize: int, chunkOverlap: int)
    requires Terminates(|content|, chunkSize, chunkOverlap)
    requires chunkOverlap <= 0 || chunkOverlap >= chunkSize
    ensures var r := Windows(filePath, content, chunkSize, chunkOverlap);
            var end := Min(chunkSize, |content|);
            r == if content == [] then [] else [Chunk(Slice(content, 0, end), filePath, 0, end, None)]
  {
  }

  /** A size of 0 or less with an overlap of 0 or less gives one chunk that
      starts at 0 and "ends" at the size; by Python's slicing its text is
      empty for size 0, and for a negative size the content without its last
      `-chunkSize` characters. */
  lemma NonPositiveSize(filePath: string, content: string, chunkSize: int, chunkOverlap: int)
    requires chunkSize <= 0 && chunkOverlap <= 0 && content != []
    ensures var keep := if chunkSize == 0 || |content| + chunkSize < 0 then 0 else |content| + chunkSize;
            Windows(filePath, content, chunkSize, chunkOverlap) == [Chunk(content[..keep], filePath, 0, chunkSize, None)]
  {
    SingleWindow(filePath, content, chunkSize, chunkOverlap);
    var keep := if chunkSize == 0 || |content| + chunkSize < 0 then 0 else |content| + chunkSize;
    assert SliceIndex(0, |content|) == 0 && SliceIndex(chunkSize, |content|) == keep;
    if keep == 0 {
      assert content[..keep] == [];
    }
    assert Slice(content, 0, chunkSize) == content[..keep];
  }

  /** Size -5 and overlap 0 on eight characters: one chunk holding the
      first three, with end -5. */
  lemma NegativeSizeOnEight(filePath: string, content: string)
    requires |content| == 8
    ensures Windows(filePath, content, -5, 0) == [Chunk(content[..3], filePath, 0, -5, None)]
  {
    NonPositiveSize(filePath, content, -5, 0);
  }

  /** Size 0 and overlap 0 on "abc": one empty chunk [0, 0). */
  lemma ZeroSizeOnAbc(filePath: string)
    ensures Windows(filePath, "abc", 0, 0) == [Chunk("", filePath, 0, 0, None)]
  {
    NonPositiveSize(filePath, "abc", 0, 0);
  }

  /** The loop's start offset after `k` rounds in which its guard did not fire. */
  function LoopStart(k: nat, chunkSize: int, chunkOverlap: int): int {
    if k == 0 then 0 else LoopStart(k - 1, chunkSize, chunkOverlap) + chunkSize - chunkOverlap
  }

  /** Why `Terminates` is required: when it fails (content, a positive
      overlap, and a size that is not positive, or is at most the overlap
      with content longer than one window), no round of the loop ever leaves
      it — the loop condition holds, the window never reaches the end, and
      the guard `start >= end` never fires. */
  lemma {:induction false} NeverStops(k: nat, contentLength: nat, chunkSize: int, chunkOverlap: int)
    requires !Terminates(contentLength, chunkSize, chunkOverlap)
    ensures var start := LoopStart(k, chunkSize, chunkOverlap);
            var end := Min(start + chunkSize, contentLength);
            start <= 0 && start < contentLength && end != contentLength && !(end - chunkOverlap >= end)
  {
    if k > 0 {
      NeverStops(k - 1, contentLength, chunkSize, chunkOverlap);
    }
  }

  /** The default settings on 2500 characters: [0,1000), [800,1800),
      [1600,2500) — three chunks, the last one shorter. */
  lemma DefaultSettingsOn2500(filePath: string, content: string)
    requires |content| == 2500
    ensures var r := Windows(filePath, content, DefaultChunkSize, DefaultChunkOverlap);
            |r| == 3 &&
            r[0].start == 0 && r[0].end == 1000 &&
            r[1].start == 800 && r[1].end == 1800 &&
            r[2].start == 1600 && r[2].end == 2500
  {
    var r2 := ChunksFrom(filePath, content, 1000, 200, 1600);
    assert r2 == [Chunk(content[1600..2500], filePath, 1600, 2500, None)];
    var r1 := ChunksFrom(filePath, content, 1000, 200, 800);
    assert r1 == [Chunk(content[800..1800], filePath, 800, 1800, None)] + r2;
    assert Windows(filePath, content, 1000, 200) == [Chunk(content[0..1000], filePath, 0, 1000, None)] + r1;
  }

  /** As written, an overlap of 0 keeps only the first window: content
      beyond `chunkSize` characters yields no chunk at all. */
  lemma ZeroOverlapDropsTail(filePath: string, content: string, chunkSize: int)
    requires 0 < chunkSize < |content|
    ensures var r := Windows(filePath, content, chunkSize, 0);
            |r| == 1 && r[0].end == chunkSize < |content|
  {
    SingleWindow(filePath, content, chunkSize, 0);
  }

  /** The chunks emitted by the loop with a progress guard instead: stop
      when the next start would not move past the current one. */
  function ProgressChunksFrom(filePath: string, content: string, chunkSize: int, chunkOverlap: int, start: nat): seq<Chunk>
    requires chunkSize > 0
    decreases |content| - start
  {
    if start >= |content| then []
    else
      var end := Min(start + chunkSize, |content|);
      var chunk := Chunk(content[start..end], filePath, start, end, None);
      if end == |content| || end - chunkOverlap <= start then [chunk]
      else [chunk] + ProgressChunksFrom(filePath, content, chunkSize, chunkOverlap, end - chunkOverlap)
  }

  function ProgressWindows(filePath: string, content: string, chunkSize: int, chunkOverlap: int): seq<Chunk>
    requires chunkSize > 0
  {
    ProgressChunksFrom(filePath, content, chunkSize, chunkOverlap, 0)
  }

  /** chunk_file with the guard that stops when the window does not
      advance: it terminates for every positive size and every overlap. */
  method ChunkFileWithProgressGuard(filePath: string, content: string, chunkSize: int, chunkOverlap: int)
    returns (chunks: seq<Chunk>)
    requires chunkSize > 0
    ensures chunks == ProgressWindows(filePath, content, chunkSize, chunkOverlap)
  {
    chunks := [];
    var start: int := 0;
    while start < |content|
      invariant 0 <= start
      invariant chunks + ProgressChunksFrom(filePath, content, chunkSize, chunkOverlap, start)
             == ProgressWindows(filePath, content, chunkSize, chunkOverlap)
      decreases |content| - start
    {
      var end := Min(start + chunkSize, |content|);
      ProgressStep(filePath, content, chunkSize, chunkOverlap, start);
      chunks := chunks + [Chunk(content[start..end], filePath, start, end, None)];
      if end == |content| {
        break;
      }
      var next := end - chunkOverlap;
      if next <= start {  // no progress: stop
        break;
      }
      start := next;
    }
  }

  /** One round of the corrected loop: the window at `start`, then, unless
      the loop stops, the chunks from the next start. */
  lemma ProgressStep(filePath: string, content: string, chunkSize: int, chunkOverlap: int, start: nat)
    requires chunkSize > 0 && start < |content|
    ensures var end := Min(start + chunkSize, |content|);
            var stops := end == |content| || end - chunkOverlap <= start;
            ProgressChunksFrom(filePath, content, chunkSize, chunkOverlap, start) ==
              [Chunk(content[start..end], filePath, start, end, None)] +
              (if stops then [] else ProgressChunksFrom(filePath, content, chunkSize, chunkOverlap, end - chunkOverlap))
  {
  }

  /** With the progress guard and 0 <= overlap < size (0 included), the
      windows cover the content: consecutive chunks overlap by exactly
      `chunkOverlap` and the last chunk ends at the end of the content. */
  lemma {:induction false} ProgressWindowsCover(filePath: string, content: string, chunkSize: int, chunkOverlap: int, start: nat)
    requires 0 <= chunkOverlap < chunkSize
    ensures var r := ProgressChunksFrom(filePath, content, chunkSize, chunkOverlap, start);
            (forall j :: 0 <= j < |r| - 1 ==> r[j + 1].start == r[j].end - chunkOverlap) &&
            (r != [] ==> r[|r| - 1].end == |content|)
    decreases |content| - start
  {
    if start < |content| {
      var end := Min(start + chunkSize, |content|);
      if end != |content| {
        var next := end - chunkOverlap;
        ProgressWindowsCover(filePath, content, chunkSize, chunkOverlap, next);
        var tail := ProgressChunksFrom(filePath, content, chunkSize, chunkOverlap, next);
        assert tail != [] && tail[0].start == next;
      }
    }
  }

  /** Wherever the source's guard works (0 < overlap < size), the progress
      guard emits the same chunks. */
  lemma {:induction false} ProgressGuardAgrees(filePath: string, content: string, chunkSize: int, chunkOverlap: int, start: nat)
    requires 0 < chunkOverlap < chunkSize
    ensures ProgressChunksFrom(filePath, content, chunkSize, chunkOverlap, start)
         == ChunksFrom(filePath, content, chunkSize, chunkOverlap, start)
    decreases |content| - start
  {
    if start < |content| {
      var end := Min(start + chunkSize, |content|);
      if end != |content| {
        ProgressGuardAgrees(filePath, content, chunkSize, chunkOverlap, end - chunkOverlap);
      }
    }
  }

  // ---- _should_skip_file ----

  /** The extensions the filter refuses, exactly as listed in the source
      (".DS_Store" included, with its capitals). */
  const SkipExtensions: set<string> := {
    ".png", ".jpg", ".jpeg", ".gif", ".bmp",
    ".pdf", ".doc", ".docx", ".xls", ".xlsx",
    ".zip", ".tar", ".gz", ".rar", ".7z",
    ".pyc", ".pyo", ".pyd", ".so", ".dll",
    ".git", ".svn", ".hg", ".DS_Store"
  }

  /** The last index of `c` in `s`, or -1 (str.rfind). */
  function LastIndex(s: string, c: char): (r: int)
    ensures -1 <= r < |s|
    ensures r >= 0 ==> s[r] == c
    ensures forall k :: r < k < |s| ==> s[k] != c
  {
    if |s| == 0 then -1
    else if s[|s| - 1] == c then |s| - 1
    else LastIndex(s[..|s| - 1], c)
  }

  predicate HasNonDot(s: string) {
    exists k :: 0 <= k < |s| && s[k] != '.'
  }

  /** Where os.path.splitext cuts a POSIX path: at the last '.' of the last
      path component, provided that component has a character other than
      '.' before it (leading dots do not start an extension); otherwise at
      the end, leaving an empty extension. */
  function ExtensionStart(p: string): (i: nat)
    ensures i <= |p|
    ensures i < |p| ==> IsExtension(p[i..])
  {
    var sepIndex := LastIndex(p, '/');
    var dotIndex := LastIndex(p, '.');
    if dotIndex > sepIndex && HasNonDot(p[sepIndex + 1..dotIndex]) then
      ExtensionAfterLastDot(p, sepIndex, dotIndex);
      dotIndex
    else
      |p|
  }

  /** splitext's rule: the extension starts at a cut position when there is
      one, and is empty exactly when no position qualifies. */
  lemma SplitExtRule(p: string)
    ensures SplitExt(p).1 != [] ==> CutAt(p, |SplitExt(p).0|)
    ensures SplitExt(p).1 == [] ==> forall d :: !CutAt(p, d)
  {
    var sepIndex := LastIndex(p, '/');
    var dotIndex := LastIndex(p, '.');
    if dotIndex > sepIndex && HasNonDot(p[sepIndex + 1..dotIndex]) {
      CutAtLastDot(p, sepIndex, dotIndex);
    } else {
      forall d | CutAt(p, d) ensures false {
        CutForcesRule(p, d);
      }
    }
  }

  /** `d` is where splitext cuts: a '.' followed by neither '.' nor '/', with
      a character other than '.' and '/' before it in the same path
      component. */
  predicate CutAt(p: string, d: int) {
    0 <= d < |p| && p[d] == '.' &&
    (forall k :: d < k < |p| ==> p[k] != '.' && p[k] != '/') &&
    exists j :: 0 <= j < d && p[j] != '.' && p[j] != '/' && forall m :: j < m < d ==> p[m] != '/'
  }

  lemma CutAtLastDot(p: string, sepIndex: int, dotIndex: int)
    requires sepIndex == LastIndex(p, '/') && dotIndex == LastIndex(p, '.')
    requires dotIndex > sepIndex && HasNonDot(p[sepIndex + 1..dotIndex])
    ensures CutAt(p, dotIndex)
  {
    var k :| 0 <= k < |p[sepIndex + 1..dotIndex]| && p[sepIndex + 1..dotIndex][k] != '.';
    var j := sepIndex + 1 + k;
    assert p[j] != '.' && p[j] != '/';
  }

  /** A cut position is the last '.', after the last '/', with a non-dot
      before it in that component: exactly the case in which splitext cuts. */
  lemma CutForcesRule(p: string, d: int)
    requires CutAt(p, d)
    ensures var sepIndex := LastIndex(p, '/');
            LastIndex(p, '.') == d && sepIndex < d && HasNonDot(p[sepIndex + 1..d])
  {
    var j :| 0 <= j < d && p[j] != '.' && p[j] != '/' && forall m :: j < m < d ==> p[m] != '/';
    var sepIndex := LastIndex(p, '/');
    assert LastIndex(p, '.') == d by { LastIndexIs(p, '.', d); }
    assert sepIndex < j by { LastSepBefore(p, j, d); }
    SliceWitness(p, sepIndex + 1, d, j);
  }

  lemma SliceWitness(p: string, lo: int, hi: int, j: int)
    requires 0 <= lo <= j < hi <= |p| && p[j] != '.'
    ensures HasNonDot(p[lo..hi])
  {
    assert p[lo..hi][j - lo] == p[j];
  }

  /** No '/' at or after `j` (up to the end) puts the last '/' before `j`. */
  lemma LastSepBefore(p: string, j: int, d: int)
    requires 0 <= j < d < |p| && p[j] != '/' && p[d] != '/'
    requires forall m :: j < m < d ==> p[m] != '/'
    requires forall k :: d < k < |p| ==> p[k] != '/'
    ensures LastIndex(p, '/') < j
  {
  }

  /** os.path.splitext: (root, extension), with root + extension == p. */
  function SplitExt(p: string): (r: (string, string))
    ensures r.0 + r.1 == p
    ensures r.1 == [] || IsExtension(r.1)
  {
    var i := ExtensionStart(p);
    (p[..i], p[i..])
  }

  /** An extension: one leading '.', then no further '.' and no '/'. */
  predicate IsExtension(e: string) {
    |e| > 0 && e[0] == '.' && forall k :: 0 < k < |e| ==> e[k] != '.' && e[k] != '/'
  }

  lemma ExtensionAfterLastDot(p: string, sepIndex: int, dotIndex: int)
    requires -1 <= sepIndex < dotIndex < |p| && p[dotIndex] == '.'
    requires forall k :: sepIndex < k < |p| ==> p[k] != '/'
    requires forall k :: dotIndex < k < |p| ==> p[k] != '.'
    ensures IsExtension(p[dotIndex..])
  {
    forall k | 0 < k < |p[dotIndex..]|
      ensures p[dotIndex..][k] != '.' && p[dotIndex..][k] != '/'
    {
      assert p[dotIndex..][k] == p[dotIndex + k];
    }
  }

  function LowerChar(c: char): char {
    if 'A' <= c <= 'Z' then (c as int - 'A' as int + 'a' as int) as char else c
  }

  /** str.lower, for the ASCII letters. */
  function Lower(s: string): (r: string)
    ensures |r| == |s|
    ensures forall k :: 0 <= k < |s| ==> r[k] == LowerChar(s[k]) && !('A' <= r[k] <= 'Z')
  {
    seq(|s|, k requires 0 <= k < |s| => LowerChar(s[k]))
  }

  /** _should_skip_file: the lower-cased extension is a listed one, or the
      name starts with a dot. */
  predicate ShouldSkipFile(filename: string) {
    Lower(SplitExt(filename).1) in SkipExtensions || (|filename| > 0 && filename[0] == '.')
  }

  /** Every dot-file is skipped, whatever its extension. */
  lemma DotFilesSkipped(filename: string)
    requires |filename| > 0 && filename[0] == '.'
    ensures ShouldSkipFile(filename)
  {
  }

  /** For a plain file name not starting with a dot, the filter looks only at
      the suffix from the last '.', lower-cased: the file is skipped exactly
      when there is such a dot and that suffix is a listed extension. */
  lemma SkipByLastSuffix(filename: string)
    requires '/' !in filename
    requires |filename| > 0 && filename[0] != '.'
    ensures ShouldSkipFile(filename) <==>
            exists d :: 0 < d < |filename| && filename[d] == '.' &&
                        (forall k :: d < k < |filename| ==> filename[k] != '.') &&
                        Lower(filename[d..]) in SkipExtensions
  {
    var d := LastIndex(filename, '.');
    assert LastIndex(filename, '/') == -1;
    if d > 0 {
      assert HasNonDot(filename[0..d]) by { assert filename[0..d][0] == filename[0]; }
      assert SplitExt(filename).1 == filename[d..];
      if ShouldSkipFile(filename) {
        assert Lower(filename[d..]) in SkipExtensions;
      }
      forall e | 0 < e < |filename| && filename[e] == '.' && (forall k :: e < k < |filename| ==> filename[k] != '.')
        ensures e == d
      {
      }
    } else {
      assert SplitExt(filename).1 == [];
      assert Lower([]) == [];
      forall e | 0 < e < |filename| ensures filename[e] != '.' {
      }
    }
  }

  /** The ".DS_Store" entry can never match, because the extension is
      lower-cased before the lookup and the entry has capitals. */
  lemma DsStoreEntryUnreachable(filename: string)
    ensures Lower(SplitExt(filename).1) != ".DS_Store"
  {
    var e := Lower(SplitExt(filename).1);
    if |e| == |".DS_Store"| {
      assert !('A' <= e[1] <= 'Z');
    }
  }

  /** Every listed extension but ".DS_Store" has at most five characters. */
  lemma ListedLengths()
    ensures forall x :: x in SkipExtensions ==> |x| <= 5 || x == ".DS_Store"
  {
  }

  /** The position of the last `c` is determined by where `c` occurs. */
  lemma LastIndexIs(s: string, c: char, i: int)
    requires -1 <= i < |s| && (i >= 0 ==> s[i] == c)
    requires forall k :: i < k < |s| ==> s[k] != c
    ensures LastIndex(s, c) == i
  {
  }

  /** Sample names: an upper-case image extension and a double suffix are
      skipped, a Python source file is not, and neither is a name whose
      extension is ".DS_Store" preceded by other characters. */
  lemma UpperCaseExtensionSkipped()
    ensures ShouldSkipFile("photo.PNG")
  {
    var f := "photo.PNG";
    LastIndexIs(f, '/', -1);
    LastIndexIs(f, '.', 5);
    assert HasNonDot(f[0..5]) by { assert f[0..5][0] == 'p'; }
    assert Lower(f[5..]) == ".png";
  }

  lemma LastSuffixSkipped()
    ensures ShouldSkipFile("a.tar.gz")
  {
    var f := "a.tar.gz";
    LastIndexIs(f, '/', -1);
    LastIndexIs(f, '.', 5);
    assert HasNonDot(f[0..5]) by { assert f[0..5][0] == 'a'; }
    assert Lower(f[5..]) == ".gz";
  }

  lemma SourceFileKept()
    ensures !ShouldSkipFile("main.py")
  {
    var f := "main.py";
    LastIndexIs(f, '/', -1);
    LastIndexIs(f, '.', 4);
    assert HasNonDot(f[0..4]) by { assert f[0..4][0] == 'm'; }
    assert Lower(f[4..]) == ".py";
  }

  lemma DsStoreSuffixKept()
    ensures !ShouldSkipFile("notes.DS_Store")
  {
    var f := "notes.DS_Store";
    LastIndexIs(f, '/', -1);
    LastIndexIs(f, '.', 5);
    assert HasNonDot(f[0..5]) by { assert f[0..5][0] == 'n'; }
    assert SplitExt(f).1 == f[5..];
    DsStoreEntryUnreachable(f);
    ListedLengths();
  }
}
