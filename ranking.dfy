/** The ranking inside `Retriever.get_relevant_chunks`
    (backend/app/core/retriever.py): score every stored embedding that is
    not empty, sort the (position, score) pairs by score, descending and
    stably, keep the first `top_k`, and only then drop the pairs below
    `min_similarity`. The similarity function is a parameter. */
module Ranking {
  import opened Chunks

  /** One entry of the similarity list: a stored position and its score. */
  datatype Hit = Hit(index: nat, score: real)

  /** `a` ranks strictly ahead of `b`: a higher score, or the same score and
      an earlier position (what a stable descending sort of a list in
      position order produces). */
  predicate Before(a: Hit, b: Hit) {
    a.score > b.score || (a.score == b.score && a.index < b.index)
  }

  predicate StrictlySorted(s: seq<Hit>) {
    forall i, j :: 0 <= i < j < |s| ==> Before(s[i], s[j])
  }

  predicate ScoresNonIncreasing(s: seq<Hit>) {
    forall i, j :: 0 <= i < j < |s| ==> s[i].score >= s[j].score
  }

  /** Among equal scores, earlier positions come first. */
  predicate TiesInPositionOrder(s: seq<Hit>) {
    forall i, j :: 0 <= i < j < |s| && s[i].score == s[j].score ==> s[i].index < s[j].index
  }

  predicate PositionsIncrease(s: seq<Hit>) {
    forall i, j :: 0 <= i < j < |s| ==> s[i].index < s[j].index
  }

  /** The similarity list as the loop builds it: a pair for every stored
      embedding that is not empty, in storage order. */
  function Candidates(embeddings: seq<Vector>, query: Vector, sim: (Vector, Vector) -> real): (r: seq<Hit>)
    ensures forall h :: h in r ==>
              h.index < |embeddings| && embeddings[h.index] != [] && h.score == sim(query, embeddings[h.index])
    ensures forall k :: 0 <= k < |embeddings| && embeddings[k] != [] ==> Hit(k, sim(query, embeddings[k])) in r
    ensures PositionsIncrease(r)
  {
    if embeddings == [] then []
    else
      var n := |embeddings| - 1;
      var prefix := Candidates(embeddings[..n], query, sim);
      assert forall h :: h in prefix ==> h.index < n;
      prefix + (if embeddings[n] == [] then [] else [Hit(n, sim(query, embeddings[n]))])
  }

  /** Insert `h` before the first entry it does not rank behind. */
  function Insert(h: Hit, s: seq<Hit>): (r: seq<Hit>)
    ensures multiset(r) == multiset{h} + multiset(s)
  {
    if s == [] then [h]
    else
      assert s == [s[0]] + s[1..];
      if Before(s[0], h) then [s[0]] + Insert(h, s[1..])
      else [h] + s
  }

  /** A stable sort by descending score (insertion sort). */
  function SortByScore(s: seq<Hit>): (r: seq<Hit>)
    ensures multiset(r) == multiset(s)
  {
    if s == [] then []
    else
      assert s == [s[0]] + s[1..];
      Insert(s[0], SortByScore(s[1..]))
  }

  lemma BeforeTransitive(a: Hit, b: Hit, c: Hit)
    requires Before(a, b) && Before(b, c)
    ensures Before(a, c)
  {
  }

  lemma {:induction false} InsertSorted(h: Hit, s: seq<Hit>)
    requires StrictlySorted(s)
    requires forall x :: x in s ==> x.index != h.index
    ensures StrictlySorted(Insert(h, s))
  {
    if s != [] {
      if Before(s[0], h) {
        InsertSorted(h, s[1..]);
        var t := Insert(h, s[1..]);
        forall x | x in t ensures Before(s[0], x) {
          assert x in multiset(t);
          if x != h {
            assert x in s[1..];
          }
        }
      } else {
        assert Before(h, s[0]);
        forall j | 0 <= j < |s| ensures Before(h, s[j]) {
          if j > 0 {
            BeforeTransitive(h, s[0], s[j]);
          }
        }
      }
    }
  }

  /** Sorting a list with distinct positions yields each pair strictly
      ahead of the next: scores never increase and ties keep position order. */
  lemma {:induction false} SortByScoreSorted(s: seq<Hit>)
    requires forall i, j :: 0 <= i < j < |s| ==> s[i].index != s[j].index
    ensures StrictlySorted(SortByScore(s))
  {
    if s != [] {
      SortByScoreSorted(s[1..]);
      var t := SortByScore(s[1..]);
      forall x | x in t ensures x.index != s[0].index {
        assert x in multiset(s[1..]);
        var j :| 0 <= j < |s[1..]| && s[1..][j] == x;
        assert s[j + 1] == x;
      }
      InsertSorted(s[0], t);
    }
  }

  lemma HeadRanksFirst(s: seq<Hit>)
    requires StrictlySorted(s) && s != []
    ensures forall x :: x in s && x != s[0] ==> Before(s[0], x)
  {
    forall x | x in s && x != s[0] ensures Before(s[0], x) {
      var j :| 0 <= j < |s| && s[j] == x;
    }
  }

  /** Each head ranks ahead of the other unless they are the same pair. */
  lemma SortedHeadsEqual(a: seq<Hit>, b: seq<Hit>)
    requires multiset(a) == multiset(b) && a != [] && b != []
    requires StrictlySorted(a) && StrictlySorted(b)
    ensures a[0] == b[0]
  {
    HeadRanksFirst(a);
    HeadRanksFirst(b);
    assert a[0] in multiset(b) && b[0] in multiset(a);
  }

  /** Two strictly sorted arrangements of the same pairs are the same list. */
  lemma {:induction false} StrictlySortedUnique(a: seq<Hit>, b: seq<Hit>)
    requires multiset(a) == multiset(b)
    requires StrictlySorted(a) && StrictlySorted(b)
    ensures a == b
    decreases |a|
  {
    if a == [] {
      assert |multiset(b)| == 0;
    } else {
      assert |b| == |multiset(b)| == |multiset(a)| == |a|;
      SortedHeadsEqual(a, b);
      assert a == [a[0]] + a[1..] && b == [b[0]] + b[1..];
      assert multiset(a[1..]) == multiset(a) - multiset{a[0]};
      assert multiset(b[1..]) == multiset(b) - multiset{b[0]};
      StrictlySortedUnique(a[1..], b[1..]);
    }
  }

  /** The sort is the stable descending sort: for a list in position order,
      any rearrangement of it with non-increasing scores that keeps equal
      scores in position order is exactly SortByScore's result. */
  lemma StableSortIsUnique(s: seq<Hit>, t: seq<Hit>)
    requires PositionsIncrease(s)
    requires multiset(t) == multiset(s)
    requires ScoresNonIncreasing(t) && TiesInPositionOrder(t)
    ensures t == SortByScore(s)
  {
    SortByScoreSorted(s);
    assert StrictlySorted(t) by {
      forall i, j | 0 <= i < j < |t| ensures Before(t[i], t[j]) {
        assert t[i].score >= t[j].score;
      }
    }
    StrictlySortedUnique(t, SortByScore(s));
  }

  /** The similarity list after the sort. */
  function Ranked(embeddings: seq<Vector>, query: Vector, sim: (Vector, Vector) -> real): seq<Hit> {
    SortByScore(Candidates(embeddings, query, sim))
  }

  /** The first `k` pairs, or all of them when there are fewer. */
  function Top(s: seq<Hit>, k: nat): (r: seq<Hit>)
    ensures |r| == Min(k, |s|)
  {
    s[..Min(k, |s|)]
  }

  /** The pairs whose score reaches the threshold, in their order. */
  function AtLeast(hits: seq<Hit>, minSimilarity: real): (r: seq<Hit>)
    ensures |r| <= |hits|
    ensures forall h :: h in r ==> h in hits && h.score >= minSimilarity
    ensures forall h :: h in hits && h.score >= minSimilarity ==> h in r
    ensures StrictlySorted(hits) ==> StrictlySorted(r)
  {
    if hits == [] then []
    else
      var n := |hits| - 1;
      var prefix := AtLeast(hits[..n], minSimilarity);
      var last := if hits[n].score >= minSimilarity then [hits[n]] else [];
      assert hits == hits[..n] + [hits[n]];
      assert forall h :: h in hits ==> h in hits[..n] || h == hits[n];
      assert StrictlySorted(hits) ==> StrictlySorted(hits[..n]);
      assert StrictlySorted(hits) ==> forall h :: h in prefix ==> Before(h, hits[n]);
      prefix + last
  }

  /** Filtering a list extended by one pair extends the filtered list by
      that pair, if it reaches the threshold. */
  lemma AtLeastStep(hits: seq<Hit>, j: nat, minSimilarity: real)
    requires j < |hits|
    ensures AtLeast(hits[..j + 1], minSimilarity) ==
            AtLeast(hits[..j], minSimilarity) + (if hits[j].score >= minSimilarity then [hits[j]] else [])
  {
    assert hits[..j + 1][..j] == hits[..j];
  }

  /** The pairs get_relevant_chunks returns. */
  function Relevant(embeddings: seq<Vector>, query: Vector, topK: nat, minSimilarity: real,
                    sim: (Vector, Vector) -> real): seq<Hit>
  {
    AtLeast(Top(Ranked(embeddings, query, sim), topK), minSimilarity)
  }

  /** What a query answers: at most `topK` pairs, scores non-increasing,
      ties in storage order; each pair is a stored position whose embedding
      is not empty, scored against the query, at or above the threshold. */
  lemma RelevantSound(embeddings: seq<Vector>, query: Vector, topK: nat, minSimilarity: real,
                      sim: (Vector, Vector) -> real)
    ensures var r := Relevant(embeddings, query, topK, minSimilarity, sim);
            |r| <= topK &&
            ScoresNonIncreasing(r) && TiesInPositionOrder(r) &&
            forall h :: h in r ==>
              h.index < |embeddings| && embeddings[h.index] != [] &&
              h.score == sim(query, embeddings[h.index]) && h.score >= minSimilarity
  {
    var c := Candidates(embeddings, query, sim);
    SortByScoreSorted(c);
    var ranked := Ranked(embeddings, query, sim);
    var top := Top(ranked, topK);
    assert StrictlySorted(top);
    forall h | h in top ensures h in c {
      assert h in ranked;
      assert h in multiset(ranked);
    }
  }

  /** A scored position at or above the threshold is left out only when
      `topK` pairs rank strictly ahead of it: there is no fallback and no
      look past the first `topK`. */
  lemma RelevantComplete(embeddings: seq<Vector>, query: Vector, topK: nat, minSimilarity: real,
                         sim: (Vector, Vector) -> real, k: nat)
    requires k < |embeddings| && embeddings[k] != []
    requires sim(query, embeddings[k]) >= minSimilarity
    requires Hit(k, sim(query, embeddings[k])) !in Relevant(embeddings, query, topK, minSimilarity, sim)
    ensures var ranked := Ranked(embeddings, query, sim);
            topK < |ranked| &&
            forall j :: 0 <= j < topK ==> Before(ranked[j], Hit(k, sim(query, embeddings[k])))
  {
    var hk := Hit(k, sim(query, embeddings[k]));
    var c := Candidates(embeddings, query, sim);
    SortByScoreSorted(c);
    var ranked := Ranked(embeddings, query, sim);
    assert hk in multiset(ranked);
    var p :| 0 <= p < |ranked| && ranked[p] == hk;
    if p < topK {
      assert false;
    }
  }

  /** Without an embedding there is nothing to rank. */
  lemma RelevantOfNothing(query: Vector, topK: nat, minSimilarity: real, sim: (Vector, Vector) -> real)
    ensures Relevant([], query, topK, minSimilarity, sim) == []
  {
  }

  /** The answer is empty exactly when none of the first `topK` ranked pairs
      reaches the threshold, even if others further down would. */
  lemma RelevantEmptyIff(embeddings: seq<Vector>, query: Vector, topK: nat, minSimilarity: real,
                         sim: (Vector, Vector) -> real)
    ensures var top := Top(Ranked(embeddings, query, sim), topK);
            Relevant(embeddings, query, topK, minSimilarity, sim) == [] <==>
            forall j :: 0 <= j < |top| ==> top[j].score < minSimilarity
  {
    var top := Top(Ranked(embeddings, query, sim), topK);
    var r := Relevant(embeddings, query, topK, minSimilarity, sim);
    if r != [] {
      assert r[0] in r;
    }
  }
}
