/** The process-wide registry of retrievers (backend/app/core/shared.py):
    a dictionary from the repository URL, exactly as given, to its
    retriever. The module-level dictionary is an object here; its key order
    (Python dictionaries iterate in first-insertion order) is kept as a
    sequence beside the map. */
module Shared {
  import opened Chunks
  import opened Retrieval

  predicate NoDuplicates(s: seq<string>) {
    forall i, j :: 0 <= i < j < |s| ==> s[i] != s[j]
  }

  /** The keys of an insertion-ordered dictionary after the given insertions:
      every inserted key once, at the place of its first insertion. */
  function FirstOccurrences(history: seq<string>): (r: seq<string>)
    ensures forall u :: u in r <==> u in history
    ensures NoDuplicates(r)
  {
    if history == [] then []
    else
      var n := |history| - 1;
      var prior := FirstOccurrences(history[..n]);
      assert forall u :: u in history[..n] ==> u in history;
      assert forall u :: u in history ==> u in history[..n] || u == history[n];
      if history[n] in history[..n] then prior else prior + [history[n]]
  }

  /** Later insertions never move a key: the key order after `h` is a
      prefix of the key order after `h + more`. */
  lemma {:induction false} FirstOccurrencesStable(h: seq<string>, more: seq<string>)
    ensures |FirstOccurrences(h)| <= |FirstOccurrences(h + more)|
    ensures FirstOccurrences(h) == FirstOccurrences(h + more)[..|FirstOccurrences(h)|]
    decreases |more|
  {
    if more == [] {
      assert h + more == h;
    } else {
      var n := |more| - 1;
      FirstOccurrencesStable(h, more[..n]);
      assert (h + more)[..|h + more| - 1] == h + more[..n];
    }
  }

  class Registry {
    var retrievers: map<string, Retriever>
    var order: seq<string>
    ghost var history: seq<string>  // every URL passed to SetRetriever, in call order

    ghost predicate Valid()
      reads this
    {
      order == FirstOccurrences(history) && forall u :: u in retrievers <==> u in order
    }

    constructor ()
      ensures Valid() && retrievers == map[] && history == []
    {
      retrievers := map[];
      order := [];
      history := [];
    }

    /** get_retriever: the retriever stored under exactly this URL, or None
        when this URL was never set. */
    method GetRetriever(url: string) returns (r: Option<Retriever>)
      requires Valid()
      ensures r == if url in retrievers then Some(retrievers[url]) else None
      ensures r == None <==> url !in history
    {
      if url in retrievers {
        r := Some(retrievers[url]);
      } else {
        r := None;
      }
    }

    /** set_retriever: store (or overwrite) the retriever under this URL;
        every other URL keeps its retriever; a new URL goes to the end of the
        key order, an existing one keeps its place. */
    method SetRetriever(url: string, retriever: Retriever)
      requires Valid()
      modifies this
      ensures Valid()
      ensures retrievers == old(retrievers)[url := retriever]
      ensures history == old(history) + [url]
      ensures order == if url in old(retrievers) then old(order) else old(order) + [url]
    {
      if url !in retrievers {
        order := order + [url];
      }
      retrievers := retrievers[url := retriever];
      history := history + [url];
      assert history[..|history| - 1] == old(history);
    }

    /** list_retrievers: the URLs in first-insertion order, each once. */
    method ListRetrievers() returns (urls: seq<string>)
      requires Valid()
      ensures urls == FirstOccurrences(history) && urls == order
      ensures forall u :: u in urls <==> u in retrievers
      ensures NoDuplicates(urls)
    {
      urls := order;
    }
  }

  /** URLs are compared as given: a trailing slash makes another key. */
  method TrailingSlashIsAnotherKey(r: Retriever) returns (found: Option<Retriever>, urls: seq<string>)
    ensures found == None && urls == ["https://x/y"]
  {
    var registry := new Registry();
    registry.SetRetriever("https://x/y", r);
    found := registry.GetRetriever("https://x/y/");
    urls := registry.ListRetrievers();
  }

  /** Setting a URL again replaces its retriever and keeps its place. */
  method OverwriteKeepsPlace(r1: Retriever, r2: Retriever, r3: Retriever)
    returns (first: Option<Retriever>, second: Option<Retriever>, urls: seq<string>)
    ensures first == Some(r3) && second == Some(r2)
    ensures urls == ["https://a", "https://b"]
  {
    var registry := new Registry();
    registry.SetRetriever("https://a", r1);
    assert registry.order == ["https://a"];
    assert "https://b" != "https://a" by { assert "https://b"[8] != "https://a"[8]; }
    registry.SetRetriever("https://b", r2);
    assert registry.order == ["https://a", "https://b"];
    registry.SetRetriever("https://a", r3);
    assert registry.order == ["https://a", "https://b"];
    first := registry.GetRetriever("https://a");
    second := registry.GetRetriever("https://b");
    urls := registry.ListRetrievers();
  }
}
