/** The page-grouping and progress loop of `save_to_vector_store` (streamlit_app.py).
    Chunks are bucketed by their page, the buckets are walked in ascending page order,
    and one progress value 0.3 + 0.6 * processed / total is reported per page. The
    embedding service and the vector store are not modelled: the per-chunk index built
    inside the loop is discarded by the source, and the final index is built from the
    chunks in their original order. */
module Indexer {
  import opened Documents

  // ---------------------------------------------------------------------------
  // Reference definitions: grouping by page
  // ---------------------------------------------------------------------------

  /** The chunks of `docs` on page `page`, in their order in `docs`. */
  function ChunksOnPage(docs: seq<Chunk>, page: int): seq<Chunk> {
    if docs == [] then []
    else
      var last := docs[|docs| - 1];
      ChunksOnPage(docs[..|docs| - 1], page) + (if PageOf(last) == page then [last] else [])
  }

  /** The page keys that occur in `docs`. */
  function PagesOf(docs: seq<Chunk>): set<int> {
    set c | c in docs :: PageOf(c)
  }

  /** The groups for the pages `pages`, concatenated in that order. */
  function GroupsInOrder(docs: seq<Chunk>, pages: seq<int>): seq<Chunk> {
    if pages == [] then []
    else GroupsInOrder(docs, pages[..|pages| - 1]) + ChunksOnPage(docs, pages[|pages| - 1])
  }

  predicate SortedByPage(docs: seq<Chunk>) {
    forall i, j :: 0 <= i < j < |docs| ==> PageOf(docs[i]) <= PageOf(docs[j])
  }

  /** `out` is `docs` sorted stably by page: ordered by page, and on every page the same
      chunks in the same relative order (hence a permutation). */
  ghost predicate StableSortByPage(docs: seq<Chunk>, out: seq<Chunk>) {
    && SortedByPage(out)
    && (forall page :: ChunksOnPage(out, page) == ChunksOnPage(docs, page))
    && multiset(out) == multiset(docs)
  }

  predicate StrictlyIncreasing(pages: seq<int>) {
    forall i, j :: 0 <= i < j < |pages| ==> pages[i] < pages[j]
  }

  predicate IsLowerBound(least: int, pages: set<int>) {
    forall k :: k in pages ==> least <= k
  }

  lemma MinimumExists(pages: set<int>)
    requires pages != {}
    ensures exists least :: least in pages && IsLowerBound(least, pages)
    decreases |pages|
  {
    assert exists x :: x in pages by {
      if forall x :: x !in pages {
        assert false;
      }
    }
    var x :| x in pages;
    var rest := pages - {x};
    if rest == {} {
      assert IsLowerBound(x, pages) by {
        forall k | k in pages ensures x <= k {
          assert k !in rest;
        }
      }
    } else {
      MinimumExists(rest);
      var least :| least in rest && IsLowerBound(least, rest);
      var m := if x < least then x else least;
      assert IsLowerBound(m, pages) by {
        forall k | k in pages ensures m <= k {
          if k != x {
            assert k in rest;
          }
        }
      }
    }
  }

  /** The smallest page key of a non-empty set. */
  function Least(pages: set<int>): (least: int)
    requires pages != {}
    ensures least in pages && IsLowerBound(least, pages)
  {
    MinimumExists(pages);
    var least :| least in pages && IsLowerBound(least, pages);
    least
  }

  /** `sorted(page_groups.keys())`: every key once, in ascending order. */
  function SortedPages(pages: set<int>): (ks: seq<int>)
    ensures |ks| == |pages|
    ensures forall k :: k in ks <==> k in pages
    ensures StrictlyIncreasing(ks)
    decreases |pages|
  {
    if pages == {} then []
    else
      var least := Least(pages);
      var rest := SortedPages(pages - {least});
      assert forall i :: 0 <= i < |rest| ==> least < rest[i] by {
        forall i | 0 <= i < |rest| ensures least < rest[i] {
          assert rest[i] in rest;
        }
      }
      [least] + rest
  }

  // ---------------------------------------------------------------------------
  // Reference definitions: progress
  // ---------------------------------------------------------------------------

  /** `0.3 + (processed_pages / total_pages) * 0.6`, as an exact rational. */
  function ProgressValue(processed: nat, total: nat): real
    requires 0 < total
  {
    0.3 + (processed as real / total as real) * 0.6
  }

  /** 0.3 before any page, above 0.3 after the first, never above 0.9, and exactly 0.9
      after the last. */
  lemma ProgressValueBounds(processed: nat, total: nat)
    requires 0 < total
    ensures processed <= total ==> 0.3 <= ProgressValue(processed, total) <= 0.9
    ensures processed == 0 ==> ProgressValue(processed, total) == 0.3
    ensures 0 < processed ==> 0.3 < ProgressValue(processed, total)
    ensures processed == total ==> ProgressValue(processed, total) == 0.9
  {
    var p, t := processed as real, total as real;
    var f := p / t;
    assert f * t == p;
  }

  lemma ProgressValueMonotone(a: nat, b: nat, total: nat)
    requires 0 < a < b <= total
    ensures ProgressValue(a, total) < ProgressValue(b, total)
  {
    var t := total as real;
    assert (b as real / t) - (a as real / t) == (b - a) as real / t;
  }

  /** Strictly increasing, above 0.3 and at most 0.9, ending at exactly 0.9. */
  predicate RisesToNinety(progress: seq<real>) {
    && (forall i, j :: 0 <= i < j < |progress| ==> progress[i] < progress[j])
    && (forall i :: 0 <= i < |progress| ==> 0.3 < progress[i] <= 0.9)
    && (progress != [] ==> progress[|progress| - 1] == 0.9)
  }

  /** The values reported while indexing a document whose chunks fall on `total` pages:
      one per page, after that page's chunks. */
  function IndexingProgress(total: nat): seq<real> {
    seq(total, t requires 0 <= t < total => ProgressValue(t + 1, total))
  }

  /** The per-page progress rises strictly from above 0.3 to exactly 0.9. */
  lemma IndexingProgressRises(total: nat)
    ensures |IndexingProgress(total)| == total
    ensures RisesToNinety(IndexingProgress(total))
  {
    var progress := IndexingProgress(total);
    forall i, j | 0 <= i < j < total ensures progress[i] < progress[j] {
      ProgressValueMonotone(i + 1, j + 1, total);
    }
    forall i | 0 <= i < total ensures 0.3 < progress[i] <= 0.9 {
      ProgressValueBounds(i + 1, total);
    }
    if total > 0 {
      ProgressValueBounds(total, total);
    }
  }

  // ---------------------------------------------------------------------------
  // save_to_vector_store
  // ---------------------------------------------------------------------------

  /** `groups` is the `page_groups` dictionary of `docs`: one entry per page that occurs,
      holding that page's chunks in document order. */
  ghost predicate IsPageGrouping(docs: seq<Chunk>, groups: map<int, seq<Chunk>>) {
    && groups.Keys == PagesOf(docs)
    && forall page :: page in groups ==> groups[page] == ChunksOnPage(docs, page)
  }

  /** Every chunk lands in the group of its own page and in no other. */
  lemma EachChunkInOneGroup(docs: seq<Chunk>, groups: map<int, seq<Chunk>>, c: Chunk)
    requires IsPageGrouping(docs, groups)
    requires c in docs
    ensures PageOf(c) in groups && c in groups[PageOf(c)]
    ensures forall page :: page in groups && page != PageOf(c) ==> c !in groups[page]
  {
    ChunksOnPageMembers(docs, PageOf(c));
    forall page | page in groups && page != PageOf(c) ensures c !in groups[page] {
      ChunksOnPageMembers(docs, page);
    }
  }

  /** The first loop of `save_to_vector_store`: bucket the chunks by
      `doc.metadata.get('page', 0)`, creating a bucket on a page's first chunk. */
  method GroupByPage(documents: seq<Chunk>) returns (pageGroups: map<int, seq<Chunk>>)
    ensures IsPageGrouping(documents, pageGroups)
  {
    pageGroups := map[];
    for n := 0 to |documents|
      invariant IsPageGrouping(documents[..n], pageGroups)
    {
      var doc := documents[n];
      var pageNum := PageOf(doc);
      if pageNum !in pageGroups {
        ChunksOnAbsentPage(documents[..n], pageNum);
        pageGroups := pageGroups[pageNum := []];
      }
      pageGroups := pageGroups[pageNum := pageGroups[pageNum] + [doc]];
      ChunksOnPageSnoc(documents, n);
    }
    assert documents[..|documents|] == documents;
  }

  /** The inner loop of the page walk: append a page's chunks one by one to `all_docs`
      (the throw-away one-chunk index built beside each append is not modelled). */
  method AppendChunks(allDocs: seq<Chunk>, pageDocs: seq<Chunk>) returns (r: seq<Chunk>)
    ensures r == allDocs + pageDocs
  {
    r := allDocs;
    for m := 0 to |pageDocs|
      invariant r == allDocs + pageDocs[..m]
    {
      r := r + [pageDocs[m]];
      assert pageDocs[..m + 1] == pageDocs[..m] + [pageDocs[m]];
    }
    assert pageDocs[..|pageDocs|] == pageDocs;
  }

  /** The second loop of `save_to_vector_store`: walk the pages in ascending order, append
      each page's chunks to `all_docs` and report one progress value per page. */
  method WalkPages(documents: seq<Chunk>, pageGroups: map<int, seq<Chunk>>)
    returns (allDocs: seq<Chunk>, progress: seq<real>, processedPages: nat)
    requires IsPageGrouping(documents, pageGroups)
    ensures allDocs == GroupsInOrder(documents, SortedPages(pageGroups.Keys))
    ensures progress == IndexingProgress(|pageGroups|)
    ensures processedPages == |pageGroups|
  {
    allDocs, progress := [], [];
    var totalPages := |pageGroups|;
    processedPages := 0;
    var pages := SortedPages(pageGroups.Keys);
    for j := 0 to |pages|
      invariant processedPages == j == |progress|
      invariant allDocs == GroupsInOrder(documents, pages[..j])
      invariant progress == IndexingProgress(totalPages)[..j]
    {
      var pageDocs := pageGroups[pages[j]];
      allDocs := AppendChunks(allDocs, pageDocs);
      GroupsInOrderSnoc(documents, pages, j);
      processedPages := processedPages + 1;
      progress := progress + [ProgressValue(processedPages, totalPages)];
      IndexingProgressSnoc(totalPages, j);
    }
    assert pages[..|pages|] == pages;
  }

  /** `save_to_vector_store(documents, progress_bar, status_text)`; `showProgress` stands
      for both widgets being given. Returns the chunks the final index is built from, the
      `all_docs` list and the reported progress values. */
  method SaveToVectorStore(documents: seq<Chunk>, showProgress: bool)
    returns (indexed: seq<Chunk>, allDocs: seq<Chunk>, progress: seq<real>)
    ensures indexed == documents
    ensures !showProgress ==> allDocs == [] && progress == []
    ensures showProgress ==> StableSortByPage(documents, allDocs)
    ensures showProgress ==> progress == IndexingProgress(|PagesOf(documents)|)
    ensures RisesToNinety(progress)
    ensures progress == [] <==> !showProgress || documents == []
  {
    allDocs, progress := [], [];
    if showProgress {
      var pageGroups := GroupByPage(documents);
      var processedPages;
      allDocs, progress, processedPages := WalkPages(documents, pageGroups);
      GroupsInOrderIsStableSort(documents, SortedPages(pageGroups.Keys));
      IndexingProgressRises(|pageGroups|);
      if documents != [] {
        assert PageOf(documents[0]) in pageGroups;
      }
    }
    indexed := documents;
  }

  // ---------------------------------------------------------------------------
  // Lemmas: the page walk is a stable sort by page
  // ---------------------------------------------------------------------------

  lemma GroupsInOrderSnoc(docs: seq<Chunk>, pages: seq<int>, j: nat)
    requires j < |pages|
    ensures GroupsInOrder(docs, pages[..j + 1]) ==
      GroupsInOrder(docs, pages[..j]) + ChunksOnPage(docs, pages[j])
  {
    assert pages[..j + 1][..j] == pages[..j];
  }

  lemma IndexingProgressSnoc(total: nat, j: nat)
    requires j < total
    ensures IndexingProgress(total)[..j + 1] ==
      IndexingProgress(total)[..j] + [ProgressValue(j + 1, total)]
  {
  }

  /** Extending the prefix by one chunk adds its page and extends that page's group. */
  lemma ChunksOnPageSnoc(docs: seq<Chunk>, n: nat)
    requires n < |docs|
    ensures PagesOf(docs[..n + 1]) == PagesOf(docs[..n]) + {PageOf(docs[n])}
    ensures forall page :: (ChunksOnPage(docs[..n + 1], page) ==
      ChunksOnPage(docs[..n], page) + (if PageOf(docs[n]) == page then [docs[n]] else []))
  {
    assert docs[..n + 1] == docs[..n] + [docs[n]];
    assert docs[..n + 1][..n] == docs[..n];
  }

  lemma {:induction false} ChunksOnPageAppend(a: seq<Chunk>, b: seq<Chunk>, page: int)
    ensures ChunksOnPage(a + b, page) == ChunksOnPage(a, page) + ChunksOnPage(b, page)
    decreases |b|
  {
    if b == [] {
      assert a + b == a;
    } else {
      var init := b[..|b| - 1];
      ChunksOnPageAppend(a, init, page);
      assert (a + b)[..|a + b| - 1] == a + init;
    }
  }

  /** Every chunk of a group is on that group's page, and each chunk of `docs` on that page
      is in it. */
  lemma {:induction false} ChunksOnPageMembers(docs: seq<Chunk>, page: int)
    ensures forall c :: c in ChunksOnPage(docs, page) <==> c in docs && PageOf(c) == page
  {
    if docs != [] {
      ChunksOnPageMembers(docs[..|docs| - 1], page);
      assert docs == docs[..|docs| - 1] + [docs[|docs| - 1]];
    }
  }

  /** Filtering a group by a page keeps it whole or empties it. */
  lemma {:induction false} ChunksOnPageOfGroup(docs: seq<Chunk>, group: int, page: int)
    ensures ChunksOnPage(ChunksOnPage(docs, group), page) ==
      if group == page then ChunksOnPage(docs, page) else []
  {
    if docs != [] {
      var init := docs[..|docs| - 1];
      var last := docs[|docs| - 1];
      ChunksOnPageOfGroup(init, group, page);
      var tail := if PageOf(last) == group then [last] else [];
      ChunksOnPageAppend(ChunksOnPage(init, group), tail, page);
      if PageOf(last) == group {
        assert ChunksOnPage(tail, page) == ChunksOnPage([], page) + (if PageOf(last) == page then [last] else []);
      }
    }
  }

  lemma StrictlyIncreasingInit(pages: seq<int>)
    requires pages != [] && StrictlyIncreasing(pages)
    ensures StrictlyIncreasing(pages[..|pages| - 1])
    ensures pages[|pages| - 1] !in pages[..|pages| - 1]
  {
  }

  /** Each page's chunks appear in the concatenated groups exactly as in `docs`. */
  lemma InitOrLast(pages: seq<int>, page: int)
    requires pages != []
    ensures page in pages <==> page in pages[..|pages| - 1] || page == pages[|pages| - 1]
  {
    assert pages == pages[..|pages| - 1] + [pages[|pages| - 1]];
  }

  lemma {:induction false} GroupsInOrderOnPage(docs: seq<Chunk>, pages: seq<int>, page: int)
    requires StrictlyIncreasing(pages)
    ensures ChunksOnPage(GroupsInOrder(docs, pages), page) ==
      if page in pages then ChunksOnPage(docs, page) else []
  {
    if pages != [] {
      var init := pages[..|pages| - 1];
      var last := pages[|pages| - 1];
      var a, b := GroupsInOrder(docs, init), ChunksOnPage(docs, last);
      assert GroupsInOrder(docs, pages) == a + b;
      StrictlyIncreasingInit(pages);
      GroupsInOrderOnPage(docs, init, page);
      ChunksOnPageAppend(a, b, page);
      ChunksOnPageOfGroup(docs, last, page);
      InitOrLast(pages, page);
      if page == last {
        assert ChunksOnPage(a, page) == [];
        assert ChunksOnPage(a + b, page) == ChunksOnPage(docs, page);
      } else {
        assert ChunksOnPage(b, page) == [];
        assert page in pages <==> page in init;
      }
    }
  }

  /** The concatenated groups are ordered by page and hold only those pages. */
  lemma {:induction false} GroupsInOrderSorted(docs: seq<Chunk>, pages: seq<int>)
    requires StrictlyIncreasing(pages)
    ensures SortedByPage(GroupsInOrder(docs, pages))
    ensures forall c :: c in GroupsInOrder(docs, pages) ==> PageOf(c) in pages
  {
    if pages != [] {
      var init := pages[..|pages| - 1];
      var last := pages[|pages| - 1];
      GroupsInOrderSorted(docs, init);
      ChunksOnPageMembers(docs, last);
      var a, b := GroupsInOrder(docs, init), ChunksOnPage(docs, last);
      var all := a + b;
      forall i, j | 0 <= i < j < |all| ensures PageOf(all[i]) <= PageOf(all[j]) {
        if j >= |a| {
          assert all[j] in b;
          if i < |a| {
            assert all[i] in a;
            var k :| 0 <= k < |init| && init[k] == PageOf(all[i]);
          } else {
            assert all[i] in b;
          }
        } else {
          assert all[i] == a[i] && all[j] == a[j];
        }
      }
      forall c | c in all ensures PageOf(c) in pages {
        assert pages == init + [last];
      }
    }
  }

  /** Occurrences of a chunk are the occurrences on its own page. */
  lemma {:induction false} CountOnOwnPage(docs: seq<Chunk>, c: Chunk)
    ensures multiset(docs)[c] == multiset(ChunksOnPage(docs, PageOf(c)))[c]
  {
    if docs != [] {
      var init := docs[..|docs| - 1];
      CountOnOwnPage(init, c);
      assert docs == init + [docs[|docs| - 1]];
    }
  }

  /** Equal per-page filters mean equal multisets. */
  lemma SamePagesSameMultiset(a: seq<Chunk>, b: seq<Chunk>)
    requires forall page :: ChunksOnPage(a, page) == ChunksOnPage(b, page)
    ensures multiset(a) == multiset(b)
  {
    forall c ensures multiset(a)[c] == multiset(b)[c] {
      CountOnOwnPage(a, c);
      CountOnOwnPage(b, c);
    }
  }

  /** A page with no chunk has an empty group. */
  lemma ChunksOnAbsentPage(docs: seq<Chunk>, page: int)
    requires page !in PagesOf(docs)
    ensures ChunksOnPage(docs, page) == []
  {
    ChunksOnPageMembers(docs, page);
  }

  /** Walking the groups of all pages in ascending order is a stable sort by page. */
  lemma GroupsInOrderIsStableSort(docs: seq<Chunk>, pages: seq<int>)
    requires StrictlyIncreasing(pages)
    requires forall k :: k in pages <==> k in PagesOf(docs)
    ensures StableSortByPage(docs, GroupsInOrder(docs, pages))
  {
    var out := GroupsInOrder(docs, pages);
    GroupsInOrderSorted(docs, pages);
    forall page ensures ChunksOnPage(out, page) == ChunksOnPage(docs, page) {
      GroupsInOrderOnPage(docs, pages, page);
      if page !in pages {
        ChunksOnAbsentPage(docs, page);
      }
    }
    SamePagesSameMultiset(out, docs);
  }
}
