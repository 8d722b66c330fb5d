/** The citation block of `main` (streamlit_app.py): one reference button per retrieved
    chunk, labelled with the chunk's file name and 1-based page; clicking one stores that
    page in the session, and the right column shows the stored page's image from the
    naturally sorted listing of the image folder. */
module Citation {
  import opened Decimal
  import opened NaturalSort
  import opened Documents
  import opened PageImages

  // ---------------------------------------------------------------------------
  // Reference buttons
  // ---------------------------------------------------------------------------

  /** What one expander of the answer shows: the chunk's text and a reference button
      for its file and 1-based page, identified by `key`. */
  datatype Reference = Reference(content: string, filePath: string, pageNumber: int, key: string)

  /** `f"link_{file_path}_{page_number}_{i}"` */
  function ButtonKey(filePath: string, pageNumber: int, counter: nat): string {
    "link_" + filePath + "_" + IntToString(pageNumber) + "_" + NatToString(counter)
  }

  /** Whatever the file path and page, the key's last '_'-separated field is the counter. */
  lemma ButtonKeyEndsWithCounter(filePath: string, pageNumber: int, counter: nat)
    ensures LastField(ButtonKey(filePath, pageNumber, counter), '_') == NatToString(counter)
  {
    UnderscoreFree(counter);
    LastFieldOfJoin("link_" + filePath + "_" + IntToString(pageNumber), '_', NatToString(counter));
  }

  /** The button's caption `f" {os.path.basename(file_path)} pg.{page_number}"`. */
  function Caption(r: Reference): string {
    " " + BaseName(r.filePath) + " pg." + IntToString(r.pageNumber)
  }

  /** The expander for the `counter`-th retrieved chunk. */
  function ReferenceOf(c: Chunk, counter: nat): (r: Reference)
    ensures r.pageNumber == PageOf(c) + 1
    ensures r.content == c.pageContent && r.filePath == SourceOf(c)
  {
    var pageNumber := PageOf(c) + 1;
    Reference(c.pageContent, SourceOf(c), pageNumber, ButtonKey(SourceOf(c), pageNumber, counter))
  }

  /** The loop over the retrieved chunks. `clicked` is the position of the button the
      user pressed in this run, if any; `stored` is `st.session_state.page_number` before
      the loop and `storedAfter` after it. */
  method ReferenceButtons(context: seq<Chunk>, clicked: Option<nat>, stored: Option<string>)
    returns (references: seq<Reference>, storedAfter: Option<string>)
    ensures |references| == |context|
    ensures forall k :: 0 <= k < |context| ==> references[k] == ReferenceOf(context[k], k)
    ensures forall k :: 0 <= k < |context| ==> references[k].pageNumber == PageOf(context[k]) + 1
    ensures forall j, k :: 0 <= j < k < |context| ==> references[j].key != references[k].key
    ensures storedAfter ==
      if clicked.Some? && clicked.value < |context|
      then Some(IntToString(PageOf(context[clicked.value]) + 1))
      else stored
  {
    references, storedAfter := [], stored;
    var i := 0;
    for n := 0 to |context|
      invariant i == n == |references|
      invariant forall k :: 0 <= k < n ==> references[k] == ReferenceOf(context[k], k)
      invariant storedAfter ==
        if clicked.Some? && clicked.value < n
        then Some(IntToString(PageOf(context[clicked.value]) + 1))
        else stored
    {
      var reference := ReferenceOf(context[n], i);
      references := references + [reference];
      if clicked == Some(i) {
        storedAfter := Some(IntToString(reference.pageNumber));
      }
      i := i + 1;
    }
    forall k | 0 <= k < |context| ensures references[k].pageNumber == PageOf(context[k]) + 1 {
      assert references[k] == ReferenceOf(context[k], k);
    }
    ReferenceKeysDistinct(context, references);
  }

  /** The references built for a context carry pairwise different button keys. */
  lemma ReferenceKeysDistinct(context: seq<Chunk>, references: seq<Reference>)
    requires |references| == |context|
    requires forall k :: 0 <= k < |context| ==> references[k] == ReferenceOf(context[k], k)
    ensures forall j, k :: 0 <= j < k < |context| ==> references[j].key != references[k].key
  {
    forall j, k | 0 <= j < k < |context| ensures references[j].key != references[k].key {
      ButtonKeysDistinct(SourceOf(context[j]), PageOf(context[j]) + 1, j,
                         SourceOf(context[k]), PageOf(context[k]) + 1, k);
    }
  }

  lemma UnderscoreFree(counter: nat)
    ensures forall i :: 0 <= i < |NatToString(counter)| ==> NatToString(counter)[i] != '_'
  {
    var s := NatToString(counter);
    forall i | 0 <= i < |s| ensures s[i] != '_' {
      assert IsDigit(s[i]);
    }
  }

  /** The caption names the file without its directory, and the 1-based page. */
  lemma CaptionShowsFileName(dir: string, name: string, r: Reference)
    requires forall i :: 0 <= i < |name| ==> name[i] != '/'
    requires r.filePath == dir + "/" + name
    ensures Caption(r) == " " + name + " pg." + IntToString(r.pageNumber)
  {
    LastFieldOfJoin(dir, '/', name);
  }

  /** The trailing counter makes the keys of different buttons differ, whatever their
      files and pages, so Streamlit never sees two widgets with one key. */
  lemma ButtonKeysDistinct(f: string, p: int, i: nat, g: string, q: int, j: nat)
    requires i != j
    ensures ButtonKey(f, p, i) != ButtonKey(g, q, j)
  {
    ButtonKeyEndsWithCounter(f, p, i);
    ButtonKeyEndsWithCounter(g, q, j);
    NatToStringInjective(i, j);
  }

  // ---------------------------------------------------------------------------
  // Showing the cited page
  // ---------------------------------------------------------------------------

  datatype PyError = ValueError | IndexError

  /** What the right column does for a stored page and a listing of the image folder. */
  datatype PageView = NothingShown | ShowImage(path: string, pageNumber: int) | Crash(error: PyError)

  /** Python's `xs[index]`: negative indices count from the end. */
  function PyIndex(xs: seq<string>, index: int): (r: Option<string>)
    ensures r.Some? <==> -|xs| <= index < |xs|
    ensures 0 <= index < |xs| ==> r == Some(xs[index])
    ensures -|xs| <= index < 0 ==> r == Some(xs[|xs| + index])
  {
    if 0 <= index < |xs| then Some(xs[index])
    else if -|xs| <= index < 0 then Some(xs[|xs| + index])
    else None
  }

  /** The image paths of the folder, ordered by the natural sort key. */
  function SortedImagePaths(listing: seq<string>): (paths: seq<string>)
    ensures |paths| == |listing|
    ensures multiset(listing) == multiset(PageFileNames(|listing|)) ==>
      forall p :: 1 <= p <= |paths| ==> paths[p - 1] == PageImagePath(p)
  {
    var images := NaturalSorted(listing);
    var paths := seq(|images|, i requires 0 <= i < |images| => JoinPath(ImageFolder, images[i]));
    assert multiset(listing) == multiset(PageFileNames(|listing|)) ==>
      forall p :: 1 <= p <= |paths| ==> paths[p - 1] == PageImagePath(p) by {
      if multiset(listing) == multiset(PageFileNames(|listing|)) {
        SortedListingIsPageOrder(|listing|, listing);
        forall p | 1 <= p <= |paths| ensures paths[p - 1] == PageImagePath(p) {
          assert images[p - 1] == PageFileName(p);
        }
      }
    }
    paths
  }

  /** The right column as written: `if page_number:` skips a missing or empty value,
      `int(...)` may raise ValueError, and `image_paths[page_number - 1]` is not checked
      against the number of images. */
  function ShowReferencedPageAsWritten(stored: Option<string>, listing: seq<string>): (v: PageView)
    ensures stored.None? || stored == Some("") ==> v == NothingShown
    ensures v == Crash(ValueError) <==> stored.Some? && stored.value != "" && ParseInt(stored.value).None?
  {
    if stored.None? || stored.value == "" then NothingShown
    else
      match ParseInt(stored.value)
      case None => Crash(ValueError)
      case Some(pageNumber) =>
        match PyIndex(SortedImagePaths(listing), pageNumber - 1)
        case None => Crash(IndexError)
        case Some(path) => ShowImage(path, pageNumber)
  }

  /** A stored page past the last image crashes the page with IndexError. */
  lemma PastLastPageCrashes(pageNumber: int, listing: seq<string>)
    requires pageNumber > |listing|
    ensures ShowReferencedPageAsWritten(Some(IntToString(pageNumber)), listing) == Crash(IndexError)
  {
    ParseIntToString(pageNumber);
  }

  /** A stored page 0 (a chunk whose `page` metadata is -1) silently shows the last image. */
  lemma PageZeroWrapsToLastPage(n: nat, listing: seq<string>)
    requires n >= 1 && multiset(listing) == multiset(PageFileNames(n))
    ensures ShowReferencedPageAsWritten(Some("0"), listing) == ShowImage(PageImagePath(n), 0)
  {
    assert |listing| == n by {
      assert |multiset(listing)| == |multiset(PageFileNames(n))|;
    }
    assert ParseInt("0") == Some(0) by {
      ParseIntToString(0);
      assert IntToString(0) == "0";
    }
    var paths := SortedImagePaths(listing);
    assert paths[n - 1] == PageImagePath(n);
    assert PyIndex(paths, 0 - 1) == Some(PageImagePath(n));
  }

  /** A concrete case: with two page images, a citation of page 3 crashes. */
  lemma PageThreeOfTwoCrashes()
    ensures ShowReferencedPageAsWritten(Some("3"), ["page_2.png", "page_1.png"]) == Crash(IndexError)
  {
    PastLastPageCrashes(3, ["page_2.png", "page_1.png"]);
  }

  /** The outcome of resolving a stored citation. */
  datatype Citation = NoCitation | PageImage(path: string, pageNumber: int) | CitationUnavailable

  /** The right column with the page checked against the images: a page that cannot be
      read or has no image is reported instead of indexing out of range or wrapping. */
  function ResolveCitation(stored: Option<string>, listing: seq<string>): (c: Citation)
    ensures c == NoCitation <==> stored.None? || stored == Some("")
    ensures c.PageImage? <==>
      stored.Some? && stored.value != "" && ParseInt(stored.value).Some? &&
      1 <= ParseInt(stored.value).value <= |listing|
    ensures c.PageImage? ==>
      c.pageNumber == ParseInt(stored.value).value &&
      c.path == JoinPath(ImageFolder, NaturalSorted(listing)[c.pageNumber - 1])
  {
    if stored.None? || stored.value == "" then NoCitation
    else
      match ParseInt(stored.value)
      case None => CitationUnavailable
      case Some(pageNumber) =>
        var paths := SortedImagePaths(listing);
        if 1 <= pageNumber <= |paths| then PageImage(paths[pageNumber - 1], pageNumber)
        else CitationUnavailable
  }

  /** Wherever the page is in range, the checked lookup shows what the code as written
      shows; outside it the code as written crashes or wraps and the checked lookup
      reports the citation as unavailable. */
  lemma ResolveCitationAgrees(stored: Option<string>, listing: seq<string>)
    ensures match ResolveCitation(stored, listing)
      case NoCitation => ShowReferencedPageAsWritten(stored, listing) == NothingShown
      case PageImage(path, p) => ShowReferencedPageAsWritten(stored, listing) == ShowImage(path, p)
      case CitationUnavailable =>
        ShowReferencedPageAsWritten(stored, listing).Crash? ||
        ShowReferencedPageAsWritten(stored, listing).pageNumber < 1
  {
  }

  /** End to end: clicking the reference of a chunk on 0-based page `k` shows that page's
      image, in whatever order the folder is listed, when the folder holds the images
      `page_1.png` … `page_n.png` written by `ConvertPdfToImages` (the folder is never
      cleared, so n is the number of images there, which may exceed the current PDF's
      page count). */
  lemma CitedChunkShowsItsPage(c: Chunk, n: nat, listing: seq<string>)
    requires 0 <= PageOf(c) < n
    requires multiset(listing) == multiset(PageFileNames(n))
    ensures ResolveCitation(Some(IntToString(ReferenceOf(c, 0).pageNumber)), listing) ==
      PageImage(PageImagePath(PageOf(c) + 1), PageOf(c) + 1)
  {
    var p := PageOf(c) + 1;
    assert |listing| == n by {
      assert |multiset(listing)| == |multiset(PageFileNames(n))|;
    }
    assert ReferenceOf(c, 0).pageNumber == p;
    ParseIntToString(p);
    assert SortedImagePaths(listing)[p - 1] == PageImagePath(p);
  }
}
