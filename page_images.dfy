/** `convert_pdf_to_images` (streamlit_app.py): one PNG per page, named with its 1-based
    page number, and the order `sorted(os.listdir(...), key=natural_sort_key)` gives back. */
module PageImages {
  import opened Decimal
  import opened NaturalSort

  /** Folder the page images are written to (`output_folder`, `image_folder`). */
  const ImageFolder: string := "PDF_\U{c774}\U{bbf8}\U{c9c0}"

  // ---------------------------------------------------------------------------
  // os.path on POSIX paths
  // ---------------------------------------------------------------------------

  /** The position of the last `sep` in `s[..end]`, or -1 when there is none. */
  function LastSeparator(s: string, sep: char, end: nat): (pos: int)
    requires end <= |s|
    ensures -1 <= pos < end
    ensures pos >= 0 ==> s[pos] == sep
    ensures forall i :: pos < i < end ==> s[i] != sep
  {
    if end == 0 then -1
    else if s[end - 1] == sep then end - 1
    else LastSeparator(s, sep, end - 1)
  }

  /** The part of `s` after its last `sep` (all of `s` when there is none). */
  function LastField(s: string, sep: char): string {
    s[LastSeparator(s, sep, |s|) + 1..]
  }

  predicate SlashFree(s: string) {
    forall i :: 0 <= i < |s| ==> s[i] != '/'
  }

  /** A separator followed only by non-separators up to `end` is the last one before `end`. */
  lemma {:induction false} LastSeparatorAt(s: string, sep: char, end: nat, pos: nat)
    requires pos < end <= |s| && s[pos] == sep
    requires forall i :: pos < i < end ==> s[i] != sep
    ensures LastSeparator(s, sep, end) == pos
    decreases end
  {
    if end - 1 != pos {
      LastSeparatorAt(s, sep, end - 1, pos);
    }
  }

  /** `os.path.basename(path)`: the part after the last '/'. */
  function BaseName(path: string): (b: string)
    ensures |b| <= |path| && b == path[|path| - |b|..]
    ensures SlashFree(b)
    ensures |b| < |path| ==> path[|path| - |b| - 1] == '/'
  {
    LastField(path, '/')
  }

  /** A slash-free name after an empty prefix or one ending in '/' is the base name. */
  lemma BaseNameAfterSlash(prefix: string, name: string)
    requires prefix == [] || prefix[|prefix| - 1] == '/'
    requires SlashFree(name)
    ensures BaseName(prefix + name) == name
  {
    if prefix == [] {
      assert prefix + name == name;
      assert |BaseName(name)| == |name|;
    } else {
      var dir := prefix[..|prefix| - 1];
      assert prefix + name == dir + ['/'] + name;
      LastFieldOfJoin(dir, '/', name);
    }
  }

  /** Whatever comes before the separator, a separator-free tail is the last field. */
  lemma LastFieldOfJoin(a: string, sep: char, d: string)
    requires forall i :: 0 <= i < |d| ==> d[i] != sep
    ensures LastField(a + [sep] + d, sep) == d
  {
    var x := a + [sep] + d;
    forall i | |a| < i < |x| ensures x[i] != sep {
      assert x[i] == d[i - |a| - 1];
    }
    LastSeparatorAt(x, sep, |x|, |a|);
    assert x[|a| + 1..] == d;
  }

  /** `os.path.join(folder, name)` on POSIX: an absolute name replaces the folder, and a
      separator is added unless the folder is empty or already ends in one. */
  function JoinPath(folder: string, name: string): string {
    if name != [] && name[0] == '/' then name
    else if folder == [] || folder[|folder| - 1] == '/' then folder + name
    else folder + "/" + name
  }

  /** Joining never loses the name: it is always the tail of the joined path, and for a
      name without '/' it is the base name of the joined path, whatever the folder. */
  lemma JoinPathBaseName(folder: string, name: string)
    ensures |name| <= |JoinPath(folder, name)|
    ensures JoinPath(folder, name)[|JoinPath(folder, name)| - |name|..] == name
    ensures SlashFree(name) ==> BaseName(JoinPath(folder, name)) == name
  {
    if !(name != [] && name[0] == '/') {
      var prefix := if folder == [] || folder[|folder| - 1] == '/' then folder else folder + "/";
      assert JoinPath(folder, name) == prefix + name;
      if SlashFree(name) {
        BaseNameAfterSlash(prefix, name);
      }
    }
  }

  /** `f"page_{page}.png"` */
  function PageFileName(page: nat): string {
    "page_" + NatToString(page) + ".png"
  }

  /** The sort key of `page_{n}.png` is ["page_", n, ".png"]. */
  lemma PageFileNameKey(page: nat)
    ensures NaturalSortKey(PageFileName(page)) == [Text("page_"), Num(page), Text(".png")]
  {
    PrefixDigitFree();
    NumberedNameKey("page_", page, ".png");
  }

  /** The file names written for an n-page document, page 1 first. */
  function PageFileNames(n: nat): seq<string> {
    seq(n, i requires 0 <= i < n => PageFileName(i + 1))
  }

  /** The path stored for a page image. */
  function PageImagePath(page: nat): string {
    JoinPath(ImageFolder, PageFileName(page))
  }

  /** The rendering loop of `convert_pdf_to_images` for a document of `pageCount` pages;
      rasterising and saving each page is not modelled. Exactly one path per page, in page
      order, no two alike. */
  method ConvertPdfToImages(pageCount: nat) returns (imagePaths: seq<string>)
    ensures |imagePaths| == pageCount
    ensures forall i :: 0 <= i < pageCount ==> imagePaths[i] == PageImagePath(i + 1)
    ensures forall i, j :: 0 <= i < j < pageCount ==> imagePaths[i] != imagePaths[j]
  {
    imagePaths := [];
    for pageNum := 0 to pageCount
      invariant |imagePaths| == pageNum
      invariant forall i :: 0 <= i < pageNum ==> imagePaths[i] == PageImagePath(i + 1)
    {
      var imagePath := JoinPath(ImageFolder, PageFileName(pageNum + 1));
      imagePaths := imagePaths + [imagePath];
    }
    forall i, j | 0 <= i < j < pageCount ensures imagePaths[i] != imagePaths[j] {
      PageImagePathsDistinct(i + 1, j + 1);
    }
  }

  lemma PrefixDigitFree()
    ensures DigitFree("page_") && DigitFree(".png")
  {
  }

  /** Different pages get different file names and paths. */
  lemma PageImagePathsDistinct(p: nat, q: nat)
    requires p != q
    ensures PageFileName(p) != PageFileName(q)
    ensures PageImagePath(p) != PageImagePath(q)
  {
    PrefixDigitFree();
    NumberedNameKey("page_", p, ".png");
    NumberedNameKey("page_", q, ".png");
    var a, b := PageFileName(p), PageFileName(q);
    assert a[0] == 'p' && b[0] == 'p';
    var folder := ImageFolder;
    assert folder != [] && folder[|folder| - 1] != '/';
    assert JoinPath(folder, a) == folder + "/" + a;
    assert JoinPath(folder, b) == folder + "/" + b;
    if folder + "/" + a == folder + "/" + b {
      PrefixCancel(folder + "/", a, b);
    }
  }

  lemma PrefixCancel(x: string, a: string, b: string)
    requires x + a == x + b
    ensures a == b
  {
    assert a == (x + a)[|x|..];
    assert b == (x + b)[|x|..];
  }

  /** The rendered names are strictly ascending in the natural order. */
  lemma PageFileNamesAscending(n: nat)
    ensures forall i, j :: 0 <= i < j < n ==> NaturalLess(PageFileNames(n)[i], PageFileNames(n)[j])
  {
    PrefixDigitFree();
    NumberedNamesAscending(PageFileNames(n), "page_", ".png");
  }

  /** However the directory lists the n rendered names, sorting them with
      `natural_sort_key` gives page 1, page 2, ..., page n: entry p-1 is page p. */
  lemma SortedListingIsPageOrder(n: nat, listing: seq<string>)
    requires multiset(listing) == multiset(PageFileNames(n))
    ensures NaturalSorted(listing) == PageFileNames(n)
    ensures forall p :: 1 <= p <= n ==> NaturalSorted(listing)[p - 1] == PageFileName(p)
  {
    var sorted := NaturalSorted(listing);
    SortedPageNames(n, sorted);
    forall p | 1 <= p <= n ensures sorted[p - 1] == PageFileName(p) {
      assert sorted[p - 1] == PageFileNames(n)[p - 1];
    }
  }

  /** The only naturally sorted arrangement of the n rendered names is page order. */
  lemma SortedPageNames(n: nat, sorted: seq<string>)
    requires SortedNatural(sorted) && multiset(sorted) == multiset(PageFileNames(n))
    ensures sorted == PageFileNames(n)
  {
    PageFileNamesAscending(n);
    SortedPermutationUnique(sorted, PageFileNames(n));
  }
}
