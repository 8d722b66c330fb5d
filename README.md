# PDF FAQ chatbot: ingestion-to-citation core in Dafny

This project models the deterministic core of `streamlit_app.py`, a Streamlit app. The app indexes an uploaded PDF for retrieval, answers questions from the retrieved chunks, and shows the rendered page image that each cited chunk came from. Four pieces of that pipeline are modelled, each in the form the source gives it:

- **Natural sort of page images** (`natural_sort.dfy`, module `NaturalSort`). The model covers:
  - `natural_sort_key`, as `re.split(r'(\d+)')` pieces mapped to text or integer parts;
  - Python's list comparison of the resulting keys;
  - `sorted(..., key=natural_sort_key)`, as a stable insertion sort.

  All of these are pure functions and lemmas. The proofs show:
  - the key's shape, and that the split rejoins to the name and is unique;
  - that two keys never compare a string with an integer;
  - that the order is a total preorder;
  - that `page_2.png` comes before `page_10.png`, and that leading zeros tie.

  Decimal text (`str`, `int`, digit runs) lives in `decimal.dfy` (module `Decimal`).
- **Page-image naming** (`page_images.dfy`, module `PageImages`). `convert_pdf_to_images` is a method with a page loop that appends `PDF_이미지/page_{i+1}.png` for each page. The lemmas prove two things:
  - the names are distinct;
  - however the folder lists them, sorting with the natural key restores page order.
- **Page grouping and progress** (`indexer.dfy`, module `Indexer`; chunks in `documents.dfy`). `save_to_vector_store` is modelled as three methods:
  - one fills the `page_groups` map;
  - one walks `sorted(page_groups.keys())`, appending to `all_docs` and counting `processed_pages`;
  - one is the entry point, including the branch taken without progress widgets.

  The contracts state:
  - `all_docs` is a stable sort of the chunks by page;
  - the progress values are exactly `0.3 + 0.6 * processed / total`, as `real`;
  - those values rise strictly to exactly 0.9.
- **Citation** (`citation.dfy`, module `Citation`). The reference-button loop of `main` is a method with the counter `i`. It is proved to give each button the chunk's 1-based page and a pairwise-distinct key. The right column is modelled twice:
  - as written, with Python's unchecked negative-wrapping index;
  - as a checked lookup, which is used for the end-to-end property: clicking a chunk on page k shows `page_{k+1}.png`.

An out-of-range page is evidently meant to give a "citation unavailable" outcome, but the code has no guard (streamlit_app.py:243). The model follows the code in `Citation.ShowReferencedPageAsWritten`, and the guarded behaviour is `Citation.ResolveCitation` (see Findings).

## Model

| member | source | states |
|---|---|---|
| Decimal.NatToString | streamlit_app.py:152 | `str(n)` for n ≥ 0 is a non-empty digit string; it starts with '0' only when it is exactly "0" |
| Decimal.IntToStringSign | streamlit_app.py:228-232 | `str(n)` starts with '-' exactly for negative n, and is all digits otherwise |
| Decimal.ParseInt | streamlit_app.py:238 | `int(s)` succeeds exactly when s is an optional sign followed by at least one digit; otherwise ValueError (None) |
| Decimal.NatToStringValue | streamlit_app.py:152 | reading back the digits written by `str(n)` gives n |
| Decimal.NatToStringInjective | streamlit_app.py:229 | `str` maps different counters to different strings, and equal ones to equal strings |
| Decimal.ParseIntToString | streamlit_app.py:232-238 | the stored page survives the round trip: `int(str(n)) == n` for every integer n |
| Decimal.LeadingZerosValue | streamlit_app.py:164 | `int` of a digit run ignores any number of leading zeros |
| NaturalSort.KeyOfPiece | streamlit_app.py:164 | a piece becomes an integer exactly when it is a non-empty digit run; any other piece stays the same text |
| NaturalSort.NaturalSortKey | streamlit_app.py:163-164 | the key of any name is non-empty and starts with the text before the first digit |
| NaturalSort.TextRun | streamlit_app.py:164 | the text piece before a digit run is the maximal digit-free prefix |
| NaturalSort.DigitRun | streamlit_app.py:164 | the captured group of `(\d+)` is the maximal digit prefix |
| NaturalSort.SplitDigitRunsWellSplit | streamlit_app.py:164 | `re.split(r'(\d+)', s)` gives an odd number of pieces: digit-free text alternating with non-empty digit runs, inner text pieces non-empty |
| NaturalSort.SplitDigitRunsRejoin | streamlit_app.py:164 | concatenating the pieces gives back s |
| NaturalSort.SplitDigitRunsUnique | streamlit_app.py:164 | any alternating split that rejoins to s is exactly the split `re.split` returns |
| NaturalSort.NaturalSortKeyShape | streamlit_app.py:163-164 | the key has odd length, digit-free text at even positions and the integer value of the digit run at odd positions, and rejoins to s |
| NaturalSort.NumberedNameKey | streamlit_app.py:164 | the key of prefix + `str(n)` + suffix is [prefix, n, suffix] for digit-free prefix and suffix |
| NaturalSort.CompareStringsFlip | streamlit_app.py:240 | string comparison is antisymmetric and Equal only on equal strings |
| NaturalSort.CompareStringsTransitive | streamlit_app.py:240 | string comparison is transitive |
| NaturalSort.ComparePartsFlip | streamlit_app.py:240 | comparing key parts is antisymmetric, and a str/int pair fails in both directions |
| NaturalSort.CompareKeysFlip | streamlit_app.py:240 | list comparison of keys is antisymmetric and Equal exactly on equal keys |
| NaturalSort.CompareKeysDefined | streamlit_app.py:240 | two keys that both alternate text and integer from the same start never compare a str with an int (no TypeError) |
| NaturalSort.CompareKeysTransitive | streamlit_app.py:240 | key comparison is transitive |
| NaturalSort.KeysComparable | streamlit_app.py:163-164 | the keys of any two file names compare without TypeError |
| NaturalSort.NaturalLessAsymmetric | streamlit_app.py:240 | no two names are each before the other |
| NaturalSort.NaturalLeTotalPreorder | streamlit_app.py:240 | the order `sorted` uses on names is reflexive, total and transitive |
| NaturalSort.LeadingZerosTie | streamlit_app.py:163-164 | names that differ only by leading zeros in one number get equal keys and tie |
| NaturalSort.SplitAround | streamlit_app.py:164 | a maximal digit run between digit-free text splits off as its own piece |
| NaturalSort.NumberedNamesOrder | streamlit_app.py:240 | prefix+m+suffix sorts before prefix+n+suffix exactly when m < n |
| NaturalSort.NumberedNamesAscending | streamlit_app.py:240 | names numbered 1, 2, … between a fixed digit-free prefix and suffix are strictly ascending in the natural order |
| NaturalSort.PageTwoBeforePageTen | streamlit_app.py:240 | "page_2.png" sorts before "page_10.png" and not the other way round |
| NaturalSort.PlainOrderPutsPageTenFirst | streamlit_app.py:240 | plain string order would put "page_10.png" first, which is what the key avoids |
| NaturalSort.PageZeroSevenTiesPageSeven | streamlit_app.py:163-164 | "page_07.png" and "page_7.png" tie |
| NaturalSort.InsertNatural | streamlit_app.py:240 | inserting a name into a sorted list gives a sorted permutation of list plus name |
| NaturalSort.NaturalSorted | streamlit_app.py:240 | `sorted(names, key=natural_sort_key)` is a permutation of the names, ordered by the key, and stable: for every key, the names with that key appear in their input order |
| NaturalSort.InsertNaturalStable | streamlit_app.py:240 | inserting a name into a sorted list keeps, for every key, the names with that key in the order of name followed by the list |
| NaturalSort.SortedPermutationUnique | streamlit_app.py:240 | a sorted permutation of a strictly ascending list is that list |
| PageImages.LastSeparator | streamlit_app.py:230 | finds the last separator before a position: every later character differs from it |
| PageImages.LastFieldOfJoin | streamlit_app.py:229-230 | the last field of a + sep + d is d when d holds no sep |
| PageImages.BaseName | streamlit_app.py:230 | `os.path.basename` is the longest '/'-free tail of the path |
| PageImages.BaseNameAfterSlash | streamlit_app.py:230 | a '/'-free name after an empty prefix or a prefix ending in '/' is its own base name |
| PageImages.JoinPathBaseName | streamlit_app.py:152 | the name is always the tail of `os.path.join(folder, name)`, and the base name of the joined path is the name whenever the name holds no '/' |
| PageImages.PageFileNameKey | streamlit_app.py:152 | the key of `page_{n}.png` is ["page_", n, ".png"] |
| PageImages.ConvertPdfToImages | streamlit_app.py:145-154 | one path per page, the i-th (0-based) being `PDF_이미지/page_{i+1}.png`, pairwise distinct |
| PageImages.PageImagePathsDistinct | streamlit_app.py:152 | different pages get different file names and paths |
| PageImages.PageFileNamesAscending | streamlit_app.py:152 | the rendered names are strictly ascending in the natural order |
| PageImages.SortedPageNames | streamlit_app.py:240-241 | the only naturally sorted arrangement of the n rendered names is page order |
| PageImages.SortedListingIsPageOrder | streamlit_app.py:240-241 | any listing of the n rendered names sorts to page_1 … page_n, so entry p-1 is page p |
| Indexer.SortedPages | streamlit_app.py:71 | `sorted(page_groups.keys())` holds every key exactly once, strictly ascending |
| Indexer.ChunksOnPageMembers | streamlit_app.py:61-64 | a page's group holds exactly the chunks whose `page` metadata is that page |
| Indexer.EachChunkInOneGroup | streamlit_app.py:59-64 | every chunk is in the group of its own page and in no other group |
| Indexer.GroupByPage | streamlit_app.py:59-64 | the dictionary has one key per page that occurs, holding that page's chunks in document order |
| Indexer.AppendChunks | streamlit_app.py:75-77 | appending a page's chunks one by one extends `all_docs` by exactly that group |
| Indexer.WalkPages | streamlit_app.py:66-84 | `all_docs` is the groups concatenated in ascending page order; one progress value per page; `processed_pages` ends equal to `total_pages` |
| Indexer.SaveToVectorStore | streamlit_app.py:52-93 | the index is built from the chunks as given; with progress widgets `all_docs` is a stable sort by page and the progress values rise strictly to 0.9; without them nothing is reported; no progress exactly when there are no chunks |
| Indexer.ProgressValueBounds | streamlit_app.py:82-83 | `0.3 + (processed / total) * 0.6` stays in [0.3, 0.9] for processed ≤ total: exactly 0.3 at 0 pages, above 0.3 after the first page, exactly 0.9 after the last |
| Indexer.ProgressValueMonotone | streamlit_app.py:82-83 | more processed pages means a strictly larger reported value |
| Indexer.IndexingProgressRises | streamlit_app.py:79-83 | the per-page progress values strictly increase, stay in (0.3, 0.9] and end at 0.9 |
| Indexer.GroupsInOrderOnPage | streamlit_app.py:70-77 | each page's chunks appear in `all_docs` in their original relative order |
| Indexer.GroupsInOrderSorted | streamlit_app.py:70-77 | `all_docs` is ordered by page and holds only visited pages |
| Indexer.SamePagesSameMultiset | streamlit_app.py:70-77 | two chunk lists with the same per-page groups are permutations of each other |
| Indexer.GroupsInOrderIsStableSort | streamlit_app.py:70-77 | walking all groups in ascending page order yields a stable sort by page, and so a permutation |
| Citation.CaptionShowsFileName | streamlit_app.py:230 | the button caption is " " + file name without directory + " pg." + page |
| Citation.ReferenceButtons | streamlit_app.py:223-233 | one reference per chunk with page = metadata page + 1, keys pairwise distinct; a click stores `str(page)` of the clicked chunk, otherwise the stored page is unchanged |
| Citation.ButtonKeyEndsWithCounter | streamlit_app.py:229 | the last '_'-separated field of `link_{file_path}_{page_number}_{i}` is `str(i)`, whatever the file path and page hold |
| Citation.ButtonKeysDistinct | streamlit_app.py:229 | keys with different trailing counters differ, whatever their file and page |
| Citation.ReferenceKeysDistinct | streamlit_app.py:223-233 | the keys within one answer are pairwise distinct |
| Citation.PyIndex | streamlit_app.py:243 | Python indexing succeeds exactly for -len ≤ i < len, negative indices counting from the end |
| Citation.SortedImagePaths | streamlit_app.py:240-241 | one path per listed image; when the folder holds exactly the images `page_1.png` … `page_n.png`, in any listing order, entry p-1 is the path of page p |
| Citation.ShowReferencedPageAsWritten | streamlit_app.py:236-243 | nothing is shown for a missing or empty stored page; an unparseable one raises ValueError |
| Citation.PastLastPageCrashes | streamlit_app.py:243 | a stored page beyond the number of images raises IndexError |
| Citation.PageZeroWrapsToLastPage | streamlit_app.py:243 | a stored page 0 shows the last page's image instead of failing |
| Citation.PageThreeOfTwoCrashes | streamlit_app.py:243 | with two page images, citing page 3 raises IndexError |
| Citation.ResolveCitation | streamlit_app.py:236-243 | checked lookup: an image exactly when the stored page parses to 1 ≤ p ≤ number of images, and then the (p-1)-th naturally sorted image |
| Citation.ResolveCitationAgrees | streamlit_app.py:236-243 | wherever the checked lookup finds an image, `ShowReferencedPageAsWritten` shows the same image; where it reports the citation unavailable, `ShowReferencedPageAsWritten` crashes or shows a page below 1 |
| Citation.CitedChunkShowsItsPage | streamlit_app.py:228-243 | clicking the reference of a chunk on 0-based page k shows `page_{k+1}.png` whenever the image folder holds `page_1.png` … `page_n.png` with k < n, whatever the listing order; n is the number of images in the folder, which is never cleared and so may exceed the current PDF's page count |

## Left out

- Digits are the ASCII digits only. Python's `\d`, `str.isdigit` and `int` also accept other Unicode decimal digits.
- `int(...)` of the stored page accepts surrounding whitespace and `_` separators in Python; the model accepts only an optional sign and ASCII digits. The app only ever stores `str(int)`, which the model covers.
- Python string comparison is by code point; the model compares `char` values, which agrees for the names involved.
- `os.listdir` is a parameter (the listing, in any order). A missing image folder (FileNotFoundError) is not modelled.
- Rendering with PyMuPDF is abstracted to a page count. That covers the float `zoom = dpi / 72`, the pixmap and the file write.
- FAISS, Ollama embeddings, the throw-away one-chunk index built per chunk, `save_local` and the final `FAISS.from_documents` are not modelled. `SaveToVectorStore` returns the chunks the final index would be built from.
- Streamlit widgets and session state are parameters and results. `st.button`, `st.expander` and `st.session_state` are covered by `ReferenceButtons` and `ShowReferencedPageAsWritten`. `st.progress` is covered by the `showProgress` parameter and the `progress` result of `SaveToVectorStore`. At most one button is clicked per run. Caching decorators, layout and the status texts are not modelled; the `{progress*100:.1f}` formatting is floating-point output.
- Progress values are exact rationals (`real`), not IEEE floats.
- The upload flow of `main`, `process_question`, `get_rag_chain`, `pdf_to_documents`, `chunk_documents`, `save_uploadedfile` and `display_pdf_page` are calls into libraries or I/O and are not part of this model. So are `MCP_Server.py`, `MCP_Tutorial_Server.py` and the weather server.
- `JoinPath` models `os.path.join` of one folder and one name, on POSIX paths only. `JoinPathBaseName` states the name-is-the-tail and base-name properties; the three branches of the body (absolute name, empty or '/'-ended folder, other folder) are not stated separately.

## Findings

| source | as written | input that shows it | evidently intended | confidence | as-written member | corrected member |
|---|---|---|---|---|---|---|
| streamlit_app.py:243 | `image_paths[page_number - 1]` indexes the sorted image paths without checking the page against their number; Python raises IndexError past the end and wraps to the last image for page 0 | stored page "3" with the images `page_2.png`, `page_1.png` raises IndexError; stored page "0" with n rendered pages shows page n | show the cited page's image when 1 ≤ page ≤ number of images, and report the citation as unavailable otherwise | not executed | Citation.PageThreeOfTwoCrashes | Citation.ResolveCitation |
