# PDF-to-section-images planning, in Dafny

The service takes an uploaded PDF and creates a root directory `images/<id>_<stem>` for it.
For every entry of the PDF's outline (table of contents) it creates a section directory named after the entry's sanitised title.
It saves at most one rendered page into that directory, as `page_<n>.jpg`.
Three read endpoints then answer from the directory tree:

- the images of one section;
- the image of one page;
- all images of the document.

This project models the deterministic part of that pipeline as pure functions over immutable data, and proves what they promise.
Rendering, the outline reader and the id generator are inputs.

| module | file | what it holds |
|---|---|---|
| `Results` | results.dfy | `Option` and `Result` |
| `Text` | text.dfy | suffix test, subsequence relation, Python's `str(int)` and its inverse |
| `Titles` | titles.dfy | the title sanitiser: filter, then strip |
| `Registry` | registry.dfy | `os.path.join`, `os.path.splitext` and root-directory naming |
| `Toc` | toc.dfy | outline entries and the default outline |
| `Writer` | writer.dfy | the conversion loop and the store it leaves behind |
| `Lookup` | lookup.dfy | the three read endpoints over a directory listing |
| `Agreement` | agreement.dfy | the read endpoints answered from the writer's store |

## How the model reads the code

**Store.** The writer's result is a `Plan`. It holds the store, a `map<string, set<int>>` from each created section directory to the page numbers saved in it. It also holds the ordered list of saves (`Write`), which is the source's `image_paths`.

**Conversion loop.** The loop is written twice:

- `Writer.Plans`: a fold over the entries that stops at the first exception;
- `Writer.ConvertByToc`: the loop itself, proved equal to the fold.

Properties of the fold are stated against independent reference definitions (`Sections`, `PagesOf`, `WriteFor`), which describe the outcome target by target.

**Page index.** Python's list indexing is modelled exactly, including negative indices.

- The source checks only `page_number - 1 < len(images)`.
- A page number of 0 or below therefore reads `images[P + page - 1]` when that index is non-negative.
- Below that it raises `IndexError`. The handler turns this into an HTTP 500, so the whole conversion fails.

The model carries this as policy `AsWritten`. The intended bound `0 <= page - 1 < P` is policy `Guarded`; see Findings.

**Read side.** A document's tree is given as the list of folders `os.walk` visits, each with the file names `os.listdir` returns, in whatever order those calls give. The folder named `""` is the document root. The source never sorts, so no ordering is claimed anywhere.

`Agreement.Lists` states when such a listing shows a store:

- one folder per section directory, holding exactly that section's page files, each named once as `os.listdir` names it;
- the root holds files only if some title sanitised to the empty name.

Under `Lists`, each lookup is proved to answer from the store alone, with one exception that is still decided by the store. The section lookup checks only that its path exists (main.py:100), then lists it (main.py:107). When the requested name is the file of a page saved in the root, such as `page_1.jpg` for an entry whose title sanitised to the empty name, the listing raises `NotADirectoryError`. Nothing catches it, so the answer is an HTTP 500. The model calls this answer `NotADirectory`. A name made from a title never meets it, because sanitised names hold no `.` (`Agreement.TitleSectionIsNoFile`).

**What the code does and does not do.**

- Each entry saves only its own start page. No page ranges are computed.
- The section lookup uses the section name from the URL as given; it is not sanitised again.
- Neither listing lookup sorts its result.
- A missing document root makes the section lookup answer "section not found" and the document lookup answer "no images".

## Model

helpers.py repeats `create_pdf_directory` and the conversion routine of main.py line for line (helpers.py:20-58 against main.py:22-67). Each member below models both copies; a row cites whichever copy is clearer.

| member | source | states |
|---|---|---|
| Toc.Outline | main.py:42-43 | an empty outline becomes the single entry (level 1, "general", page 1); a non-empty outline is used unchanged |
| Writer.DefaultOutlineWrites | helpers.py:33-52 | with no outline, the conversion creates only `general` and saves page 1 there exactly when the document has a page |
| Titles.Sanitize | main.py:51 | the directory name holds only ASCII letters, digits, space, `_` and `-`, has no leading or trailing whitespace, is a subsequence of the title, and contains no `/` or `.` |
| Titles.KeepSpec | main.py:51 | the character filter's result holds only permitted characters and is a subsequence of the title |
| Titles.KeepCounts | main.py:51 | the filter keeps each permitted character exactly as often as the title has it, and drops every other character |
| Titles.StripSpec | main.py:51 | stripping removes exactly the leading and trailing whitespace run and nothing inside |
| Titles.SanitizeIdempotent | main.py:51 | sanitising a sanitised name returns it unchanged |
| Titles.SanitizeFixedPoints | helpers.py:42 | a name is left unchanged by sanitising if and only if it holds only permitted characters and is trimmed |
| Writer.PageFileName | main.py:58 | the file name is `page_`, then the decimal page number with a `-` for negatives, then `.jpg` |
| Writer.PageFileNameInjective | main.py:58 | two pages get the same file name if and only if they are the same page |
| Text.ParseIntToString | main.py:58 | the page number written into a file name can be read back from it |
| Writer.Resolve | main.py:56-57 | as written: pages above P are skipped, pages 1..P read index page-1, pages in 1-P..0 read index P+page-1, and pages below 1-P raise; guarded: only pages 1..P read, at index page-1, and nothing raises |
| Writer.Step | main.py:50-61 | one entry always creates its section directory, also when it then raises; it raises exactly when its index is out of range; the section gains exactly the entry's page when that page is rendered and nothing otherwise; no other section changes |
| Writer.PlansSucceed | main.py:49-67 | the conversion succeeds if and only if no entry's page index raises |
| Writer.PlansAbort | main.py:64-67 | a failed conversion names the first entry that raised; every earlier entry's saves happened and its own directory was created |
| Writer.PlansStore | main.py:49-61 | the created directories are exactly the sanitised titles, and each holds exactly the pages of the entries with that name whose page is read |
| Writer.PlansWrites | helpers.py:40-54 | the saves are exactly those of the entries whose page is read, in outline order, at most one per entry, each at the index its page resolves to |
| Writer.ConvertByToc | main.py:39-67 | the loop returns the possibly defaulted outline and the same plan or failure as the fold; its store matches the reference definition, its saves follow the outline, and there are no more saves than entries |
| Writer.RunDirectories | main.py:52-53 | every entry creates its sanitised title's directory, even when its page is not saved; titles that sanitise alike share one directory |
| Writer.StorePresence | main.py:49-61 | page p is under section s if and only if some entry with sanitised title s has page p and that page is read |
| Writer.WritesInStore | main.py:58-61 | every save is recorded in the store under its section |
| Writer.PoliciesAgreeOnPositivePages | main.py:56-57 | when every page number is at least 1, the code as written and the guarded loop produce the same plan |
| Writer.GuardedWritesRealPages | main.py:56-61 | with the intended bound, nothing raises and only pages 1..P are saved, each as image page-1 |
| Writer.AsWrittenSavesWrongImage | main.py:56-60 | as written, an entry with page -1 in a document of two or more pages saves image P-2 as `page_-1.jpg` |
| Writer.AsWrittenAbortsOnMissingTarget | main.py:56-67 | as written, an entry with page -1 in a document of fewer than two pages raises, and the conversion fails at that entry |
| Writer.GuardedSkipsMissingTarget | main.py:52-57 | with the intended bound, an entry with page -1 only creates its directory |
| Writer.SingleEntryPlan | main.py:49-61 | the plan of a one-entry outline: its directory, plus its page when the page is read |
| Writer.ImagePaths | main.py:59-61 | one saved path per save, each ending in that save's page file name |
| Registry.SplitExt | main.py:25 | the root and the extension concatenate to the file name; there is an extension if and only if a final dot follows a non-dot character of the last path component |
| Registry.RootName | helpers.py:20-26 | the root name is the id, `_`, then the stem, and the stem followed by the removed extension is the file name |
| Registry.RootPath | main.py:22-28 | the root path is `images/` followed by the root name, for every id that does not start with `/` (every id `uuid4().hex` produces) |
| Registry.RootNamesDistinct | main.py:23-25 | ids of one length that differ never yield the same root name, whatever the file names |
| Registry.Join | main.py:52 | an absolute component replaces the path; otherwise the result starts with the directory and ends with the component |
| Lookup.ImageFiles | main.py:106-108 | a file passes the filter if and only if it is listed and ends in `.jpg`, `.jpeg` or `.png`; the result keeps the listing's order |
| Lookup.ImageFilesCounts | main.py:106-108 | each image file appears in the result as often as in the listing, and no other file appears |
| Lookup.TocImages | main.py:97-116 | not found if and only if nothing of that name exists under the root; the uncaught `NotADirectoryError` (HTTP 500) if and only if the name is only a file of the root; "no images" when the directory holds no image file; otherwise one `/images/<doc>/<section>/<file>` per image file, in listing order |
| Lookup.PageImage | main.py:120-134 | found if and only if some folder holds exactly `page_<n>.jpg`; the answer is the first such folder in walk order |
| Lookup.DocumentImages | main.py:138-149 | fails if and only if no folder holds an image file; otherwise returns the URIs of all image files, folder by folder |
| Lookup.TreeUrisSpec | main.py:141-144 | a URI is collected if and only if some folder holds the image file it names |
| Lookup.PageHitInDocument | main.py:123-144 | whatever the page lookup finds, the document lookup also returns |
| Agreement.SectionUriCount | main.py:106-114 | over the writer's store, the section lookup returns exactly as many URIs as pages were saved in the section |
| Agreement.SectionLookupAgrees | main.py:99-116 | over the writer's store: not found if and only if the section was never created and no page saved in the root has that file name; the HTTP 500 if and only if the name was never created as a section but is such a root page file; "no images" if and only if nothing was saved in the section; otherwise exactly one URI per saved page |
| Agreement.RootHoldsListed | main.py:100-107 | over the writer's store, the root holds a file of a given name exactly when a page saved in the root has that file name |
| Agreement.TitleSectionIsNoFile | main.py:99-107 | the section lookup of a name made from a title never answers with the HTTP 500 |
| Agreement.PageLookupAgrees | main.py:123-134 | over the writer's store: page n is found if and only if some section holds it, and the URI names that section's page file |
| Agreement.DocumentLookupAgrees | main.py:141-149 | over the writer's store: fails if and only if no page was saved anywhere; otherwise returns exactly the URIs of all saved pages |
| Agreement.ConvertedPageFound | main.py:120-134 | after a guarded conversion, page n is found if and only if 1 <= n <= P and some outline entry starts on n |
| Agreement.WrittenSectionListed | main.py:106-114 | every save under a non-empty section name is listed by that section's lookup under its page file's URI |
| Agreement.WrittenDocumentListed | main.py:141-144 | every save is returned by the document lookup |
| Agreement.UriIsWrittenPath | main.py:153-158 | the URI a lookup reports for a saved page, minus its leading `/`, is the path the writer saved it under; for a non-empty section this is the `images/<doc>/<section>/<file>` path the image endpoint resolves |

## Left out

- FastAPI routing, upload handling, the temporary file and `FileResponse`: HTTP and file I/O. The image-serving endpoint appears only as the path it resolves, in `Agreement.UriIsWrittenPath`.
- The second definition of the upload endpoint in main.py: same I/O plumbing.
- Outline extraction (`fitz` `get_toc`) and rasterisation (`convert_from_path`): foreign libraries. The outline is an input sequence and the rendered pages are a count P.
- Image encoding and the bytes saved: only which image index is saved under which name is modelled.
- `uuid4().hex`: random. The id is a parameter.
- `os.makedirs` and `save` side effects: the store abstracts them.
- Directory listing order: it is data, and no statement depends on it.
- The Gemini client (`check_figure_sequence`, the condition-check endpoints) and test.py: network code outside the core.
- Titles.Sanitize: `isalnum` is ASCII only here; Python also keeps non-ASCII letters and digits. `strip` uses the ASCII whitespace set. Only the space survives the filter, so the strip result is the same for the kept characters.
- Registry.SplitExt and Registry.Join: POSIX rules only.
- Lookup.TocImages: requires a non-empty section, because the route matches only a non-empty path segment. Path segments such as `.` or `..` and names with `/` are not modelled as folder names.
- Lookup.PageImage and Lookup.DocumentImages: a document tree is one level deep (root plus section directories), which is what the writer creates. The document name is assumed to be a plain root name: a `pdf_dir` of `.` or `..` makes the walk at main.py:123 and main.py:141 cover other documents or the working directory, which is not modelled.
- Agreement.UriIsWrittenPath: requires a root name that is non-empty and does not end in `/`, and a section name without `/`. Every sanitised title meets the second condition (`Titles.Sanitize`). It does not claim the URI is served: for a page saved in the root (empty section) the URI `/images/<doc>/page_<n>.jpg` has one segment too few for the image route at main.py:153, which would answer 404. The page and document lookups (main.py:128, main.py:144) still report that URI.
- Agreement.WrittenSectionListed: leaves out saves under the empty section name, which the section route cannot address. `Agreement.WrittenDocumentListed` covers them.
- `Agreement.Lists` describes a freshly written root. Files placed by other means, and the directories of other uploads, are not modelled.
- The document id the upload endpoint returns includes the `images/` prefix, while the read routes expect the bare root name. The model relates the two in `Agreement.UriIsWrittenPath`, but does not model a client passing one where the other is expected.

## Findings

| source | as written | input that shows it | evidently intended | confidence | as-written member | corrected member |
|---|---|---|---|---|---|---|
| main.py:56-57 | only `image_index < len(images)` is checked, so a page number of 0 or below is a negative Python index | an outline entry with page -1, which `get_toc` reports for an entry without a target page, in a document of P >= 2 pages: image P-2 is saved as `page_-1.jpg`; with P = 1 the index raises and the upload fails with HTTP 500 | save only when `0 <= image_index < len(images)` | medium, not executed | Writer.AsWrittenSavesWrongImage | Writer.GuardedWritesRealPages |

The same check appears at helpers.py:47-48.
The end-to-end page lookup statement `Agreement.ConvertedPageFound` is proved for the corrected bound.
