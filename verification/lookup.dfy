/** The read endpoints over a document's directory tree: the images of one
    section (main.py:97-116), the image of one page (main.py:120-134) and all
    images of the document (main.py:138-149).

    A document tree is given as its folders in the order `os.walk` visits
    them, each with its file names in `os.listdir` order; the folder named ""
    is the document root itself. Neither order is chosen by the service, so
    every statement below holds for any order. */
module Lookup {
  import opened Results
  import opened Text
  import Writer

  datatype Folder = Folder(name: string, files: seq<string>)

  /** The documents under the base directory, by root directory name. */
  type Disk = map<string, seq<Folder>>

  /** A file counts as an image when its name ends in `.jpg`, `.jpeg` or `.png`. */
  predicate IsImageFile(f: string)
  {
    EndsWith(f, ".jpg") || EndsWith(f, ".jpeg") || EndsWith(f, ".png")
  }

  /** The list comprehension keeping the image files of a listing, in
      listing order. */
  function ImageFiles(files: seq<string>): (r: seq<string>)
    ensures forall f :: f in r <==> f in files && IsImageFile(f)
    ensures |r| <= |files|
    ensures IsSubseq(r, files)
    decreases |files|
  {
    if |files| == 0 then []
    else if IsImageFile(files[0]) then
      var rest := ImageFiles(files[1..]);
      assert ([files[0]] + rest)[1..] == rest;
      [files[0]] + rest
    else ImageFiles(files[1..])
  }

  /** The filter keeps each image file as often as the listing holds it and
      drops every other file; with `IsSubseq` this fixes its result. */
  lemma {:induction false} ImageFilesCounts(files: seq<string>)
    ensures forall f :: multiset(ImageFiles(files))[f] == if IsImageFile(f) then multiset(files)[f] else 0
    decreases |files|
  {
    if |files| > 0 {
      ImageFilesCounts(files[1..]);
      assert files == [files[0]] + files[1..];
      assert multiset(files) == multiset([files[0]]) + multiset(files[1..]);
      if IsImageFile(files[0]) {
        assert multiset(ImageFiles(files)) == multiset([files[0]]) + multiset(ImageFiles(files[1..]));
      }
    }
  }

  /** A listing of image files only passes the filter whole. */
  lemma AllImageFiles(files: seq<string>)
    requires forall f :: f in files ==> IsImageFile(f)
    ensures |ImageFiles(files)| == |files|
  {
    ImageFilesCounts(files);
    assert multiset(ImageFiles(files)) == multiset(files);
  }

  /** The path of a folder of document `pdfDir` relative to the base directory,
      as the page and document lookups report it. */
  function FolderPath(pdfDir: string, name: string): string
  {
    if name == "" then pdfDir else pdfDir + "/" + name
  }

  /** The URI the lookups report for a file: `/images/`, the folder path, a
      slash, then the file name. */
  function ImageUri(folderPath: string, file: string): string
  {
    "/images/" + folderPath + "/" + file
  }

  /** The error answers of the three endpoints: all are 404 except
      `NotADirectory`, the uncaught `NotADirectoryError` the server turns
      into a 500. */
  datatype LookupError =
    | SectionNotFound      // nothing of that name exists under the document root
    | NotADirectory        // the name is a file of the root, which `os.listdir` cannot list
    | NoImagesInSection    // the section directory holds no image file
    | PageNotFound         // no folder holds `page_<n>.jpg`
    | NoImagesInDocument   // no folder holds an image file

  /** The folders `os.walk` visits under a document root: none when the
      root does not exist. */
  function Walk(disk: Disk, pdfDir: string): seq<Folder>
  {
    if pdfDir in disk then disk[pdfDir] else []
  }

  /** Position of the first folder called `name`. */
  function FindFolder(tree: seq<Folder>, name: string): (r: Option<nat>)
    ensures r.Some? ==> r.value < |tree| && tree[r.value].name == name
    ensures r.Some? ==> forall j :: 0 <= j < r.value ==> tree[j].name != name
    ensures r.None? <==> forall k :: 0 <= k < |tree| ==> tree[k].name != name
    decreases |tree|
  {
    if |tree| == 0 then None
    else if tree[0].name == name then Some(0)
    else match FindFolder(tree[1..], name)
      case None => None
      case Some(k) => Some(k + 1)
  }

  /** Position of the first folder holding a file called `file`. */
  function FindFile(tree: seq<Folder>, file: string): (r: Option<nat>)
    ensures r.Some? ==> r.value < |tree| && file in tree[r.value].files
    ensures r.Some? ==> forall j :: 0 <= j < r.value ==> file !in tree[j].files
    ensures r.None? <==> forall k :: 0 <= k < |tree| ==> file !in tree[k].files
    decreases |tree|
  {
    if |tree| == 0 then None
    else if file in tree[0].files then Some(0)
    else match FindFile(tree[1..], file)
      case None => None
      case Some(k) => Some(k + 1)
  }

  /** The file names of the section directory, or None when no such
      directory exists. */
  function SectionListing(disk: Disk, pdfDir: string, section: string): Option<seq<string>>
  {
    if pdfDir !in disk then None
    else match FindFolder(disk[pdfDir], section)
      case None => None
      case Some(k) => Some(disk[pdfDir][k].files)
  }

  /** Whether the document root holds a file called `name`: `os.path.exists`
      holds for its path, though it is no directory. */
  predicate RootHolds(disk: Disk, pdfDir: string, name: string)
  {
    pdfDir in disk &&
    match FindFolder(disk[pdfDir], "")
    case None => false
    case Some(k) => name in disk[pdfDir][k].files
  }

  /** `get_toc_images`: one URI per image file of the section directory, in
      listing order; 404 when nothing of that name exists or the directory
      holds no image; 500 when the name is a file of the document root.
      The route matches a non-empty path segment only, so `section` is never
      empty and never names the document root. */
  function TocImages(disk: Disk, pdfDir: string, section: string): (r: Result<seq<string>, LookupError>)
    requires section != ""
    ensures r == Failure(SectionNotFound) <==>
              (pdfDir !in disk || forall k :: 0 <= k < |disk[pdfDir]| ==> disk[pdfDir][k].name != section) &&
              !RootHolds(disk, pdfDir, section)
    ensures r == Failure(NotADirectory) <==>
              pdfDir in disk && (forall k :: 0 <= k < |disk[pdfDir]| ==> disk[pdfDir][k].name != section) &&
              RootHolds(disk, pdfDir, section)
    ensures r.Failure? ==> r.error == SectionNotFound || r.error == NotADirectory || r.error == NoImagesInSection
    ensures r.Success? || r == Failure(NoImagesInSection) ==>
              SectionListing(disk, pdfDir, section).Some? &&
              (r.Success? <==> exists f :: f in SectionListing(disk, pdfDir, section).value && IsImageFile(f))
    ensures r.Success? ==>
              var images := ImageFiles(SectionListing(disk, pdfDir, section).value);
              |r.value| == |images| &&
              forall k :: 0 <= k < |images| ==> r.value[k] == ImageUri(pdfDir + "/" + section, images[k])
  {
    match SectionListing(disk, pdfDir, section)
    case None => if RootHolds(disk, pdfDir, section) then Failure(NotADirectory) else Failure(SectionNotFound)
    case Some(files) =>
      var images := ImageFiles(files);
      if |images| == 0 then
        assert forall f :: f in files ==> !IsImageFile(f);
        Failure(NoImagesInSection)
      else
        assert images[0] in files && IsImageFile(images[0]);
        Success(seq(|images|, k requires 0 <= k < |images| => ImageUri(pdfDir + "/" + section, images[k])))
  }

  /** The answer of `get_page_image`. */
  datatype PageHit = PageHit(page: int, uri: string)

  /** `get_page_image`: the first folder in walk order holding exactly
      `page_<n>.jpg` (no other extension), or 404. */
  function PageImage(disk: Disk, pdfDir: string, page: int): (r: Result<PageHit, LookupError>)
    ensures var tree := Walk(disk, pdfDir);
            r.Success? <==> exists k :: 0 <= k < |tree| && Writer.PageFileName(page) in tree[k].files
    ensures r.Failure? ==> r.error == PageNotFound
    ensures r.Success? ==>
              var tree := Walk(disk, pdfDir);
              && r.value.page == page
              && exists k :: 0 <= k < |tree| && Writer.PageFileName(page) in tree[k].files &&
                             (forall j :: 0 <= j < k ==> Writer.PageFileName(page) !in tree[j].files) &&
                             r.value.uri == ImageUri(FolderPath(pdfDir, tree[k].name), Writer.PageFileName(page))
  {
    var tree := Walk(disk, pdfDir);
    var file := Writer.PageFileName(page);
    match FindFile(tree, file)
    case None => Failure(PageNotFound)
    case Some(k) => Success(PageHit(page, ImageUri(FolderPath(pdfDir, tree[k].name), file)))
  }

  /** The URIs of the image files of one folder, in listing order. */
  function FolderUris(pdfDir: string, folder: Folder): seq<string>
  {
    var images := ImageFiles(folder.files);
    seq(|images|, k requires 0 <= k < |images| => ImageUri(FolderPath(pdfDir, folder.name), images[k]))
  }

  /** The URIs of all image files of a tree, folder after folder. */
  function TreeUris(pdfDir: string, tree: seq<Folder>): seq<string>
    decreases |tree|
  {
    if |tree| == 0 then [] else FolderUris(pdfDir, tree[0]) + TreeUris(pdfDir, tree[1..])
  }

  /** Every URI listed for the tree names an image file of some folder. */
  lemma {:induction false} TreeUrisSound(pdfDir: string, tree: seq<Folder>, u: string)
    requires u in TreeUris(pdfDir, tree)
    ensures exists k, f :: 0 <= k < |tree| && f in tree[k].files && IsImageFile(f) &&
                           u == ImageUri(FolderPath(pdfDir, tree[k].name), f)
    decreases |tree|
  {
    var here := FolderUris(pdfDir, tree[0]);
    var images := ImageFiles(tree[0].files);
    if u in here {
      var i :| 0 <= i < |here| && here[i] == u;
      var f := images[i];
      assert f in tree[0].files && IsImageFile(f);
      assert u == ImageUri(FolderPath(pdfDir, tree[0].name), f);
    } else {
      var rest := tree[1..];
      assert u in TreeUris(pdfDir, rest);
      TreeUrisSound(pdfDir, rest, u);
      var k, f :| 0 <= k < |rest| && f in rest[k].files && IsImageFile(f) &&
                  u == ImageUri(FolderPath(pdfDir, rest[k].name), f);
      assert tree[k + 1] == rest[k];
    }
  }

  /** Every image file of every folder is listed for the tree. */
  lemma {:induction false} TreeUrisComplete(pdfDir: string, tree: seq<Folder>, k: int, f: string)
    requires 0 <= k < |tree| && f in tree[k].files && IsImageFile(f)
    ensures ImageUri(FolderPath(pdfDir, tree[k].name), f) in TreeUris(pdfDir, tree)
    decreases |tree|
  {
    var u := ImageUri(FolderPath(pdfDir, tree[k].name), f);
    if k == 0 {
      var here := FolderUris(pdfDir, tree[0]);
      var images := ImageFiles(tree[0].files);
      assert f in images;
      var i :| 0 <= i < |images| && images[i] == f;
      assert here[i] == u;
      assert TreeUris(pdfDir, tree) == here + TreeUris(pdfDir, tree[1..]);
    } else {
      var rest := tree[1..];
      assert rest[k - 1] == tree[k];
      TreeUrisComplete(pdfDir, rest, k - 1, f);
      assert TreeUris(pdfDir, tree) == FolderUris(pdfDir, tree[0]) + TreeUris(pdfDir, rest);
    }
  }

  /** A URI is listed for the tree exactly when some folder holds the image
      file it names. */
  lemma TreeUrisSpec(pdfDir: string, tree: seq<Folder>, u: string)
    ensures u in TreeUris(pdfDir, tree) <==>
              exists k, f :: 0 <= k < |tree| && f in tree[k].files && IsImageFile(f) &&
                             u == ImageUri(FolderPath(pdfDir, tree[k].name), f)
  {
    if u in TreeUris(pdfDir, tree) {
      TreeUrisSound(pdfDir, tree, u);
    }
    if exists k, f :: 0 <= k < |tree| && f in tree[k].files && IsImageFile(f) &&
                      u == ImageUri(FolderPath(pdfDir, tree[k].name), f) {
      var k, f :| 0 <= k < |tree| && f in tree[k].files && IsImageFile(f) &&
                  u == ImageUri(FolderPath(pdfDir, tree[k].name), f);
      TreeUrisComplete(pdfDir, tree, k, f);
    }
  }

  /** The tree lists no URI exactly when no folder holds an image file. */
  lemma {:induction false} TreeUrisEmpty(pdfDir: string, tree: seq<Folder>)
    ensures |TreeUris(pdfDir, tree)| == 0 <==>
              forall k, f :: 0 <= k < |tree| && f in tree[k].files ==> !IsImageFile(f)
    decreases |tree|
  {
    if |tree| > 0 {
      TreeUrisEmpty(pdfDir, tree[1..]);
      var images := ImageFiles(tree[0].files);
      if |images| > 0 {
        assert images[0] in tree[0].files;
      }
      forall k, f | 1 <= k < |tree| && f in tree[k].files
        ensures f in tree[1..][k - 1].files
      {
      }
    }
  }

  /** `get_document_images`: the URIs of every image file under the root;
      404 when there is none (also when the root does not exist). */
  function DocumentImages(disk: Disk, pdfDir: string): (r: Result<seq<string>, LookupError>)
    ensures var tree := Walk(disk, pdfDir);
            r.Failure? <==> forall k, f :: 0 <= k < |tree| && f in tree[k].files ==> !IsImageFile(f)
    ensures r.Failure? ==> r.error == NoImagesInDocument
    ensures r.Success? ==> r.value == TreeUris(pdfDir, Walk(disk, pdfDir))
  {
    TreeUrisEmpty(pdfDir, Walk(disk, pdfDir));
    var uris := TreeUris(pdfDir, Walk(disk, pdfDir));
    if |uris| == 0 then Failure(NoImagesInDocument) else Success(uris)
  }

  /** Every URI the document lookup returns names an image file of some folder,
      and every image file of every folder is returned. */
  lemma DocumentImagesSpec(disk: Disk, pdfDir: string, u: string)
    requires DocumentImages(disk, pdfDir).Success?
    ensures var tree := Walk(disk, pdfDir);
            u in DocumentImages(disk, pdfDir).value <==>
              exists k, f :: 0 <= k < |tree| && f in tree[k].files && IsImageFile(f) &&
                             u == ImageUri(FolderPath(pdfDir, tree[k].name), f)
  {
    TreeUrisSpec(pdfDir, Walk(disk, pdfDir), u);
  }

  /** Whatever the page lookup finds, the document lookup also returns. */
  lemma PageHitInDocument(disk: Disk, pdfDir: string, page: int)
    requires PageImage(disk, pdfDir, page).Success?
    ensures DocumentImages(disk, pdfDir).Success?
    ensures PageImage(disk, pdfDir, page).value.uri in DocumentImages(disk, pdfDir).value
  {
    var tree := Walk(disk, pdfDir);
    var file := Writer.PageFileName(page);
    var k :| 0 <= k < |tree| && file in tree[k].files &&
             PageImage(disk, pdfDir, page).value.uri == ImageUri(FolderPath(pdfDir, tree[k].name), file);
    assert IsImageFile(file);
    TreeUrisSpec(pdfDir, tree, PageImage(disk, pdfDir, page).value.uri);
  }
}
