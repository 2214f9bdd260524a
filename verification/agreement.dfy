/** How the read endpoints see what the conversion wrote: for any directory
    listing of the writer's store, in any order, the section, page and
    document lookups answer exactly from the store. */
module Agreement {
  import opened Results
  import opened Text
  import Titles
  import Registry
  import Toc
  import Writer
  import Lookup

  /** The files of a section directory are the page files of `pages`. */
  ghost predicate HoldsPages(files: seq<string>, pages: set<int>)
  {
    && (forall p :: p in pages ==> Writer.PageFileName(p) in files)
    && (forall f :: f in files ==> exists p :: p in pages && f == Writer.PageFileName(p))
  }

  /** `tree` is a listing of `store` under a fresh root: one folder per
      section directory, holding that section's page files, each named once
      as `os.listdir` does; the root folder "" holds files only when some
      title sanitised to the empty name. */
  ghost predicate Lists(tree: seq<Lookup.Folder>, store: map<string, set<int>>)
  {
    && (forall j, k :: 0 <= j < k < |tree| ==> tree[j].name != tree[k].name)
    && (forall k :: 0 <= k < |tree| ==> Distinct(tree[k].files))
    && (forall k :: 0 <= k < |tree| ==>
          if tree[k].name in store then HoldsPages(tree[k].files, store[tree[k].name])
          else tree[k].name == "" && tree[k].files == [])
    && (forall s :: s in store ==> exists k :: 0 <= k < |tree| && tree[k].name == s)
  }

  /** Page `n`'s file is in a section directory exactly when `n` was saved there. */
  lemma HoldsPageFile(files: seq<string>, pages: set<int>, n: int)
    requires HoldsPages(files, pages)
    ensures Writer.PageFileName(n) in files <==> n in pages
  {
    if Writer.PageFileName(n) in files {
      var p :| p in pages && Writer.PageFileName(n) == Writer.PageFileName(p);
      Writer.PageFileNameInjective(n, p);
    }
  }

  /** The folder of a listed section is the only folder of that name. */
  lemma ListedFolder(tree: seq<Lookup.Folder>, store: map<string, set<int>>, s: string)
    requires Lists(tree, store) && s in store
    ensures Lookup.FindFolder(tree, s).Some?
    ensures HoldsPages(tree[Lookup.FindFolder(tree, s).value].files, store[s])
  {
    var k :| 0 <= k < |tree| && tree[k].name == s;
  }

  /** Every file of a listed folder is a page file of its section. */
  lemma ListedFileIsPage(tree: seq<Lookup.Folder>, store: map<string, set<int>>, k: int, f: string)
    requires Lists(tree, store) && 0 <= k < |tree| && f in tree[k].files
    ensures tree[k].name in store
    ensures exists p :: p in store[tree[k].name] && f == Writer.PageFileName(p)
  {
  }

  /** A section directory holds an image file exactly when a page was saved
      in it. */
  lemma HoldsImage(files: seq<string>, pages: set<int>)
    requires HoldsPages(files, pages)
    ensures (exists f :: f in files && Lookup.IsImageFile(f)) <==> pages != {}
  {
    if exists p :: p in pages {
      var p :| p in pages;
      assert Writer.PageFileName(p) in files;
      assert Lookup.IsImageFile(Writer.PageFileName(p));
    } else {
      assert pages == {};
    }
  }

  /** Every URI built from an image file of a section directory is that of
      a saved page. */
  lemma ImageUriIsPage(files: seq<string>, pages: set<int>, dir: string, i: int)
    requires HoldsPages(files, pages) && 0 <= i < |Lookup.ImageFiles(files)|
    ensures exists p :: p in pages && Lookup.ImageUri(dir, Lookup.ImageFiles(files)[i]) == Lookup.ImageUri(dir, Writer.PageFileName(p))
  {
    var f := Lookup.ImageFiles(files)[i];
    assert f in files;
    var p :| p in pages && f == Writer.PageFileName(p);
  }

  /** Every saved page has its URI built from an image file of the section
      directory. */
  lemma PageUriIsImage(files: seq<string>, pages: set<int>, dir: string, p: int)
    requires HoldsPages(files, pages) && p in pages
    ensures exists i :: 0 <= i < |Lookup.ImageFiles(files)| &&
                        Lookup.ImageUri(dir, Lookup.ImageFiles(files)[i]) == Lookup.ImageUri(dir, Writer.PageFileName(p))
  {
    var images := Lookup.ImageFiles(files);
    var f := Writer.PageFileName(p);
    assert f in images;
    var i :| 0 <= i < |images| && images[i] == f;
  }

  /** A listing naming each page file once has one file per page. */
  lemma {:induction false} DistinctPagesCount(files: seq<string>, pages: set<int>)
    requires Distinct(files) && HoldsPages(files, pages)
    ensures |files| == |pages|
    decreases |files|
  {
    if |files| > 0 {
      assert files[0] in files;
      var p :| p in pages && files[0] == Writer.PageFileName(p);
      var rest := files[..0] + files[1..];
      DistinctRemove(files, 0);
      DropPage(files, pages, p, rest);
      DistinctPagesCount(rest, pages - {p});
    } else {
      assert forall p :: p !in pages;
      assert pages == {};
    }
  }

  /** Removing one page's file from a listing leaves the listing of the
      other pages. */
  lemma DropPage(files: seq<string>, pages: set<int>, p: int, rest: seq<string>)
    requires HoldsPages(files, pages) && p in pages
    requires forall g :: g in rest <==> g in files && g != Writer.PageFileName(p)
    ensures HoldsPages(rest, pages - {p})
  {
    forall q | q in pages - {p}
      ensures Writer.PageFileName(q) in rest
    {
      Writer.PageFileNameInjective(p, q);
    }
    forall g | g in rest
      ensures exists q :: q in pages - {p} && g == Writer.PageFileName(q)
    {
      var q :| q in pages && g == Writer.PageFileName(q);
    }
  }

  /** A listed section's directory listing holds its page files, each once. */
  lemma ListedSection(disk: Lookup.Disk, pdfDir: string, store: map<string, set<int>>, section: string)
      returns (files: seq<string>)
    requires pdfDir in disk && Lists(disk[pdfDir], store) && section in store
    ensures Lookup.SectionListing(disk, pdfDir, section) == Some(files)
    ensures HoldsPages(files, store[section]) && Distinct(files)
  {
    ListedFolder(disk[pdfDir], store, section);
    files := disk[pdfDir][Lookup.FindFolder(disk[pdfDir], section).value].files;
  }

  /** A URI the section lookup returns names a page saved in that section. */
  lemma SectionUriIsPage(disk: Lookup.Disk, pdfDir: string, store: map<string, set<int>>, section: string, i: int)
    requires pdfDir in disk && Lists(disk[pdfDir], store) && section != "" && section in store
    requires Lookup.TocImages(disk, pdfDir, section).Success?
    requires 0 <= i < |Lookup.TocImages(disk, pdfDir, section).value|
    ensures exists p :: p in store[section] &&
              Lookup.TocImages(disk, pdfDir, section).value[i] ==
                Lookup.ImageUri(pdfDir + "/" + section, Writer.PageFileName(p))
  {
    var files := ListedSection(disk, pdfDir, store, section);
    ImageUriIsPage(files, store[section], pdfDir + "/" + section, i);
  }

  /** A page saved in a section has its URI returned by the section lookup. */
  lemma PageUriInSection(disk: Lookup.Disk, pdfDir: string, store: map<string, set<int>>, section: string, p: int)
    requires pdfDir in disk && Lists(disk[pdfDir], store) && section != "" && section in store
    requires Lookup.TocImages(disk, pdfDir, section).Success? && p in store[section]
    ensures Lookup.ImageUri(pdfDir + "/" + section, Writer.PageFileName(p)) in Lookup.TocImages(disk, pdfDir, section).value
  {
    var files := ListedSection(disk, pdfDir, store, section);
    var dir := pdfDir + "/" + section;
    PageUriIsImage(files, store[section], dir, p);
    var i :| 0 <= i < |Lookup.ImageFiles(files)| &&
             Lookup.ImageUri(dir, Lookup.ImageFiles(files)[i]) == Lookup.ImageUri(dir, Writer.PageFileName(p));
    assert Lookup.TocImages(disk, pdfDir, section).value[i] == Lookup.ImageUri(dir, Writer.PageFileName(p));
  }

  /** The section lookup returns as many URIs as pages were saved in the
      section. */
  lemma SectionUriCount(disk: Lookup.Disk, pdfDir: string, store: map<string, set<int>>, section: string)
    requires pdfDir in disk && Lists(disk[pdfDir], store) && section != "" && section in store
    requires Lookup.TocImages(disk, pdfDir, section).Success?
    ensures |Lookup.TocImages(disk, pdfDir, section).value| == |store[section]|
  {
    var files := ListedSection(disk, pdfDir, store, section);
    forall f | f in files
      ensures Lookup.IsImageFile(f)
    {
      var p :| p in store[section] && f == Writer.PageFileName(p);
    }
    Lookup.AllImageFiles(files);
    DistinctPagesCount(files, store[section]);
  }

  /** The URIs the section lookup returns for a listed section are those of
      its saved pages. */
  lemma SectionUrisAgree(disk: Lookup.Disk, pdfDir: string, store: map<string, set<int>>, section: string, u: string)
    requires pdfDir in disk && Lists(disk[pdfDir], store) && section != "" && section in store
    requires Lookup.TocImages(disk, pdfDir, section).Success?
    ensures u in Lookup.TocImages(disk, pdfDir, section).value <==>
            exists p :: p in store[section] && u == Lookup.ImageUri(pdfDir + "/" + section, Writer.PageFileName(p))
  {
    var uris := Lookup.TocImages(disk, pdfDir, section).value;
    if u in uris {
      var i :| 0 <= i < |uris| && uris[i] == u;
      SectionUriIsPage(disk, pdfDir, store, section, i);
    }
    if exists p :: p in store[section] && u == Lookup.ImageUri(pdfDir + "/" + section, Writer.PageFileName(p)) {
      var p :| p in store[section] && u == Lookup.ImageUri(pdfDir + "/" + section, Writer.PageFileName(p));
      PageUriInSection(disk, pdfDir, store, section, p);
    }
  }

  /** `name` is the file of a page saved in the document root. */
  ghost predicate RootPage(store: map<string, set<int>>, name: string)
  {
    "" in store && exists p :: p in store[""] && name == Writer.PageFileName(p)
  }

  /** The root of a listing holds a file of that name exactly when a page
      saved in the root has it. */
  lemma RootHoldsListed(disk: Lookup.Disk, pdfDir: string, store: map<string, set<int>>, name: string)
    requires pdfDir in disk && Lists(disk[pdfDir], store)
    ensures Lookup.RootHolds(disk, pdfDir, name) <==> RootPage(store, name)
  {
    var tree := disk[pdfDir];
    if "" in store {
      ListedFolder(tree, store, "");
    }
  }

  /** No section name of the store is a file of the root. */
  lemma UnlistedSectionHasNoFolder(disk: Lookup.Disk, pdfDir: string, store: map<string, set<int>>, section: string)
    requires pdfDir in disk && Lists(disk[pdfDir], store) && section != "" && section !in store
    ensures forall k :: 0 <= k < |disk[pdfDir]| ==> disk[pdfDir][k].name != section
  {
    var tree := disk[pdfDir];
    forall k | 0 <= k < |tree|
      ensures tree[k].name != section
    {
    }
  }

  /** The section lookup agrees with the store: 404 for a name the writer
      never created, 500 for the name of a page file saved in the root, 404
      for a section where nothing was saved, and otherwise one URI per saved
      page. */
  lemma SectionLookupAgrees(disk: Lookup.Disk, pdfDir: string, store: map<string, set<int>>, section: string)
    requires pdfDir in disk && Lists(disk[pdfDir], store) && section != ""
    ensures Lookup.TocImages(disk, pdfDir, section) == Failure(Lookup.SectionNotFound) <==>
              section !in store && !RootPage(store, section)
    ensures Lookup.TocImages(disk, pdfDir, section) == Failure(Lookup.NotADirectory) <==>
              section !in store && RootPage(store, section)
    ensures Lookup.TocImages(disk, pdfDir, section) == Failure(Lookup.NoImagesInSection) <==>
              section in store && store[section] == {}
    ensures Lookup.TocImages(disk, pdfDir, section).Success? ==>
              forall u :: u in Lookup.TocImages(disk, pdfDir, section).value <==>
                exists p :: p in store[section] && u == Lookup.ImageUri(pdfDir + "/" + section, Writer.PageFileName(p))
    ensures Lookup.TocImages(disk, pdfDir, section).Success? ==>
              |Lookup.TocImages(disk, pdfDir, section).value| == |store[section]|
  {
    var tree := disk[pdfDir];
    if section in store {
      var files := ListedSection(disk, pdfDir, store, section);
      HoldsImage(files, store[section]);
      if Lookup.TocImages(disk, pdfDir, section).Success? {
        SectionUriCount(disk, pdfDir, store, section);
        forall u
          ensures u in Lookup.TocImages(disk, pdfDir, section).value <==>
                  exists p :: p in store[section] && u == Lookup.ImageUri(pdfDir + "/" + section, Writer.PageFileName(p))
        {
          SectionUrisAgree(disk, pdfDir, store, section, u);
        }
      }
    } else {
      UnlistedSectionHasNoFolder(disk, pdfDir, store, section);
      RootHoldsListed(disk, pdfDir, store, section);
    }
  }

  /** A name made from a title never names a page file, so the section lookup
      of a converted section never meets the 500. */
  lemma TitleSectionIsNoFile(disk: Lookup.Disk, pdfDir: string, store: map<string, set<int>>, title: string)
    requires pdfDir in disk && Lists(disk[pdfDir], store) && Titles.Sanitize(title) != ""
    ensures Lookup.TocImages(disk, pdfDir, Titles.Sanitize(title)) != Failure(Lookup.NotADirectory)
  {
    var section := Titles.Sanitize(title);
    forall p
      ensures section != Writer.PageFileName(p)
    {
      var f := Writer.PageFileName(p);
      assert f[|f| - 4] == '.';
    }
    SectionLookupAgrees(disk, pdfDir, store, section);
  }

  /** The page lookup finds page `n` exactly when some section holds it, and
      answers with that section's URI for the page file. */
  lemma PageLookupAgrees(disk: Lookup.Disk, pdfDir: string, store: map<string, set<int>>, page: int)
    requires pdfDir in disk && Lists(disk[pdfDir], store)
    ensures Lookup.PageImage(disk, pdfDir, page).Success? <==> exists s :: s in store && page in store[s]
    ensures Lookup.PageImage(disk, pdfDir, page).Success? ==>
              exists s :: s in store && page in store[s] &&
                Lookup.PageImage(disk, pdfDir, page).value.uri ==
                  Lookup.ImageUri(Lookup.FolderPath(pdfDir, s), Writer.PageFileName(page))
  {
    var tree := disk[pdfDir];
    var file := Writer.PageFileName(page);
    if exists s :: s in store && page in store[s] {
      var s :| s in store && page in store[s];
      ListedFolder(tree, store, s);
      var k := Lookup.FindFolder(tree, s).value;
      HoldsPageFile(tree[k].files, store[s], page);
    }
    if Lookup.PageImage(disk, pdfDir, page).Success? {
      var k :| 0 <= k < |tree| && file in tree[k].files &&
               Lookup.PageImage(disk, pdfDir, page).value.uri ==
                 Lookup.ImageUri(Lookup.FolderPath(pdfDir, tree[k].name), file);
      assert tree[k].name in store;
      HoldsPageFile(tree[k].files, store[tree[k].name], page);
    }
  }

  /** The document lookup fails exactly when nothing was saved anywhere. */
  lemma DocumentLookupFails(disk: Lookup.Disk, pdfDir: string, store: map<string, set<int>>)
    requires pdfDir in disk && Lists(disk[pdfDir], store)
    ensures Lookup.DocumentImages(disk, pdfDir).Failure? <==> forall s :: s in store ==> store[s] == {}
  {
    var tree := disk[pdfDir];
    forall s, p | s in store && p in store[s]
      ensures exists k, f :: 0 <= k < |tree| && f in tree[k].files && Lookup.IsImageFile(f)
    {
      ListedFolder(tree, store, s);
      var k := Lookup.FindFolder(tree, s).value;
      assert Writer.PageFileName(p) in tree[k].files;
      assert Lookup.IsImageFile(Writer.PageFileName(p));
    }
    forall k, f | 0 <= k < |tree| && f in tree[k].files
      ensures exists p :: p in store[tree[k].name]
    {
      ListedFileIsPage(tree, store, k, f);
    }
  }

  /** A URI returned by the document lookup names a saved page. */
  lemma DocumentUriIsPage(disk: Lookup.Disk, pdfDir: string, store: map<string, set<int>>, u: string)
    requires pdfDir in disk && Lists(disk[pdfDir], store)
    requires Lookup.DocumentImages(disk, pdfDir).Success? && u in Lookup.DocumentImages(disk, pdfDir).value
    ensures exists s, p :: s in store && p in store[s] &&
                           u == Lookup.ImageUri(Lookup.FolderPath(pdfDir, s), Writer.PageFileName(p))
  {
    var tree := disk[pdfDir];
    Lookup.DocumentImagesSpec(disk, pdfDir, u);
    var k, f :| 0 <= k < |tree| && f in tree[k].files && Lookup.IsImageFile(f) &&
                u == Lookup.ImageUri(Lookup.FolderPath(pdfDir, tree[k].name), f);
    ListedFileIsPage(tree, store, k, f);
    var p :| p in store[tree[k].name] && f == Writer.PageFileName(p);
    assert u == Lookup.ImageUri(Lookup.FolderPath(pdfDir, tree[k].name), Writer.PageFileName(p));
  }

  /** A saved page's URI is returned by the document lookup. */
  lemma PageUriInDocument(disk: Lookup.Disk, pdfDir: string, store: map<string, set<int>>, s: string, p: int)
    requires pdfDir in disk && Lists(disk[pdfDir], store) && s in store && p in store[s]
    ensures Lookup.DocumentImages(disk, pdfDir).Success?
    ensures Lookup.ImageUri(Lookup.FolderPath(pdfDir, s), Writer.PageFileName(p)) in Lookup.DocumentImages(disk, pdfDir).value
  {
    var tree := disk[pdfDir];
    var f := Writer.PageFileName(p);
    ListedFolder(tree, store, s);
    var k := Lookup.FindFolder(tree, s).value;
    assert f in tree[k].files && Lookup.IsImageFile(f);
    DocumentLookupFails(disk, pdfDir, store);
    Lookup.DocumentImagesSpec(disk, pdfDir, Lookup.ImageUri(Lookup.FolderPath(pdfDir, s), f));
  }

  /** The document lookup returns one URI per saved page of every section,
      and fails exactly when nothing was saved anywhere. */
  lemma DocumentLookupAgrees(disk: Lookup.Disk, pdfDir: string, store: map<string, set<int>>, u: string)
    requires pdfDir in disk && Lists(disk[pdfDir], store)
    ensures Lookup.DocumentImages(disk, pdfDir).Failure? <==> forall s :: s in store ==> store[s] == {}
    ensures Lookup.DocumentImages(disk, pdfDir).Success? ==>
              (u in Lookup.DocumentImages(disk, pdfDir).value <==>
                 exists s, p :: s in store && p in store[s] &&
                                u == Lookup.ImageUri(Lookup.FolderPath(pdfDir, s), Writer.PageFileName(p)))
  {
    DocumentLookupFails(disk, pdfDir, store);
    if Lookup.DocumentImages(disk, pdfDir).Success? {
      if u in Lookup.DocumentImages(disk, pdfDir).value {
        DocumentUriIsPage(disk, pdfDir, store, u);
      }
      if exists s, p :: s in store && p in store[s] &&
                        u == Lookup.ImageUri(Lookup.FolderPath(pdfDir, s), Writer.PageFileName(p)) {
        var s, p :| s in store && p in store[s] &&
                    u == Lookup.ImageUri(Lookup.FolderPath(pdfDir, s), Writer.PageFileName(p));
        PageUriInDocument(disk, pdfDir, store, s, p);
      }
    }
  }

  /** End to end, with the intended guard: after converting an outline, the
      page lookup finds page `n` exactly when `n` is a real page that some
      entry of the (possibly defaulted) outline starts on. */
  lemma ConvertedPageFound(toc: seq<Toc.Entry>, pages: nat, disk: Lookup.Disk, pdfDir: string, page: int)
    requires Writer.Run(Toc.Outline(toc), pages, Writer.Guarded).Success?
    requires pdfDir in disk && Lists(disk[pdfDir], Writer.Run(Toc.Outline(toc), pages, Writer.Guarded).value.store)
    ensures Lookup.PageImage(disk, pdfDir, page).Success? <==>
              1 <= page <= pages &&
              exists i :: 0 <= i < |Toc.Outline(toc)| && Toc.Outline(toc)[i].page == page
  {
    var outline := Toc.Outline(toc);
    var store := Writer.Run(outline, pages, Writer.Guarded).value.store;
    PageLookupAgrees(disk, pdfDir, store, page);
    if Lookup.PageImage(disk, pdfDir, page).Success? {
      var s :| s in store && page in store[s];
      Writer.StorePresence(outline, pages, Writer.Guarded, s, page);
    }
    if 1 <= page <= pages && exists i :: 0 <= i < |outline| && outline[i].page == page {
      var i :| 0 <= i < |outline| && outline[i].page == page;
      var s := Titles.Sanitize(outline[i].title);
      Writer.StorePresence(outline, pages, Writer.Guarded, s, page);
    }
  }

  /** Every save of the conversion is visible to the section lookup of its
      section (unless the title sanitised to the empty name, which the route
      cannot express), under the URI of its page file. */
  lemma WrittenSectionListed(toc: seq<Toc.Entry>, pages: nat, policy: Writer.Policy,
                             disk: Lookup.Disk, pdfDir: string, k: nat)
    requires Writer.Run(toc, pages, policy).Success?
    requires pdfDir in disk && Lists(disk[pdfDir], Writer.Run(toc, pages, policy).value.store)
    requires k < |Writer.Run(toc, pages, policy).value.writes|
    requires Writer.Run(toc, pages, policy).value.writes[k].section != ""
    ensures var w := Writer.Run(toc, pages, policy).value.writes[k];
            && Lookup.TocImages(disk, pdfDir, w.section).Success?
            && Lookup.ImageUri(pdfDir + "/" + w.section, Writer.PageFileName(w.page))
                 in Lookup.TocImages(disk, pdfDir, w.section).value
  {
    var plan := Writer.Run(toc, pages, policy).value;
    Writer.WritesInStore(toc, pages, policy, k);
    SectionLookupAgrees(disk, pdfDir, plan.store, plan.writes[k].section);
  }

  /** Every save of the conversion is returned by the document lookup. */
  lemma WrittenDocumentListed(toc: seq<Toc.Entry>, pages: nat, policy: Writer.Policy,
                              disk: Lookup.Disk, pdfDir: string, k: nat)
    requires Writer.Run(toc, pages, policy).Success?
    requires pdfDir in disk && Lists(disk[pdfDir], Writer.Run(toc, pages, policy).value.store)
    requires k < |Writer.Run(toc, pages, policy).value.writes|
    ensures var w := Writer.Run(toc, pages, policy).value.writes[k];
            && Lookup.DocumentImages(disk, pdfDir).Success?
            && Lookup.ImageUri(Lookup.FolderPath(pdfDir, w.section), Writer.PageFileName(w.page))
                 in Lookup.DocumentImages(disk, pdfDir).value
  {
    var plan := Writer.Run(toc, pages, policy).value;
    var w := plan.writes[k];
    Writer.WritesInStore(toc, pages, policy, k);
    DocumentLookupAgrees(disk, pdfDir, plan.store,
                         Lookup.ImageUri(Lookup.FolderPath(pdfDir, w.section), Writer.PageFileName(w.page)));
  }

  /** The URI a lookup returns for a saved page is the path the writer saved
      it under, with a leading slash. For a non-empty section that is the path
      the image endpoint resolves (main.py:153-158); a page saved in the root
      gets a URI with one segment too few for that route. */
  lemma UriIsWrittenPath(root: string, w: Writer.Write)
    requires |root| > 0 && root[|root| - 1] != '/'
    requires forall i :: 0 <= i < |w.section| ==> w.section[i] != '/'
    ensures Lookup.ImageUri(Lookup.FolderPath(root, w.section), Writer.PageFileName(w.page)) ==
              "/" + Writer.WritePath(Registry.BaseDir + "/" + root, w)
  {
    PageFileStartsPlain(w.page);
    UriIsJoinedPath(root, w.section, Writer.PageFileName(w.page));
  }

  /** The same for any file name that does not restart the path. */
  lemma UriIsJoinedPath(root: string, section: string, file: string)
    requires |root| > 0 && root[|root| - 1] != '/'
    requires forall i :: 0 <= i < |section| ==> section[i] != '/'
    requires |file| > 0 && file[0] != '/'
    ensures Lookup.ImageUri(Lookup.FolderPath(root, section), file) ==
              "/" + Registry.Join(Registry.Join(Registry.BaseDir + "/" + root, section), file)
  {
    var dir := Registry.BaseDir + "/" + root;
    assert dir[|dir| - 1] == root[|root| - 1];
    JoinedFile(dir, section, file);
    var folder := Lookup.FolderPath(root, section);
    assert Lookup.FolderPath(dir, section) == Registry.BaseDir + "/" + folder;
    assert "/images/" == "/" + Registry.BaseDir + "/";
  }

  /** Joining a section name and then a file name onto a document directory,
      as the writer does, gives the folder path the lookups report followed
      by the file name; the root section "" adds no component. */
  lemma JoinedFile(dir: string, section: string, file: string)
    requires |dir| > 0 && dir[|dir| - 1] != '/'
    requires forall i :: 0 <= i < |section| ==> section[i] != '/'
    requires |file| > 0 && file[0] != '/'
    ensures Registry.Join(Registry.Join(dir, section), file) == Lookup.FolderPath(dir, section) + "/" + file
  {
    if section != "" {
      var sub := dir + "/" + section;
      assert sub[|sub| - 1] == section[|section| - 1];
    }
  }

  /** A page file name starts with a letter, so joining it never restarts
      the path. */
  lemma PageFileStartsPlain(page: int)
    ensures |Writer.PageFileName(page)| > 0 && Writer.PageFileName(page)[0] == 'p'
  {
    var file := Writer.PageFileName(page);
    assert file[0] == file[..5][0];
  }
}
