/** The write plan of `pdf_to_images_by_toc` (main.py:39-67, helpers.py:30-58):
    a fold over the outline that, per entry, creates the section directory
    named by the sanitised title and saves at most one rendered page, the
    entry's own start page, as `page_<page>.jpg`.

    Rendering is abstracted to the page count `pages` (`len(images)`), the
    file system to a store mapping each section directory to the page numbers
    saved in it. The guard `image_index < len(images)` has no lower bound, so
    Python's negative indexing applies to pages below 1; `AsWritten` models
    that, `Guarded` is the evidently intended `0 <= image_index < len(images)`. */
module Writer {
  import opened Results
  import opened Toc
  import opened Text
  import Titles
  import Registry

  datatype Policy = AsWritten | Guarded

  /** What reading the rendered image of one entry's page does. */
  datatype Resolution =
    | Skip                 // the guard fails: nothing saved, no error
    | Render(index: nat)   // `images[index]` is saved
    | IndexError           // Python raises: the whole conversion fails

  function Resolve(policy: Policy, page: int, pages: nat): (r: Resolution)
    ensures r.Render? ==> r.index < pages
    ensures page >= 1 ==> !r.IndexError? && (r.Render? <==> page <= pages)
    ensures page >= 1 && r.Render? ==> r.index == page - 1
    ensures policy == Guarded ==> !r.IndexError? && (r.Render? <==> 1 <= page <= pages)
    ensures policy == Guarded && r.Render? ==> r.index == page - 1
    ensures policy == AsWritten ==> (r.Skip? <==> page > pages)
    ensures policy == AsWritten ==> (r.IndexError? <==> page < 1 - pages)
    ensures policy == AsWritten && page < 1 && r.Render? ==> r.index == pages + page - 1
  {
    var index := page - 1;
    match policy
    case AsWritten =>
      if index >= pages then Skip
      else if index >= 0 then Render(index)
      else if index + pages >= 0 then Render(pages + index)
      else IndexError
    case Guarded =>
      if 0 <= index < pages then Render(index) else Skip
  }

  /** One saved image: the outline entry that caused it, the section
      directory, the page number in the file name and the rendered image. */
  datatype Write = Write(entry: nat, section: string, page: int, image: nat)

  /** The directories created with the pages saved in each, and the saves in
      order (`image_paths`). */
  datatype Plan = Plan(store: map<string, set<int>>, writes: seq<Write>)

  /** The exception that ends the conversion, with what was already on disk:
      nothing is rolled back. */
  datatype Abort = PageIndexError(entry: nat, partial: Plan)

  /** What the conversion returns: the plan and the outline it used. */
  datatype Conversion = Conversion(plan: Plan, toc: seq<Entry>)

  /** The file name a page is saved under: `page_`, the page number in
      decimal, then `.jpg`. */
  function PageFileName(page: int): (r: string)
    ensures EndsWith(r, ".jpg")
    ensures |r| > 9 && r[..5] == "page_" && r[5..|r| - 4] == IntToString(page)
  {
    var name := "page_" + IntToString(page) + ".jpg";
    EndsWithConcat("page_" + IntToString(page), ".jpg");
    name
  }

  /** Different pages are saved under different file names. */
  lemma PageFileNameInjective(a: int, b: int)
    ensures PageFileName(a) == PageFileName(b) <==> a == b
  {
    if PageFileName(a) == PageFileName(b) {
      IntToStringInjective(a, b);
    }
  }

  /** Creating a section directory, which is no change when it already
      exists. */
  function MakeDir(store: map<string, set<int>>, section: string): (r: map<string, set<int>>)
    ensures r.Keys == store.Keys + {section}
    ensures forall s :: s in store ==> r[s] == store[s]
    ensures section !in store ==> r[section] == {}
  {
    if section in store then store else store[section := {}]
  }

  /** What the loop body derives from an entry before touching the disk:
      the section directory name and the page number. */
  datatype Target = Target(section: string, page: int)

  function TargetOf(e: Entry): Target
  {
    Target(Titles.Sanitize(e.title), e.page)
  }

  function Targets(toc: seq<Entry>): (r: seq<Target>)
    ensures |r| == |toc|
    ensures forall i :: 0 <= i < |toc| ==> r[i] == TargetOf(toc[i])
  {
    seq(|toc|, i requires 0 <= i < |toc| => TargetOf(toc[i]))
  }

  /** One iteration of the loop over the outline; `k` is the entry's position. */
  function Step(plan: Plan, k: nat, t: Target, pages: nat, policy: Policy): (r: Result<Plan, Abort>)
    ensures r.Failure? <==> Resolve(policy, t.page, pages).IndexError?
    ensures r.Failure? ==> r.error.entry == k && r.error.partial.writes == plan.writes
    ensures r.Success? ==> r.value.store.Keys == plan.store.Keys + {t.section}
    ensures r.Success? ==> forall s :: s in plan.store && s != t.section ==>
                             r.value.store[s] == plan.store[s]
    ensures r.Failure? ==> r.error.partial.store == MakeDir(plan.store, t.section)
    ensures r.Success? ==> r.value.store[t.section] ==
                             MakeDir(plan.store, t.section)[t.section] +
                             (if Resolve(policy, t.page, pages).Render? then {t.page} else {})
  {
    var store := MakeDir(plan.store, t.section);
    match Resolve(policy, t.page, pages)
    case Skip => Success(Plan(store, plan.writes))
    case IndexError => Failure(PageIndexError(k, Plan(store, plan.writes)))
    case Render(index) =>
      Success(Plan(store[t.section := store[t.section] + {t.page}],
                   plan.writes + [Write(k, t.section, t.page, index)]))
  }

  /** The loop as a fold over the targets, stopping at the first exception. */
  function Plans(ts: seq<Target>, pages: nat, policy: Policy): Result<Plan, Abort>
    decreases |ts|
  {
    if |ts| == 0 then Success(Plan(map[], []))
    else
      match Plans(ts[..|ts| - 1], pages, policy)
      case Failure(abort) => Failure(abort)
      case Success(plan) => Step(plan, |ts| - 1, ts[|ts| - 1], pages, policy)
  }

  /** The conversion of an outline. */
  function Run(toc: seq<Entry>, pages: nat, policy: Policy): Result<Plan, Abort>
  {
    Plans(Targets(toc), pages, policy)
  }

  // ---------------------------------------------------------------------
  // Reference description of the outcome, target by target.

  predicate Renders(t: Target, pages: nat, policy: Policy)
  {
    Resolve(policy, t.page, pages).Render?
  }

  predicate Crashes(t: Target, pages: nat, policy: Policy)
  {
    Resolve(policy, t.page, pages).IndexError?
  }

  /** Every directory some target names. */
  function Sections(ts: seq<Target>): set<string>
  {
    set i | 0 <= i < |ts| :: ts[i].section
  }

  /** The pages the targets naming `section` save. */
  function PagesOf(ts: seq<Target>, section: string, pages: nat, policy: Policy): set<int>
  {
    set i | 0 <= i < |ts| && ts[i].section == section && Renders(ts[i], pages, policy) :: ts[i].page
  }

  /** The save target `i` performs. */
  function WriteFor(ts: seq<Target>, i: nat, pages: nat, policy: Policy): Write
    requires i < |ts| && Renders(ts[i], pages, policy)
  {
    Write(i, ts[i].section, ts[i].page, Resolve(policy, ts[i].page, pages).index)
  }

  ghost predicate StoreMatches(store: map<string, set<int>>, ts: seq<Target>, pages: nat, policy: Policy)
  {
    && store.Keys == Sections(ts)
    && forall s :: s in store ==> store[s] == PagesOf(ts, s, pages, policy)
  }

  /** Each save is the one its target performs. */
  ghost predicate WritesMatch(ws: seq<Write>, ts: seq<Target>, pages: nat, policy: Policy)
  {
    forall k :: 0 <= k < |ws| ==>
      ws[k].entry < |ts| && Renders(ts[ws[k].entry], pages, policy) &&
      ws[k] == WriteFor(ts, ws[k].entry, pages, policy)
  }

  /** The saves come in target order, at most one per target. */
  ghost predicate WritesOrdered(ws: seq<Write>)
  {
    forall j, k :: 0 <= j < k < |ws| ==> ws[j].entry < ws[k].entry
  }

  /** Every target that renders is saved. */
  ghost predicate WritesComplete(ws: seq<Write>, ts: seq<Target>, pages: nat, policy: Policy)
  {
    forall i :: 0 <= i < |ts| && Renders(ts[i], pages, policy) ==>
      exists k :: 0 <= k < |ws| && ws[k].entry == i
  }

  /** The saves are exactly those of the targets that render, in order. */
  ghost predicate WritesFollow(ws: seq<Write>, ts: seq<Target>, pages: nat, policy: Policy)
  {
    WritesMatch(ws, ts, pages, policy) && WritesOrdered(ws) && WritesComplete(ws, ts, pages, policy)
  }

  lemma SectionsSnoc(ts: seq<Target>)
    requires |ts| > 0
    ensures Sections(ts) == Sections(ts[..|ts| - 1]) + {ts[|ts| - 1].section}
  {
    var pre := ts[..|ts| - 1];
    forall x | x in Sections(ts)
      ensures x in Sections(pre) + {ts[|ts| - 1].section}
    {
      var i :| 0 <= i < |ts| && ts[i].section == x;
      if i < |ts| - 1 {
        assert pre[i] == ts[i];
      }
    }
    forall x | x in Sections(pre)
      ensures x in Sections(ts)
    {
      var i :| 0 <= i < |pre| && pre[i].section == x;
      assert ts[i] == pre[i];
    }
  }

  lemma PagesOfSnoc(ts: seq<Target>, section: string, pages: nat, policy: Policy)
    requires |ts| > 0
    ensures var last := ts[|ts| - 1];
            PagesOf(ts, section, pages, policy) ==
              PagesOf(ts[..|ts| - 1], section, pages, policy) +
              (if last.section == section && Renders(last, pages, policy) then {last.page} else {})
  {
    var pre := ts[..|ts| - 1];
    var last := ts[|ts| - 1];
    var extra: set<int> := if last.section == section && Renders(last, pages, policy)
                           then {last.page} else {};
    forall p | p in PagesOf(ts, section, pages, policy)
      ensures p in PagesOf(pre, section, pages, policy) + extra
    {
      var i :| 0 <= i < |ts| && ts[i].section == section &&
               Renders(ts[i], pages, policy) && ts[i].page == p;
      if i < |ts| - 1 {
        assert pre[i] == ts[i];
      }
    }
    forall p | p in PagesOf(pre, section, pages, policy)
      ensures p in PagesOf(ts, section, pages, policy)
    {
      var i :| 0 <= i < |pre| && pre[i].section == section &&
               Renders(pre[i], pages, policy) && pre[i].page == p;
      assert ts[i] == pre[i];
    }
  }

  /** The fold fails exactly when some target makes Python raise. */
  lemma {:induction false} PlansSucceed(ts: seq<Target>, pages: nat, policy: Policy)
    ensures Plans(ts, pages, policy).Success? <==>
              forall i :: 0 <= i < |ts| ==> !Crashes(ts[i], pages, policy)
    decreases |ts|
  {
    if |ts| > 0 {
      var n := |ts| - 1;
      var pre := ts[..n];
      PlansSucceed(pre, pages, policy);
      assert forall i :: 0 <= i < n ==> pre[i] == ts[i];
    }
  }

  /** The store invariant: the directories are the sections of all targets,
      each holding exactly the pages its targets render. */
  lemma {:induction false} PlansStore(ts: seq<Target>, pages: nat, policy: Policy)
    requires Plans(ts, pages, policy).Success?
    ensures StoreMatches(Plans(ts, pages, policy).value.store, ts, pages, policy)
    decreases |ts|
  {
    if |ts| > 0 {
      var n := |ts| - 1;
      var pre := ts[..n];
      var plan := Plans(pre, pages, policy).value;
      PlansStore(pre, pages, policy);
      var store := Plans(ts, pages, policy).value.store;
      SectionsSnoc(ts);
      forall s | s in store
        ensures store[s] == PagesOf(ts, s, pages, policy)
      {
        PagesOfSnoc(ts, s, pages, policy);
      }
    }
  }

  /** Each save is the one its target performs. */
  lemma {:induction false} PlansWritesMatch(ts: seq<Target>, pages: nat, policy: Policy)
    requires Plans(ts, pages, policy).Success?
    ensures WritesMatch(Plans(ts, pages, policy).value.writes, ts, pages, policy)
    decreases |ts|
  {
    if |ts| > 0 {
      var n := |ts| - 1;
      var pre := ts[..n];
      var plan := Plans(pre, pages, policy).value;
      PlansWritesMatch(pre, pages, policy);
      assert forall i :: 0 <= i < n ==> pre[i] == ts[i];
      var ws := Plans(ts, pages, policy).value.writes;
      if Renders(ts[n], pages, policy) {
        assert ws == plan.writes + [WriteFor(ts, n, pages, policy)];
        forall k | 0 <= k < |ws|
          ensures ws[k].entry < |ts| && Renders(ts[ws[k].entry], pages, policy) &&
                  ws[k] == WriteFor(ts, ws[k].entry, pages, policy)
        {
          if k < |plan.writes| {
            assert ws[k] == plan.writes[k];
          }
        }
      } else {
        assert ws == plan.writes;
      }
    }
  }

  /** The saves come in target order and number at most the targets. */
  lemma {:induction false} PlansWritesOrdered(ts: seq<Target>, pages: nat, policy: Policy)
    requires Plans(ts, pages, policy).Success?
    ensures WritesOrdered(Plans(ts, pages, policy).value.writes)
    ensures forall k :: 0 <= k < |Plans(ts, pages, policy).value.writes| ==>
              Plans(ts, pages, policy).value.writes[k].entry < |ts|
    ensures |Plans(ts, pages, policy).value.writes| <= |ts|
    decreases |ts|
  {
    if |ts| > 0 {
      var n := |ts| - 1;
      var pre := ts[..n];
      var plan := Plans(pre, pages, policy).value;
      PlansWritesOrdered(pre, pages, policy);
      var ws := Plans(ts, pages, policy).value.writes;
      if Renders(ts[n], pages, policy) {
        assert ws == plan.writes + [WriteFor(ts, n, pages, policy)];
      } else {
        assert ws == plan.writes;
      }
    }
  }

  /** Every target that renders is saved. */
  lemma {:induction false} PlansWritesComplete(ts: seq<Target>, pages: nat, policy: Policy)
    requires Plans(ts, pages, policy).Success?
    ensures WritesComplete(Plans(ts, pages, policy).value.writes, ts, pages, policy)
    decreases |ts|
  {
    if |ts| > 0 {
      var n := |ts| - 1;
      var pre := ts[..n];
      var plan := Plans(pre, pages, policy).value;
      PlansWritesComplete(pre, pages, policy);
      var ws := Plans(ts, pages, policy).value.writes;
      assert forall k :: 0 <= k < |plan.writes| ==> ws[k] == plan.writes[k];
      forall i | 0 <= i < |ts| && Renders(ts[i], pages, policy)
        ensures exists k :: 0 <= k < |ws| && ws[k].entry == i
      {
        if i == n {
          assert ws[|plan.writes|].entry == i;
        } else {
          assert pre[i] == ts[i];
          var k :| 0 <= k < |plan.writes| && plan.writes[k].entry == i;
          assert ws[k].entry == i;
        }
      }
    }
  }

  /** The saves follow the targets in order, one per rendering target. */
  lemma PlansWrites(ts: seq<Target>, pages: nat, policy: Policy)
    requires Plans(ts, pages, policy).Success?
    ensures WritesFollow(Plans(ts, pages, policy).value.writes, ts, pages, policy)
    ensures |Plans(ts, pages, policy).value.writes| <= |ts|
  {
    PlansWritesMatch(ts, pages, policy);
    PlansWritesOrdered(ts, pages, policy);
    PlansWritesComplete(ts, pages, policy);
  }

  /** On failure the error names the first target that raised; everything
      before it was saved and its own directory was created. */
  lemma {:induction false} PlansAbort(ts: seq<Target>, pages: nat, policy: Policy)
    requires Plans(ts, pages, policy).Failure?
    ensures var abort := Plans(ts, pages, policy).error;
            && abort.entry < |ts|
            && Crashes(ts[abort.entry], pages, policy)
            && (forall i :: 0 <= i < abort.entry ==> !Crashes(ts[i], pages, policy))
            && Plans(ts[..abort.entry], pages, policy).Success?
            && abort.partial.store ==
                 MakeDir(Plans(ts[..abort.entry], pages, policy).value.store, ts[abort.entry].section)
            && abort.partial.writes == Plans(ts[..abort.entry], pages, policy).value.writes
    decreases |ts|
  {
    var n := |ts| - 1;
    var pre := ts[..n];
    assert forall i :: 0 <= i < n ==> pre[i] == ts[i];
    if Plans(pre, pages, policy).Failure? {
      PlansAbort(pre, pages, policy);
      var k := Plans(pre, pages, policy).error.entry;
      assert pre[..k] == ts[..k];
    } else {
      PlansSucceed(pre, pages, policy);
      assert ts[..n] == pre;
    }
  }

  /** Once a prefix fails, the whole fold fails the same way. */
  lemma {:induction false} PlansPrefixFails(ts: seq<Target>, n: nat, pages: nat, policy: Policy)
    requires n <= |ts| && Plans(ts[..n], pages, policy).Failure?
    ensures Plans(ts, pages, policy) == Plans(ts[..n], pages, policy)
    decreases |ts| - n
  {
    if n < |ts| {
      var m := |ts| - 1;
      assert ts[..m][..n] == ts[..n];
      PlansPrefixFails(ts[..m], n, pages, policy);
    } else {
      assert ts[..n] == ts;
    }
  }

  /** One more entry extends the fold by one step. */
  lemma PlansNext(ts: seq<Target>, i: nat, pages: nat, policy: Policy, plan: Plan)
    requires i < |ts| && Plans(ts[..i], pages, policy) == Success(plan)
    ensures Plans(ts[..i + 1], pages, policy) == Step(plan, i, ts[i], pages, policy)
  {
    assert ts[..i + 1][..i] == ts[..i];
  }

  /** The imperative loop of the source, returning the outline it used.
      It agrees with the fold, so the fold's invariants describe its result. */
  method ConvertByToc(toc: seq<Entry>, pages: nat, policy: Policy) returns (r: Result<Conversion, Abort>)
    ensures var outline := Outline(toc);
            && (r.Success? <==> Run(outline, pages, policy).Success?)
            && (r.Success? ==> r.value.toc == outline && r.value.plan == Run(outline, pages, policy).value)
            && (r.Failure? ==> r.error == Run(outline, pages, policy).error)
    ensures r.Success? ==>
              && StoreMatches(r.value.plan.store, Targets(r.value.toc), pages, policy)
              && WritesFollow(r.value.plan.writes, Targets(r.value.toc), pages, policy)
              && |r.value.plan.writes| <= |r.value.toc|
  {
    var outline := Outline(toc);
    ghost var ts := Targets(outline);
    var plan := Plan(map[], []);
    var i := 0;
    while i < |outline|
      invariant 0 <= i <= |outline|
      invariant Plans(ts[..i], pages, policy) == Success(plan)
    {
      PlansNext(ts, i, pages, policy, plan);
      var entry := outline[i];
      var section := Titles.Sanitize(entry.title);
      assert ts[i] == Target(section, entry.page);
      var store := MakeDir(plan.store, section);
      var resolution := Resolve(policy, entry.page, pages);
      if resolution.IndexError? {
        PlansPrefixFails(ts, i + 1, pages, policy);
        r := Failure(PageIndexError(i, Plan(store, plan.writes)));
        return;
      }
      var next: Plan;
      if resolution.Render? {
        store := store[section := store[section] + {entry.page}];
        next := Plan(store, plan.writes + [Write(i, section, entry.page, resolution.index)]);
      } else {
        next := Plan(store, plan.writes);
      }
      assert Step(plan, i, ts[i], pages, policy) == Success(next);
      plan := next;
      i := i + 1;
    }
    assert ts[..|outline|] == ts;
    PlansStore(ts, pages, policy);
    PlansWrites(ts, pages, policy);
    r := Success(Conversion(plan, outline));
  }

  // ---------------------------------------------------------------------
  // Consequences, stated on the outline.

  /** Every entry creates the directory of its sanitised title, whether or
      not its page is saved; titles that sanitise alike share a directory. */
  lemma RunDirectories(toc: seq<Entry>, pages: nat, policy: Policy)
    requires Run(toc, pages, policy).Success?
    ensures Run(toc, pages, policy).value.store.Keys ==
              set i | 0 <= i < |toc| :: Titles.Sanitize(toc[i].title)
  {
    var ts := Targets(toc);
    PlansStore(ts, pages, policy);
    assert forall i :: 0 <= i < |toc| ==> ts[i].section == Titles.Sanitize(toc[i].title);
  }

  /** A page is present under a section exactly when some entry with that
      sanitised title names the page and renders it. */
  lemma StorePresence(toc: seq<Entry>, pages: nat, policy: Policy, section: string, page: int)
    requires Run(toc, pages, policy).Success?
    ensures var store := Run(toc, pages, policy).value.store;
            section in store && page in store[section] <==>
              exists i :: 0 <= i < |toc| && Titles.Sanitize(toc[i].title) == section &&
                          toc[i].page == page && Renders(TargetOf(toc[i]), pages, policy)
  {
    var ts := Targets(toc);
    PlansStore(ts, pages, policy);
    if exists i :: 0 <= i < |toc| && Titles.Sanitize(toc[i].title) == section &&
                   toc[i].page == page && Renders(TargetOf(toc[i]), pages, policy) {
      var i :| 0 <= i < |toc| && Titles.Sanitize(toc[i].title) == section &&
               toc[i].page == page && Renders(TargetOf(toc[i]), pages, policy);
      assert ts[i] == TargetOf(toc[i]);
      assert section in Sections(ts);
      assert page in PagesOf(ts, section, pages, policy);
    }
    var store := Run(toc, pages, policy).value.store;
    if section in store && page in store[section] {
      assert page in PagesOf(ts, section, pages, policy);
      var i :| 0 <= i < |ts| && ts[i].section == section && Renders(ts[i], pages, policy) && ts[i].page == page;
      assert ts[i] == TargetOf(toc[i]);
    }
  }

  /** Every save is recorded in the store, under its own section. */
  lemma WritesInStore(toc: seq<Entry>, pages: nat, policy: Policy, k: nat)
    requires Run(toc, pages, policy).Success?
    requires k < |Run(toc, pages, policy).value.writes|
    ensures var plan := Run(toc, pages, policy).value;
            plan.writes[k].section in plan.store && plan.writes[k].page in plan.store[plan.writes[k].section]
  {
    var ts := Targets(toc);
    var w := Run(toc, pages, policy).value.writes[k];
    PlansWrites(ts, pages, policy);
    PlansStore(ts, pages, policy);
    assert w == WriteFor(ts, w.entry, pages, policy);
    assert w.page in PagesOf(ts, w.section, pages, policy);
    assert w.section in Sections(ts);
  }

  /** With only positive page numbers the two policies make the same plan. */
  lemma {:induction false} PoliciesAgreeOnPositivePages(ts: seq<Target>, pages: nat)
    requires forall i :: 0 <= i < |ts| ==> ts[i].page >= 1
    ensures Plans(ts, pages, AsWritten) == Plans(ts, pages, Guarded)
    decreases |ts|
  {
    if |ts| > 0 {
      var n := |ts| - 1;
      assert forall i :: 0 <= i < n ==> ts[..n][i] == ts[i];
      PoliciesAgreeOnPositivePages(ts[..n], pages);
      assert Resolve(AsWritten, ts[n].page, pages) == Resolve(Guarded, ts[n].page, pages);
      if Plans(ts[..n], pages, Guarded).Success? {
        var plan := Plans(ts[..n], pages, Guarded).value;
        assert Step(plan, n, ts[n], pages, AsWritten) == Step(plan, n, ts[n], pages, Guarded);
      }
    }
  }

  /** The intended guard never raises and saves only real pages, each as the
      image of its own page number. */
  lemma GuardedWritesRealPages(toc: seq<Entry>, pages: nat)
    ensures Run(toc, pages, Guarded).Success?
    ensures forall w :: w in Run(toc, pages, Guarded).value.writes ==>
              1 <= w.page <= pages && w.image == w.page - 1
    ensures forall s :: s in Run(toc, pages, Guarded).value.store ==>
              forall p :: p in Run(toc, pages, Guarded).value.store[s] ==> 1 <= p <= pages
  {
    var ts := Targets(toc);
    PlansSucceed(ts, pages, Guarded);
    GuardedSavesRealImages(ts, pages);
    GuardedStoresRealPages(ts, pages);
  }

  lemma GuardedSavesRealImages(ts: seq<Target>, pages: nat)
    requires Plans(ts, pages, Guarded).Success?
    ensures forall w :: w in Plans(ts, pages, Guarded).value.writes ==>
              1 <= w.page <= pages && w.image == w.page - 1
  {
    PlansWritesMatch(ts, pages, Guarded);
    var ws := Plans(ts, pages, Guarded).value.writes;
    forall w | w in ws
      ensures 1 <= w.page <= pages && w.image == w.page - 1
    {
      var k :| 0 <= k < |ws| && ws[k] == w;
      assert w == WriteFor(ts, w.entry, pages, Guarded);
    }
  }

  lemma GuardedStoresRealPages(ts: seq<Target>, pages: nat)
    requires Plans(ts, pages, Guarded).Success?
    ensures forall s :: s in Plans(ts, pages, Guarded).value.store ==>
              forall p :: p in Plans(ts, pages, Guarded).value.store[s] ==> 1 <= p <= pages
  {
    PlansStore(ts, pages, Guarded);
    var store := Plans(ts, pages, Guarded).value.store;
    forall s, p | s in store && p in store[s]
      ensures 1 <= p <= pages
    {
      assert p in PagesOf(ts, s, pages, Guarded);
    }
  }

  /** The plan of a one-entry outline: the entry's directory, and its page
      when the page resolves to an image. */
  lemma {:induction false} SingleEntryPlan(t: Target, pages: nat, policy: Policy)
    ensures Plans([t], pages, policy) ==
              match Resolve(policy, t.page, pages)
              case Skip => Success(Plan(map[t.section := {}], []))
              case IndexError => Failure(PageIndexError(0, Plan(map[t.section := {}], [])))
              case Render(index) => Success(Plan(map[t.section := {t.page}], [Write(0, t.section, t.page, index)]))
  {
    assert [t][..0] == [];
    var empty: set<int> := {};
    var store := MakeDir(map[], t.section);
    assert store == map[t.section := empty];
    match Resolve(policy, t.page, pages)
    case Skip =>
    case IndexError =>
    case Render(index) =>
      assert empty + {t.page} == {t.page};
      assert store[t.section := store[t.section] + {t.page}] == map[t.section := {t.page}];
      assert [] + [Write(0, t.section, t.page, index)] == [Write(0, t.section, t.page, index)];
  }

  /** An empty outline saves page 1 under `general`, when the document has a page. */
  lemma DefaultOutlineWrites(pages: nat, policy: Policy)
    ensures Run(Outline([]), pages, policy) ==
              if pages >= 1 then Success(Plan(map["general" := {1}], [Write(0, "general", 1, 0)]))
              else Success(Plan(map["general" := {}], []))
  {
    assert Targets(Outline([])) == [Target("general", 1)] by {
      Titles.SanitizeClean("general");
      assert Outline([]) == [Entry(1, "general", 1)];
      assert TargetOf(Entry(1, "general", 1)) == Target("general", 1);
    }
    SingleEntryPlan(Target("general", 1), pages, policy);
  }

  // ---------------------------------------------------------------------
  // The defect of the unguarded lower bound.

  /** As written, an entry without a target page (`get_toc` reports -1) saves
      the second-to-last page under the name `page_-1.jpg`. */
  lemma AsWrittenSavesWrongImage(title: string, pages: nat)
    requires pages >= 2
    ensures var section := Titles.Sanitize(title);
            Run([Entry(1, title, -1)], pages, AsWritten) ==
              Success(Plan(map[section := {-1}], [Write(0, section, -1, pages - 2)]))
  {
    var section := Titles.Sanitize(title);
    assert Targets([Entry(1, title, -1)]) == [Target(section, -1)];
    SingleEntryPlan(Target(section, -1), pages, AsWritten);
  }

  /** As written, the same entry in a document of fewer than two pages
      raises, and the whole conversion fails at that entry. */
  lemma AsWrittenAbortsOnMissingTarget(title: string, pages: nat)
    requires pages < 2
    ensures Run([Entry(1, title, -1)], pages, AsWritten).Failure?
    ensures Run([Entry(1, title, -1)], pages, AsWritten).error.entry == 0
  {
    var section := Titles.Sanitize(title);
    assert Targets([Entry(1, title, -1)]) == [Target(section, -1)];
    SingleEntryPlan(Target(section, -1), pages, AsWritten);
  }

  /** With the intended guard the entry only creates its directory. */
  lemma GuardedSkipsMissingTarget(title: string, pages: nat)
    ensures Run([Entry(1, title, -1)], pages, Guarded) ==
              Success(Plan(map[Titles.Sanitize(title) := {}], []))
  {
    var section := Titles.Sanitize(title);
    assert Targets([Entry(1, title, -1)]) == [Target(section, -1)];
    SingleEntryPlan(Target(section, -1), pages, Guarded);
  }

  // ---------------------------------------------------------------------
  // Paths.

  /** The path of a save: its section directory joined onto the document
      root, then its page file name joined onto that. */
  function WritePath(root: string, w: Write): string
  {
    Registry.Join(Registry.Join(root, w.section), PageFileName(w.page))
  }

  /** `image_paths`: one path per save, in order. */
  function ImagePaths(root: string, plan: Plan): (r: seq<string>)
    ensures |r| == |plan.writes|
    ensures forall k :: 0 <= k < |r| ==> EndsWith(r[k], PageFileName(plan.writes[k].page))
  {
    seq(|plan.writes|, k requires 0 <= k < |plan.writes| => WritePath(root, plan.writes[k]))
  }
}
