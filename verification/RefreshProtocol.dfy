/**
 * The refresh protocol of the fault history pages: fault reports mark the centre dirty, the
 * periodic refresh (services/control/logic/logic_fault_refresh.cpp) consumes the mark and reloads
 * the cache, and the page buttons (services/control/logic/logic_hmi_input.cpp) move about in it.
 * Each step is taken as atomic.
 */
module RefreshProtocol {
  import opened Words
  import opened FaultDb
  import opened HistoryCache
  import Activations
  import FaultCenterModel

  /** Outcomes of the queries of the successive cache calls a step makes. */
  datatype Outcomes = Outcomes(first: Queries, second: Queries, third: Queries)

  const ALL_DONE := Outcomes(ALL_OK, ALL_OK, ALL_OK)

  /** The cache and the number of the page on display. */
  datatype Shelf = Shelf(cache: Cache, pageNo: U16)

  // ---- The refresh -----------------------------------------------------------------------

  /** A dirty refresh: totals, then the hot prefix, then the window, while all goes well. */
  function Reloaded(c: Cache, g: Config, view: seq<Row>, pageNo: U16, o: Outcomes): Cache
    requires ValidConfig(g)
  {
    var m := MetaRefreshed(c, g, view, o.first);
    if !m.ok then m.cache
    else
      var h := HotRefreshed(m.cache, g, view, o.second);
      if !h.ok then h.cache else WindowRefreshed(h.cache, g, view, pageNo, o.third).cache
  }

  /** A refresh with nothing changed: the window is reloaded only if the page is outside it. */
  function Topped(c: Cache, g: Config, view: seq<Row>, pageNo: U16, o: Outcomes): Cache
    requires ValidConfig(g)
  {
    if HasPageInWindow(c, pageNo) then c
    else
      var m := MetaRefreshed(c, g, view, o.first);
      if !m.ok then m.cache else WindowRefreshed(m.cache, g, view, pageNo, o.third).cache
  }

  // ---- The buttons -----------------------------------------------------------------------

  function ToPage(s: Shelf, g: Config, view: seq<Row>, page: U16, o: Outcomes): Shelf
    requires ValidConfig(g)
  {
    var m := MetaRefreshed(s.cache, g, view, o.second);
    if !m.ok then Shelf(m.cache, s.pageNo)
    else if m.cache.totalPages == 0 then Shelf(WindowRefreshed(m.cache, g, view, 1, o.third).cache, 1)
    else
      var p := ClampPage(page, m.cache.totalPages);
      Shelf(PageEnsured(m.cache, g, view, p, o.third).cache, p)
  }

  datatype Button = Enter | Next | Prev | First

  /** The page a button aims at, the total being known. */
  function Target(b: Button, pageNo: U16, total: U16): U16 {
    match b
    case Next => if pageNo < total then pageNo + 1 else total
    case Prev => if pageNo > 1 then pageNo - 1 else 1
    case _ => 1
  }

  function Pressed(s: Shelf, g: Config, view: seq<Row>, b: Button, o: Outcomes): Shelf
    requires ValidConfig(g)
  {
    if b == Enter then ToPage(s, g, view, 1, o)
    else
      var m := MetaRefreshed(s.cache, g, view, o.first);
      if !m.ok then Shelf(m.cache, s.pageNo)
      else if m.cache.totalPages == 0 && b != First then
        Shelf(WindowRefreshed(m.cache, g, view, 1, o.third).cache, 1)
      else ToPage(Shelf(m.cache, s.pageNo), g, view, Target(b, s.pageNo, m.cache.totalPages), o)
  }

  // ---- The system ------------------------------------------------------------------------

  datatype System = System(world: FaultCenterModel.World, shelf: Shelf)

  datatype Step =
    | Report(e: Activations.Change)
    | Refresh(o: Outcomes)
    | Press(b: Button, o: Outcomes)

  function View(s: System): seq<Row> {
    ClearedNewestFirst(s.world.db.rows)
  }

  function Displayed(s: System, g: Config): seq<Row> {
    PageRows(s.shelf.cache, g, s.shelf.pageNo)
  }

  function Dirty(s: System): bool {
    s.world.center.dirty
  }

  /** The step, for a catalog and a cache configuration that stay fixed. */
  function Do(cat: FaultCenterModel.Catalog, g: Config, s: System, step: Step): System
    requires ValidConfig(g)
  {
    match step
    case Report(e) => s.(world := FaultCenterModel.SetActive(cat, s.world, e))
    case Refresh(o) =>
      var cache := if Dirty(s) then Reloaded(s.shelf.cache, g, View(s), s.shelf.pageNo, o)
                   else Topped(s.shelf.cache, g, View(s), s.shelf.pageNo, o);
      System(s.world.(center := s.world.center.(dirty := false)), s.shelf.(cache := cache))
    case Press(b, o) => s.(shelf := Pressed(s.shelf, g, View(s), b, o))
  }

  function Run(cat: FaultCenterModel.Catalog, g: Config, s: System, steps: seq<Step>): System
    requires ValidConfig(g)
  {
    if |steps| == 0 then s
    else Do(cat, g, Run(cat, g, s, steps[..|steps| - 1]), steps[|steps| - 1])
  }

  /** After binding: the centre is dirty, and the bound cache is empty. */
  predicate Initial(s: System) {
    Dirty(s) && s.shelf.cache == Cache(true, true, 0, 0, [], [], 0, 0)
  }

  // ---- The cache calls keep coherence, however their queries fare -------------------------

  lemma MetaKeeps(c: Cache, g: Config, view: seq<Row>, q: Queries)
    requires Fits(view, g) && Coherent(c, g, view)
    ensures Coherent(MetaRefreshed(c, g, view, q).cache, g, view)
    ensures MetaRefreshed(c, g, view, q).cache == c
  {
    if q.count {
      MetaCoherent(c, g, view, q);
    }
  }

  lemma WindowKeeps(c: Cache, g: Config, view: seq<Row>, page: U16, q: Queries)
    requires Fits(view, g) && Coherent(c, g, view)
    ensures Coherent(WindowRefreshed(c, g, view, page, q).cache, g, view)
  {
    MetaKeeps(c, g, view, q);
    if q.count && q.range {
      RefreshWindowCoherent(c, g, view, page, q);
    }
  }

  lemma PageKeeps(c: Cache, g: Config, view: seq<Row>, page: U16, q: Queries)
    requires Fits(view, g) && Coherent(c, g, view)
    ensures Coherent(PageEnsured(c, g, view, page, q).cache, g, view)
  {
    if c.totalPages != 0 {
      WindowKeeps(c, g, view, ClampPage(page, c.totalPages), q);
    }
  }

  lemma ToppedKeeps(c: Cache, g: Config, view: seq<Row>, page: U16, o: Outcomes)
    requires Fits(view, g) && Coherent(c, g, view)
    ensures Coherent(Topped(c, g, view, page, o), g, view)
  {
    MetaKeeps(c, g, view, o.first);
    WindowKeeps(c, g, view, page, o.third);
  }

  lemma ToPageKeeps(s: Shelf, g: Config, view: seq<Row>, page: U16, o: Outcomes)
    requires Fits(view, g) && Coherent(s.cache, g, view)
    ensures Coherent(ToPage(s, g, view, page, o).cache, g, view)
  {
    MetaKeeps(s.cache, g, view, o.second);
    WindowKeeps(s.cache, g, view, 1, o.third);
    PageKeeps(s.cache, g, view, ClampPage(page, s.cache.totalPages), o.third);
  }

  lemma PressedKeeps(s: Shelf, g: Config, view: seq<Row>, b: Button, o: Outcomes)
    requires Fits(view, g) && Coherent(s.cache, g, view)
    ensures Coherent(Pressed(s, g, view, b, o).cache, g, view)
  {
    MetaKeeps(s.cache, g, view, o.first);
    WindowKeeps(s.cache, g, view, 1, o.third);
    ToPageKeeps(s, g, view, if b == Enter then 1 else Target(b, s.pageNo, s.cache.totalPages), o);
  }

  // ---- A reload repairs the cache --------------------------------------------------------

  /** The queries a reload makes succeed. */
  predicate Succeeds(o: Outcomes) {
    o.first.count && o.second.latest && o.third.count && o.third.range
  }

  lemma ReloadRepairs(c: Cache, g: Config, view: seq<Row>, page: U16, o: Outcomes)
    requires ValidConfig(g) && Fits(view, g) && c.bound && Succeeds(o)
    ensures var r := Reloaded(c, g, view, page, o);
            && Coherent(r, g, view)
            && (view == [] || HasPageInWindow(r, ClampPage(page, r.totalPages)))
  {
    var m := MetaRefreshed(c, g, view, o.first).cache;
    RefreshHotCoherent(m, g, view, o.second);
    RefreshWindowCoherent(HotRefreshed(m, g, view, o.second).cache, g, view, page, o.third);
  }

  lemma ToppedShows(c: Cache, g: Config, view: seq<Row>, page: U16, o: Outcomes)
    requires Fits(view, g) && Coherent(c, g, view) && Succeeds(o)
    ensures var r := Topped(c, g, view, page, o);
            view == [] || HasPageInWindow(r, ClampPage(page, r.totalPages))
  {
    MetaKeeps(c, g, view, o.first);
    RefreshWindowCoherent(c, g, view, page, o.third);
  }

  // ---- Bound to stay bound ---------------------------------------------------------------

  lemma WindowBound(c: Cache, g: Config, view: seq<Row>, page: U16, q: Queries)
    requires ValidConfig(g)
    ensures WindowRefreshed(c, g, view, page, q).cache.bound == c.bound
    ensures PageEnsured(c, g, view, page, q).cache.bound == c.bound
  {}

  lemma RefreshBound(c: Cache, g: Config, view: seq<Row>, page: U16, o: Outcomes)
    requires ValidConfig(g)
    ensures Reloaded(c, g, view, page, o).bound == c.bound
    ensures Topped(c, g, view, page, o).bound == c.bound
  {
    var m := MetaRefreshed(c, g, view, o.first).cache;
    WindowBound(m, g, view, page, o.third);
    WindowBound(HotRefreshed(m, g, view, o.second).cache, g, view, page, o.third);
  }

  lemma ToPageBound(s: Shelf, g: Config, view: seq<Row>, page: U16, o: Outcomes)
    requires ValidConfig(g)
    ensures ToPage(s, g, view, page, o).cache.bound == s.cache.bound
  {
    var m := MetaRefreshed(s.cache, g, view, o.second).cache;
    WindowBound(m, g, view, 1, o.third);
    WindowBound(m, g, view, ClampPage(page, m.totalPages), o.third);
  }

  lemma PressedBound(s: Shelf, g: Config, view: seq<Row>, b: Button, o: Outcomes)
    requires ValidConfig(g)
    ensures Pressed(s, g, view, b, o).cache.bound == s.cache.bound
  {
    var m := MetaRefreshed(s.cache, g, view, o.first).cache;
    ToPageBound(s, g, view, 1, o);
    WindowBound(m, g, view, 1, o.third);
    ToPageBound(Shelf(m, s.pageNo), g, view, Target(b, s.pageNo, m.totalPages), o);
  }

  lemma BoundStays(cat: FaultCenterModel.Catalog, g: Config, s: System, step: Step)
    requires ValidConfig(g)
    ensures Do(cat, g, s, step).shelf.cache.bound == s.shelf.cache.bound
  {
    match step
    case Report(_) =>
    case Refresh(o) => RefreshBound(s.shelf.cache, g, View(s), s.shelf.pageNo, o);
    case Press(b, o) => PressedBound(s.shelf, g, View(s), b, o);
  }

  // ---- The invariant ---------------------------------------------------------------------

  /** The centre is dirty, or the cache agrees with the database. */
  ghost predicate InStep(s: System, g: Config) {
    s.shelf.cache.bound && (Dirty(s) || Coherent(s.shelf.cache, g, View(s)))
  }

  /** A report that leaves the mark unset leaves the database alone. */
  lemma QuietReport(cat: FaultCenterModel.Catalog, w: FaultCenterModel.World, e: Activations.Change)
    ensures var v := FaultCenterModel.SetActive(cat, w, e);
            (w.center.dirty ==> v.center.dirty) && (v.center.dirty || v.db == w.db)
  {}

  /** The step is not a reload with a failing query. */
  predicate Sure(s: System, step: Step) {
    step.Refresh? && Dirty(s) ==> Succeeds(step.o)
  }

  lemma StepKeeps(cat: FaultCenterModel.Catalog, g: Config, s: System, step: Step)
    requires ValidConfig(g) && Fits(View(s), g) && InStep(s, g) && Sure(s, step)
    ensures InStep(Do(cat, g, s, step), g)
  {
    BoundStays(cat, g, s, step);
    match step
    case Report(e) => QuietReport(cat, s.world, e);
    case Refresh(o) =>
      if Dirty(s) {
        ReloadRepairs(s.shelf.cache, g, View(s), s.shelf.pageNo, o);
      } else {
        ToppedKeeps(s.shelf.cache, g, View(s), s.shelf.pageNo, o);
      }
    case Press(b, o) =>
      if !Dirty(s) {
        PressedKeeps(s.shelf, g, View(s), b, o);
      }
  }

  /** Along the run the list fits the cache's arithmetic and no reload has a failing query. */
  ghost predicate SureRun(cat: FaultCenterModel.Catalog, g: Config, s: System, steps: seq<Step>)
    requires ValidConfig(g)
  {
    forall k :: 0 <= k < |steps| ==>
      var t := Run(cat, g, s, steps[..k]);
      Fits(View(t), g) && Sure(t, steps[k])
  }

  lemma SureBefore(cat: FaultCenterModel.Catalog, g: Config, s: System, steps: seq<Step>)
    requires ValidConfig(g) && |steps| > 0 && SureRun(cat, g, s, steps)
    ensures SureRun(cat, g, s, steps[..|steps| - 1])
  {
    var pre := steps[..|steps| - 1];
    forall k | 0 <= k < |pre|
      ensures Fits(View(Run(cat, g, s, pre[..k])), g) && Sure(Run(cat, g, s, pre[..k]), pre[k])
    {
      assert pre[..k] == steps[..k];
    }
  }

  /** "Dirty, or the cache agrees with the database" holds after every run of reports, refreshes
      and button presses; queries may fail anywhere except in a reload. */
  lemma {:induction false} AlwaysInStep(cat: FaultCenterModel.Catalog, g: Config, s: System, steps: seq<Step>)
    requires ValidConfig(g) && Initial(s) && SureRun(cat, g, s, steps)
    ensures InStep(Run(cat, g, s, steps), g)
  {
    if |steps| > 0 {
      SureBefore(cat, g, s, steps);
      AlwaysInStep(cat, g, s, steps[..|steps| - 1]);
      StepKeeps(cat, g, Run(cat, g, s, steps[..|steps| - 1]), steps[|steps| - 1]);
    }
  }

  // ---- What is on display ----------------------------------------------------------------

  lemma RefreshShows(cat: FaultCenterModel.Catalog, g: Config, s: System, o: Outcomes)
    requires ValidConfig(g) && Fits(View(s), g) && InStep(s, g) && Succeeds(o)
    ensures var t := Do(cat, g, s, Refresh(o));
            View(t) == View(s) && t.shelf.pageNo == s.shelf.pageNo &&
            Displayed(t, g) == ShownPage(View(s), g, s.shelf.pageNo)
  {
    var c, view, page := s.shelf.cache, View(s), s.shelf.pageNo;
    if Dirty(s) {
      ReloadRepairs(c, g, view, page, o);
      WindowShowsPage(Reloaded(c, g, view, page, o), g, view, page);
    } else {
      ToppedKeeps(c, g, view, page, o);
      ToppedShows(c, g, view, page, o);
      WindowShowsPage(Topped(c, g, view, page, o), g, view, page);
    }
  }

  /** After every refresh whose queries succeed, at the end of any such run, the page on display
      is the current slice of the database. */
  lemma {:induction false} DisplayIsCurrent(cat: FaultCenterModel.Catalog, g: Config, s: System, steps: seq<Step>,
                                            o: Outcomes)
    requires ValidConfig(g) && Initial(s) && SureRun(cat, g, s, steps)
    requires Fits(View(Run(cat, g, s, steps)), g) && Succeeds(o)
    ensures var t := Do(cat, g, Run(cat, g, s, steps), Refresh(o));
            Displayed(t, g) == ShownPage(View(t), g, t.shelf.pageNo)
  {
    AlwaysInStep(cat, g, s, steps);
    RefreshShows(cat, g, Run(cat, g, s, steps), o);
  }

  // ---- A window that has fallen behind ---------------------------------------------------

  /** The window holds whole pages of a list, which need not be the current one. */
  ghost predicate WindowFrom(c: Cache, g: Config, was: seq<Row>)
    requires ValidConfig(g)
  {
    HasWindow(c) ==>
      && 1 <= c.windowStart <= c.windowEnd <= PagesNeeded(|was|, g.pageSize)
      && c.windowRows == Slice(was, g.pageSize, c.windowStart, c.windowEnd)
  }

  /** A page in such a window is read as the page of that list, whatever the totals say now. */
  lemma OldPageShown(c: Cache, g: Config, was: seq<Row>, page: U16)
    requires ValidConfig(g) && Fits(was, g) && WindowFrom(c, g, was)
    requires c.valid && HasPageInWindow(c, page) && page <= c.totalPages
    ensures PageRows(c, g, page) == ShownPage(was, g, page)
  {
    PageOfWindow(was, g.pageSize, c.windowStart, c.windowEnd, page);
    DivideUp(|was|, g.pageSize);
    PagesFit(|was|, g.pageSize);
  }

  lemma MorePages(a: nat, b: nat, s: U16)
    requires s > 0 && a <= b
    ensures PagesNeeded(a, s) <= PagesNeeded(b, s)
  {
    DivideUp(a, s);
    DivideUp(b, s);
    LessPages(PagesNeeded(a, s), PagesNeeded(b, s), a, b, s);
  }

  lemma LessPages(p: nat, q: nat, a: nat, b: nat, s: U16)
    requires p * s < a + s && b <= q * s && a <= b
    ensures p <= q
  {
    if q < p {
      Scale(q + 1, p, s);
    }
  }

  // ---- Buttons ---------------------------------------------------------------------------

  /** What a button shows while the cache is up to date with an older list: a target page inside
      the old window is shown as it was, and any other is loaded and shown as it is. */
  lemma PressShowsOldOrNew(g: Config, s: Shelf, was: seq<Row>, view: seq<Row>, b: Button)
    requires Fits(was, g) && Fits(view, g) && Coherent(s.cache, g, was) && |was| <= |view|
    ensures PagesNeeded(|view|, g.pageSize) < 0x1_0000
    ensures var t := Pressed(s, g, view, b, ALL_DONE);
            var total := PagesNeeded(|view|, g.pageSize);
            && t.pageNo == ClampPage(Target(b, s.pageNo, total), total)
            && PageRows(t.cache, g, t.pageNo) ==
               ShownPage(if HasPageInWindow(s.cache, t.pageNo) then was else view, g, t.pageNo)
  {
    MetaCoherent(s.cache, g, view, ALL_OK);
    PagesFit(|view|, g.pageSize);
    DivideUp(|view|, g.pageSize);
    var m := MetaRefreshed(s.cache, g, view, ALL_OK).cache;
    assert MetaRefreshed(m, g, view, ALL_OK).cache == m;
    if m.totalPages == 0 {
      NothingShown(m, g, view);
    } else {
      MorePages(|was|, |view|, g.pageSize);
      PageLoaded(m, g, was, view, ClampPage(Target(b, s.pageNo, m.totalPages), m.totalPages));
    }
  }

  lemma NothingShown(m: Cache, g: Config, view: seq<Row>)
    requires ValidConfig(g) && m.bound && view == []
    ensures PageRows(WindowRefreshed(m, g, view, 1, ALL_OK).cache, g, 1) == []
    ensures !HasPageInWindow(WindowRefreshed(m, g, view, 1, ALL_OK).cache, 1)
  {}

  lemma PageLoaded(m: Cache, g: Config, was: seq<Row>, view: seq<Row>, p: U16)
    requires ValidConfig(g) && Fits(was, g) && Fits(view, g) && m.bound && m.valid
    requires m.totalPages == PagesNeeded(|view|, g.pageSize) && 1 <= p <= m.totalPages
    requires WindowFrom(m, g, was)
    ensures PageRows(PageEnsured(m, g, view, p, ALL_OK).cache, g, p) ==
            ShownPage(if HasPageInWindow(m, p) then was else view, g, p)
  {
    if HasPageInWindow(m, p) {
      OldPageShown(m, g, was, p);
    } else {
      LoadedPageShown(m, g, view, p, ALL_OK);
    }
  }

  /** A window just loaded shows the page it was loaded for, whatever else the cache holds. */
  lemma LoadedPageShown(c: Cache, g: Config, view: seq<Row>, page: U16, q: Queries)
    requires ValidConfig(g) && Fits(view, g) && c.bound && q.count && q.range
    ensures PageRows(WindowRefreshed(c, g, view, page, q).cache, g, page) == ShownPage(view, g, page)
  {
    MetaCoherent(c, g, view, q);
    DivideUp(|view|, g.pageSize);
    if view != [] {
      WindowLoads(c, g, view, page, q);
      WindowReads(WindowRefreshed(c, g, view, page, q).cache, g, view, page);
    }
  }

  /** So a button pressed while the cache agrees shows the current slice of its target page. */
  lemma PressShows(g: Config, s: Shelf, view: seq<Row>, b: Button)
    requires Fits(view, g) && Coherent(s.cache, g, view)
    ensures var t := Pressed(s, g, view, b, ALL_DONE);
            && t.pageNo == ClampPage(Target(b, s.pageNo, s.cache.totalPages), s.cache.totalPages)
            && PageRows(t.cache, g, t.pageNo) == ShownPage(view, g, t.pageNo)
  {
    PressShowsOldOrNew(g, s, view, view, b);
  }

  /** Where the buttons lead, total being the pages the list needs now: Next one page on unless it is
      the last, Prev one page back unless it is the first, Enter and First to the first. */
  lemma {:induction false} ButtonMoves(g: Config, s: Shelf, was: seq<Row>, view: seq<Row>, b: Button, total: nat)
    requires Fits(was, g) && Fits(view, g) && Coherent(s.cache, g, was) && |was| <= |view|
    requires |view| <= total * g.pageSize < |view| + g.pageSize
    ensures LeadsTo(b, s.pageNo, total, Pressed(s, g, view, b, ALL_DONE).pageNo)
  {
    PressShowsOldOrNew(g, s, was, view, b);
    DivideUp(|view|, g.pageSize);
    SameTotal(total, PagesNeeded(|view|, g.pageSize), |view|, g.pageSize);
    TargetLeads(b, s.pageNo, total);
  }

  predicate LeadsTo(b: Button, from: U16, total: nat, to: U16) {
    match b
    case Next => to == if total == 0 then 1 else if from < total then from + 1 else total
    case Prev => to == if from <= 1 || total == 0 then 1 else if from <= total then from - 1 else total
    case Enter => to == 1
    case First => to == 1
  }

  lemma TargetLeads(b: Button, from: U16, total: U16)
    ensures LeadsTo(b, from, total, ClampPage(Target(b, from, total), total))
  {}

  lemma SameTotal(p: nat, q: nat, n: nat, s: nat)
    requires n <= p * s < n + s && n <= q * s < n + s
    ensures p == q
  {
    if p < q {
      Scale(p + 1, q, s);
    } else if q < p {
      Scale(q + 1, p, s);
    }
  }

  /** A button whose first query fails does nothing. */
  lemma FailedPressIdle(g: Config, s: Shelf, view: seq<Row>, b: Button, o: Outcomes)
    requires ValidConfig(g) && if b == Enter then !o.second.count else !o.first.count
    ensures Pressed(s, g, view, b, o) == s
  {}

  // ---- A reload consumes the mark ----------------------------------------------------------

  /** A reload with a failing query leaves the window as it was, whichever query fails. */
  lemma FailedReloadKeepsWindow(c: Cache, g: Config, view: seq<Row>, page: U16, o: Outcomes)
    requires ValidConfig(g) && Fits(view, g) && view != [] && c.bound && c.valid && !Succeeds(o)
    ensures var r := Reloaded(c, g, view, page, o);
            && r.bound && r.valid
            && r.windowRows == c.windowRows && r.windowStart == c.windowStart && r.windowEnd == c.windowEnd
            && (r.totalPages == c.totalPages || r.totalPages == PagesNeeded(|view|, g.pageSize))
  {
    DivideUp(|view|, g.pageSize);
    if o.first.count {
      MetaCoherent(c, g, view, o.first);
      var h := HotRefreshed(MetaRefreshed(c, g, view, o.first).cache, g, view, o.second).cache;
      if o.third.count {
        MetaCoherent(h, g, view, o.third);
      }
    }
  }

  /** And it has consumed the mark. */
  lemma ReloadForgets(cat: FaultCenterModel.Catalog, g: Config, s: System, o: Outcomes)
    requires ValidConfig(g) && Dirty(s)
    ensures var t := Do(cat, g, s, Refresh(o));
            && !Dirty(t) && View(t) == View(s)
            && t.shelf == Shelf(Reloaded(s.shelf.cache, g, View(s), s.shelf.pageNo, o), s.shelf.pageNo)
  {}

  /** From then on, while the page is in the window, no refresh queries the database at all:
      a stale page stays on display, however many refreshes follow. */
  lemma {:induction false} StaleStays(cat: FaultCenterModel.Catalog, g: Config, s: System, steps: seq<Step>)
    requires ValidConfig(g) && !Dirty(s) && HasPageInWindow(s.shelf.cache, s.shelf.pageNo)
    requires forall k :: 0 <= k < |steps| ==> steps[k].Refresh?
    ensures var t := Run(cat, g, s, steps);
            t.shelf == s.shelf && !Dirty(t) && View(t) == View(s)
  {
    if |steps| > 0 {
      StaleStays(cat, g, s, steps[..|steps| - 1]);
    }
  }

  // ---- What is on display along any run ----------------------------------------------------

  /** The window holds the page on display, out of a list that may have grown since. A cache can be
      in this state and agree with no list at all: its totals and hot rows may be of other times. */
  ghost predicate Behind(s: System, g: Config, was: seq<Row>) {
    && ValidConfig(g) && s.shelf.cache.bound && s.shelf.cache.valid
    && WindowFrom(s.shelf.cache, g, was)
    && HasPageInWindow(s.shelf.cache, s.shelf.pageNo) && s.shelf.pageNo <= s.shelf.cache.totalPages
    && |was| <= |View(s)|
  }

  lemma BehindShows(s: System, g: Config, was: seq<Row>)
    requires Behind(s, g, was) && Fits(was, g)
    ensures Displayed(s, g) == ShownPage(was, g, s.shelf.pageNo)
  {
    OldPageShown(s.shelf.cache, g, was, s.shelf.pageNo);
  }

  /** The queries of a button press succeed. */
  predicate PressSucceeds(o: Outcomes) {
    o.first.count && o.second.count && o.third.count && o.third.range
  }

  /** Reports carry a clock time and presses succeed; refreshes may fail in any way. */
  predicate Admissible(step: Step) {
    match step
    case Report(e) => e.ts > 0
    case Refresh(_) => true
    case Press(_, o) => PressSucceeds(o)
  }

  /** The list the window is out of after a step: a good reload loads it from the current list, and
      so does a press whose target page the window does not hold. */
  function LoadedNext(was: seq<Row>, g: Config, s: System, step: Step): seq<Row>
    requires ValidConfig(g)
  {
    match step
    case Report(_) => was
    case Refresh(o) => if Dirty(s) && Succeeds(o) then View(s) else was
    case Press(b, o) =>
      if HasPageInWindow(s.shelf.cache, Pressed(s.shelf, g, View(s), b, o).pageNo) then was else View(s)
  }

  lemma ReportStaysBehind(cat: FaultCenterModel.Catalog, g: Config, s: System, was: seq<Row>, e: Activations.Change)
    requires Behind(s, g, was) && e.ts > 0
    ensures Behind(Do(cat, g, s, Report(e)), g, was)
  {
    ReportGrows(cat, s.world, e);
  }

  lemma RefreshStaysBehind(cat: FaultCenterModel.Catalog, g: Config, s: System, was: seq<Row>, o: Outcomes)
    requires Behind(s, g, was) && Fits(View(s), g)
    ensures Behind(Do(cat, g, s, Refresh(o)), g, LoadedNext(was, g, s, Refresh(o)))
  {
    var c, p := s.shelf.cache, s.shelf.pageNo;
    if Dirty(s) {
      DivideUp(|was|, g.pageSize);
      MorePages(|was|, |View(s)|, g.pageSize);
      ReloadForgets(cat, g, s, o);
      if Succeeds(o) {
        ReloadRepairs(c, g, View(s), p, o);
      } else {
        FailedReloadKeepsWindow(c, g, View(s), p, o);
      }
    }
  }

  /** What a press does to the totals before it goes to its page. */
  lemma PressedPage(g: Config, s: Shelf, view: seq<Row>, b: Button, o: Outcomes)
    requires ValidConfig(g) && Fits(view, g) && view != [] && s.cache.bound && PressSucceeds(o)
    ensures var m := MetaRefreshed(s.cache, g, view, o.first).cache;
            var p := ClampPage(Target(b, s.pageNo, m.totalPages), m.totalPages);
            && m.totalPages == PagesNeeded(|view|, g.pageSize) > 0 && m.valid && m.bound
            && Pressed(s, g, view, b, o) == Shelf(PageEnsured(m, g, view, p, o.third).cache, p)
  {
    DivideUp(|view|, g.pageSize);
    MetaCoherent(s.cache, g, view, o.first);
    MetaCoherent(s.cache, g, view, o.second);
    MetaCoherent(MetaRefreshed(s.cache, g, view, o.first).cache, g, view, o.second);
  }

  lemma PressStaysBehind(cat: FaultCenterModel.Catalog, g: Config, s: System, was: seq<Row>, b: Button, o: Outcomes)
    requires Behind(s, g, was) && Fits(View(s), g) && PressSucceeds(o)
    ensures Behind(Do(cat, g, s, Press(b, o)), g, LoadedNext(was, g, s, Press(b, o)))
  {
    var view := View(s);
    DivideUp(|was|, g.pageSize);
    PressedPage(g, s.shelf, view, b, o);
    var m := MetaRefreshed(s.shelf.cache, g, view, o.first).cache;
    var p := Pressed(s.shelf, g, view, b, o).pageNo;
    if HasPageInWindow(m, p) {
      assert PageEnsured(m, g, view, p, o.third).cache == m;
    } else {
      LoadedWindow(m, g, view, p, o.third);
    }
  }

  /** Making sure of a page that the window does not hold loads it from the current list. */
  lemma LoadedWindow(m: Cache, g: Config, view: seq<Row>, p: U16, q: Queries)
    requires ValidConfig(g) && Fits(view, g) && m.bound && m.valid && q.count && q.range
    requires m.totalPages == PagesNeeded(|view|, g.pageSize) && 1 <= p <= m.totalPages && !HasPageInWindow(m, p)
    ensures var r := PageEnsured(m, g, view, p, q).cache;
            && r.bound && r.valid && r.totalPages == m.totalPages && HasPageInWindow(r, p)
            && WindowFrom(r, g, view)
  {
    WindowBound(m, g, view, p, q);
    MetaCoherent(m, g, view, q);
    WindowLoads(m, g, view, p, q);
  }

  lemma StepStaysBehind(cat: FaultCenterModel.Catalog, g: Config, s: System, was: seq<Row>, step: Step)
    requires Behind(s, g, was) && Fits(View(s), g) && Admissible(step)
    ensures Behind(Do(cat, g, s, step), g, LoadedNext(was, g, s, step))
  {
    match step
    case Report(e) => ReportStaysBehind(cat, g, s, was, e);
    case Refresh(o) => RefreshStaysBehind(cat, g, s, was, o);
    case Press(b, o) => PressStaysBehind(cat, g, s, was, b, o);
  }

  lemma StepGrows(cat: FaultCenterModel.Catalog, g: Config, s: System, step: Step)
    requires ValidConfig(g) && Admissible(step)
    ensures |View(s)| <= |View(Do(cat, g, s, step))|
  {
    if step.Report? {
      ReportGrows(cat, s.world, step.e);
    }
  }

  predicate AllAdmissible(steps: seq<Step>) {
    forall k :: 0 <= k < |steps| ==> Admissible(steps[k])
  }

  /** The list the window is out of after a run. */
  function Loaded(cat: FaultCenterModel.Catalog, g: Config, s: System, was: seq<Row>, steps: seq<Step>): seq<Row>
    requires ValidConfig(g)
  {
    if |steps| == 0 then was
    else
      var n := |steps| - 1;
      LoadedNext(Loaded(cat, g, s, was, steps[..n]), g, Run(cat, g, s, steps[..n]), steps[n])
  }

  lemma {:induction false} StaysBehind(cat: FaultCenterModel.Catalog, g: Config, s: System, was: seq<Row>,
                                       steps: seq<Step>)
    requires Behind(s, g, was) && AllAdmissible(steps) && Fits(View(Run(cat, g, s, steps)), g)
    ensures Behind(Run(cat, g, s, steps), g, Loaded(cat, g, s, was, steps))
    ensures |View(s)| <= |View(Run(cat, g, s, steps))|
  {
    if |steps| > 0 {
      var n := |steps| - 1;
      var u := Run(cat, g, s, steps[..n]);
      StepGrows(cat, g, u, steps[n]);
      StaysBehind(cat, g, s, was, steps[..n]);
      StepStaysBehind(cat, g, u, Loaded(cat, g, s, was, steps[..n]), steps[n]);
    }
  }

  /** After any mix of reports, presses and refreshes that succeed or fail in any way, the page on
      display is that page of the list at the last load; so the display is right exactly when the
      page has not changed since. */
  lemma {:induction false} DisplayIsOfLastLoad(cat: FaultCenterModel.Catalog, g: Config, s: System, was: seq<Row>,
                                               steps: seq<Step>)
    requires Behind(s, g, was) && AllAdmissible(steps) && Fits(View(Run(cat, g, s, steps)), g)
    ensures var t, loaded := Run(cat, g, s, steps), Loaded(cat, g, s, was, steps);
            && |loaded| <= |View(t)|
            && Fits(loaded, g)
            && Displayed(t, g) == ShownPage(loaded, g, t.shelf.pageNo)
            && (Displayed(t, g) == ShownPage(View(t), g, t.shelf.pageNo) <==>
                ShownPage(loaded, g, t.shelf.pageNo) == ShownPage(View(t), g, t.shelf.pageNo))
  {
    StaysBehind(cat, g, s, was, steps);
    BehindShows(Run(cat, g, s, steps), g, Loaded(cat, g, s, was, steps));
  }

  // ---- The mark is consumed too early: failed reloads --------------------------------------

  /** The step loads nothing: a report, or a refresh that is not a good reload. */
  predicate LoadsNothing(s: System, step: Step) {
    match step
    case Report(e) => e.ts > 0
    case Refresh(o) => Dirty(s) ==> !Succeeds(o)
    case Press(_, _) => false
  }

  ghost predicate NeverLoads(cat: FaultCenterModel.Catalog, g: Config, s: System, steps: seq<Step>)
    requires ValidConfig(g)
  {
    forall k :: 0 <= k < |steps| ==> LoadsNothing(Run(cat, g, s, steps[..k]), steps[k])
  }

  lemma NeverLoadsBefore(cat: FaultCenterModel.Catalog, g: Config, s: System, steps: seq<Step>)
    requires ValidConfig(g) && |steps| > 0 && NeverLoads(cat, g, s, steps)
    ensures NeverLoads(cat, g, s, steps[..|steps| - 1])
  {
    var pre := steps[..|steps| - 1];
    forall k | 0 <= k < |pre|
      ensures LoadsNothing(Run(cat, g, s, pre[..k]), pre[k])
    {
      assert pre[..k] == steps[..k];
    }
  }

  lemma LoadsNothingStep(cat: FaultCenterModel.Catalog, g: Config, s: System, was: seq<Row>, step: Step)
    requires ValidConfig(g) && LoadsNothing(s, step)
    ensures LoadedNext(was, g, s, step) == was && Admissible(step)
    ensures Do(cat, g, s, step).shelf.pageNo == s.shelf.pageNo
  {}

  lemma {:induction false} NothingLoaded(cat: FaultCenterModel.Catalog, g: Config, s: System, was: seq<Row>,
                                         steps: seq<Step>)
    requires ValidConfig(g) && NeverLoads(cat, g, s, steps)
    ensures Loaded(cat, g, s, was, steps) == was && AllAdmissible(steps)
    ensures Run(cat, g, s, steps).shelf.pageNo == s.shelf.pageNo
  {
    if |steps| > 0 {
      var n := |steps| - 1;
      NeverLoadsBefore(cat, g, s, steps);
      NothingLoaded(cat, g, s, was, steps[..n]);
      LoadsNothingStep(cat, g, Run(cat, g, s, steps[..n]), was, steps[n]);
    }
  }

  /** However many reloads fail, by whichever query, and whatever reports and refreshes come in
      between, the page stays on display as it was; so the display is right exactly when the page is
      the same in the old list and in the current one. */
  lemma {:induction false} FailedReloadsExact(cat: FaultCenterModel.Catalog, g: Config, s: System, was: seq<Row>,
                                              steps: seq<Step>)
    requires Behind(s, g, was) && NeverLoads(cat, g, s, steps) && Fits(View(Run(cat, g, s, steps)), g)
    ensures var t, p := Run(cat, g, s, steps), s.shelf.pageNo;
            && t.shelf.pageNo == p && |was| <= |View(t)| && Fits(was, g)
            && Displayed(t, g) == ShownPage(was, g, p)
            && (Displayed(t, g) == ShownPage(View(t), g, p) <==>
                ShownPage(was, g, p) == ShownPage(View(t), g, p))
  {
    NothingLoaded(cat, g, s, was, steps);
    DisplayIsOfLastLoad(cat, g, s, was, steps);
  }

  /** One failed reload followed by any refreshes is such a run. */
  lemma {:induction false} FailedReloadExact(cat: FaultCenterModel.Catalog, g: Config, s: System, was: seq<Row>,
                                             o: Outcomes, steps: seq<Step>)
    requires Behind(s, g, was) && Fits(View(s), g) && Dirty(s) && !Succeeds(o)
    requires forall k :: 0 <= k < |steps| ==> steps[k].Refresh?
    ensures var t, p := Run(cat, g, Do(cat, g, s, Refresh(o)), steps), s.shelf.pageNo;
            && View(t) == View(s) && t.shelf.pageNo == p && Fits(was, g)
            && Displayed(t, g) == ShownPage(was, g, p)
            && (Displayed(t, g) == ShownPage(View(s), g, p) <==>
                ShownPage(was, g, p) == ShownPage(View(s), g, p))
  {
    var u := Do(cat, g, s, Refresh(o));
    RefreshStaysBehind(cat, g, s, was, o);
    ReloadForgets(cat, g, s, o);
    StaleStays(cat, g, u, steps);
    BehindShows(u, g, was);
  }

  /** Where the window does not hold the page, the next good refresh loads it and puts the display
      right, failed reload or not. */
  lemma OutsideWindowRecovers(cat: FaultCenterModel.Catalog, g: Config, s: System, o: Outcomes)
    requires ValidConfig(g) && Fits(View(s), g) && s.shelf.cache.bound
    requires !Dirty(s) && !HasPageInWindow(s.shelf.cache, s.shelf.pageNo) && Succeeds(o)
    ensures Displayed(Do(cat, g, s, Refresh(o)), g) == ShownPage(View(s), g, s.shelf.pageNo)
  {
    LoadedPageShown(MetaRefreshed(s.shelf.cache, g, View(s), o.first).cache, g, View(s), s.shelf.pageNo, o.third);
  }

  /** Steps taken one after the other, whatever a step does. */
  function Through<S, E>(go: (S, E) -> S, s: S, steps: seq<E>): S {
    if |steps| == 0 then s else go(Through(go, s, steps[..|steps| - 1]), steps[|steps| - 1])
  }

  lemma {:induction false} ThroughAppend<S, E>(go: (S, E) -> S, s: S, a: seq<E>, b: seq<E>)
    ensures Through(go, s, a + b) == Through(go, Through(go, s, a), b)
  {
    if |b| == 0 {
      assert a + b == a;
    } else {
      var n := |b| - 1;
      ThroughAppend(go, s, a, b[..n]);
      assert (a + b)[..|a + b| - 1] == a + b[..n];
    }
  }

  function Doing(cat: FaultCenterModel.Catalog, g: Config): (System, Step) -> System
    requires ValidConfig(g)
  {
    (s: System, step: Step) => Do(cat, g, s, step)
  }

  lemma {:induction false} RunIsThrough(cat: FaultCenterModel.Catalog, g: Config, s: System, steps: seq<Step>)
    requires ValidConfig(g)
    ensures Run(cat, g, s, steps) == Through(Doing(cat, g), s, steps)
  {
    if |steps| > 0 {
      RunIsThrough(cat, g, s, steps[..|steps| - 1]);
    }
  }

  lemma {:induction false} RunAppend(cat: FaultCenterModel.Catalog, g: Config, s: System, a: seq<Step>, b: seq<Step>)
    requires ValidConfig(g)
    ensures Run(cat, g, s, a + b) == Run(cat, g, Run(cat, g, s, a), b)
  {
    ThroughAppend(Doing(cat, g), s, a, b);
    RunIsThrough(cat, g, s, a + b);
    RunIsThrough(cat, g, s, a);
    RunIsThrough(cat, g, Run(cat, g, s, a), b);
  }

  lemma ReportGrows(cat: FaultCenterModel.Catalog, w: FaultCenterModel.World, e: Activations.Change)
    requires e.ts > 0
    ensures |ClearedNewestFirst(w.db.rows)| <= |ClearedNewestFirst(FaultCenterModel.SetActive(cat, w, e).db.rows)|
  {
    ReportKeepsCleared(cat, w, e);
    ClearedGrows(w.db.rows, FaultCenterModel.SetActive(cat, w, e).db.rows);
  }

  lemma ReportKeepsCleared(cat: FaultCenterModel.Catalog, w: FaultCenterModel.World, e: Activations.Change)
    requires e.ts > 0
    ensures var rows, now := w.db.rows, FaultCenterModel.SetActive(cat, w, e).db.rows;
            |rows| <= |now| && forall i :: 0 <= i < |rows| && rows[i].clearMs != 0 ==> now[i].clearMs != 0
  {
    StaysCleared(w.db.rows, e.code, e.ts);
  }

  /** A coherent cache whose window holds the page is behind by nothing. */
  lemma CoherentIsBehind(s: System, g: Config)
    requires Coherent(s.shelf.cache, g, View(s)) && HasPageInWindow(s.shelf.cache, s.shelf.pageNo)
    ensures Behind(s, g, View(s))
  {}

  /** The same from the start: a run that goes well up to a point at which nothing is marked, and
      then goes on with any reports, any failing reloads and any other refreshes, shows the page as
      it was at that point, and is right exactly when it has not changed. */
  lemma {:induction false} FailedReloadAlongRun(cat: FaultCenterModel.Catalog, g: Config, s: System, good: seq<Step>,
                                                more: seq<Step>)
    requires ValidConfig(g) && Initial(s) && SureRun(cat, g, s, good)
    requires var u := Run(cat, g, s, good);
             && !Dirty(u) && HasPageInWindow(u.shelf.cache, u.shelf.pageNo)
             && NeverLoads(cat, g, u, more)
    requires Fits(View(Run(cat, g, s, good + more)), g)
    ensures var u, t := Run(cat, g, s, good), Run(cat, g, s, good + more);
            var p := u.shelf.pageNo;
            && t.shelf.pageNo == p && Fits(View(u), g)
            && Displayed(t, g) == ShownPage(View(u), g, p)
            && (Displayed(t, g) == ShownPage(View(t), g, p) <==>
                ShownPage(View(u), g, p) == ShownPage(View(t), g, p))
  {
    var u := Run(cat, g, s, good);
    AlwaysInStep(cat, g, s, good);
    RunAppend(cat, g, s, good, more);
    CoherentIsBehind(u, g);
    FailedReloadsExact(cat, g, u, View(u), more);
  }

  lemma {:induction false} OneMore(cat: FaultCenterModel.Catalog, g: Config, s: System, steps: seq<Step>, step: Step)
    requires ValidConfig(g)
    ensures Run(cat, g, s, steps + [step]) == Do(cat, g, Run(cat, g, s, steps), step)
  {
    assert (steps + [step])[..|steps|] == steps;
  }

  // ---- A run that loses a row ------------------------------------------------------------

  /** A fault that comes and goes, every statement succeeding. */
  function OnOff(code: U16, on: nat, off: nat): seq<Step> {
    [Report(Activations.Change(code, true, on, true, true)), Report(Activations.Change(code, false, off, true, true))]
  }

  /** It adds one cleared row at the front of the list. */
  lemma {:induction false} OnOffAdds(cat: FaultCenterModel.Catalog, g: Config, s: System, code: U16, on: nat, off: nat)
    requires ValidConfig(g) && s.world.bound && off > 0
    requires code !in s.world.center.active && code in cat.recorded
    requires forall r :: r in s.world.db.rows ==> r.id <= s.world.db.lastId
    ensures var t := Run(cat, g, s, OnOff(code, on, off));
            var row := Row(s.world.db.lastId + 1, code, on, off, s.world.center.nextSeq, 0);
            && t.shelf == s.shelf && Dirty(t) && t.world.bound
            && t.world.center.active == s.world.center.active
            && t.world.center.nextSeq == (s.world.center.nextSeq + 1) % 0x1_0000
            && t.world.db == Db(s.world.db.rows + [row], s.world.db.lastId + 1)
            && View(t) == [row] + View(s)
  {
    var raise := Activations.Change(code, true, on, true, true);
    var lower := Activations.Change(code, false, off, true, true);
    var w := FaultCenterModel.SetActive(cat, s.world, raise);
    RaiseAdds(cat, s.world, raise);
    LowerClears(cat, w, lower, s.world.db.rows);
    OneMore(cat, g, s, [], Report(raise));
    OneMore(cat, g, s, [Report(raise)], Report(lower));
    assert [] + [Report(raise)] == [Report(raise)];
    assert [Report(raise)] + [Report(lower)] == OnOff(code, on, off);
    ClearedSnoc(s.world.db.rows, Row(w.db.lastId, code, on, off, s.world.center.nextSeq, 0));
    assert w.center.active - {code} == s.world.center.active;
  }

  lemma RaiseAdds(cat: FaultCenterModel.Catalog, w: FaultCenterModel.World, e: Activations.Change)
    requires w.bound && e.on && e.insertOk && e.code !in w.center.active && e.code in cat.recorded
    ensures var v := FaultCenterModel.SetActive(cat, w, e);
            && v.bound && v.center.active == w.center.active + {e.code}
            && v.center.nextSeq == (w.center.nextSeq + 1) % 0x1_0000
            && v.center.rowIds == w.center.rowIds[e.code := w.db.lastId + 1]
            && v.db == Insert(w.db, e.code, e.ts, w.center.nextSeq)
  {}

  lemma LowerClears(cat: FaultCenterModel.Catalog, w: FaultCenterModel.World, e: Activations.Change, rows: seq<Row>)
    requires w.bound && !e.on && e.updateOk && e.code in w.center.active && e.code in cat.recorded
    requires e.code in w.center.rowIds && w.center.rowIds[e.code] == w.db.lastId > 0
    requires |w.db.rows| == |rows| + 1 && w.db.rows[..|rows|] == rows && w.db.rows[|rows|].id == w.db.lastId
    requires forall r :: r in rows ==> r.id < w.db.lastId
    ensures var v := FaultCenterModel.SetActive(cat, w, e);
            && v.bound && v.center.dirty && v.center.active == w.center.active - {e.code}
            && v.center.nextSeq == w.center.nextSeq
            && v.db == Db(rows + [w.db.rows[|rows|].(clearMs := e.ts, state := 0)], w.db.lastId)
  {
    var now := ClearById(w.db.rows, w.db.lastId, e.ts);
    assert forall i :: 0 <= i < |rows| ==> w.db.rows[i] == rows[i] && rows[i] in rows;
    assert now == rows + [w.db.rows[|rows|].(clearMs := e.ts, state := 0)];
  }

  lemma {:induction false} ClearedSnoc(rows: seq<Row>, r: Row)
    requires r.clearMs != 0
    ensures ClearedNewestFirst(rows + [r]) == [r] + ClearedNewestFirst(rows)
  {
    assert (rows + [r])[..|rows|] == rows;
  }

  /** A system that has just started, with nothing in the table. */
  predicate Empty(s: System) {
    && Initial(s) && s.shelf.pageNo == 1
    && s.world.bound && s.world.db == EMPTY_DB && s.world.center.active == {}
  }

  /** The steps up to the first good refresh. */
  function FirstFault(code: U16, on: nat, off: nat): seq<Step> {
    OnOff(code, on, off) + [Refresh(ALL_DONE)]
  }

  lemma OneFits(g: Config, view: seq<Row>)
    requires ValidConfig(g) && |view| <= 2
    ensures Fits(view, g)
  {}

  /** A first fault that comes and goes is shown by the refresh that follows. */
  lemma FirstShown(cat: FaultCenterModel.Catalog, g: Config, s: System, code: U16, on: nat,
                   off: nat) returns (u: System)
    requires ValidConfig(g) && Empty(s) && code in cat.recorded && off > 0
    ensures u == Run(cat, g, s, FirstFault(code, on, off)) && !Dirty(u) && u.world.bound
    ensures var row := Row(1, code, on, off, s.world.center.nextSeq, 0);
            && u.world.center.active == {} && u.world.db == Db([row], 1) && View(u) == [row]
            && Coherent(u.shelf.cache, g, [row]) && u.shelf.pageNo == 1 && HasPageInWindow(u.shelf.cache, 1)
  {
    var t := Run(cat, g, s, OnOff(code, on, off));
    OnOffAdds(cat, g, s, code, on, off);
    OneMore(cat, g, s, OnOff(code, on, off), Refresh(ALL_DONE));
    u := Do(cat, g, t, Refresh(ALL_DONE));
    OneRowLoaded(cat, g, t);
  }

  lemma OneRowLoaded(cat: FaultCenterModel.Catalog, g: Config, t: System)
    requires ValidConfig(g) && Dirty(t) && t.shelf.cache.bound && t.shelf.pageNo == 1 && |View(t)| == 1
    ensures var u := Do(cat, g, t, Refresh(ALL_DONE));
            && !Dirty(u) && u.world == t.world.(center := t.world.center.(dirty := false))
            && Coherent(u.shelf.cache, g, View(t)) && u.shelf.pageNo == 1 && HasPageInWindow(u.shelf.cache, 1)
  {
    OneFits(g, View(t));
    ReloadForgets(cat, g, t, ALL_DONE);
    ReloadRepairs(t.shelf.cache, g, View(t), 1, ALL_DONE);
  }

  /** A fault comes and goes and is shown; a second comes and goes, and some query of the reload
      fails; then no number of refreshes ever shows the second row, although it heads the list. */
  lemma {:induction false} LostUpdate(cat: FaultCenterModel.Catalog, g: Config, s: System, a: U16, b: U16, at: seq<nat>,
                   o: Outcomes, steps: seq<Step>)
    requires ValidConfig(g) && Empty(s) && a in cat.recorded && b in cat.recorded
    requires |at| == 4 && at[1] > 0 && at[3] > 0
    requires !Succeeds(o) && forall k :: 0 <= k < |steps| ==> steps[k].Refresh?
    ensures var t := Run(cat, g, s, FirstFault(a, at[0], at[1]) + OnOff(b, at[2], at[3]) + [Refresh(o)] + steps);
            && |View(t)| == 2 && View(t)[0].code == b && View(t)[0].firstOnMs == at[2]
            && Displayed(t, g) == [View(t)[1]]
  {
    var good, more := FirstFault(a, at[0], at[1]), OnOff(b, at[2], at[3]);
    var u := FirstShown(cat, g, s, a, at[0], at[1]);
    SplitRun(cat, g, s, good, more, Refresh(o), steps);
    SecondLost(cat, g, u, b, at[2], at[3], o, steps);
  }

  lemma {:induction false} SplitRun(cat: FaultCenterModel.Catalog, g: Config, s: System, a: seq<Step>, b: seq<Step>,
                                    step: Step, c: seq<Step>)
    requires ValidConfig(g)
    ensures Run(cat, g, s, a + b + [step] + c) == Run(cat, g, Do(cat, g, Run(cat, g, Run(cat, g, s, a), b), step), c)
  {
    RunAppend(cat, g, s, a, b);
    OneMore(cat, g, s, a + b, step);
    RunAppend(cat, g, s, a + b + [step], c);
  }

  /** The second fault, where the first is the only row and is on display. */
  lemma {:induction false} SecondLost(cat: FaultCenterModel.Catalog, g: Config, u: System, code: U16, on: nat, off: nat,
                   o: Outcomes, steps: seq<Step>)
    requires ValidConfig(g) && code in cat.recorded && off > 0 && !Succeeds(o)
    requires !Dirty(u) && u.world.bound && u.world.center.active == {} && |u.world.db.rows| == 1
    requires u.world.db.rows[0].id <= u.world.db.lastId && |View(u)| == 1
    requires Coherent(u.shelf.cache, g, View(u)) && u.shelf.pageNo == 1 && HasPageInWindow(u.shelf.cache, 1)
    requires forall k :: 0 <= k < |steps| ==> steps[k].Refresh?
    ensures var t := Run(cat, g, Do(cat, g, Run(cat, g, u, OnOff(code, on, off)), Refresh(o)), steps);
            && |View(t)| == 2 && View(t)[0].code == code && View(t)[0].firstOnMs == on
            && View(t)[1] == View(u)[0] && Displayed(t, g) == View(u)
  {
    var v, r := Run(cat, g, u, OnOff(code, on, off)), View(u)[0];
    assert View(u) == [r];
    OnOffAdds(cat, g, u, code, on, off);
    assert forall x :: x in u.world.db.rows ==> x == u.world.db.rows[0];
    CoherentIsBehind(u, g);
    OldRowStays(cat, g, v, r, o, steps);
  }

  lemma {:induction false} OldRowStays(cat: FaultCenterModel.Catalog, g: Config, v: System, r: Row, o: Outcomes,
                                       steps: seq<Step>)
    requires Behind(v, g, [r]) && |View(v)| == 2 && v.shelf.pageNo == 1 && Dirty(v) && !Succeeds(o)
    requires forall k :: 0 <= k < |steps| ==> steps[k].Refresh?
    ensures var t := Run(cat, g, Do(cat, g, v, Refresh(o)), steps);
            View(t) == View(v) && Displayed(t, g) == [r]
  {
    OneFits(g, View(v));
    OnlyRowShown(g, r);
    FailedReloadExact(cat, g, v, [r], o, steps);
  }

  lemma OnlyRowShown(g: Config, r: Row)
    requires ValidConfig(g)
    ensures Fits([r], g) && ShownPage([r], g, 1) == [r]
  {
    OneFits(g, [r]);
    DivideUp(1, g.pageSize);
    assert Rows(1, g.pageSize) == g.pageSize && Rows(0, g.pageSize) == 0;
    assert Slice([r], g.pageSize, 1, 1) == [r];
  }

  // ---- The objects -----------------------------------------------------------------------

  /** The context's fault centre and history cache with the page number. The database is reached
      through its newest-first list. */
  class HistoryPages {
    const center: FaultCenterModel.FaultCenter
    const cache: FaultHistoryCache
    var pageNo: U16

    constructor (c: FaultCenterModel.FaultCenter, h: FaultHistoryCache)
      ensures center == c && cache == h && pageNo == 1
    {
      center, cache, pageNo := c, h, 1;
    }

    function State(): Shelf
      reads this, cache
    {
      Shelf(cache.State(), pageNo)
    }

    /** Stage 4 of refreshFaultPagesOnly. */
    method RefreshHistory(view: seq<Row>, o: Outcomes)
      requires ValidConfig(cache.Settings())
      modifies center`dirty, cache
      ensures !center.dirty && cache.Settings() == old(cache.Settings())
      ensures cache.State() == if old(center.dirty)
                               then Reloaded(old(cache.State()), old(cache.Settings()), view, pageNo, o)
                               else Topped(old(cache.State()), old(cache.Settings()), view, pageNo, o)
    {
      var changed, version := center.ConsumeHistoryDirty();
      if changed {
        var ok := cache.RefreshMeta(view, o.first);
        if ok {
          ok := cache.RefreshHotCache(view, o.second);
        }
        if ok {
          ok := cache.RefreshWindow(view, pageNo, o.third);
        }
      } else if !HasPageInWindow(cache.State(), pageNo) {
        var ok := cache.RefreshMeta(view, o.first);
        if ok {
          ok := cache.RefreshWindow(view, pageNo, o.third);
        }
      }
    }

    /** refreshHistoryCacheForPage. */
    method Show(view: seq<Row>, page: U16, o: Outcomes) returns (ok: bool)
      requires ValidConfig(cache.Settings())
      modifies this, cache
      ensures State() == ToPage(old(State()), old(cache.Settings()), view, page, o)
      ensures cache.Settings() == old(cache.Settings())
    {
      ok := cache.RefreshMeta(view, o.second);
      if !ok {
        return;
      }
      if cache.totalPages == 0 {
        pageNo := 1;
        ok := cache.RefreshWindow(view, 1, o.third);
        return;
      }
      pageNo := if page < 1 then 1 else if page > cache.totalPages then cache.totalPages else page;
      ok := cache.EnsurePageLoaded(view, pageNo, o.third);
    }

    method PressButton(view: seq<Row>, b: Button, o: Outcomes)
      requires ValidConfig(cache.Settings())
      modifies this, cache
      ensures State() == Pressed(old(State()), old(cache.Settings()), view, b, o)
      ensures cache.Settings() == old(cache.Settings())
    {
      if b == Enter {
        var _ := Show(view, 1, o);
        return;
      }
      var ok := cache.RefreshMeta(view, o.first);
      if !ok {
        return;
      }
      if cache.totalPages == 0 && b != First {
        pageNo := 1;
        var _ := cache.RefreshWindow(view, 1, o.third);
      } else {
        var target := if b == Next then (if pageNo < cache.totalPages then pageNo + 1 else cache.totalPages)
                      else if b == Prev then (if pageNo > 1 then pageNo - 1 else 1)
                      else 1;
        var _ := Show(view, target, o);
      }
    }
  }
}
