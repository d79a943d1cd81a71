/**
 * FaultHistoryCache (services/control/fault/fault_history_cache.cpp): a hot prefix and a window
 * of whole pages over the newest-first history list. Once the page count is known, asking for a
 * page through the cache gives the plain slice of the list.
 */
module HistoryCache {
  import opened FaultDb
  import opened Words

  datatype Config = Config(pageSize: U16, hotRowsLimit: U16, windowPages: U16)

  /** The setters refuse zero. */
  predicate ValidConfig(g: Config) {
    g.pageSize > 0 && g.hotRowsLimit > 0 && g.windowPages > 0
  }

  datatype Cache = Cache(
    bound: bool, valid: bool,
    totalRows: nat, totalPages: U16,
    hotRows: seq<Row>,
    windowRows: seq<Row>, windowStart: U16, windowEnd: U16)

  /** Which of the queries a call makes succeed. */
  datatype Queries = Queries(count: bool, latest: bool, range: bool)

  const ALL_OK := Queries(true, true, true)

  // ---- Page arithmetic -------------------------------------------------------------------

  /** calcTotalPages_, with its 32-bit sum and 16-bit result. */
  function CalcTotalPages(totalRows: nat, pageSize: U16): U16 {
    if pageSize == 0 || totalRows == 0 then 0
    else ((totalRows + pageSize - 1) % TWO32 / pageSize) % 0x1_0000
  }

  /** Rounded-up division: how many pages n rows need. */
  function PagesNeeded(n: nat, pageSize: U16): nat
    requires pageSize > 0
  {
    (n + pageSize - 1) / pageSize
  }

  /** The page count is right exactly when the rows fit 65535 pages; the 32-bit sum wraps only
      for counts that do not. */
  lemma TotalPagesExact(n: nat, pageSize: U16)
    requires pageSize > 0 && n < TWO32
    ensures CalcTotalPages(n, pageSize) == PagesNeeded(n, pageSize) <==> n <= 65535 * pageSize
  {
    DivideUp(n, pageSize);
    if n + pageSize <= TWO32 {
      PlainTotal(n, pageSize);
    } else {
      Scale(pageSize, 65535, 65536);
      assert 65535 * pageSize < n;
      WrappedTotal(n, pageSize);
    }
  }

  /** So within that bound the pages cover the rows and the last is not empty. */
  lemma TotalPagesCover(n: nat, pageSize: U16)
    requires pageSize > 0 && n < 0x1_0000_0000 && n <= 65535 * pageSize
    ensures n <= CalcTotalPages(n, pageSize) * pageSize < n + pageSize
  {
    TotalPagesExact(n, pageSize);
    DivideUp(n, pageSize);
  }

  lemma PlainTotal(n: nat, pageSize: U16)
    requires pageSize > 0 && n + pageSize <= TWO32
    ensures CalcTotalPages(n, pageSize) == PagesNeeded(n, pageSize) <==> n <= 65535 * pageSize
  {
    var p := PagesNeeded(n, pageSize);
    DivideUp(n, pageSize);
    if n > 0 {
      assert p % 0x1_0000 == p <==> p < 0x1_0000;
      if p <= 65535 {
        Scale(p, 65535, pageSize);
      } else {
        Scale(65536, p, pageSize);
      }
    }
  }

  /** A sum that wraps leaves less than a page, and the count comes out as zero. */
  lemma WrappedTotal(n: nat, pageSize: U16)
    requires pageSize > 0 && TWO32 < n + pageSize && n < TWO32
    ensures CalcTotalPages(n, pageSize) == 0 < PagesNeeded(n, pageSize)
  {
    var sum := n + pageSize - 1;
    assert sum % TWO32 == sum - TWO32;
    LessThanOne(sum - TWO32, pageSize);
    DivideUp(n, pageSize);
  }

  lemma LessThanOne(a: nat, d: nat)
    requires a < d
    ensures a / d == 0
  {}

  lemma DivideUp(n: nat, d: nat)
    requires d > 0
    ensures var p := (n + d - 1) / d;
            n <= p * d < n + d && (n > 0 ==> p > 0) && (n == 0 ==> p == 0)
  {
    var p := (n + d - 1) / d;
    assert p * d <= n + d - 1 < p * d + d;
  }

  lemma Scale(a: nat, b: nat, d: nat)
    requires a <= b
    ensures a * d <= b * d
  {}

  /** Rows in whole pages. */
  function Rows(pages: nat, pageSize: nat): nat {
    pages * pageSize
  }

  function ClampPage(page: U16, totalPages: U16): U16 {
    if totalPages == 0 || page < 1 then 1
    else if page > totalPages then totalPages
    else page
  }

  function Min(a: nat, b: nat): nat {
    if a < b then a else b
  }

  /** Rows of pages start..end of the list, the last page possibly short. */
  function Slice(view: seq<Row>, pageSize: nat, start: nat, end: nat): seq<Row>
    requires 1 <= start <= end
  {
    Scale(start - 1, end, pageSize);
    view[Min(Rows(start - 1, pageSize), |view|)..Min(Rows(end, pageSize), |view|)]
  }

  // ---- The window ------------------------------------------------------------------------

  datatype Window = Window(start: U16, end: U16)

  /** The pages refreshWindow loads around a clamped page. */
  function WindowAround(page: U16, totalPages: U16, windowPages: U16): (w: Window)
    requires 1 <= page <= totalPages && windowPages > 0
    ensures 1 <= w.start <= page <= w.end <= totalPages
    ensures w.end - w.start + 1 == Min(totalPages, windowPages)
  {
    if windowPages <= 1 then Window(page, page)
    else
      var half := windowPages / 2;
      if page <= 1 + half then
        Window(1, Min(totalPages, windowPages))
      else if page + half >= totalPages then
        Window(if totalPages > windowPages - 1 then totalPages - windowPages + 1 else 1, totalPages)
      else Window(page - half, page - half + windowPages - 1)
  }

  /** The page stands in the middle of the window unless the window meets an end of the list, and it
      meets an end only where the middle would reach beyond it. */
  lemma WindowCentred(page: U16, totalPages: U16, windowPages: U16)
    requires 1 <= page <= totalPages && windowPages > 0
    ensures var w := WindowAround(page, totalPages, windowPages);
            && (w.start > 1 && w.end < totalPages ==> page - w.start == windowPages / 2)
            && (w.start == 1 && w.end < totalPages ==> page <= 1 + windowPages / 2)
            && (w.start > 1 && w.end == totalPages ==> page + windowPages / 2 >= totalPages)
  {}

  // ---- Operations ------------------------------------------------------------------------

  datatype Done = Done(cache: Cache, ok: bool)

  function MetaRefreshed(c: Cache, g: Config, view: seq<Row>, q: Queries): Done {
    if !c.bound || !q.count then Done(c, false)
    else
      var total := CountRows(view);
      Done(c.(totalRows := total, totalPages := CalcTotalPages(total, g.pageSize), valid := true), true)
  }

  function HotRefreshed(c: Cache, g: Config, view: seq<Row>, q: Queries): Done {
    if !c.bound || !q.latest then Done(c, false)
    else Done(c.(hotRows := LoadLatest(view, g.hotRowsLimit), valid := true), true)
  }

  function NoWindow(c: Cache): Cache {
    c.(windowRows := [], windowStart := 0, windowEnd := 0)
  }

  function WindowRefreshed(c: Cache, g: Config, view: seq<Row>, center: U16, q: Queries): Done
    requires ValidConfig(g)
  {
    if !c.bound then Done(c, false)
    else
      var m := MetaRefreshed(c, g, view, q);
      if !m.ok then Done(m.cache, false)
      else if m.cache.totalPages == 0 then Done(NoWindow(m.cache).(valid := true), true)
      else if !q.range then Done(m.cache, false)
      else
        var w := WindowAround(ClampPage(center, m.cache.totalPages), m.cache.totalPages, g.windowPages);
        var rows := LoadRange(view, Rows(w.start - 1, g.pageSize), Rows(w.end - w.start + 1, g.pageSize));
        Done(m.cache.(windowRows := rows, windowStart := w.start, windowEnd := w.end, valid := true), true)
  }

  predicate HasPageInWindow(c: Cache, page: U16) {
    c.windowStart != 0 && c.windowEnd != 0 && c.windowStart <= page <= c.windowEnd
  }

  function PageEnsured(c: Cache, g: Config, view: seq<Row>, page: U16, q: Queries): Done
    requires ValidConfig(g)
  {
    if !c.bound then Done(c, false)
    else
      var m := if c.valid then Done(c, true) else MetaRefreshed(c, g, view, q);
      if !m.ok then m
      else if m.cache.totalPages == 0 then Done(NoWindow(m.cache), true)
      else
        var p := ClampPage(page, m.cache.totalPages);
        if HasPageInWindow(m.cache, p) then Done(m.cache, true)
        else WindowRefreshed(m.cache, g, view, p, q)
  }

  /** Rows [begin, begin + n) of a vector, cut short at its end. */
  function Cut(rows: seq<Row>, begin: nat, n: nat): seq<Row> {
    if begin >= |rows| then [] else rows[begin..if |rows| < begin + n then |rows| else begin + n]
  }

  function PageRows(c: Cache, g: Config, page: U16): seq<Row> {
    if !c.valid || c.totalPages == 0 then []
    else
      var p := ClampPage(page, c.totalPages);
      if HasPageInWindow(c, p) then Cut(c.windowRows, Rows(p - c.windowStart, g.pageSize), g.pageSize)
      else Cut(c.hotRows, Rows(p - 1, g.pageSize), g.pageSize)
  }

  // ---- Coherence -------------------------------------------------------------------------

  /** The list is small enough for the 16-bit page count and the 32-bit query arguments. */
  predicate Fits(view: seq<Row>, g: Config) {
    |view| <= 65535 * g.pageSize && |view| <= TWO31
  }

  /** What the cache holds is what the list holds: the totals, a window of whole pages spanning
      exactly as many as it should, and a hot prefix. */
  ghost predicate Coherent(c: Cache, g: Config, view: seq<Row>) {
    && c.bound && c.valid && ValidConfig(g)
    && c.totalRows == |view| && c.totalPages == PagesNeeded(|view|, g.pageSize)
    && (HasWindow(c) ==> WindowCoherent(c, g, view))
    && (c.hotRows == [] || c.hotRows == view[..Min(|view|, g.hotRowsLimit)])
  }

  predicate HasWindow(c: Cache) {
    c.windowStart != 0 && c.windowEnd != 0
  }

  ghost predicate WindowCoherent(c: Cache, g: Config, view: seq<Row>) {
    && 1 <= c.windowStart <= c.windowEnd <= c.totalPages
    && c.windowEnd - c.windowStart + 1 == Min(c.totalPages, g.windowPages)
    && c.windowRows == Slice(view, g.pageSize, c.windowStart, c.windowEnd)
  }

  /** The page a reader should see. */
  function ShownPage(view: seq<Row>, g: Config, page: U16): seq<Row>
    requires g.pageSize > 0 && Fits(view, g)
  {
    if view == [] then []
    else
      DivideUp(|view|, g.pageSize);
      PagesFit(|view|, g.pageSize);
      var p := ClampPage(page, PagesNeeded(|view|, g.pageSize));
      Slice(view, g.pageSize, p, p)
  }

  /** Row by row: page p of the list is its rows from (p - 1) * pageSize on, up to a page of them. A
      page number of 0 means 1, and one beyond the list means the last page. */
  lemma ShownPageExact(view: seq<Row>, g: Config, page: U16, p: nat, from: nat)
    requires g.pageSize > 0 && Fits(view, g)
    requires p >= 1 && (p - 1) * g.pageSize == from < |view|
    requires p == page || (page == 0 && p == 1) || (page > p && |view| <= p * g.pageSize)
    ensures var shown := ShownPage(view, g, page);
            && |shown| == (if |view| - from < g.pageSize then |view| - from else g.pageSize)
            && forall i :: 0 <= i < |shown| ==> shown[i] == view[from + i]
  {
    var total := PagesNeeded(|view|, g.pageSize);
    DivideUp(|view|, g.pageSize);
    PagesFit(|view|, g.pageSize);
    Between(p, total, |view|, g.pageSize);
    if |view| <= p * g.pageSize {
      Between(total, p, |view|, g.pageSize);
    }
    assert ClampPage(page, total) == p;
    AddRows(p - 1, 1, g.pageSize);
  }

  /** A page that starts inside the rows is no later than one that reaches their end. */
  lemma Between(p: nat, q: nat, n: nat, s: nat)
    requires p >= 1 && (p - 1) * s < n <= q * s
    ensures p <= q
  {
    if q < p {
      Scale(q, p - 1, s);
    }
  }

  lemma PagesFit(n: nat, pageSize: U16)
    requires pageSize > 0 && n <= 65535 * pageSize
    ensures PagesNeeded(n, pageSize) < 0x1_0000
  {
    DivideUp(n, pageSize);
    var p := PagesNeeded(n, pageSize);
    if p >= 0x1_0000 {
      Scale(65536, p, pageSize);
    }
  }

  lemma MetaCoherent(c: Cache, g: Config, view: seq<Row>, q: Queries)
    requires ValidConfig(g) && Fits(view, g) && c.bound && q.count
    ensures var m := MetaRefreshed(c, g, view, q);
            && m.ok && m.cache.totalRows == |view|
            && m.cache.totalPages == PagesNeeded(|view|, g.pageSize)
  {
    CountPlain(view);
    assert |view| + g.pageSize <= TWO32;
    TotalPagesExact(|view|, g.pageSize);
  }

  lemma CountPlain(view: seq<Row>)
    requires |view| <= TWO31
    ensures CountRows(view) == |view|
  {}

  /** A range of rows that starts inside the list and fits 32 bits comes back as it is: a limit
      that turns negative in 32 bits means none, and is beyond the list anyway. */
  lemma RangePlain(view: seq<Row>, offset: nat, limit: nat)
    requires |view| <= TWO31 && offset < |view| && 0 < limit < TWO32
    ensures LoadRange(view, offset, limit) == view[offset..Min(offset + limit, |view|)]
  {
    var n := AsInt32(limit);
    assert AsInt32(offset) == offset;
    assert n == limit || (n < 0 && limit >= TWO31);
  }

  /** The range query returns exactly the window's pages. */
  lemma RangeIsSlice(g: Config, view: seq<Row>, w: Window)
    requires ValidConfig(g) && Fits(view, g)
    requires 1 <= w.start <= w.end <= PagesNeeded(|view|, g.pageSize)
    ensures LoadRange(view, Rows(w.start - 1, g.pageSize), Rows(w.end - w.start + 1, g.pageSize)) ==
            Slice(view, g.pageSize, w.start, w.end)
  {
    var s, n := g.pageSize, w.end - w.start + 1;
    StartInside(|view|, s, w.start);
    AddRows(w.start - 1, n, s);
    LimitFits(n, s);
    RangePlain(view, Rows(w.start - 1, s), Rows(n, s));
  }

  /** A page that exists starts inside the list. */
  lemma StartInside(n: nat, s: U16, page: nat)
    requires s > 0 && 1 <= page <= PagesNeeded(n, s)
    ensures Rows(page - 1, s) < n
  {
    DivideUp(n, s);
    Scale(page, PagesNeeded(n, s), s);
    assert page * s == (page - 1) * s + s;
  }

  lemma AddRows(a: nat, b: nat, s: nat)
    ensures Rows(a, s) + Rows(b, s) == Rows(a + b, s)
  {}

  lemma LimitFits(n: nat, s: nat)
    requires 0 < n < 0x1_0000 && 0 < s < 0x1_0000
    ensures 0 < Rows(n, s) < TWO32
  {
    Scale(n, 65535, s);
    Scale(1, n, s);
  }

  /** A page cut out of a window is the page cut out of the list. */
  lemma PageOfWindow(view: seq<Row>, s: nat, start: nat, end: nat, p: nat)
    requires 1 <= start <= p <= end
    ensures Cut(Slice(view, s, start, end), Rows(p - start, s), s) == Slice(view, s, p, p)
  {
    AddRows(start - 1, p - start, s);
    AddRows(p - 1, 1, s);
    Scale(start - 1, p - 1, s);
    Scale(p, end, s);
    CutOfRange(view, Rows(start - 1, s), Rows(end, s), Rows(p - 1, s), s);
  }

  lemma CutOfRange(view: seq<Row>, lo: nat, hi: nat, from: nat, n: nat)
    requires lo <= from && from + n <= hi
    ensures Cut(view[Min(lo, |view|)..Min(hi, |view|)], from - lo, n) ==
            view[Min(from, |view|)..Min(from + n, |view|)]
  {
    var a, b := Min(lo, |view|), Min(hi, |view|);
    if from - lo < b - a {
      var end := Min(b - a, from - lo + n);
      assert a == lo && lo + end == Min(from + n, |view|);
      SliceOfSlice(view, a, b, from - lo, end);
    } else {
      assert Min(from, |view|) == Min(from + n, |view|);
    }
  }

  lemma SliceOfSlice(view: seq<Row>, a: nat, b: nat, x: nat, y: nat)
    requires a <= b <= |view| && x <= y <= b - a
    ensures view[a..b][x..y] == view[a + x..a + y]
  {
    var l, r := view[a..b][x..y], view[a + x..a + y];
    assert |l| == |r|;
    forall i | 0 <= i < |l|
      ensures l[i] == r[i]
    {
      assert l[i] == view[a..b][x + i];
    }
  }

  lemma WholePages(a: nat, s: nat, limit: nat)
    requires s > 0 && limit % s == 0 && a * s < limit
    ensures a * s + s <= limit
  {
    var k := limit / s;
    assert limit == k * s;
    if a >= k {
      Scale(k, a, s);
    } else {
      Scale(a + 1, k, s);
      assert (a + 1) * s == a * s + s;
    }
  }

  // ---- What the cache guarantees ---------------------------------------------------------

  lemma RefreshMetaCoherent(c: Cache, g: Config, view: seq<Row>, q: Queries)
    requires ValidConfig(g) && Fits(view, g) && c.bound && q.count
    requires !HasWindow(c) && c.hotRows == []
    ensures Coherent(MetaRefreshed(c, g, view, q).cache, g, view)
  {
    MetaCoherent(c, g, view, q);
  }

  /** A successful window refresh makes the window right, whatever it was before. */
  lemma RefreshWindowCoherent(c: Cache, g: Config, view: seq<Row>, center: U16, q: Queries)
    requires ValidConfig(g) && Fits(view, g) && c.bound && q.count && q.range
    requires c.hotRows == [] || c.hotRows == view[..Min(|view|, g.hotRowsLimit)]
    ensures var r := WindowRefreshed(c, g, view, center, q);
            && r.ok && Coherent(r.cache, g, view)
            && (view != [] ==> HasPageInWindow(r.cache, ClampPage(center, r.cache.totalPages)))
  {
    MetaCoherent(c, g, view, q);
    DivideUp(|view|, g.pageSize);
    if MetaRefreshed(c, g, view, q).cache.totalPages != 0 {
      WindowLoads(c, g, view, center, q);
    }
  }

  /** What a successful refresh puts in the window. */
  lemma WindowIs(c: Cache, g: Config, view: seq<Row>, center: U16, q: Queries)
    requires ValidConfig(g) && Fits(view, g) && c.bound && q.count && q.range
    requires MetaRefreshed(c, g, view, q).cache.totalPages == PagesNeeded(|view|, g.pageSize) > 0
    ensures var m := MetaRefreshed(c, g, view, q).cache;
            var w := WindowAround(ClampPage(center, m.totalPages), m.totalPages, g.windowPages);
            WindowRefreshed(c, g, view, center, q) ==
            Done(m.(windowRows := Slice(view, g.pageSize, w.start, w.end), windowStart := w.start,
                    windowEnd := w.end, valid := true), true)
  {
    var total := MetaRefreshed(c, g, view, q).cache.totalPages;
    RangeIsSlice(g, view, WindowAround(ClampPage(center, total), total, g.windowPages));
  }

  lemma WindowLoads(c: Cache, g: Config, view: seq<Row>, center: U16, q: Queries)
    requires ValidConfig(g) && Fits(view, g) && c.bound && q.count && q.range
    requires MetaRefreshed(c, g, view, q).cache.totalPages == PagesNeeded(|view|, g.pageSize) > 0
    ensures var r := WindowRefreshed(c, g, view, center, q);
            && r.ok && r.cache.valid && r.cache.totalPages == PagesNeeded(|view|, g.pageSize)
            && WindowCoherent(r.cache, g, view)
            && HasPageInWindow(r.cache, ClampPage(center, r.cache.totalPages))
  {
    WindowIs(c, g, view, center, q);
  }

  lemma RefreshHotCoherent(c: Cache, g: Config, view: seq<Row>, q: Queries)
    requires ValidConfig(g) && c.bound && q.latest
    ensures var r := HotRefreshed(c, g, view, q);
            r.ok && r.cache.hotRows == view[..Min(|view|, g.hotRowsLimit)]
  {}

  /** A window that holds the page shows the plain slice, whatever else the cache holds. */
  lemma WindowReads(c: Cache, g: Config, view: seq<Row>, page: U16)
    requires ValidConfig(g) && Fits(view, g) && view != []
    requires c.valid && c.totalPages == PagesNeeded(|view|, g.pageSize) && WindowCoherent(c, g, view)
    requires HasPageInWindow(c, ClampPage(page, c.totalPages))
    ensures PageRows(c, g, page) == ShownPage(view, g, page)
  {
    DivideUp(|view|, g.pageSize);
    PageOfWindow(view, g.pageSize, c.windowStart, c.windowEnd, ClampPage(page, c.totalPages));
  }

  /** A coherent cache whose window holds the page shows the plain slice. */
  lemma WindowShowsPage(c: Cache, g: Config, view: seq<Row>, page: U16)
    requires Fits(view, g) && Coherent(c, g, view)
    requires view == [] || HasPageInWindow(c, ClampPage(page, c.totalPages))
    ensures PageRows(c, g, page) == ShownPage(view, g, page)
  {
    DivideUp(|view|, g.pageSize);
    if view != [] {
      WindowReads(c, g, view, page);
    }
  }

  /** Cache refines slice: from a coherent cache, loading any page and reading it gives that page
      of the list, for every page number and every window size; the cache stays coherent and its
      window holds the page. */
  lemma CacheRefinesSlice(c: Cache, g: Config, view: seq<Row>, page: U16)
    requires Fits(view, g) && Coherent(c, g, view)
    ensures var r := PageEnsured(c, g, view, page, ALL_OK);
            && r.ok && Coherent(r.cache, g, view)
            && PageRows(r.cache, g, page) == ShownPage(view, g, page)
            && (view != [] ==> HasPageInWindow(r.cache, ClampPage(page, r.cache.totalPages)))
  {
    DivideUp(|view|, g.pageSize);
    var r := PageEnsured(c, g, view, page, ALL_OK);
    if c.totalPages != 0 && !HasPageInWindow(c, ClampPage(page, c.totalPages)) {
      RefreshWindowCoherent(c, g, view, ClampPage(page, c.totalPages), ALL_OK);
    }
    WindowShowsPage(r.cache, g, view, page);
  }

  /** The end of the hot prefix falls inside a page: behind its first row, before its last. */
  predicate HotEndsInside(g: Config, view: seq<Row>, p: nat)
    requires p >= 1
  {
    Rows(p - 1, g.pageSize) < g.hotRowsLimit < Min(Rows(p, g.pageSize), |view|)
  }

  /** Reading without loading shows the page or nothing exactly when the window holds the page, or
      no hot prefix is held, or the prefix does not end inside the page. */
  lemma ReadExact(c: Cache, g: Config, view: seq<Row>, page: U16)
    requires Fits(view, g) && Coherent(c, g, view) && view != []
    ensures var p := ClampPage(page, c.totalPages);
            PageRows(c, g, page) == ShownPage(view, g, page) || PageRows(c, g, page) == [] <==>
            HasPageInWindow(c, p) || c.hotRows == [] || !HotEndsInside(g, view, p)
  {
    var p := ClampPage(page, c.totalPages);
    DivideUp(|view|, g.pageSize);
    if HasPageInWindow(c, p) {
      WindowShowsPage(c, g, view, page);
    } else {
      StartInside(|view|, g.pageSize, p);
      AddRows(p - 1, 1, g.pageSize);
      CutOfPrefix(view, g.hotRowsLimit, Rows(p - 1, g.pageSize), g.pageSize);
    }
  }

  /** A page cut out of a prefix is the page or nothing exactly when the prefix does not end
      inside it. */
  lemma CutOfPrefix(view: seq<Row>, limit: nat, from: nat, n: nat)
    requires from < |view| && n > 0
    ensures var cut := Cut(view[..Min(|view|, limit)], from, n);
            cut == view[from..Min(from + n, |view|)] || cut == [] <==>
            !(from < limit < Min(from + n, |view|))
  {
    var prefix := view[..Min(|view|, limit)];
    if from < limit {
      var end := if |prefix| < from + n then |prefix| else from + n;
      assert Cut(prefix, from, n) == prefix[from..end];
      SliceOfSlice(view, 0, |prefix|, from, end);
    }
  }

  /** So a hot limit that is a multiple of the page size never shows a wrong page. */
  lemma ReadShowsPageOrNothing(c: Cache, g: Config, view: seq<Row>, page: U16)
    requires Fits(view, g) && Coherent(c, g, view) && g.hotRowsLimit % g.pageSize == 0
    ensures PageRows(c, g, page) == ShownPage(view, g, page) || PageRows(c, g, page) == []
  {
    if view != [] {
      var p := ClampPage(page, c.totalPages);
      ReadExact(c, g, view, page);
      if HotEndsInside(g, view, p) {
        WholePages(p - 1, g.pageSize, g.hotRowsLimit);
        AddRows(p - 1, 1, g.pageSize);
      }
    }
  }

  /** And with any other limit, a cache that holds the prefix but not the window shows every page
      that the limit falls inside truncated. */
  lemma MisalignedHotShowsShortPage(c: Cache, g: Config, view: seq<Row>, page: U16)
    requires Fits(view, g) && Coherent(c, g, view) && c.hotRows != []
    requires 1 <= page <= c.totalPages && !HasPageInWindow(c, page) && HotEndsInside(g, view, page)
    ensures PageRows(c, g, page) != ShownPage(view, g, page) && PageRows(c, g, page) != []
  {
    ReadExact(c, g, view, page);
  }

  // ---- The object ------------------------------------------------------------------------

  /** The database is reached through its current newest-first list and the outcomes of the
      queries a call makes. */
  class FaultHistoryCache {
    var bound: bool
    var pageSize: U16
    var hotRowsLimit: U16
    var windowPages: U16
    var valid: bool
    var totalRows: nat
    var totalPages: U16
    var hotRows: seq<Row>
    var windowRows: seq<Row>
    var windowStartPage: U16
    var windowEndPage: U16

    function State(): Cache
      reads this
    {
      Cache(bound, valid, totalRows, totalPages, hotRows, windowRows, windowStartPage, windowEndPage)
    }

    function Settings(): Config
      reads this
    {
      Config(pageSize, hotRowsLimit, windowPages)
    }

    constructor ()
      ensures State() == Cache(false, false, 0, 0, [], [], 0, 0)
      ensures Settings() == Config(5, 10, 3)
    {
      bound, valid := false, false;
      pageSize, hotRowsLimit, windowPages := 5, 10, 3;
      totalRows, totalPages := 0, 0;
      hotRows, windowRows := [], [];
      windowStartPage, windowEndPage := 0, 0;
    }

    method SetSizes(page: U16, hot: U16, window: U16)
      modifies this`pageSize, this`hotRowsLimit, this`windowPages
      ensures Settings() == Config(if page > 0 then page else old(pageSize),
                                   if hot > 0 then hot else old(hotRowsLimit),
                                   if window > 0 then window else old(windowPages))
    {
      if page > 0 { pageSize := page; }
      if hot > 0 { hotRowsLimit := hot; }
      if window > 0 { windowPages := window; }
    }

    /** bindDb: everything is forgotten, and a bound cache is valid with zero pages. */
    method BindDb(db: bool) returns (ok: bool)
      modifies this
      ensures ok == db && State() == Cache(db, db, 0, 0, [], [], 0, 0)
      ensures Settings() == old(Settings())
    {
      bound := db;
      totalRows, totalPages := 0, 0;
      hotRows, windowRows := [], [];
      windowStartPage, windowEndPage := 0, 0;
      valid := db;
      ok := valid;
    }

    method RefreshMeta(view: seq<Row>, q: Queries) returns (ok: bool)
      modifies this
      ensures Done(State(), ok) == MetaRefreshed(old(State()), old(Settings()), view, q)
      ensures Settings() == old(Settings())
    {
      if !bound || !q.count {
        return false;
      }
      totalRows := CountRows(view);
      totalPages := CalcTotalPages(totalRows, pageSize);
      valid := true;
      return true;
    }

    method RefreshHotCache(view: seq<Row>, q: Queries) returns (ok: bool)
      modifies this
      ensures Done(State(), ok) == HotRefreshed(old(State()), old(Settings()), view, q)
      ensures Settings() == old(Settings())
    {
      if !bound || !q.latest {
        return false;
      }
      hotRows := LoadLatest(view, hotRowsLimit);
      valid := true;
      return true;
    }

    method WindowBounds(page: U16) returns (startPage: U16, endPage: U16)
      requires ValidConfig(Settings()) && 1 <= page <= totalPages
      ensures Window(startPage, endPage) == WindowAround(page, totalPages, windowPages)
    {
      if windowPages <= 1 {
        return page, page;
      }
      var half := windowPages / 2;
      if page <= 1 + half {
        startPage, endPage := 1, Min(totalPages, windowPages);
      } else if page + half >= totalPages {
        endPage := totalPages;
        startPage := if totalPages > windowPages - 1 then totalPages - windowPages + 1 else 1;
      } else {
        startPage := page - half;
        endPage := startPage + windowPages - 1;
      }
    }

    method RefreshWindow(view: seq<Row>, centerPage: U16, q: Queries) returns (ok: bool)
      requires ValidConfig(Settings())
      modifies this
      ensures Done(State(), ok) == WindowRefreshed(old(State()), old(Settings()), view, centerPage, q)
      ensures Settings() == old(Settings())
    {
      if !bound {
        return false;
      }
      ok := RefreshMeta(view, q);
      if !ok {
        return false;
      }
      if totalPages == 0 {
        windowRows, windowStartPage, windowEndPage := [], 0, 0;
        valid := true;
        return true;
      }
      var startPage, endPage := WindowBounds(ClampPage(centerPage, totalPages));
      if !q.range {
        return false;
      }
      LoadWindow(view, startPage, endPage);
      return true;
    }

    method LoadWindow(view: seq<Row>, startPage: U16, endPage: U16)
      requires 1 <= startPage <= endPage
      modifies this
      ensures State() == old(State()).(
                windowRows := LoadRange(view, Rows(startPage - 1, pageSize), Rows(endPage - startPage + 1, pageSize)),
                windowStart := startPage, windowEnd := endPage, valid := true)
      ensures Settings() == old(Settings())
    {
      windowRows := LoadRange(view, Rows(startPage - 1, pageSize), Rows(endPage - startPage + 1, pageSize));
      windowStartPage, windowEndPage := startPage, endPage;
      valid := true;
    }

    method EnsurePageLoaded(view: seq<Row>, page: U16, q: Queries) returns (ok: bool)
      requires ValidConfig(Settings())
      modifies this
      ensures Done(State(), ok) == PageEnsured(old(State()), old(Settings()), view, page, q)
      ensures Settings() == old(Settings())
    {
      if !bound {
        return false;
      }
      if !valid {
        ok := RefreshMeta(view, q);
        if !ok {
          return false;
        }
      }
      if totalPages == 0 {
        windowRows, windowStartPage, windowEndPage := [], 0, 0;
        return true;
      }
      var p := ClampPage(page, totalPages);
      if windowStartPage != 0 && windowEndPage != 0 && windowStartPage <= p <= windowEndPage {
        return true;
      }
      ok := RefreshWindow(view, p, q);
    }

    /** pageRows: from the window if it holds the page, else from the hot prefix. */
    method Read(page: U16) returns (rows: seq<Row>)
      ensures rows == PageRows(State(), Settings(), page)
    {
      if !valid || totalPages == 0 {
        return [];
      }
      var p := ClampPage(page, totalPages);
      if windowStartPage != 0 && windowEndPage != 0 && windowStartPage <= p <= windowEndPage {
        return Cut(windowRows, Rows(p - windowStartPage, pageSize), pageSize);
      }
      return Cut(hotRows, Rows(p - 1, pageSize), pageSize);
    }
  }
}
