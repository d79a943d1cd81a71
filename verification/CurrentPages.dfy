/**
 * The pages of current faults (services/control/fault/fault_center.cpp): the visible codes in
 * display order, cut into pages of five numbered rows, and a page index that stays in range.
 */
module CurrentPages {
  import opened Words
  import opened Sorting
  import opened Activations
  import opened FaultCenterModel
  import FaultCatalog

  function BeginTime(begin: map<U16, nat>, c: U16): nat {
    if c in begin then begin[c] else 0
  }

  /** Newest begin first, then the lower code. */
  function NewestFirst(begin: map<U16, nat>): (U16, U16) -> bool {
    (a: U16, b: U16) =>
      if BeginTime(begin, a) != BeginTime(begin, b) then BeginTime(begin, a) > BeginTime(begin, b) else a < b
  }

  /** collectCurrentVisibleCodes_. */
  function Visible(cat: Catalog, c: Center): seq<U16> {
    Sort(Showing(cat.current, c.active), NewestFirst(c.begin))
  }

  lemma {:induction false} ShowingExact(current: seq<U16>, active: set<U16>)
    ensures Elements(Showing(current, active)) == Elements(current) * active
    ensures |Showing(current, active)| <= |current|
  {
    if |current| > 0 {
      var n := |current| - 1;
      ShowingExact(current[..n], active);
      assert current == current[..n] + [current[n]];
      var before := Showing(current[..n], active);
      assert Elements(before + [current[n]]) == Elements(before) + {current[n]};
      assert Elements(current) == Elements(current[..n]) + {current[n]};
      assert before + [] == before;
    }
  }

  lemma {:induction false} ShowingDistinct(current: seq<U16>, active: set<U16>)
    requires Distinct(current)
    ensures Distinct(Showing(current, active))
  {
    if |current| > 0 {
      var n := |current| - 1;
      ShowingDistinct(current[..n], active);
      ShowingExact(current[..n], active);
      var before := Showing(current[..n], active);
      assert current[n] !in Elements(current[..n]);
      assert forall i :: 0 <= i < |before| ==> before[i] in Elements(before);
    }
  }

  /** A code that began later comes first, and of two that began together the lower. A code without
      a begin time counts as begun at 0. */
  predicate ByBegin(begin: map<U16, nat>, list: seq<U16>) {
    forall i, j :: 0 <= i < j < |list| ==>
      var s, t := if list[i] in begin then begin[list[i]] else 0, if list[j] in begin then begin[list[j]] else 0;
      s > t || (s == t && list[i] < list[j])
  }

  lemma ByBeginIsSorted(begin: map<U16, nat>, list: seq<U16>)
    ensures ByBegin(begin, list) <==> Sorted(list, NewestFirst(begin))
  {}

  /** The visible list holds the active codes of the catalog's current list, each once, newest
      begin first and then by code; and no other list does. */
  lemma VisibleExact(cat: Catalog, c: Center)
    requires Distinct(cat.current)
    ensures Elements(Visible(cat, c)) == Elements(cat.current) * c.active
    ensures Distinct(Visible(cat, c)) && ByBegin(c.begin, Visible(cat, c))
    ensures Sorted(Visible(cat, c), NewestFirst(c.begin))
    ensures |Visible(cat, c)| == |Showing(cat.current, c.active)|
  {
    var s, less := Showing(cat.current, c.active), NewestFirst(c.begin);
    ShowingExact(cat.current, c.active);
    ShowingDistinct(cat.current, c.active);
    assert OrdersStrictly(less, Elements(s));
    SortElements(s, less);
    SortSorts(s, less);
    SortedDistinct(Visible(cat, c), less);
    ByBeginIsSorted(c.begin, Visible(cat, c));
  }

  lemma VisibleUnique(cat: Catalog, c: Center, other: seq<U16>)
    requires Distinct(cat.current)
    requires Elements(other) == Elements(cat.current) * c.active && ByBegin(c.begin, other)
    ensures other == Visible(cat, c)
  {
    ByBeginIsSorted(c.begin, other);
    VisibleExact(cat, c);
    assert OrdersStrictly(NewestFirst(c.begin), Elements(other));
    SortedUnique(other, Visible(cat, c), NewestFirst(c.begin));
  }

  /** With the list of a loaded catalog, the visible codes are the active ones whose best item asks
      to be shown. */
  lemma {:induction false} VisibleOfLoaded(items: seq<FaultCatalog.Meta>, metas: seq<FaultCatalog.Meta>,
                                           cat: Catalog, c: Center, code: U16)
    requires FaultCatalog.Lists(metas, FaultCatalog.Table(items)) && cat.current == FaultCatalog.CurrentCodes(metas)
    ensures var table := FaultCatalog.Table(items);
            code in Visible(cat, c) <==> code in c.active && code in table && table[code].showCurrent
  {
    FaultCatalog.CurrentListExact(items, metas, code);
    VisibleExact(cat, c);
    assert code in Visible(cat, c) <==> code in Elements(Visible(cat, c));
  }

  // ---- The rows of a page ----------------------------------------------------------------

  /** FaultCenterCurrentRow. */
  datatype CurrentRow = CurrentRow(seqNo: U16, code: U16, onTime: nat)

  /** encodeTime_: seconds, in 32 bits. */
  function Seconds(ts: nat): nat {
    ts / 1000 % TWO32
  }

  /** The row at a place of the visible list, numbered from 1. */
  function RowAt(c: Center, visible: seq<U16>, i: nat): CurrentRow
    requires i < |visible|
  {
    CurrentRow((i + 1) % 0x1_0000, visible[i], Seconds(BeginTime(c.begin, visible[i])))
  }

  function RowsBetween(c: Center, visible: seq<U16>, lo: nat, hi: nat): (r: seq<CurrentRow>)
    requires lo <= hi <= |visible|
    ensures |r| == hi - lo
    ensures forall i :: 0 <= i < |r| ==> r[i] == RowAt(c, visible, lo + i)
  {
    if lo == hi then [] else RowsBetween(c, visible, lo, hi - 1) + [RowAt(c, visible, hi - 1)]
  }

  function Least(a: nat, b: nat): nat {
    if a < b then a else b
  }

  /** The rows of one page. */
  function PageRows(c: Center, visible: seq<U16>, page: nat): seq<CurrentRow> {
    RowsBetween(c, visible, Least(page * PAGE_ROWS, |visible|), Least((page + 1) * PAGE_ROWS, |visible|))
  }

  /** buildCurrentRows_, for the page on display. */
  method BuildCurrentRows(cat: Catalog, c: Center) returns (rows: seq<CurrentRow>)
    ensures rows == PageRows(c, Visible(cat, c), c.page)
  {
    var visible := Visible(cat, c);
    var start := c.page * PAGE_ROWS;
    rows := [];
    for i := 0 to PAGE_ROWS
      invariant rows == RowsBetween(c, visible, Least(start, |visible|), Least(start + i, |visible|))
    {
      if start + i >= |visible| {
        return;
      }
      rows := rows + [RowAt(c, visible, start + i)];
    }
  }

  /** Page p shows the visible codes from place 5p on, at most five, numbered from 5p + 1, each with its
      begin time in seconds. */
  lemma PageRowsExact(c: Center, visible: seq<U16>, page: nat)
    requires |visible| < 0x1_0000
    ensures var rows, n := PageRows(c, visible, page), |visible| - 5 * page;
            && |rows| == (if n <= 0 then 0 else if n < 5 then n else 5)
            && forall i :: 0 <= i < |rows| ==>
                 var code := visible[5 * page + i];
                 var began := if code in c.begin then c.begin[code] else 0;
                 rows[i] == CurrentRow(5 * page + i + 1, code, began / 1000 % 0x1_0000_0000)
  {}

  function Pages(c: Center, visible: seq<U16>, n: nat): seq<CurrentRow> {
    if n == 0 then [] else Pages(c, visible, n - 1) + PageRows(c, visible, n - 1)
  }

  lemma {:induction false} PagesPrefix(c: Center, visible: seq<U16>, n: nat)
    ensures Pages(c, visible, n) == RowsBetween(c, visible, 0, Least(n * 5, |visible|))
  {
    if n > 0 {
      PagesPrefix(c, visible, n - 1);
      RowsJoin(c, visible, 0, Least((n - 1) * 5, |visible|), Least(n * 5, |visible|));
    }
  }

  lemma {:induction false} RowsJoin(c: Center, visible: seq<U16>, lo: nat, mid: nat, hi: nat)
    requires lo <= mid <= hi <= |visible|
    ensures RowsBetween(c, visible, lo, mid) + RowsBetween(c, visible, mid, hi) == RowsBetween(c, visible, lo, hi)
  {}

  function Below(n: nat): (r: set<int>)
    ensures |r| == n && forall x :: x in r <==> 0 <= x < n
  {
    if n == 0 then {} else Below(n - 1) + {n - 1}
  }

  lemma DistinctBelow(s: seq<int>, n: nat)
    requires Distinct(s) && forall i :: 0 <= i < |s| ==> 0 <= s[i] < n
    ensures |s| <= n
  {
    DistinctSize(s);
    SubsetSize(Elements(s), Below(n));
  }

  /** The pages 0 .. total - 1, one after the other, are the whole visible list numbered from 1. */
  lemma {:induction false} PagesPartition(cat: Catalog, c: Center)
    requires Distinct(cat.current)
    ensures Pages(c, Visible(cat, c), CurrentTotal(cat, c.active)) ==
            RowsBetween(c, Visible(cat, c), 0, |Visible(cat, c)|)
  {
    VisibleExact(cat, c);
    DistinctBelow(Visible(cat, c), 0x1_0000);
    PagesPrefix(c, Visible(cat, c), CurrentTotal(cat, c.active));
  }

  lemma {:induction false} PagesNumbered(cat: Catalog, c: Center)
    requires Distinct(cat.current)
    ensures var all, visible := Pages(c, Visible(cat, c), CurrentTotal(cat, c.active)), Visible(cat, c);
            |all| == |visible| &&
            forall i :: 0 <= i < |all| ==> all[i].seqNo == (i + 1) % 0x1_0000 && all[i].code == visible[i]
  {
    PagesPartition(cat, c);
  }

  // ---- The page indexes ------------------------------------------------------------------

  datatype Move =
    | Report(e: Change)
    | Next | Prev | First | Enter
    | HistoryNext | HistoryPrev | HistoryFirst | HistoryEnter

  function Moved(cat: Catalog, w: World, m: Move): World {
    var c := w.center;
    match m
    case Report(e) => SetActive(cat, w, e)
    case Next => w.(center := c.(page := NextPage(c.page, CurrentTotal(cat, c.active))))
    case Prev => w.(center := c.(page := PrevPage(c.page)))
    case First => w.(center := c.(page := 0))
    case Enter => Clamped(cat, w.(center := c.(page := 0)))
    case HistoryNext => w.(center := c.(historyPage := NextPage(c.historyPage, HistoryTotal(cat, c.history))))
    case HistoryPrev => w.(center := c.(historyPage := PrevPage(c.historyPage)))
    case HistoryFirst => w.(center := c.(historyPage := 0))
    case HistoryEnter => Clamped(cat, w.(center := c.(historyPage := 0)))
  }

  function MovedAll(cat: Catalog, w: World, moves: seq<Move>): World {
    if |moves| == 0 then w else Moved(cat, MovedAll(cat, w, moves[..|moves| - 1]), moves[|moves| - 1])
  }

  /** A page index names a page that exists, or is 0. */
  predicate Within(page: U16, total: U16) {
    page == 0 || page < total
  }

  predicate InRange(cat: Catalog, c: Center) {
    Within(c.page, CurrentTotal(cat, c.active)) && Within(c.historyPage, HistoryTotal(cat, c.history))
  }

  /** Through every run of reports and page moves both indexes name pages that exist. */
  lemma {:induction false} PageStaysInRange(cat: Catalog, w: World, moves: seq<Move>)
    requires InRange(cat, w.center)
    ensures InRange(cat, MovedAll(cat, w, moves).center)
  {
    if |moves| > 0 {
      var n := |moves| - 1;
      PageStaysInRange(cat, w, moves[..n]);
      MoveStaysInRange(cat, MovedAll(cat, w, moves[..n]), moves[n]);
    }
  }

  lemma ClampedInRange(cat: Catalog, w: World)
    ensures InRange(cat, Clamped(cat, w).center)
  {
    var c := w.center;
    assert Clamped(cat, w).center.active == c.active && Clamped(cat, w).center.history == c.history;
  }

  lemma MoveStaysInRange(cat: Catalog, w: World, m: Move)
    requires InRange(cat, w.center)
    ensures InRange(cat, Moved(cat, w, m).center)
  {
    match m
    case Report(e) => ClampedInRange(cat, Changed(w, e.code in cat.recorded, e));
    case Enter => ClampedInRange(cat, w.(center := w.center.(page := 0)));
    case HistoryEnter => ClampedInRange(cat, w.(center := w.center.(historyPage := 0)));
    case Next =>
    case Prev =>
    case First =>
    case HistoryNext =>
    case HistoryPrev =>
    case HistoryFirst =>
  }

  /** Next turns one page on while there are codes beyond the page on display; Prev one page back while
      there is a page before it; First and Enter go to page 0. */
  lemma {:induction false} CurrentMoves(cat: Catalog, w: World, n: nat)
    requires Distinct(cat.current) && InRange(cat, w.center)
    requires n == |Elements(cat.current) * w.center.active|
    ensures var c := w.center;
            && Moved(cat, w, Next).center == c.(page := if 5 * (c.page + 1) < n then c.page + 1 else c.page)
            && Moved(cat, w, Prev).center == c.(page := if c.page > 0 then c.page - 1 else 0)
            && Moved(cat, w, First).center == c.(page := 0) && Moved(cat, w, Enter).center == c.(page := 0)
  {
    var c := w.center;
    ShowingExact(cat.current, c.active);
    ShowingDistinct(cat.current, c.active);
    DistinctSize(Showing(cat.current, c.active));
    DistinctBelow(Showing(cat.current, c.active), 0x1_0000);
    MoreRows(c.page, n);
  }

  lemma MoreRows(page: U16, rows: nat)
    requires rows <= 327675
    ensures page + 1 < TotalPages(rows) <==> 5 * (page + 1) < rows
    ensures TotalPages(rows) == 0 <==> rows == 0
  {}

  /** The same of the history pages, while there are records of shown codes beyond. */
  lemma {:induction false} HistoryMoves(cat: Catalog, w: World, n: nat)
    requires InRange(cat, w.center) && |w.center.history| <= 1000
    requires var h := w.center.history;
             n == |set k | 0 <= k < |h| && h[k].code in cat.inHistory|
    ensures var c := w.center;
            && Moved(cat, w, HistoryNext).center ==
               c.(historyPage := if 5 * (c.historyPage + 1) < n then c.historyPage + 1 else c.historyPage)
            && Moved(cat, w, HistoryPrev).center ==
               c.(historyPage := if c.historyPage > 0 then c.historyPage - 1 else 0)
            && Moved(cat, w, HistoryFirst).center == c.(historyPage := 0)
            && Moved(cat, w, HistoryEnter).center == c.(historyPage := 0)
  {
    HistoryRowsCount(w.center.history, cat.inHistory);
    RowsAtMost(w.center.history, cat.inHistory);
    MoreRows(w.center.historyPage, n);
  }

  lemma {:induction false} RowsAtMost(h: seq<Hist>, shown: set<U16>)
    ensures HistoryRows(h, shown) <= |h|
  {
    if |h| > 0 {
      RowsAtMost(h[..|h| - 1], shown);
    }
  }

  /** So the page on display is empty only when nothing is visible. */
  lemma PageShowsSomething(cat: Catalog, c: Center)
    requires Distinct(cat.current) && InRange(cat, c)
    ensures PageRows(c, Visible(cat, c), c.page) == [] <==> Elements(cat.current) * c.active == {}
  {
    VisibleExact(cat, c);
    DistinctBelow(Visible(cat, c), 0x1_0000);
    NoElements(Visible(cat, c));
  }
}
