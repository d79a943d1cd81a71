/**
 * FaultCenter (services/control/fault/fault_center.cpp): the active codes with their begin times,
 * the bounded in-memory log, the database rows of the activations in progress, and the index of
 * the current-fault page and of its own history page.
 */
module FaultCenterModel {
  import opened Words
  import opened Activations
  import opened FaultDb

  const MAX_HISTORY: nat := 1000
  const PAGE_ROWS: nat := 5

  /** FaultCenterHistRecord. */
  datatype Hist = Hist(code: U16, firstOnMs: nat, clearMs: nat, seqNo: U16, state: nat)

  /** What the centre asks of the fault catalog: the codes with record_db, and the list of codes
      shown on the current page, and the codes shown in history. */
  datatype Catalog = Catalog(recorded: set<U16>, current: seq<U16>, inHistory: set<U16>)

  datatype Center = Center(
    active: set<U16>, begin: map<U16, nat>,
    history: seq<Hist>, nextSeq: U16,
    rowIds: map<U16, nat>,
    page: U16, historyPage: U16,
    dirty: bool, version: nat)

  /** The centre and the database it is bound to, if it is. */
  datatype World = World(center: Center, bound: bool, db: Db)

  const EMPTY_CENTER := Center({}, map[], [], 1, map[], 0, 0, false, 0)

  // ---- The log ---------------------------------------------------------------------------

  predicate Open(r: Hist) {
    r.clearMs == 0
  }

  predicate OpenRecordOf(r: Hist, code: U16) {
    r.code == code && Open(r)
  }

  /** The newest open record of the code is closed, if there is one. */
  function CloseLast(h: seq<Hist>, code: U16, ts: nat): (r: seq<Hist>)
    ensures |r| == |h|
  {
    if |h| == 0 then []
    else
      var n := |h| - 1;
      if OpenRecordOf(h[n], code) then h[..n] + [h[n].(clearMs := ts, state := 0)]
      else CloseLast(h[..n], code, ts) + [h[n]]
  }

  function FirstClosed(h: seq<Hist>): (k: nat)
    ensures k <= |h|
    ensures forall i :: 0 <= i < k ==> Open(h[i])
    ensures k < |h| ==> !Open(h[k])
  {
    if |h| == 0 || !Open(h[0]) then 0 else 1 + FirstClosed(h[1..])
  }

  /** Which record goes: the oldest closed one, or the oldest if all are open. */
  function Victim(h: seq<Hist>): (k: nat)
    requires |h| > 0
    ensures k < |h|
  {
    var k := FirstClosed(h);
    if k < |h| then k else 0
  }

  function Without<T>(s: seq<T>, k: nat): (r: seq<T>)
    requires k < |s|
    ensures |r| == |s| - 1
    ensures forall i :: 0 <= i < |r| ==> r[i] == s[if i < k then i else i + 1]
  {
    s[..k] + s[k + 1..]
  }

  function Trim(h: seq<Hist>): (r: seq<Hist>)
    ensures |r| == if |h| > MAX_HISTORY then MAX_HISTORY else |h|
    decreases |h|
  {
    if |h| > MAX_HISTORY then Trim(Without(h, Victim(h))) else h
  }

  // ---- Page index ------------------------------------------------------------------------

  /** The codes of the catalog's current list that are active, in the list's order. */
  function Showing(current: seq<U16>, active: set<U16>): seq<U16> {
    if |current| == 0 then []
    else
      var n := |current| - 1;
      Showing(current[..n], active) + if current[n] in active then [current[n]] else []
  }

  function TotalPages(rows: nat): U16 {
    if rows == 0 then 0 else ((rows + PAGE_ROWS - 1) / PAGE_ROWS) % 0x1_0000
  }

  function ClampPage(page: U16, total: U16): U16 {
    if total == 0 then 0 else if page >= total then total - 1 else page
  }

  function CurrentTotal(cat: Catalog, active: set<U16>): U16 {
    TotalPages(|Showing(cat.current, active)|)
  }

  /** How many records of the log are of codes shown in history. */
  function HistoryRows(h: seq<Hist>, shown: set<U16>): nat {
    if |h| == 0 then 0
    else
      var n := |h| - 1;
      HistoryRows(h[..n], shown) + if h[n].code in shown then 1 else 0
  }

  function HistoryTotal(cat: Catalog, h: seq<Hist>): U16 {
    TotalPages(HistoryRows(h, cat.inHistory))
  }

  function NextPage(page: U16, total: U16): U16 {
    if total == 0 then 0 else if page + 1 < total then page + 1 else page
  }

  function PrevPage(page: U16): U16 {
    if page > 0 then page - 1 else page
  }

  // ---- setActive -------------------------------------------------------------------------

  function MarkDirty(c: Center): Center {
    c.(dirty := true, version := (c.version + 1) % TWO64)
  }

  /** A new activation enters the log and, if it is bound, the database. */
  function Entered(w: World, e: Change): World {
    var c := w.center;
    var rec := Hist(e.code, e.ts, 0, c.nextSeq, 1);
    var c1 := MarkDirty(c.(history := Trim(c.history + [rec]), nextSeq := (c.nextSeq + 1) % 0x1_0000));
    if w.bound && e.insertOk then
      var db := Insert(w.db, e.code, e.ts, c.nextSeq);
      World(c1.(rowIds := c.rowIds[e.code := db.lastId]), w.bound, db)
    else w.(center := c1)
  }

  /** A code that was off is reported on. */
  function Raised(w: World, recorded: bool, e: Change): World {
    var c := w.center;
    var v := w.(center := c.(active := c.active + {e.code}, begin := c.begin[e.code := e.ts]));
    if recorded then Entered(v, e) else v
  }

  /** What the database holds after the clearing statement of a code. */
  function Closed(db: Db, ids: map<U16, nat>, e: Change): Db {
    if !e.updateOk then db
    else if e.code in ids && ids[e.code] > 0 then db.(rows := ClearById(db.rows, ids[e.code], e.ts))
    else db.(rows := ClearByCode(db.rows, e.code, e.ts))
  }

  /** A code that was on is reported off. */
  function Lowered(w: World, recorded: bool, e: Change): World {
    var c := w.center;
    var c1 := c.(active := c.active - {e.code}, begin := c.begin - {e.code}, rowIds := c.rowIds - {e.code});
    if !recorded then w.(center := c1)
    else
      World(MarkDirty(c1.(history := CloseLast(c.history, e.code, e.ts))), w.bound,
            if w.bound then Closed(w.db, c.rowIds, e) else w.db)
  }

  function Changed(w: World, recorded: bool, e: Change): World {
    if e.on && e.code !in w.center.active then Raised(w, recorded, e)
    else if !e.on && e.code in w.center.active then Lowered(w, recorded, e)
    else w
  }

  function Clamped(cat: Catalog, w: World): World {
    var c := w.center;
    w.(center := c.(page := ClampPage(c.page, CurrentTotal(cat, c.active)),
                    historyPage := ClampPage(c.historyPage, HistoryTotal(cat, c.history))))
  }

  function SetActive(cat: Catalog, w: World, e: Change): World {
    Clamped(cat, Changed(w, e.code in cat.recorded, e))
  }

  function After(cat: Catalog, w: World, evs: seq<Change>): World {
    if |evs| == 0 then w
    else SetActive(cat, After(cat, w, evs[..|evs| - 1]), evs[|evs| - 1])
  }

  // ---- What the parts of a report do, record by record -----------------------------------

  /** A log of more than 1000 records loses its oldest closed one, or its oldest when all are open;
      a shorter log is left alone. */
  lemma {:induction false} TrimExact(h: seq<Hist>, k: nat)
    requires k < |h|
    requires forall i :: 0 <= i < k ==> h[i].clearMs == 0
    requires h[k].clearMs != 0 || (k == 0 && forall i :: 0 <= i < |h| ==> h[i].clearMs == 0)
    ensures |h| > 1000 ==> Trim(h) == Trim(h[..k] + h[k + 1..])
    ensures |h| == 1001 ==> Trim(h) == h[..k] + h[k + 1..]
    ensures |h| <= 1000 ==> Trim(h) == h
  {
    var v := Victim(h);
    assert v == k;
  }

  /** Closing a code dates its newest open record, and no other. */
  lemma {:induction false} CloseLastExact(h: seq<Hist>, code: U16, ts: nat, k: nat)
    requires k < |h| && h[k].code == code && h[k].clearMs == 0
    requires forall i :: k < i < |h| && h[i].code == code ==> h[i].clearMs != 0
    ensures CloseLast(h, code, ts) == h[k := Hist(code, h[k].firstOnMs, ts, h[k].seqNo, 0)]
  {
    var n := |h| - 1;
    if k < n {
      CloseLastExact(h[..n], code, ts, k);
    }
  }

  lemma {:induction false} CloseLastIdle(h: seq<Hist>, code: U16, ts: nat)
    requires forall i :: 0 <= i < |h| && h[i].code == code ==> h[i].clearMs != 0
    ensures CloseLast(h, code, ts) == h
  {
    if |h| > 0 {
      CloseLastIdle(h[..|h| - 1], code, ts);
    }
  }

  /** The history is marked as changed, and its version counted up, exactly by the reports that begin
      or end an activation of a recorded code. */
  lemma {:induction false} DirtyExactly(cat: Catalog, w: World, e: Change)
    ensures var was, now := w.center, SetActive(cat, w, e).center;
            if e.code in cat.recorded && e.on != (e.code in was.active)
            then now.dirty && now.version == (was.version + 1) % 0x1_0000_0000_0000_0000
            else now.dirty == was.dirty && now.version == was.version && now.history == was.history
  {}

  /** The history pages count the records of codes shown in history. */
  lemma {:induction false} HistoryRowsCount(h: seq<Hist>, shown: set<U16>)
    ensures HistoryRows(h, shown) == |set k | 0 <= k < |h| && h[k].code in shown|
  {
    if |h| > 0 {
      var n := |h| - 1;
      HistoryRowsCount(h[..n], shown);
      var before := set k | 0 <= k < n && h[..n][k].code in shown;
      var all := set k | 0 <= k < |h| && h[k].code in shown;
      assert all == if h[n].code in shown then before + {n} else before;
    }
  }

  /** Five rows to a page, the last page not empty, for every count of rows that 65535 pages hold. */
  lemma TotalPagesExact(rows: nat)
    requires rows <= 327675
    ensures rows <= 5 * TotalPages(rows) < rows + 5
  {}

  /** A page number within the total stays; any other becomes the last page, or 0. */
  lemma ClampExact(page: U16, total: U16)
    ensures page < total ==> ClampPage(page, total) == page
    ensures page >= total ==> ClampPage(page, total) + 1 == total || (total == 0 && ClampPage(page, total) == 0)
  {}

  function Nexts(page: U16, total: U16, n: nat): U16 {
    if n == 0 then page else NextPage(Nexts(page, total, n - 1), total)
  }

  function Prevs(page: U16, n: nat): U16 {
    if n == 0 then page else PrevPage(Prevs(page, n - 1))
  }

  /** Next turned n times moves n pages on, up to the last; Prev n pages back, down to the first. */
  lemma {:induction false} PagesTurn(page: U16, total: U16, n: nat)
    requires page < total
    ensures Nexts(page, total, n) == if page + n < total then page + n else total - 1
    ensures Prevs(page, n) == if page < n then 0 else page - n
  {
    if n > 0 {
      PagesTurn(page, total, n - 1);
    }
  }

  // ---- The objects -----------------------------------------------------------------------

  /** SqliteFaultSink: the table with its last row id. */
  class FaultSink {
    var rows: seq<Row>
    var lastId: nat

    function Contents(): Db
      reads this
    {
      Db(rows, lastId)
    }

    method InsertHistoryBegin(code: U16, onMs: nat, seqNo: U16, ok: bool) returns (saved: bool, id: nat)
      modifies this
      ensures saved == ok
      ensures Contents() == if ok then Insert(old(Contents()), code, onMs, seqNo) else old(Contents())
      ensures id == if ok then lastId else 0
    {
      if !ok {
        return false, 0;
      }
      lastId := lastId + 1;
      rows := rows + [Row(lastId, code, onMs, 0, seqNo, 1)];
      return true, lastId;
    }

    method MarkHistoryCleared(code: U16, ts: nat, ok: bool)
      modifies this
      ensures lastId == old(lastId)
      ensures rows == if ok then ClearByCode(old(rows), code, ts) else old(rows)
    {
      if ok {
        rows := ClearByCode(rows, code, ts);
      }
    }

    method MarkHistoryClearedById(id: nat, ts: nat, ok: bool)
      modifies this
      ensures lastId == old(lastId)
      ensures rows == if ok then ClearById(old(rows), id, ts) else old(rows)
    {
      if ok {
        rows := ClearById(rows, id, ts);
      }
    }
  }

  class FaultCenter {
    const cat: Catalog
    const sink: FaultSink?
    var active: set<U16>
    var begin: map<U16, nat>
    var history: seq<Hist>
    var nextSeq: U16
    var rowIds: map<U16, nat>
    var page: U16
    var historyPage: U16
    var dirty: bool
    var version: nat

    function State(): Center
      reads this
    {
      Center(active, begin, history, nextSeq, rowIds, page, historyPage, dirty, version)
    }

    /** An unbound centre sees an empty table. */
    function Whole(): World
      reads this, sink
    {
      World(State(), sink != null, if sink == null then EMPTY_DB else sink.Contents())
    }

    constructor (catalog: Catalog, db: FaultSink?)
      ensures State() == EMPTY_CENTER && cat == catalog && sink == db
    {
      cat, sink := catalog, db;
      active, begin, history, nextSeq, rowIds := {}, map[], [], 1, map[];
      page, historyPage, dirty, version := 0, 0, false, 0;
    }

    method TrimHistoryIfNeeded()
      modifies this`history
      ensures history == Trim(old(history))
    {
      while |history| > MAX_HISTORY
        invariant Trim(history) == Trim(old(history))
        decreases |history|
      {
        var k := 0;
        while k < |history| && history[k].clearMs == 0
          invariant k <= FirstClosed(history) <= |history|
        {
          k := k + 1;
        }
        if k < |history| {
          history := history[..k] + history[k + 1..];
        } else {
          history := history[..0] + history[1..];
        }
      }
    }

    /** The reverse scan for the newest open record. */
    method CloseNewest(code: U16, ts: nat)
      modifies this`history
      ensures history == CloseLast(old(history), code, ts)
    {
      var k := |history|;
      assert history[..k] == history;
      while k > 0
        invariant 0 <= k <= |history| && history == old(history)
        invariant CloseLast(history, code, ts) == CloseLast(history[..k], code, ts) + history[k..]
      {
        k := k - 1;
        assert history[..k + 1][..k] == history[..k];
        if history[k].code == code && history[k].clearMs == 0 {
          history := history[k := history[k].(clearMs := ts, state := 0)];
          return;
        }
        assert [history[k]] + history[k + 1..] == history[k..];
      }
    }

    /** The record joins the log under the next number. */
    method Log(code: U16, ts: nat) returns (seqNo: U16)
      modifies this`history, this`nextSeq
      ensures seqNo == old(nextSeq)
      ensures State() == old(State()).(history := Trim(old(history) + [Hist(code, ts, 0, seqNo, 1)]),
                                       nextSeq := (seqNo + 1) % 0x1_0000)
    {
      seqNo := nextSeq;
      nextSeq := (nextSeq + 1) % 0x1_0000;
      history := history + [Hist(code, ts, 0, seqNo, 1)];
      TrimHistoryIfNeeded();
    }

    method Store(code: U16, ts: nat, seqNo: U16, ok: bool)
      modifies this`rowIds, sink
      ensures State() == old(State()).(rowIds := rowIds)
      ensures sink == null || !ok ==> rowIds == old(rowIds)
      ensures sink != null ==>
                var db := old(sink.Contents());
                sink.Contents() == if ok then Insert(db, code, ts, seqNo) else db
      ensures sink != null && ok ==> rowIds == old(rowIds)[code := sink.lastId]
    {
      if sink != null {
        var saved, id := sink.InsertHistoryBegin(code, ts, seqNo, ok);
        if saved && id > 0 {
          rowIds := rowIds[code := id];
        }
      }
    }

    method MarkChanged()
      modifies this`dirty, this`version
      ensures State() == MarkDirty(old(State()))
    {
      dirty, version := true, (version + 1) % TWO64;
    }

    method Enter(e: Change)
      modifies this, sink
      ensures Whole() == Entered(old(Whole()), e)
    {
      var seqNo := Log(e.code, e.ts);
      Store(e.code, e.ts, seqNo, e.insertOk);
      MarkChanged();
    }

    method Raise(e: Change, recorded: bool)
      requires e.on && e.code !in active
      modifies this, sink
      ensures Whole() == Raised(old(Whole()), recorded, e)
    {
      active := active + {e.code};
      begin := begin[e.code := e.ts];
      if recorded {
        Enter(e);
      }
    }

    /** The clearing statement: by the mapped id, or else by code. */
    method Unstore(e: Change)
      modifies this`rowIds, sink
      ensures sink == null ==> rowIds == old(rowIds)
      ensures sink != null ==> sink.Contents() == Closed(old(sink.Contents()), old(rowIds), e)
      ensures rowIds - {e.code} == old(rowIds) - {e.code}
    {
      if sink != null {
        if e.code in rowIds && rowIds[e.code] > 0 {
          sink.MarkHistoryClearedById(rowIds[e.code], e.ts, e.updateOk);
          rowIds := rowIds - {e.code};
        } else {
          sink.MarkHistoryCleared(e.code, e.ts, e.updateOk);
        }
      }
    }

    method EndRecord(e: Change)
      modifies this, sink
      ensures State() == MarkDirty(old(State()).(history := CloseLast(old(history), e.code, e.ts), rowIds := rowIds))
      ensures rowIds - {e.code} == old(rowIds) - {e.code}
      ensures sink != null ==> sink.Contents() == Closed(old(sink.Contents()), old(rowIds), e)
    {
      CloseNewest(e.code, e.ts);
      Unstore(e);
      MarkChanged();
    }

    method Lower(e: Change, recorded: bool)
      requires !e.on && e.code in active
      modifies this, sink
      ensures Whole() == Lowered(old(Whole()), recorded, e)
    {
      active := active - {e.code};
      if recorded {
        EndRecord(e);
      }
      begin := begin - {e.code};
      rowIds := rowIds - {e.code};
    }

    method ClampPages()
      modifies this`page, this`historyPage
      ensures page == ClampPage(old(page), CurrentTotal(cat, active))
      ensures historyPage == ClampPage(old(historyPage), HistoryTotal(cat, history))
    {
      var current, past := CurrentTotal(cat, active), HistoryTotal(cat, history);
      if current == 0 {
        page := 0;
      } else if page >= current {
        page := current - 1;
      }
      if past == 0 {
        historyPage := 0;
      } else if historyPage >= past {
        historyPage := past - 1;
      }
    }

    method NextHistoryPage()
      modifies this`historyPage
      ensures historyPage == NextPage(old(historyPage), HistoryTotal(cat, history))
    {
      var total := HistoryTotal(cat, history);
      if total == 0 {
        historyPage := 0;
        return;
      }
      if historyPage + 1 < total {
        historyPage := historyPage + 1;
      }
    }

    method PrevHistoryPage()
      modifies this`historyPage
      ensures historyPage == PrevPage(old(historyPage))
    {
      if historyPage > 0 {
        historyPage := historyPage - 1;
      }
    }

    method NextCurrentPage()
      modifies this`page
      ensures page == NextPage(old(page), CurrentTotal(cat, active))
    {
      var total := CurrentTotal(cat, active);
      if total == 0 {
        page := 0;
        return;
      }
      if page + 1 < total {
        page := page + 1;
      }
    }

    method PrevCurrentPage()
      modifies this`page
      ensures page == PrevPage(old(page))
    {
      if page > 0 {
        page := page - 1;
      }
    }

    /** setActive, for one report. */
    method SetActiveCode(e: Change)
      modifies this, sink
      ensures Whole() == SetActive(cat, old(Whole()), e)
    {
      var wasOn := e.code in active;
      var recorded := e.code in cat.recorded;
      if e.on && !wasOn {
        Raise(e, recorded);
      } else if !e.on && wasOn {
        Lower(e, recorded);
      }
      ClampPages();
    }

    method ConsumeHistoryDirty() returns (was: bool, ver: nat)
      modifies this`dirty
      ensures was == old(dirty) && ver == version && !dirty
    {
      was, ver := dirty, version;
      dirty := false;
    }
  }
}
