/**
 * What the fault centre does to its database, over every run from an empty centre bound to a
 * database in which no row is open: the row-id discipline of its calls, and the rows they leave.
 */
module FaultRows {
  import opened Words
  import opened Activations
  import opened FaultDb
  import opened FaultCenterModel
  import opened FaultHistory

  /** No row is open, and row ids are positive and used up to lastId. */
  predicate Settled(db: Db) {
    forall r :: r in db.rows ==> r.clearMs != 0 && 0 < r.id <= db.lastId
  }

  // ---- The rows there should be ----------------------------------------------------------

  predicate Stores(evs: seq<Change>, e: Change, recorded: set<U16>) {
    e.on && !LastOn(evs, e.code) && e.code in recorded && e.insertOk
  }

  /** The reports whose activations got a row, in order. */
  function Stored(evs: seq<Change>, recorded: set<U16>): (st: seq<nat>)
    ensures forall k :: 0 <= k < |st| ==> st[k] < |evs|
  {
    if |evs| == 0 then []
    else
      var n := |evs| - 1;
      var before := Stored(evs[..n], recorded);
      if Stores(evs[..n], evs[n], recorded) then before + [n] else before
  }

  lemma {:induction false} StoredPrefix(evs: seq<Change>, recorded: set<U16>, j: nat)
    requires j <= |evs|
    ensures Stored(evs[..j], recorded) <= Stored(evs, recorded)
  {
    if j < |evs| {
      var n := |evs| - 1;
      assert evs[..n][..j] == evs[..j];
      StoredPrefix(evs[..n], recorded, j);
    } else {
      assert evs[..j] == evs;
    }
  }

  /** Stored reports begin activations of recorded codes, in order. */
  lemma {:induction false} StoredSound(evs: seq<Change>, recorded: set<U16>, k: nat)
    requires k < |Stored(evs, recorded)|
    ensures RecordedOnset(evs, recorded, Stored(evs, recorded)[k])
    ensures forall l :: k < l < |Stored(evs, recorded)| ==> Stored(evs, recorded)[k] < Stored(evs, recorded)[l]
  {
    var n := |evs| - 1;
    var before := Stored(evs[..n], recorded);
    if k < |before| {
      StoredSound(evs[..n], recorded, k);
      assert evs == evs[..n] + [evs[n]];
      BeginsBefore(evs[..n], evs[n], before[k]);
    }
  }

  /** The row that report i's activation should have by now. */
  function RowOf(evs: seq<Change>, recorded: set<U16>, i: nat, id: nat): Row
    requires i < |evs|
  {
    var r := RecordOf(evs, recorded, i);
    Row(id, r.code, r.firstOnMs, r.clearMs, r.seqNo, r.state)
  }

  /** One row per stored activation, numbered on from first. */
  function Expected(evs: seq<Change>, recorded: set<U16>, first: nat): seq<Row> {
    var st := Stored(evs, recorded);
    seq(|st|, k requires 0 <= k < |st| => RowOf(evs, recorded, st[k], first + k))
  }

  function CloseRow(r: Row, ts: nat): Row {
    r.(clearMs := ts, state := 0)
  }

  function CloseAll(rows: seq<Row>, code: U16, ts: nat): (r: seq<Row>)
    ensures |r| == |rows|
    ensures forall k :: 0 <= k < |rows| ==> r[k] == if OpenFor(rows[k], code) then CloseRow(rows[k], ts) else rows[k]
  {
    seq(|rows|, k requires 0 <= k < |rows| =>
      if OpenFor(rows[k], code) then CloseRow(rows[k], ts) else rows[k])
  }

  // ---- The book --------------------------------------------------------------------------

  predicate StoresIn(w: World, recorded: set<U16>, e: Change) {
    Rises(w, e) && e.code in recorded && e.insertOk
  }

  function RowFor(w: World, e: Change): Row {
    Row(w.db.lastId + 1, e.code, e.ts, 0, w.center.nextSeq, 1)
  }

  /** A book kept beside the centre: a report that stores a row enters it, and a report that ends
      an activation closes the code's open row. */
  function Booked(book: seq<Row>, w: World, recorded: set<U16>, e: Change): seq<Row> {
    if StoresIn(w, recorded, e) then book + [RowFor(w, e)]
    else if Falls(w, e) then CloseAll(book, e.code, e.ts)
    else book
  }

  function Book(cat: Catalog, db: Db, evs: seq<Change>): seq<Row> {
    if |evs| == 0 then []
    else
      var n := |evs| - 1;
      Booked(Book(cat, db, evs[..n]), After(cat, Fresh(true, db), evs[..n]), cat.recorded, evs[n])
  }

  predicate OpenAt(rows: seq<Row>, k: int, code: U16) {
    0 <= k < |rows| && OpenFor(rows[k], code)
  }

  /** The map holds the ids of the open rows under their codes, and nothing else; so a code has at
      most one open row. */
  predicate IdsMatch(ids: map<U16, nat>, rows: seq<Row>, first: nat) {
    MapsOpen(ids, rows, first) && MapsOnlyOpen(ids, rows, first)
  }

  predicate MapsOpen(ids: map<U16, nat>, rows: seq<Row>, first: nat) {
    forall k :: 0 <= k < |rows| && rows[k].clearMs == 0 ==>
      rows[k].code in ids && ids[rows[k].code] == first + k
  }

  predicate MapsOnlyOpen(ids: map<U16, nat>, rows: seq<Row>, first: nat) {
    forall code :: code in ids ==> OpenAt(rows, ids[code] - first, code)
  }

  /** The book agrees with the centre: open rows are those of active recorded codes whose ids the
      map holds, and ids run on from the database's last. */
  predicate BookSound(w: World, book: seq<Row>, recorded: set<U16>, last: nat) {
    && w.bound && w.db.lastId == last + |book|
    && (forall k :: 0 <= k < |book| ==> book[k].id == last + 1 + k)
    && (forall k :: 0 <= k < |book| && book[k].clearMs == 0 ==>
          book[k].code in w.center.active && book[k].code in recorded)
    && IdsMatch(w.center.rowIds, book, last + 1)
  }

  // ---- One report ------------------------------------------------------------------------

  /** The id map after a report that stores a row, ends an activation, or does neither. */
  function NextIds(ids: map<U16, nat>, stores: bool, ends: bool, code: U16, id: nat): map<U16, nat> {
    if stores then ids[code := id] else if ends then ids - {code} else ids
  }

  lemma StepIds(cat: Catalog, w: World, e: Change)
    requires w.bound
    ensures var v := SetActive(cat, w, e);
            && v.bound
            && v.center.rowIds == NextIds(w.center.rowIds, StoresIn(w, cat.recorded, e), Falls(w, e),
                                          e.code, w.db.lastId + 1)
            && v.db.lastId == w.db.lastId + if StoresIn(w, cat.recorded, e) then 1 else 0
  {}

  lemma StoreMapsOpen(ids: map<U16, nat>, rows: seq<Row>, r: Row, first: nat)
    requires MapsOpen(ids, rows, first) && 0 <= r.code < 0x1_0000 && r.clearMs == 0
    requires forall k :: 0 <= k < |rows| ==> !OpenFor(rows[k], r.code)
    ensures MapsOpen(ids[r.code := first + |rows|], rows + [r], first)
  {}

  lemma StoreMapsOnlyOpen(ids: map<U16, nat>, rows: seq<Row>, r: Row, first: nat)
    requires MapsOnlyOpen(ids, rows, first) && 0 <= r.code < 0x1_0000 && r.clearMs == 0
    ensures MapsOnlyOpen(ids[r.code := first + |rows|], rows + [r], first)
  {}

  lemma EndMapsOpen(ids: map<U16, nat>, rows: seq<Row>, code: U16, ts: nat, first: nat)
    requires MapsOpen(ids, rows, first) && ts > 0
    ensures MapsOpen(ids - {code}, CloseAll(rows, code, ts), first)
  {}

  lemma EndMapsOnlyOpen(ids: map<U16, nat>, rows: seq<Row>, code: U16, ts: nat, first: nat)
    requires MapsOnlyOpen(ids, rows, first)
    ensures MapsOnlyOpen(ids - {code}, CloseAll(rows, code, ts), first)
  {}

  lemma BookStep(cat: Catalog, w: World, book: seq<Row>, e: Change, last: nat)
    requires BookSound(w, book, cat.recorded, last) && e.ts > 0
    ensures BookSound(SetActive(cat, w, e), Booked(book, w, cat.recorded, e), cat.recorded, last)
  {
    StepIds(cat, w, e);
    StepActive(cat, w, e);
    BookedSound(w, book, e, cat.recorded, last);
  }

  lemma BookedSound(w: World, book: seq<Row>, e: Change, recorded: set<U16>, last: nat)
    requires BookSound(w, book, recorded, last) && e.ts > 0
    ensures var now := Booked(book, w, recorded, e);
            && |now| == |book| + (if StoresIn(w, recorded, e) then 1 else 0)
            && (forall k :: 0 <= k < |now| ==> now[k].id == last + 1 + k)
            && (forall k :: 0 <= k < |now| && now[k].clearMs == 0 ==>
                  now[k].code in recorded &&
                  now[k].code in if e.on then w.center.active + {e.code} else w.center.active - {e.code})
            && IdsMatch(NextIds(w.center.rowIds, StoresIn(w, recorded, e), Falls(w, e), e.code, last + 1 + |book|),
                        now, last + 1)
  {
    if StoresIn(w, recorded, e) {
      StoreMapsOpen(w.center.rowIds, book, RowFor(w, e), last + 1);
      StoreMapsOnlyOpen(w.center.rowIds, book, RowFor(w, e), last + 1);
    } else if Falls(w, e) {
      EndMapsOpen(w.center.rowIds, book, e.code, e.ts, last + 1);
      EndMapsOnlyOpen(w.center.rowIds, book, e.code, e.ts, last + 1);
    }
  }

  /** The book agrees with the centre after every run, whatever statements fail. */
  lemma {:induction false} BookRun(cat: Catalog, db: Db, evs: seq<Change>)
    requires Timed(evs)
    ensures BookSound(After(cat, Fresh(true, db), evs), Book(cat, db, evs), cat.recorded, db.lastId)
  {
    if |evs| > 0 {
      var n := |evs| - 1;
      BookRun(cat, db, evs[..n]);
      BookStep(cat, After(cat, Fresh(true, db), evs[..n]), Book(cat, db, evs[..n]), evs[n], db.lastId);
    }
  }

  /** The id map's keys are active recorded codes. */
  lemma {:induction false} IdKeysAreActive(cat: Catalog, db: Db, evs: seq<Change>)
    requires Timed(evs)
    ensures var c := After(cat, Fresh(true, db), evs).center;
            c.rowIds.Keys <= c.active * cat.recorded
  {
    BookRun(cat, db, evs);
    KeysOf(After(cat, Fresh(true, db), evs), Book(cat, db, evs), cat.recorded, db.lastId);
  }

  lemma KeysOf(w: World, book: seq<Row>, recorded: set<U16>, last: nat)
    requires BookSound(w, book, recorded, last)
    ensures w.center.rowIds.Keys <= w.center.active * recorded
  {
    forall code | code in w.center.rowIds
      ensures code in w.center.active && code in recorded
    {
      assert OpenAt(book, w.center.rowIds[code] - last - 1, code);
    }
  }

  // ---- The book holds the activations ----------------------------------------------------

  lemma {:induction false} RowNext(evs: seq<Change>, e: Change, recorded: set<U16>, i: nat, id: nat)
    requires i < |evs| && Begins(evs, i) && Timed(evs) && e.ts > 0
    ensures var r := RowOf(evs, recorded, i, id);
            RowOf(evs + [e], recorded, i, id) ==
            if !e.on && LastOn(evs, e.code) && OpenFor(r, e.code) then CloseRow(r, e.ts) else r
  {
    RecordNext(evs, e, recorded, i);
    if Ongoing(evs, i) {
      OngoingIsOn(evs, i);
    }
  }

  lemma {:induction false} RowNow(evs: seq<Change>, e: Change, recorded: set<U16>, id: nat)
    ensures RowOf(evs + [e], recorded, |evs|, id) ==
            Row(id, e.code, e.ts, 0, Number(Onsets(evs, recorded)), 1)
  {
    assert (evs + [e])[..|evs|] == evs;
  }

  /** What the centre sees of a report is what the reports say. */
  lemma {:induction false} SeenAlike(cat: Catalog, db: Db, evs: seq<Change>, e: Change)
    ensures var w := After(cat, Fresh(true, db), evs);
            && StoresIn(w, cat.recorded, e) == Stores(evs, e, cat.recorded)
            && Falls(w, e) == (!e.on && LastOn(evs, e.code))
            && w.center.nextSeq == Number(Onsets(evs, cat.recorded))
  {
    ActiveIsLastReport(cat, true, db, evs, e.code);
    NumbersRun(cat, true, db, evs);
  }

  lemma {:induction false} BookSize(cat: Catalog, db: Db, evs: seq<Change>)
    ensures |Book(cat, db, evs)| == |Stored(evs, cat.recorded)|
  {
    if |evs| > 0 {
      var n := |evs| - 1;
      BookSize(cat, db, evs[..n]);
      SeenAlike(cat, db, evs[..n], evs[n]);
    }
  }

  /** The k-th row of the book is that of the k-th stored activation, with its begin and end. */
  lemma {:induction false} BookHolds(cat: Catalog, db: Db, evs: seq<Change>, k: nat)
    requires Timed(evs) && k < |Stored(evs, cat.recorded)|
    ensures |Book(cat, db, evs)| == |Stored(evs, cat.recorded)|
    ensures Book(cat, db, evs)[k] == RowOf(evs, cat.recorded, Stored(evs, cat.recorded)[k], db.lastId + 1 + k)
  {
    var n := |evs| - 1;
    var pre, e := evs[..n], evs[n];
    assert evs == pre + [e];
    BookSize(cat, db, evs);
    BookSize(cat, db, pre);
    SeenAlike(cat, db, pre, e);
    if k < |Stored(pre, cat.recorded)| {
      BookHolds(cat, db, pre, k);
      StoredSound(pre, cat.recorded, k);
      RowNext(pre, e, cat.recorded, Stored(pre, cat.recorded)[k], db.lastId + 1 + k);
    } else {
      BookRun(cat, db, pre);
      RowNow(pre, e, cat.recorded, db.lastId + 1 + k);
    }
  }

  lemma {:induction false} BookIsExpected(cat: Catalog, db: Db, evs: seq<Change>)
    requires Timed(evs)
    ensures Book(cat, db, evs) == Expected(evs, cat.recorded, db.lastId + 1)
  {
    BookSize(cat, db, evs);
    forall k | 0 <= k < |Stored(evs, cat.recorded)|
      ensures Book(cat, db, evs)[k] == Expected(evs, cat.recorded, db.lastId + 1)[k]
    {
      BookHolds(cat, db, evs, k);
    }
  }

  // ---- The calls -------------------------------------------------------------------------

  datatype Call = NoCall | Inserted(id: nat) | InsertFailed | ById(id: nat) | ByCode(code: U16)

  /** The database call a report makes. */
  function CallOf(cat: Catalog, w: World, e: Change): Call {
    if !w.bound || e.code !in cat.recorded then NoCall
    else if Rises(w, e) then (if e.insertOk then Inserted(w.db.lastId + 1) else InsertFailed)
    else if !Falls(w, e) then NoCall
    else if e.code in w.center.rowIds && w.center.rowIds[e.code] > 0 then ById(w.center.rowIds[e.code])
    else ByCode(e.code)
  }

  function CallAt(cat: Catalog, db: Db, evs: seq<Change>, j: nat): Call
    requires j < |evs|
  {
    CallOf(cat, After(cat, Fresh(true, db), evs[..j]), evs[j])
  }

  /** A stored activation is one whose report's call returned its id. */
  lemma {:induction false} StoredIsInserted(cat: Catalog, db: Db, evs: seq<Change>, k: nat)
    requires Timed(evs) && k < |Stored(evs, cat.recorded)|
    ensures CallAt(cat, db, evs, Stored(evs, cat.recorded)[k]) == Inserted(db.lastId + 1 + k)
  {
    var n := |evs| - 1;
    if k < |Stored(evs[..n], cat.recorded)| {
      StoredIsInserted(cat, db, evs[..n], k);
      assert evs[..n][..Stored(evs[..n], cat.recorded)[k]] == evs[..Stored(evs[..n], cat.recorded)[k]];
    } else {
      BookRun(cat, db, evs[..n]);
      BookSize(cat, db, evs[..n]);
      SeenAlike(cat, db, evs[..n], evs[n]);
    }
  }

  /** A clear by id names an open row of the book. */
  lemma CallIsOpen(cat: Catalog, w: World, e: Change, book: seq<Row>, last: nat) returns (k: nat)
    requires BookSound(w, book, cat.recorded, last) && CallOf(cat, w, e).ById?
    ensures CallOf(cat, w, e).id == last + 1 + k && OpenAt(book, k, e.code) && !e.on
  {
    assert OpenAt(book, w.center.rowIds[e.code] - last - 1, e.code);
    k := w.center.rowIds[e.code] - last - 1;
  }

  /** The activation a clear by id ends is the one stored under that id. */
  lemma ClearedIsStored(cat: Catalog, db: Db, evs: seq<Change>, e: Change) returns (k: nat)
    requires Timed(evs) && CallOf(cat, After(cat, Fresh(true, db), evs), e).ById?
    ensures CallOf(cat, After(cat, Fresh(true, db), evs), e).id == db.lastId + 1 + k && !e.on
    ensures k < |Stored(evs, cat.recorded)|
    ensures var i := Stored(evs, cat.recorded)[k];
            Ongoing(evs, i) && evs[i].code == e.code
  {
    BookRun(cat, db, evs);
    k := CallIsOpen(cat, After(cat, Fresh(true, db), evs), e, Book(cat, db, evs), db.lastId);
    BookSize(cat, db, evs);
    BookHolds(cat, db, evs, k);
    StoredSound(evs, cat.recorded, k);
  }

  /** A clear by id is the clear that ends the activation whose report inserted that id. */
  lemma ClearMatchesInsert(cat: Catalog, db: Db, evs: seq<Change>, j: nat) returns (i: nat)
    requires Timed(evs) && j < |evs| && CallAt(cat, db, evs, j).ById?
    ensures i < j && CallAt(cat, db, evs, i) == Inserted(CallAt(cat, db, evs, j).id)
    ensures evs[i].code == evs[j].code && Ongoing(evs[..j], i)
    ensures EndTs(evs[..j + 1], i) == evs[j].ts
  {
    var k := ClearedIsStored(cat, db, evs[..j], evs[j]);
    i := Stored(evs[..j], cat.recorded)[k];
    StoredIsInserted(cat, db, evs[..j], k);
    assert evs[..j][..i] == evs[..i];
    EndsNow(evs, i, j);
  }

  lemma {:induction false} EndsNow(evs: seq<Change>, i: nat, j: nat)
    requires i < j < |evs| && Ongoing(evs[..j], i) && evs[i].code == evs[j].code && !evs[j].on
    ensures EndTs(evs[..j + 1], i) == evs[j].ts
  {
    assert evs[..j + 1] == evs[..j] + [evs[j]];
    EndTsNext(evs[..j], evs[j], i);
  }

  /** No id is cleared twice. */
  lemma ClearedAtMostOnce(cat: Catalog, db: Db, evs: seq<Change>, j: nat, l: nat)
    requires Timed(evs) && j < l < |evs| && CallAt(cat, db, evs, j).ById?
    ensures CallAt(cat, db, evs, l) != CallAt(cat, db, evs, j)
  {
    var k := ClearedIsStored(cat, db, evs[..j], evs[j]);
    ActivationOver(evs, cat.recorded, j, l, k);
    if CallAt(cat, db, evs, l).ById? {
      var m := ClearedIsStored(cat, db, evs[..l], evs[l]);
      assert m != k;
    }
  }

  /** The activation stored as number k and ended by report j is not in progress later. */
  lemma {:induction false} ActivationOver(evs: seq<Change>, recorded: set<U16>, j: nat, l: nat, k: nat)
    requires Timed(evs) && j < l < |evs| && k < |Stored(evs[..j], recorded)|
    requires var i := Stored(evs[..j], recorded)[k];
             Ongoing(evs[..j], i) && evs[i].code == evs[j].code && !evs[j].on
    ensures k < |Stored(evs[..l], recorded)| && !Ongoing(evs[..l], Stored(evs[..l], recorded)[k])
  {
    var i := Stored(evs[..j], recorded)[k];
    SameStored(evs, recorded, j, l, k);
    EndsNow(evs, i, j);
    NotOngoingAfter(evs, i, j, l);
  }

  lemma {:induction false} SameStored(evs: seq<Change>, recorded: set<U16>, j: nat, l: nat, k: nat)
    requires j <= l <= |evs| && k < |Stored(evs[..j], recorded)|
    ensures k < |Stored(evs[..l], recorded)| && Stored(evs[..l], recorded)[k] == Stored(evs[..j], recorded)[k]
  {
    assert evs[..l][..j] == evs[..j];
    StoredPrefix(evs[..l], recorded, j);
  }

  lemma {:induction false} NotOngoingAfter(evs: seq<Change>, i: nat, j: nat, l: nat)
    requires Timed(evs) && i < j < l <= |evs| && EndTs(evs[..j + 1], i) != 0
    ensures !Ongoing(evs[..l], i)
  {
    assert evs[..l][..j + 1] == evs[..j + 1];
    if Ongoing(evs[..l], i) {
      EndTsStill(evs[..l], i, j + 1);
    }
  }

  // ---- The rows --------------------------------------------------------------------------

  lemma ClearOne(base: seq<Row>, rows: seq<Row>, code: U16, ts: nat, first: nat, m: nat)
    requires forall k :: 0 <= k < |rows| ==> (OpenFor(rows[k], code) <==> k == m)
    requires forall k :: 0 <= k < |rows| ==> rows[k].id == first + k
    requires forall i :: 0 <= i < |base| ==> base[i].id < first
    ensures ClearById(base + rows, first + m, ts) == base + CloseAll(rows, code, ts)
  {
    var cleared := ClearById(base + rows, first + m, ts);
    forall k | 0 <= k < |rows|
      ensures cleared[|base| + k] == CloseAll(rows, code, ts)[k]
    {
      assert (base + rows)[|base| + k] == rows[k];
    }
    assert cleared == cleared[..|base|] + cleared[|base|..];
  }

  /** Clearing by the mapped id closes the open row of the code, and no other. */
  lemma {:induction false} ClearMapped(base: seq<Row>, rows: seq<Row>, ids: map<U16, nat>, code: U16, ts: nat,
                                       first: nat)
    requires IdsMatch(ids, rows, first) && code in ids
    requires forall k :: 0 <= k < |rows| ==> rows[k].id == first + k
    requires forall i :: 0 <= i < |base| ==> base[i].id < first
    ensures ClearById(base + rows, ids[code], ts) == base + CloseAll(rows, code, ts)
  {
    var m := ids[code] - first;
    assert OpenAt(rows, m, code);
    forall k | 0 <= k < |rows|
      ensures OpenFor(rows[k], code) <==> k == m
    {}
    ClearOne(base, rows, code, ts, first, m);
  }

  /** With no mapped id, no row of the code is open, and clearing by code does nothing. */
  lemma {:induction false} ClearUnmapped(base: seq<Row>, rows: seq<Row>, ids: map<U16, nat>, code: U16, ts: nat,
                                         first: nat)
    requires IdsMatch(ids, rows, first) && code !in ids
    requires forall i :: 0 <= i < |base| ==> base[i].clearMs != 0
    ensures ClearByCode(base + rows, code, ts) == base + CloseAll(rows, code, ts)
  {
    assert forall k :: 0 <= k < |rows| ==> !OpenFor(rows[k], code);
    ClearByCodeIdle(base + rows, code, ts);
    assert CloseAll(rows, code, ts) == rows;
  }

  lemma StepRows(cat: Catalog, w: World, e: Change)
    requires w.bound
    ensures SetActive(cat, w, e).db.rows ==
            if e.code !in cat.recorded then w.db.rows
            else if Rises(w, e) then
              (if e.insertOk then w.db.rows + [Row(w.db.lastId + 1, e.code, e.ts, 0, w.center.nextSeq, 1)]
               else w.db.rows)
            else if !Falls(w, e) || !e.updateOk then w.db.rows
            else if e.code in w.center.rowIds && w.center.rowIds[e.code] > 0 then
              ClearById(w.db.rows, w.center.rowIds[e.code], e.ts)
            else ClearByCode(w.db.rows, e.code, e.ts)
  {}

  /** The rows after the statement that clears a code. */
  function ClearedRows(rows: seq<Row>, ids: map<U16, nat>, e: Change): seq<Row> {
    if !e.updateOk then rows
    else if e.code in ids then ClearById(rows, ids[e.code], e.ts)
    else ClearByCode(rows, e.code, e.ts)
  }

  lemma StepEnd(cat: Catalog, w: World, e: Change)
    requires w.bound && Falls(w, e) && e.code in cat.recorded
    requires e.code in w.center.rowIds ==> w.center.rowIds[e.code] > 0
    ensures SetActive(cat, w, e).db.rows == ClearedRows(w.db.rows, w.center.rowIds, e)
    ensures CallOf(cat, w, e).ById? <==> e.code in w.center.rowIds
  {
    StepRows(cat, w, e);
  }

  lemma MappedPositive(ids: map<U16, nat>, rows: seq<Row>, first: nat, code: U16)
    requires IdsMatch(ids, rows, first) && first > 0
    ensures code in ids ==> ids[code] > 0
  {}

  lemma {:induction false} ClosesIffMapped(base: seq<Row>, rows: seq<Row>, ids: map<U16, nat>, code: U16, ts: nat,
                                           first: nat)
    requires IdsMatch(ids, rows, first) && ts > 0
    ensures base + CloseAll(rows, code, ts) == base + rows <==> code !in ids
  {
    var after := CloseAll(rows, code, ts);
    if code in ids {
      var m := ids[code] - first;
      assert OpenAt(rows, m, code);
      assert after[m].clearMs != rows[m].clearMs;
      assert (base + after)[|base| + m] != (base + rows)[|base| + m];
    } else {
      assert after == rows;
    }
  }

  /** The clearing statement closes the code's open row, exactly unless it is by id and fails. */
  lemma ClearsIff(db: Db, book: seq<Row>, ids: map<U16, nat>, e: Change)
    requires Settled(db) && IdsMatch(ids, book, db.lastId + 1) && e.ts > 0
    requires forall k :: 0 <= k < |book| ==> book[k].id == db.lastId + 1 + k
    ensures ClearedRows(db.rows + book, ids, e) == db.rows + CloseAll(book, e.code, e.ts) <==>
            (e.code in ids ==> e.updateOk)
  {
    var first := db.lastId + 1;
    assert forall i :: 0 <= i < |db.rows| ==> db.rows[i] in db.rows;
    if !e.updateOk {
      ClosesIffMapped(db.rows, book, ids, e.code, e.ts, first);
    } else if e.code in ids {
      ClearMapped(db.rows, book, ids, e.code, e.ts, first);
    } else {
      ClearUnmapped(db.rows, book, ids, e.code, e.ts, first);
    }
  }

  /** The database holds the rows it had and those of the book. */
  predicate Kept(w: World, db: Db, book: seq<Row>) {
    w.db.rows == db.rows + book
  }

  /** A report keeps the rows right exactly when it is not a clear by id that fails. */
  lemma KeptStep(cat: Catalog, db: Db, w: World, book: seq<Row>, e: Change)
    requires Settled(db) && BookSound(w, book, cat.recorded, db.lastId) && Kept(w, db, book) && e.ts > 0
    ensures Kept(SetActive(cat, w, e), db, Booked(book, w, cat.recorded, e)) <==>
            (CallOf(cat, w, e).ById? ==> e.updateOk)
  {
    if Falls(w, e) && e.code in cat.recorded {
      MappedPositive(w.center.rowIds, book, db.lastId + 1, e.code);
      StepEnd(cat, w, e);
      ClearsIff(db, book, w.center.rowIds, e);
    } else {
      KeptOther(cat, db, w, book, e);
    }
  }

  lemma KeptOther(cat: Catalog, db: Db, w: World, book: seq<Row>, e: Change)
    requires BookSound(w, book, cat.recorded, db.lastId) && Kept(w, db, book)
    requires !(Falls(w, e) && e.code in cat.recorded)
    ensures Kept(SetActive(cat, w, e), db, Booked(book, w, cat.recorded, e))
  {
    OtherRows(cat, w, e);
    KeptRows(db.rows, book, w, e, cat.recorded, SetActive(cat, w, e).db.rows);
  }

  /** The rows after a report that ends no recorded activation. */
  lemma OtherRows(cat: Catalog, w: World, e: Change)
    requires w.bound && !(Falls(w, e) && e.code in cat.recorded)
    ensures SetActive(cat, w, e).db.rows ==
            if StoresIn(w, cat.recorded, e) then w.db.rows + [RowFor(w, e)] else w.db.rows
  {
    StepRows(cat, w, e);
  }

  lemma KeptRows(base: seq<Row>, book: seq<Row>, w: World, e: Change, recorded: set<U16>, now: seq<Row>)
    requires !(Falls(w, e) && e.code in recorded) && w.db.rows == base + book
    requires forall k :: 0 <= k < |book| && book[k].clearMs == 0 ==> book[k].code in recorded
    requires now == if StoresIn(w, recorded, e) then w.db.rows + [RowFor(w, e)] else w.db.rows
    ensures now == base + Booked(book, w, recorded, e)
  {
    if StoresIn(w, recorded, e) {
      Reassociate(base, book, RowFor(w, e));
    } else if Falls(w, e) {
      assert CloseAll(book, e.code, e.ts) == book;
    }
  }

  lemma Reassociate(a: seq<Row>, b: seq<Row>, r: Row)
    ensures a + (b + [r]) == a + b + [r]
  {}

  /** All along the run the rows are those there were, and one per stored activation with its own
      begin and end times. */
  predicate AlwaysMatch(cat: Catalog, db: Db, evs: seq<Change>) {
    && After(cat, Fresh(true, db), evs).db.rows == db.rows + Expected(evs, cat.recorded, db.lastId + 1)
    && (|evs| == 0 || AlwaysMatch(cat, db, evs[..|evs| - 1]))
  }

  /** All along the run, no clear by id fails. */
  predicate ClearsByIdSucceed(cat: Catalog, db: Db, evs: seq<Change>) {
    |evs| == 0 ||
    var n := |evs| - 1;
    ClearsByIdSucceed(cat, db, evs[..n]) && (CallAt(cat, db, evs, n).ById? ==> evs[n].updateOk)
  }

  /** All along a run the rows are right exactly when no clear by id fails; failing inserts, and
      failing clears by code, do no harm. */
  lemma {:induction false} RowsAreActivations(cat: Catalog, db: Db, evs: seq<Change>)
    requires Timed(evs) && Settled(db)
    ensures AlwaysMatch(cat, db, evs) <==> ClearsByIdSucceed(cat, db, evs)
  {
    BookIsExpected(cat, db, evs);
    if |evs| > 0 {
      var n := |evs| - 1;
      var w, book := After(cat, Fresh(true, db), evs[..n]), Book(cat, db, evs[..n]);
      RowsAreActivations(cat, db, evs[..n]);
      if AlwaysMatch(cat, db, evs[..n]) {
        BookIsExpected(cat, db, evs[..n]);
        BookRun(cat, db, evs[..n]);
        KeptStep(cat, db, w, book, evs[n]);
      }
    }
  }

  // ---- Newest first ----------------------------------------------------------------------

  /** Ids grow along the table, up to the last one given out. */
  predicate InIdOrder(db: Db) {
    IdOrder(db.rows) && forall i :: 0 <= i < |db.rows| ==> db.rows[i].id <= db.lastId
  }

  lemma OrderStep(cat: Catalog, w: World, e: Change)
    requires InIdOrder(w.db)
    ensures InIdOrder(SetActive(cat, w, e).db)
  {
    StaysCleared(w.db.rows, e.code, e.ts);
  }

  /** After every run, whatever statements fail, the list the history pages are cut from holds
      exactly the cleared rows, each once, the one inserted last first. */
  lemma {:induction false} ListIsNewestFirst(cat: Catalog, w: World, evs: seq<Change>)
    requires InIdOrder(w.db)
    ensures var rows := After(cat, w, evs).db.rows;
            var list := ClearedNewestFirst(rows);
            && InIdOrder(After(cat, w, evs).db)
            && (forall r :: r in list <==> r in rows && r.clearMs != 0)
            && forall i, j :: 0 <= i < j < |list| ==> list[i].id > list[j].id
  {
    if |evs| > 0 {
      ListIsNewestFirst(cat, w, evs[..|evs| - 1]);
      OrderStep(cat, After(cat, w, evs[..|evs| - 1]), evs[|evs| - 1]);
    }
    ClearedExact(After(cat, w, evs).db.rows);
  }

  // ---- What such a failure leads to ------------------------------------------------------

  /** A table with one row, and a centre that has or has not its id. */
  predicate OneRow(w: World, code: U16, row: Row, active: bool, mapped: bool) {
    && w.bound && w.db.rows == [row] && (code in w.center.active <==> active)
    && (code in w.center.rowIds <==> mapped)
  }

  lemma ClearFails(cat: Catalog, w: World, e: Change, row: Row)
    requires OneRow(w, e.code, row, true, true) && !e.on && !e.updateOk
    ensures OneRow(SetActive(cat, w, e), e.code, row, false, false)
  {
    StepRows(cat, w, e);
    StepIds(cat, w, e);
    StepActive(cat, w, e);
  }

  lemma InsertFails(cat: Catalog, w: World, e: Change, row: Row)
    requires OneRow(w, e.code, row, false, false) && e.on && !e.insertOk
    ensures OneRow(SetActive(cat, w, e), e.code, row, true, false)
  {
    StepRows(cat, w, e);
    StepIds(cat, w, e);
    StepActive(cat, w, e);
  }

  lemma ClearsStale(cat: Catalog, w: World, e: Change, row: Row)
    requires OneRow(w, e.code, row, true, false) && !e.on && e.updateOk && e.code in cat.recorded
    requires OpenFor(row, e.code)
    ensures SetActive(cat, w, e).db.rows == [CloseRow(row, e.ts)]
  {
    StepRows(cat, w, e);
    assert [row][..0] == [];
  }

  lemma FirstStored(cat: Catalog, db: Db, e: Change)
    requires e.on && e.insertOk && e.code in cat.recorded && db.rows == []
    ensures OneRow(SetActive(cat, Fresh(true, db), e), e.code, RowFor(Fresh(true, db), e), true, true)
  {
    var w := Fresh(true, db);
    StepRows(cat, w, e);
    StepIds(cat, w, e);
    StepActive(cat, w, e);
  }

  /** A clear that fails leaves the row open without an id, and a later clear of the code, by code
      because its own insert failed, dates the stale row with the end of another activation. */
  lemma {:induction false} FailedClearMisdatesRow(cat: Catalog, code: U16, at: seq<nat>)
    requires code in cat.recorded && |at| == 4 && at[1] > 0
    ensures var evs := [Change(code, true, at[0], true, true), Change(code, false, at[1], true, false),
                        Change(code, true, at[2], false, true), Change(code, false, at[3], true, true)];
            && After(cat, Fresh(true, EMPTY_DB), evs).db.rows == [Row(1, code, at[0], at[3], 1, 0)]
            && EndTs(evs, 0) == at[1]
  {
    var e0, e1 := Change(code, true, at[0], true, true), Change(code, false, at[1], true, false);
    var e2, e3 := Change(code, true, at[2], false, true), Change(code, false, at[3], true, true);
    var w := Fresh(true, EMPTY_DB);
    var row := RowFor(w, e0);
    FirstStored(cat, EMPTY_DB, e0);
    ClearFails(cat, SetActive(cat, w, e0), e1, row);
    InsertFails(cat, SetActive(cat, SetActive(cat, w, e0), e1), e2, row);
    ClearsStale(cat, SetActive(cat, SetActive(cat, SetActive(cat, w, e0), e1), e2), e3, row);
    FourReports(cat, w, e0, e1, e2, e3);
    FirstEnds(e0, e1, e2, e3);
  }

  lemma {:induction false} FourReports(cat: Catalog, w: World, a: Change, b: Change, c: Change, d: Change)
    ensures After(cat, w, [a, b, c, d]) == SetActive(cat, SetActive(cat, SetActive(cat, SetActive(cat, w, a), b), c), d)
  {
    AfterNext(cat, w, [], a);
    AfterNext(cat, w, [a], b);
    AfterNext(cat, w, [a, b], c);
    AfterNext(cat, w, [a, b, c], d);
    assert [] + [a] == [a] && [a] + [b] == [a, b];
    assert [a, b] + [c] == [a, b, c] && [a, b, c] + [d] == [a, b, c, d];
  }

  lemma FirstEnds(a: Change, b: Change, c: Change, d: Change)
    requires b.code == a.code && !b.on && b.ts > 0
    ensures EndTs([a, b, c, d], 0) == b.ts
  {
    EndTsNext([a], b, 0);
    EndTsNext([a, b], c, 0);
    EndTsNext([a, b, c], d, 0);
    assert [a] + [b] == [a, b];
    assert [a, b] + [c] == [a, b, c] && [a, b, c] + [d] == [a, b, c, d];
  }
}
