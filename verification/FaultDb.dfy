/**
 * The fault history table (services/snapshot/sqlite/sqlite_fault_sink/sqlite_fault_sink.cpp) as
 * its callers see it: rows in id order, ids that are never reused, and the newest-first list of
 * cleared rows that the history pages are cut from.
 */
module FaultDb {
  import opened Words

  /** FaultHistoryDbRecord, without the catalog texts copied into it. */
  datatype Row = Row(id: nat, code: nat, firstOnMs: nat, clearMs: nat, seqNo: nat, state: nat)

  datatype Db = Db(rows: seq<Row>, lastId: nat)

  const EMPTY_DB := Db([], 0)

  function Insert(db: Db, code: nat, onMs: nat, seqNo: nat): Db {
    Db(db.rows + [Row(db.lastId + 1, code, onMs, 0, seqNo, 1)], db.lastId + 1)
  }

  /** UPDATE ... WHERE id = ?. */
  function ClearById(rows: seq<Row>, id: nat, ts: nat): (r: seq<Row>)
    ensures |r| == |rows|
    ensures forall i :: 0 <= i < |rows| ==>
              r[i] == if rows[i].id == id then rows[i].(clearMs := ts, state := 0) else rows[i]
  {
    if |rows| == 0 then []
    else
      var n := |rows| - 1;
      ClearById(rows[..n], id, ts) +
      [if rows[n].id == id then rows[n].(clearMs := ts, state := 0) else rows[n]]
  }

  predicate OpenFor(r: Row, code: nat) {
    r.code == code && r.clearMs == 0
  }

  /** The newest row of a code that is still open is cleared, if there is one. */
  function ClearByCode(rows: seq<Row>, code: nat, ts: nat): seq<Row> {
    if |rows| == 0 then []
    else
      var n := |rows| - 1;
      if OpenFor(rows[n], code) then rows[..n] + [rows[n].(clearMs := ts, state := 0)]
      else ClearByCode(rows[..n], code, ts) + [rows[n]]
  }

  lemma {:induction false} ClearByCodeIdle(rows: seq<Row>, code: nat, ts: nat)
    requires forall r :: r in rows && r.code == code ==> r.clearMs != 0
    ensures ClearByCode(rows, code, ts) == rows
  {
    if |rows| > 0 {
      ClearByCodeIdle(rows[..|rows| - 1], code, ts);
      assert rows[|rows| - 1] in rows;
    }
  }

  /** Clearing a code dates its newest open row, and no other. */
  lemma {:induction false} ClearByCodeExact(rows: seq<Row>, code: nat, ts: nat, k: nat)
    requires k < |rows| && rows[k].code == code && rows[k].clearMs == 0
    requires forall i :: k < i < |rows| && rows[i].code == code ==> rows[i].clearMs != 0
    ensures var r := rows[k];
            ClearByCode(rows, code, ts) == rows[k := Row(r.id, code, r.firstOnMs, ts, r.seqNo, 0)]
  {
    var n := |rows| - 1;
    if k < n {
      ClearByCodeExact(rows[..n], code, ts, k);
    }
  }

  /** SELECT ... WHERE clear_ms != 0 ORDER BY id DESC. */
  function ClearedNewestFirst(rows: seq<Row>): seq<Row> {
    if |rows| == 0 then []
    else
      var last, rest := rows[|rows| - 1], ClearedNewestFirst(rows[..|rows| - 1]);
      if last.clearMs != 0 then [last] + rest else rest
  }

  /** Ids grow along the table. */
  predicate IdOrder(rows: seq<Row>) {
    forall i, j :: 0 <= i < j < |rows| ==> rows[i].id < rows[j].id
  }

  /** The list holds exactly the cleared rows, and from a table in id order each once, the highest
      id first. */
  lemma {:induction false} ClearedExact(rows: seq<Row>)
    ensures |ClearedNewestFirst(rows)| <= |rows|
    ensures forall r :: r in ClearedNewestFirst(rows) <==> r in rows && r.clearMs != 0
    ensures var list := ClearedNewestFirst(rows);
            IdOrder(rows) ==> forall i, j :: 0 <= i < j < |list| ==> list[i].id > list[j].id
  {
    if |rows| > 0 {
      var n := |rows| - 1;
      ClearedExact(rows[..n]);
      assert forall r :: r in rows <==> r in rows[..n] || r == rows[n];
    }
  }

  /** Rows that stay cleared keep the list from shrinking. */
  lemma {:induction false} ClearedGrows(rows: seq<Row>, now: seq<Row>)
    requires |rows| <= |now| && forall i :: 0 <= i < |rows| && rows[i].clearMs != 0 ==> now[i].clearMs != 0
    ensures |ClearedNewestFirst(rows)| <= |ClearedNewestFirst(now)|
  {
    if |now| > 0 {
      var n := |now| - 1;
      ClearedGrows(if |rows| == |now| then rows[..n] else rows, now[..n]);
    }
  }

  /** Clearing a code keeps every row with its id, and clears nothing that was cleared. */
  lemma {:induction false} StaysCleared(rows: seq<Row>, code: nat, ts: nat)
    ensures |ClearByCode(rows, code, ts)| == |rows|
    ensures forall i :: 0 <= i < |rows| ==> ClearByCode(rows, code, ts)[i].id == rows[i].id
    ensures forall i :: 0 <= i < |rows| && rows[i].clearMs != 0 ==> ClearByCode(rows, code, ts)[i] == rows[i]
  {
    if |rows| > 0 {
      StaysCleared(rows[..|rows| - 1], code, ts);
    }
  }

  // ---- Queries ---------------------------------------------------------------------------

  /** static_cast<int> of an unsigned 32-bit value. */
  function AsInt32(x: nat): int {
    if x % TWO32 < TWO31 then x % TWO32 else x % TWO32 - TWO32
  }

  /** SQLite reads a negative OFFSET as 0 and a negative LIMIT as none. */
  function LimitOffset(view: seq<Row>, limit: int, offset: int): seq<Row> {
    var o := if offset < 0 then 0 else if offset > |view| then |view| else offset;
    var n := if limit < 0 || limit > |view| - o then |view| - o else limit;
    view[o..o + n]
  }

  function CountRows(view: seq<Row>): nat {
    |view| % TWO32
  }

  function LoadLatest(view: seq<Row>, limit: nat): seq<Row> {
    LimitOffset(view, AsInt32(limit), 0)
  }

  function LoadRange(view: seq<Row>, offset: nat, limit: nat): seq<Row> {
    if limit == 0 then [] else LimitOffset(view, AsInt32(limit), AsInt32(offset))
  }
}
