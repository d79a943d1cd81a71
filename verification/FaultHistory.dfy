/**
 * What the fault centre's log, maps and database rows mean, over every run from an empty centre:
 * each record is one activation with its begin and end times, and the activations in progress
 * are exactly the open ones for as long as the bound on the log allows.
 */
module FaultHistory {
  import opened Words
  import opened Activations
  import opened FaultDb
  import opened FaultCenterModel
  import opened Sorting

  function Fresh(bound: bool, db: Db): World {
    World(EMPTY_CENTER, bound, db)
  }

  lemma {:induction false} AfterNext(cat: Catalog, w: World, evs: seq<Change>, e: Change)
    ensures After(cat, w, evs + [e]) == SetActive(cat, After(cat, w, evs), e)
  {
    assert (evs + [e])[..|evs|] == evs;
  }

  predicate Rises(w: World, e: Change) {
    e.on && e.code !in w.center.active
  }

  predicate Falls(w: World, e: Change) {
    !e.on && e.code in w.center.active
  }

  // ---- One step, part by part ------------------------------------------------------------

  lemma StepActive(cat: Catalog, w: World, e: Change)
    ensures var v := SetActive(cat, w, e);
            && v.center.active == (if e.on then w.center.active + {e.code} else w.center.active - {e.code})
            && v.bound == w.bound
  {}

  lemma StepBegin(cat: Catalog, w: World, e: Change)
    ensures SetActive(cat, w, e).center.begin ==
            if Rises(w, e) then w.center.begin[e.code := e.ts]
            else if Falls(w, e) then w.center.begin - {e.code}
            else w.center.begin
  {}

  function NewRecord(w: World, e: Change): Hist {
    Hist(e.code, e.ts, 0, w.center.nextSeq, 1)
  }

  lemma StepHistory(cat: Catalog, w: World, e: Change)
    ensures var v := SetActive(cat, w, e).center;
            if Rises(w, e) && e.code in cat.recorded then
              && v.history == Trim(w.center.history + [NewRecord(w, e)])
              && v.nextSeq == (w.center.nextSeq + 1) % 0x1_0000
            else
              && v.nextSeq == w.center.nextSeq
              && v.history == if Falls(w, e) && e.code in cat.recorded
                              then CloseLast(w.center.history, e.code, e.ts) else w.center.history
  {}

  // ---- The active codes and their begin times --------------------------------------------

  lemma {:induction false} ActiveIsLastReport(cat: Catalog, bound: bool, db: Db, evs: seq<Change>, c: U16)
    ensures c in After(cat, Fresh(bound, db), evs).center.active <==> LastOn(evs, c)
  {
    if |evs| > 0 {
      var n := |evs| - 1;
      ActiveIsLastReport(cat, bound, db, evs[..n], c);
      StepActive(cat, After(cat, Fresh(bound, db), evs[..n]), evs[n]);
    }
  }

  /** The begin-time map has exactly the active codes as keys and holds the time at which each
      one's activation in progress began. */
  lemma {:induction false} BeginTimes(cat: Catalog, bound: bool, db: Db, evs: seq<Change>)
    requires Timed(evs)
    ensures var c := After(cat, Fresh(bound, db), evs).center;
            && c.begin.Keys == c.active
            && forall i :: 0 <= i < |evs| && Ongoing(evs, i) ==>
                 evs[i].code in c.begin && c.begin[evs[i].code] == evs[i].ts
  {
    if |evs| > 0 {
      var n := |evs| - 1;
      var pre, e := evs[..n], evs[n];
      assert evs == pre + [e];
      var w := After(cat, Fresh(bound, db), pre);
      BeginTimes(cat, bound, db, pre);
      StepActive(cat, w, e);
      StepBegin(cat, w, e);
      ActiveIsLastReport(cat, bound, db, pre, e.code);
      var c := SetActive(cat, w, e).center;
      forall i | 0 <= i < |evs| && Ongoing(evs, i)
        ensures evs[i].code in c.begin && c.begin[evs[i].code] == evs[i].ts
      {
        BeginsNow(pre, e);
        if i < n {
          OngoingBefore(pre, e, i);
        }
      }
    }
  }

  /** An activation in progress was in progress before, and the report does not touch its code. */
  lemma {:induction false} OngoingBefore(pre: seq<Change>, e: Change, i: nat)
    requires i < |pre| && Ongoing(pre + [e], i) && Timed(pre + [e])
    ensures Ongoing(pre, i)
    ensures e.code == pre[i].code ==> e.on && LastOn(pre, e.code)
  {
    BeginsBefore(pre, e, i);
    EndTsNext(pre, e, i);
    assert (pre + [e])[|pre|].ts > 0;
    assert Timed(pre) by {
      assert forall k :: 0 <= k < |pre| ==> pre[k] == (pre + [e])[k];
    }
    OngoingIsOn(pre, i);
  }

  // ---- The log ---------------------------------------------------------------------------

  /** Records are numbered from 1 in 16 bits, wrapping through 0. */
  function Number(n: nat): U16 {
    (1 + n) % 0x1_0000
  }

  lemma NumberNext(n: nat)
    ensures Number(n + 1) == (Number(n) + 1) % 0x1_0000
  {}

  /** The record that report i's activation should have by now. */
  function RecordOf(evs: seq<Change>, recorded: set<U16>, i: nat): Hist
    requires i < |evs|
  {
    Hist(evs[i].code, evs[i].ts, EndTs(evs, i), Number(Onsets(evs[..i], recorded)),
         if EndTs(evs, i) == 0 then 1 else 0)
  }

  predicate RecordedOnset(evs: seq<Change>, recorded: set<U16>, i: nat) {
    Begins(evs, i) && evs[i].code in recorded
  }

  /** The log holds the records of the activations begun at the kept reports, oldest first. */
  predicate Describes(h: seq<Hist>, evs: seq<Change>, recorded: set<U16>, kept: seq<nat>) {
    && |h| == |kept|
    && (forall k :: 0 <= k < |kept| ==>
          kept[k] < |evs| && RecordedOnset(evs, recorded, kept[k]) && h[k] == RecordOf(evs, recorded, kept[k]))
    && (forall k, l :: 0 <= k < l < |kept| ==> kept[k] < kept[l])
  }

  lemma {:induction false} NumberAfter(cat: Catalog, bound: bool, db: Db, pre: seq<Change>, e: Change)
    ensures var n := After(cat, Fresh(bound, db), pre).center.nextSeq;
            After(cat, Fresh(bound, db), pre + [e]).center.nextSeq ==
            if e.on && !LastOn(pre, e.code) && e.code in cat.recorded then (n + 1) % 0x1_0000 else n
  {
    AfterNext(cat, Fresh(bound, db), pre, e);
    ActiveIsLastReport(cat, bound, db, pre, e.code);
    StepHistory(cat, After(cat, Fresh(bound, db), pre), e);
  }

  lemma {:induction false} NumbersRun(cat: Catalog, bound: bool, db: Db, evs: seq<Change>)
    ensures After(cat, Fresh(bound, db), evs).center.nextSeq == Number(Onsets(evs, cat.recorded))
  {
    if |evs| > 0 {
      var n := |evs| - 1;
      NumbersRun(cat, bound, db, evs[..n]);
      NumberAfter(cat, bound, db, evs[..n], evs[n]);
      NumberNext(Onsets(evs[..n], cat.recorded));
      OnsetsNext(evs[..n], evs[n], cat.recorded);
      assert evs == evs[..n] + [evs[n]];
    }
  }

  /** Only a report that ends an activation changes its record. */
  lemma RecordNext(evs: seq<Change>, e: Change, recorded: set<U16>, i: nat)
    requires i < |evs|
    ensures var r := RecordOf(evs, recorded, i);
            RecordOf(evs + [e], recorded, i) ==
            if Open(r) && e.code == evs[i].code && !e.on && e.ts > 0
            then r.(clearMs := e.ts, state := 0) else r
  {
    EndTsNext(evs, e, i);
    assert (evs + [e])[..i] == evs[..i];
  }

  lemma {:induction false} DescribesMore(h: seq<Hist>, evs: seq<Change>, e: Change, recorded: set<U16>, kept: seq<nat>)
    requires Describes(h, evs, recorded, kept) && Timed(evs)
    requires e.on || !LastOn(evs, e.code) || e.code !in recorded
    ensures Describes(h, evs + [e], recorded, kept)
  {
    forall k | 0 <= k < |kept|
      ensures kept[k] < |evs + [e]| && RecordedOnset(evs + [e], recorded, kept[k])
      ensures h[k] == RecordOf(evs + [e], recorded, kept[k])
    {
      BeginsBefore(evs, e, kept[k]);
      RecordNext(evs, e, recorded, kept[k]);
      if Ongoing(evs, kept[k]) {
        OngoingIsOn(evs, kept[k]);
      }
    }
  }

  /** Where at most one record is open for the code, closing the newest open one closes it. */
  lemma {:induction false} CloseLastAt(h: seq<Hist>, code: U16, ts: nat, k: nat)
    requires k < |h|
    requires forall i, j :: 0 <= i < j < |h| && OpenRecordOf(h[i], code) ==> !OpenRecordOf(h[j], code)
    ensures CloseLast(h, code, ts)[k] ==
            if OpenRecordOf(h[k], code) then h[k].(clearMs := ts, state := 0) else h[k]
  {
    var n := |h| - 1;
    if !OpenRecordOf(h[n], code) && k < n {
      CloseLastAt(h[..n], code, ts, k);
    }
  }

  lemma {:induction false} DescribesClose(h: seq<Hist>, evs: seq<Change>, e: Change, recorded: set<U16>, kept: seq<nat>)
    requires Describes(h, evs, recorded, kept) && Timed(evs) && !e.on && e.ts > 0
    ensures Describes(CloseLast(h, e.code, e.ts), evs + [e], recorded, kept)
  {
    forall i, j | 0 <= i < j < |h| && OpenRecordOf(h[i], e.code)
      ensures !OpenRecordOf(h[j], e.code)
    {
      if OpenRecordOf(h[j], e.code) {
        OneOngoing(evs, kept[i], kept[j]);
      }
    }
    forall k | 0 <= k < |kept|
      ensures kept[k] < |evs + [e]| && RecordedOnset(evs + [e], recorded, kept[k])
      ensures CloseLast(h, e.code, e.ts)[k] == RecordOf(evs + [e], recorded, kept[k])
    {
      BeginsBefore(evs, e, kept[k]);
      RecordNext(evs, e, recorded, kept[k]);
      CloseLastAt(h, e.code, e.ts, k);
    }
  }

  lemma {:induction false} DescribesBegin(h: seq<Hist>, evs: seq<Change>, e: Change, recorded: set<U16>, kept: seq<nat>)
    requires Describes(h, evs, recorded, kept) && Timed(evs)
    requires e.on && !LastOn(evs, e.code) && e.code in recorded
    ensures Describes(h + [Hist(e.code, e.ts, 0, Number(Onsets(evs, recorded)), 1)],
                      evs + [e], recorded, kept + [|evs|])
  {
    DescribesMore(h, evs, e, recorded, kept);
    BeginsNow(evs, e);
    assert (evs + [e])[..|evs|] == evs;
  }

  lemma {:induction false} TrimOnce(h: seq<Hist>)
    requires |h| == 1001
    ensures Trim(h) == Without(h, Victim(h))
  {}

  /** Trimming keeps the description, and drops an activation in progress only from a log of
      nothing else. */
  lemma DescribesTrim(h: seq<Hist>, evs: seq<Change>, recorded: set<U16>, kept: seq<nat>) returns (rest: seq<nat>)
    requires Describes(h, evs, recorded, kept) && |h| <= 1001
    ensures Describes(Trim(h), evs, recorded, rest)
    ensures (|h| > 1000 && forall k :: 0 <= k < |h| ==> Open(h[k]))
            || forall i :: i in kept && EndTs(evs, i) == 0 ==> i in rest
  {
    rest := kept;
    if |h| > 1000 {
      var v := Victim(h);
      rest := Without(kept, v);
      TrimOnce(h);
      forall i | i in kept && i != kept[v]
        ensures i in rest
      {
        var k :| 0 <= k < |kept| && kept[k] == i;
        assert rest[if k < v then k else k - 1] == i;
      }
      assert h[v] == RecordOf(evs, recorded, kept[v]);
    }
  }

  // ---- How many records can be open ------------------------------------------------------

  function CodesAt(evs: seq<Change>, kept: seq<nat>): set<U16>
    requires forall k :: 0 <= k < |kept| ==> kept[k] < |evs|
  {
    set k | 0 <= k < |kept| :: evs[kept[k]].code
  }

  lemma {:induction false} AtMostOneEach(evs: seq<Change>, kept: seq<nat>)
    requires forall k :: 0 <= k < |kept| ==> kept[k] < |evs|
    ensures |CodesAt(evs, kept)| <= |kept|
  {
    if |kept| > 0 {
      var n := |kept| - 1;
      AtMostOneEach(evs, kept[..n]);
      assert CodesAt(evs, kept) == CodesAt(evs, kept[..n]) + {evs[kept[n]].code};
    }
  }

  lemma NotBefore(evs: seq<Change>, kept: seq<nat>, i: nat)
    requires Timed(evs) && Ongoing(evs, i)
    requires forall k :: 0 <= k < |kept| ==> kept[k] < i && Ongoing(evs, kept[k])
    ensures evs[i].code !in CodesAt(evs, kept)
  {
    forall k | 0 <= k < |kept|
      ensures evs[kept[k]].code != evs[i].code
    {
      OngoingIsFirst(evs, kept[k], i);
    }
  }

  lemma {:induction false} OneEach(evs: seq<Change>, kept: seq<nat>)
    requires Timed(evs) && forall k :: 0 <= k < |kept| ==> kept[k] < |evs| && Ongoing(evs, kept[k])
    requires forall k, l :: 0 <= k < l < |kept| ==> kept[k] < kept[l]
    ensures |CodesAt(evs, kept)| == |kept|
  {
    if |kept| > 0 {
      var n := |kept| - 1;
      OneEach(evs, kept[..n]);
      var code := evs[kept[n]].code;
      NotBefore(evs, kept[..n], kept[n]);
      assert CodesAt(evs, kept) == CodesAt(evs, kept[..n]) + {code};
    }
  }

  function ActiveRecorded(cat: Catalog, bound: bool, db: Db, evs: seq<Change>): set<U16> {
    After(cat, Fresh(bound, db), evs).center.active * cat.recorded
  }

  /** At no point of the run are more recorded codes active than the log has room for. */
  predicate WithinRoom(cat: Catalog, bound: bool, db: Db, evs: seq<Change>) {
    forall k :: 0 <= k <= |evs| ==> |ActiveRecorded(cat, bound, db, evs[..k])| <= 1000
  }

  lemma WithinRoomBefore(cat: Catalog, bound: bool, db: Db, evs: seq<Change>)
    requires |evs| > 0 && WithinRoom(cat, bound, db, evs)
    ensures WithinRoom(cat, bound, db, evs[..|evs| - 1])
    ensures |ActiveRecorded(cat, bound, db, evs)| <= 1000
  {
    var n := |evs| - 1;
    forall k | 0 <= k <= n
      ensures |ActiveRecorded(cat, bound, db, evs[..n][..k])| <= 1000
    {
      assert evs[..n][..k] == evs[..k];
    }
    assert evs[..|evs|] == evs;
  }

  predicate AllKept(evs: seq<Change>, recorded: set<U16>, kept: seq<nat>) {
    forall i :: 0 <= i < |evs| && Ongoing(evs, i) && evs[i].code in recorded ==> i in kept
  }

  /** Room for all: activations all in progress are activations of different active codes. */
  lemma NotAllOpen(cat: Catalog, bound: bool, db: Db, evs: seq<Change>, h: seq<Hist>, kept: seq<nat>)
    requires Timed(evs) && Describes(h, evs, cat.recorded, kept)
    requires forall k :: 0 <= k < |h| ==> Open(h[k])
    ensures |h| <= |ActiveRecorded(cat, bound, db, evs)|
  {
    OneEach(evs, kept);
    var a := ActiveRecorded(cat, bound, db, evs);
    forall c | c in CodesAt(evs, kept)
      ensures c in a
    {
      var k :| 0 <= k < |kept| && evs[kept[k]].code == c;
      OngoingIsOn(evs, kept[k]);
      ActiveIsLastReport(cat, bound, db, evs, c);
    }
    SubsetSize(CodesAt(evs, kept), a);
  }

  // ---- The log over a run ----------------------------------------------------------------

  /** The log of every run describes activations; while there is room, all those in progress. */
  lemma {:induction false} LogDescribes(cat: Catalog, bound: bool, db: Db, evs: seq<Change>) returns (kept: seq<nat>)
    requires Timed(evs)
    ensures var h := After(cat, Fresh(bound, db), evs).center.history;
            Describes(h, evs, cat.recorded, kept) && |h| <= 1000
    ensures WithinRoom(cat, bound, db, evs) ==> AllKept(evs, cat.recorded, kept)
  {
    kept := [];
    if |evs| > 0 {
      var n := |evs| - 1;
      var pre, e := evs[..n], evs[n];
      assert evs == pre + [e];
      kept := LogDescribes(cat, bound, db, pre);
      if WithinRoom(cat, bound, db, evs) {
        WithinRoomBefore(cat, bound, db, evs);
      }
      kept := LogStep(cat, bound, db, pre, e, kept);
    }
  }

  predicate BeginsRecord(pre: seq<Change>, e: Change, recorded: set<U16>) {
    e.on && !LastOn(pre, e.code) && e.code in recorded
  }

  predicate EndsRecord(pre: seq<Change>, e: Change, recorded: set<U16>) {
    !e.on && LastOn(pre, e.code) && e.code in recorded
  }

  function RecordNow(pre: seq<Change>, e: Change, recorded: set<U16>): Hist {
    Hist(e.code, e.ts, 0, Number(Onsets(pre, recorded)), 1)
  }

  function NextLog(h: seq<Hist>, pre: seq<Change>, e: Change, recorded: set<U16>): seq<Hist> {
    if BeginsRecord(pre, e, recorded) then Trim(h + [RecordNow(pre, e, recorded)])
    else if EndsRecord(pre, e, recorded) then CloseLast(h, e.code, e.ts)
    else h
  }

  lemma {:induction false} LogAfter(cat: Catalog, bound: bool, db: Db, pre: seq<Change>, e: Change)
    ensures After(cat, Fresh(bound, db), pre + [e]).center.history ==
            NextLog(After(cat, Fresh(bound, db), pre).center.history, pre, e, cat.recorded)
  {
    AfterNext(cat, Fresh(bound, db), pre, e);
    ActiveIsLastReport(cat, bound, db, pre, e.code);
    NumbersRun(cat, bound, db, pre);
    StepHistory(cat, After(cat, Fresh(bound, db), pre), e);
  }

  lemma LogStep(cat: Catalog, bound: bool, db: Db, pre: seq<Change>, e: Change, kept: seq<nat>)
    returns (next: seq<nat>)
    requires Timed(pre + [e])
    requires var h := After(cat, Fresh(bound, db), pre).center.history;
             Describes(h, pre, cat.recorded, kept) && |h| <= 1000
    ensures var h := After(cat, Fresh(bound, db), pre + [e]).center.history;
            Describes(h, pre + [e], cat.recorded, next) && |h| <= 1000
    ensures |ActiveRecorded(cat, bound, db, pre + [e])| <= 1000 && AllKept(pre, cat.recorded, kept)
            ==> AllKept(pre + [e], cat.recorded, next)
  {
    var h := After(cat, Fresh(bound, db), pre).center.history;
    LogAfter(cat, bound, db, pre, e);
    next := NextKept(h, pre, e, cat.recorded, kept);
    if Overflows(h, pre, e, cat.recorded) {
      NotAllOpen(cat, bound, db, pre + [e], h + [RecordNow(pre, e, cat.recorded)], kept + [|pre|]);
    }
  }

  /** A new record finds no room and nothing closed to give way. */
  predicate Overflows(h: seq<Hist>, pre: seq<Change>, e: Change, recorded: set<U16>) {
    var all := h + [RecordNow(pre, e, recorded)];
    BeginsRecord(pre, e, recorded) && |all| > 1000 && forall k :: 0 <= k < |all| ==> Open(all[k])
  }

  /** The next log, said of logs and reports alone. */
  lemma NextKept(h: seq<Hist>, pre: seq<Change>, e: Change, recorded: set<U16>, kept: seq<nat>)
    returns (next: seq<nat>)
    requires Timed(pre + [e]) && Describes(h, pre, recorded, kept) && |h| <= 1000
    ensures Describes(NextLog(h, pre, e, recorded), pre + [e], recorded, next)
    ensures |NextLog(h, pre, e, recorded)| <= 1000
    ensures AllKept(pre, recorded, kept) ==> AllKept(pre + [e], recorded, next) || Overflows(h, pre, e, recorded)
    ensures BeginsRecord(pre, e, recorded) ==>
              Describes(h + [RecordNow(pre, e, recorded)], pre + [e], recorded, kept + [|pre|])
  {
    assert Timed(pre) by {
      assert forall k :: 0 <= k < |pre| ==> pre[k] == (pre + [e])[k];
    }
    assert e.ts > 0 by { assert (pre + [e])[|pre|].ts > 0; }
    StillKept(pre, e, recorded, kept);
    if BeginsRecord(pre, e, recorded) {
      DescribesBegin(h, pre, e, recorded, kept);
      next := DescribesTrim(h + [RecordNow(pre, e, recorded)], pre + [e], recorded, kept + [|pre|]);
    } else {
      next := kept;
      if EndsRecord(pre, e, recorded) {
        DescribesClose(h, pre, e, recorded, kept);
      } else {
        DescribesMore(h, pre, e, recorded, kept);
      }
    }
  }

  /** The only activation in progress that can be missing after a report is the one it begins. */
  lemma {:induction false} StillKept(pre: seq<Change>, e: Change, recorded: set<U16>, kept: seq<nat>)
    requires Timed(pre + [e])
    ensures AllKept(pre, recorded, kept) ==> AllKept(pre + [e], recorded, kept + [|pre|])
    ensures AllKept(pre, recorded, kept) && !(e.on && !LastOn(pre, e.code) && e.code in recorded) ==>
              AllKept(pre + [e], recorded, kept)
  {
    if AllKept(pre, recorded, kept) {
      forall i | 0 <= i < |pre + [e]| && Ongoing(pre + [e], i) && (pre + [e])[i].code in recorded
        ensures i in kept || (i == |pre| && e.on && !LastOn(pre, e.code) && e.code in recorded)
      {
        BeginsNow(pre, e);
        if i < |pre| {
          OngoingBefore(pre, e, i);
        }
      }
    }
  }

  // ---- What a reader of the log may rely on ----------------------------------------------

  /** Every open record is the one open record of an active recorded code and carries its begin
      time. */
  predicate OpenAreActive(c: Center, recorded: set<U16>) {
    && (forall k :: 0 <= k < |c.history| && Open(c.history[k]) ==>
          var code := c.history[k].code;
          code in c.active && code in recorded && code in c.begin && c.history[k].firstOnMs == c.begin[code])
    && (forall k, l :: 0 <= k < l < |c.history| && Open(c.history[k]) && Open(c.history[l]) ==>
          c.history[k].code != c.history[l].code)
  }

  predicate HasOpen(h: seq<Hist>, code: U16) {
    exists k :: 0 <= k < |h| && OpenRecordOf(h[k], code)
  }

  /** Every active recorded code has its open record. */
  predicate ActiveAreOpen(c: Center, recorded: set<U16>) {
    forall code :: code in c.active && code in recorded ==> HasOpen(c.history, code)
  }

  /** One half of the bijection, and the bound, hold in every run, even past the room. */
  lemma {:induction false} OpenRecordsAreActive(cat: Catalog, bound: bool, db: Db, evs: seq<Change>)
    requires Timed(evs)
    ensures var c := After(cat, Fresh(bound, db), evs).center;
            |c.history| <= 1000 && OpenAreActive(c, cat.recorded)
  {
    var c := After(cat, Fresh(bound, db), evs).center;
    var kept := LogDescribes(cat, bound, db, evs);
    BeginTimes(cat, bound, db, evs);
    forall k, l | 0 <= k < l < |c.history| && Open(c.history[k]) && Open(c.history[l])
      ensures c.history[k].code != c.history[l].code
    {
      OngoingIsFirst(evs, kept[k], kept[l]);
    }
    assert forall k :: 0 <= k < |kept| && Open(c.history[k]) ==> Ongoing(evs, kept[k]);
  }

  lemma {:induction false} KeptIsOpen(cat: Catalog, bound: bool, db: Db, evs: seq<Change>, kept: seq<nat>)
    requires Timed(evs) && AllKept(evs, cat.recorded, kept)
    requires Describes(After(cat, Fresh(bound, db), evs).center.history, evs, cat.recorded, kept)
    ensures ActiveAreOpen(After(cat, Fresh(bound, db), evs).center, cat.recorded)
  {
    var c := After(cat, Fresh(bound, db), evs).center;
    forall code | code in c.active && code in cat.recorded
      ensures HasOpen(c.history, code)
    {
      ActiveIsLastReport(cat, bound, db, evs, code);
      var i := OnIsOngoing(evs, code);
      var k :| 0 <= k < |kept| && kept[k] == i;
      assert OpenRecordOf(c.history[k], code);
    }
  }

  lemma OpenCount(c: Center, recorded: set<U16>)
    requires ActiveAreOpen(c, recorded)
    ensures |c.active * recorded| <= |c.history|
  {
    var codes := Codes(c.history);
    CodesBound(c.history);
    forall code | code in c.active * recorded
      ensures code in codes
    {
      assert HasOpen(c.history, code);
    }
    SubsetSize(c.active * recorded, codes);
  }

  function Codes(h: seq<Hist>): set<U16> {
    set k | 0 <= k < |h| :: h[k].code
  }

  lemma {:induction false} CodesBound(h: seq<Hist>)
    ensures |Codes(h)| <= |h|
  {
    if |h| > 0 {
      var n := |h| - 1;
      CodesBound(h[..n]);
      assert Codes(h) == Codes(h[..n]) + {h[n].code};
    }
  }

  /** The other half holds all along a run exactly when the run never has more recorded codes
      active than the log has room for. */
  lemma {:induction false} OpenBijectionIffRoom(cat: Catalog, bound: bool, db: Db, evs: seq<Change>)
    requires Timed(evs)
    ensures (forall k :: 0 <= k <= |evs| ==>
               ActiveAreOpen(After(cat, Fresh(bound, db), evs[..k]).center, cat.recorded))
            <==> WithinRoom(cat, bound, db, evs)
  {
    if WithinRoom(cat, bound, db, evs) {
      forall k | 0 <= k <= |evs|
        ensures ActiveAreOpen(After(cat, Fresh(bound, db), evs[..k]).center, cat.recorded)
      {
        RoomGivesOpen(cat, bound, db, evs, k);
      }
    }
    if forall k :: 0 <= k <= |evs| ==>
         ActiveAreOpen(After(cat, Fresh(bound, db), evs[..k]).center, cat.recorded)
    {
      forall k | 0 <= k <= |evs|
        ensures |ActiveRecorded(cat, bound, db, evs[..k])| <= 1000
      {
        OpenGivesRoom(cat, bound, db, evs[..k]);
      }
    }
  }

  lemma {:induction false} RoomGivesOpen(cat: Catalog, bound: bool, db: Db, evs: seq<Change>, k: nat)
    requires Timed(evs) && k <= |evs| && WithinRoom(cat, bound, db, evs)
    ensures ActiveAreOpen(After(cat, Fresh(bound, db), evs[..k]).center, cat.recorded)
  {
    assert forall l :: 0 <= l <= k ==> evs[..k][..l] == evs[..l];
    var kept := LogDescribes(cat, bound, db, evs[..k]);
    KeptIsOpen(cat, bound, db, evs[..k], kept);
  }

  lemma {:induction false} OpenGivesRoom(cat: Catalog, bound: bool, db: Db, evs: seq<Change>)
    requires Timed(evs) && ActiveAreOpen(After(cat, Fresh(bound, db), evs).center, cat.recorded)
    ensures |ActiveRecorded(cat, bound, db, evs)| <= 1000
  {
    OpenCount(After(cat, Fresh(bound, db), evs).center, cat.recorded);
    OpenRecordsAreActive(cat, bound, db, evs);
  }

  // ---- Past the room ---------------------------------------------------------------------

  /** The codes below n are reported on, one after the other. */
  function Raises(n: nat): (evs: seq<Change>)
    requires n <= 0x1_0000
    ensures |evs| == n
  {
    if n == 0 then [] else Raises(n - 1) + [Change(n - 1, true, 1, true, true)]
  }

  lemma {:induction false} RaisesLast(n: nat, c: U16)
    requires n <= 0x1_0000
    ensures LastOn(Raises(n), c) <==> c < n
    ensures Timed(Raises(n))
  {
    if n > 0 {
      RaisesLast(n - 1, c);
      assert Raises(n)[..n - 1] == Raises(n - 1);
    }
  }

  function FirstCodes(n: nat): (s: set<U16>)
    requires n <= 0x1_0000
    ensures |s| == n && forall c :: c in s <==> 0 <= c < n
  {
    if n == 0 then {} else FirstCodes(n - 1) + {n - 1}
  }

  /** The case: with more than 1000 recorded codes on, some active code has no open record. It takes
      a catalog with that many codes. */
  lemma {:induction false} OverflowLosesRecord(cat: Catalog, bound: bool, db: Db, n: nat)
    requires 1000 < n <= 0x1_0000 && FirstCodes(n) <= cat.recorded
    ensures !ActiveAreOpen(After(cat, Fresh(bound, db), Raises(n)).center, cat.recorded)
  {
    var c := After(cat, Fresh(bound, db), Raises(n)).center;
    forall code | code in FirstCodes(n)
      ensures code in c.active * cat.recorded
    {
      RaisesLast(n, code);
      ActiveIsLastReport(cat, bound, db, Raises(n), code);
    }
    RaisesLast(n, 0);
    SubsetSize(FirstCodes(n), c.active * cat.recorded);
    OpenRecordsAreActive(cat, bound, db, Raises(n));
    if ActiveAreOpen(c, cat.recorded) {
      OpenCount(c, cat.recorded);
    }
  }
}
