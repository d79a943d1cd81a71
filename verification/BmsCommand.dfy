/**
 * The high-voltage command path: BmsCommandManager (services/control/bms/bms_command_manager.cpp)
 * driven by the tick of services/control/logic/logic_tick.cpp, which ages the runtime cache,
 * rebuilds the wished-for commands, lets the business code overwrite them, clamps them and emits
 * them periodically.
 */
module BmsCommand {
  import opened Words
  import opened BmsRuntime
  import BmsWire

  datatype Reason =
    | Init | NoData | Offline | RuntimeStale
    | St2Stale | Fault1Stale | Fault2Stale | CurrentLimitStale
    | RqHvPowerOff | FireFaultBlock | FaultLevelBlock | TmsFaultBlock
    | FallbackPowerOff | AllowClose

  const POWER_ON: nat := 1
  const POWER_OFF: nat := 2

  function SafetyBlockReason(x: Instance): Reason {
    var t, h := x.times, x.health;
    if !x.seen then NoData
    else if !h.online then Offline
    else if h.stale then RuntimeStale
    else if t.st2 == 0 || !h.st2 then St2Stale
    else if t.fault1 == 0 || !h.fault1 then Fault1Stale
    else if t.fault2 == 0 || !h.fault2 then Fault2Stale
    else if t.currentLimit == 0 || !h.currentLimit then CurrentLimitStale
    else if x.levels.powerOff then RqHvPowerOff
    else if x.levels.fire >= 2 then FireFaultBlock
    else if x.levels.fault >= 2 then FaultLevelBlock
    else if x.levels.tms >= 2 then TmsFaultBlock
    else if !x.allowClose then FallbackPowerOff
    else AllowClose
  }

  function NameOf(i: nat): string
    requires 1 <= i <= 4
  {
    "BMS_" + [['0', '1', '2', '3', '4'][i]]
  }

  function ReasonIn(c: Cache, i: nat): Reason
    requires 1 <= i <= 4
  {
    if NameOf(i) in c then SafetyBlockReason(c[NameOf(i)]) else NoData
  }

  // ---- One instance ----------------------------------------------------------------------

  /** BmsCommandState. */
  datatype CmdState = CmdState(hv: nat, reason: Reason, life: nat, lastSend: nat)

  const NEW_STATE := CmdState(POWER_OFF, Init, 0, 0)

  datatype Frame = Frame(instance: nat, hv: nat, life: nat, ts: nat)

  function Rebuilt(st: CmdState, reason: Reason): CmdState {
    st.(hv := if reason == AllowClose then POWER_ON else POWER_OFF, reason := reason)
  }

  function Written(st: CmdState, write: Option<nat>): CmdState {
    if write.Some? then st.(hv := write.value) else st
  }

  function Enforced(st: CmdState, reason: Reason): CmdState {
    if reason != AllowClose then st.(hv := POWER_OFF, reason := reason)
    else st.(reason := if st.hv == POWER_ON then AllowClose else FallbackPowerOff)
  }

  /** Unsigned 64-bit difference. */
  function Minus64(a: nat, b: nat): nat {
    (a - b) % TWO64
  }

  predicate Due(st: CmdState, ts: nat, period: nat) {
    st.lastSend == 0 || Minus64(ts, st.lastSend) >= period
  }

  datatype Sent = Sent(state: CmdState, frames: seq<Frame>)

  function Emitted(st: CmdState, i: nat, ts: nat, period: nat, refused: bool): Sent {
    if !Due(st, ts, period) || refused then Sent(st, [])
    else Sent(st.(lastSend := ts, life := (st.life + 1) % 256), [Frame(i, st.hv, st.life, ts)])
  }

  /** The tick for one instance, from its state and the aged cache. */
  function Ticked(st: CmdState, aged: Cache, i: nat, write: Option<nat>, ts: nat, period: nat, refused: bool): Sent
    requires 1 <= i <= 4
  {
    var r := ReasonIn(aged, i);
    Emitted(Enforced(Written(Rebuilt(st, r), write), r), i, ts, period, refused)
  }

  // ---- Runs ------------------------------------------------------------------------------

  datatype Event =
    | Arrive(rx: Rx)
    | Tick(ts: nat, writes: map<nat, nat>, refused: set<nat>)

  /** The cache, the command state of one instance, and the frames emitted for it so far. */
  datatype System = System(cache: Cache, state: CmdState, frames: seq<Frame>)

  function WriteOf(writes: map<nat, nat>, i: nat): Option<nat> {
    if i in writes then Some(writes[i]) else None
  }

  function Do(s: System, i: nat, period: nat, e: Event): System
    requires 1 <= i <= 4
  {
    match e
    case Arrive(r) => s.(cache := Received(s.cache, r.name, r.m, r.ts))
    case Tick(ts, writes, refused) =>
      var aged := AgedAll(s.cache, ts);
      var sent := Ticked(s.state, aged, i, WriteOf(writes, i), ts, period, i in refused);
      System(aged, sent.state, s.frames + sent.frames)
  }

  function Run(i: nat, period: nat, evs: seq<Event>): System
    requires 1 <= i <= 4
  {
    if |evs| == 0 then System(map[], NEW_STATE, [])
    else Do(Run(i, period, evs[..|evs| - 1]), i, period, evs[|evs| - 1])
  }

  /** The messages of a run. */
  function Log(evs: seq<Event>): seq<Rx> {
    if |evs| == 0 then []
    else
      var before := Log(evs[..|evs| - 1]);
      match evs[|evs| - 1]
      case Arrive(r) => before + [r]
      case _ => before
  }

  // ---- When high voltage is allowed, said of the messages alone ---------------------------

  /** A time is known and lies in the span of the given length that ends now. */
  predicate Within(now: nat, last: nat, span: nat) {
    0 < last <= now <= last + span
  }

  /** Everything needed has arrived lately enough. */
  predicate AllFresh(log: seq<Rx>, name: string, now: nat) {
    && Within(now, LastTime(log, name, Any), 5000)
    && Within(now, LastTime(log, name, IsSt2), 3000)
    && Within(now, LastTime(log, name, IsFault1), 5000)
    && Within(now, LastTime(log, name, IsFault2), 5000)
    && Within(now, LastTime(log, name, IsCurrentLimit), 3000)
  }

  /** The latest word on each blocking condition is that it is absent. */
  predicate NothingBlocks(log: seq<Rx>, name: string) {
    && !LastValue(log, name, PowerOff, false)
    && LastValue(log, name, FaultLevel, 0) < 2
    && LastValue(log, name, TmsLevel, 0) < 2
    && !LastValue(log, name, Hvil, false)
    && !LastValue(log, name, OverCharge, false)
    && LastValue(log, name, Insulation, 0) < 3
    && !LastValue(log, name, SelfProtect, false)
    && !LastValue(log, name, MainPrecharge, false)
    && !LastValue(log, name, AuxPrecharge, false)
    && !LastValue(log, name, ChargeInsulation, false)
  }

  predicate Safe(log: seq<Rx>, name: string, now: nat) {
    AllFresh(log, name, now) && NothingBlocks(log, name)
  }

  /** The entries differ in their health marks only. */
  predicate SameData(x: Instance, y: Instance) {
    x == y.(health := x.health)
  }

  lemma {:induction false} CacheIsReplay(i: nat, period: nat, evs: seq<Event>, name: string)
    requires 1 <= i <= 4
    ensures var c, r := Run(i, period, evs).cache, Replayed(Log(evs));
            SameData(Entry(c, name), Entry(r, name)) && (name in c <==> name in r)
  {
    if |evs| > 0 {
      CacheIsReplay(i, period, evs[..|evs| - 1], name);
      var e, before := evs[|evs| - 1], Log(evs[..|evs| - 1]);
      if e.Arrive? {
        assert (before + [e.rx])[..|before|] == before;
      }
    }
  }

  lemma {:induction false} ClearIsNotOpen(log: seq<Rx>, name: string)
    ensures var x := Entry(Replayed(log), name);
            NothingBlocks(log, name) <==>
            x.allowClose && x.levels.tms < 2 && !x.levels.powerOff && x.levels.fault < 2 && x.levels.fire < 2
  {
    LevelsTell(log, name);
    Flags1Tell(log, name);
    Flags2Tell(log, name);
    AllowCloseTells(log, name);
  }

  lemma {:induction false} FreshIsHealthy(log: seq<Rx>, name: string, now: nat)
    ensures var x := Aged(Entry(Replayed(log), name), now);
            AllFresh(log, name, now) <==>
            && x.seen && x.health.online && !x.health.stale
            && x.times.st2 != 0 && x.health.st2 && x.times.fault1 != 0 && x.health.fault1
            && x.times.fault2 != 0 && x.health.fault2 && x.times.currentLimit != 0 && x.health.currentLimit
  {
    TimesTell(log, name);
    AllowCloseTells(log, name);
  }

  /** The manager allows closing exactly when the messages make it safe. */
  lemma {:induction false} AllowedIffSafe(log: seq<Rx>, name: string, now: nat)
    ensures SafetyBlockReason(Aged(Entry(Replayed(log), name), now)) == AllowClose <==> Safe(log, name, now)
  {
    ClearIsNotOpen(log, name);
    FreshIsHealthy(log, name, now);
  }

  lemma AgedSame(x: Instance, y: Instance, now: nat)
    requires SameData(x, y)
    ensures Aged(x, now) == Aged(y, now)
  {}

  lemma {:induction false} ReasonAfterRun(i: nat, period: nat, evs: seq<Event>, now: nat)
    requires 1 <= i <= 4
    ensures ReasonIn(AgedAll(Run(i, period, evs).cache, now), i) == AllowClose <==>
            Safe(Log(evs), NameOf(i), now)
  {
    var name, c, r := NameOf(i), Run(i, period, evs).cache, Replayed(Log(evs));
    CacheIsReplay(i, period, evs, name);
    AgedSame(Entry(c, name), Entry(r, name), now);
    AllowedIffSafe(Log(evs), name, now);
    if name !in c {
      AllowCloseTells(Log(evs), name);
    }
  }

  // ---- What is emitted -------------------------------------------------------------------

  /** What the business code asks for: its own write, or the default it left standing. */
  function Wish(writes: map<nat, nat>, i: nat): nat {
    if i in writes then writes[i] else 1
  }

  /** Every frame a tick emits carries the business code's wish (1 is PowerOn, 2 PowerOff) if
      the messages so far make closing safe, and PowerOff otherwise. */
  lemma {:induction false} EmittedExactly(i: nat, period: nat, evs: seq<Event>, e: Event)
    requires 1 <= i <= 4 && e.Tick?
    ensures var before, after := Run(i, period, evs), Run(i, period, evs + [e]);
            && (after.frames == before.frames ||
                (|after.frames| == |before.frames| + 1 && after.frames[..|before.frames|] == before.frames))
            && forall k :: |before.frames| <= k < |after.frames| ==>
                 && after.frames[k].instance == i && after.frames[k].ts == e.ts
                 && after.frames[k].hv ==
                    if Safe(Log(evs), NameOf(i), e.ts) then Wish(e.writes, i) else 2
  {
    assert (evs + [e])[..|evs|] == evs;
    ReasonAfterRun(i, period, evs, e.ts);
    TickedHv(Run(i, period, evs).state, AgedAll(Run(i, period, evs).cache, e.ts), i, e, period);
  }

  /** A frame says PowerOff, which is 2, when a group that is watched has never been heard, bears a
      time in the future or has been silent for too long. */
  lemma {:induction false} StaleGroupForcesPowerOff(i: nat, period: nat, evs: seq<Event>, e: Event)
    requires 1 <= i <= 4 && e.Tick?
    ensures var before, after := Run(i, period, evs), Run(i, period, evs + [e]);
            var name, log := ['B', 'M', 'S', '_', ['1', '2', '3', '4'][i - 1]], Log(evs);
            var st2, limits := LastTime(log, name, IsSt2), LastTime(log, name, IsCurrentLimit);
            var fault1, fault2 := LastTime(log, name, IsFault1), LastTime(log, name, IsFault2);
            var any := LastTime(log, name, Any);
            ((st2 == 0 || st2 > e.ts || e.ts - st2 > 3000) ||
             (limits == 0 || limits > e.ts || e.ts - limits > 3000) ||
             (fault1 == 0 || fault1 > e.ts || e.ts - fault1 > 5000) ||
             (fault2 == 0 || fault2 > e.ts || e.ts - fault2 > 5000) ||
             (any == 0 || any > e.ts || e.ts - any > 5000)) ==>
              forall k :: |before.frames| <= k < |after.frames| ==> after.frames[k].hv == 2
  {
    EmittedExactly(i, period, evs, e);
    NameSpelt(i);
  }

  lemma NameSpelt(i: nat)
    requires 1 <= i <= 4
    ensures NameOf(i) == ['B', 'M', 'S', '_', ['1', '2', '3', '4'][i - 1]]
  {}

  lemma TickedHv(st: CmdState, aged: Cache, i: nat, e: Event, period: nat)
    requires 1 <= i <= 4 && e.Tick?
    ensures var sent := Ticked(st, aged, i, WriteOf(e.writes, i), e.ts, period, i in e.refused);
            && |sent.frames| <= 1
            && forall k :: 0 <= k < |sent.frames| ==>
                 && sent.frames[k].instance == i && sent.frames[k].ts == e.ts
                 && sent.frames[k].hv == if ReasonIn(aged, i) == AllowClose then Wish(e.writes, i) else 2
  {}

  /** PowerOn safety: frame k was emitted by the one tick before which k frames had been, and says
      what the business code wished if the messages received by then made closing safe, and
      PowerOff otherwise, whatever the business code wrote. */
  lemma {:induction false} PowerOnIsSafe(i: nat, period: nat, evs: seq<Event>, k: nat) returns (j: nat)
    requires 1 <= i <= 4 && k < |Run(i, period, evs).frames|
    ensures j < |evs| && evs[j].Tick? && Run(i, period, evs).frames[k].ts == evs[j].ts
    ensures |Run(i, period, evs[..j]).frames| == k
    ensures Run(i, period, evs).frames[k].hv ==
            if Safe(Log(evs[..j]), NameOf(i), evs[j].ts) then Wish(evs[j].writes, i) else 2
  {
    var n := |evs| - 1;
    var pre := evs[..n];
    assert evs == pre + [evs[n]];
    if k < |Run(i, period, pre).frames| {
      j := PowerOnIsSafe(i, period, pre, k);
      assert pre[..j] == evs[..j];
      if evs[n].Tick? {
        EmittedExactly(i, period, pre, evs[n]);
        assert Run(i, period, evs).frames[k] == Run(i, period, evs).frames[..|Run(i, period, pre).frames|][k];
      }
    } else {
      j := n;
      EmittedExactly(i, period, pre, evs[n]);
    }
  }

  // ---- The reason on record ----------------------------------------------------------------

  /** A time is known but lies too far back, or in the future. */
  predicate Lapsed(now: nat, last: nat, span: nat) {
    last > 0 && !Within(now, last, span)
  }

  /** The marks a tick leaves on an instance, each said of the messages. */
  lemma {:induction false} HealthTells(log: seq<Rx>, name: string, now: nat)
    ensures var h := Aged(Entry(Replayed(log), name), now).health;
            && h.st2 == Within(now, LastTime(log, name, IsSt2), 3000)
            && h.currentLimit == Within(now, LastTime(log, name, IsCurrentLimit), 3000)
            && h.fault1 == Within(now, LastTime(log, name, IsFault1), 5000)
            && h.fault2 == Within(now, LastTime(log, name, IsFault2), 5000)
            && h.online == Within(now, LastTime(log, name, Any), 5000)
            && h.stale == SomeLapsed(log, name, now)
  {
    TimesTell(log, name);
    AllowCloseTells(log, name);
  }

  /** A group that has been heard is silent for too long. */
  predicate SomeLapsed(log: seq<Rx>, name: string, now: nat) {
    || Lapsed(now, LastTime(log, name, IsSt2), 3000) || Lapsed(now, LastTime(log, name, IsCurrentLimit), 3000)
    || Lapsed(now, LastTime(log, name, IsFault1), 5000) || Lapsed(now, LastTime(log, name, IsFault2), 5000)
  }

  /** What a reason says about the messages. */
  predicate ReasonTrue(r: Reason, log: seq<Rx>, name: string, now: nat) {
    match r
    case NoData => forall k :: 0 <= k < |log| ==> log[k].name != name
    case Offline => !Within(now, LastTime(log, name, Any), 5000)
    case RuntimeStale => SomeLapsed(log, name, now)
    case St2Stale => LastTime(log, name, IsSt2) == 0
    case Fault1Stale => LastTime(log, name, IsFault1) == 0
    case Fault2Stale => LastTime(log, name, IsFault2) == 0
    case CurrentLimitStale => LastTime(log, name, IsCurrentLimit) == 0
    case RqHvPowerOff => LastValue(log, name, PowerOff, false)
    case FaultLevelBlock => LastValue(log, name, FaultLevel, 0) >= 2
    case TmsFaultBlock => LastValue(log, name, TmsLevel, 0) >= 2
    case FallbackPowerOff => FlagBlocks(log, name)
    case AllowClose => Safe(log, name, now)
    case _ => false
  }

  predicate FlagBlocks(log: seq<Rx>, name: string) {
    || LastValue(log, name, Hvil, false) || LastValue(log, name, OverCharge, false)
    || LastValue(log, name, Insulation, 0) >= 3
    || LastValue(log, name, SelfProtect, false) || LastValue(log, name, MainPrecharge, false)
    || LastValue(log, name, AuxPrecharge, false) || LastValue(log, name, ChargeInsulation, false)
  }

  /** The reason a tick leaves behind is true of the messages, fire never being one; and a closing
      that is safe but not wished for is put down as a fallback. */
  lemma {:induction false} ReasonIsTrue(i: nat, period: nat, evs: seq<Event>, e: Event)
    requires 1 <= i <= 4 && e.Tick?
    ensures var r, log := Run(i, period, evs + [e]).state.reason, Log(evs);
            || ReasonTrue(r, log, NameOf(i), e.ts)
            || (r == FallbackPowerOff && Safe(log, NameOf(i), e.ts) && Wish(e.writes, i) != 1)
    ensures Run(i, period, evs + [e]).state.reason == AllowClose <==>
            Safe(Log(evs), NameOf(i), e.ts) && Wish(e.writes, i) == 1
  {
    assert (evs + [e])[..|evs|] == evs;
    var s, name, log := Run(i, period, evs), NameOf(i), Log(evs);
    ReasonAfterRun(i, period, evs, e.ts);
    CacheIsReplay(i, period, evs, name);
    AgedSame(Entry(s.cache, name), Entry(Replayed(log), name), e.ts);
    SeenIffHeard(log, name);
    EntryReasonTrue(log, name, e.ts);
    ReasonKept(s.state, AgedAll(s.cache, e.ts), i, e, period);
  }

  lemma ReasonKept(st: CmdState, aged: Cache, i: nat, e: Event, period: nat)
    requires 1 <= i <= 4 && e.Tick?
    ensures var r := ReasonIn(aged, i);
            Ticked(st, aged, i, WriteOf(e.writes, i), e.ts, period, i in e.refused).state.reason ==
            if r == AllowClose && Wish(e.writes, i) != 1 then FallbackPowerOff else r
  {}

  lemma {:induction false} SeenIffHeard(log: seq<Rx>, name: string)
    ensures name in Replayed(log) <==> exists k :: 0 <= k < |log| && log[k].name == name
    ensures name in Replayed(log) <==> Entry(Replayed(log), name).seen
  {
    if |log| > 0 {
      var n := |log| - 1;
      SeenIffHeard(log[..n], name);
      if log[n].name != name && name in Replayed(log) {
        var k :| 0 <= k < n && log[..n][k].name == name;
        assert log[k].name == name;
      }
    }
  }

  lemma {:induction false} EntryReasonTrue(log: seq<Rx>, name: string, now: nat)
    ensures ReasonTrue(SafetyBlockReason(Aged(Entry(Replayed(log), name), now)), log, name, now)
  {
    AllowedIffSafe(log, name, now);
    SeenIffHeard(log, name);
    HealthTells(log, name, now);
    TimesTell(log, name);
    LevelsTell(log, name);
    Flags1Tell(log, name);
    Flags2Tell(log, name);
    AllowCloseTells(log, name);
  }

  /** The two command bits of a frame on the bus, with whatever its other signals carry. */
  function CommandRead(f: Frame, aux: seq<nat>, speed: nat, states: seq<nat>): nat
    requires |aux| == 3 && |states| == 20
  {
    BmsWire.Field(BmsWire.PackAll(0, BmsWire.CommandSignals(f.life, f.hv, aux, speed, states)), 8, 2)
  }

  /** The same, for what a battery reads off the bus. */
  lemma PowerOnReadIsSafe(i: nat, period: nat, evs: seq<Event>, k: nat, aux: seq<nat>, speed: nat, states: seq<nat>)
    returns (j: nat)
    requires 1 <= i <= 4 && k < |Run(i, period, evs).frames| && |aux| == 3 && |states| == 20
    requires CommandRead(Run(i, period, evs).frames[k], aux, speed, states) == 1
    ensures j < |evs| && evs[j].Tick? && |Run(i, period, evs[..j]).frames| == k
    ensures Safe(Log(evs[..j]), NameOf(i), evs[j].ts)
  {
    j := PowerOnIsSafe(i, period, evs, k);
    NotPowerOff(Run(i, period, evs).frames[k], aux, speed, states);
  }

  lemma NotPowerOff(f: Frame, aux: seq<nat>, speed: nat, states: seq<nat>)
    requires |aux| == 3 && |states| == 20
    requires CommandRead(f, aux, speed, states) == 1
    ensures f.hv != 2
  {
    BmsWire.CommandOnWire(f.life, f.hv, aux, speed, states);
  }

  // ---- What does not block ---------------------------------------------------------------

  /** The fire level is checked but never filled in: in no run does the manager ever block for
      fire. */
  lemma {:induction false} FireNeverBlocks(i: nat, period: nat, evs: seq<Event>, now: nat)
    requires 1 <= i <= 4
    ensures ReasonIn(AgedAll(Run(i, period, evs).cache, now), i) != FireFaultBlock
  {
    CacheIsReplay(i, period, evs, NameOf(i));
    LevelsTell(Log(evs), NameOf(i));
    var x := Entry(Run(i, period, evs).cache, NameOf(i));
    assert x.levels.fire == 0;
    NoFireNoBlock(Aged(x, now));
  }

  lemma NoFireNoBlock(x: Instance)
    requires x.levels.fire == 0
    ensures SafetyBlockReason(x) != FireFaultBlock
  {}

  /** So a tick that follows a fire alarm of any level emits what the business code wishes, as it
      would without the alarm. */
  lemma {:induction false} FireAlarmDoesNotBlock(i: nat, period: nat, evs: seq<Event>, level: int, at: nat, e: Event)
    requires 1 <= i <= 4 && e.Tick? && Within(e.ts, at, 5000)
    requires Safe(Log(evs), NameOf(i), e.ts)
    ensures var alarmed := evs + [Arrive(Rx(NameOf(i), Fire2b(Some(level)), at))];
            var before, after := Run(i, period, alarmed), Run(i, period, alarmed + [e]);
            && Entry(before.cache, NameOf(i)).levels.fireAlarm == level
            && forall k :: |before.frames| <= k < |after.frames| ==> after.frames[k].hv == Wish(e.writes, i)
  {
    var r := Rx(NameOf(i), Fire2b(Some(level)), at);
    var alarmed := evs + [Arrive(r)];
    assert alarmed[..|evs|] == evs;
    FireKeepsSafe(Log(evs), NameOf(i), level, at, e.ts);
    EmittedExactly(i, period, alarmed, e);
  }

  lemma {:induction false} FireKeepsSafe(log: seq<Rx>, name: string, level: int, at: nat, now: nat)
    requires Safe(log, name, now) && Within(now, at, 5000)
    ensures Safe(log + [Rx(name, Fire2b(Some(level)), at)], name, now)
  {
    assert (log + [Rx(name, Fire2b(Some(level)), at)])[..|log|] == log;
  }

  /** The messages that make closing safe, all at one time. */
  function AllClear(name: string, at: nat): seq<Rx> {
    [Rx(name, St2(Some(0), Some(false)), at), Rx(name, CurrentLimit, at),
     Rx(name, Fault1(Some(0), Some(false), Some(false)), at), Rx(name, Fault2(false, false, false, false), at)]
  }

  lemma {:induction false} AllClearIsSafe(name: string, at: nat, now: nat)
    requires Within(now, at, 3000)
    ensures Safe(AllClear(name, at), name, now)
  {
    AllClearIsFresh(name, at, now);
    var log := AllClear(name, at);
    NothingSaid(log, name, FaultLevel, 0);
    NothingSaid(log, name, TmsLevel, 0);
    NothingSaid(log, name, Insulation, 0);
    NoFlagSaid(log, name);
  }

  lemma AllClearIsFresh(name: string, at: nat, now: nat)
    requires Within(now, at, 3000)
    ensures AllFresh(AllClear(name, at), name, now)
  {
    var log := AllClear(name, at);
    assert log[0].m.St2? && log[1].m.CurrentLimit? && log[2].m.Fault1? && log[3].m.Fault2?;
    SameTime(log, name, Any, at, 0);
    SameTime(log, name, IsSt2, at, 0);
    SameTime(log, name, IsCurrentLimit, at, 1);
    SameTime(log, name, IsFault1, at, 2);
    SameTime(log, name, IsFault2, at, 3);
  }

  lemma {:induction false} NoFlagSaid(log: seq<Rx>, name: string)
    requires forall k :: 0 <= k < |log| ==>
               (log[k].m.St2? ==> log[k].m.powerOff == Some(false))
    requires forall k :: 0 <= k < |log| && log[k].m.Fault1? ==>
               log[k].m.overCharge == Some(false) && log[k].m.hvil == Some(false)
    requires forall k :: 0 <= k < |log| && log[k].m.Fault2? ==> log[k].m == Fault2(false, false, false, false)
    ensures !LastValue(log, name, PowerOff, false)
    ensures !LastValue(log, name, OverCharge, false) && !LastValue(log, name, Hvil, false)
    ensures !LastValue(log, name, SelfProtect, false) && !LastValue(log, name, MainPrecharge, false)
    ensures !LastValue(log, name, AuxPrecharge, false) && !LastValue(log, name, ChargeInsulation, false)
  {
    NothingSaid(log, name, PowerOff, false);
    NothingSaid(log, name, OverCharge, false);
    NothingSaid(log, name, Hvil, false);
    NothingSaid(log, name, SelfProtect, false);
    NothingSaid(log, name, MainPrecharge, false);
    NothingSaid(log, name, AuxPrecharge, false);
    NothingSaid(log, name, ChargeInsulation, false);
  }

  function Arrivals(log: seq<Rx>): seq<Event> {
    if |log| == 0 then [] else Arrivals(log[..|log| - 1]) + [Arrive(log[|log| - 1])]
  }

  lemma {:induction false} ArrivalsLog(i: nat, period: nat, log: seq<Rx>)
    requires 1 <= i <= 4
    ensures Log(Arrivals(log)) == log
    ensures var s := Run(i, period, Arrivals(log));
            s.state == NEW_STATE && s.frames == []
  {
    if |log| > 0 {
      var n := |log| - 1;
      ArrivalsLog(i, period, log[..n]);
      assert Arrivals(log)[..|Arrivals(log)| - 1] == Arrivals(log[..n]);
      assert log == log[..n] + [log[n]];
    }
  }

  /** A run: the battery reports all clear, then a fire alarm, and the first tick sends PowerOn. */
  lemma {:induction false} PowerOnAfterFireAlarm(i: nat, period: nat, level: int, at: nat, now: nat)
    requires 1 <= i <= 4 && Within(now, at, 3000)
    ensures var fire := Rx(NameOf(i), Fire2b(Some(level)), at);
            var evs := Arrivals(AllClear(NameOf(i), at) + [fire]) + [Tick(now, map[], {})];
            Run(i, period, evs).frames == [Frame(i, 1, 0, now)]
  {
    var name := NameOf(i);
    var log := AllClear(name, at) + [Rx(name, Fire2b(Some(level)), at)];
    var evs, e := Arrivals(log), Tick(now, map[], {});
    ArrivalsLog(i, period, log);
    AllClearIsSafe(name, at, now);
    FireKeepsSafe(AllClear(name, at), name, level, at, now);
    EmittedExactly(i, period, evs, e);
    FirstTickSends(i, period, evs, e);
  }

  /** A state that has sent nothing is due. */
  lemma {:induction false} FirstTickSends(i: nat, period: nat, evs: seq<Event>, e: Event)
    requires 1 <= i <= 4 && e.Tick? && i !in e.refused
    requires Run(i, period, evs).state == NEW_STATE && Run(i, period, evs).frames == []
    ensures var f := Run(i, period, evs + [e]).frames;
            |f| == 1 && f[0].life == 0
  {
    assert (evs + [e])[..|evs|] == evs;
  }

  /** What the business code writes for its verdict. */
  function BusinessWrite(on: bool): nat {
    if on then 2 else 1
  }

  /** Its verdict comes out inverted: where closing is safe "off" is emitted as PowerOn and "on" as
      PowerOff, so that a frame says what the verdict means only where the clamp says it: exactly
      when the verdict is off and closing is not safe. */
  lemma {:induction false} BusinessVerdictInverted(i: nat, period: nat, evs: seq<Event>, on: bool, ts: nat,
                                                   refused: set<nat>)
    requires 1 <= i <= 4
    ensures var before := Run(i, period, evs);
            var after := Run(i, period, evs + [Tick(ts, map[i := BusinessWrite(on)], refused)]);
            var safe := Safe(Log(evs), NameOf(i), ts);
            |after.frames| > |before.frames| ==>
              var hv := after.frames[|before.frames|].hv;
              && (hv == 1 <==> !on && safe)
              && (hv == (if on then 1 else 2) <==> !on && !safe)
  {
    EmittedExactly(i, period, evs, Tick(ts, map[i := BusinessWrite(on)], refused));
  }

  // ---- Life counter and rate -------------------------------------------------------------

  /** The latest send time is that of the latest frame, whatever the clock does. */
  lemma {:induction false} LastSendRun(i: nat, period: nat, evs: seq<Event>)
    requires 1 <= i <= 4
    ensures var s := Run(i, period, evs);
            s.state.lastSend == if s.frames == [] then 0 else s.frames[|s.frames| - 1].ts
  {
    if |evs| > 0 {
      var n := |evs| - 1;
      LastSendRun(i, period, evs[..n]);
      if evs[n].Tick? {
        TickSends(Run(i, period, evs[..n]), i, period, evs[n]);
      }
    }
  }

  lemma TickSends(s: System, i: nat, period: nat, e: Event)
    requires 1 <= i <= 4 && e.Tick?
    ensures var t, last := Do(s, i, period, e), s.state.lastSend;
            var sends := i !in e.refused && (last == 0 || (e.ts - last) % 0x1_0000_0000_0000_0000 >= period);
            && |t.frames| == |s.frames| + (if sends then 1 else 0)
            && t.state.lastSend == (if sends then e.ts else last)
            && (if sends then t.frames[|t.frames| - 1].ts == e.ts else t.frames == s.frames)
  {
    var r := ReasonIn(AgedAll(s.cache, e.ts), i);
    var st := Enforced(Written(Rebuilt(s.state, r), WriteOf(e.writes, i)), r);
    assert st.lastSend == s.state.lastSend;
    assert s.frames + [] == s.frames;
  }

  /** A tick sends exactly if the builder does not refuse and there is no frame before, or none with
      a time, or 64-bit arithmetic finds the latest one a period back. */
  lemma {:induction false} SentExactlyWhen(i: nat, period: nat, evs: seq<Event>, e: Event)
    requires 1 <= i <= 4 && e.Tick?
    ensures var before, after := Run(i, period, evs).frames, Run(i, period, evs + [e]).frames;
            var last := if before == [] then 0 else before[|before| - 1].ts;
            |after| == |before| + 1 <==>
            i !in e.refused && (last == 0 || (e.ts - last) % 0x1_0000_0000_0000_0000 >= period)
  {
    assert (evs + [e])[..|evs|] == evs;
    LastSendRun(i, period, evs);
    TickSends(Run(i, period, evs), i, period, e);
  }

  /** On a clock that does not go back: if there is no frame before or the latest is a period old. */
  lemma {:induction false} SentExactlyWhenDue(i: nat, period: nat, evs: seq<Event>, e: Event)
    requires 1 <= i <= 4 && e.Tick? && Timed(evs + [e])
    ensures var before, after := Run(i, period, evs).frames, Run(i, period, evs + [e]).frames;
            |after| == |before| + 1 <==>
            i !in e.refused && (before == [] || e.ts >= before[|before| - 1].ts + period)
  {
    assert (evs + [e])[..|evs|] == evs && (evs + [e])[|evs|] == e;
    assert Timed(evs) by {
      assert forall j :: 0 <= j < |evs| ==> (evs + [e])[j] == evs[j];
    }
    FramesRun(i, period, evs);
    SentNoLater(Run(i, period, evs).state.lastSend, evs, e);
    SentExactlyWhen(i, period, evs, e);
    LastSendRun(i, period, evs);
    Difference(e.ts, Run(i, period, evs).state.lastSend);
  }

  /** The eight-bit counter after n frames. */
  function LifeOf(n: nat): nat {
    n % 256
  }

  predicate LivesSound(frames: seq<Frame>, life: nat) {
    life == LifeOf(|frames|) && forall k :: 0 <= k < |frames| ==> frames[k].life == LifeOf(k)
  }

  predicate TimesSound(frames: seq<Frame>, lastSend: nat, period: nat) {
    && lastSend == (if |frames| == 0 then 0 else frames[|frames| - 1].ts)
    && (forall k :: 0 <= k < |frames| ==> frames[k].ts > 0)
    && (forall k :: 0 < k < |frames| ==> frames[k].ts >= frames[k - 1].ts + period)
  }

  predicate FramesSound(s: System, period: nat) {
    LivesSound(s.frames, s.state.life) && TimesSound(s.frames, s.state.lastSend, period)
  }

  /** Ticks carry positive 64-bit times that do not go back. */
  predicate Timed(evs: seq<Event>) {
    && (forall j :: 0 <= j < |evs| && evs[j].Tick? ==> 0 < evs[j].ts < TWO64)
    && (forall j, l :: 0 <= j < l < |evs| && evs[j].Tick? && evs[l].Tick? ==> evs[j].ts <= evs[l].ts)
  }

  /** The latest send time is 0 or that of some tick. */
  predicate SentAtTick(last: nat, evs: seq<Event>) {
    last == 0 || exists j :: 0 <= j < |evs| && evs[j].Tick? && evs[j].ts == last
  }

  lemma SentNext(last: nat, evs: seq<Event>, e: Event, next: nat)
    requires SentAtTick(last, evs) && (next == last || (e.Tick? && next == e.ts))
    ensures SentAtTick(next, evs + [e])
  {
    if next == last && last != 0 {
      var j :| 0 <= j < |evs| && evs[j].Tick? && evs[j].ts == last;
      assert (evs + [e])[j].Tick? && (evs + [e])[j].ts == last;
    } else if next != 0 {
      assert (evs + [e])[|evs|] == e;
    }
  }

  lemma SentNoLater(last: nat, evs: seq<Event>, e: Event)
    requires SentAtTick(last, evs) && Timed(evs + [e]) && e.Tick?
    ensures last <= e.ts
  {
    if last != 0 {
      var j :| 0 <= j < |evs| && evs[j].Tick? && evs[j].ts == last;
      assert (evs + [e])[j] == evs[j] && (evs + [e])[|evs|] == e;
    }
  }

  lemma {:induction false} FramesRun(i: nat, period: nat, evs: seq<Event>)
    requires 1 <= i <= 4 && Timed(evs)
    ensures FramesSound(Run(i, period, evs), period)
    ensures SentAtTick(Run(i, period, evs).state.lastSend, evs)
  {
    if |evs| > 0 {
      var n := |evs| - 1;
      var pre, e := evs[..n], evs[n];
      assert evs == pre + [e];
      FramesRun(i, period, pre);
      var s := Run(i, period, pre);
      if e.Tick? {
        SentNoLater(s.state.lastSend, pre, e);
        TickFrames(s, i, period, e);
      }
      SentNext(s.state.lastSend, pre, e, Do(s, i, period, e).state.lastSend);
    }
  }

  lemma TickFrames(s: System, i: nat, period: nat, e: Event)
    requires 1 <= i <= 4 && FramesSound(s, period) && e.Tick?
    requires 0 < e.ts < TWO64 && s.state.lastSend <= e.ts
    ensures FramesSound(Do(s, i, period, e), period)
    ensures Do(s, i, period, e).state.lastSend in {s.state.lastSend, e.ts}
  {
    var aged := AgedAll(s.cache, e.ts);
    var r := ReasonIn(aged, i);
    var st := Enforced(Written(Rebuilt(s.state, r), WriteOf(e.writes, i)), r);
    assert st.life == s.state.life && st.lastSend == s.state.lastSend;
    EmitFrames(s, aged, st, i, period, e.ts, i in e.refused);
  }

  lemma EmitFrames(s: System, aged: Cache, st: CmdState, i: nat, period: nat, ts: nat, refused: bool)
    requires FramesSound(s, period) && st.life == s.state.life && st.lastSend == s.state.lastSend
    requires 0 < ts < TWO64 && st.lastSend <= ts
    ensures var sent := Emitted(st, i, ts, period, refused);
            FramesSound(System(aged, sent.state, s.frames + sent.frames), period)
  {
    if !Due(st, ts, period) || refused {
      assert s.frames + [] == s.frames;
    } else {
      Difference(ts, st.lastSend);
      NextLife(s.frames, Frame(i, st.hv, st.life, ts));
      NextTime(s.frames, Frame(i, st.hv, st.life, ts), st.lastSend, period);
    }
  }

  lemma NextLife(frames: seq<Frame>, f: Frame)
    requires LivesSound(frames, f.life)
    ensures LivesSound(frames + [f], (f.life + 1) % 256)
  {
    LifeNext(|frames|);
  }

  lemma NextTime(frames: seq<Frame>, f: Frame, lastSend: nat, period: nat)
    requires TimesSound(frames, lastSend, period) && f.ts > 0 && (lastSend == 0 || f.ts >= lastSend + period)
    ensures TimesSound(frames + [f], f.ts, period)
  {}

  lemma Difference(a: nat, b: nat)
    requires b <= a < TWO64
    ensures Minus64(a, b) == a - b
  {}

  lemma LifeNext(n: nat)
    ensures (LifeOf(n) + 1) % 256 == LifeOf(n + 1)
  {}

  /** The counter runs with the frames, whatever the clock does. */
  lemma {:induction false} LivesRun(i: nat, period: nat, evs: seq<Event>)
    requires 1 <= i <= 4
    ensures var s := Run(i, period, evs);
            LivesSound(s.frames, s.state.life)
  {
    if |evs| > 0 {
      var n := |evs| - 1;
      LivesRun(i, period, evs[..n]);
      LivesStep(Run(i, period, evs[..n]), i, period, evs[n]);
    }
  }

  lemma LivesStep(s: System, i: nat, period: nat, e: Event)
    requires 1 <= i <= 4 && LivesSound(s.frames, s.state.life)
    ensures var t := Do(s, i, period, e);
            LivesSound(t.frames, t.state.life)
  {
    if e.Tick? {
      var r := ReasonIn(AgedAll(s.cache, e.ts), i);
      var st := Enforced(Written(Rebuilt(s.state, r), WriteOf(e.writes, i)), r);
      assert st.life == s.state.life;
      NextLife(s.frames, Frame(i, st.hv, st.life, e.ts));
      assert s.frames + [] == s.frames;
    }
  }

  /** The n-th frame of an instance carries n modulo 256, in every run. */
  lemma {:induction false} LifeCounts(i: nat, period: nat, evs: seq<Event>, n: nat)
    requires 1 <= i <= 4 && n < |Run(i, period, evs).frames|
    ensures Run(i, period, evs).frames[n].life == n % 256
  {
    LivesRun(i, period, evs);
  }

  /** Frames are at least a period apart: from frame a to frame b at least b - a periods pass. */
  lemma {:induction false} FramesApart(i: nat, period: nat, evs: seq<Event>, a: nat, b: nat)
    requires 1 <= i <= 4 && Timed(evs) && a <= b < |Run(i, period, evs).frames|
    ensures Run(i, period, evs).frames[b].ts - Run(i, period, evs).frames[a].ts >= (b - a) * period
  {
    FramesRun(i, period, evs);
    Span(Run(i, period, evs).frames, period, a, b);
  }

  lemma {:induction false} Span(frames: seq<Frame>, period: nat, a: nat, b: nat)
    requires forall k :: 0 < k < |frames| ==> frames[k].ts >= frames[k - 1].ts + period
    requires a <= b < |frames|
    ensures frames[b].ts - frames[a].ts >= (b - a) * period
    decreases b
  {
    if a < b {
      Span(frames, period, a, b - 1);
      assert (b - a) * period == (b - 1 - a) * period + period;
    }
  }

  // ---- The object ------------------------------------------------------------------------

  function StateOf(states: map<nat, CmdState>, i: nat): CmdState {
    if i in states then states[i] else NEW_STATE
  }

  class BmsCommandManager {
    var states: map<nat, CmdState>

    constructor ()
      ensures states == map[]
    {
      states := map[];
    }

    method RebuildDesiredFromCache(c: Cache)
      modifies this
      ensures forall i :: 1 <= i <= 4 ==> StateOf(states, i) == Rebuilt(StateOf(old(states), i), ReasonIn(c, i))
    {
      for idx := 1 to 5
        invariant forall i :: 1 <= i < idx ==> StateOf(states, i) == Rebuilt(StateOf(old(states), i), ReasonIn(c, i))
        invariant forall i :: idx <= i <= 4 ==> StateOf(states, i) == StateOf(old(states), i)
      {
        var st := if idx in states then states[idx] else NEW_STATE;
        if NameOf(idx) !in c {
          st := st.(hv := POWER_OFF, reason := NoData);
        } else {
          var reason := SafetyBlockReason(c[NameOf(idx)]);
          st := st.(hv := if reason == AllowClose then POWER_ON else POWER_OFF, reason := reason);
        }
        states := states[idx := st];
      }
    }

    /** A write of the business code through mutableDesired. */
    method WriteDesired(i: nat, hv: nat)
      modifies this
      ensures StateOf(states, i) == Written(StateOf(old(states), i), Some(hv))
      ensures forall k :: k != i ==> StateOf(states, k) == StateOf(old(states), k)
    {
      var st := if i in states then states[i] else NEW_STATE;
      states := states[i := st.(hv := hv)];
    }

    method EnforceSafetyFromCache(c: Cache)
      modifies this
      ensures forall i :: 1 <= i <= 4 ==> StateOf(states, i) == Enforced(StateOf(old(states), i), ReasonIn(c, i))
    {
      for idx := 1 to 5
        invariant forall i :: 1 <= i < idx ==> StateOf(states, i) == Enforced(StateOf(old(states), i), ReasonIn(c, i))
        invariant forall i :: idx <= i <= 4 ==> StateOf(states, i) == StateOf(old(states), i)
      {
        var st := if idx in states then states[idx] else NEW_STATE;
        if NameOf(idx) !in c {
          st := st.(hv := POWER_OFF, reason := NoData);
        } else {
          var reason := SafetyBlockReason(c[NameOf(idx)]);
          if reason != AllowClose {
            st := st.(hv := POWER_OFF, reason := reason);
          } else if st.hv == POWER_ON {
            st := st.(reason := AllowClose);
          } else {
            st := st.(reason := FallbackPowerOff);
          }
        }
        states := states[idx := st];
      }
    }

    /** One instance: nothing before its time or if the builder refuses, else one frame. */
    method EmitOne(i: nat, ts: nat, period: nat, refused: bool) returns (out: seq<Frame>)
      modifies this
      ensures var sent := Emitted(StateOf(old(states), i), i, ts, period, refused);
              out == sent.frames && states == old(states)[i := sent.state]
    {
      var st := if i in states then states[i] else NEW_STATE;
      out := [];
      if (st.lastSend == 0 || Minus64(ts, st.lastSend) >= period) && !refused {
        out := [Frame(i, st.hv, st.life, ts)];
        st := st.(lastSend := ts, life := (st.life + 1) % 256);
      }
      states := states[i := st];
    }

    /** The frames go out instance by instance. */
    method EmitPeriodicCommands(ts: nat, period: nat, refused: set<nat>) returns (out: seq<Frame>)
      modifies this
      ensures forall i :: 1 <= i <= 4 ==>
                StateOf(states, i) == Emitted(StateOf(old(states), i), i, ts, period, i in refused).state
      ensures out == FramesUpTo(old(states), 4, ts, period, refused)
    {
      out := [];
      for idx := 1 to 5
        invariant forall i :: 1 <= i < idx ==>
                    StateOf(states, i) == Emitted(StateOf(old(states), i), i, ts, period, i in refused).state
        invariant forall i :: idx <= i <= 4 ==> StateOf(states, i) == StateOf(old(states), i)
        invariant out == FramesUpTo(old(states), idx - 1, ts, period, refused)
      {
        var sent := EmitOne(idx, ts, period, idx in refused);
        out := out + sent;
      }
    }
  }

  /** The battery part of onTick_: the business code's writes come between rebuilding and
      clamping. */
  method OnTick(cache: BmsLogicCache, mgr: BmsCommandManager, ts: nat, writes: map<nat, nat>,
                refused: set<nat>, period: nat) returns (out: seq<Frame>)
    modifies cache, mgr
    ensures cache.items == AgedAll(old(cache.items), ts)
    ensures forall i :: 1 <= i <= 4 ==>
              StateOf(mgr.states, i) ==
              Ticked(StateOf(old(mgr.states), i), cache.items, i, WriteOf(writes, i), ts, period, i in refused).state
    ensures out == TickedUpTo(old(mgr.states), cache.items, 4, writes, ts, period, refused)
  {
    cache.UpdateHealth(ts);
    mgr.RebuildDesiredFromCache(cache.items);
    ghost var rebuilt := mgr.states;
    for idx := 1 to 5
      invariant cache.items == AgedAll(old(cache.items), ts)
      invariant forall i :: 1 <= i < idx ==> StateOf(mgr.states, i) == Written(StateOf(rebuilt, i), WriteOf(writes, i))
      invariant forall i :: idx <= i <= 4 ==> StateOf(mgr.states, i) == StateOf(rebuilt, i)
    {
      if idx in writes {
        mgr.WriteDesired(idx, writes[idx]);
      }
    }
    mgr.EnforceSafetyFromCache(cache.items);
    ghost var enforced := mgr.states;
    out := mgr.EmitPeriodicCommands(ts, period, refused);
    SameFrames(old(mgr.states), enforced, cache.items, 4, writes, ts, period, refused);
  }

  function TickedUpTo(states: map<nat, CmdState>, aged: Cache, n: nat, writes: map<nat, nat>,
                      ts: nat, period: nat, refused: set<nat>): seq<Frame>
    requires n <= 4
  {
    if n == 0 then []
    else
      TickedUpTo(states, aged, n - 1, writes, ts, period, refused) +
      Ticked(StateOf(states, n), aged, n, WriteOf(writes, n), ts, period, n in refused).frames
  }

  lemma {:induction false} SameFrames(was: map<nat, CmdState>, enforced: map<nat, CmdState>, aged: Cache, n: nat,
                                      writes: map<nat, nat>, ts: nat, period: nat, refused: set<nat>)
    requires n <= 4
    requires forall i :: 1 <= i <= n ==>
               var r := ReasonIn(aged, i);
               StateOf(enforced, i) == Enforced(Written(Rebuilt(StateOf(was, i), r), WriteOf(writes, i)), r)
    ensures FramesUpTo(enforced, n, ts, period, refused) == TickedUpTo(was, aged, n, writes, ts, period, refused)
  {
    if n > 0 {
      SameFrames(was, enforced, aged, n - 1, writes, ts, period, refused);
    }
  }

  /** The frames of a tick go out by instance, and are those of the instances by themselves. */
  lemma {:induction false} TickedInOrder(states: map<nat, CmdState>, aged: Cache, n: nat, writes: map<nat, nat>,
                                         ts: nat, period: nat, refused: set<nat>)
    requires n <= 4
    ensures var out := TickedUpTo(states, aged, n, writes, ts, period, refused);
            && (forall a, b :: 0 <= a < b < |out| ==> out[a].instance < out[b].instance)
            && (forall f :: f in out <==>
                  1 <= f.instance <= n &&
                  f in Ticked(StateOf(states, f.instance), aged, f.instance, WriteOf(writes, f.instance), ts, period,
                              f.instance in refused).frames)
  {
    if n > 0 {
      TickedInOrder(states, aged, n - 1, writes, ts, period, refused);
      TickedOne(StateOf(states, n), aged, n, WriteOf(writes, n), ts, period, n in refused);
      var before := TickedUpTo(states, aged, n - 1, writes, ts, period, refused);
      assert forall a :: 0 <= a < |before| ==> before[a] in before;
    }
  }

  lemma TickedOne(st: CmdState, aged: Cache, i: nat, write: Option<nat>, ts: nat, period: nat, refused: bool)
    requires 1 <= i <= 4
    ensures var fs := Ticked(st, aged, i, write, ts, period, refused).frames;
            |fs| <= 1 && forall f :: f in fs ==> f.instance == i
  {}

  function FramesUpTo(states: map<nat, CmdState>, n: nat, ts: nat, period: nat, refused: set<nat>): seq<Frame> {
    if n == 0 then []
    else
      FramesUpTo(states, n - 1, ts, period, refused) +
      Emitted(StateOf(states, n), n, ts, period, n in refused).frames
  }
}
