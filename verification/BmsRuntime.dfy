/**
 * The battery runtime cache (services/control/bms/bms_logic_adapter.cpp and the health update of
 * services/control/logic/logic_tick.cpp), restricted to the fields the high-voltage path reads,
 * and what those fields say about the messages received.
 */
module BmsRuntime {

  import opened Words

  /** A battery message with the fields that can block high voltage. An absent field leaves the
      cached value, except in Fault2, where the reader yields false for it. */
  datatype Message =
    | St2(faultLevel: Option<int>, powerOff: Option<bool>)
    | CurrentLimit
    | Fault1(insulation: Option<int>, overCharge: Option<bool>, hvil: Option<bool>)
    | Fault2(selfProtect: bool, mainPrecharge: bool, auxPrecharge: bool, chargeInsulation: bool)
    | Tm2b(tmsLevel: Option<int>)
    | Fire2b(alarmLevel: Option<int>)
    | Other

  datatype Times = Times(rx: nat, st2: nat, currentLimit: nat, fault1: nat, fault2: nat)

  datatype Levels = Levels(fault: int, powerOff: bool, tms: int, fire: int, fireAlarm: int)

  datatype Flags1 = Flags1(insulation: int, overCharge: bool, hvil: bool)

  datatype Flags2 = Flags2(selfProtect: bool, mainPrecharge: bool, auxPrecharge: bool, chargeInsulation: bool)

  datatype Health = Health(online: bool, stale: bool, st2: bool, currentLimit: bool, fault1: bool, fault2: bool)

  /** BmsPerInstanceCache. */
  datatype Instance = Instance(
    seen: bool, times: Times, levels: Levels, f1: Flags1, f2: Flags2, allowClose: bool, health: Health)

  const NEW_INSTANCE := Instance(
    false, Times(0, 0, 0, 0, 0), Levels(0, false, 0, 0, 0), Flags1(0, false, false),
    Flags2(false, false, false, false), true, Health(false, false, false, false, false, false))

  // ---- Messages --------------------------------------------------------------------------

  function TimesAfter(t: Times, m: Message, ts: nat): Times {
    match m
    case St2(_, _) => t.(rx := ts, st2 := ts)
    case CurrentLimit => t.(rx := ts, currentLimit := ts)
    case Fault1(_, _, _) => t.(rx := ts, fault1 := ts)
    case Fault2(_, _, _, _) => t.(rx := ts, fault2 := ts)
    case _ => t.(rx := ts)
  }

  function LevelsAfter(l: Levels, m: Message): Levels {
    match m
    case St2(level, off) => l.(fault := Or(level, l.fault), powerOff := Or(off, l.powerOff))
    case Tm2b(level) => l.(tms := Or(level, l.tms))
    case Fire2b(alarm) => l.(fireAlarm := Or(alarm, l.fireAlarm))
    case _ => l
  }

  function Flags1After(f: Flags1, m: Message): Flags1 {
    match m
    case Fault1(ins, over, hvil) =>
      Flags1(Or(ins, f.insulation), Or(over, f.overCharge), Or(hvil, f.hvil))
    case _ => f
  }

  function Flags2After(f: Flags2, m: Message): Flags2 {
    match m
    case Fault2(self, main, aux, ins) => Flags2(self, main, aux, ins)
    case _ => f
  }

  /** A message of a monitored group marks it online until the next tick works it out. */
  function HealthAfter(h: Health, m: Message): Health {
    match m
    case St2(_, _) => h.(st2 := true)
    case CurrentLimit => h.(currentLimit := true)
    case Fault1(_, _, _) => h.(fault1 := true)
    case Fault2(_, _, _, _) => h.(fault2 := true)
    case _ => h
  }

  predicate ShouldOpen(l: Levels, f1: Flags1, f2: Flags2) {
    || l.powerOff || l.fault >= 2 || l.fire >= 2
    || f1.hvil || f1.overCharge || f1.insulation >= 3
    || f2.selfProtect || f2.mainPrecharge || f2.auxPrecharge || f2.chargeInsulation
  }

  function Receive(x: Instance, m: Message, ts: nat): Instance {
    var l, f1, f2 := LevelsAfter(x.levels, m), Flags1After(x.f1, m), Flags2After(x.f2, m);
    Instance(true, TimesAfter(x.times, m, ts), l, f1, f2, !ShouldOpen(l, f1, f2), HealthAfter(x.health, m))
  }

  // ---- Health ----------------------------------------------------------------------------

  const ST2_TIMEOUT: nat := 3000
  const CURRENT_LIMIT_TIMEOUT: nat := 3000
  const FAULT_TIMEOUT: nat := 5000
  const INSTANCE_TIMEOUT: nat := 5000

  predicate FreshAt(now: nat, last: nat, timeout: nat) {
    last != 0 && last <= now && now - last <= timeout
  }

  function HealthAt(x: Instance, now: nat): Health {
    var t := x.times;
    var st2, cl := FreshAt(now, t.st2, ST2_TIMEOUT), FreshAt(now, t.currentLimit, CURRENT_LIMIT_TIMEOUT);
    var fault1, fault2 := FreshAt(now, t.fault1, FAULT_TIMEOUT), FreshAt(now, t.fault2, FAULT_TIMEOUT);
    var stale := (t.st2 > 0 && !st2) || (t.currentLimit > 0 && !cl) ||
                 (t.fault1 > 0 && !fault1) || (t.fault2 > 0 && !fault2);
    Health(x.seen && FreshAt(now, t.rx, INSTANCE_TIMEOUT), stale, st2, cl, fault1, fault2)
  }

  function Aged(x: Instance, now: nat): Instance {
    x.(health := HealthAt(x, now))
  }

  // ---- The cache -------------------------------------------------------------------------

  type Cache = map<string, Instance>

  function Entry(c: Cache, name: string): Instance {
    if name in c then c[name] else NEW_INSTANCE
  }

  function Received(c: Cache, name: string, m: Message, ts: nat): Cache {
    c[name := Receive(Entry(c, name), m, ts)]
  }

  function AgedAll(c: Cache, now: nat): Cache {
    map name | name in c :: Aged(c[name], now)
  }

  class BmsLogicCache {
    var items: Cache

    constructor ()
      ensures items == map[]
    {
      items := map[];
    }

    /** onDeviceData, once the instance name and the fields are read out. */
    method OnDeviceData(name: string, m: Message, ts: nat)
      modifies this
      ensures items == Received(old(items), name, m, ts)
    {
      var x := if name in items then items[name] else NEW_INSTANCE;
      var times, levels, f1, f2 := x.times.(rx := ts), x.levels, x.f1, x.f2;
      match m {
        case St2(_, _) =>
          levels := UpdateFromSt2(levels, m);
          times := times.(st2 := ts);
        case CurrentLimit =>
          times := times.(currentLimit := ts);
        case Fault1(_, _, _) =>
          f1 := UpdateFromFault1(f1, m);
          times := times.(fault1 := ts);
        case Fault2(self, main, aux, ins) =>
          f2 := Flags2(self, main, aux, ins);
          times := times.(fault2 := ts);
        case Tm2b(level) =>
          if level.Some? { levels := levels.(tms := level.value); }
        case Fire2b(alarm) =>
          if alarm.Some? { levels := levels.(fireAlarm := alarm.value); }
        case Other =>
      }
      var allow := !ShouldOpen(levels, f1, f2);
      items := items[name := Instance(true, times, levels, f1, f2, allow, HealthAfter(x.health, m))];
    }

    static method UpdateFromSt2(l: Levels, m: Message) returns (r: Levels)
      requires m.St2?
      ensures r == LevelsAfter(l, m)
    {
      r := l;
      if m.faultLevel.Some? { r := r.(fault := m.faultLevel.value); }
      if m.powerOff.Some? { r := r.(powerOff := m.powerOff.value); }
    }

    static method UpdateFromFault1(f: Flags1, m: Message) returns (r: Flags1)
      requires m.Fault1?
      ensures r == Flags1After(f, m)
    {
      r := f;
      if m.insulation.Some? { r := r.(insulation := m.insulation.value); }
      if m.overCharge.Some? { r := r.(overCharge := m.overCharge.value); }
      if m.hvil.Some? { r := r.(hvil := m.hvil.value); }
    }

    /** updateBmsRuntimeHealth_, over the entries in some order. */
    method UpdateHealth(now: nat)
      modifies this
      ensures items == AgedAll(old(items), now)
    {
      var left := items.Keys;
      while left != {}
        invariant left <= items.Keys == old(items).Keys
        invariant forall n :: n in items ==>
                    items[n] == if n in left then old(items)[n] else Aged(old(items)[n], now)
        decreases left
      {
        var n :| n in left;
        items := items[n := items[n].(health := HealthAt(items[n], now))];
        left := left - {n};
      }
    }
  }

  // ---- What the fields say about the messages --------------------------------------------

  datatype Rx = Rx(name: string, m: Message, ts: nat)

  /** When the latest message of an instance that passes a test arrived, 0 if none has. */
  function LastTime(log: seq<Rx>, name: string, which: Message -> bool): nat {
    if |log| == 0 then 0
    else
      var r := log[|log| - 1];
      if r.name == name && which(r.m) then r.ts else LastTime(log[..|log| - 1], name, which)
  }

  /** The value carried by the latest message of an instance that carries one. */
  function LastValue<T>(log: seq<Rx>, name: string, pick: Message -> Option<T>, default: T): T {
    if |log| == 0 then default
    else
      var r := log[|log| - 1];
      if r.name == name && pick(r.m).Some? then pick(r.m).value
      else LastValue(log[..|log| - 1], name, pick, default)
  }

  function Replayed(log: seq<Rx>): Cache {
    if |log| == 0 then map[]
    else
      var r := log[|log| - 1];
      Received(Replayed(log[..|log| - 1]), r.name, r.m, r.ts)
  }

  function Any(m: Message): bool { true }
  function IsSt2(m: Message): bool { m.St2? }
  function IsCurrentLimit(m: Message): bool { m.CurrentLimit? }
  function IsFault1(m: Message): bool { m.Fault1? }
  function IsFault2(m: Message): bool { m.Fault2? }

  function FaultLevel(m: Message): Option<int> { if m.St2? then m.faultLevel else None }
  function PowerOff(m: Message): Option<bool> { if m.St2? then m.powerOff else None }
  function TmsLevel(m: Message): Option<int> { if m.Tm2b? then m.tmsLevel else None }
  function FireAlarm(m: Message): Option<int> { if m.Fire2b? then m.alarmLevel else None }
  function Insulation(m: Message): Option<int> { if m.Fault1? then m.insulation else None }
  function OverCharge(m: Message): Option<bool> { if m.Fault1? then m.overCharge else None }
  function Hvil(m: Message): Option<bool> { if m.Fault1? then m.hvil else None }
  function SelfProtect(m: Message): Option<bool> { if m.Fault2? then Some(m.selfProtect) else None }
  function MainPrecharge(m: Message): Option<bool> { if m.Fault2? then Some(m.mainPrecharge) else None }
  function AuxPrecharge(m: Message): Option<bool> { if m.Fault2? then Some(m.auxPrecharge) else None }
  function ChargeInsulation(m: Message): Option<bool> { if m.Fault2? then Some(m.chargeInsulation) else None }

  lemma {:induction false} TimesTell(log: seq<Rx>, name: string)
    ensures var t := Entry(Replayed(log), name).times;
            && t.rx == LastTime(log, name, Any)
            && t.st2 == LastTime(log, name, IsSt2)
            && t.currentLimit == LastTime(log, name, IsCurrentLimit)
            && t.fault1 == LastTime(log, name, IsFault1)
            && t.fault2 == LastTime(log, name, IsFault2)
  {
    if |log| > 0 {
      TimesTell(log[..|log| - 1], name);
    }
  }

  /** The fire level that the checks read is never written. */
  lemma {:induction false} LevelsTell(log: seq<Rx>, name: string)
    ensures var l := Entry(Replayed(log), name).levels;
            && l.fault == LastValue(log, name, FaultLevel, 0)
            && l.powerOff == LastValue(log, name, PowerOff, false)
            && l.tms == LastValue(log, name, TmsLevel, 0)
            && l.fireAlarm == LastValue(log, name, FireAlarm, 0)
            && l.fire == 0
  {
    if |log| > 0 {
      LevelsTell(log[..|log| - 1], name);
    }
  }

  lemma {:induction false} EntryNext(log: seq<Rx>, name: string)
    requires |log| > 0
    ensures var n := |log| - 1;
            var was, now := Entry(Replayed(log[..n]), name), Entry(Replayed(log), name);
            && now.f1 == (if log[n].name == name then Flags1After(was.f1, log[n].m) else was.f1)
            && now.f2 == (if log[n].name == name then Flags2After(was.f2, log[n].m) else was.f2)
  {}

  lemma {:induction false} Flags1Tell(log: seq<Rx>, name: string)
    ensures var f := Entry(Replayed(log), name).f1;
            && f.insulation == LastValue(log, name, Insulation, 0)
            && f.overCharge == LastValue(log, name, OverCharge, false)
            && f.hvil == LastValue(log, name, Hvil, false)
  {
    if |log| > 0 {
      EntryNext(log, name);
      Flags1Tell(log[..|log| - 1], name);
    }
  }

  lemma {:induction false} ProtectTells(log: seq<Rx>, name: string)
    ensures var f := Entry(Replayed(log), name).f2;
            && f.selfProtect == LastValue(log, name, SelfProtect, false)
            && f.chargeInsulation == LastValue(log, name, ChargeInsulation, false)
  {
    if |log| > 0 {
      EntryNext(log, name);
      ProtectTells(log[..|log| - 1], name);
    }
  }

  lemma {:induction false} PrechargeTells(log: seq<Rx>, name: string)
    ensures var f := Entry(Replayed(log), name).f2;
            && f.mainPrecharge == LastValue(log, name, MainPrecharge, false)
            && f.auxPrecharge == LastValue(log, name, AuxPrecharge, false)
  {
    if |log| > 0 {
      EntryNext(log, name);
      PrechargeTells(log[..|log| - 1], name);
    }
  }

  lemma {:induction false} Flags2Tell(log: seq<Rx>, name: string)
    ensures var f := Entry(Replayed(log), name).f2;
            && f.selfProtect == LastValue(log, name, SelfProtect, false)
            && f.mainPrecharge == LastValue(log, name, MainPrecharge, false)
            && f.auxPrecharge == LastValue(log, name, AuxPrecharge, false)
            && f.chargeInsulation == LastValue(log, name, ChargeInsulation, false)
  {
    ProtectTells(log, name);
    PrechargeTells(log, name);
  }

  /** The closing flag is never out of date with the fields it is made of. */
  lemma {:induction false} AllowCloseTells(log: seq<Rx>, name: string)
    ensures var x := Entry(Replayed(log), name);
            && x.allowClose == !ShouldOpen(x.levels, x.f1, x.f2)
            && (x.times.rx != 0 ==> x.seen)
            && (name !in Replayed(log) ==> x == NEW_INSTANCE)
  {
    if |log| > 0 {
      AllowCloseTells(log[..|log| - 1], name);
    }
  }

  lemma GroupMarked(h: Health, m: Message)
    ensures HealthAfter(h, m) ==
            Health(h.online, h.stale, m.St2? || h.st2, m.CurrentLimit? || h.currentLimit,
                   m.Fault1? || h.fault1, m.Fault2? || h.fault2)
  {}

  /** A message marks its own group online and leaves the other marks to the next tick. */
  lemma MessageMarks(c: Cache, name: string, m: Message, ts: nat)
    ensures var h := Entry(c, name).health;
            Entry(Received(c, name, m, ts), name).health ==
            Health(h.online, h.stale, m.St2? || h.st2, m.CurrentLimit? || h.currentLimit,
                   m.Fault1? || h.fault1, m.Fault2? || h.fault2)
  {
    GroupMarked(Entry(c, name).health, m);
  }

  // ---- Logs that say little --------------------------------------------------------------

  /** Where all messages are of one instance and one time, that is the time of each kind there is. */
  lemma {:induction false} SameTime(log: seq<Rx>, name: string, which: Message -> bool, at: nat, k: nat)
    requires forall i :: 0 <= i < |log| ==> log[i].name == name && log[i].ts == at
    requires k < |log| && which(log[k].m)
    ensures LastTime(log, name, which) == at
  {
    var n := |log| - 1;
    if !which(log[n].m) {
      SameTime(log[..n], name, which, at, k);
    }
  }

  /** Where no message says otherwise, a value is the default. */
  lemma {:induction false} NothingSaid<T(!new)>(log: seq<Rx>, name: string, pick: Message -> Option<T>, default: T)
    requires forall i :: 0 <= i < |log| ==> pick(log[i].m) in {None, Some(default)}
    ensures LastValue(log, name, pick, default) == default
  {
    if |log| > 0 {
      var n := |log| - 1;
      assert pick(log[n].m) in {None, Some(default)};
      NothingSaid(log[..n], name, pick, default);
    }
  }
}
