/**
 * FaultLogicEvaluator::evaluateAll (services/control/fault/fault_logic_evaluator.cpp): one cycle
 * of keyed updates, in order, several of which share a key.
 */
module FaultEvaluator {
  import opened Debounce
  import opened FaultConditions

  /** The confirmed signals, one per key "logic.<name>". */
  datatype Signal =
    | Pcu0Offline | Pcu1Offline | Pcu1CommFault | Pcu2CommFault
    | Pcu0EmergencyStop | Pcu1EmergencyStop | Pcu2EmergencyStop
    | EnvAnyAlarm | AnyFault
    | HmiCommFault | RemoteCommFault | AirconCommFault | UpsCommFault | TssCommFault | CgsCommFault
    | Bms1CommFault | Bms2CommFault | Bms3CommFault | Bms4CommFault
    | SdcardFault

  datatype Pcu = Pcu(online: bool, estop: bool) {
    /** An offline PCU's old stop flag does not count. */
    predicate RawStop() {
      online && estop
    }
  }

  /** The raw conditions a cycle reads. */
  datatype Inputs = Inputs(
    pcu0: Pcu, pcu1: Pcu,
    envAnyAlarm: bool, anyFault: bool,
    hmiFault: bool, remoteFault: bool, sdFault: bool,
    airOnline: bool, upsOnline: bool, smokeOnline: bool, gasOnline: bool,
    bms1Offline: bool, bms2Offline: bool, bms3Offline: bool, bms4Offline: bool)

  function Raw(s: Signal, raw: bool, toOn: nat, toOff: nat): Keyed<Signal> {
    Keyed(s, raw, !raw, Delays(toOn, toOff))
  }

  /** How a keyed update changes a condition. The source's way is FaultConditions.Step; the order
      and sharing of keys is the same for any way. */
  type Stepper = (Condition, Keyed<Signal>, nat) -> Condition

  // The updates of a cycle, in source order, four to a group.

  function Pcu1(step: Stepper, m: map<Signal, Condition>, x: Inputs, now: nat): map<Signal, Condition> {
    ApplyFour(step, m,
              Raw(Pcu0Offline, !x.pcu0.online, 3000, 0),
              Raw(Pcu1Offline, !x.pcu1.online, 3000, 0),
              Raw(Pcu1CommFault, !x.pcu0.online, 3000, 0),
              Raw(Pcu2CommFault, !x.pcu1.online, 3000, 0), now)
  }

  function Pcu2(step: Stepper, m: map<Signal, Condition>, x: Inputs, now: nat): map<Signal, Condition> {
    ApplyFour(step, m,
              Raw(Pcu0EmergencyStop, x.pcu0.RawStop(), 300, 0),
              Raw(Pcu1EmergencyStop, x.pcu1.RawStop(), 300, 0),
              Raw(Pcu1EmergencyStop, x.pcu0.RawStop(), 300, 0),
              Raw(Pcu2EmergencyStop, x.pcu1.RawStop(), 300, 0), now)
  }

  function Logic1(step: Stepper, m: map<Signal, Condition>, x: Inputs, now: nat): map<Signal, Condition> {
    ApplyFour(step, m,
              Raw(EnvAnyAlarm, x.envAnyAlarm, 2000, 1000),
              Raw(AnyFault, x.anyFault, 2000, 1000),
              Raw(HmiCommFault, x.hmiFault, 3000, 1000),
              Raw(RemoteCommFault, x.remoteFault, 3000, 1000), now)
  }

  function Logic2(step: Stepper, m: map<Signal, Condition>, x: Inputs, now: nat): map<Signal, Condition> {
    ApplyFour(step, m,
              Raw(AirconCommFault, !x.airOnline, 3000, 1000),
              Raw(UpsCommFault, !x.upsOnline, 3000, 1000),
              Raw(TssCommFault, !x.smokeOnline, 3000, 1000),
              Raw(CgsCommFault, !x.gasOnline, 3000, 1000), now)
  }

  function Logic3(step: Stepper, m: map<Signal, Condition>, x: Inputs, now: nat): map<Signal, Condition> {
    ApplyFour(step, m,
              Raw(Pcu1CommFault, !x.pcu0.online, 3000, 1000),
              Raw(Pcu2CommFault, !x.pcu1.online, 3000, 1000),
              Raw(Bms1CommFault, x.bms1Offline, 3000, 1000),
              Raw(Bms2CommFault, x.bms2Offline, 3000, 1000), now)
  }

  function Logic4(step: Stepper, m: map<Signal, Condition>, x: Inputs, now: nat): map<Signal, Condition> {
    ApplyFour(step, m,
              Raw(Bms3CommFault, x.bms3Offline, 3000, 1000),
              Raw(Bms4CommFault, x.bms4Offline, 3000, 1000),
              Raw(RemoteCommFault, x.remoteFault, 3000, 1000),
              Raw(SdcardFault, x.sdFault, 3000, 1000), now)
  }

  /** evaluateAll on the condition engine. */
  function Evaluate(step: Stepper, m: map<Signal, Condition>, x: Inputs, now: nat): map<Signal, Condition> {
    var p := Pcu2(step, Pcu1(step, m, x, now), x, now);
    var q := Logic2(step, Logic1(step, p, x, now), x, now);
    Logic4(step, Logic3(step, q, x, now), x, now)
  }

  /** A cycle moves the stop key through both its updates, in order. */
  ghost predicate StopsInTurn(step: Stepper, m: map<Signal, Condition>, n: map<Signal, Condition>, x: Inputs, now: nat)
  {
    At(n, Pcu1EmergencyStop) ==
    step(step(At(m, Pcu1EmergencyStop), Raw(Pcu1EmergencyStop, x.pcu1.online && x.pcu1.estop, 300, 0), now),
         Raw(Pcu1EmergencyStop, x.pcu0.online && x.pcu0.estop, 300, 0), now)
  }

  lemma PcuStops(step: Stepper, m: map<Signal, Condition>, x: Inputs, now: nat)
    ensures StopsInTurn(step, m, Pcu2(step, Pcu1(step, m, x, now), x, now), x, now)
  {}

  lemma FirstSparesStop(step: Stepper, m: map<Signal, Condition>, x: Inputs, now: nat)
    ensures At(Logic2(step, Logic1(step, m, x, now), x, now), Pcu1EmergencyStop) == At(m, Pcu1EmergencyStop)
  {}

  lemma RestSparesStop(step: Stepper, m: map<Signal, Condition>, x: Inputs, now: nat)
    ensures At(Logic4(step, Logic3(step, m, x, now), x, now), Pcu1EmergencyStop) == At(m, Pcu1EmergencyStop)
  {}

  lemma EvaluateStops(step: Stepper, m: map<Signal, Condition>, x: Inputs, now: nat)
    ensures StopsInTurn(step, m, Evaluate(step, m, x, now), x, now)
  {
    var p := Pcu2(step, Pcu1(step, m, x, now), x, now);
    PcuStops(step, m, x, now);
    FirstSparesStop(step, p, x, now);
    RestSparesStop(step, Logic2(step, Logic1(step, p, x, now), x, now), x, now);
  }

  // ---- Whole runs ------------------------------------------------------------------------

  datatype Cycle = Cycle(inputs: Inputs, now: nat)

  ghost predicate TimeMoves(cs: seq<Cycle>) {
    forall i, j :: 0 <= i < j < |cs| ==> cs[i].now <= cs[j].now
  }

  /** What a cycle does to the condition engine. */
  type Cycler = (map<Signal, Condition>, Inputs, nat) -> map<Signal, Condition>

  ghost predicate AlwaysStops(cycle: Cycler, step: Stepper) {
    forall m, x, now :: StopsInTurn(step, m, cycle(m, x, now), x, now)
  }

  /** The source's cycle. */
  function CycleOf(m: map<Signal, Condition>, x: Inputs, now: nat): map<Signal, Condition> {
    Evaluate(Step, m, x, now)
  }

  lemma CycleStops()
    ensures AlwaysStops(CycleOf, Step)
  {
    forall m, x, now
      ensures StopsInTurn(Step, m, CycleOf(m, x, now), x, now)
    {
      EvaluateStops(Step, m, x, now);
    }
  }

  /** The condition engine after the cycles. */
  function After(cycle: Cycler, cs: seq<Cycle>): map<Signal, Condition> {
    if |cs| == 0 then map[]
    else cycle(After(cycle, cs[..|cs| - 1]), cs[|cs| - 1].inputs, cs[|cs| - 1].now)
  }

  /** One key, one update per sample. */
  function Single(step: Stepper, key: Signal, d: Delays, s: seq<RawSample>): Condition {
    if |s| == 0 then RESET
    else
      var x := s[|s| - 1];
      step(Single(step, key, d, s[..|s| - 1]), Raw(key, x.raw, d.toOn, d.toOff), x.now)
  }

  lemma {:induction false} SingleIsRun(key: Signal, d: Delays, s: seq<RawSample>)
    ensures Single(Step, key, d, s) == RunCondition(d, s)
  {
    if |s| > 0 {
      SingleIsRun(key, d, s[..|s| - 1]);
    }
  }

  // ---- Shared keys -----------------------------------------------------------------------

  /** A second update with the same raw value at the same time adds nothing. */
  ghost predicate SecondIdle(step: Stepper, key: Signal, toOn: nat, toOff: nat, toOff': nat) {
    forall c, raw, now ::
      step(step(c, Raw(key, raw, toOn, toOff), now), Raw(key, raw, toOn, toOff'), now) ==
      step(c, Raw(key, raw, toOn, toOff), now)
  }

  lemma SecondUpdateIdle(key: Signal, toOn: nat, toOff: nat, toOff': nat)
    requires toOff == 0 || toOff' == toOff
    ensures SecondIdle(Step, key, toOn, toOff, toOff')
  {}

  // ---- Every key on its own ----------------------------------------------------------------

  /** The raw condition each key stands for; pcu1_emergency_stop, which has two, is apart. */
  predicate RawOf(s: Signal, x: Inputs)
    requires s != Pcu1EmergencyStop
  {
    match s
    case Pcu0Offline | Pcu1CommFault => !x.pcu0.online
    case Pcu1Offline | Pcu2CommFault => !x.pcu1.online
    case Pcu0EmergencyStop => x.pcu0.online && x.pcu0.estop
    case Pcu2EmergencyStop => x.pcu1.online && x.pcu1.estop
    case EnvAnyAlarm => x.envAnyAlarm
    case AnyFault => x.anyFault
    case HmiCommFault => x.hmiFault
    case RemoteCommFault => x.remoteFault
    case AirconCommFault => !x.airOnline
    case UpsCommFault => !x.upsOnline
    case TssCommFault => !x.smokeOnline
    case CgsCommFault => !x.gasOnline
    case Bms1CommFault => x.bms1Offline
    case Bms2CommFault => x.bms2Offline
    case Bms3CommFault => x.bms3Offline
    case Bms4CommFault => x.bms4Offline
    case SdcardFault => x.sdFault
  }

  /** The delays each key turns out to have. */
  function DelaysOf(s: Signal): Delays {
    match s
    case Pcu0Offline | Pcu1Offline | Pcu1CommFault | Pcu2CommFault => Delays(3000, 0)
    case Pcu0EmergencyStop | Pcu1EmergencyStop | Pcu2EmergencyStop => Delays(300, 0)
    case EnvAnyAlarm | AnyFault => Delays(2000, 1000)
    case _ => Delays(3000, 1000)
  }

  /** The raw condition of a key, cycle by cycle. */
  function SamplesOf(s: Signal, cs: seq<Cycle>): seq<RawSample>
    requires s != Pcu1EmergencyStop
  {
    seq(|cs|, i requires 0 <= i < |cs| => RawSample(RawOf(s, cs[i].inputs), cs[i].now))
  }

  /** A cycle moves the key as one update with its own raw condition and delays. */
  ghost predicate OneUpdate(step: Stepper, m: map<Signal, Condition>, n: map<Signal, Condition>, s: Signal,
                            x: Inputs, now: nat)
    requires s != Pcu1EmergencyStop
  {
    At(n, s) == step(At(m, s), Raw(s, RawOf(s, x), DelaysOf(s).toOn, DelaysOf(s).toOff), now)
  }

  /** A part of a cycle moves the key so if it is the part's own, and leaves it otherwise. */
  ghost predicate Moved(step: Stepper, m: map<Signal, Condition>, n: map<Signal, Condition>, s: Signal,
                        x: Inputs, now: nat, own: bool)
    requires s != Pcu1EmergencyStop
  {
    if own then OneUpdate(step, m, n, s, x, now) else At(n, s) == At(m, s)
  }

  /** The same for a part whose update clears after a second. */
  ghost predicate MovedSlowly(step: Stepper, m: map<Signal, Condition>, n: map<Signal, Condition>, s: Signal,
                              x: Inputs, now: nat, own: bool)
    requires s != Pcu1EmergencyStop
  {
    At(n, s) == if own then step(At(m, s), Raw(s, RawOf(s, x), 3000, 1000), now) else At(m, s)
  }

  lemma Pcu1Updates(step: Stepper, m: map<Signal, Condition>, x: Inputs, now: nat, s: Signal)
    requires s != Pcu1EmergencyStop
    ensures Moved(step, m, Pcu1(step, m, x, now), s, x, now,
                  s.Pcu0Offline? || s.Pcu1Offline? || s.Pcu1CommFault? || s.Pcu2CommFault?)
  {}

  lemma Pcu2Updates(step: Stepper, m: map<Signal, Condition>, x: Inputs, now: nat, s: Signal)
    requires s != Pcu1EmergencyStop
    ensures Moved(step, m, Pcu2(step, m, x, now), s, x, now,
                  s.Pcu0EmergencyStop? || s.Pcu2EmergencyStop?)
  {}

  lemma Logic1Updates(step: Stepper, m: map<Signal, Condition>, x: Inputs, now: nat, s: Signal)
    requires s != Pcu1EmergencyStop
    ensures Moved(step, m, Logic1(step, m, x, now), s, x, now,
                  s.EnvAnyAlarm? || s.AnyFault? || s.HmiCommFault? || s.RemoteCommFault?)
  {}

  lemma Logic2Own(step: Stepper, m: map<Signal, Condition>, x: Inputs, now: nat, s: Signal)
    requires s.AirconCommFault? || s.UpsCommFault? || s.TssCommFault? || s.CgsCommFault?
    ensures Moved(step, m, Logic2(step, m, x, now), s, x, now, true)
  {}

  lemma Logic2Spares(step: Stepper, m: map<Signal, Condition>, x: Inputs, now: nat, s: Signal)
    requires s != Pcu1EmergencyStop
    requires !(s.AirconCommFault? || s.UpsCommFault? || s.TssCommFault? || s.CgsCommFault?)
    ensures Moved(step, m, Logic2(step, m, x, now), s, x, now, false)
  {}

  lemma Logic2Updates(step: Stepper, m: map<Signal, Condition>, x: Inputs, now: nat, s: Signal)
    requires s != Pcu1EmergencyStop
    ensures Moved(step, m, Logic2(step, m, x, now), s, x, now,
                  s.AirconCommFault? || s.UpsCommFault? || s.TssCommFault? || s.CgsCommFault?)
  {
    if s.AirconCommFault? || s.UpsCommFault? || s.TssCommFault? || s.CgsCommFault? {
      Logic2Own(step, m, x, now, s);
    } else {
      Logic2Spares(step, m, x, now, s);
    }
  }

  lemma Logic3Updates(step: Stepper, m: map<Signal, Condition>, x: Inputs, now: nat, s: Signal)
    requires s != Pcu1EmergencyStop
    ensures MovedSlowly(step, m, Logic3(step, m, x, now), s, x, now,
                        s.Pcu1CommFault? || s.Pcu2CommFault? || s.Bms1CommFault? || s.Bms2CommFault?)
  {}

  lemma Logic4Own(step: Stepper, m: map<Signal, Condition>, x: Inputs, now: nat, s: Signal)
    requires s.Bms3CommFault? || s.Bms4CommFault? || s.RemoteCommFault? || s.SdcardFault?
    ensures MovedSlowly(step, m, Logic4(step, m, x, now), s, x, now, true)
  {}

  lemma Logic4Spares(step: Stepper, m: map<Signal, Condition>, x: Inputs, now: nat, s: Signal)
    requires s != Pcu1EmergencyStop
    requires !(s.Bms3CommFault? || s.Bms4CommFault? || s.RemoteCommFault? || s.SdcardFault?)
    ensures MovedSlowly(step, m, Logic4(step, m, x, now), s, x, now, false)
  {}

  lemma Logic4Updates(step: Stepper, m: map<Signal, Condition>, x: Inputs, now: nat, s: Signal)
    requires s != Pcu1EmergencyStop
    ensures MovedSlowly(step, m, Logic4(step, m, x, now), s, x, now,
                        s.Bms3CommFault? || s.Bms4CommFault? || s.RemoteCommFault? || s.SdcardFault?)
  {
    if s.Bms3CommFault? || s.Bms4CommFault? || s.RemoteCommFault? || s.SdcardFault? {
      Logic4Own(step, m, x, now, s);
    } else {
      Logic4Spares(step, m, x, now, s);
    }
  }

  /** Six parts after one another. */
  lemma PartsUpdate(step: Stepper, m: map<Signal, Condition>, p1: map<Signal, Condition>, p2: map<Signal, Condition>,
                    l1: map<Signal, Condition>, l2: map<Signal, Condition>, l3: map<Signal, Condition>,
                    l4: map<Signal, Condition>, x: Inputs, now: nat, s: Signal)
    requires s != Pcu1EmergencyStop && SecondIdle(step, s, 3000, DelaysOf(s).toOff, 1000)
    requires Moved(step, m, p1, s, x, now, s.Pcu0Offline? || s.Pcu1Offline? || s.Pcu1CommFault? || s.Pcu2CommFault?)
    requires Moved(step, p1, p2, s, x, now, s.Pcu0EmergencyStop? || s.Pcu2EmergencyStop?)
    requires Moved(step, p2, l1, s, x, now, s.EnvAnyAlarm? || s.AnyFault? || s.HmiCommFault? || s.RemoteCommFault?)
    requires Moved(step, l1, l2, s, x, now, s.AirconCommFault? || s.UpsCommFault? || s.TssCommFault? || s.CgsCommFault?)
    requires MovedSlowly(step, l2, l3, s, x, now,
                         s.Pcu1CommFault? || s.Pcu2CommFault? || s.Bms1CommFault? || s.Bms2CommFault?)
    requires MovedSlowly(step, l3, l4, s, x, now,
                         s.Bms3CommFault? || s.Bms4CommFault? || s.RemoteCommFault? || s.SdcardFault?)
    ensures OneUpdate(step, m, l4, s, x, now)
  {}

  lemma EvaluateUpdates(step: Stepper, m: map<Signal, Condition>, x: Inputs, now: nat, s: Signal)
    requires s != Pcu1EmergencyStop && SecondIdle(step, s, 3000, DelaysOf(s).toOff, 1000)
    ensures OneUpdate(step, m, Evaluate(step, m, x, now), s, x, now)
  {
    var p1 := Pcu1(step, m, x, now);
    var p2 := Pcu2(step, p1, x, now);
    var l1 := Logic1(step, p2, x, now);
    var l2 := Logic2(step, l1, x, now);
    var l3 := Logic3(step, l2, x, now);
    Pcu1Updates(step, m, x, now, s);
    Pcu2Updates(step, p1, x, now, s);
    Logic1Updates(step, p2, x, now, s);
    Logic2Updates(step, l1, x, now, s);
    Logic3Updates(step, l2, x, now, s);
    Logic4Updates(step, l3, x, now, s);
    PartsUpdate(step, m, p1, p2, l1, l2, l3, Logic4(step, l3, x, now), x, now, s);
  }

  lemma {:induction false} KeyRun(cycle: Cycler, step: Stepper, s: Signal, cs: seq<Cycle>)
    requires s != Pcu1EmergencyStop
    requires forall m, x, now :: OneUpdate(step, m, cycle(m, x, now), s, x, now)
    ensures At(After(cycle, cs), s) == Single(step, s, DelaysOf(s), SamplesOf(s, cs))
  {
    if |cs| > 0 {
      var c, rest := cs[|cs| - 1], cs[..|cs| - 1];
      KeyRun(cycle, step, s, rest);
      assert OneUpdate(step, After(cycle, rest), After(cycle, cs), s, c.inputs, c.now);
      assert SamplesOf(s, cs)[..|cs| - 1] == SamplesOf(s, rest);
    }
  }

  /** Over every run, every key but pcu1_emergency_stop holds the debounce of its own raw condition
      with its own delays. That includes remote_comm_fault, which is updated twice a cycle, and
      pcu1_comm_fault and pcu2_comm_fault, which are updated with different clear delays and have
      the first. */
  lemma {:induction false} KeysAreOwnDebounces(cs: seq<Cycle>, s: Signal)
    requires s != Pcu1EmergencyStop
    ensures At(After(CycleOf, cs), s) == RunCondition(DelaysOf(s), SamplesOf(s, cs))
  {
    SecondUpdateIdle(s, 3000, DelaysOf(s).toOff, 1000);
    forall m, x, now
      ensures OneUpdate(Step, m, CycleOf(m, x, now), s, x, now)
    {
      EvaluateUpdates(Step, m, x, now, s);
    }
    KeyRun(CycleOf, Step, s, cs);
    SingleIsRun(s, DelaysOf(s), SamplesOf(s, cs));
  }

  /** An online PCU reports stop; an offline one's old flag does not count. */
  predicate Stopped(p: Pcu) {
    p.online && p.estop
  }

  /** What pcu1_emergency_stop sees: PCU_1's stop, then PCU_0's, every cycle. */
  function StopSamples(cs: seq<Cycle>): seq<RawSample> {
    if |cs| == 0 then []
    else
      var c := cs[|cs| - 1];
      StopSamples(cs[..|cs| - 1]) +
        [RawSample(Stopped(c.inputs.pcu1), c.now), RawSample(Stopped(c.inputs.pcu0), c.now)]
  }

  lemma {:induction false} StopSamplesAt(cs: seq<Cycle>)
    ensures |StopSamples(cs)| == 2 * |cs|
    ensures forall i :: 0 <= i < |cs| ==>
              && StopSamples(cs)[2 * i] == RawSample(Stopped(cs[i].inputs.pcu1), cs[i].now)
              && StopSamples(cs)[2 * i + 1] == RawSample(Stopped(cs[i].inputs.pcu0), cs[i].now)
  {
    if |cs| > 0 {
      StopSamplesAt(cs[..|cs| - 1]);
    }
  }

  lemma {:induction false} StopRun(cycle: Cycler, step: Stepper, cs: seq<Cycle>)
    requires AlwaysStops(cycle, step)
    ensures At(After(cycle, cs), Pcu1EmergencyStop) ==
            Single(step, Pcu1EmergencyStop, Delays(300, 0), StopSamples(cs))
  {
    if |cs| > 0 {
      var c, rest := cs[|cs| - 1], cs[..|cs| - 1];
      StopRun(cycle, step, rest);
      assert StopsInTurn(step, After(cycle, rest), After(cycle, cs), c.inputs, c.now);
      SingleTwoMore(step, StopSamples(rest),
                    RawSample(Stopped(c.inputs.pcu1), c.now), RawSample(Stopped(c.inputs.pcu0), c.now));
    }
  }

  lemma {:induction false} SingleTwoMore(step: Stepper, s: seq<RawSample>, x: RawSample, y: RawSample)
    ensures Single(step, Pcu1EmergencyStop, Delays(300, 0), s + [x, y]) ==
            step(step(Single(step, Pcu1EmergencyStop, Delays(300, 0), s),
                      Raw(Pcu1EmergencyStop, x.raw, 300, 0), x.now),
                 Raw(Pcu1EmergencyStop, y.raw, 300, 0), y.now)
  {
    assert (s + [x, y])[..|s| + 1] == s + [x];
    assert (s + [x])[..|s|] == s;
  }

  /** Since cycle i PCU_0's stop has been raised in every cycle, and PCU_1's in every cycle
      after i. */
  ghost predicate BothStoppedSince(cs: seq<Cycle>, i: nat) {
    && (forall j :: i <= j < |cs| ==> Stopped(cs[j].inputs.pcu0))
    && (forall j :: i < j < |cs| ==> Stopped(cs[j].inputs.pcu1))
  }

  /** Exactly when the shared key pcu1_emergency_stop is confirmed: not when PCU_1 has been in
      stop for 300 ms, but when both have. */
  lemma {:induction false} EmergencyStopNeedsBoth(cs: seq<Cycle>)
    requires TimeMoves(cs)
    ensures At(After(CycleOf, cs), Pcu1EmergencyStop).on <==>
            exists i: nat :: i < |cs| && BothStoppedSince(cs, i) && cs[|cs| - 1].now - cs[i].now >= 300
  {
    CycleStops();
    StopRun(CycleOf, Step, cs);
    SingleIsRun(Pcu1EmergencyStop, Delays(300, 0), StopSamples(cs));
    SamplesTimeMoves(cs);
    InstantClear(300, StopSamples(cs));
    HeldMeansBoth(cs);
  }

  lemma {:induction false} HeldMeansBoth(cs: seq<Cycle>)
    ensures RawHeld(StopSamples(cs), 300) <==>
            exists i: nat :: i < |cs| && BothStoppedSince(cs, i) && cs[|cs| - 1].now - cs[i].now >= 300
  {
    var s := StopSamples(cs);
    StopSamplesAt(cs);
    if RawHeld(s, 300) {
      var k: nat :| k < |s| && RawFrom(s, k) && s[|s| - 1].now - s[k].now >= 300;
      StretchToCycles(cs, k);
    }
    if i: nat :| i < |cs| && BothStoppedSince(cs, i) && cs[|cs| - 1].now - cs[i].now >= 300 {
      CyclesToStretch(cs, i);
      assert s[2 * i + 1].now == cs[i].now;
    }
  }

  /** Index k of the samples belongs to cycle k / 2. */
  lemma {:induction false} SampleIndex(cs: seq<Cycle>, k: nat)
    requires k < 2 * |cs|
    ensures |StopSamples(cs)| == 2 * |cs|
    ensures var c := cs[k / 2];
            StopSamples(cs)[k] ==
            RawSample(if k % 2 == 0 then Stopped(c.inputs.pcu1) else Stopped(c.inputs.pcu0), c.now)
  {
    StopSamplesAt(cs);
    assert k == 2 * (k / 2) + k % 2;
  }

  lemma {:induction false} SamplesTimeMoves(cs: seq<Cycle>)
    requires TimeMoves(cs)
    ensures RawTimeMoves(StopSamples(cs))
  {
    StopSamplesAt(cs);
    forall i, j | 0 <= i < j < |StopSamples(cs)|
      ensures StopSamples(cs)[i].now <= StopSamples(cs)[j].now
    {
      SampleIndex(cs, i);
      SampleIndex(cs, j);
      assert i / 2 <= j / 2;
    }
  }

  lemma {:induction false} StretchToCycles(cs: seq<Cycle>, k: nat)
    requires |StopSamples(cs)| == 2 * |cs| && k < 2 * |cs|
    requires RawFrom(StopSamples(cs), k)
    ensures BothStoppedSince(cs, k / 2) && StopSamples(cs)[k].now == cs[k / 2].now
  {
    SampleIndex(cs, k);
    forall j | k / 2 <= j < |cs|
      ensures Stopped(cs[j].inputs.pcu0) && (j > k / 2 ==> Stopped(cs[j].inputs.pcu1))
    {
      SampleIndex(cs, 2 * j);
      SampleIndex(cs, 2 * j + 1);
      assert StopSamples(cs)[2 * j + 1].raw;
    }
  }

  lemma {:induction false} CyclesToStretch(cs: seq<Cycle>, i: nat)
    requires |StopSamples(cs)| == 2 * |cs| && i < |cs| && BothStoppedSince(cs, i)
    ensures RawFrom(StopSamples(cs), 2 * i + 1)
  {
    forall k | 2 * i + 1 <= k < 2 * |cs|
      ensures StopSamples(cs)[k].raw
    {
      SampleIndex(cs, k);
    }
  }

  /** The case: PCU_1 stopped in every cycle for as long as one likes, PCU_0 in none, and its stop is
      never confirmed. */
  lemma {:induction false} StopOfOneIsIgnored(cs: seq<Cycle>)
    requires TimeMoves(cs) && |cs| > 0
    requires forall i :: 0 <= i < |cs| ==> Stopped(cs[i].inputs.pcu1) && !Stopped(cs[i].inputs.pcu0)
    ensures !At(After(CycleOf, cs), Pcu1EmergencyStop).on
  {
    EmergencyStopNeedsBoth(cs);
    assert !Stopped(cs[|cs| - 1].inputs.pcu0);
  }

  /** So it is on only in cycles where both raw stops are true. */
  lemma {:induction false} EmergencyStopOnlyWithBoth(cs: seq<Cycle>)
    requires TimeMoves(cs) && At(After(CycleOf, cs), Pcu1EmergencyStop).on
    ensures |cs| > 0 && Stopped(cs[|cs| - 1].inputs.pcu0) && Stopped(cs[|cs| - 1].inputs.pcu1)
  {
    EmergencyStopNeedsBoth(cs);
  }

  // ---- The object ------------------------------------------------------------------------

  /** The part of LogicContext the evaluator writes. */
  class Context {
    const engine: FaultConditionEngine<Signal>
    var confirmed: map<Signal, bool>

    constructor ()
      ensures engine.states == map[] && confirmed == map[] && fresh(engine)
    {
      engine := new FaultConditionEngine<Signal>();
      confirmed := map[];
    }

    /** eval_confirmed: one update, and the confirmed map entry that follows it. */
    method Confirm(s: Signal, raw: bool, toOn: nat, toOff: nat, nowMs: nat)
      requires Synced(confirmed, engine.states)
      modifies this, engine
      ensures engine.states == Apply(Step, old(engine.states), Raw(s, raw, toOn, toOff), nowMs)
      ensures Synced(confirmed, engine.states)
    {
      var _ := engine.UpdateConditionWithClear(s, raw, !raw, nowMs, Delays(toOn, toOff));
      var on := engine.GetConfirmed(s);
      confirmed := confirmed[s := on];
    }

    /** Four of them in a row. */
    method ConfirmFour(a: Keyed<Signal>, b: Keyed<Signal>, c: Keyed<Signal>, d: Keyed<Signal>, nowMs: nat)
      requires Synced(confirmed, engine.states)
      requires a.clearNow == !a.assertNow && b.clearNow == !b.assertNow
      requires c.clearNow == !c.assertNow && d.clearNow == !d.assertNow
      modifies this, engine
      ensures engine.states == ApplyFour(Step, old(engine.states), a, b, c, d, nowMs)
      ensures Synced(confirmed, engine.states)
    {
      Confirm(a.key, a.assertNow, a.delays.toOn, a.delays.toOff, nowMs);
      Confirm(b.key, b.assertNow, b.delays.toOn, b.delays.toOff, nowMs);
      Confirm(c.key, c.assertNow, c.delays.toOn, c.delays.toOff, nowMs);
      Confirm(d.key, d.assertNow, d.delays.toOn, d.delays.toOff, nowMs);
    }

    /** evaluatePcu_. */
    method EvaluatePcu(x: Inputs, nowMs: nat)
      requires Synced(confirmed, engine.states)
      modifies this, engine
      ensures engine.states == Pcu2(Step, Pcu1(Step, old(engine.states), x, nowMs), x, nowMs)
      ensures Synced(confirmed, engine.states)
    {
      ConfirmFour(Raw(Pcu0Offline, !x.pcu0.online, 3000, 0),
                  Raw(Pcu1Offline, !x.pcu1.online, 3000, 0),
                  Raw(Pcu1CommFault, !x.pcu0.online, 3000, 0),
                  Raw(Pcu2CommFault, !x.pcu1.online, 3000, 0), nowMs);
      ConfirmFour(Raw(Pcu0EmergencyStop, x.pcu0.RawStop(), 300, 0),
                  Raw(Pcu1EmergencyStop, x.pcu1.RawStop(), 300, 0),
                  Raw(Pcu1EmergencyStop, x.pcu0.RawStop(), 300, 0),
                  Raw(Pcu2EmergencyStop, x.pcu1.RawStop(), 300, 0), nowMs);
    }

    /** evaluateLogic_ up to the gas sensor. */
    method EvaluateLogicFirst(x: Inputs, nowMs: nat)
      requires Synced(confirmed, engine.states)
      modifies this, engine
      ensures engine.states == Logic2(Step, Logic1(Step, old(engine.states), x, nowMs), x, nowMs)
      ensures Synced(confirmed, engine.states)
    {
      ConfirmFour(Raw(EnvAnyAlarm, x.envAnyAlarm, 2000, 1000),
                  Raw(AnyFault, x.anyFault, 2000, 1000),
                  Raw(HmiCommFault, x.hmiFault, 3000, 1000),
                  Raw(RemoteCommFault, x.remoteFault, 3000, 1000), nowMs);
      ConfirmFour(Raw(AirconCommFault, !x.airOnline, 3000, 1000),
                  Raw(UpsCommFault, !x.upsOnline, 3000, 1000),
                  Raw(TssCommFault, !x.smokeOnline, 3000, 1000),
                  Raw(CgsCommFault, !x.gasOnline, 3000, 1000), nowMs);
    }

    /** evaluateLogic_ from the PCU aliases on. */
    method EvaluateLogicRest(x: Inputs, nowMs: nat)
      requires Synced(confirmed, engine.states)
      modifies this, engine
      ensures engine.states == Logic4(Step, Logic3(Step, old(engine.states), x, nowMs), x, nowMs)
      ensures Synced(confirmed, engine.states)
    {
      ConfirmFour(Raw(Pcu1CommFault, !x.pcu0.online, 3000, 1000),
                  Raw(Pcu2CommFault, !x.pcu1.online, 3000, 1000),
                  Raw(Bms1CommFault, x.bms1Offline, 3000, 1000),
                  Raw(Bms2CommFault, x.bms2Offline, 3000, 1000), nowMs);
      ConfirmFour(Raw(Bms3CommFault, x.bms3Offline, 3000, 1000),
                  Raw(Bms4CommFault, x.bms4Offline, 3000, 1000),
                  Raw(RemoteCommFault, x.remoteFault, 3000, 1000),
                  Raw(SdcardFault, x.sdFault, 3000, 1000), nowMs);
    }

    /** A cycle leaves the engine where After says and the confirmed map in step with it. */
    method EvaluateAll(x: Inputs, nowMs: nat)
      requires Synced(confirmed, engine.states)
      modifies this, engine
      ensures engine.states == CycleOf(old(engine.states), x, nowMs)
      ensures Synced(confirmed, engine.states)
    {
      EvaluatePcu(x, nowMs);
      EvaluateLogicFirst(x, nowMs);
      EvaluateLogicRest(x, nowMs);
    }
  }

  predicate Synced(confirmed: map<Signal, bool>, states: map<Signal, Condition>) {
    && confirmed.Keys == states.Keys
    && forall s :: s in states ==> confirmed[s] == states[s].on
  }
}
