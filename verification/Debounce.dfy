/**
 * Two debouncers written independently: FaultConditionState
 * (services/control/fault/fault_condition_state.cpp) and FaultRuntimeMapper::debounceRule_
 * (services/control/fault/fault_runtime_mapper.cpp). What each means over whole runs, and that
 * they agree.
 */
module Debounce {

  datatype Delays = Delays(toOn: nat, toOff: nat)

  /** FaultConditionState: the parts that decide its output. */
  datatype Condition = Condition(
    on: bool,
    rawOn: bool, rawOnSince: nat,
    rawClear: bool, rawClearSince: nat)

  const RESET := Condition(false, false, 0, false, 0)

  predicate LongEnough(now: nat, since: nat, delay: nat) {
    delay == 0 || (if now >= since then now - since else 0) >= delay
  }

  /** FaultConditionState::updateWithClear. */
  function UpdateWithClear(c: Condition, d: Delays, assertNow: bool, clearNow: bool, now: nat): Condition {
    if !c.on then
      if !assertNow then RESET
      else
        var since := if c.rawOn then c.rawOnSince else now;
        Condition(LongEnough(now, since, d.toOn), true, since, false, 0)
    else
      var c' := c.(rawOn := assertNow, rawOnSince := if assertNow then c.rawOnSince else 0);
      if !clearNow then c'.(rawClear := false, rawClearSince := 0)
      else
        var since := if c.rawClear then c.rawClearSince else now;
        if LongEnough(now, since, d.toOff) then RESET
        else c'.(rawClear := true, rawClearSince := since)
  }

  /** FaultConditionState::update. */
  function Update(c: Condition, d: Delays, raw: bool, now: nat): Condition {
    UpdateWithClear(c, d, raw, !raw, now)
  }

  // ---- Whole runs of the first debouncer -------------------------------------------------

  datatype Sample = Sample(assertNow: bool, clearNow: bool, now: nat)

  ghost predicate TimeMoves(s: seq<Sample>) {
    forall i, j :: 0 <= i < j < |s| ==> s[i].now <= s[j].now
  }

  function Run(d: Delays, s: seq<Sample>): Condition {
    if |s| == 0 then RESET
    else
      var x := s[|s| - 1];
      UpdateWithClear(Run(d, s[..|s| - 1]), d, x.assertNow, x.clearNow, x.now)
  }

  /** How many samples had been seen when the output last changed; 0 if it never has. */
  function LastChange(d: Delays, s: seq<Sample>): (n: nat)
    ensures n <= |s|
  {
    if |s| == 0 then 0
    else if Run(d, s).on != Run(d, s[..|s| - 1]).on then |s|
    else LastChange(d, s[..|s| - 1])
  }

  /** The condition that matters in the current output state. */
  predicate Wants(x: Sample, asserting: bool) {
    if asserting then x.assertNow else x.clearNow
  }

  ghost predicate Unbroken(s: seq<Sample>, from: nat, asserting: bool) {
    forall j :: from <= j < |s| ==> Wants(s[j], asserting)
  }

  /** The condition has held at every sample from some point on, that point lies after the first
      `from` samples, and it is at least the delay back. */
  ghost predicate Held(s: seq<Sample>, from: nat, asserting: bool, delay: nat) {
    exists i :: from <= i < |s| && Unbroken(s, i, asserting) && s[|s| - 1].now - s[i].now >= delay
  }

  /** Sample k opens the unbroken stretch that ends now and began after the first `from`. */
  ghost predicate Opens(s: seq<Sample>, from: nat, k: nat, asserting: bool) {
    from <= k < |s| && Unbroken(s, k, asserting) && (k == from || !Wants(s[k - 1], asserting))
  }

  /** A running timer holds the time of the opening sample; a stopped one means the last sample,
      if there is one since the last change, broke the stretch. */
  ghost predicate TimerTells(s: seq<Sample>, from: nat, running: bool, since: nat, asserting: bool) {
    if running then exists k: nat :: Opens(s, from, k, asserting) && s[k].now == since
    else from < |s| ==> !Wants(s[|s| - 1], asserting)
  }

  ghost predicate TimersTell(d: Delays, s: seq<Sample>) {
    var c, from := Run(d, s), LastChange(d, s);
    if c.on then TimerTells(s, from, c.rawClear, c.rawClearSince, false)
    else TimerTells(s, from, c.rawOn, c.rawOnSince, true)
  }

  lemma TimerRuns(s: seq<Sample>, x: Sample, from: nat, running: bool, since: nat, asserting: bool)
    requires from <= |s| && TimerTells(s, from, running, since, asserting) && Wants(x, asserting)
    ensures TimerTells(s + [x], from, true, if running then since else x.now, asserting)
  {
    var t := s + [x];
    if running {
      var k: nat :| Opens(s, from, k, asserting) && s[k].now == since;
      assert Unbroken(t, k, asserting);
      assert Opens(t, from, k, asserting) && t[k].now == since;
    } else {
      assert |s| > from ==> t[|s| - 1] == s[|s| - 1];
      assert Opens(t, from, |s|, asserting) && t[|s|].now == x.now;
    }
  }

  lemma {:induction false} RunSnoc(d: Delays, s: seq<Sample>, x: Sample)
    ensures Run(d, s + [x]) == UpdateWithClear(Run(d, s), d, x.assertNow, x.clearNow, x.now)
    ensures LastChange(d, s + [x]) ==
            if Run(d, s + [x]).on != Run(d, s).on then |s| + 1 else LastChange(d, s)
  {
    assert (s + [x])[..|s|] == s;
  }

  lemma {:induction false} TimersAlwaysTell(d: Delays, s: seq<Sample>)
    ensures TimersTell(d, s)
  {
    if |s| > 0 {
      var r, x := s[..|s| - 1], s[|s| - 1];
      assert s == r + [x];
      TimersAlwaysTell(d, r);
      RunSnoc(d, r, x);
      var c, from := Run(d, r), LastChange(d, r);
      if !c.on && x.assertNow {
        TimerRuns(r, x, from, c.rawOn, c.rawOnSince, true);
      }
      if c.on && x.clearNow {
        TimerRuns(r, x, from, c.rawClear, c.rawClearSince, false);
      }
    }
  }

  /** The timer remembers the earliest admissible start, so comparing it decides. */
  lemma TimerDecides(s: seq<Sample>, from: nat, since: nat, asserting: bool, delay: nat)
    requires TimeMoves(s) && TimerTells(s, from, true, since, asserting)
    ensures LongEnough(s[|s| - 1].now, since, delay) <==> Held(s, from, asserting, delay)
  {
    var k: nat :| Opens(s, from, k, asserting) && s[k].now == since;
    assert k == from || !Wants(s[k - 1], asserting);
    forall i | from <= i < |s| && Unbroken(s, i, asserting)
      ensures s[k].now <= s[i].now <= s[|s| - 1].now
    {}
    assert Unbroken(s, k, asserting) && s[k].now <= s[|s| - 1].now;
  }

  /** Meaning of updateWithClear. While off, the output turns on at a sample exactly when
      assertNow has held at every sample for at least toOn since the last change; while on, it
      turns off exactly when clearNow has held at every sample for at least toOff since then. */
  lemma TurnsExactlyWhen(d: Delays, s: seq<Sample>)
    requires TimeMoves(s) && |s| > 0
    ensures var r := s[..|s| - 1];
            var from := LastChange(d, r);
            && (!Run(d, r).on ==> (Run(d, s).on <==> Held(s, from, true, d.toOn)))
            && (Run(d, r).on ==> (!Run(d, s).on <==> Held(s, from, false, d.toOff)))
  {
    var r, x := s[..|s| - 1], s[|s| - 1];
    assert s == r + [x];
    TimersAlwaysTell(d, r);
    RunSnoc(d, r, x);
    var c, from := Run(d, r), LastChange(d, r);
    if !c.on && x.assertNow {
      TimerRuns(r, x, from, c.rawOn, c.rawOnSince, true);
      TimerDecides(s, from, if c.rawOn then c.rawOnSince else x.now, true, d.toOn);
    }
    if c.on && x.clearNow {
      TimerRuns(r, x, from, c.rawClear, c.rawClearSince, false);
      TimerDecides(s, from, if c.rawClear then c.rawClearSince else x.now, false, d.toOff);
    }
    BrokenNotHeld(s, from, !c.on, if c.on then d.toOff else d.toOn);
  }

  lemma BrokenNotHeld(s: seq<Sample>, from: nat, asserting: bool, delay: nat)
    requires |s| > 0
    ensures !Wants(s[|s| - 1], asserting) ==> !Held(s, from, asserting, delay)
  {}

  /** Opposite changes are at least the matching delay apart. */
  lemma ChangesApart(d: Delays, s: seq<Sample>)
    requires TimeMoves(s) && |s| > 0
    requires var r := s[..|s| - 1];
             Run(d, s).on != Run(d, r).on && LastChange(d, r) > 0
    ensures var n := LastChange(d, s[..|s| - 1]);
            s[|s| - 1].now - s[n - 1].now >= if Run(d, s).on then d.toOn else d.toOff
  {
    TurnsExactlyWhen(d, s);
    var from, asserting := LastChange(d, s[..|s| - 1]), Run(d, s).on;
    var delay := if asserting then d.toOn else d.toOff;
    var i :| from <= i < |s| && Unbroken(s, i, asserting) && s[|s| - 1].now - s[i].now >= delay;
    assert s[from - 1].now <= s[i].now;
  }

  // ---- The second debouncer --------------------------------------------------------------

  datatype RuleState = RuleState(initialized: bool, lastRaw: bool, output: bool, rawSince: nat)

  const FRESH := RuleState(false, false, false, 0)

  /** FaultRuntimeMapper::debounceRule_ for an enabled policy. */
  function DebounceRule(st: RuleState, d: Delays, raw: bool, now: nat): RuleState {
    if !st.initialized then RuleState(true, raw, raw && d.toOn == 0, now)
    else
      var since := if st.lastRaw != raw || now < st.rawSince then now else st.rawSince;
      var need := if raw then d.toOn else d.toOff;
      var output := if raw != st.output && (need == 0 || now - since >= need) then raw else st.output;
      RuleState(true, raw, output, since)
  }

  datatype RawSample = RawSample(raw: bool, now: nat)

  ghost predicate RawTimeMoves(s: seq<RawSample>) {
    forall i, j :: 0 <= i < j < |s| ==> s[i].now <= s[j].now
  }

  function RunCondition(d: Delays, s: seq<RawSample>): Condition {
    if |s| == 0 then RESET
    else Update(RunCondition(d, s[..|s| - 1]), d, s[|s| - 1].raw, s[|s| - 1].now)
  }

  function RunRule(d: Delays, s: seq<RawSample>): RuleState {
    if |s| == 0 then FRESH
    else DebounceRule(RunRule(d, s[..|s| - 1]), d, s[|s| - 1].raw, s[|s| - 1].now)
  }

  // ---- When the two agree ----------------------------------------------------------------

  /** The sample that opened the unbroken stretch of equal raw values ending now. */
  function StretchStart(s: seq<RawSample>): (k: nat)
    requires |s| > 0
    ensures k < |s| && s[k].raw == s[|s| - 1].raw && (k == 0 || s[k - 1].raw != s[k].raw)
  {
    var n := |s| - 1;
    if n > 0 && s[n - 1].raw == s[n].raw then StretchStart(s[..n]) else n
  }

  predicate Continues(s: seq<RawSample>) {
    |s| > 1 && s[|s| - 2].raw == s[|s| - 1].raw
  }

  function Most(a: nat, b: nat): nat {
    if a < b then b else a
  }

  function Above(now: nat, since: nat): nat {
    if now >= since then now - since else 0
  }

  /** The earliest time within the stretch. */
  function Lowest(s: seq<RawSample>): nat
    requires |s| > 0
  {
    var n := |s| - 1;
    if Continues(s) && Lowest(s[..n]) <= s[n].now then Lowest(s[..n]) else s[n].now
  }

  /** How far the clock has climbed, at most, above the sample that opened the stretch. */
  function OpenClimb(s: seq<RawSample>): nat
    requires |s| > 0
  {
    var n := |s| - 1;
    if Continues(s) then Most(OpenClimb(s[..n]), Above(s[n].now, s[StretchStart(s)].now)) else 0
  }

  /** And above any earlier sample of the stretch. */
  function Climb(s: seq<RawSample>): nat
    requires |s| > 0
  {
    var n := |s| - 1;
    if Continues(s) then Most(Climb(s[..n]), Above(s[n].now, Lowest(s))) else 0
  }

  /** The raw signal has been true at some sample. */
  predicate Raised(s: seq<RawSample>) {
    |s| > 0 && (s[|s| - 1].raw || Raised(s[..|s| - 1]))
  }

  /** The clock, where it jumps back, does not then climb further above where it landed than it has
      climbed above the opening of the stretch. Before the first raised sample it may do anything. */
  predicate Calm(s: seq<RawSample>) {
    |s| == 0 || (Calm(s[..|s| - 1]) && (Raised(s) ==> Climb(s) == OpenClimb(s)))
  }

  function Need(d: Delays, raw: bool): nat {
    if raw then d.toOn else d.toOff
  }

  /** The output at the end of a stretch: the raw value, if it was so before the stretch or the
      stretch has climbed far enough. */
  function Turned(before: bool, raw: bool, climb: nat, d: Delays): bool {
    if before == raw || climb >= Need(d, raw) then raw else before
  }

  /** The condition's timer, where it runs, holds the opening time, and its output turns with the
      climb above that. */
  ghost predicate ConditionTells(c: Condition, before: bool, raw: bool, start: nat, climb: nat, d: Delays) {
    && c.on == Turned(before, raw, climb, d)
    && (!c.on && !raw ==> c == RESET)
    && (!c.on && raw ==> c.rawOn && c.rawOnSince == start)
    && (c.on && raw ==> !c.rawClear)
    && (c.on && !raw ==> c.rawClear && c.rawClearSince == start)
  }

  lemma {:induction false} ConditionTurns(d: Delays, s: seq<RawSample>)
    requires |s| > 0
    ensures ConditionTells(RunCondition(d, s), RunCondition(d, s[..StretchStart(s)]).on, s[|s| - 1].raw,
                           s[StretchStart(s)].now, OpenClimb(s), d)
  {
    var n := |s| - 1;
    var pre, x := s[..n], s[n];
    if Continues(s) {
      ConditionTurns(d, pre);
      assert pre[..StretchStart(pre)] == s[..StretchStart(s)];
    } else if n > 0 {
      ConditionTurns(d, pre);
    }
  }

  lemma {:induction false} RuleTurns(d: Delays, s: seq<RawSample>)
    requires |s| > 0
    ensures var st := RunRule(d, s);
            && st.initialized && st.lastRaw == s[|s| - 1].raw && st.rawSince == Lowest(s)
            && st.output == Turned(RunRule(d, s[..StretchStart(s)]).output, s[|s| - 1].raw, Climb(s), d)
  {
    var n := |s| - 1;
    if n > 0 {
      RuleTurns(d, s[..n]);
      if Continues(s) {
        assert s[..n][..StretchStart(s[..n])] == s[..StretchStart(s)];
      }
    }
  }

  lemma {:induction false} NeverRaised(d: Delays, s: seq<RawSample>)
    requires !Raised(s)
    ensures !RunCondition(d, s).on && !RunRule(d, s).output
  {
    if |s| > 0 {
      NeverRaised(d, s[..|s| - 1]);
    }
  }

  lemma {:induction false} CalmBefore(s: seq<RawSample>, n: nat)
    requires Calm(s) && n <= |s|
    ensures Calm(s[..n])
  {
    if n < |s| {
      CalmBefore(s[..|s| - 1], n);
      assert s[..|s| - 1][..n] == s[..n];
    } else {
      assert s[..n] == s;
    }
  }

  lemma {:induction false} CalmAgrees(d: Delays, s: seq<RawSample>)
    requires Calm(s)
    ensures RunCondition(d, s).on == RunRule(d, s).output
    decreases |s|
  {
    if !Raised(s) {
      NeverRaised(d, s);
    } else {
      ConditionTurns(d, s);
      RuleTurns(d, s);
      CalmBefore(s, StretchStart(s));
      CalmAgrees(d, s[..StretchStart(s)]);
    }
  }

  lemma {:induction false} LowestBelow(s: seq<RawSample>)
    requires |s| > 0
    ensures Lowest(s) <= s[StretchStart(s)].now && OpenClimb(s) <= Climb(s)
  {
    if Continues(s) {
      LowestBelow(s[..|s| - 1]);
    }
  }

  lemma {:induction false} AllBefore(s: seq<RawSample>, k: nat)
    requires k < |s| && Raised(s) && !s[|s| - 1].raw && k == StretchStart(s)
    ensures k > 0 && s[k - 1].raw
  {
    if Continues(s) {
      AllBefore(s[..|s| - 1], k);
    }
  }

  /** A climb above the opening's is noticed by one debouncer and not by the other, at a delay of
      that length. */
  lemma {:induction false} WildSeparates(s: seq<RawSample>) returns (d: Delays)
    requires |s| > 0 && Raised(s) && Climb(s) != OpenClimb(s)
    ensures RunCondition(d, s).on != RunRule(d, s).output
  {
    var k, raw := StretchStart(s), s[|s| - 1].raw;
    d := if raw then Delays(Climb(s), 0) else Delays(0, Climb(s));
    LowestBelow(s);
    ConditionTurns(d, s);
    RuleTurns(d, s);
    if raw {
      OtherBefore(d, s[..k], false);
    } else {
      AllBefore(s, k);
      OtherBefore(d, s[..k], true);
    }
  }

  /** With no delay towards a value, a sample of it puts both outputs there. */
  lemma {:induction false} OtherBefore(d: Delays, s: seq<RawSample>, raw: bool)
    requires Need(d, raw) == 0 && (s == [] ==> !raw) && (s != [] ==> s[|s| - 1].raw == raw)
    ensures RunCondition(d, s).on == raw && RunRule(d, s).output == raw
  {}

  /** Exactly when the two debouncers agree: after every sample and for any delays, if and only if
      the clock is calm. */
  lemma {:induction false} DebouncersAgreeIff(s: seq<RawSample>)
    ensures (forall d, n :: 0 <= n <= |s| ==> RunCondition(d, s[..n]).on == RunRule(d, s[..n]).output) <==> Calm(s)
  {
    if Calm(s) {
      forall d, n | 0 <= n <= |s|
        ensures RunCondition(d, s[..n]).on == RunRule(d, s[..n]).output
      {
        CalmBefore(s, n);
        CalmAgrees(d, s[..n]);
      }
    } else {
      var n, d := FirstWild(s);
      assert RunCondition(d, s[..n]).on != RunRule(d, s[..n]).output;
    }
  }

  lemma {:induction false} FirstWild(s: seq<RawSample>) returns (n: nat, d: Delays)
    requires !Calm(s)
    ensures n <= |s| && RunCondition(d, s[..n]).on != RunRule(d, s[..n]).output
  {
    if !Calm(s[..|s| - 1]) {
      n, d := FirstWild(s[..|s| - 1]);
      assert s[..|s| - 1][..n] == s[..n];
    } else {
      n := |s|;
      assert s[..n] == s;
      d := WildSeparates(s);
    }
  }

  /** The clock may jump, but never to before the start of the stretch it is in. */
  predicate StretchesMove(s: seq<RawSample>) {
    |s| == 0 || (StretchesMove(s[..|s| - 1]) && s[StretchStart(s)].now <= s[|s| - 1].now)
  }

  lemma {:induction false} MovingTimeMovesStretches(s: seq<RawSample>)
    requires RawTimeMoves(s)
    ensures StretchesMove(s)
  {
    if |s| > 0 {
      MovingTimeMovesStretches(s[..|s| - 1]);
    }
  }

  lemma {:induction false} MovingIsCalm(s: seq<RawSample>)
    requires StretchesMove(s)
    ensures Calm(s)
    ensures |s| > 0 ==> Lowest(s) == s[StretchStart(s)].now && Climb(s) == OpenClimb(s)
  {
    if |s| > 0 {
      MovingIsCalm(s[..|s| - 1]);
    }
  }

  /** Debounce equivalence: for any delays, and every sample sequence in which no sample is earlier
      than the one that opened its stretch, so in particular whenever time does not run backwards,
      both debouncers show the same output after every sample. */
  lemma {:induction false} DebouncersAgree(d: Delays, s: seq<RawSample>, n: nat)
    requires StretchesMove(s) && n <= |s|
    ensures RunCondition(d, s[..n]).on == RunRule(d, s[..n]).output
  {
    MovingIsCalm(s);
    DebouncersAgreeIff(s);
  }

  /** When the clock jumps back they part ways: the mapper restarts its stretch, the condition
      keeps the old start. */
  lemma ClockJumpSeparates()
    ensures var d := Delays(100, 0);
            var s := [RawSample(true, 1000), RawSample(true, 0), RawSample(true, 100)];
            RunCondition(d, s).on != RunRule(d, s).output
  {
    var d := Delays(100, 0);
    var s := [RawSample(true, 1000), RawSample(true, 0), RawSample(true, 100)];
    assert s[..2] == [RawSample(true, 1000), RawSample(true, 0)];
    assert s[..2][..1] == [RawSample(true, 1000)] && s[..2][..1][..0] == [];
    assert RunCondition(d, s[..2][..1]) == Condition(false, true, 1000, false, 0);
    assert RunCondition(d, s[..2]) == Condition(false, true, 1000, false, 0);
    assert RunRule(d, s[..2][..1]) == RuleState(true, true, false, 1000);
    assert RunRule(d, s[..2]) == RuleState(true, true, false, 0);
  }

  // ---- A debouncer that clears at once ---------------------------------------------------

  ghost predicate RawHeld(s: seq<RawSample>, delay: nat) {
    exists i :: 0 <= i < |s| && RawFrom(s, i) && s[|s| - 1].now - s[i].now >= delay
  }

  ghost predicate RawFrom(s: seq<RawSample>, i: nat) {
    forall j :: i <= j < |s| ==> s[j].raw
  }

  /** Where the unbroken raw stretch that ends now began. */
  function Start(s: seq<RawSample>): (k: nat)
    ensures k <= |s| && RawFrom(s, k) && (k == 0 || !s[k - 1].raw)
  {
    if |s| == 0 || !s[|s| - 1].raw then |s| else Start(s[..|s| - 1])
  }

  lemma {:induction false} InstantClearState(toOn: nat, s: seq<RawSample>)
    requires RawTimeMoves(s)
    ensures var c := RunCondition(Delays(toOn, 0), s);
            if s == [] || !s[|s| - 1].raw then c == RESET
            else
              && Start(s) < |s|
              && (c.on <==> s[|s| - 1].now - s[Start(s)].now >= toOn)
              && (!c.on ==> c.rawOn && c.rawOnSince == s[Start(s)].now)
  {
    if |s| > 0 {
      InstantClearState(toOn, s[..|s| - 1]);
      if |s| > 1 {
        assert s[|s| - 2].now <= s[|s| - 1].now;
      }
    }
  }

  /** With no clear delay the output simply says whether raw has held long enough. */
  lemma {:induction false} InstantClear(toOn: nat, s: seq<RawSample>)
    requires RawTimeMoves(s)
    ensures RunCondition(Delays(toOn, 0), s).on <==> RawHeld(s, toOn)
  {
    InstantClearState(toOn, s);
    var k := Start(s);
    assert k == 0 || !s[k - 1].raw;
    assert forall i :: 0 <= i < |s| && RawFrom(s, i) ==> k <= i && s[k].now <= s[i].now;
  }
}
