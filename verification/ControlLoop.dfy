/**
 * The control loop's event queues (services/control/control_loop.cpp): two FIFO queues behind
 * one mutex, and a latest-only snapshot slot behind another, joined by a marker event. Any
 * number of threads post; one thread consumes; stop may come at any time. Each locked region
 * is one step, and the theorems hold for every interleaving of steps.
 */
module ControlLoop {

  datatype Kind = DeviceData | Snapshot | HmiWrite | HmiHeartbeat | IoSample | Tick | Stop

  datatype Event = Event(kind: Kind, payload: int)

  predicate IsHighPriority(e: Event) {
    e.kind.HmiWrite? || e.kind.HmiHeartbeat? || e.kind.Stop?
  }

  // ---- The locked regions ----------------------------------------------------------------

  datatype Shared = Shared(
    high: seq<Event>, normal: seq<Event>,
    latest: Event, hasLatest: bool, markerEnqueued: bool)

  function Push(s: Shared, e: Event): Shared {
    if IsHighPriority(e) then s.(high := s.high + [e]) else s.(normal := s.normal + [e])
  }

  predicate Poppable(s: Shared) {
    s.high != [] || s.normal != []
  }

  function Head(s: Shared): Event
    requires Poppable(s)
  {
    if s.high != [] then s.high[0] else s.normal[0]
  }

  function Pop(s: Shared): Shared
    requires Poppable(s)
  {
    if s.high != [] then s.(high := s.high[1..]) else s.(normal := s.normal[1..])
  }

  /** The slot is overwritten; the caller owes a marker unless one is already on its way. */
  function StoreLatest(s: Shared, e: Event): Shared {
    s.(latest := e, hasLatest := true, markerEnqueued := true)
  }

  function TakeLatest(s: Shared): Shared {
    s.(hasLatest := false, markerEnqueued := false)
  }

  // ---- All threads together --------------------------------------------------------------

  /** Where the consuming thread is in threadMain_. */
  datatype Consumer = AtTop | Waiting | HoldingMarker | Exited

  /** How far stop() has got. */
  datatype Stopper = NotStopping | Clearing | Pushing | Stopped

  /** Snapshots stored and handed to the logic engine so far. */
  datatype Snapshots = Snapshots(
    stored: seq<Event>,             // every snapshot stored, in storing order
    taken: seq<Event>,              // every snapshot taken for the engine
    storedBefore: seq<nat>)         // how many had been stored when each was taken

  /** What went through the two queues so far. */
  datatype Traffic = Traffic(
    pushedHigh: seq<Event>, poppedHigh: seq<Event>,
    pushedNormal: seq<Event>, poppedNormal: seq<Event>)

  /** Progress of the consumer and of stop(). */
  datatype Control = Control(
    consumer: Consumer, stopper: Stopper,
    poppedSinceStop: nat,
    storedAtClear: nat, takenAtClear: nat)

  /** owed holds the markers posting threads are about to push. running_ is false exactly when
      stop() has begun. */
  datatype System = System(
    shared: Shared, owed: multiset<Event>, control: Control, snaps: Snapshots, traffic: Traffic)

  datatype Action =
    | Post(e: Event)
    | PostSnapshot(e: Event)
    | PushMarker(e: Event)
    | CheckRunning
    | PopEvent
    | TakeSnapshot
    | BeginStop
    | ClearOnStop
    | PushStop

  function Init(): System {
    System(Shared([], [], Event(Snapshot, 0), false, false), multiset{},
           Control(AtTop, NotStopping, 0, 0, 0), Snapshots([], [], []), Traffic([], [], [], []))
  }

  predicate Running(c: Control) {
    c.stopper.NotStopping?
  }

  predicate Cleared(c: Control) {
    c.stopper.Pushing? || c.stopper.Stopped?
  }

  function LogPush(t: Traffic, e: Event): Traffic {
    if IsHighPriority(e) then t.(pushedHigh := t.pushedHigh + [e])
    else t.(pushedNormal := t.pushedNormal + [e])
  }

  function PushInto(m: System, e: Event): System {
    m.(shared := Push(m.shared, e), traffic := LogPush(m.traffic, e))
  }

  function DoPostSnapshot(m: System, e: Event): System {
    m.(shared := StoreLatest(m.shared, e),
       snaps := m.snaps.(stored := m.snaps.stored + [e]),
       owed := if m.shared.markerEnqueued then m.owed else m.owed + multiset{e})
  }

  function DoPop(m: System): System
    requires Poppable(m.shared)
  {
    var e := Head(m.shared);
    m.(shared := Pop(m.shared),
       control := m.control.(
         consumer := if e.kind.Stop? then Exited
                     else if e.kind.Snapshot? then HoldingMarker
                     else AtTop,
         poppedSinceStop := m.control.poppedSinceStop + if Running(m.control) then 0 else 1),
       traffic := if m.shared.high != []
                  then m.traffic.(poppedHigh := m.traffic.poppedHigh + [e])
                  else m.traffic.(poppedNormal := m.traffic.poppedNormal + [e]))
  }

  function DoTake(m: System): System {
    m.(shared := TakeLatest(m.shared),
       control := m.control.(consumer := AtTop),
       snaps := if !m.shared.hasLatest then m.snaps
                else m.snaps.(taken := m.snaps.taken + [m.shared.latest],
                              storedBefore := m.snaps.storedBefore + [|m.snaps.stored|]))
  }

  function DoClear(m: System): System {
    m.(shared := TakeLatest(m.shared),
       control := m.control.(stopper := Pushing,
                             storedAtClear := |m.snaps.stored|,
                             takenAtClear := |m.snaps.taken|))
  }

  /** One step; an action that is not possible now changes nothing. */
  function Step(m: System, a: Action): System {
    match a
    case Post(e) => if e.kind.Snapshot? then m else PushInto(m, e)
    case PostSnapshot(e) => if e.kind.Snapshot? then DoPostSnapshot(m, e) else m
    case PushMarker(e) =>
      if e in m.owed then PushInto(m.(owed := m.owed - multiset{e}), e) else m
    case CheckRunning =>
      if m.control.consumer.AtTop?
      then m.(control := m.control.(consumer := if Running(m.control) then Waiting else Exited))
      else m
    case PopEvent =>
      if m.control.consumer.Waiting? && Poppable(m.shared) then DoPop(m) else m
    case TakeSnapshot => if m.control.consumer.HoldingMarker? then DoTake(m) else m
    case BeginStop =>
      if Running(m.control) then m.(control := m.control.(stopper := Clearing)) else m
    case ClearOnStop => if m.control.stopper.Clearing? then DoClear(m) else m
    case PushStop =>
      if m.control.stopper.Pushing?
      then PushInto(m.(control := m.control.(stopper := Stopped)), Event(Stop, 0))
      else m
  }

  function ExecFrom(m: System, actions: seq<Action>): System {
    if |actions| == 0 then m
    else Step(ExecFrom(m, actions[..|actions| - 1]), actions[|actions| - 1])
  }

  function Exec(actions: seq<Action>): System {
    ExecFrom(Init(), actions)
  }

  // ---- The invariant ---------------------------------------------------------------------

  function MarkersIn(q: seq<Event>): nat {
    if |q| == 0 then 0
    else MarkersIn(q[..|q| - 1]) + if q[|q| - 1].kind.Snapshot? then 1 else 0
  }

  /** Markers about to be pushed, queued, or just popped. */
  function Markers(normal: seq<Event>, owed: multiset<Event>, c: Control): nat {
    |owed| + MarkersIn(normal) + if c.consumer.HoldingMarker? then 1 else 0
  }

  /** A stored snapshot always has a marker coming for it; there is never more than one marker,
      plus one left over from before a stop. */
  ghost predicate MarkerInv(s: Shared, owed: multiset<Event>, c: Control) {
    && (s.hasLatest ==> s.markerEnqueued)
    && (s.markerEnqueued ==> Markers(s.normal, owed, c) >= 1)
    && Markers(s.normal, owed, c) <= (if s.markerEnqueued then 1 else 0) + (if Cleared(c) then 1 else 0)
    && (!Cleared(c) ==> s.hasLatest == s.markerEnqueued)
    && (forall e :: e in owed ==> e.kind.Snapshot?)
    && (forall e :: e in s.high ==> IsHighPriority(e))
  }

  /** Snapshots are taken in storing order, each at most once, each the newest at its time. */
  ghost predicate OrderInv(x: Snapshots) {
    && |x.taken| == |x.storedBefore|
    && (forall i :: 0 <= i < |x.taken| ==>
          0 < x.storedBefore[i] <= |x.stored| && x.taken[i] == x.stored[x.storedBefore[i] - 1])
    && (forall i, j :: 0 <= i < j < |x.storedBefore| ==> x.storedBefore[i] < x.storedBefore[j])
  }

  /** Nothing newer than the last snapshot taken has been stored. */
  predicate AllDelivered(x: Snapshots) {
    x.stored == []
    || (x.storedBefore != [] && x.storedBefore[|x.storedBefore| - 1] == |x.stored|)
  }

  /** A full slot holds the newest snapshot, not taken yet; an empty one owes nothing. */
  ghost predicate SlotInv(s: Shared, x: Snapshots, cleared: bool) {
    && (s.hasLatest ==>
          && x.stored != [] && s.latest == x.stored[|x.stored| - 1]
          && forall i :: 0 <= i < |x.storedBefore| ==> x.storedBefore[i] < |x.stored|)
    && (!s.hasLatest && !cleared ==> AllDelivered(x))
  }

  /** Once stop() has begun the consumer pops at most one more event, and after its clear only
      snapshots stored later can be taken. */
  ghost predicate StopInv(hasLatest: bool, c: Control, x: Snapshots) {
    && (Cleared(c) ==>
          && c.storedAtClear <= |x.stored| && c.takenAtClear <= |x.storedBefore|
          && (hasLatest ==> c.storedAtClear < |x.stored|)
          && forall i :: c.takenAtClear <= i < |x.storedBefore| ==> c.storedAtClear < x.storedBefore[i])
    && c.poppedSinceStop <= (if Running(c) || c.consumer.Waiting? then 0 else 1)
  }

  /** Both queues are first in, first out, and lose nothing. */
  ghost predicate QueueInv(s: Shared, t: Traffic) {
    && t.pushedHigh == t.poppedHigh + s.high
    && t.pushedNormal == t.poppedNormal + s.normal
  }

  ghost predicate Inv(m: System) {
    && MarkerInv(m.shared, m.owed, m.control)
    && OrderInv(m.snaps)
    && SlotInv(m.shared, m.snaps, Cleared(m.control))
    && StopInv(m.shared.hasLatest, m.control, m.snaps)
    && QueueInv(m.shared, m.traffic)
  }

  lemma {:induction false} MarkersInTail(q: seq<Event>)
    requires |q| > 0
    ensures MarkersIn(q) == MarkersIn(q[1..]) + if q[0].kind.Snapshot? then 1 else 0
  {
    if |q| > 1 {
      MarkersInTail(q[..|q| - 1]);
      assert q[..|q| - 1][1..] == q[1..][..|q| - 2];
    }
  }

  lemma PushKeepsInv(m: System, e: Event, owed: multiset<Event>)
    requires Inv(m)
    requires if e.kind.Snapshot? then e in m.owed && owed == m.owed - multiset{e} else owed == m.owed
    ensures Inv(PushInto(m.(owed := owed), e))
  {
    assert (m.shared.normal + [e])[..|m.shared.normal|] == m.shared.normal;
    QueuePush(m.shared, m.traffic, e);
  }

  lemma QueuePush(s: Shared, t: Traffic, e: Event)
    requires QueueInv(s, t)
    ensures QueueInv(Push(s, e), LogPush(t, e))
  {}

  lemma PostSnapshotKeepsInv(m: System, e: Event)
    requires Inv(m) && e.kind.Snapshot?
    ensures Inv(DoPostSnapshot(m, e))
  {}

  lemma PopKeepsInv(m: System)
    requires Inv(m) && m.control.consumer.Waiting? && Poppable(m.shared)
    ensures Inv(DoPop(m))
  {
    QueuePop(m.shared, m.traffic);
    if m.shared.high == [] {
      MarkersInTail(m.shared.normal);
    } else {
      assert m.shared.high[0] in m.shared.high;
    }
  }

  lemma QueuePop(s: Shared, t: Traffic)
    requires QueueInv(s, t)
    ensures s.high != [] ==> QueueInv(Pop(s), t.(poppedHigh := t.poppedHigh + [s.high[0]]))
    ensures s.high == [] && s.normal != [] ==>
              QueueInv(Pop(s), t.(poppedNormal := t.poppedNormal + [s.normal[0]]))
  {
    if s.high != [] {
      assert t.poppedHigh + s.high == (t.poppedHigh + [s.high[0]]) + s.high[1..];
    } else if s.normal != [] {
      assert t.poppedNormal + s.normal == (t.poppedNormal + [s.normal[0]]) + s.normal[1..];
    }
  }

  lemma TakeKeepsInv(m: System)
    requires Inv(m) && m.control.consumer.HoldingMarker?
    ensures Inv(DoTake(m))
  {
    if m.shared.hasLatest {
      TakeOrder(m.shared, m.snaps, Cleared(m.control));
    }
  }

  lemma TakeOrder(s: Shared, x: Snapshots, cleared: bool)
    requires OrderInv(x) && SlotInv(s, x, cleared) && s.hasLatest
    ensures OrderInv(x.(taken := x.taken + [s.latest], storedBefore := x.storedBefore + [|x.stored|]))
  {}

  lemma ClearKeepsInv(m: System)
    requires Inv(m) && m.control.stopper.Clearing?
    ensures Inv(DoClear(m))
  {}

  lemma CheckKeepsInv(m: System)
    requires Inv(m) && m.control.consumer.AtTop?
    ensures Inv(m.(control := m.control.(consumer := if Running(m.control) then Waiting else Exited)))
  {}

  lemma BeginStopKeepsInv(m: System)
    requires Inv(m) && Running(m.control)
    ensures Inv(m.(control := m.control.(stopper := Clearing)))
  {}

  lemma PushStopKeepsInv(m: System)
    requires Inv(m) && m.control.stopper.Pushing?
    ensures Inv(PushInto(m.(control := m.control.(stopper := Stopped)), Event(Stop, 0)))
  {
    var n := m.(control := m.control.(stopper := Stopped));
    assert Inv(n);
    PushKeepsInv(n, Event(Stop, 0), n.owed);
  }

  lemma PostKeepsInv(m: System, a: Action)
    requires Inv(m) && (a.Post? || a.PostSnapshot? || a.PushMarker?)
    ensures Inv(Step(m, a))
  {
    match a
    case Post(e) => if !e.kind.Snapshot? { PushKeepsInv(m, e, m.owed); }
    case PostSnapshot(e) => if e.kind.Snapshot? { PostSnapshotKeepsInv(m, e); }
    case PushMarker(e) => if e in m.owed { PushKeepsInv(m, e, m.owed - multiset{e}); }
  }

  lemma LoopKeepsInv(m: System, a: Action)
    requires Inv(m) && (a.CheckRunning? || a.PopEvent? || a.TakeSnapshot?)
    ensures Inv(Step(m, a))
  {
    match a
    case CheckRunning => if m.control.consumer.AtTop? { CheckKeepsInv(m); }
    case PopEvent => if m.control.consumer.Waiting? && Poppable(m.shared) { PopKeepsInv(m); }
    case TakeSnapshot => if m.control.consumer.HoldingMarker? { TakeKeepsInv(m); }
  }

  lemma StopKeepsInv(m: System, a: Action)
    requires Inv(m) && (a.BeginStop? || a.ClearOnStop? || a.PushStop?)
    ensures Inv(Step(m, a))
  {
    match a
    case BeginStop => if Running(m.control) { BeginStopKeepsInv(m); }
    case ClearOnStop => if m.control.stopper.Clearing? { ClearKeepsInv(m); }
    case PushStop => if m.control.stopper.Pushing? { PushStopKeepsInv(m); }
  }

  lemma StepKeepsInv(m: System, a: Action)
    requires Inv(m)
    ensures Inv(Step(m, a))
  {
    if a.Post? || a.PostSnapshot? || a.PushMarker? {
      PostKeepsInv(m, a);
    } else if a.CheckRunning? || a.PopEvent? || a.TakeSnapshot? {
      LoopKeepsInv(m, a);
    } else {
      StopKeepsInv(m, a);
    }
  }

  /** The invariant holds in every interleaving. */
  lemma {:induction false} AlwaysInv(actions: seq<Action>)
    ensures Inv(Exec(actions))
  {
    if |actions| > 0 {
      AlwaysInv(actions[..|actions| - 1]);
      StepKeepsInv(Exec(actions[..|actions| - 1]), actions[|actions| - 1]);
    }
  }

  // ---- What every interleaving guarantees ------------------------------------------------

  /** Nobody is about to act on a snapshot. */
  predicate Quiet(m: System) {
    m.owed == multiset{} && m.shared.normal == [] && !m.control.consumer.HoldingMarker?
  }

  /** No stranded snapshot: whenever the slot is full the flag is set and a marker is about to
      be pushed, queued or just popped. So once everybody is quiet the slot is empty, and unless
      stop() has cleared it, the newest snapshot ever stored has been handed on. */
  lemma {:induction false} NoStrandedSnapshot(actions: seq<Action>)
    ensures var m := Exec(actions);
            && (m.shared.hasLatest ==>
                  m.shared.markerEnqueued && Markers(m.shared.normal, m.owed, m.control) >= 1)
            && (Quiet(m) ==> !m.shared.hasLatest)
            && (Quiet(m) && !Cleared(m.control) ==> AllDelivered(m.snaps))
  {
    AlwaysInv(actions);
  }

  lemma {:induction false} StaysRunning(actions: seq<Action>)
    requires BeginStop !in actions
    ensures Running(Exec(actions).control)
  {
    if |actions| > 0 {
      StaysRunning(actions[..|actions| - 1]);
    }
  }

  /** Without a stop there is exactly one marker while a snapshot waits, and none otherwise. */
  lemma {:induction false} ExactlyOneMarker(actions: seq<Action>)
    requires BeginStop !in actions
    ensures var m := Exec(actions);
            && m.shared.hasLatest == m.shared.markerEnqueued
            && Markers(m.shared.normal, m.owed, m.control) == if m.shared.hasLatest then 1 else 0
  {
    AlwaysInv(actions);
    StaysRunning(actions);
  }

  /** With a stop there are never more than two markers. */
  lemma {:induction false} AtMostTwoMarkers(actions: seq<Action>)
    ensures var m := Exec(actions);
            Markers(m.shared.normal, m.owed, m.control) <= 2
  {
    AlwaysInv(actions);
  }

  /** Two is reached: a marker queued before the stop meets one owed after it. */
  lemma StopCanLeaveTwoMarkers(e: Event) returns (actions: seq<Action>)
    requires e.kind.Snapshot?
    ensures var m := Exec(actions);
            Markers(m.shared.normal, m.owed, m.control) == 2
  {
    actions := MarkerQueued(e);
    var m := ExecSnoc(actions, BeginStop);
    actions := actions + [BeginStop];
    m := ExecSnoc(actions, ClearOnStop);
    actions := actions + [ClearOnStop];
    m := ExecSnoc(actions, PostSnapshot(e));
    actions := actions + [PostSnapshot(e)];
    assert [e][..0] == [] && MarkersIn([e]) == 1;
  }

  /** A marker is queued, and nothing else has happened. */
  lemma MarkerQueued(e: Event) returns (actions: seq<Action>)
    requires e.kind.Snapshot?
    ensures var m := Exec(actions);
            && m.owed == multiset{} && m.shared.normal == [e]
            && Running(m.control) && m.control.consumer.AtTop?
  {
    actions := [];
    var m := ExecSnoc(actions, PostSnapshot(e));
    actions := actions + [PostSnapshot(e)];
    assert m.owed == multiset{e};
    m := ExecSnoc(actions, PushMarker(e));
    actions := actions + [PushMarker(e)];
  }

  lemma ExecSnoc(actions: seq<Action>, a: Action) returns (m: System)
    ensures m == Exec(actions + [a]) == Step(Exec(actions), a)
  {
    m := Exec(actions + [a]);
    assert (actions + [a])[..|actions|] == actions;
  }

  /** Snapshots reach the engine in storing order, each at most once, and each was the newest
      stored at the moment it was taken. */
  lemma {:induction false} TakenInStoringOrder(actions: seq<Action>)
    ensures var x := Exec(actions).snaps;
            && |x.storedBefore| == |x.taken|
            && (forall i :: 0 <= i < |x.taken| ==>
                  0 < x.storedBefore[i] <= |x.stored| && x.taken[i] == x.stored[x.storedBefore[i] - 1])
            && forall i, j :: 0 <= i < j < |x.taken| ==> x.storedBefore[i] < x.storedBefore[j]
  {
    AlwaysInv(actions);
  }

  /** Once stop() has begun at most one more event is processed, and nothing stored before its
      clear is taken after it. */
  lemma {:induction false} StopIsPrompt(actions: seq<Action>)
    ensures var m := Exec(actions);
            && m.control.poppedSinceStop <= 1
            && (Cleared(m.control) ==>
                  forall i :: m.control.takenAtClear <= i < |m.snaps.storedBefore| ==>
                    m.control.storedAtClear < m.snaps.storedBefore[i])
  {
    AlwaysInv(actions);
  }

  /** What has been popped from each queue is a prefix of what was pushed to it. */
  lemma {:induction false} QueuesAreFifo(actions: seq<Action>)
    ensures var m := Exec(actions);
            && m.traffic.poppedHigh <= m.traffic.pushedHigh
            && m.traffic.poppedNormal <= m.traffic.pushedNormal
            && (!Poppable(m.shared) ==>
                  && m.traffic.poppedHigh == m.traffic.pushedHigh
                  && m.traffic.poppedNormal == m.traffic.pushedNormal)
  {
    AlwaysInv(actions);
  }

  // ---- Starting again --------------------------------------------------------------------

  /** start() after a stop() that has finished: a new thread on the same queues. */
  function Restarted(m: System): System {
    m.(control := Control(AtTop, NotStopping, 0, 0, 0))
  }

  /** A finished stop() has left its Stop event popped or still queued. */
  lemma {:induction false} StopPoppedOrQueued(actions: seq<Action>)
    requires Exec(actions).control.stopper.Stopped?
    ensures var m := Exec(actions);
            Event(Stop, 0) in m.traffic.poppedHigh || Event(Stop, 0) in m.shared.high
  {
    AlwaysInv(actions);
    StopPushed(actions);
  }

  lemma {:induction false} StopPushed(actions: seq<Action>)
    ensures var m := Exec(actions);
            m.control.stopper.Stopped? ==> Event(Stop, 0) in m.traffic.pushedHigh
  {
    if |actions| > 0 {
      StopPushed(actions[..|actions| - 1]);
      StopPushedStep(Exec(actions[..|actions| - 1]), actions[|actions| - 1]);
    }
  }

  lemma StopPushedStep(m: System, a: Action)
    requires m.control.stopper.Stopped? ==> Event(Stop, 0) in m.traffic.pushedHigh
    ensures var n := Step(m, a);
            n.control.stopper.Stopped? ==> Event(Stop, 0) in n.traffic.pushedHigh
  {
    PushedStep(m, a);
  }

  predicate HasStop(q: seq<Event>) {
    exists i :: 0 <= i < |q| && q[i].kind.Stop?
  }

  /** Nobody stops the loop any more: stop() is not called and no Stop event is posted. */
  predicate Unstopped(actions: seq<Action>) {
    forall i :: 0 <= i < |actions| ==>
      !actions[i].BeginStop? && !(actions[i].Post? && actions[i].e.kind.Stop?)
  }

  /** Every event is in the queue of its priority. */
  ghost predicate QueuesSorted(s: Shared) {
    (forall e :: e in s.high ==> IsHighPriority(e)) && (forall e :: e in s.normal ==> !IsHighPriority(e))
  }

  /** And what is owed are markers. */
  ghost predicate Sorted(m: System) {
    QueuesSorted(m.shared) && forall e :: e in m.owed ==> e.kind.Snapshot?
  }

  lemma PushSorted(s: Shared, e: Event)
    requires QueuesSorted(s)
    ensures QueuesSorted(Push(s, e))
  {}

  lemma PopSorted(s: Shared)
    requires QueuesSorted(s) && Poppable(s)
    ensures QueuesSorted(Pop(s))
  {}

  lemma StepKeepsSorted(m: System, a: Action)
    requires Sorted(m)
    ensures Sorted(Step(m, a))
  {
    match a
    case Post(e) => PushSorted(m.shared, e);
    case PushMarker(e) => PushSorted(m.shared, e);
    case PushStop => PushSorted(m.shared, Event(Stop, 0));
    case PopEvent => if Poppable(m.shared) { PopSorted(m.shared); }
    case PostSnapshot(_) =>
    case CheckRunning =>
    case TakeSnapshot =>
    case BeginStop =>
    case ClearOnStop =>
  }

  lemma {:induction false} AlwaysSorted(actions: seq<Action>)
    ensures Sorted(Exec(actions))
  {
    if |actions| > 0 {
      AlwaysSorted(actions[..|actions| - 1]);
      StepKeepsSorted(Exec(actions[..|actions| - 1]), actions[|actions| - 1]);
    }
  }

  /** What the panel writes, its heartbeat and stop go before everything else. */
  predicate Urgent(e: Event) {
    e.kind == HmiWrite || e.kind == HmiHeartbeat || e.kind == Stop
  }

  /** The events that wait to be popped. */
  function Queued(s: Shared): multiset<Event> {
    multiset(s.high) + multiset(s.normal)
  }

  /** In every interleaving, an event that is not urgent is popped only when no urgent one waits. */
  lemma {:induction false} UrgentFirst(actions: seq<Action>, e: Event)
    requires Poppable(Exec(actions).shared) && e in Queued(Exec(actions).shared) && Urgent(e)
    ensures Urgent(Head(Exec(actions).shared))
  {
    AlwaysSorted(actions);
    var s := Exec(actions).shared;
    assert e in s.high || e in s.normal;
    if s.high != [] {
      assert s.high[0] in s.high;
    }
  }

  /** A posted event waits to be popped, and one event leaves at a pop, the one popped. */
  lemma {:induction false} PostedWaits(actions: seq<Action>, e: Event)
    requires e.kind != Snapshot
    ensures Queued(Exec(actions + [Post(e)]).shared) == Queued(Exec(actions).shared) + multiset{e}
  {
    var m := ExecSnoc(actions, Post(e));
    PushedJoins(Exec(actions).shared, e);
  }

  lemma PushedJoins(s: Shared, e: Event)
    ensures Queued(Push(s, e)) == Queued(s) + multiset{e}
  {}

  lemma {:induction false} PoppedLeaves(actions: seq<Action>)
    requires Exec(actions).control.consumer == Waiting && Poppable(Exec(actions).shared)
    ensures var m := Exec(actions);
            Queued(m.shared) == Queued(Exec(actions + [PopEvent]).shared) + multiset{Head(m.shared)}
  {
    var m := ExecSnoc(actions, PopEvent);
    HeadLeaves(Exec(actions).shared);
  }

  lemma HeadLeaves(s: Shared)
    requires Poppable(s)
    ensures Queued(s) == Queued(Pop(s)) + multiset{Head(s)}
  {
    if s.high != [] {
      FrontCounted(s.high);
    } else {
      FrontCounted(s.normal);
    }
  }

  lemma FrontCounted(q: seq<Event>)
    requires q != []
    ensures multiset(q) == multiset(q[1..]) + multiset{q[0]}
  {
    assert q == [q[0]] + q[1..];
  }

  /** A loop that runs and will not meet a Stop event. */
  ghost predicate Alive(m: System) {
    Sorted(m) && Running(m.control) && !m.control.consumer.Exited? && !HasStop(m.shared.high)
  }

  lemma StepStaysAlive(m: System, a: Action)
    requires Alive(m) && Unstopped([a])
    ensures Alive(Step(m, a))
  {
    assert [a][0] == a;
    StepKeepsSorted(m, a);
    if a.PopEvent? && m.control.consumer.Waiting? && Poppable(m.shared) {
      var e := Head(m.shared);
      assert e in m.shared.high || e in m.shared.normal;
      assert !e.kind.Stop?;
    }
  }

  lemma {:induction false} StaysAlive(m: System, more: seq<Action>)
    requires Alive(m) && Unstopped(more)
    ensures Alive(ExecFrom(m, more))
  {
    if |more| > 0 {
      var n := |more| - 1;
      StaysAlive(m, more[..n]);
      StepStaysAlive(ExecFrom(m, more[..n]), more[n]);
    }
  }

  lemma {:induction false} ExecAppend(m: System, a: seq<Action>, b: seq<Action>)
    ensures ExecFrom(m, a + b) == ExecFrom(ExecFrom(m, a), b)
  {
    if |b| == 0 {
      assert a + b == a;
    } else {
      ExecAppend(m, a, b[..|b| - 1]);
      assert (a + b)[..|a + b| - 1] == a + b[..|b| - 1];
    }
  }

  /** One turn of the loop with something in the high queue. */
  lemma {:induction false} OneTurn(m: System)
    requires m.control.consumer.AtTop? && Running(m.control) && m.shared.high != []
    ensures ExecFrom(m, [CheckRunning, PopEvent]) ==
            DoPop(m.(control := m.control.(consumer := Waiting)))
  {
    assert [CheckRunning, PopEvent][..1] == [CheckRunning];
    assert [CheckRunning][..0] == [];
    assert ExecFrom(m, [CheckRunning]) == m.(control := m.control.(consumer := Waiting));
  }

  /** Turn by turn the loop comes to the Stop event in the high queue and leaves. */
  lemma {:induction false} ReachesStop(m: System) returns (more: seq<Action>)
    requires Sorted(m) && m.control.consumer.AtTop? && Running(m.control) && HasStop(m.shared.high)
    ensures Unstopped(more) && ExecFrom(m, more).control.consumer.Exited?
    decreases |m.shared.high|
  {
    OneTurn(m);
    more := [CheckRunning, PopEvent];
    var n := ExecFrom(m, more);
    if !m.shared.high[0].kind.Stop? {
      var i :| 0 <= i < |m.shared.high| && m.shared.high[i].kind.Stop?;
      assert m.shared.high[0] in m.shared.high && n.shared.high[i - 1].kind.Stop?;
      var rest := ReachesStop(n);
      ExecAppend(m, more, rest);
      more := more + rest;
    }
  }

  /** When starting again is safe: after a stop() that has finished, a loop started again can leave,
      although nobody stops it any more, exactly when a Stop event is still in the high queue. */
  lemma RestartLeavesIff(actions: seq<Action>)
    requires Exec(actions).control.stopper.Stopped? && Exec(actions).control.consumer.Exited?
    ensures var m := Exec(actions);
            (exists more :: Unstopped(more) && ExecFrom(Restarted(m), more).control.consumer.Exited?) <==>
            HasStop(m.shared.high)
  {
    var m := Exec(actions);
    AlwaysSorted(actions);
    if HasStop(m.shared.high) {
      var more := ReachesStop(Restarted(m));
      assert Unstopped(more) && ExecFrom(Restarted(m), more).control.consumer.Exited?;
    } else {
      forall more | Unstopped(more)
        ensures !ExecFrom(Restarted(m), more).control.consumer.Exited?
      {
        StaysAlive(Restarted(m), more);
      }
    }
  }

  function StopsIn(q: seq<Event>): nat {
    if |q| == 0 then 0 else StopsIn(q[..|q| - 1]) + if q[|q| - 1].kind.Stop? then 1 else 0
  }

  lemma {:induction false} StopsAppend(a: seq<Event>, b: seq<Event>)
    ensures StopsIn(a + b) == StopsIn(a) + StopsIn(b)
  {
    if |b| == 0 {
      assert a + b == a;
    } else {
      StopsAppend(a, b[..|b| - 1]);
      assert (a + b)[..|a + b| - 1] == a + b[..|b| - 1];
    }
  }

  lemma {:induction false} StopsCounted(q: seq<Event>)
    ensures HasStop(q) <==> StopsIn(q) > 0
  {
    if |q| > 0 {
      StopsCounted(q[..|q| - 1]);
      if HasStop(q[..|q| - 1]) {
        var i :| 0 <= i < |q| - 1 && q[..|q| - 1][i].kind.Stop?;
        assert q[i].kind.Stop?;
      }
    }
  }

  /** Nobody but stop() posts a Stop event. */
  predicate OwnStopOnly(actions: seq<Action>) {
    forall i :: 0 <= i < |actions| ==> !(actions[i].Post? && actions[i].e.kind.Stop?)
  }

  lemma {:induction false} OneMoreStop(q: seq<Event>, e: Event)
    ensures StopsIn(q + [e]) == StopsIn(q) + if e.kind.Stop? then 1 else 0
  {
    assert (q + [e])[..|q|] == q;
  }

  /** Who pushes to the high queue, and how far stop() gets. */
  lemma PushedStep(m: System, a: Action)
    ensures var n := Step(m, a);
            && (a.PushStop? && m.control.stopper.Pushing? ==>
                  n.control.stopper.Stopped? && n.traffic.pushedHigh == m.traffic.pushedHigh + [Event(Stop, 0)])
            && (!(a.PushStop? && m.control.stopper.Pushing?) ==>
                  n.control.stopper.Stopped? == m.control.stopper.Stopped?)
            && (!a.PushStop? && !a.Post? && !a.PushMarker? ==> n.traffic.pushedHigh == m.traffic.pushedHigh)
            && (a.PushStop? && !m.control.stopper.Pushing? ==> n == m)
            && (a.Post? || a.PushMarker? ==>
                  n.traffic.pushedHigh in {m.traffic.pushedHigh, m.traffic.pushedHigh + [a.e]})
  {}

  lemma StopsStep(m: System, a: Action)
    requires Sorted(m) && OwnStopOnly([a])
    requires StopsIn(m.traffic.pushedHigh) == if m.control.stopper.Stopped? then 1 else 0
    ensures var n := Step(m, a);
            StopsIn(n.traffic.pushedHigh) == if n.control.stopper.Stopped? then 1 else 0
  {
    assert [a][0] == a;
    PushedStep(m, a);
    OneMoreStop(m.traffic.pushedHigh, Event(Stop, 0));
    if a.Post? {
      OneMoreStop(m.traffic.pushedHigh, a.e);
    } else if a.PushMarker? && a.e in m.owed {
      OneMoreStop(m.traffic.pushedHigh, a.e);
    }
  }

  lemma {:induction false} OneStopPushed(actions: seq<Action>)
    requires OwnStopOnly(actions)
    ensures var m := Exec(actions);
            StopsIn(m.traffic.pushedHigh) == if m.control.stopper.Stopped? then 1 else 0
  {
    if |actions| > 0 {
      var n := |actions| - 1;
      OneStopPushed(actions[..n]);
      AlwaysSorted(actions[..n]);
      StopsStep(Exec(actions[..n]), actions[n]);
    }
  }

  /** Where nobody else posts one, a Stop event is left exactly when the loop that was stopped never
      popped it, having left at its check of running_. */
  lemma {:induction false} StaleIffNotPopped(actions: seq<Action>)
    requires OwnStopOnly(actions) && Exec(actions).control.stopper.Stopped?
    ensures var m := Exec(actions);
            HasStop(m.shared.high) <==> !HasStop(m.traffic.poppedHigh)
  {
    var m := Exec(actions);
    AlwaysInv(actions);
    OneStopPushed(actions);
    StopsAppend(m.traffic.poppedHigh, m.shared.high);
    StopsCounted(m.shared.high);
    StopsCounted(m.traffic.poppedHigh);
  }

  /** It happens: the loop leaves at its check and never pops the event, and a loop started again
      pops it first and leaves at once. */
  lemma RestartMeetsStaleStop() returns (actions: seq<Action>)
    ensures var m := Exec(actions);
            && m.control.stopper.Stopped? && m.control.consumer.Exited? && HasStop(m.shared.high)
            && Step(Step(Restarted(m), CheckRunning), PopEvent).control.consumer.Exited?
            && exists more :: Unstopped(more) && ExecFrom(Restarted(m), more).control.consumer.Exited?
  {
    actions := [];
    var m := ExecSnoc(actions, BeginStop);
    actions := actions + [BeginStop];
    m := ExecSnoc(actions, CheckRunning);
    actions := actions + [CheckRunning];
    m := ExecSnoc(actions, ClearOnStop);
    actions := actions + [ClearOnStop];
    m := ExecSnoc(actions, PushStop);
    actions := actions + [PushStop];
    assert m.shared.high == [Event(Stop, 0)];
    assert m.shared.high[0].kind.Stop?;
    RestartLeavesIff(actions);
  }

  // ---- The object ------------------------------------------------------------------------

  class Loop {
    var qHigh: seq<Event>
    var qNormal: seq<Event>
    var latestSnapshotEvent: Event
    var hasLatestSnapshot: bool
    var snapshotMarkerEnqueued: bool

    ghost function State(): Shared
      reads this
    {
      Shared(qHigh, qNormal, latestSnapshotEvent, hasLatestSnapshot, snapshotMarkerEnqueued)
    }

    constructor ()
      ensures State() == Init().shared
    {
      qHigh, qNormal := [], [];
      latestSnapshotEvent := Event(Snapshot, 0);
      hasLatestSnapshot, snapshotMarkerEnqueued := false, false;
    }

    method PushEvent(e: Event)
      modifies this
      ensures State() == Push(old(State()), e)
    {
      if IsHighPriority(e) {
        qHigh := qHigh + [e];
      } else {
        qNormal := qNormal + [e];
      }
    }

    /** The condition variable holds the consumer until a queue is non-empty. */
    method PopEvent() returns (e: Event)
      requires Poppable(State())
      modifies this
      ensures e == Head(old(State())) && State() == Pop(old(State()))
    {
      if qHigh != [] {
        e := qHigh[0];
        qHigh := qHigh[1..];
      } else {
        e := qNormal[0];
        qNormal := qNormal[1..];
      }
    }

    /** The locked half of postSnapshotLatest_. */
    method Store(e: Event) returns (needMarker: bool)
      modifies this
      ensures State() == StoreLatest(old(State()), e)
      ensures needMarker == !old(snapshotMarkerEnqueued)
    {
      needMarker := false;
      latestSnapshotEvent := e;
      hasLatestSnapshot := true;
      if !snapshotMarkerEnqueued {
        snapshotMarkerEnqueued := true;
        needMarker := true;
      }
    }

    /** post() with no other thread between its two locked regions. */
    method PostUninterrupted(e: Event)
      modifies this
      ensures State() ==
              if !e.kind.Snapshot? then Push(old(State()), e)
              else if old(snapshotMarkerEnqueued) then StoreLatest(old(State()), e)
              else Push(StoreLatest(old(State()), e), e)
    {
      if !e.kind.Snapshot? {
        PushEvent(e);
        return;
      }
      var needMarker := Store(e);
      if needMarker {
        PushEvent(e);
      }
    }

    method TakeLatestSnapshot() returns (ok: bool, out: Event)
      modifies this
      ensures ok == old(hasLatestSnapshot)
      ensures ok ==> out == old(latestSnapshotEvent)
      ensures State() == TakeLatest(old(State()))
    {
      out := latestSnapshotEvent;
      if !hasLatestSnapshot {
        snapshotMarkerEnqueued := false;
        return false, out;
      }
      hasLatestSnapshot := false;
      snapshotMarkerEnqueued := false;
      return true, out;
    }

    /** The locked region of stop(). */
    method ClearSnapshot()
      modifies this
      ensures State() == TakeLatest(old(State()))
    {
      hasLatestSnapshot := false;
      snapshotMarkerEnqueued := false;
    }
  }
}
