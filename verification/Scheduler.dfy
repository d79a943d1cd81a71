/**
 * DeviceScheduler (app/scheduler/device_scheduler.cpp): device aging and periodic polling. Each
 * locked region is one step; a tick reads the clock before it takes the lock, so its time is a
 * parameter that need not be the latest.
 */
module Scheduler {
  import opened Words

  /** DevicePollCtx. */
  datatype Ctx = Ctx(lastOk: nat, lastSend: nat, window: nat, lastOffline: nat, disconnects: nat, online: bool)

  const NEW_CTX := Ctx(0, 0, 2000, 0, 0, false)

  /** PollTask. */
  datatype Task = Task(name: string, period: nat, due: nat, enabled: bool)

  datatype State = State(ctxs: map<string, Ctx>, tasks: seq<Task>)

  function CtxOf(ctxs: map<string, Ctx>, name: string): Ctx {
    if name in ctxs then ctxs[name] else NEW_CTX
  }

  // ---- Data ------------------------------------------------------------------------------

  /** The first task of a device, or the number of tasks. */
  function FirstOf(tasks: seq<Task>, name: string): (k: nat)
    ensures k <= |tasks|
    ensures k < |tasks| ==> tasks[k].name == name
    ensures forall j :: 0 <= j < k ==> tasks[j].name != name
  {
    if |tasks| == 0 || tasks[0].name == name then 0 else 1 + FirstOf(tasks[1..], name)
  }

  function Fed(c: Ctx, now: nat): Ctx {
    c.(lastOk := now, online := true)
  }

  function Postponed(t: Task, now: nat): Task {
    t.(due := now + t.period)
  }

  function OnData(s: State, name: string, now: nat): State {
    var k := FirstOf(s.tasks, name);
    State(s.ctxs[name := Fed(CtxOf(s.ctxs, name), now)],
          if k < |s.tasks| then s.tasks[k := Postponed(s.tasks[k], now)] else s.tasks)
  }

  // ---- Ticks -----------------------------------------------------------------------------

  predicate WithinWindow(c: Ctx, now: nat) {
    c.lastOk != 0 && now >= c.lastOk && now - c.lastOk <= c.window
  }

  function Aged(c: Ctx, now: nat): Ctx {
    var near := WithinWindow(c, now);
    if c.online && !near then
      c.(online := false, lastOffline := now, disconnects := (c.disconnects + 1) % TWO32)
    else c.(online := near)
  }

  /** A task is polled when it is enabled and its time has come, or was never set. */
  predicate Polled(t: Task, now: nat) {
    t.enabled && (t.due == 0 || t.due <= now)
  }

  function Rescheduled(t: Task, now: nat): Task {
    if Polled(t, now) then t.(due := now + t.period) else t
  }

  /** The poll marks the send time of its device, and brings its context into being. */
  function Marked(ctxs: map<string, Ctx>, tasks: seq<Task>, now: nat): map<string, Ctx> {
    if |tasks| == 0 then ctxs
    else
      var n := |tasks| - 1;
      var before := Marked(ctxs, tasks[..n], now);
      if Polled(tasks[n], now)
      then before[tasks[n].name := CtxOf(before, tasks[n].name).(lastSend := now)]
      else before
  }

  function AgedAll(ctxs: map<string, Ctx>, now: nat): map<string, Ctx> {
    map name | name in ctxs :: Aged(ctxs[name], now)
  }

  function RescheduledAll(tasks: seq<Task>, now: nat): seq<Task> {
    seq(|tasks|, k requires 0 <= k < |tasks| => Rescheduled(tasks[k], now))
  }

  function Ticked(s: State, now: nat): State {
    State(Marked(AgedAll(s.ctxs, now), s.tasks, now), RescheduledAll(s.tasks, now))
  }

  // ---- Runs ------------------------------------------------------------------------------

  datatype Event = Data(name: string, now: nat) | Tick(now: nat)

  function Do(s: State, e: Event): State {
    match e
    case Data(name, now) => OnData(s, name, now)
    case Tick(now) => Ticked(s, now)
  }

  function Run(s: State, evs: seq<Event>): State {
    if |evs| == 0 then s else Do(Run(s, evs[..|evs| - 1]), evs[|evs| - 1])
  }

  /** At the start no device has reported and no task is scheduled. */
  predicate Initial(s: State) {
    && (forall name :: name in s.ctxs ==>
          s.ctxs[name].lastOk == 0 && !s.ctxs[name].online && s.ctxs[name].disconnects == 0)
    && (forall k :: 0 <= k < |s.tasks| ==> s.tasks[k].due == 0)
  }

  /** Times are positive. */
  predicate Positive(evs: seq<Event>) {
    forall i :: 0 <= i < |evs| ==> evs[i].now > 0
  }

  /** Nothing is earlier than a tick before it: ticks are ordered among themselves, and a report,
      which reads the clock under the lock, is no earlier than the ticks it follows. A tick may be
      earlier than the reports it follows. */
  predicate TicksLead(evs: seq<Event>) {
    forall i, j :: 0 <= i < j < |evs| && evs[i].Tick? ==> evs[i].now <= evs[j].now
  }

  /** When a device last reported, 0 if it has not. */
  function LastData(evs: seq<Event>, name: string): nat {
    if |evs| == 0 then 0
    else
      var e := evs[|evs| - 1];
      if e.Data? && e.name == name then e.now else LastData(evs[..|evs| - 1], name)
  }

  // ---- One device through a step ---------------------------------------------------------

  /** Polling touches the send time only. */
  predicate SameHealth(a: Ctx, b: Ctx) {
    a == b.(lastSend := a.lastSend)
  }

  lemma {:induction false} MarkedHealth(ctxs: map<string, Ctx>, tasks: seq<Task>, now: nat, name: string)
    ensures SameHealth(CtxOf(Marked(ctxs, tasks, now), name), CtxOf(ctxs, name))
  {
    if |tasks| > 0 {
      MarkedHealth(ctxs, tasks[..|tasks| - 1], now, name);
    }
  }

  lemma DeviceStep(s: State, e: Event, name: string)
    ensures var was, now := CtxOf(s.ctxs, name), CtxOf(Do(s, e).ctxs, name);
            SameHealth(now, if e.Tick? then Aged(was, e.now) else if e.name == name then Fed(was, e.now) else was)
  {
    if e.Tick? {
      MarkedHealth(AgedAll(s.ctxs, e.now), s.tasks, e.now, name);
    }
  }

  lemma {:induction false} LastOkIsLastData(s: State, evs: seq<Event>, name: string)
    requires Initial(s)
    ensures var c := CtxOf(Run(s, evs).ctxs, name);
            c.lastOk == LastData(evs, name) && c.window == WindowOf(s, name)
  {
    if |evs| > 0 {
      var n := |evs| - 1;
      LastOkIsLastData(s, evs[..n], name);
      DeviceStep(Run(s, evs[..n]), evs[n], name);
    }
  }

  /** A device that was not set up has a window of two seconds. */
  function WindowOf(s: State, name: string): nat {
    if name in s.ctxs then s.ctxs[name].window else 2000
  }

  /** After a tick a device is online exactly when its latest report is no later than the tick and
      within its window. */
  lemma {:induction false} OnlineAfterTick(s: State, evs: seq<Event>, now: nat, name: string)
    requires Initial(s)
    ensures var last := LastData(evs, name);
            CtxOf(Run(s, evs + [Tick(now)]).ctxs, name).online <==>
            last != 0 && last <= now <= last + WindowOf(s, name)
  {
    assert (evs + [Tick(now)])[..|evs|] == evs;
    LastOkIsLastData(s, evs, name);
    DeviceStep(Run(s, evs), Tick(now), name);
  }

  /** The other half of that condition matters: a tick that took its time before a report came in
      but the lock after it drops the device that has just reported. */
  lemma {:induction false} LateTickDropsDevice(s: State, evs: seq<Event>, name: string, at: nat, now: nat)
    requires Initial(s) && 0 < now < at
    ensures var t := Run(s, evs + [Data(name, at)] + [Tick(now)]);
            !CtxOf(t.ctxs, name).online
  {
    var more := evs + [Data(name, at)];
    assert more[..|evs|] == evs;
    OnlineAfterTick(s, more, now, name);
  }

  // ---- Edges -----------------------------------------------------------------------------

  predicate Up(s: State, e: Event, name: string) {
    !CtxOf(s.ctxs, name).online && CtxOf(Do(s, e).ctxs, name).online
  }

  predicate Down(s: State, e: Event, name: string) {
    CtxOf(s.ctxs, name).online && !CtxOf(Do(s, e).ctxs, name).online
  }

  function Ups(s: State, evs: seq<Event>, name: string): nat {
    if |evs| == 0 then 0
    else
      var n := |evs| - 1;
      Ups(s, evs[..n], name) + if Up(Run(s, evs[..n]), evs[n], name) then 1 else 0
  }

  function Downs(s: State, evs: seq<Event>, name: string): nat {
    if |evs| == 0 then 0
    else
      var n := |evs| - 1;
      Downs(s, evs[..n], name) + if Down(Run(s, evs[..n]), evs[n], name) then 1 else 0
  }

  /** When a device was last dropped, 0 if it never was. */
  function LastDown(s: State, evs: seq<Event>, name: string): nat {
    if |evs| == 0 then 0
    else
      var n := |evs| - 1;
      if Down(Run(s, evs[..n]), evs[n], name) then evs[n].now else LastDown(s, evs[..n], name)
  }

  /** A tick finds a report no later than itself and within the window. */
  predicate Near(last: nat, now: nat, window: nat) {
    last != 0 && last <= now <= last + window
  }

  /** A device is online by its latest report, or by the latest tick since. */
  predicate OnlineBy(evs: seq<Event>, name: string, window: nat) {
    |evs| > 0 &&
    var n := |evs| - 1;
    match evs[n]
    case Data(d, _) => d == name || OnlineBy(evs[..n], name, window)
    case Tick(now) => Near(LastData(evs[..n], name), now, window)
  }

  /** The latest tick since the device's latest report took its time before that report. */
  predicate LateTick(evs: seq<Event>, name: string) {
    |evs| > 0 &&
    var n := |evs| - 1;
    match evs[n]
    case Data(d, _) => d != name && LateTick(evs[..n], name)
    case Tick(now) => now < LastData(evs[..n], name)
  }

  lemma {:induction false} OnlineIs(s: State, evs: seq<Event>, name: string)
    requires Initial(s)
    ensures CtxOf(Run(s, evs).ctxs, name).online <==> OnlineBy(evs, name, WindowOf(s, name))
  {
    if |evs| > 0 {
      var n := |evs| - 1;
      OnlineIs(s, evs[..n], name);
      LastOkIsLastData(s, evs[..n], name);
      DeviceStep(Run(s, evs[..n]), evs[n], name);
    }
  }

  /** An offline device has not reported, or its latest tick was late, or that tick was already
      beyond the window. */
  lemma {:induction false} OfflineBecause(evs: seq<Event>, name: string, window: nat, now: nat)
    requires forall i :: 0 <= i < |evs| && evs[i].Tick? ==> evs[i].now <= now
    ensures !OnlineBy(evs, name, window) ==>
              LastData(evs, name) == 0 || LateTick(evs, name) || LastData(evs, name) + window < now
    ensures LateTick(evs, name) ==> !OnlineBy(evs, name, window)
  {
    if |evs| > 0 {
      OfflineBecause(evs[..|evs| - 1], name, window, now);
    }
  }

  /** Reports raise a device and ticks drop it. A tick raises a device exactly when it finds it
      within the window and the tick before it was late; so without late ticks never. */
  lemma {:induction false} EdgeKinds(s: State, evs: seq<Event>, e: Event, name: string)
    requires Initial(s) && TicksLead(evs + [e])
    ensures Down(Run(s, evs), e, name) ==> e.Tick?
    ensures Up(Run(s, evs), e, name) && e.Data? ==> e.name == name
    ensures e.Tick? ==>
              (Up(Run(s, evs), e, name) <==>
               Near(LastData(evs, name), e.now, WindowOf(s, name)) && LateTick(evs, name))
  {
    DeviceStep(Run(s, evs), e, name);
    OnlineIs(s, evs, name);
    LastOkIsLastData(s, evs, name);
    forall i | 0 <= i < |evs| && evs[i].Tick?
      ensures evs[i].now <= e.now
    {
      assert (evs + [e])[i] == evs[i] && (evs + [e])[|evs|] == e;
    }
    OfflineBecause(evs, name, WindowOf(s, name), e.now);
  }

  /** It happens: a report, a late tick that drops the device, and the next tick raises it. */
  lemma {:induction false} LateTickRaisesDevice(s: State, name: string, at: nat)
    requires Initial(s) && at > 1
    ensures Up(Run(s, [Data(name, at), Tick(at - 1)]), Tick(at), name)
  {
    var evs := [Data(name, at), Tick(at - 1)];
    assert evs[..1] == [Data(name, at)];
    assert LastData(evs[..1], name) == at && LastData(evs, name) == at && LateTick(evs, name);
    assert evs + [Tick(at)] == [Data(name, at), Tick(at - 1), Tick(at)];
    EdgeKinds(s, evs, Tick(at), name);
  }

  /** Edges alternate: there is one more rise than drops exactly while the device is online; and
      the disconnect counter counts the drops, in 32 bits, and the offline time is that of the
      latest. */
  lemma {:induction false} EdgesCount(s: State, evs: seq<Event>, name: string)
    requires Initial(s)
    ensures var c := CtxOf(Run(s, evs).ctxs, name);
            && Ups(s, evs, name) == Downs(s, evs, name) + (if c.online then 1 else 0)
            && c.disconnects == Downs(s, evs, name) % 0x1_0000_0000
            && c.lastOffline == (if Downs(s, evs, name) == 0 then CtxOf(s.ctxs, name).lastOffline
                                 else LastDown(s, evs, name))
  {
    if |evs| > 0 {
      var n := |evs| - 1;
      var before := Run(s, evs[..n]);
      EdgesCount(s, evs[..n], name);
      DeviceStep(before, evs[n], name);
      CountStep(CtxOf(before.ctxs, name), CtxOf(Do(before, evs[n]).ctxs, name), evs[n], name, Downs(s, evs[..n], name));
    }
  }

  lemma CountStep(was: Ctx, c: Ctx, e: Event, name: string, downs: nat)
    requires was.disconnects == downs % TWO32
    requires SameHealth(c, if e.Tick? then Aged(was, e.now) else if e.name == name then Fed(was, e.now) else was)
    ensures c.disconnects == (downs + if was.online && !c.online then 1 else 0) % 0x1_0000_0000
    ensures c.lastOffline == if was.online && !c.online then e.now else was.lastOffline
  {}

  // ---- Polls -----------------------------------------------------------------------------

  /** The times at which a task is polled. */
  function Polls(s: State, evs: seq<Event>, k: nat): seq<nat> {
    if |evs| == 0 then []
    else
      var n := |evs| - 1;
      var before, e := Polls(s, evs[..n], k), evs[n];
      if e.Tick? && k in DueOf(Run(s, evs[..n]).tasks, e.now) then before + [e.now] else before
  }

  /** The due time is a period after the latest poll, or later. */
  predicate Spaced(polls: seq<nat>, t: Task, clock: nat) {
    && (forall i :: 0 < i < |polls| ==> polls[i] >= polls[i - 1] + t.period)
    && (|polls| > 0 ==> 0 < polls[|polls| - 1] <= clock && t.due >= polls[|polls| - 1] + t.period)
  }

  /** Which task a report of its device postpones. */
  predicate IsFirst(tasks: seq<Task>, k: nat, name: string) {
    k < |tasks| && tasks[k].name == name && forall j :: 0 <= j < k ==> tasks[j].name != name
  }

  lemma TaskStep(s: State, e: Event, k: nat)
    requires k < |s.tasks|
    ensures var t := Do(s, e).tasks;
            && |t| == |s.tasks|
            && (e.Tick? ==> t[k] == Rescheduled(s.tasks[k], e.now))
            && (e.Data? ==> t[k] == if IsFirst(s.tasks, k, e.name) then s.tasks[k].(due := e.now + s.tasks[k].period)
                                    else s.tasks[k])
  {}

  /** The time of the latest tick. */
  function LastTick(evs: seq<Event>): nat {
    if |evs| == 0 then 0
    else if evs[|evs| - 1].Tick? then evs[|evs| - 1].now
    else LastTick(evs[..|evs| - 1])
  }

  lemma {:induction false} LastTickLeads(evs: seq<Event>, now: nat)
    requires forall i :: 0 <= i < |evs| && evs[i].Tick? ==> evs[i].now <= now
    ensures LastTick(evs) <= now
  {
    if |evs| > 0 {
      LastTickLeads(evs[..|evs| - 1], now);
    }
  }

  /** Successive polls of a task are at least its period apart, late ticks or not. */
  lemma {:induction false} PollsSpaced(s: State, evs: seq<Event>, k: nat)
    requires Initial(s) && Positive(evs) && TicksLead(evs) && k < |s.tasks|
    ensures var t := Run(s, evs).tasks;
            |t| == |s.tasks| && t[k].period == s.tasks[k].period && Spaced(Polls(s, evs, k), t[k], LastTick(evs))
  {
    if |evs| > 0 {
      var n := |evs| - 1;
      PollsSpaced(s, evs[..n], k);
      TaskStep(Run(s, evs[..n]), evs[n], k);
      DueIffPolled(Run(s, evs[..n]).tasks, evs[n].now, k);
      LastTickLeads(evs[..n], evs[n].now);
      PollStep(Polls(s, evs[..n], k), Run(s, evs[..n]).tasks[k], LastTick(evs[..n]), evs[n]);
    }
  }

  lemma PollStep(polls: seq<nat>, t: Task, clock: nat, e: Event)
    requires Spaced(polls, t, clock) && clock <= e.now && e.now > 0
    ensures e.Tick? ==>
              Spaced(if Polled(t, e.now) then polls + [e.now] else polls, Rescheduled(t, e.now), e.now)
    ensures e.Data? ==> Spaced(polls, Postponed(t, e.now), clock)
  {}

  /** The numbers of the poll entries a tick is due to send, in order. */
  function DueOf(tasks: seq<Task>, now: nat): seq<nat> {
    if |tasks| == 0 then []
    else
      var n := |tasks| - 1;
      DueOf(tasks[..n], now) + if Polled(tasks[n], now) then [n] else []
  }

  lemma {:induction false} DueIffPolled(tasks: seq<Task>, now: nat, k: nat)
    ensures k in DueOf(tasks, now) <==> k < |tasks| && Polled(tasks[k], now)
  {
    if |tasks| > 0 {
      DueIffPolled(tasks[..|tasks| - 1], now, k);
    }
  }

  /** When a task was last polled or postponed by a report, 0 if it never was. */
  function LastMove(s: State, evs: seq<Event>, k: nat): nat {
    if |evs| == 0 then 0
    else
      var n := |evs| - 1;
      match evs[n]
      case Tick(now) => if k in DueOf(Run(s, evs[..n]).tasks, now) then now else LastMove(s, evs[..n], k)
      case Data(name, now) => if IsFirst(s.tasks, k, name) then now else LastMove(s, evs[..n], k)
  }

  predicate SameButDue(a: Task, b: Task) {
    a == b.(due := a.due)
  }

  lemma {:induction false} DueIs(s: State, evs: seq<Event>, k: nat)
    requires Initial(s) && Positive(evs) && k < |s.tasks|
    ensures var t, last := Run(s, evs).tasks, LastMove(s, evs, k);
            && |t| == |s.tasks| && SameButDue(t[k], s.tasks[k])
            && t[k].due == (if last == 0 then 0 else last + s.tasks[k].period)
  {
    if |evs| > 0 {
      var n := |evs| - 1;
      var before := Run(s, evs[..n]);
      DueIs(s, evs[..n], k);
      TaskStep(before, evs[n], k);
      DueIffPolled(before.tasks, evs[n].now, k);
      if evs[n].Data? {
        FirstStays(s, evs[..n], k, evs[n].name);
      }
    }
  }

  lemma {:induction false} NamesStay(s: State, evs: seq<Event>, k: nat)
    requires k < |s.tasks|
    ensures |Run(s, evs).tasks| == |s.tasks| && Run(s, evs).tasks[k].name == s.tasks[k].name
  {
    if |evs| > 0 {
      NamesStay(s, evs[..|evs| - 1], k);
      TaskStep(Run(s, evs[..|evs| - 1]), evs[|evs| - 1], k);
    }
  }

  lemma {:induction false} FirstStays(s: State, evs: seq<Event>, k: nat, name: string)
    requires k < |s.tasks|
    ensures IsFirst(Run(s, evs).tasks, k, name) <==> IsFirst(s.tasks, k, name)
  {
    forall j | 0 <= j <= k
      ensures |Run(s, evs).tasks| == |s.tasks| && Run(s, evs).tasks[j].name == s.tasks[j].name
    {
      NamesStay(s, evs, j);
    }
  }

  /** A tick polls a task exactly when it is enabled and its period has passed since it was last
      polled or postponed, or neither has happened yet. */
  lemma {:induction false} PolledExactlyWhen(s: State, evs: seq<Event>, now: nat, k: nat)
    requires Initial(s) && Positive(evs) && k < |s.tasks|
    ensures var last := LastMove(s, evs, k);
            k in DueOf(Run(s, evs).tasks, now) <==>
            s.tasks[k].enabled && (last == 0 || now >= last + s.tasks[k].period)
  {
    DueIs(s, evs, k);
    DueIffPolled(Run(s, evs).tasks, now, k);
  }

  /** A tick marks the send time of exactly the devices it polls. */
  lemma {:induction false} TickMarks(s: State, now: nat, name: string)
    ensures CtxOf(Do(s, Tick(now)).ctxs, name).lastSend ==
            if exists k: nat :: k in DueOf(s.tasks, now) && k < |s.tasks| && s.tasks[k].name == name then now
            else CtxOf(s.ctxs, name).lastSend
  {
    MarkedSends(AgedAll(s.ctxs, now), s.tasks, now, name);
  }

  lemma {:induction false} MarkedSends(ctxs: map<string, Ctx>, tasks: seq<Task>, now: nat, name: string)
    ensures CtxOf(Marked(ctxs, tasks, now), name).lastSend ==
            if exists k: nat :: k in DueOf(tasks, now) && k < |tasks| && tasks[k].name == name then now
            else CtxOf(ctxs, name).lastSend
  {
    if |tasks| > 0 {
      var n := |tasks| - 1;
      MarkedSends(ctxs, tasks[..n], now, name);
      forall k: nat
        ensures k in DueOf(tasks[..n], now) ==> k < n
      {
        DueIffPolled(tasks[..n], now, k);
      }
      if Polled(tasks[n], now) && tasks[n].name == name {
        assert n in DueOf(tasks, now);
      } else if k: nat :| k in DueOf(tasks[..n], now) && k < n && tasks[..n][k].name == name {
        assert k in DueOf(tasks, now) && tasks[k].name == name;
      }
    }
  }

  /** The polls go out in the order of the tasks. */
  lemma {:induction false} DueInOrder(tasks: seq<Task>, now: nat)
    ensures forall i, j :: 0 <= i < j < |DueOf(tasks, now)| ==> DueOf(tasks, now)[i] < DueOf(tasks, now)[j]
    ensures forall i :: 0 <= i < |DueOf(tasks, now)| ==> DueOf(tasks, now)[i] < |tasks|
  {
    if |tasks| > 0 {
      DueInOrder(tasks[..|tasks| - 1], now);
    }
  }

  /** Each task that is due is polled once. */
  lemma {:induction false} DueOnce(tasks: seq<Task>, now: nat, k: nat)
    ensures multiset(DueOf(tasks, now))[k] == if k < |tasks| && Polled(tasks[k], now) then 1 else 0
  {
    if |tasks| > 0 {
      DueOnce(tasks[..|tasks| - 1], now, k);
    }
  }

  // ---- The object ------------------------------------------------------------------------

  class DeviceScheduler {
    var ctxs: map<string, Ctx>
    var tasks: seq<Task>

    function Current(): State
      reads this
    {
      State(ctxs, tasks)
    }

    constructor (windows: map<string, nat>, polls: seq<Task>)
      requires forall k :: 0 <= k < |polls| ==> polls[k].due == 0
      ensures tasks == polls && Initial(Current())
      ensures ctxs.Keys == windows.Keys && forall n :: n in windows ==> ctxs[n].window == windows[n]
    {
      ctxs := map n | n in windows :: NEW_CTX.(window := windows[n]);
      tasks := polls;
    }

    /** onDeviceData; the result says whether the health callback is due. */
    method OnDeviceData(name: string, now: nat) returns (changed: bool)
      modifies this
      ensures Current() == OnData(old(Current()), name, now)
      ensures changed == Up(old(Current()), Data(name, now), name)
    {
      var c := if name in ctxs then ctxs[name] else NEW_CTX;
      changed := !c.online;
      ctxs := ctxs[name := c.(lastOk := now, online := true)];
      var k := 0;
      while k < |tasks| && tasks[k].name != name
        invariant k <= FirstOf(tasks, name) <= |tasks| && tasks == old(tasks)
      {
        k := k + 1;
      }
      if k < |tasks| {
        tasks := tasks[k := tasks[k].(due := now + tasks[k].period)];
      }
    }

    method AgeOne(n: string, now: nat) returns (changed: bool)
      requires n in ctxs
      modifies this`ctxs
      ensures ctxs == old(ctxs)[n := Aged(old(ctxs)[n], now)]
      ensures changed == (old(ctxs)[n].online != ctxs[n].online)
    {
      var c := ctxs[n];
      var near := c.lastOk != 0 && now >= c.lastOk && now - c.lastOk <= c.window;
      changed := c.online != near;
      if c.online && !near {
        c := c.(lastOffline := now, disconnects := (c.disconnects + 1) % TWO32);
      }
      c := c.(online := near);
      ctxs := ctxs[n := c];
    }

    /** The aging loop of pollTick, over the devices in some order. */
    method AgeDevices(now: nat) returns (changed: set<string>)
      modifies this`ctxs
      ensures ctxs == AgedAll(old(ctxs), now)
      ensures changed == set n | n in old(ctxs) && old(ctxs)[n].online != ctxs[n].online
    {
      changed := {};
      var left := ctxs.Keys;
      while left != {}
        invariant left <= ctxs.Keys == old(ctxs).Keys
        invariant forall n :: n in ctxs ==>
                    ctxs[n] == if n in left then old(ctxs)[n] else Aged(old(ctxs)[n], now)
        invariant forall n :: n in changed <==> n in ctxs && n !in left && old(ctxs)[n].online != ctxs[n].online
        decreases left
      {
        var n :| n in left;
        var edge := AgeOne(n, now);
        if edge {
          changed := changed + {n};
        }
        left := left - {n};
      }
    }

    method PollOne(k: nat, now: nat) returns (polled: bool)
      requires k < |tasks|
      modifies this
      ensures polled == Polled(old(tasks)[k], now)
      ensures tasks == old(tasks)[k := Rescheduled(old(tasks)[k], now)]
      ensures var name := old(tasks)[k].name;
              ctxs == if polled then old(ctxs)[name := CtxOf(old(ctxs), name).(lastSend := now)] else old(ctxs)
    {
      polled := false;
      var t := tasks[k];
      if t.enabled {
        if t.due == 0 {
          t := t.(due := now);
        }
        if now >= t.due {
          polled := true;
          t := t.(due := now + t.period);
          var c := if t.name in ctxs then ctxs[t.name] else NEW_CTX;
          ctxs := ctxs[t.name := c.(lastSend := now)];
        }
      }
      tasks := tasks[k := t];
    }

    /** The second loop of pollTick: the numbers of the polls to send. */
    method CollectDue(now: nat) returns (due: seq<nat>)
      modifies this
      ensures Current() == State(Marked(old(ctxs), old(tasks), now), RescheduledAll(old(tasks), now))
      ensures due == DueOf(old(tasks), now)
    {
      due := [];
      var k := 0;
      while k < |tasks|
        invariant 0 <= k <= |tasks| == |old(tasks)|
        invariant ctxs == Marked(old(ctxs), old(tasks)[..k], now)
        invariant forall i :: 0 <= i < |tasks| ==>
                    tasks[i] == if i < k then Rescheduled(old(tasks)[i], now) else old(tasks)[i]
        invariant due == DueOf(old(tasks)[..k], now)
      {
        assert old(tasks)[..k + 1][..k] == old(tasks)[..k];
        var polled := PollOne(k, now);
        if polled {
          due := due + [k];
        }
        k := k + 1;
      }
      assert old(tasks)[..k] == old(tasks);
    }

    method PollTick(now: nat) returns (due: seq<nat>, changed: set<string>)
      modifies this
      ensures Current() == Ticked(old(Current()), now)
      ensures due == DueOf(old(tasks), now)
      ensures forall n :: n in changed <==>
                Up(old(Current()), Tick(now), n) || Down(old(Current()), Tick(now), n)
    {
      ghost var s := Current();
      changed := AgeDevices(now);
      ghost var aged := ctxs;
      due := CollectDue(now);
      forall n
        ensures n in changed <==> Up(s, Tick(now), n) || Down(s, Tick(now), n)
      {
        MarkedHealth(aged, s.tasks, now, n);
      }
    }
  }
}
