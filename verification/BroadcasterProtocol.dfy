/** The broadcaster's life cycle (sse/broadcaster.go) as a state machine.
  *
  * One action is one critical section, one wait on a loop's done channel, one
  * snapshot or one channel send; any number of clients, timers and polling
  * loops interleave freely.  A polling loop is named by its index in `loops`
  * and owns one stop channel and one done channel; a subscriber's channel is
  * named by its index in `chans`.  A queue holds event numbers: event `n`
  * is the fan-out of `emitted[n]`.
  */
module BroadcasterProtocol {
  import opened Prelude

  type ChanId = nat
  type LoopId = nat
  type TimerId = nat

  const QUEUE_CAPACITY: nat := 5

  /** `queue` is buffered, `taken` was received by the client, `closes` counts calls of close. */
  datatype Chan = Chan(queue: seq<nat>, taken: seq<nat>, closes: nat) {
    function Handed(): seq<nat> { taken + queue }
  }

  /** Where the goroutine of one polling loop stands. */
  datatype Phase<T> =
    | AtSelect
    | Working
    | Ready(payload: T, isData: bool)
    | Sending(event: nat, ofData: bool, todo: seq<ChanId>, size: nat, delivered: nat)
    | Exited

  datatype Loop<T> = Loop(stopClosed: bool, phase: Phase<T>)

  /** A timer that fired has started its callback's goroutine; cancelling comes too late for it. */
  datatype TimerState = Armed | Fired | Cancelled | Finished

  datatype StopPhase = NotCalled | Waiting(done: Option<LoopId>) | Completed

  /** What a Subscribe that released the lock remembers. */
  datatype Parked = Parked(gen: nat, done: LoopId)

  /** An event handed to the fan-out; `isData` tells fetched data from the degraded payload. */
  datatype Emission<T> = Emission(payload: T, isData: bool)

  datatype Report = Report(size: nat, delivered: nat, dropped: nat)

  datatype State<T> = State(
    // the fields of the Broadcaster
    subscribers: set<ChanId>,
    stopCh: Option<LoopId>,
    loopDone: Option<LoopId>,
    loopGen: nat,
    stopped: bool,
    idleTimer: Option<TimerId>,
    lastBroadcast: Option<T>,
    droppedMsgs: nat,
    // channels, loops and timers ever created
    chans: seq<Chan>,
    loops: seq<Loop<T>>,
    timers: seq<TimerState>,
    // calls in progress
    parked: map<ChanId, Parked>,
    returned: set<ChanId>,
    stopPhase: StopPhase,
    // history
    emitted: seq<Emission<T>>,
    reports: seq<Report>,
    sentOnClosed: bool)

  datatype Move<T> =
    | Tick
    | Skip
    | Crash
    | Publish(data: T)
    | Degrade(degraded: T)
    | Snapshot(order: seq<ChanId>)
    | SendOne
    | EndFanOut
    | SeeStop

  datatype Action<T> =
    | SubscribeEnter
    | SubscribeWake(ch: ChanId)
    | Unsubscribe(ch: ChanId)
    | Receive(ch: ChanId)
    | TimerFires(timer: TimerId)
    | TimerCallback(timer: TimerId)
    | StopEnter
    | StopFinish
    | LoopMove(l: LoopId, move: Move<T>)

  function Init<T>(): State<T> {
    State({}, None, None, 0, false, None, None, 0, [], [], [], map[], {}, NotCalled, [], [], false)
  }

  /** The fields refer to a loop and a timer that exist. */
  predicate Refs<T>(s: State<T>) {
    && (s.stopCh.Some? ==> s.stopCh.value < |s.loops|)
    && (s.loopDone.Some? ==> s.loopDone.value < |s.loops|)
    && (s.idleTimer.Some? ==> s.idleTimer.value < |s.timers|)
  }

  /** So does every identifier held by a map or by a call in progress. */
  predicate Ids<T>(s: State<T>) {
    && Refs(s)
    && (forall c <- s.subscribers :: c < |s.chans|)
    && (forall c <- s.returned :: c < |s.chans|)
    && (forall c <- s.parked :: c < |s.chans| && s.parked[c].done < |s.loops|)
    && (s.stopPhase.Waiting? && s.stopPhase.done.Some? ==> s.stopPhase.done.value < |s.loops|)
  }

  // ---------------------------------------------------------------- the critical sections

  function CloseChan(cs: seq<Chan>, c: ChanId): seq<Chan>
    requires c < |cs|
  {
    cs[c := cs[c].(closes := cs[c].closes + 1)]
  }

  function CloseAll(cs: seq<Chan>, which: set<ChanId>): seq<Chan> {
    seq(|cs|, i requires 0 <= i < |cs| => if i in which then cs[i].(closes := cs[i].closes + 1) else cs[i])
  }

  function CancelTimer(timers: seq<TimerState>, idle: Option<TimerId>): seq<TimerState>
    requires idle.Some? ==> idle.value < |timers|
  {
    if idle.Some? && timers[idle.value].Armed? then timers[idle.value := Cancelled] else timers
  }

  function CloseStop<T>(loops: seq<Loop<T>>, stopCh: Option<LoopId>): seq<Loop<T>>
    requires stopCh.Some? ==> stopCh.value < |loops|
  {
    if stopCh.Some? then loops[stopCh.value := Loop(true, loops[stopCh.value].phase)] else loops
  }

  function GoLoop<T>(loops: seq<Loop<T>>): seq<Loop<T>> {
    loops + [Loop(false, AtSelect)]
  }

  /** The branch of Subscribe that releases the lock. */
  predicate ParksOnEnter<T>(s: State<T>) {
    !s.stopped && s.subscribers == {} && s.stopCh.None? && s.loopDone.Some?
  }

  function AfterSubscribeEnter<T>(s: State<T>): State<T>
    requires Refs(s)
  {
    var ch := |s.chans|;
    if s.stopped then
      s.(chans := s.chans + [Chan([], [], 1)], returned := s.returned + {ch})
    else if ParksOnEnter(s) then
      s.(chans := s.chans + [Chan([], [], 0)], subscribers := s.subscribers + {ch},
         idleTimer := None, timers := CancelTimer(s.timers, s.idleTimer),
         parked := s.parked[ch := Parked(s.loopGen, s.loopDone.value)])
    else if s.subscribers == {} && s.stopCh.None? then
      s.(chans := s.chans + [Chan([], [], 0)], subscribers := s.subscribers + {ch},
         idleTimer := None, timers := CancelTimer(s.timers, s.idleTimer), returned := s.returned + {ch},
         stopCh := Some(|s.loops|), loopDone := Some(|s.loops|), loops := GoLoop(s.loops))
    else
      s.(chans := s.chans + [Chan([], [], 0)], subscribers := s.subscribers + {ch},
         idleTimer := None, timers := CancelTimer(s.timers, s.idleTimer), returned := s.returned + {ch})
  }

  /** Closing a channel that Stop has closed already panics: then Subscribe does not return it. */
  function AfterSubscribeWake<T>(s: State<T>, ch: ChanId): State<T>
    requires ch in s.parked && ch < |s.chans|
  {
    if s.parked[ch].gen != s.loopGen then
      if !s.stopped then
        s.(parked := s.parked - {ch}, returned := s.returned + {ch})
      else
        s.(parked := s.parked - {ch}, returned := if s.chans[ch].closes == 0 then s.returned + {ch} else s.returned,
           subscribers := s.subscribers - {ch}, chans := CloseChan(s.chans, ch))
    else
      s.(parked := s.parked - {ch}, returned := s.returned + {ch},
         stopCh := Some(|s.loops|), loopDone := Some(|s.loops|), loops := GoLoop(s.loops))
  }

  function AfterUnsubscribe<T>(s: State<T>, ch: ChanId): State<T> {
    if s.subscribers - {ch} == {} && s.stopCh.Some? && s.idleTimer.None? then
      s.(subscribers := {}, idleTimer := Some(|s.timers|), timers := s.timers + [Armed])
    else
      s.(subscribers := s.subscribers - {ch})
  }

  function AfterTimerCallback<T>(s: State<T>, t: TimerId): State<T>
    requires Refs(s) && t < |s.timers|
  {
    if !s.stopped && s.subscribers == {} && s.stopCh.Some? then
      s.(timers := s.timers[t := Finished], idleTimer := None,
         stopCh := None, loops := CloseStop(s.loops, s.stopCh))
    else
      s.(timers := s.timers[t := Finished], idleTimer := None)
  }

  function AfterStopEnter<T>(s: State<T>): State<T>
    requires Refs(s)
  {
    s.(stopped := true, loopGen := s.loopGen + 1,
       idleTimer := None, timers := CancelTimer(s.timers, s.idleTimer),
       stopCh := None, loops := CloseStop(s.loops, s.stopCh),
       stopPhase := Waiting(s.loopDone))
  }

  function AfterStopFinish<T>(s: State<T>): State<T> {
    s.(chans := CloseAll(s.chans, s.subscribers), subscribers := {}, stopPhase := Completed)
  }

  function AfterReceive<T>(s: State<T>, ch: ChanId): State<T>
    requires ch < |s.chans| && s.chans[ch].queue != []
  {
    var c := s.chans[ch];
    s.(chans := s.chans[ch := c.(queue := c.queue[1..], taken := c.taken + [c.queue[0]])])
  }

  // ---------------------------------------------------------------- the polling loop

  function WithPhase<T>(loops: seq<Loop<T>>, l: LoopId, p: Phase<T>): seq<Loop<T>>
    requires l < |loops|
  {
    loops[l := Loop(loops[l].stopClosed, p)]
  }

  predicate MoveEnabled<T>(s: State<T>, l: LoopId, m: Move<T>)
    requires l < |s.loops|
  {
    var p := s.loops[l].phase;
    match m
    case Tick => p.AtSelect?
    case Skip => p.Working?
    case Crash => p.Working?
    case Publish(_) => p.Working?
    case Degrade(_) => p.Working?
    case Snapshot(order) => p.Ready? && Enumerates(order, s.subscribers)
    case SendOne => p.Sending? && p.todo != [] && p.todo[0] < |s.chans|
    case EndFanOut => p.Sending? && p.todo == []
    case SeeStop => p.AtSelect? && s.loops[l].stopClosed
  }

  /** One non-blocking send: into a full queue it is a drop, into a closed channel a panic that ends the loop. */
  function AfterSendOne<T>(s: State<T>, l: LoopId): State<T>
    requires l < |s.loops| && MoveEnabled(s, l, SendOne)
  {
    var p := s.loops[l].phase;
    var c := s.chans[p.todo[0]];
    if c.closes > 0 then
      s.(loops := WithPhase(s.loops, l, Exited), sentOnClosed := true)
    else if |c.queue| < QUEUE_CAPACITY then
      s.(loops := WithPhase(s.loops, l, p.(todo := p.todo[1..], delivered := p.delivered + 1)),
         chans := s.chans[p.todo[0] := Chan(c.queue + [p.event], c.taken, c.closes)])
    else
      s.(loops := WithPhase(s.loops, l, p.(todo := p.todo[1..])),
         droppedMsgs := if p.ofData then s.droppedMsgs + 1 else s.droppedMsgs)
  }

  function AfterMove<T>(s: State<T>, l: LoopId, m: Move<T>): State<T>
    requires l < |s.loops| && MoveEnabled(s, l, m)
  {
    var p := s.loops[l].phase;
    match m
    case Tick => s.(loops := WithPhase(s.loops, l, Working))
    case Skip => s.(loops := WithPhase(s.loops, l, AtSelect))
    case Crash => s.(loops := WithPhase(s.loops, l, Exited))
    case Publish(data) => s.(loops := WithPhase(s.loops, l, Ready(data, true)), lastBroadcast := Some(data))
    case Degrade(d) => s.(loops := WithPhase(s.loops, l, Ready(d, false)))
    case Snapshot(order) =>
      s.(loops := WithPhase(s.loops, l, Sending(|s.emitted|, p.isData, order, |order|, 0)),
         emitted := s.emitted + [Emission(p.payload, p.isData)])
    case SendOne => AfterSendOne(s, l)
    case EndFanOut =>
      if p.ofData then
        s.(loops := WithPhase(s.loops, l, AtSelect), droppedMsgs := 0,
           reports := s.reports + [Report(p.size, p.delivered, s.droppedMsgs)])
      else
        s.(loops := WithPhase(s.loops, l, AtSelect))
    case SeeStop => s.(loops := WithPhase(s.loops, l, Exited))
  }

  // ---------------------------------------------------------------- runs

  /** A client unsubscribes or receives only on a channel that Subscribe returned to it;
    * a wait on a done channel ends only when that loop has exited. */
  predicate Enabled<T>(s: State<T>, a: Action<T>)
    requires Ids(s)
  {
    match a
    case SubscribeEnter => true
    case SubscribeWake(ch) => ch in s.parked && s.loops[s.parked[ch].done].phase.Exited?
    case Unsubscribe(ch) => ch in s.returned
    case Receive(ch) => ch in s.returned && s.chans[ch].queue != []
    case TimerFires(t) => t < |s.timers| && s.timers[t].Armed?
    case TimerCallback(t) => t < |s.timers| && s.timers[t].Fired?
    case StopEnter => s.stopPhase.NotCalled?
    case StopFinish =>
      s.stopPhase.Waiting? && (s.stopPhase.done.Some? ==> s.loops[s.stopPhase.done.value].phase.Exited?)
    case LoopMove(l, m) => l < |s.loops| && MoveEnabled(s, l, m)
  }

  function Step<T>(s: State<T>, a: Action<T>): State<T>
    requires Ids(s) && Enabled(s, a)
  {
    match a
    case SubscribeEnter => AfterSubscribeEnter(s)
    case SubscribeWake(ch) => AfterSubscribeWake(s, ch)
    case Unsubscribe(ch) => AfterUnsubscribe(s, ch)
    case Receive(ch) => AfterReceive(s, ch)
    case TimerFires(t) => s.(timers := s.timers[t := Fired])
    case TimerCallback(t) => AfterTimerCallback(s, t)
    case StopEnter => AfterStopEnter(s)
    case StopFinish => AfterStopFinish(s)
    case LoopMove(l, m) => AfterMove(s, l, m)
  }

  predicate IsRun<T>(s: State<T>, acts: seq<Action<T>>)
    decreases acts
  {
    acts == [] || (Ids(s) && Enabled(s, acts[0]) && IsRun(Step(s, acts[0]), acts[1..]))
  }

  function After<T>(s: State<T>, acts: seq<Action<T>>): State<T>
    requires IsRun(s, acts)
    decreases acts
  {
    if acts == [] then s else After(Step(s, acts[0]), acts[1..])
  }

  ghost predicate Reachable<T(!new)>(s: State<T>) {
    exists acts :: IsRun(Init(), acts) && After(Init(), acts) == s
  }
}
