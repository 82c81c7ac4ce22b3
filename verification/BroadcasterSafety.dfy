/** What every interleaving of the broadcaster keeps. */
module BroadcasterSafety {
  import opened Prelude
  import opened BroadcasterProtocol

  // ---------------------------------------------------------------- the invariant

  /** Only the newest loop can be live, `loopDone` is its done channel, and `stopCh` is its open stop channel. */
  predicate LoopsInv<T>(s: State<T>) {
    && s.loopDone == (if s.loops == [] then None else Some(|s.loops| - 1))
    && (forall l :: 0 <= l < |s.loops| - 1 ==> s.loops[l].phase.Exited?)
    && (s.stopCh.Some? ==> s.stopCh == s.loopDone && !s.loops[|s.loops| - 1].stopClosed && !s.stopped)
    && (s.stopCh.None? && s.loops != [] ==> s.loops[|s.loops| - 1].stopClosed)
  }

  /** A parked Subscribe keeps its own channel registered, so no second one can see an empty map. */
  predicate ParkedInv<T>(s: State<T>) {
    && (forall c <- s.parked ::
          && s.stopCh.None?
          && s.loops != []
          && s.parked[c] == Parked(0, |s.loops| - 1)
          && c < |s.chans|
          && c !in s.returned
          && (s.stopPhase.Completed? || c in s.subscribers))
    && (forall c <- s.parked, d <- s.parked :: c == d)
    && (!s.stopped && s.subscribers != {} && s.stopCh.None? ==> s.parked.Keys != {})
  }

  predicate StopInv<T>(s: State<T>) {
    && s.loopGen == (if s.stopped then 1 else 0)
    && (s.stopped <==> !s.stopPhase.NotCalled?)
    && (s.stopPhase.Waiting? ==> s.stopPhase.done == s.loopDone)
    && (s.stopPhase.Completed? ==> s.subscribers == {} && (s.loops == [] || s.loops[|s.loops| - 1].phase.Exited?))
  }

  /** The idle timer is pending exactly as long as it may still have something to do. */
  predicate TimersInv<T>(s: State<T>) {
    && (s.idleTimer.Some? ==>
          && s.idleTimer.value < |s.timers|
          && (s.timers[s.idleTimer.value].Armed? || s.timers[s.idleTimer.value].Fired?)
          && s.subscribers == {}
          && !s.stopped)
    && (!s.stopped && s.subscribers == {} && s.stopCh.Some? ==> s.idleTimer.Some?)
  }

  predicate AllBelow(xs: seq<nat>, bound: nat) {
    forall i :: 0 <= i < |xs| ==> xs[i] < bound
  }

  predicate ChansInv<T>(s: State<T>) {
    && (forall c <- s.subscribers :: c < |s.chans| && s.chans[c].closes == 0)
    && (forall c <- s.returned :: c < |s.chans|)
    && (forall c :: 0 <= c < |s.chans| ==>
          && |s.chans[c].queue| <= QUEUE_CAPACITY
          && Increasing(s.chans[c].Handed())
          && AllBelow(s.chans[c].Handed(), |s.emitted|))
  }

  /** The fan-out of `p` never meets a closed channel, and accounts for every message. */
  predicate FanOutInv<T>(s: State<T>, p: Phase<T>) {
    if p.Sending? then
      && NoDuplicates(p.todo)
      && p.event + 1 == |s.emitted|
      && (forall c <- p.todo :: c < |s.chans| && s.chans[c].closes == 0 && AllBelow(s.chans[c].Handed(), p.event))
      && (if p.ofData then p.delivered + s.droppedMsgs + |p.todo| == p.size else s.droppedMsgs == 0)
    else
      s.droppedMsgs == 0
  }

  function LastData<T>(emitted: seq<Emission<T>>): Option<T> {
    if emitted == [] then None
    else if emitted[|emitted| - 1].isData then Some(emitted[|emitted| - 1].payload)
    else LastData(emitted[..|emitted| - 1])
  }

  /** The cached payload is the newest data event, or the one whose fan-out is about to start. */
  ghost predicate CacheInv<T>(s: State<T>) {
    if s.loops != [] && s.loops[|s.loops| - 1].phase.Ready? && s.loops[|s.loops| - 1].phase.isData then
      s.lastBroadcast == Some(s.loops[|s.loops| - 1].phase.payload)
    else
      s.lastBroadcast == LastData(s.emitted)
  }

  predicate SendingInv<T>(s: State<T>) {
    && !s.sentOnClosed
    && (if s.loops == [] then s.droppedMsgs == 0 else FanOutInv(s, s.loops[|s.loops| - 1].phase))
    && (forall r <- s.reports :: r.delivered + r.dropped == r.size)
  }

  /** Who may start, stop and wait for loops. */
  predicate Control<T>(s: State<T>) {
    LoopsInv(s) && ParkedInv(s) && StopInv(s) && TimersInv(s)
  }

  /** What flows through the channels. */
  ghost predicate Traffic<T>(s: State<T>) {
    ChansInv(s) && SendingInv(s) && CacheInv(s)
  }

  ghost predicate Inv<T>(s: State<T>) {
    Control(s) && Traffic(s)
  }

  // ---------------------------------------------------------------- Control, one critical section at a time

  lemma SubscribeEnterKeepsControl<T>(s: State<T>)
    requires Control(s) && Ids(s)
    ensures Control(AfterSubscribeEnter(s))
  {
    var t := AfterSubscribeEnter(s);
    if ParksOnEnter(s) {
      assert s.parked == map[];
      assert t.parked == map[|s.chans| := Parked(s.loopGen, s.loopDone.value)];
    } else {
      assert t.parked == s.parked;
    }
  }

  lemma SubscribeWakeKeepsControl<T>(s: State<T>, ch: ChanId)
    requires Control(s) && Ids(s) && Enabled(s, SubscribeWake(ch))
    ensures Control(AfterSubscribeWake(s, ch))
  {
    assert AfterSubscribeWake(s, ch).parked == map[];
  }

  lemma UnsubscribeKeepsControl<T>(s: State<T>, ch: ChanId)
    requires Control(s) && Ids(s) && Enabled(s, Unsubscribe(ch))
    ensures Control(AfterUnsubscribe(s, ch))
  {
  }

  lemma TimerCallbackKeepsControl<T>(s: State<T>, t: TimerId)
    requires Control(s) && Ids(s) && Enabled(s, TimerCallback(t))
    ensures Control(AfterTimerCallback(s, t))
  {
  }

  lemma StopEnterKeepsControl<T>(s: State<T>)
    requires Control(s) && Ids(s) && Enabled(s, StopEnter)
    ensures Control(AfterStopEnter(s))
  {
  }

  lemma StopFinishKeepsControl<T>(s: State<T>)
    requires Control(s) && Ids(s) && Enabled(s, StopFinish)
    ensures Control(AfterStopFinish(s))
  {
  }

  /** A loop's own moves change nothing that the control sections look at, except that loop's phase. */
  ghost predicate OnlyPhaseMoved<T>(s: State<T>, l: LoopId, t: State<T>)
    requires l < |s.loops|
  {
    && t.subscribers == s.subscribers && t.stopCh == s.stopCh && t.loopDone == s.loopDone
    && t.loopGen == s.loopGen && t.stopped == s.stopped && t.idleTimer == s.idleTimer
    && |t.chans| == |s.chans| && t.timers == s.timers
    && t.parked == s.parked && t.returned == s.returned && t.stopPhase == s.stopPhase
    && |t.loops| == |s.loops| && t.loops[l].stopClosed == s.loops[l].stopClosed
    && (forall k :: 0 <= k < |s.loops| && k != l ==> t.loops[k] == s.loops[k])
  }

  lemma SendOneFrame<T>(s: State<T>, l: LoopId)
    requires l < |s.loops| && MoveEnabled(s, l, SendOne)
    ensures OnlyPhaseMoved(s, l, AfterSendOne(s, l))
  {
  }

  lemma MoveFrame<T>(s: State<T>, l: LoopId, m: Move<T>)
    requires l < |s.loops| && MoveEnabled(s, l, m)
    ensures OnlyPhaseMoved(s, l, AfterMove(s, l, m))
  {
    if m.SendOne? {
      SendOneFrame(s, l);
    } else {
      assert AfterMove(s, l, m).chans == s.chans;
    }
  }

  lemma LoopMoveKeepsControl<T>(s: State<T>, l: LoopId, m: Move<T>)
    requires Control(s) && Ids(s) && Enabled(s, LoopMove(l, m))
    ensures l == |s.loops| - 1
    ensures Control(AfterMove(s, l, m))
  {
    MoveFrame(s, l, m);
    PhaseFrame(s, l, AfterMove(s, l, m));
  }

  lemma PhaseFrame<T>(s: State<T>, l: LoopId, t: State<T>)
    requires Control(s) && l < |s.loops| && !s.loops[l].phase.Exited? && OnlyPhaseMoved(s, l, t)
    ensures l == |s.loops| - 1
    ensures Control(t)
  {
  }

  lemma StepKeepsControl<T>(s: State<T>, a: Action<T>)
    requires Control(s) && Ids(s) && Enabled(s, a)
    ensures Control(Step(s, a))
  {
    match a
    case SubscribeEnter => SubscribeEnterKeepsControl(s);
    case SubscribeWake(ch) => SubscribeWakeKeepsControl(s, ch);
    case Unsubscribe(ch) => UnsubscribeKeepsControl(s, ch);
    case Receive(_) =>
    case TimerFires(_) =>
    case TimerCallback(t) => TimerCallbackKeepsControl(s, t);
    case StopEnter => StopEnterKeepsControl(s);
    case StopFinish => StopFinishKeepsControl(s);
    case LoopMove(l, m) => LoopMoveKeepsControl(s, l, m);
  }

  // ---------------------------------------------------------------- Traffic, one critical section at a time

  /** Control sections leave queues and fan-outs alone; at most they close channels nobody can be sending to. */
  lemma FrameKeepsTraffic<T>(s: State<T>, t: State<T>)
    requires Traffic(s)
    requires t.emitted == s.emitted && t.reports == s.reports && t.lastBroadcast == s.lastBroadcast
    requires t.droppedMsgs == s.droppedMsgs && t.sentOnClosed == s.sentOnClosed
    requires t.subscribers <= s.subscribers && (forall c <- t.returned :: c < |s.chans|)
    requires t.chans == s.chans
    requires |t.loops| == |s.loops| && (s.loops != [] ==> t.loops[|s.loops| - 1].phase == s.loops[|s.loops| - 1].phase)
    ensures Traffic(t)
  {
  }

  lemma ClosingKeepsTraffic<T>(s: State<T>, which: set<ChanId>, t: State<T>)
    requires Traffic(s)
    requires s.loops == [] || s.loops[|s.loops| - 1].phase.Exited?
    requires t.emitted == s.emitted && t.reports == s.reports && t.lastBroadcast == s.lastBroadcast
    requires t.droppedMsgs == s.droppedMsgs && t.sentOnClosed == s.sentOnClosed
    requires t.subscribers == s.subscribers - which && (forall c <- t.returned :: c < |s.chans|)
    requires t.chans == CloseAll(s.chans, which) && t.loops == s.loops
    ensures Traffic(t)
  {
    assert forall c :: 0 <= c < |s.chans| ==> t.chans[c].Handed() == s.chans[c].Handed();
  }

  lemma GoLoopKeepsTraffic<T>(s: State<T>, t: State<T>)
    requires Traffic(s)
    requires s.loops == [] || s.loops[|s.loops| - 1].phase.Exited?
    requires t.emitted == s.emitted && t.reports == s.reports && t.lastBroadcast == s.lastBroadcast
    requires t.droppedMsgs == s.droppedMsgs && t.sentOnClosed == s.sentOnClosed
    requires t.subscribers == s.subscribers && (forall c <- t.returned :: c < |s.chans|)
    requires t.chans == s.chans && t.loops == GoLoop(s.loops)
    ensures Traffic(t)
  {
  }

  lemma NewChanKeepsTraffic<T>(s: State<T>, closes: nat, t: State<T>)
    requires Traffic(s)
    requires t.chans == s.chans + [Chan([], [], closes)] && t.emitted == s.emitted && t.loops == s.loops
    requires t.subscribers == s.subscribers || (closes == 0 && t.subscribers == s.subscribers + {|s.chans|})
    requires t.returned <= s.returned + {|s.chans|}
    requires t.droppedMsgs == s.droppedMsgs && t.reports == s.reports && t.sentOnClosed == s.sentOnClosed
    requires t.lastBroadcast == s.lastBroadcast
    ensures Traffic(t)
  {
    assert forall c :: 0 <= c < |s.chans| ==> t.chans[c] == s.chans[c];
    assert t.chans[|s.chans|].Handed() == [];
  }

  lemma SubscribeEnterKeepsTraffic<T>(s: State<T>)
    requires LoopsInv(s) && Traffic(s) && Ids(s)
    ensures Traffic(AfterSubscribeEnter(s))
  {
    var t := AfterSubscribeEnter(s);
    var u := t.(loops := s.loops);
    NewChanKeepsTraffic(s, if s.stopped then 1 else 0, u);
    if t.loops != s.loops {
      GoLoopKeepsTraffic(u, t);
    }
  }

  lemma CloseOne(cs: seq<Chan>, ch: ChanId)
    requires ch < |cs|
    ensures CloseChan(cs, ch) == CloseAll(cs, {ch})
  {
  }

  lemma SubscribeWakeKeepsTraffic<T>(s: State<T>, ch: ChanId)
    requires Control(s) && Traffic(s) && Ids(s) && Enabled(s, SubscribeWake(ch))
    ensures Traffic(AfterSubscribeWake(s, ch))
  {
    if s.parked[ch].gen != s.loopGen {
      assert CloseChan(s.chans, ch) == CloseAll(s.chans, {ch}) by { CloseOne(s.chans, ch); }
      ClosingKeepsTraffic(s, {ch}, AfterSubscribeWake(s, ch));
    } else {
      GoLoopKeepsTraffic(s, AfterSubscribeWake(s, ch));
    }
  }

  lemma ReceiveKeepsTraffic<T>(s: State<T>, ch: ChanId)
    requires Traffic(s) && Ids(s) && Enabled(s, Receive(ch))
    ensures Traffic(AfterReceive(s, ch))
  {
    var t := AfterReceive(s, ch);
    assert t.chans[ch].Handed() == s.chans[ch].Handed();
    assert forall c :: 0 <= c < |s.chans| ==>
      t.chans[c].Handed() == s.chans[c].Handed() && t.chans[c].closes == s.chans[c].closes;
  }

  lemma SnapshotKeepsTraffic<T>(s: State<T>, l: LoopId, order: seq<ChanId>)
    requires LoopsInv(s) && Traffic(s) && Ids(s) && Enabled(s, LoopMove(l, Snapshot(order)))
    ensures Traffic(AfterMove(s, l, Snapshot(order)))
  {
    assert l == |s.loops| - 1;
    assert forall c <- order :: c in s.subscribers;
  }

  lemma OneMoreHanded(xs: seq<nat>, e: nat)
    requires Increasing(xs) && AllBelow(xs, e)
    ensures Increasing(xs + [e]) && AllBelow(xs + [e], e + 1)
  {
  }

  lemma SendOneKeepsChans<T>(s: State<T>, l: LoopId)
    requires l == |s.loops| - 1 && MoveEnabled(s, l, SendOne)
    requires ChansInv(s) && SendingInv(s)
    ensures ChansInv(AfterSendOne(s, l))
  {
    var t := AfterSendOne(s, l);
    var p := s.loops[l].phase;
    var ch := p.todo[0];
    assert ch in p.todo;
    var handed := s.chans[ch].Handed();
    OneMoreHanded(handed, p.event);
    assert t.chans[ch].Handed() == handed || t.chans[ch].Handed() == handed + [p.event];
    forall c | 0 <= c < |s.chans|
      ensures |t.chans[c].queue| <= QUEUE_CAPACITY
      ensures Increasing(t.chans[c].Handed()) && AllBelow(t.chans[c].Handed(), |t.emitted|)
    {
      assert c != ch ==> t.chans[c] == s.chans[c];
    }
  }

  lemma TailOfTodo(todo: seq<ChanId>)
    requires todo != [] && NoDuplicates(todo)
    ensures NoDuplicates(todo[1..])
    ensures forall c <- todo[1..] :: c in todo && c != todo[0]
  {
    assert forall i :: 0 <= i < |todo| - 1 ==> todo[1..][i] == todo[i + 1];
  }

  lemma SendOneKeepsSending<T>(s: State<T>, l: LoopId)
    requires l == |s.loops| - 1 && MoveEnabled(s, l, SendOne)
    requires SendingInv(s)
    ensures SendingInv(AfterSendOne(s, l))
  {
    var t := AfterSendOne(s, l);
    var p := s.loops[l].phase;
    assert p.todo[0] in p.todo;
    TailOfTodo(p.todo);
    forall c | c in p.todo[1..]
      ensures c < |t.chans| && t.chans[c] == s.chans[c] && t.chans[c].closes == 0
      ensures AllBelow(t.chans[c].Handed(), p.event)
    {
    }
  }

  lemma SendOneKeepsTraffic<T>(s: State<T>, l: LoopId)
    requires LoopsInv(s) && Traffic(s) && Ids(s) && Enabled(s, LoopMove(l, SendOne))
    ensures Traffic(AfterSendOne(s, l))
  {
    assert l == |s.loops| - 1;
    SendOneKeepsChans(s, l);
    SendOneKeepsSending(s, l);
  }

  lemma PhaseMoveKeepsTraffic<T>(s: State<T>, l: LoopId, m: Move<T>)
    requires LoopsInv(s) && Traffic(s) && Ids(s) && Enabled(s, LoopMove(l, m)) && !m.Snapshot? && !m.SendOne?
    ensures Traffic(AfterMove(s, l, m))
  {
    assert l == |s.loops| - 1;
    assert AfterMove(s, l, m).chans == s.chans;
  }

  lemma LoopMoveKeepsTraffic<T>(s: State<T>, l: LoopId, m: Move<T>)
    requires LoopsInv(s) && Traffic(s) && Ids(s) && Enabled(s, LoopMove(l, m))
    ensures Traffic(AfterMove(s, l, m))
  {
    match m
    case Snapshot(order) => SnapshotKeepsTraffic(s, l, order);
    case SendOne => SendOneKeepsTraffic(s, l);
    case _ => PhaseMoveKeepsTraffic(s, l, m);
  }

  lemma StepKeepsTraffic<T>(s: State<T>, a: Action<T>)
    requires Control(s) && Traffic(s) && Ids(s) && Enabled(s, a)
    ensures Traffic(Step(s, a))
  {
    match a
    case SubscribeEnter => SubscribeEnterKeepsTraffic(s);
    case SubscribeWake(ch) => SubscribeWakeKeepsTraffic(s, ch);
    case Receive(ch) => ReceiveKeepsTraffic(s, ch);
    case StopFinish => ClosingKeepsTraffic(s, s.subscribers, AfterStopFinish(s));
    case LoopMove(l, m) => LoopMoveKeepsTraffic(s, l, m);
    case _ => FrameKeepsTraffic(s, Step(s, a));
  }

  // ---------------------------------------------------------------- runs

  lemma StepKeepsInv<T>(s: State<T>, a: Action<T>)
    requires Inv(s) && Ids(s) && Enabled(s, a)
    ensures Inv(Step(s, a))
  {
    StepKeepsControl(s, a);
    StepKeepsTraffic(s, a);
  }

  lemma {:induction false} RunKeepsInv<T>(s: State<T>, acts: seq<Action<T>>)
    requires Inv(s) && IsRun(s, acts)
    ensures Inv(After(s, acts))
    decreases acts
  {
    if acts != [] {
      StepKeepsInv(s, acts[0]);
      RunKeepsInv(Step(s, acts[0]), acts[1..]);
    }
  }
}
