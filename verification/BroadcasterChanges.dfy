/** What each action of the broadcaster's protocol changes, stated without the functions that define the actions:
  * which timers, loops and queues change, in both directions, and what follows for whole runs. */
module BroadcasterChanges {
  import opened Prelude
  import opened BroadcasterProtocol
  import opened BroadcasterSafety
  import opened BroadcasterTheorems
  import opened BroadcasterTimers

  // ---------------------------------------------------------------- timers

  /** A Subscribe that is not turned away, and Stop, take back the idle timer. */
  predicate TakesBack<T>(s: State<T>, a: Action<T>) {
    a.StopEnter? || (a.SubscribeEnter? && !s.stopped)
  }

  /** Who is cancelled, who fires, and who is done. */
  lemma TimerChangesExactly<T>(s: State<T>, a: Action<T>, t: TimerId)
    requires Ids(s) && Enabled(s, a) && t < |s.timers|
    ensures t < |Step(s, a).timers|
    ensures var before, later := s.timers[t], Step(s, a).timers[t];
            && (before.Armed? && later.Cancelled? <==> before.Armed? && s.idleTimer == Some(t) && TakesBack(s, a))
            && (!before.Fired? && later.Fired? <==> a == TimerFires(t))
            && (!before.Finished? && later.Finished? <==> a == TimerCallback(t))
            && (later != before ==> (before.Armed? && !later.Finished?) || (before.Fired? && later.Finished?))
  {
    if a.LoopMove? {
      MoveFrame(s, a.l, a.move);
    }
  }

  /** Unsubscribe leaves nobody behind while a loop runs and no timer is pending. */
  predicate ArmsTimer<T>(s: State<T>, a: Action<T>) {
    a.Unsubscribe? && s.subscribers <= {a.ch} && s.stopCh.Some? && s.idleTimer.None?
  }

  /** A timer is made, armed, exactly then; the field refers to it until it is taken back or some callback runs. */
  lemma TimerFieldChangesExactly<T>(s: State<T>, a: Action<T>)
    requires Ids(s) && Enabled(s, a)
    ensures |Step(s, a).timers| == |s.timers| + if ArmsTimer(s, a) then 1 else 0
    ensures ArmsTimer(s, a) ==> Step(s, a).timers[|s.timers|].Armed?
    ensures Step(s, a).idleTimer ==
            if ArmsTimer(s, a) then Some(|s.timers|)
            else if TakesBack(s, a) || a.TimerCallback? then None
            else s.idleTimer
  {
    assert a.Unsubscribe? ==> (s.subscribers - {a.ch} == {} <==> s.subscribers <= {a.ch});
    if a.LoopMove? {
      MoveFrame(s, a.l, a.move);
    }
  }

  /** The timer that Subscribe or Stop finds armed in the field acts in no continuation. */
  lemma TakenBackNeverActs<T>(s: State<T>, a: Action<T>, rest: seq<Action<T>>, t: TimerId)
    requires Ids(s) && Enabled(s, a) && TakesBack(s, a)
    requires s.idleTimer == Some(t) && s.timers[t].Armed? && IsRun(Step(s, a), rest)
    ensures forall i :: 0 <= i < |rest| ==> rest[i] != TimerFires(t) && rest[i] != TimerCallback(t)
  {
    TimerChangesExactly(s, a, t);
    SpentStaysSpent(Step(s, a), rest, t);
  }

  // ---------------------------------------------------------------- loops

  /** The first subscriber starts a loop, at once if there never was one, else when its wait is over. */
  predicate Starts<T>(s: State<T>, a: Action<T>) {
    && !s.stopped
    && (a.SubscribeWake? || (a.SubscribeEnter? && s.subscribers == {} && s.stopCh.None? && s.loopDone.None?))
  }

  /** Stop, and an idle timer's callback that finds nobody subscribed. */
  predicate EndsPolling<T>(s: State<T>, a: Action<T>) {
    a.StopEnter? || (a.TimerCallback? && s.subscribers == {})
  }

  /** A loop starts, and the running one is told to stop, exactly then; `stopCh` follows. */
  lemma LoopsChangeExactly<T(!new)>(s: State<T>, a: Action<T>, l: LoopId)
    requires Reachable(s) && Ids(s) && Enabled(s, a) && l < |s.loops|
    ensures var u := Step(s, a);
            && |u.loops| == |s.loops| + (if Starts(s, a) then 1 else 0)
            && (!s.loops[l].stopClosed && u.loops[l].stopClosed <==> s.stopCh == Some(l) && EndsPolling(s, a))
            && (s.loops[l].stopClosed ==> u.loops[l].stopClosed)
            && u.stopCh == if Starts(s, a) then Some(|s.loops|) else if EndsPolling(s, a) then None else s.stopCh
  {
    ReachableInv(s);
    if a.LoopMove? {
      MoveFrame(s, a.l, a.move);
    }
  }

  // ---------------------------------------------------------------- queues

  /** The action is one send to channel `ch`. */
  predicate SendsTo<T>(s: State<T>, a: Action<T>, ch: ChanId) {
    && a.LoopMove? && a.move.SendOne? && a.l < |s.loops| && s.loops[a.l].phase.Sending?
    && s.loops[a.l].phase.todo != [] && s.loops[a.l].phase.todo[0] == ch
  }

  /** A channel is handed an event exactly if the event is being sent to it and fewer than five are waiting, and the
    * client takes the oldest one out exactly by receiving. */
  lemma QueuesChangeExactly<T(!new)>(s: State<T>, a: Action<T>, ch: ChanId)
    requires Reachable(s) && Ids(s) && Enabled(s, a) && ch < |s.chans|
    ensures ch < |Step(s, a).chans|
    ensures var before, later := s.chans[ch], Step(s, a).chans[ch];
            && later.Handed() == before.Handed() +
                 (if SendsTo(s, a, ch) && |before.queue| < 5 then [s.loops[a.l].phase.event] else [])
            && later.taken == before.taken + (if a == Receive(ch) then before.queue[..1] else [])
  {
    if a.LoopMove? {
      NeverSendsOnClosedChannel(s, a.l);
      MoveChangesQueue(s, a.l, a.move, ch);
      assert s.chans[ch].taken + [] == s.chans[ch].taken;
    } else {
      SectionChangesQueue(s, a, ch);
    }
  }

  lemma SectionChangesQueue<T>(s: State<T>, a: Action<T>, ch: ChanId)
    requires Ids(s) && Enabled(s, a) && !a.LoopMove? && ch < |s.chans|
    ensures ch < |Step(s, a).chans|
    ensures var before, later := s.chans[ch], Step(s, a).chans[ch];
            && later.Handed() == before.Handed() + []
            && later.taken == before.taken + (if a == Receive(ch) then before.queue[..1] else [])
  {
    var before := s.chans[ch];
    assert before.Handed() + [] == before.Handed() && before.taken + [] == before.taken;
    if a == Receive(ch) {
      assert (before.taken + [before.queue[0]]) + before.queue[1..] == before.Handed();
    }
  }

  lemma MoveChangesQueue<T>(s: State<T>, l: LoopId, m: Move<T>, ch: ChanId)
    requires l < |s.loops| && MoveEnabled(s, l, m) && ch < |s.chans|
    requires m.SendOne? ==> s.chans[s.loops[l].phase.todo[0]].closes == 0
    ensures ch < |AfterMove(s, l, m).chans|
    ensures var before, later := s.chans[ch], AfterMove(s, l, m).chans[ch];
            && later.taken == before.taken
            && later.Handed() == before.Handed() +
                 (if SendsTo(s, LoopMove(l, m), ch) && |before.queue| < 5 then [s.loops[l].phase.event] else [])
  {
    var before := s.chans[ch];
    assert before.Handed() + [] == before.Handed();
    if SendsTo(s, LoopMove(l, m), ch) {
      var event := s.loops[l].phase.event;
      assert before.taken + (before.queue + [event]) == before.Handed() + [event];
    }
  }

  /** A data event that finds five waiting counts as dropped, a degraded one does not; reading the counter after a
    * data fan-out resets it. */
  lemma DropsChangeExactly<T(!new)>(s: State<T>, a: Action<T>)
    requires Reachable(s) && Ids(s) && Enabled(s, a)
    ensures Step(s, a).droppedMsgs ==
            if a.LoopMove? && a.move.EndFanOut? then 0
            else s.droppedMsgs + if exists ch :: Drops(s, a, ch) then 1 else 0
  {
    if a.LoopMove? {
      ReachableInv(s);
      NeverSendsOnClosedChannel(s, a.l);
      MoveDrops(s, a.l, a.move);
    } else {
      assert !exists ch :: Drops(s, a, ch);
    }
  }

  lemma MoveDrops<T>(s: State<T>, l: LoopId, m: Move<T>)
    requires l < |s.loops| && MoveEnabled(s, l, m)
    requires m.SendOne? ==> s.chans[s.loops[l].phase.todo[0]].closes == 0
    requires m.EndFanOut? && !s.loops[l].phase.ofData ==> s.droppedMsgs == 0
    ensures AfterMove(s, l, m).droppedMsgs ==
            if m.EndFanOut? then 0 else s.droppedMsgs + if exists ch :: Drops(s, LoopMove(l, m), ch) then 1 else 0
  {
    if m.SendOne? {
      var ch := s.loops[l].phase.todo[0];
      assert (exists c :: Drops(s, LoopMove(l, m), c)) <==> Drops(s, LoopMove(l, m), ch);
    } else {
      assert !exists ch :: Drops(s, LoopMove(l, m), ch);
    }
  }

  predicate Drops<T>(s: State<T>, a: Action<T>, ch: ChanId) {
    SendsTo(s, a, ch) && s.loops[a.l].phase.ofData && ch < |s.chans| && |s.chans[ch].queue| >= 5
  }
}
