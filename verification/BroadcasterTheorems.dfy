/** The broadcaster's guarantees, over every run from its construction. */
module BroadcasterTheorems {
  import opened Prelude
  import opened BroadcasterProtocol
  import opened BroadcasterSafety

  lemma ReachableInv<T(!new)>(s: State<T>)
    requires Reachable(s)
    ensures Inv(s) && Ids(s)
  {
    var acts :| IsRun(Init(), acts) && After(Init(), acts) == s;
    RunKeepsInv(Init(), acts);
  }

  // ---------------------------------------------------------------- loops

  predicate Live<T>(s: State<T>, l: LoopId) {
    l < |s.loops| && !s.loops[l].phase.Exited?
  }

  /** At most one polling loop is live, and `loopDone` is its done channel. */
  lemma AtMostOneLoop<T(!new)>(s: State<T>, i: LoopId, j: LoopId)
    requires Reachable(s) && Live(s, i) && Live(s, j)
    ensures i == j && s.loopDone == Some(i)
  {
    ReachableInv(s);
  }

  /** Starting a loop leaves `loopGen` alone, so a parked Subscribe that finds it changed finds the
    * broadcaster stopped: the branch "generation changed but not stopped" is unreachable. */
  lemma GenerationChangesOnlyByStop<T(!new)>(s: State<T>, ch: ChanId)
    requires Reachable(s) && ch in s.parked
    ensures s.parked[ch].gen != s.loopGen <==> s.stopped
  {
    ReachableInv(s);
  }

  /** Every send of a fan-out finds its channel open. */
  lemma NeverSendsOnClosedChannel<T(!new)>(s: State<T>, l: LoopId)
    requires Reachable(s)
    ensures !s.sentOnClosed
    ensures l < |s.loops| && MoveEnabled(s, l, SendOne) ==> s.chans[s.loops[l].phase.todo[0]].closes == 0
  {
    ReachableInv(s);
    if l < |s.loops| && MoveEnabled(s, l, SendOne) {
      assert l == |s.loops| - 1;
      assert s.loops[l].phase.todo[0] in s.loops[l].phase.todo;
    }
  }

  /** An existing channel is closed only after Stop was called and the last loop has exited;
    * once Stop was called no loop starts any more. */
  lemma ClosesOnlyAfterLastLoop<T(!new)>(s: State<T>, a: Action<T>, ch: ChanId)
    requires Reachable(s) && Ids(s) && Enabled(s, a) && ch < |s.chans|
    ensures ch < |Step(s, a).chans|
    ensures Step(s, a).chans[ch].closes > s.chans[ch].closes ==>
              s.stopped && forall l: LoopId :: !Live(s, l)
    ensures s.stopped ==> Step(s, a).stopped && |Step(s, a).loops| == |s.loops|
  {
    ReachableInv(s);
    if a.LoopMove? {
      MoveFrame(s, a.l, a.move);
      LoopMoveNeverCloses(s, a.l, a.move, ch);
    } else {
      SectionClosesLate(s, a, ch);
    }
  }

  lemma SectionClosesLate<T>(s: State<T>, a: Action<T>, ch: ChanId)
    requires Control(s) && Ids(s) && Enabled(s, a) && ch < |s.chans| && !a.LoopMove?
    ensures ch < |Step(s, a).chans|
    ensures Step(s, a).chans[ch].closes > s.chans[ch].closes ==>
              s.stopped && forall l: LoopId :: !Live(s, l)
    ensures s.stopped ==> Step(s, a).stopped && |Step(s, a).loops| == |s.loops|
  {
  }

  lemma LoopMoveNeverCloses<T>(s: State<T>, l: LoopId, m: Move<T>, ch: ChanId)
    requires l < |s.loops| && MoveEnabled(s, l, m) && ch < |s.chans|
    ensures |AfterMove(s, l, m).chans| == |s.chans|
    ensures AfterMove(s, l, m).chans[ch].closes == s.chans[ch].closes
  {
    if !m.SendOne? {
      assert AfterMove(s, l, m).chans == s.chans;
    }
  }

  // ---------------------------------------------------------------- closing channels once

  predicate ClosedAtMostOnce<T>(s: State<T>) {
    forall c :: 0 <= c < |s.chans| ==> s.chans[c].closes <= 1
  }

  /** Nobody is left who would close a channel that Stop's final pass has closed. */
  predicate Settled<T>(s: State<T>) {
    ClosedAtMostOnce(s) && (s.stopPhase.Completed? ==> s.parked == map[])
  }

  lemma StepClosesAtMostOnce<T>(s: State<T>, a: Action<T>)
    requires Inv(s) && Ids(s) && Enabled(s, a) && Settled(s)
    ensures ClosedAtMostOnce(Step(s, a))
    ensures !(a.StopFinish? && s.parked != map[]) ==> Settled(Step(s, a))
  {
    var t := Step(s, a);
    if a.LoopMove? {
      MoveFrame(s, a.l, a.move);
      forall c | 0 <= c < |s.chans| ensures t.chans[c].closes <= 1 { LoopMoveNeverCloses(s, a.l, a.move, c); }
    } else if a.SubscribeWake? {
      assert forall c :: 0 <= c < |s.chans| && c != a.ch ==> t.chans[c] == s.chans[c];
    }
  }

  lemma {:induction false} RunClosesAtMostOnce<T>(s: State<T>, acts: seq<Action<T>>)
    requires Inv(s) && IsRun(s, acts) && Settled(s)
    requires s.stopPhase.Completed? || !After(s, acts).stopPhase.Completed?
    ensures Settled(After(s, acts))
    decreases acts
  {
    if acts != [] {
      var s1 := Step(s, acts[0]);
      StepKeepsInv(s, acts[0]);
      if s1.stopPhase.Completed? && !s.stopPhase.Completed? {
        CompletedStays(s1, acts[1..]);
        assert false;
      }
      StepClosesAtMostOnce(s, acts[0]);
      RunClosesAtMostOnce(s1, acts[1..]);
    }
  }

  lemma {:induction false} CompletedStays<T>(s: State<T>, acts: seq<Action<T>>)
    requires IsRun(s, acts) && s.stopPhase.Completed?
    ensures After(s, acts).stopPhase.Completed?
    decreases acts
  {
    if acts != [] {
      if acts[0].LoopMove? { MoveFrame(s, acts[0].l, acts[0].move); }
      CompletedStays(Step(s, acts[0]), acts[1..]);
    }
  }

  /** `ch` was closed by the final pass while its Subscribe was parked, and will be or was closed again. */
  predicate Doomed<T>(s: State<T>, ch: ChanId) {
    && s.stopPhase.Completed?
    && ch < |s.chans|
    && s.chans[ch].closes == (if ch in s.parked then 1 else 2)
  }

  lemma StepKeepsDoom<T>(s: State<T>, a: Action<T>, ch: ChanId)
    requires Inv(s) && Ids(s) && Enabled(s, a) && Doomed(s, ch)
    ensures Doomed(Step(s, a), ch)
  {
    if a.LoopMove? {
      MoveFrame(s, a.l, a.move);
      LoopMoveNeverCloses(s, a.l, a.move, ch);
    }
  }

  lemma {:induction false} RunKeepsDoom<T>(s: State<T>, acts: seq<Action<T>>, ch: ChanId)
    requires Inv(s) && IsRun(s, acts) && Doomed(s, ch)
    ensures Doomed(After(s, acts), ch)
    decreases acts
  {
    if acts != [] {
      StepKeepsDoom(s, acts[0], ch);
      StepKeepsInv(s, acts[0]);
      RunKeepsDoom(Step(s, acts[0]), acts[1..], ch);
    }
  }

  /** Until Stop's final pass no channel is closed twice. */
  lemma ClosedOnceBeforeFinalPass<T(!new)>(s: State<T>)
    requires Reachable(s) && !s.stopPhase.Completed?
    ensures ClosedAtMostOnce(s)
  {
    var acts :| IsRun(Init(), acts) && After(Init(), acts) == s;
    RunClosesAtMostOnce(Init(), acts);
  }

  /** `s` is the state in which Stop's final pass runs, `rest` any continuation after which no Subscribe
    * is parked any more: some channel was closed twice exactly if one was parked at the final pass. */
  lemma ClosedTwiceExactlyOnOverlap<T(!new)>(s: State<T>, rest: seq<Action<T>>)
    requires Reachable(s) && Ids(s) && Enabled(s, StopFinish)
    requires IsRun(Step(s, StopFinish), rest)
    ensures s.parked == map[] ==> ClosedAtMostOnce(After(Step(s, StopFinish), rest))
    ensures s.parked != map[] && After(Step(s, StopFinish), rest).parked == map[] ==>
              !ClosedAtMostOnce(After(Step(s, StopFinish), rest))
  {
    ReachableInv(s);
    ClosedOnceBeforeFinalPass(s);
    var t := Step(s, StopFinish);
    StepKeepsInv(s, StopFinish);
    StepClosesAtMostOnce(s, StopFinish);
    if s.parked == map[] {
      RunClosesAtMostOnce(t, rest);
    } else {
      var ch :| ch in s.parked;
      assert Doomed(t, ch);
      RunKeepsDoom(t, rest, ch);
    }
  }

  // ---------------------------------------------------------------- progress

  /** While the broadcaster is not stopped and has subscribers, it has an open `stopCh`, or exactly one
    * parked Subscribe, which will start a loop when it wakes. */
  lemma NoLostStart<T(!new)>(s: State<T>)
    requires Reachable(s) && !s.stopped && s.subscribers != {}
    ensures s.stopCh.Some? || exists ch :: s.parked.Keys == {ch}
    ensures Ids(s)
    ensures forall ch <- s.parked ::
              Enabled(s, SubscribeWake(ch)) ==>
                && Step(s, SubscribeWake(ch)).stopCh.Some?
                && Live(Step(s, SubscribeWake(ch)), |s.loops|)
                && ch in Step(s, SubscribeWake(ch)).subscribers
  {
    ReachableInv(s);
    if s.stopCh.None? {
      var ch :| ch in s.parked;
      assert s.parked.Keys == {ch};
    }
  }

  predicate IsCrash<T>(a: Action<T>) {
    a.LoopMove? && a.move.Crash?
  }

  /** Every loop that has exited was told to. */
  predicate Uncrashed<T>(s: State<T>) {
    forall l :: 0 <= l < |s.loops| && s.loops[l].phase.Exited? ==> s.loops[l].stopClosed
  }

  lemma MoveKeepsUncrashed<T>(s: State<T>, l: LoopId, m: Move<T>)
    requires Inv(s) && Ids(s) && Enabled(s, LoopMove(l, m)) && !m.Crash? && Uncrashed(s)
    ensures Uncrashed(AfterMove(s, l, m))
  {
    MoveFrame(s, l, m);
    assert l == |s.loops| - 1;
    if m.SendOne? {
      assert s.loops[l].phase.todo[0] in s.loops[l].phase.todo;
    }
  }

  lemma StepKeepsUncrashed<T>(s: State<T>, a: Action<T>)
    requires Inv(s) && Ids(s) && Enabled(s, a) && !IsCrash(a) && Uncrashed(s)
    ensures Uncrashed(Step(s, a))
  {
    if a.LoopMove? {
      MoveKeepsUncrashed(s, a.l, a.move);
    }
  }

  lemma {:induction false} RunKeepsUncrashed<T>(s: State<T>, acts: seq<Action<T>>)
    requires Inv(s) && IsRun(s, acts) && Uncrashed(s)
    requires forall i :: 0 <= i < |acts| ==> !IsCrash(acts[i])
    ensures Uncrashed(After(s, acts))
    decreases acts
  {
    if acts != [] {
      assert !IsCrash(acts[0]);
      StepKeepsUncrashed(s, acts[0]);
      StepKeepsInv(s, acts[0]);
      RunKeepsUncrashed(Step(s, acts[0]), acts[1..]);
    }
  }

  /** A live loop that was not told to stop, or a parked Subscribe about to start one. */
  ghost predicate IsServed<T>(s: State<T>) {
    || (s.stopCh.Some? && Live(s, s.stopCh.value) && !s.loops[s.stopCh.value].stopClosed)
    || exists ch :: s.parked.Keys == {ch}
  }

  lemma UncrashedIsServed<T(!new)>(s: State<T>)
    requires Reachable(s) && Uncrashed(s) && !s.stopped && s.subscribers != {}
    ensures IsServed(s)
  {
    ReachableInv(s);
    NoLostStart(s);
  }

  /** If no loop panics, subscribers are never without a loop: one is live and not told to stop, or exactly one
    * parked Subscribe is about to start one. */
  lemma ServedUnlessCrashed<T(!new)>(acts: seq<Action<T>>)
    requires IsRun(Init<T>(), acts) && forall i :: 0 <= i < |acts| ==> !IsCrash(acts[i])
    ensures var s := After(Init<T>(), acts); !s.stopped && s.subscribers != {} ==> IsServed(s)
  {
    var s := After(Init<T>(), acts);
    assert Reachable(s);
    RunKeepsUncrashed(Init<T>(), acts);
    if !s.stopped && s.subscribers != {} {
      UncrashedIsServed(s);
    }
  }

  /** `stopCh` names a loop that has exited: it has panicked. */
  predicate Crashed<T>(s: State<T>) {
    s.stopCh.Some? && s.stopCh.value < |s.loops| && s.loops[s.stopCh.value].phase.Exited?
  }

  /** With panics: subscribers are served exactly unless the loop has panicked. */
  lemma ServedIff<T(!new)>(s: State<T>)
    requires Reachable(s) && !s.stopped && s.subscribers != {}
    ensures IsServed(s) <==> !Crashed(s)
  {
    ReachableInv(s);
    if s.stopCh.None? {
      NoLostStart(s);
    } else {
      assert s.parked == map[];
      forall ch: ChanId ensures s.parked.Keys != {ch} {
        assert ch !in s.parked;
      }
    }
  }

  lemma StepKeepsCrashed<T>(s: State<T>, a: Action<T>)
    requires Inv(s) && Ids(s) && Enabled(s, a) && Crashed(s) && !a.StopEnter? && !a.TimerCallback?
    ensures Crashed(Step(s, a)) && |Step(s, a).loops| == |s.loops| && Step(s, a).emitted == s.emitted
  {
  }

  /** What a panic costs: until Stop or an idle timer's callback runs, no loop starts and nothing is emitted,
    * whoever subscribes meanwhile. */
  lemma {:induction false} CrashedServesNobody<T>(s: State<T>, acts: seq<Action<T>>)
    requires Inv(s) && IsRun(s, acts) && Crashed(s)
    requires forall i :: 0 <= i < |acts| ==> !acts[i].StopEnter? && !acts[i].TimerCallback?
    ensures Crashed(After(s, acts)) && |After(s, acts).loops| == |s.loops| && After(s, acts).emitted == s.emitted
    decreases acts
  {
    if acts != [] {
      StepKeepsCrashed(s, acts[0]);
      StepKeepsInv(s, acts[0]);
      CrashedServesNobody(Step(s, acts[0]), acts[1..]);
    }
  }

  /** The same from any reachable state. */
  lemma CrashServesNobody<T(!new)>(s: State<T>, acts: seq<Action<T>>)
    requires Reachable(s) && IsRun(s, acts) && Crashed(s)
    requires forall i :: 0 <= i < |acts| ==> !acts[i].StopEnter? && !acts[i].TimerCallback?
    ensures Crashed(After(s, acts)) && |After(s, acts).loops| == |s.loops| && After(s, acts).emitted == s.emitted
  {
    ReachableInv(s);
    CrashedServesNobody(s, acts);
  }

  predicate WaitsOn<T>(s: State<T>, l: LoopId) {
    (exists ch <- s.parked :: s.parked[ch].done == l) || s.stopPhase == Waiting(Some(l))
  }

  predicate MovesOf<T>(acts: seq<Action<T>>, l: LoopId) {
    forall i :: 0 <= i < |acts| ==> acts[i].LoopMove? && acts[i].l == l
  }

  /** Whoever waits on a done channel waits on a loop whose stop channel is already closed, and that loop
    * can always run to its exit by its own moves alone. */
  lemma NoStuckWait<T(!new)>(s: State<T>, l: LoopId)
    requires Reachable(s) && WaitsOn(s, l)
    ensures l < |s.loops| && s.loops[l].stopClosed
    ensures CanExit(s, l)
  {
    ReachableInv(s);
    var acts := DrainLoop(s, l);
  }

  ghost predicate CanExit<T(!new)>(s: State<T>, l: LoopId) {
    exists acts ::
      && IsRun(s, acts)
      && MovesOf(acts, l)
      && l < |After(s, acts).loops|
      && After(s, acts).loops[l].phase.Exited?
  }

  function StepsToExit<T>(p: Phase<T>): nat {
    match p
    case Exited => 0
    case AtSelect => 1
    case Working => 2
    case Sending(_, _, todo, _, _) => 2 + |todo|
    case Ready(_, _) => 1
  }

  lemma DrainMove<T>(s: State<T>, l: LoopId) returns (m: Move<T>)
    requires Inv(s) && Ids(s) && Draining(s, l) && !s.loops[l].phase.Exited?
    ensures Enabled(s, LoopMove(l, m))
    ensures Draining(AfterMove(s, l, m), l)
    ensures var p, q := s.loops[l].phase, AfterMove(s, l, m).loops[l].phase;
            if p.Ready? then !q.Ready? else !q.Ready? && StepsToExit(q) < StepsToExit(p)
  {
    var p := s.loops[l].phase;
    assert l == |s.loops| - 1;
    match p {
      case AtSelect => m := SeeStop;
      case Working => m := Skip;
      case Ready(_, _) => m := Snapshot(SomeOrder(s.subscribers));
      case Sending(_, _, todo, _, _) =>
        assert todo != [] ==> todo[0] in todo;
        m := if todo == [] then EndFanOut else SendOne;
    }
    MoveFrame(s, l, m);
  }

  predicate Draining<T>(s: State<T>, l: LoopId) {
    l < |s.loops| && s.loops[l].stopClosed
  }

  lemma DrainLoop<T>(s: State<T>, l: LoopId) returns (acts: seq<Action<T>>)
    requires Inv(s) && Ids(s) && Draining(s, l)
    ensures IsRun(s, acts) && MovesOf(acts, l)
    ensures l < |After(s, acts).loops| && After(s, acts).loops[l].phase.Exited?
    decreases s.loops[l].phase.Ready?, StepsToExit(s.loops[l].phase)
  {
    if s.loops[l].phase.Exited? {
      acts := [];
    } else {
      var m := DrainMove(s, l);
      StepKeepsInv(s, LoopMove(l, m));
      var rest := DrainLoop(AfterMove(s, l, m), l);
      acts := Prepend(s, LoopMove(l, m), rest);
    }
  }

  ghost function SomeOrder(members: set<ChanId>): (order: seq<ChanId>)
    ensures Enumerates(order, members)
  {
    if members == {} then []
    else
      var c :| c in members;
      [c] + SomeOrder(members - {c})
  }

  /** A loop that runs for nobody never leaks: the idle timer is pending, and when its callback gets the
    * lock before anybody subscribes, it closes the loop's stop channel. */
  lemma IdleLoopIsStopped<T(!new)>(s: State<T>)
    requires Reachable(s) && !s.stopped && s.subscribers == {} && s.stopCh.Some?
    ensures Ids(s) && s.idleTimer.Some?
    ensures var a := TimerFires(s.idleTimer.value);
            Enabled(s, a) || Enabled(s, TimerCallback(s.idleTimer.value))
    ensures var a := TimerFires(s.idleTimer.value);
            Enabled(s, a) ==> Ids(Step(s, a)) && StopsLoop(Step(s, a), s.idleTimer.value, s.stopCh.value)
    ensures Enabled(s, TimerCallback(s.idleTimer.value)) ==> StopsLoop(s, s.idleTimer.value, s.stopCh.value)
  {
    ReachableInv(s);
    var a := TimerFires(s.idleTimer.value);
    if Enabled(s, a) {
      StepKeepsInv(s, a);
    }
  }

  /** Timer `t` has fired, and its callback closes the stop channel of loop `l`. */
  predicate StopsLoop<T>(s: State<T>, t: TimerId, l: LoopId)
    requires Ids(s)
  {
    && Enabled(s, TimerCallback(t))
    && var u := Step(s, TimerCallback(t));
       u.stopCh.None? && l < |u.loops| && u.loops[l].stopClosed
  }

  // ---------------------------------------------------------------- delivery

  function Payloads<T>(events: seq<nat>, emitted: seq<Emission<T>>): (r: seq<Emission<T>>)
    requires AllBelow(events, |emitted|)
    ensures |r| == |events|
  {
    seq(|events|, i requires 0 <= i < |events| => emitted[events[i]])
  }

  /** `xs` is what remains of `ys` after some elements were left out. */
  ghost predicate Subsequence<T>(xs: seq<T>, ys: seq<T>) {
    exists at: seq<nat> ::
      |at| == |xs| && Increasing(at) && AllBelow(at, |ys|) && forall i :: 0 <= i < |xs| ==> xs[i] == ys[at[i]]
  }

  /** Each subscriber is handed a subsequence of the emitted payloads, in order, across all loop restarts,
    * and never has more than five of them queued. */
  lemma HandedInOrder<T(!new)>(s: State<T>, ch: ChanId)
    requires Reachable(s) && ch < |s.chans|
    ensures |s.chans[ch].queue| <= 5
    ensures Increasing(s.chans[ch].Handed()) && AllBelow(s.chans[ch].Handed(), |s.emitted|)
    ensures Subsequence(Payloads(s.chans[ch].Handed(), s.emitted), s.emitted)
  {
    ReachableInv(s);
    var at := s.chans[ch].Handed();
    assert |at| == |Payloads(at, s.emitted)|;
  }

  /** LastBroadcast answers with the newest data event, or the one about to be fanned out; it has an answer
    * once the first of them was published. */
  lemma CachedPayloadIsNewest<T(!new)>(s: State<T>)
    requires Reachable(s)
    ensures forall l: LoopId :: AboutToFanOut(s, l) ==> s.lastBroadcast == Some(s.loops[l].phase.payload)
    ensures (forall l: LoopId :: !AboutToFanOut(s, l)) ==> s.lastBroadcast == LastData(s.emitted)
  {
    ReachableInv(s);
    if s.lastBroadcast != LastData(s.emitted) {
      assert AboutToFanOut(s, |s.loops| - 1);
    }
  }

  predicate AboutToFanOut<T>(s: State<T>, l: LoopId) {
    l < |s.loops| && s.loops[l].phase.Ready? && s.loops[l].phase.isData
  }

  /** Exactly who is subscribed: a channel enters by a Subscribe that was not stopped, and leaves by its own
    * Unsubscribe, by Stop's final pass, or by its own Subscribe waking up to find everything stopped. */
  lemma MembershipChangesExactly<T(!new)>(s: State<T>, a: Action<T>, ch: ChanId)
    requires Reachable(s) && Ids(s) && Enabled(s, a)
    ensures ch in Step(s, a).subscribers <==>
              || (a.SubscribeEnter? && !s.stopped && ch == |s.chans|)
              || (&& ch in s.subscribers && a != Unsubscribe(ch) && !a.StopFinish?
                  && !(a == SubscribeWake(ch) && s.stopped))
  {
    ReachableInv(s);
    if a.LoopMove? {
      MoveFrame(s, a.l, a.move);
    }
  }

  /** Exactly what closes an existing channel: Stop's final pass if it is subscribed then, and its own Subscribe
    * waking up to find everything stopped; each closes it once more. */
  lemma ClosesExactly<T(!new)>(s: State<T>, a: Action<T>, ch: ChanId)
    requires Reachable(s) && Ids(s) && Enabled(s, a) && ch < |s.chans|
    ensures ch < |Step(s, a).chans|
    ensures Step(s, a).chans[ch].closes == s.chans[ch].closes +
              if (a.StopFinish? && ch in s.subscribers) || (a == SubscribeWake(ch) && s.stopped) then 1 else 0
  {
    ReachableInv(s);
    if a.LoopMove? {
      LoopMoveNeverCloses(s, a.l, a.move, ch);
    } else if a.Receive? {
      assert Step(s, a).chans[ch].closes == s.chans[ch].closes;
    }
  }

  /** A channel is born closed exactly if the broadcaster is stopped; only SubscribeEnter makes one. */
  lemma BornClosedExactly<T>(s: State<T>, a: Action<T>)
    requires Ids(s) && Enabled(s, a)
    ensures |Step(s, a).chans| == |s.chans| + if a.SubscribeEnter? then 1 else 0
    ensures a.SubscribeEnter? ==> Step(s, a).chans[|s.chans|].closes == if s.stopped then 1 else 0
  {
    if a.LoopMove? {
      MoveFrame(s, a.l, a.move);
    }
  }

  // A send that is still due to `ch`, with room for it, or already made.
  predicate Owed<T>(s: State<T>, ch: ChanId, event: nat) {
    && ch < |s.chans|
    && (event in s.chans[ch].Handed()
        || (SendPending(s, ch) && s.loops[|s.loops| - 1].phase.event == event && |s.chans[ch].queue| < QUEUE_CAPACITY))
  }

  lemma SendOneKeepsOwed<T>(s: State<T>, l: LoopId, ch: ChanId, event: nat)
    requires l == |s.loops| - 1 && MoveEnabled(s, l, SendOne) && SendingInv(s) && Owed(s, ch, event)
    ensures Owed(AfterSendOne(s, l), ch, event)
  {
    var p, t := s.loops[l].phase, AfterSendOne(s, l);
    assert p.todo[0] in p.todo;
    assert p.todo == [p.todo[0]] + p.todo[1..];
    var handed := s.chans[ch].Handed();
    if ch == p.todo[0] {
      assert t.chans[ch].Handed() == handed || t.chans[ch].Handed() == handed + [p.event];
      assert event !in handed ==> t.chans[ch].Handed()[|handed|] == event;
      if event in handed {
        var i :| 0 <= i < |handed| && handed[i] == event;
        assert t.chans[ch].Handed()[i] == event;
      }
    } else {
      assert t.chans[ch] == s.chans[ch];
    }
  }

  lemma StepKeepsOwed<T>(s: State<T>, a: Action<T>, ch: ChanId, event: nat)
    requires Inv(s) && Ids(s) && Enabled(s, a) && Owed(s, ch, event)
    ensures Owed(Step(s, a), ch, event)
  {
    if !a.LoopMove? {
      StepKeepsHanded(s, a, ch);
      StepKeepsPending(s, a, ch);
    } else {
      assert a.l == |s.loops| - 1;
      if a.move.SendOne? {
        SendOneKeepsOwed(s, a.l, ch, event);
      } else {
        MoveFrame(s, a.l, a.move);
        assert AfterMove(s, a.l, a.move).chans == s.chans;
      }
    }
  }

  lemma {:induction false} RunKeepsOwed<T>(s: State<T>, acts: seq<Action<T>>, ch: ChanId, event: nat)
    requires Inv(s) && IsRun(s, acts) && Owed(s, ch, event)
    ensures Owed(After(s, acts), ch, event)
    decreases acts
  {
    if acts != [] {
      StepKeepsOwed(s, acts[0], ch, event);
      StepKeepsInv(s, acts[0]);
      RunKeepsOwed(Step(s, acts[0]), acts[1..], ch, event);
    }
  }

  /** A subscriber with room in its queue when an event's snapshot is taken gets that event: whatever happens
    * meanwhile, once the fan-out has passed it the event has been put into its queue. */
  lemma RoomAtSnapshotMeansDelivery<T(!new)>(s: State<T>, l: LoopId, order: seq<ChanId>, ch: ChanId,
                                             rest: seq<Action<T>>)
    requires Reachable(s) && Ids(s) && Enabled(s, LoopMove(l, Snapshot(order)))
    requires ch in s.subscribers && |s.chans[ch].queue| < QUEUE_CAPACITY
    requires IsRun(Step(s, LoopMove(l, Snapshot(order))), rest)
    ensures var t := After(Step(s, LoopMove(l, Snapshot(order))), rest);
            && ch < |t.chans|
            && ((SendPending(t, ch) && t.loops[|t.loops| - 1].phase.event == |s.emitted|)
                || |s.emitted| in t.chans[ch].Handed())
  {
    ReachableInv(s);
    SnapshotKeepsOwing(s, l, order, ch, rest);
  }

  lemma SnapshotKeepsOwing<T>(s: State<T>, l: LoopId, order: seq<ChanId>, ch: ChanId, rest: seq<Action<T>>)
    requires Inv(s) && Ids(s) && Enabled(s, LoopMove(l, Snapshot(order)))
    requires ch in s.subscribers && |s.chans[ch].queue| < QUEUE_CAPACITY
    requires IsRun(Step(s, LoopMove(l, Snapshot(order))), rest)
    ensures Owed(After(Step(s, LoopMove(l, Snapshot(order))), rest), ch, |s.emitted|)
  {
    SnapshotOwes(s, l, order, ch);
    StepKeepsInv(s, LoopMove(l, Snapshot(order)));
    RunKeepsOwed(Step(s, LoopMove(l, Snapshot(order))), rest, ch, |s.emitted|);
  }

  lemma SnapshotOwes<T>(s: State<T>, l: LoopId, order: seq<ChanId>, ch: ChanId)
    requires Inv(s) && Ids(s) && Enabled(s, LoopMove(l, Snapshot(order)))
    requires ch in s.subscribers && |s.chans[ch].queue| < QUEUE_CAPACITY
    ensures Owed(AfterMove(s, l, Snapshot(order)), ch, |s.emitted|)
  {
    assert l == |s.loops| - 1;
    assert ch in order;
  }

  /** Every data fan-out delivers or drops one message per snapshot entry, no matter what happened before it. */
  lemma FanOutAccounts<T(!new)>(s: State<T>)
    requires Reachable(s)
    ensures forall r <- s.reports :: r.delivered + r.dropped == r.size
    ensures s.loops != [] && s.loops[|s.loops| - 1].phase.Sending? && s.loops[|s.loops| - 1].phase.ofData ==>
              var p := s.loops[|s.loops| - 1].phase;
              p.delivered + s.droppedMsgs + |p.todo| == p.size
  {
    ReachableInv(s);
  }

  predicate SendPending<T>(s: State<T>, ch: ChanId) {
    s.loops != [] && s.loops[|s.loops| - 1].phase.Sending? && ch in s.loops[|s.loops| - 1].phase.todo
  }

  /** `ch` has left; all it can still get is the one event `last` that was in flight. */
  predicate Leaving<T>(s: State<T>, ch: ChanId, handed: seq<nat>, last: int) {
    && ch < |s.chans|
    && ch !in s.subscribers
    && ch in s.returned
    && if SendPending(s, ch) then
         s.chans[ch].Handed() == handed && s.loops[|s.loops| - 1].phase.event == last
       else
         s.chans[ch].Handed() == handed || (last >= 0 && s.chans[ch].Handed() == handed + [last])
  }

  lemma SendOneKeepsLeaving<T>(s: State<T>, l: LoopId, ch: ChanId, handed: seq<nat>, last: int)
    requires l == |s.loops| - 1 && MoveEnabled(s, l, SendOne) && SendingInv(s) && Leaving(s, ch, handed, last)
    ensures Leaving(AfterSendOne(s, l), ch, handed, last)
  {
    var p, t := s.loops[l].phase, AfterSendOne(s, l);
    TailOfTodo(p.todo);
    assert p.todo[0] in p.todo;
    assert p.todo == [p.todo[0]] + p.todo[1..];
    if ch == p.todo[0] {
      assert t.chans[ch].Handed() == handed || t.chans[ch].Handed() == handed + [last];
    } else {
      assert t.chans[ch] == s.chans[ch];
    }
  }

  lemma MoveKeepsLeaving<T>(s: State<T>, l: LoopId, m: Move<T>, ch: ChanId, handed: seq<nat>, last: int)
    requires Inv(s) && Ids(s) && Enabled(s, LoopMove(l, m)) && Leaving(s, ch, handed, last)
    ensures Leaving(AfterMove(s, l, m), ch, handed, last)
  {
    assert l == |s.loops| - 1;
    if m.SendOne? {
      SendOneKeepsLeaving(s, l, ch, handed, last);
    } else {
      MoveFrame(s, l, m);
      assert AfterMove(s, l, m).chans == s.chans;
    }
  }

  lemma StepKeepsLeaving<T>(s: State<T>, a: Action<T>, ch: ChanId, handed: seq<nat>, last: int)
    requires Inv(s) && Ids(s) && Enabled(s, a) && Leaving(s, ch, handed, last)
    ensures Leaving(Step(s, a), ch, handed, last)
  {
    var t := Step(s, a);
    if a.LoopMove? {
      MoveKeepsLeaving(s, a.l, a.move, ch, handed, last);
    } else {
      StepKeepsHanded(s, a, ch);
      StepKeepsPending(s, a, ch);
    }
  }

  /** Outside the loop's own moves nothing is handed out ... */
  lemma StepKeepsHanded<T>(s: State<T>, a: Action<T>, ch: ChanId)
    requires Ids(s) && Enabled(s, a) && !a.LoopMove? && ch < |s.chans|
    ensures var t := Step(s, a);
            && ch < |t.chans| && t.chans[ch].Handed() == s.chans[ch].Handed()
            && (ch in t.subscribers ==> ch in s.subscribers)
            && (ch in s.returned ==> ch in t.returned)
  {
    if a.Receive? && a.ch == ch {
      assert Step(s, a).chans[ch].Handed() == s.chans[ch].Handed();
    }
  }

  /** ... and no fan-out begins or ends. */
  lemma StepKeepsPending<T>(s: State<T>, a: Action<T>, ch: ChanId)
    requires Control(s) && Ids(s) && Enabled(s, a) && !a.LoopMove?
    ensures var t := Step(s, a);
            && (SendPending(t, ch) <==> SendPending(s, ch))
            && (SendPending(t, ch) ==> t.loops[|t.loops| - 1].phase == s.loops[|s.loops| - 1].phase)
  {
  }

  lemma {:induction false} RunKeepsLeaving<T>(s: State<T>, acts: seq<Action<T>>, ch: ChanId, handed: seq<nat>,
                                              last: int)
    requires Inv(s) && IsRun(s, acts) && Leaving(s, ch, handed, last)
    ensures Leaving(After(s, acts), ch, handed, last)
    decreases acts
  {
    if acts != [] {
      StepKeepsLeaving(s, acts[0], ch, handed, last);
      StepKeepsInv(s, acts[0]);
      RunKeepsLeaving(Step(s, acts[0]), acts[1..], ch, handed, last);
    }
  }

  /** After Unsubscribe at most one further event enters the channel, in any continuation: the newest event
    * emitted before it. */
  lemma AtMostOneEventAfterUnsubscribe<T(!new)>(s: State<T>, ch: ChanId, rest: seq<Action<T>>)
    requires Reachable(s) && Ids(s) && Enabled(s, Unsubscribe(ch))
    requires IsRun(Step(s, Unsubscribe(ch)), rest)
    ensures var t := After(Step(s, Unsubscribe(ch)), rest);
            && ch < |t.chans| && ch !in t.subscribers
            && (t.chans[ch].Handed() == s.chans[ch].Handed()
                || (s.emitted != [] && t.chans[ch].Handed() == s.chans[ch].Handed() + [|s.emitted| - 1]))
  {
    ReachableInv(s);
    StepKeepsInv(s, Unsubscribe(ch));
    RunKeepsLeaving(Step(s, Unsubscribe(ch)), rest, ch, s.chans[ch].Handed(), |s.emitted| - 1);
  }

  // ---------------------------------------------------------------- the overlap that closes twice

  /** A run in which Stop's final pass overlaps a parked Subscribe: line 149 closes a closed channel. */
  lemma OverlapClosesTwice()
    ensures exists s: State<int> :: Reachable(s) && !ClosedAtMostOnce(s)
  {
    var rest := RunAcrossFinalPass();
    var acts := RunUntilParked(rest);
    assert Reachable(After(Init<int>(), acts));
  }

  /** The idle timer stopped loop 0, and a second client waits for that loop to exit. */
  const PARKED_AFTER_IDLE: State<int> :=
    State({1}, None, Some(0), 0, false, None, None, 0,
          [Chan([], [], 0), Chan([], [], 0)], [Loop(true, AtSelect)], [Finished],
          map[1 := Parked(0, 0)], {0}, NotCalled, [], [], false)

  lemma RunUntilParked(rest: seq<Action<int>>) returns (acts: seq<Action<int>>)
    requires IsRun(PARKED_AFTER_IDLE, rest)
    ensures IsRun(Init(), acts) && After(Init(), acts) == After(PARKED_AFTER_IDLE, rest)
  {
    var s0: State<int> := Init();
    var s1 := Step(s0, SubscribeEnter);
    assert s1.subscribers == {0} && s1.returned == {0};
    var s2 := Step(s1, Unsubscribe(0));
    assert s2.subscribers == {};
    var s3 := Step(s2, TimerFires(0));
    var s4 := Step(s3, TimerCallback(0));
    var s5 := Step(s4, SubscribeEnter);
    assert s5 == PARKED_AFTER_IDLE;
    acts := Prepend(s4, SubscribeEnter, rest);
    acts := Prepend(s3, TimerCallback(0), acts);
    acts := Prepend(s2, TimerFires(0), acts);
    acts := Prepend(s1, Unsubscribe(0), acts);
    acts := Prepend(s0, SubscribeEnter, acts);
  }

  /** Stop has waited for loop 0 while the second client is still parked. */
  const FINAL_PASS_DUE: State<int> :=
    PARKED_AFTER_IDLE.(stopped := true, loopGen := 1, stopPhase := Waiting(Some(0)), loops := [Loop(true, Exited)])

  lemma RunAcrossFinalPass() returns (acts: seq<Action<int>>)
    ensures IsRun(PARKED_AFTER_IDLE, acts) && !ClosedAtMostOnce(After(PARKED_AFTER_IDLE, acts))
  {
    acts := RunFromFinalPass();
    var s6 := Step(PARKED_AFTER_IDLE, StopEnter);
    assert Step(s6, LoopMove(0, SeeStop)) == FINAL_PASS_DUE;
    acts := Prepend(s6, LoopMove(0, SeeStop), acts);
    acts := Prepend(PARKED_AFTER_IDLE, StopEnter, acts);
  }

  lemma RunFromFinalPass() returns (acts: seq<Action<int>>)
    ensures IsRun(FINAL_PASS_DUE, acts) && !ClosedAtMostOnce(After(FINAL_PASS_DUE, acts))
  {
    var s8 := Step(FINAL_PASS_DUE, StopFinish);
    assert s8.chans[1].closes == 1;
    var s9 := Step(s8, SubscribeWake(1));
    assert s9.chans[1].closes == 2;
    acts := Prepend(s8, SubscribeWake(1), []);
    acts := Prepend(FINAL_PASS_DUE, StopFinish, acts);
  }

  lemma Prepend<T>(s: State<T>, a: Action<T>, rest: seq<Action<T>>) returns (acts: seq<Action<T>>)
    requires Ids(s) && Enabled(s, a) && IsRun(Step(s, a), rest)
    ensures acts == [a] + rest
    ensures IsRun(s, acts) && After(s, acts) == After(Step(s, a), rest)
  {
    acts := [a] + rest;
    assert acts[1..] == rest;
  }
}
