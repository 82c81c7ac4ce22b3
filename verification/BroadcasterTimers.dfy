/** Which idle timers can still stop a polling loop: also one that the broadcaster no longer refers to. */
module BroadcasterTimers {
  import opened Prelude
  import opened BroadcasterProtocol
  import opened BroadcasterSafety
  import opened BroadcasterTheorems

  /** A loop runs and nobody is subscribed. */
  predicate Idle<T>(s: State<T>) {
    !s.stopped && s.subscribers == {} && s.stopCh.Some?
  }

  predicate OnlyTimer<T>(acts: seq<Action<T>>, t: TimerId) {
    forall i :: 0 <= i < |acts| ==> acts[i] == TimerFires(t) || acts[i] == TimerCallback(t)
  }

  /** By its own actions alone the timer can close the stop channel of the running loop. */
  ghost predicate CanStopLoop<T(!new)>(s: State<T>, t: TimerId) {
    exists acts: seq<Action<T>> :: OnlyTimer(acts, t) && IsRun(s, acts) && After(s, acts).stopCh.None?
  }

  /** Whatever timer `idleTimer` refers to: each timer stops an idle loop exactly if it was not cancelled and
    * its callback has not run. */
  lemma StopsIdleLoopIff<T(!new)>(s: State<T>, t: TimerId)
    requires Reachable(s) && Idle(s)
    ensures CanStopLoop(s, t) <==> t < |s.timers| && (s.timers[t].Armed? || s.timers[t].Fired?)
  {
    ReachableInv(s);
    if t < |s.timers| && s.timers[t].Fired? {
      var acts := Prepend(s, TimerCallback(t), []);
      assert CanStopLoop(s, t);
    } else if t < |s.timers| && s.timers[t].Armed? {
      var u := Step(s, TimerFires(t));
      StepKeepsInv(s, TimerFires(t));
      var acts := Prepend(u, TimerCallback(t), []);
      acts := Prepend(s, TimerFires(t), acts);
      assert CanStopLoop(s, t);
    } else {
      forall acts: seq<Action<T>> | OnlyTimer(acts, t) && IsRun(s, acts) ensures After(s, acts).stopCh.Some? {
        SpentDoesNothing(s, acts, t);
      }
    }
  }

  lemma SpentDoesNothing<T>(s: State<T>, acts: seq<Action<T>>, t: TimerId)
    requires OnlyTimer(acts, t) && IsRun(s, acts) && !(t < |s.timers| && (s.timers[t].Armed? || s.timers[t].Fired?))
    ensures acts == []
  {
  }

  /** A timer whose callback has run, or that was cancelled in time, never acts again. */
  lemma {:induction false} SpentStaysSpent<T>(s: State<T>, acts: seq<Action<T>>, t: TimerId)
    requires IsRun(s, acts) && t < |s.timers| && (s.timers[t].Cancelled? || s.timers[t].Finished?)
    ensures t < |After(s, acts).timers| && After(s, acts).timers[t] == s.timers[t]
    ensures forall i :: 0 <= i < |acts| ==> acts[i] != TimerFires(t) && acts[i] != TimerCallback(t)
    decreases acts
  {
    if acts != [] {
      TimersGrow(s, acts[0], t);
      SpentStaysSpent(Step(s, acts[0]), acts[1..], t);
      assert acts == [acts[0]] + acts[1..];
    }
  }

  lemma TimersGrow<T>(s: State<T>, a: Action<T>, t: TimerId)
    requires Ids(s) && Enabled(s, a) && t < |s.timers| && (s.timers[t].Cancelled? || s.timers[t].Finished?)
    ensures t < |Step(s, a).timers| && Step(s, a).timers[t] == s.timers[t]
    ensures a != TimerFires(t) && a != TimerCallback(t)
  {
    if a.LoopMove? {
      MoveFrame(s, a.l, a.move);
    }
  }

  // ---------------------------------------------------------------- a timer nobody refers to

  predicate Stray<T>(s: State<T>, t: TimerId) {
    t < |s.timers| && s.timers[t].Armed? && s.idleTimer != Some(t)
  }

  /** The first timer has fired, a second client has come and gone, and the second timer is armed. */
  const FIRST_CALLBACK_DUE: State<int> :=
    State({}, Some(0), Some(0), 0, false, Some(1), None, 0,
          [Chan([], [], 0), Chan([], [], 0)], [Loop(false, AtSelect)], [Fired, Armed],
          map[], {0, 1}, NotCalled, [], [], false)

  /** The first callback has stopped the loop and cleared the field; the second timer stays armed. */
  const STRAY_ARMED: State<int> :=
    FIRST_CALLBACK_DUE.(stopCh := None, idleTimer := None, loops := [Loop(true, AtSelect)], timers := [Finished, Armed])

  /** A third client started a second loop and has gone too. */
  const TWO_ARMED: State<int> :=
    STRAY_ARMED.(stopCh := Some(1), loopDone := Some(1), idleTimer := Some(2),
                 chans := [Chan([], [], 0), Chan([], [], 0), Chan([], [], 0)],
                 loops := [Loop(true, Exited), Loop(false, AtSelect)], timers := [Finished, Armed, Armed],
                 returned := {0, 1, 2})

  lemma RunToFirstCallback(rest: seq<Action<int>>) returns (acts: seq<Action<int>>)
    requires IsRun(FIRST_CALLBACK_DUE, rest)
    ensures IsRun(Init(), acts) && After(Init(), acts) == After(FIRST_CALLBACK_DUE, rest)
  {
    var s0: State<int> := Init();
    var s1 := Step(s0, SubscribeEnter);
    assert s1.subscribers == {0} && s1.returned == {0};
    var s2 := Step(s1, Unsubscribe(0));
    assert s2.subscribers == {};
    var s3 := Step(s2, TimerFires(0));
    var s4 := Step(s3, SubscribeEnter);
    assert s4.subscribers == {1} && s4.returned == {0, 1};
    assert Step(s4, Unsubscribe(1)) == FIRST_CALLBACK_DUE;
    acts := Prepend(s4, Unsubscribe(1), rest);
    acts := Prepend(s3, SubscribeEnter, acts);
    acts := Prepend(s2, TimerFires(0), acts);
    acts := Prepend(s1, Unsubscribe(0), acts);
    acts := Prepend(s0, SubscribeEnter, acts);
  }

  lemma RunToTwoArmed() returns (acts: seq<Action<int>>)
    ensures IsRun(FIRST_CALLBACK_DUE, acts) && After(FIRST_CALLBACK_DUE, acts) == TWO_ARMED
  {
    assert Step(FIRST_CALLBACK_DUE, TimerCallback(0)) == STRAY_ARMED;
    acts := RunFromStray();
    acts := Prepend(FIRST_CALLBACK_DUE, TimerCallback(0), acts);
  }

  /** The third client waits for the first loop, which has exited. */
  const THIRD_PARKED: State<int> :=
    STRAY_ARMED.(subscribers := {2}, chans := [Chan([], [], 0), Chan([], [], 0), Chan([], [], 0)],
                 loops := [Loop(true, Exited)], parked := map[2 := Parked(0, 0)])

  lemma RunFromStray() returns (acts: seq<Action<int>>)
    ensures IsRun(STRAY_ARMED, acts) && After(STRAY_ARMED, acts) == TWO_ARMED
  {
    acts := RunFromParked();
    var s7 := Step(STRAY_ARMED, LoopMove(0, SeeStop));
    assert Step(s7, SubscribeEnter) == THIRD_PARKED;
    acts := Prepend(s7, SubscribeEnter, acts);
    acts := Prepend(STRAY_ARMED, LoopMove(0, SeeStop), acts);
  }

  lemma RunFromParked() returns (acts: seq<Action<int>>)
    ensures IsRun(THIRD_PARKED, acts) && After(THIRD_PARKED, acts) == TWO_ARMED
  {
    var s9 := Step(THIRD_PARKED, SubscribeWake(2));
    assert s9.parked == map[] && s9.returned == {0, 1, 2};
    assert Step(s9, Unsubscribe(2)) == TWO_ARMED;
    acts := Prepend(s9, Unsubscribe(2), []);
    acts := Prepend(THIRD_PARKED, SubscribeWake(2), acts);
  }

  /** A reachable state with two armed timers, one of which nothing refers to and nobody can cancel any more;
    * either can stop the running loop. */
  lemma StrayTimerStopsLoop()
    ensures exists s: State<int> ::
              && Reachable(s) && Idle(s)
              && Stray(s, 1) && CanStopLoop(s, 1)
              && s.idleTimer == Some(2) && |s.timers| == 3 && s.timers[2].Armed? && CanStopLoop(s, 2)
  {
    var rest := RunToTwoArmed();
    var acts := RunToFirstCallback(rest);
    assert Reachable(TWO_ARMED);
    StopsIdleLoopIff(TWO_ARMED, 1);
    StopsIdleLoopIff(TWO_ARMED, 2);
    assert Stray(TWO_ARMED, 1);
  }
}
