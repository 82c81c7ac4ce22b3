/** The critical sections of sse/broadcaster.go, statement by statement, each proved to perform the
  * action of `BroadcasterProtocol` that the theorems are about.  A postcondition lists exactly the fields
  * that the method's `modifies` clause names; the action leaves the others alone. */
module BroadcasterMethods {
  import opened Prelude
  import opened BroadcasterProtocol
  import opened BroadcasterSafety

  class Broadcaster<T> {
    var subscribers: set<ChanId>
    var stopCh: Option<LoopId>
    var loopDone: Option<LoopId>
    var loopGen: nat
    var stopped: bool
    var idleTimer: Option<TimerId>
    var lastBroadcast: Option<T>
    var droppedMsgs: nat

    // the channels, goroutines and timers of the Go runtime; queues hold indices into `emitted`
    var chans: seq<Chan>
    var loops: seq<Loop<T>>
    var timers: seq<TimerState>
    var emitted: seq<Emission<T>>

    ghost var parked: map<ChanId, Parked>
    ghost var returned: set<ChanId>
    ghost var stopPhase: StopPhase
    ghost var reports: seq<Report>
    ghost var sentOnClosed: bool

    ghost function View(): State<T>
      reads this
    {
      State(subscribers, stopCh, loopDone, loopGen, stopped, idleTimer, lastBroadcast, droppedMsgs,
            chans, loops, timers, parked, returned, stopPhase, emitted, reports, sentOnClosed)
    }

    constructor ()
      ensures View() == Init()
    {
      subscribers, stopCh, loopDone, loopGen, stopped := {}, None, None, 0, false;
      idleTimer, lastBroadcast, droppedMsgs := None, None, 0;
      chans, loops, timers := [], [], [];
      parked, returned, stopPhase := map[], {}, NotCalled;
      emitted, reports, sentOnClosed := [], [], false;
    }

    /** `time.Timer.Stop` and the reset of the field that follows it. */
    method CancelIdleTimer()
      requires idleTimer.Some? ==> idleTimer.value < |timers|
      modifies this`idleTimer, this`timers
      ensures idleTimer.None? && timers == CancelTimer(old(timers), old(idleTimer))
    {
      if idleTimer.Some? {
        if timers[idleTimer.value].Armed? {
          timers := timers[idleTimer.value := Cancelled];
        }
        idleTimer := None;
      }
    }

    method CloseStopChannel()
      requires stopCh.Some? ==> stopCh.value < |loops|
      modifies this`stopCh, this`loops
      ensures stopCh.None? && loops == CloseStop(old(loops), old(stopCh))
    {
      if stopCh.Some? {
        loops := loops[stopCh.value := loops[stopCh.value].(stopClosed := true)];
        stopCh := None;
      }
    }

    method CloseChannel(ch: ChanId)
      requires ch < |chans|
      modifies this`chans
      ensures chans == CloseChan(old(chans), ch)
    {
      chans := chans[ch := chans[ch].(closes := chans[ch].closes + 1)];
    }

    method StartLoop()
      modifies this`stopCh, this`loopDone, this`loops
      ensures stopCh == loopDone == Some(|old(loops)|) && loops == GoLoop(old(loops))
    {
      stopCh := Some(|loops|);
      loopDone := Some(|loops|);
      loops := loops + [Loop(false, AtSelect)];
    }

    /** Subscribe up to its return, or up to the wait on an old loop's done channel (`mustWait`). */
    method SubscribeEnter() returns (ch: ChanId, mustWait: Option<Parked>)
      requires Refs(View())
      modifies this`chans, this`subscribers, this`idleTimer, this`timers, this`stopCh, this`loopDone, this`loops,
               this`parked, this`returned
      ensures ch == |old(chans)|
      ensures var t := AfterSubscribeEnter(old(View()));
              && chans == t.chans && subscribers == t.subscribers && idleTimer == t.idleTimer
              && timers == t.timers && stopCh == t.stopCh && loopDone == t.loopDone && loops == t.loops
              && parked == t.parked && returned == t.returned
      ensures var pending := old(idleTimer);
              !old(stopped) && pending.Some? && old(timers)[pending.value].Armed? ==>
                pending.value < |timers| && timers[pending.value].Cancelled?
      ensures mustWait.Some? <==> ParksOnEnter(old(View()))
      ensures mustWait.Some? ==> ch in parked && mustWait.value == parked[ch]
    {
      ch, mustWait := |chans|, None;
      chans := chans + [Chan([], [], 0)];
      if stopped {
        CloseChannel(ch);
        returned := returned + {ch};
        return;
      }
      CancelIdleTimer();
      var wasEmpty := subscribers == {} && stopCh.None?;
      subscribers := subscribers + {ch};
      if wasEmpty {
        if loopDone.Some? {
          mustWait := Some(Parked(loopGen, loopDone.value));
          parked := parked[ch := mustWait.value];
          return;
        }
        StartLoop();
      }
      returned := returned + {ch};
    }

    /** Subscribe after the wait, with the lock held again. */
    method SubscribeWake(ch: ChanId, waited: Parked) returns (panics: bool)
      requires ch in parked && parked[ch] == waited && ch < |chans|
      modifies this`parked, this`returned, this`subscribers, this`chans, this`stopCh, this`loopDone, this`loops
      ensures var t := AfterSubscribeWake(old(View()), ch);
              && parked == t.parked && returned == t.returned && subscribers == t.subscribers
              && chans == t.chans && stopCh == t.stopCh && loopDone == t.loopDone && loops == t.loops
      ensures panics <==> old(chans)[ch].closes > 0 && waited.gen != loopGen && stopped
      ensures ch in returned <==> !panics || ch in old(returned)
    {
      parked := parked - {ch};
      panics := false;
      if waited.gen != loopGen {
        if stopped {
          subscribers := subscribers - {ch};
          panics := chans[ch].closes > 0;
          CloseChannel(ch);
          if panics {
            return;
          }
        }
        returned := returned + {ch};
        return;
      }
      StartLoop();
      returned := returned + {ch};
    }

    method Unsubscribe(ch: ChanId)
      modifies this`subscribers, this`idleTimer, this`timers
      ensures var t := AfterUnsubscribe(old(View()), ch);
              && subscribers == t.subscribers && idleTimer == t.idleTimer && timers == t.timers
    {
      subscribers := subscribers - {ch};
      if subscribers == {} && stopCh.Some? && idleTimer.None? {
        idleTimer := Some(|timers|);
        timers := timers + [Armed];
      }
    }

    /** The function that `Unsubscribe` hands to `time.AfterFunc`. */
    method OnIdleTimer(t: TimerId)
      requires Refs(View()) && t < |timers| && timers[t].Fired?
      modifies this`timers, this`idleTimer, this`stopCh, this`loops
      ensures var u := AfterTimerCallback(old(View()), t);
              && timers == u.timers && idleTimer == u.idleTimer && stopCh == u.stopCh && loops == u.loops
    {
      timers := timers[t := Finished];
      if stopped {
        idleTimer := None;
        return;
      }
      if subscribers == {} && stopCh.Some? {
        CloseStopChannel();
      }
      idleTimer := None;
    }

    /** Stop up to its wait on `done`. */
    method StopEnter() returns (done: Option<LoopId>)
      requires Refs(View()) && stopPhase.NotCalled?
      modifies this`stopped, this`loopGen, this`idleTimer, this`timers, this`stopCh, this`loops, this`stopPhase
      ensures var t := AfterStopEnter(old(View()));
              && stopped == t.stopped && loopGen == t.loopGen && idleTimer == t.idleTimer
              && timers == t.timers && stopCh == t.stopCh && loops == t.loops && stopPhase == t.stopPhase
      ensures var pending := old(idleTimer);
              pending.Some? && old(timers)[pending.value].Armed? ==>
                pending.value < |timers| && timers[pending.value].Cancelled?
      ensures done == old(loopDone)
    {
      stopped := true;
      loopGen := loopGen + 1;
      CancelIdleTimer();
      CloseStopChannel();
      done := loopDone;
      stopPhase := Waiting(done);
    }

    /** Stop's second critical section. */
    method StopFinish()
      requires stopPhase.Waiting? && forall ch <- subscribers :: ch < |chans|
      modifies this`subscribers, this`chans, this`stopPhase
      ensures var t := AfterStopFinish(old(View()));
              && chans == t.chans && subscribers == t.subscribers && stopPhase == t.stopPhase
    {
      var left := subscribers;
      while left != {}
        modifies this`chans
        invariant left <= subscribers
        invariant |chans| == |old(chans)|
        invariant forall c :: 0 <= c < |chans| ==>
                    chans[c] == (if c in subscribers - left
                                 then old(chans)[c].(closes := old(chans)[c].closes + 1) else old(chans)[c])
        decreases left
      {
        var ch :| ch in left;
        CloseChannel(ch);
        left := left - {ch};
      }
      assert chans == CloseAll(old(chans), subscribers);
      subscribers := {};
      stopPhase := Completed;
    }

    method SnapshotSubscribers() returns (order: seq<ChanId>)
      ensures Enumerates(order, subscribers)
    {
      order := [];
      var left := subscribers;
      while left != {}
        invariant left <= subscribers
        invariant NoDuplicates(order)
        invariant forall c <- order :: c in subscribers && c !in left
        invariant forall c <- subscribers :: c in order || c in left
        decreases left
      {
        var ch :| ch in left;
        order, left := order + [ch], left - {ch};
      }
    }

    /** The non-blocking send inside the fan-out loops; `l` is the loop's own identity. */
    method SendOne(l: LoopId)
      requires l < |loops| && MoveEnabled(View(), l, BroadcasterProtocol.SendOne)
      modifies this`loops, this`chans, this`droppedMsgs, this`sentOnClosed
      ensures var t := AfterSendOne(old(View()), l);
              && loops == t.loops && chans == t.chans && droppedMsgs == t.droppedMsgs
              && sentOnClosed == t.sentOnClosed
    {
      var p := loops[l].phase;
      var ch := p.todo[0];
      if chans[ch].closes > 0 {
        sentOnClosed := true;
        loops := WithPhase(loops, l, Exited);
        return;
      }
      if |chans[ch].queue| < QUEUE_CAPACITY {
        chans := chans[ch := chans[ch].(queue := chans[ch].queue + [p.event])];
        p := p.(delivered := p.delivered + 1);
      } else if p.ofData {
        droppedMsgs := droppedMsgs + 1;
      }
      loops := WithPhase(loops, l, p.(todo := p.todo[1..]));
    }

    /** The loop stores what LastBroadcast will answer with, before it takes its snapshot. */
    method Publish(l: LoopId, data: T)
      requires l < |loops| && MoveEnabled(View(), l, BroadcasterProtocol.Publish(data))
      modifies this`loops, this`lastBroadcast
      ensures var t := AfterMove(old(View()), l, BroadcasterProtocol.Publish(data));
              loops == t.loops && lastBroadcast == t.lastBroadcast
    {
      loops := WithPhase(loops, l, Ready(data, true));
      lastBroadcast := Some(data);
    }

    /** The loop starts its fan-out with a snapshot of the subscribers. */
    method BeginFanOut(l: LoopId) returns (order: seq<ChanId>)
      requires l < |loops| && loops[l].phase.Ready?
      modifies this`loops, this`emitted
      ensures MoveEnabled(old(View()), l, Snapshot(order))
      ensures var t := AfterMove(old(View()), l, Snapshot(order)); loops == t.loops && emitted == t.emitted
    {
      order := SnapshotSubscribers();
      var p := loops[l].phase;
      loops := WithPhase(loops, l, Sending(|emitted|, p.isData, order, |order|, 0));
      emitted := emitted + [Emission(p.payload, p.isData)];
    }

    /** After a data fan-out the counter of dropped messages is read and reset. */
    method EndFanOut(l: LoopId) returns (dropped: nat)
      requires l < |loops| && MoveEnabled(View(), l, BroadcasterProtocol.EndFanOut)
      modifies this`loops, this`droppedMsgs, this`reports
      ensures var t := AfterMove(old(View()), l, BroadcasterProtocol.EndFanOut);
              loops == t.loops && droppedMsgs == t.droppedMsgs && reports == t.reports
      ensures dropped == if old(loops)[l].phase.ofData then old(droppedMsgs) else 0
    {
      dropped := 0;
      var p := loops[l].phase;
      if p.ofData {
        dropped, droppedMsgs := droppedMsgs, 0;
        reports := reports + [Report(p.size, p.delivered, dropped)];
      }
      loops := WithPhase(loops, l, AtSelect);
    }

    /** What the source calls a successful broadcast: the newest data event, unless one is about to go out. */
    method LastBroadcast() returns (r: Option<T>)
      ensures CacheInv(View()) && (loops == [] || !loops[|loops| - 1].phase.Ready?) ==> r == LastData(emitted)
      ensures CacheInv(View()) && loops != [] && loops[|loops| - 1].phase.Ready? && loops[|loops| - 1].phase.isData ==>
                r == Some(loops[|loops| - 1].phase.payload)
    {
      r := lastBroadcast;
    }
  }
}
