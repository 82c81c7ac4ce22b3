/** The state machine and the polling loop together: what one loop hands out, in any interleaving, are the events
  * that `PollLoop` derives from that loop's ticks. */
module BroadcasterEvents {
  import opened Prelude
  import opened BroadcasterProtocol
  import opened BroadcasterSafety
  import opened BroadcasterTheorems
  import PollLoop

  // ---------------------------------------------------------------- what a loop decides and what it emits

  /** How an action ends a tick of loop `l`, if it does. */
  function Decided<T>(a: Action<T>, l: LoopId): seq<Move<T>> {
    if a.LoopMove? && a.l == l && (a.move.Skip? || a.move.Publish? || a.move.Degrade?) then [a.move] else []
  }

  /** The ends of the ticks of loop `l`, in order. */
  function Decisions<T>(acts: seq<Action<T>>, l: LoopId): seq<Move<T>> {
    if acts == [] then [] else Decided(acts[0], l) + Decisions(acts[1..], l)
  }

  /** What the loop must do after tick `i`. */
  function MoveFor<T>(ticks: seq<PollLoop.Tick<T>>, i: nat, enrich: Option<PollLoop.Enrich<T>>, zero: T): Move<T>
    requires i < |ticks|
  {
    match PollLoop.EventAt(ticks, i, enrich, zero)
    case None => Skip
    case Some(Data(_, shown, _)) => Publish(shown)
    case Some(Degraded(payload)) => Degrade(payload)
  }

  /** In the run `acts`, loop `l` meets the first of `ticks` and treats each as `PollLoop` does. */
  ghost predicate Follows<T(!new)>(acts: seq<Action<T>>, l: LoopId, ticks: seq<PollLoop.Tick<T>>,
                                   enrich: Option<PollLoop.Enrich<T>>, zero: T) {
    var moves := Decisions(acts, l);
    |moves| <= |ticks| && forall i :: 0 <= i < |moves| ==> moves[i] == MoveFor(ticks, i, enrich, zero)
  }

  /** One round of the loop's body over its four variables decides that move: a loop that runs it on each of its
    * ticks follows them. */
  method DecideTick<T>(v: PollLoop.Vars<T>, tick: PollLoop.Tick<T>, enrich: Option<PollLoop.Enrich<T>>,
                       ghost ticks: seq<PollLoop.Tick<T>>, ghost i: nat, ghost zero: T)
      returns (w: PollLoop.Vars<T>, m: Move<T>)
    requires i < |ticks| && tick == ticks[i] && v == PollLoop.VarsBefore(ticks, i, zero)
    ensures w == PollLoop.VarsBefore(ticks, i + 1, zero) && m == MoveFor(ticks, i, enrich, zero)
  {
    var event: Option<PollLoop.Event<T>>;
    w, event := PollLoop.OneTick(v, tick, enrich, ticks, i, zero);
    match event {
      case None => m := Skip;
      case Some(Data(_, shown, _)) => m := Publish(shown);
      case Some(Degraded(payload)) => m := Degrade(payload);
    }
  }

  /** The loop body over all ticks: its decisions are the ones that `Follows` asks for. */
  method DecideAll<T>(ticks: seq<PollLoop.Tick<T>>, enrich: Option<PollLoop.Enrich<T>>, zero: T)
      returns (moves: seq<Move<T>>)
    ensures |moves| == |ticks| && forall i :: 0 <= i < |moves| ==> moves[i] == MoveFor(ticks, i, enrich, zero)
  {
    moves := [];
    var v := PollLoop.Vars(zero, None, None, 0);
    for i := 0 to |ticks|
      invariant |moves| == i && forall k :: 0 <= k < i ==> moves[k] == MoveFor(ticks, k, enrich, zero)
      invariant v == PollLoop.VarsBefore(ticks, i, zero)
    {
      var w, m := DecideTick(v, ticks[i], enrich, ticks, i, zero);
      v := w;
      moves := moves + [m];
    }
  }

  function Announced<T>(m: Move<T>): seq<Emission<T>> {
    match m
    case Publish(data) => [Emission(data, true)]
    case Degrade(payload) => [Emission(payload, false)]
    case _ => []
  }

  function AllAnnounced<T>(moves: seq<Move<T>>): seq<Emission<T>> {
    if moves == [] then [] else AllAnnounced(moves[..|moves| - 1]) + Announced(moves[|moves| - 1])
  }

  function AsEmission<T>(e: PollLoop.Event<T>): Emission<T> {
    match e
    case Data(_, shown, _) => Emission(shown, true)
    case Degraded(payload) => Emission(payload, false)
  }

  function Emissions<T>(events: seq<PollLoop.Event<T>>): (r: seq<Emission<T>>)
    ensures |r| == |events|
  {
    seq(|events|, i requires 0 <= i < |events| => AsEmission(events[i]))
  }

  /** The numbers of the events whose fan-out loop `l` begins in the run. */
  function EmittedBy<T>(s: State<T>, acts: seq<Action<T>>, l: LoopId): seq<nat>
    requires IsRun(s, acts)
    decreases acts
  {
    if acts == [] then []
    else
      (if acts[0].LoopMove? && acts[0].l == l && acts[0].move.Snapshot? then [|s.emitted|] else [])
      + EmittedBy(Step(s, acts[0]), acts[1..], l)
  }

  /** What loop `l` has decided to send and not begun to. */
  function Pending<T>(s: State<T>, l: LoopId): seq<Emission<T>> {
    if l < |s.loops| && s.loops[l].phase.Ready? then
      [Emission(s.loops[l].phase.payload, s.loops[l].phase.isData)]
    else []
  }

  // ---------------------------------------------------------------- every decision is emitted once, in order

  lemma {:induction false} AnnouncedFirst<T>(m: Move<T>, moves: seq<Move<T>>)
    ensures AllAnnounced([m] + moves) == Announced(m) + AllAnnounced(moves)
    decreases moves
  {
    var n := |moves|;
    if n == 0 {
      assert [m] + moves == [m];
      assert [m][..0] == [];
    } else {
      AnnouncedFirst(m, moves[..n - 1]);
      assert ([m] + moves)[..n] == [m] + moves[..n - 1];
      Regroup(Announced(m), AllAnnounced(moves[..n - 1]), Announced(moves[n - 1]));
    }
  }

  lemma AtMostOneFirst<T>(first: seq<Move<T>>, moves: seq<Move<T>>)
    requires |first| <= 1
    ensures AllAnnounced(first + moves) == AllAnnounced(first) + AllAnnounced(moves)
  {
    if first == [] {
      assert first + moves == moves;
    } else {
      assert first == [first[0]];
      AnnouncedFirst(first[0], moves);
      AnnouncedFirst(first[0], []);
      assert [first[0]] + [] == first;
    }
  }

  lemma DecidedFirst<T>(a: Action<T>, rest: seq<Action<T>>, l: LoopId)
    ensures AllAnnounced(Decisions([a] + rest, l)) == AllAnnounced(Decided(a, l)) + AllAnnounced(Decisions(rest, l))
  {
    assert ([a] + rest)[1..] == rest;
    AtMostOneFirst(Decided(a, l), Decisions(rest, l));
  }

  lemma MoveKeepsEmitted<T>(s: State<T>, l: LoopId, m: Move<T>)
    requires l < |s.loops| && MoveEnabled(s, l, m)
    ensures var t := AfterMove(s, l, m);
            && |s.emitted| <= |t.emitted| && t.emitted[..|s.emitted|] == s.emitted
            && |t.emitted| == |s.emitted| + (if m.Snapshot? then 1 else 0)
  {
  }

  lemma StepKeepsEmitted<T>(s: State<T>, a: Action<T>)
    requires Ids(s) && Enabled(s, a)
    ensures var t := Step(s, a);
            && |s.emitted| <= |t.emitted| && t.emitted[..|s.emitted|] == s.emitted
            && |t.emitted| == |s.emitted| + (if a.LoopMove? && a.move.Snapshot? then 1 else 0)
  {
    if a.LoopMove? {
      MoveKeepsEmitted(s, a.l, a.move);
    } else {
      assert Step(s, a).emitted == s.emitted;
    }
  }

  lemma {:induction false} RunKeepsEmitted<T>(s: State<T>, acts: seq<Action<T>>)
    requires IsRun(s, acts)
    ensures |s.emitted| <= |After(s, acts).emitted| && After(s, acts).emitted[..|s.emitted|] == s.emitted
    decreases acts
  {
    if acts != [] {
      var u, t := Step(s, acts[0]), After(s, acts);
      StepKeepsEmitted(s, acts[0]);
      RunKeepsEmitted(u, acts[1..]);
      assert t.emitted[..|s.emitted|] == t.emitted[..|u.emitted|][..|s.emitted|];
    }
  }

  lemma {:induction false} EmittedByIncreases<T>(s: State<T>, acts: seq<Action<T>>, l: LoopId)
    requires IsRun(s, acts)
    ensures var mine := EmittedBy(s, acts, l);
            && Increasing(mine) && AllBelow(mine, |After(s, acts).emitted|)
            && forall i :: 0 <= i < |mine| ==> |s.emitted| <= mine[i]
    decreases acts
  {
    if acts != [] {
      StepKeepsEmitted(s, acts[0]);
      EmittedByIncreases(Step(s, acts[0]), acts[1..], l);
      RunKeepsEmitted(Step(s, acts[0]), acts[1..]);
    }
  }

  lemma OtherLoopKeepsPending<T>(s: State<T>, l: LoopId, other: LoopId, m: Move<T>)
    requires other < |s.loops| && MoveEnabled(s, other, m) && other != l
    ensures Pending(AfterMove(s, other, m), l) == Pending(s, l)
  {
    MoveFrame(s, other, m);
  }

  lemma SectionKeepsPending<T>(s: State<T>, a: Action<T>, l: LoopId)
    requires Ids(s) && Enabled(s, a) && !a.LoopMove?
    ensures Pending(Step(s, a), l) == Pending(s, l)
  {
  }

  /** Outside the loop's own moves, its phase stays as it is. */
  lemma OthersKeepPending<T>(s: State<T>, a: Action<T>, l: LoopId)
    requires Ids(s) && Enabled(s, a) && !(a.LoopMove? && a.l == l)
    ensures Pending(Step(s, a), l) == Pending(s, l)
  {
    if a.LoopMove? {
      OtherLoopKeepsPending(s, l, a.l, a.move);
    } else {
      SectionKeepsPending(s, a, l);
    }
  }

  lemma SendOneIsNotReady<T>(s: State<T>, l: LoopId)
    requires l < |s.loops| && MoveEnabled(s, l, SendOne)
    ensures Pending(s, l) == [] && Pending(AfterSendOne(s, l), l) == []
  {
  }

  /** A move of the loop: what was pending or is decided now is emitted now or pending. */
  lemma MoveBalances<T>(s: State<T>, l: LoopId, m: Move<T>)
    requires Ids(s) && Enabled(s, LoopMove(l, m))
    ensures Pending(s, l) + Announced(m)
            == (if m.Snapshot? then [AfterMove(s, l, m).emitted[|s.emitted|]] else []) + Pending(AfterMove(s, l, m), l)
  {
    if m.SendOne? {
      SendOneIsNotReady(s, l);
    }
  }

  lemma StepBalances<T>(s: State<T>, a: Action<T>, l: LoopId)
    requires Ids(s) && Enabled(s, a)
    ensures var u := Step(s, a);
            Pending(s, l) + AllAnnounced(Decided(a, l))
            == (if a.LoopMove? && a.l == l && a.move.Snapshot? then u.emitted[|s.emitted|..] else []) + Pending(u, l)
  {
    if a.LoopMove? && a.l == l {
      MoveBalances(s, l, a.move);
      if Decided(a, l) != [] {
        AnnouncedFirst(a.move, []);
        assert [a.move] + [] == [a.move];
      }
    } else {
      OthersKeepPending(s, a, l);
    }
  }

  /** Over a run: what was pending at first and what is decided in it is emitted in it, in that order, but for
    * what is pending at the end. */
  lemma {:induction false} RunBalances<T>(s: State<T>, acts: seq<Action<T>>, l: LoopId)
    requires IsRun(s, acts) && AllBelow(EmittedBy(s, acts, l), |After(s, acts).emitted|)
    ensures Pending(s, l) + AllAnnounced(Decisions(acts, l))
            == Payloads(EmittedBy(s, acts, l), After(s, acts).emitted) + Pending(After(s, acts), l)
    decreases acts
  {
    if acts != [] {
      var a, rest := acts[0], acts[1..];
      var u, t := Step(s, a), After(s, acts);
      EmittedByIncreases(u, rest, l);
      RunBalances(u, rest, l);
      StepBalances(s, a, l);
      StepKeepsEmitted(s, a);
      RunKeepsEmitted(u, rest);
      assert acts == [a] + rest;
      DecidedFirst(a, rest, l);
      var now := if a.LoopMove? && a.l == l && a.move.Snapshot? then u.emitted[|s.emitted|..] else [];
      var later := EmittedBy(u, rest, l);
      Regroup(Pending(s, l), AllAnnounced(Decided(a, l)), AllAnnounced(Decisions(rest, l)));
      Regroup(now, Pending(u, l), AllAnnounced(Decisions(rest, l)));
      Regroup(now, Payloads(later, t.emitted), Pending(t, l));
      PayloadsFirst(s, u, t, a, l, later);
    }
  }

  lemma PayloadsFirst<T>(s: State<T>, u: State<T>, t: State<T>, a: Action<T>, l: LoopId, later: seq<nat>)
    requires Ids(s) && Enabled(s, a) && u == Step(s, a)
    requires |u.emitted| <= |t.emitted| && t.emitted[..|u.emitted|] == u.emitted && AllBelow(later, |t.emitted|)
    ensures var snapshot := a.LoopMove? && a.l == l && a.move.Snapshot?;
            var mine := (if snapshot then [|s.emitted|] else []) + later;
            && AllBelow(mine, |t.emitted|)
            && Payloads(mine, t.emitted)
               == (if snapshot then u.emitted[|s.emitted|..] else []) + Payloads(later, t.emitted)
  {
    StepKeepsEmitted(s, a);
    if a.LoopMove? && a.l == l && a.move.Snapshot? {
      assert u.emitted[|s.emitted|..] == [u.emitted[|s.emitted|]];
      assert t.emitted[|s.emitted|] == t.emitted[..|u.emitted|][|s.emitted|];
    }
  }

  // ---------------------------------------------------------------- and they are the loop's events

  lemma {:induction false} AnnouncedAreEvents<T(!new)>(
    moves: seq<Move<T>>, ticks: seq<PollLoop.Tick<T>>, enrich: Option<PollLoop.Enrich<T>>, zero: T)
    requires |moves| <= |ticks| && forall i :: 0 <= i < |moves| ==> moves[i] == MoveFor(ticks, i, enrich, zero)
    ensures AllAnnounced(moves) == Emissions(PollLoop.EventsOf(ticks, |moves|, enrich, zero))
    decreases moves
  {
    if moves != [] {
      var n := |moves| - 1;
      AnnouncedAreEvents(moves[..n], ticks, enrich, zero);
      assert moves[n] == MoveFor(ticks, n, enrich, zero);
    }
  }

  /** In any interleaving, the payloads that a loop has fanned out, in order, are the events of its ticks, but for
    * one that it may be about to fan out. */
  lemma LoopEmitsItsEvents<T(!new)>(acts: seq<Action<T>>, l: LoopId, ticks: seq<PollLoop.Tick<T>>,
                                    enrich: Option<PollLoop.Enrich<T>>, zero: T)
    requires IsRun(Init<T>(), acts) && Follows(acts, l, ticks, enrich, zero)
    ensures var s, mine := After(Init<T>(), acts), EmittedBy(Init<T>(), acts, l);
            && Increasing(mine) && AllBelow(mine, |s.emitted|)
            && Payloads(mine, s.emitted) + Pending(s, l)
               == Emissions(PollLoop.EventsOf(ticks, |Decisions(acts, l)|, enrich, zero))
  {
    EmittedByIncreases(Init<T>(), acts, l);
    RunBalances(Init<T>(), acts, l);
    AnnouncedAreEvents(Decisions(acts, l), ticks, enrich, zero);
    assert [] + AllAnnounced(Decisions(acts, l)) == AllAnnounced(Decisions(acts, l));
  }

  /** Those of `xs` that are in `ys`. */
  function Among(xs: seq<nat>, ys: seq<nat>): (r: seq<nat>)
    ensures forall i :: 0 <= i < |r| ==> r[i] in ys && r[i] in xs
  {
    if xs == [] then []
    else Among(xs[..|xs| - 1], ys) + (if xs[|xs| - 1] in ys then [xs[|xs| - 1]] else [])
  }

  lemma {:induction false} AmongIncreases(xs: seq<nat>, ys: seq<nat>)
    requires Increasing(xs)
    ensures Increasing(Among(xs, ys))
  {
    if xs != [] {
      var n := |xs| - 1;
      AmongIncreases(xs[..n], ys);
      var before := Among(xs[..n], ys);
      forall i | 0 <= i < |before| ensures before[i] < xs[n] {
        assert before[i] in xs[..n];
      }
    }
  }

  function IndexOf(x: nat, ys: seq<nat>): (i: nat)
    requires x in ys
    ensures i < |ys| && ys[i] == x
  {
    if ys[0] == x then 0 else 1 + IndexOf(x, ys[1..])
  }

  lemma PlacesIncrease(xs: seq<nat>, ys: seq<nat>)
    requires Increasing(xs) && Increasing(ys) && forall i :: 0 <= i < |xs| ==> xs[i] in ys
    ensures var at := seq(|xs|, i requires 0 <= i < |xs| => IndexOf(xs[i], ys)); Increasing(at) && AllBelow(at, |ys|)
  {
    forall i, j | 0 <= i < j < |xs| ensures IndexOf(xs[i], ys) < IndexOf(xs[j], ys) {
      var a, b := IndexOf(xs[i], ys), IndexOf(xs[j], ys);
      assert ys[a] < ys[b];
    }
  }

  lemma PickedInOrder<T>(xs: seq<nat>, ys: seq<nat>, emitted: seq<Emission<T>>, whole: seq<Emission<T>>)
    requires Increasing(xs) && Increasing(ys) && AllBelow(xs, |emitted|) && AllBelow(ys, |emitted|)
    requires forall i :: 0 <= i < |xs| ==> xs[i] in ys
    requires |ys| <= |whole| && Payloads(ys, emitted) == whole[..|ys|]
    ensures Subsequence(Payloads(xs, emitted), whole)
  {
    var at := seq(|xs|, i requires 0 <= i < |xs| => IndexOf(xs[i], ys));
    PlacesIncrease(xs, ys);
    var picked := Payloads(xs, emitted);
    forall i | 0 <= i < |xs| ensures picked[i] == whole[at[i]] {
      assert Payloads(ys, emitted)[at[i]] == emitted[ys[at[i]]];
    }
    assert |at| == |picked| && AllBelow(at, |whole|);
  }

  /** Of one loop, each subscriber is handed a subsequence of the events of that loop's ticks, in order, whatever
    * else interleaves. */
  lemma HandedFromOneLoop<T(!new)>(acts: seq<Action<T>>, l: LoopId, ch: ChanId, ticks: seq<PollLoop.Tick<T>>,
                                   enrich: Option<PollLoop.Enrich<T>>, zero: T)
    requires IsRun(Init<T>(), acts) && Follows(acts, l, ticks, enrich, zero)
    requires ch < |After(Init<T>(), acts).chans|
    ensures var s := After(Init<T>(), acts);
            var handed := Among(s.chans[ch].Handed(), EmittedBy(Init<T>(), acts, l));
            && AllBelow(handed, |s.emitted|)
            && Subsequence(Payloads(handed, s.emitted),
                           Emissions(PollLoop.EventsOf(ticks, |Decisions(acts, l)|, enrich, zero)))
  {
    var s, mine := After(Init<T>(), acts), EmittedBy(Init<T>(), acts, l);
    var whole := Emissions(PollLoop.EventsOf(ticks, |Decisions(acts, l)|, enrich, zero));
    assert Reachable(s);
    HandedInOrder(s, ch);
    LoopEmitsItsEvents(acts, l, ticks, enrich, zero);
    assert whole[..|mine|] == Payloads(mine, s.emitted);
    AmongIncreases(s.chans[ch].Handed(), mine);
    var handed := Among(s.chans[ch].Handed(), mine);
    forall i | 0 <= i < |handed| ensures handed[i] < |s.emitted| {
      assert handed[i] in mine;
    }
    PickedInOrder(handed, mine, s.emitted, whole);
  }
}
