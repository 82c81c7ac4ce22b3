/** The observatory cache (server/handleroutbound.go): a short-lived cache behind one shared flight, cleared
  * by every successful switch.  One action is one critical section or one end of a wait; calls, flights and
  * switches interleave freely. */
module ObsCache {
  import opened Prelude

  /** observatoryCacheTTL, two seconds. */
  const TTL: int := 2_000_000_000

  datatype Status = Status(tag: string, alive: bool, delay: int)

  /** The cached list (`None` is Go's nil) and its time (`None` is the zero Time).  `epoch` counts the switches
    * that had cleared the cache when the list was stored, `fetchEpoch` those when its fetch began. */
  datatype Cache = Cache(data: Option<seq<Status>>, timestamp: Option<Time>, epoch: nat, fetchEpoch: nat) {
    predicate Fresh(now: Time) {
      timestamp.Some? && now - timestamp.value < TTL
    }
  }

  const EMPTY_CACHE := Cache(None, None, 0, 0)

  datatype Answer =
    | Listed(data: Option<seq<Status>>, writtenAt: Time, readAt: Time, epoch: nat, fetchEpoch: nat)
    | Fallback

  /** A call of getAllOutboundStatuses; `since` counts the switches before it began. */
  datatype Call =
    | Begun(since: nat)
    | Missed(since: nat)
    | Waiting(since: nat, flight: nat)
    | Woken(since: nat)
    | Returned(since: nat, answer: Answer)

  /** The one call in the air inside singleflight. */
  datatype Flight = Flight(id: nat, fetchEpoch: nat, stored: bool)

  datatype State =
    State(cache: Cache, clock: Time, epoch: nat, flights: nat, flight: Option<Flight>, calls: map<nat, Call>)

  datatype Action =
    | Begin(call: nat)
    | Check(call: nat, now: Time)
    | Join(call: nat)
    | Store(data: seq<Status>, now: Time)
    | Land
    | ReadBack(call: nat, now: Time)
    | Clear

  function Init(clock: Time): State {
    State(EMPTY_CACHE, clock, 0, 0, None, map[])
  }

  predicate Enabled(s: State, a: Action) {
    match a
    case Begin(c) => c !in s.calls
    case Check(c, now) => c in s.calls && s.calls[c].Begun? && s.clock <= now
    case Join(c) => c in s.calls && s.calls[c].Missed?
    case Store(_, now) => s.flight.Some? && !s.flight.value.stored && s.clock <= now
    case Land => s.flight.Some? && s.flight.value.stored
    case ReadBack(c, now) => c in s.calls && s.calls[c].Woken? && s.clock <= now
    case Clear => true
  }

  function Hit(cache: Cache, now: Time): Answer
    requires cache.Fresh(now)
  {
    Listed(cache.data, cache.timestamp.value, now, cache.epoch, cache.fetchEpoch)
  }

  function WakeWaiters(calls: map<nat, Call>, id: nat): map<nat, Call> {
    map c | c in calls :: if calls[c].Waiting? && calls[c].flight == id then Woken(calls[c].since) else calls[c]
  }

  function Step(s: State, a: Action): State
    requires Enabled(s, a)
  {
    match a
    case Begin(c) => s.(calls := s.calls[c := Begun(s.epoch)])
    case Check(c, now) =>
      var since := s.calls[c].since;
      s.(clock := now,
         calls := s.calls[c := if s.cache.Fresh(now) then Returned(since, Hit(s.cache, now)) else Missed(since)])
    case Join(c) =>
      var since := s.calls[c].since;
      if s.flight.Some? then
        s.(calls := s.calls[c := Waiting(since, s.flight.value.id)])
      else
        s.(flights := s.flights + 1, flight := Some(Flight(s.flights, s.epoch, false)),
           calls := s.calls[c := Waiting(since, s.flights)])
    case Store(data, now) =>
      s.(clock := now, flight := Some(s.flight.value.(stored := true)),
         cache := Cache(Some(data), Some(now), s.epoch, s.flight.value.fetchEpoch))
    case Land =>
      s.(flight := None, calls := WakeWaiters(s.calls, s.flight.value.id))
    case ReadBack(c, now) =>
      var since := s.calls[c].since;
      s.(clock := now,
         calls := s.calls[c := Returned(since, if s.cache.Fresh(now) && s.cache.data.Some? then Hit(s.cache, now)
                                               else Fallback)])
    case Clear => s.(cache := EMPTY_CACHE, epoch := s.epoch + 1)
  }

  predicate IsRun(s: State, acts: seq<Action>)
    decreases acts
  {
    acts == [] || (Enabled(s, acts[0]) && IsRun(Step(s, acts[0]), acts[1..]))
  }

  function After(s: State, acts: seq<Action>): State
    requires IsRun(s, acts)
    decreases acts
  {
    if acts == [] then s else After(Step(s, acts[0]), acts[1..])
  }

  ghost predicate Reachable(s: State) {
    exists clock, acts :: IsRun(Init(clock), acts) && After(Init(clock), acts) == s
  }

  // ---------------------------------------------------------------- the invariant

  predicate AnswerInv(c: Call)
    requires c.Returned?
  {
    c.answer.Listed? ==>
      && c.answer.data.Some?
      && c.answer.writtenAt <= c.answer.readAt < c.answer.writtenAt + TTL
      && c.since <= c.answer.epoch
  }

  predicate Inv(s: State) {
    && (s.cache.timestamp.Some? ==>
          s.cache.data.Some? && s.cache.timestamp.value <= s.clock && s.cache.epoch == s.epoch)
    && (s.flight.Some? ==> s.flight.value.id < s.flights && s.flight.value.fetchEpoch <= s.epoch)
    && (forall c <- s.calls ::
          && s.calls[c].since <= s.epoch
          && (s.calls[c].Waiting? ==> s.flight.Some? && s.flight.value.id == s.calls[c].flight)
          && (s.calls[c].Returned? ==> AnswerInv(s.calls[c])))
  }

  lemma StepKeepsInv(s: State, a: Action)
    requires Inv(s) && Enabled(s, a)
    ensures Inv(Step(s, a))
  {
    var t := Step(s, a);
    forall c | c in t.calls
      ensures t.calls[c].since <= t.epoch
      ensures t.calls[c].Waiting? ==> t.flight.Some? && t.flight.value.id == t.calls[c].flight
      ensures t.calls[c].Returned? ==> AnswerInv(t.calls[c])
    {
    }
  }

  lemma {:induction false} RunKeepsInv(s: State, acts: seq<Action>)
    requires Inv(s) && IsRun(s, acts)
    ensures Inv(After(s, acts))
    decreases acts
  {
    if acts != [] {
      StepKeepsInv(s, acts[0]);
      RunKeepsInv(Step(s, acts[0]), acts[1..]);
    }
  }

  lemma ReachableInv(s: State)
    requires Reachable(s)
    ensures Inv(s)
  {
    var clock, acts :| IsRun(Init(clock), acts) && After(Init(clock), acts) == s;
    RunKeepsInv(Init(clock), acts);
  }

  // ---------------------------------------------------------------- what a call may return

  /** Every list returned is not nil, was stored less than the TTL before it was read, and was stored after the
    * last switch that preceded the call. */
  lemma AnswersAreFresh(s: State, c: nat)
    requires Reachable(s) && c in s.calls && s.calls[c].Returned? && s.calls[c].answer.Listed?
    ensures var answer := s.calls[c].answer;
            && answer.data.Some?
            && 0 <= answer.readAt - answer.writtenAt < 2_000_000_000
            && answer.epoch >= s.calls[c].since
  {
    ReachableInv(s);
  }

  /** At most one flight is in the air, and whoever waits waits for that one; when it lands all of them wake. */
  lemma WaitersShareTheFlight(s: State, c: nat)
    requires Reachable(s) && c in s.calls && s.calls[c].Waiting?
    ensures s.flight.Some? && s.flight.value.id == s.calls[c].flight
    ensures Enabled(s, Land) ==> Step(s, Land).calls[c] == Woken(s.calls[c].since)
    ensures !Enabled(s, Land) ==> Enabled(s, Store([], s.clock)) && Enabled(Step(s, Store([], s.clock)), Land)
  {
    ReachableInv(s);
  }

  // ---------------------------------------------------------------- when the empty fallback is returned

  predicate StoresNothing(acts: seq<Action>) {
    forall i :: 0 <= i < |acts| ==> !acts[i].Store?
  }

  lemma {:induction false} CacheStaysUntilCleared(s: State, acts: seq<Action>)
    requires IsRun(s, acts) && StoresNothing(acts)
    ensures After(s, acts).cache == if Clear in acts then EMPTY_CACHE else s.cache
    decreases acts
  {
    if acts != [] {
      assert acts == [acts[0]] + acts[1..];
      CacheStaysUntilCleared(Step(s, acts[0]), acts[1..]);
    }
  }

  /** A caller that reads back what the last flight stored gets that list, unless a switch cleared the cache in
    * between or the TTL has passed, and only then gets the empty fallback. */
  lemma FallbackExactlyWhenClearedOrExpired(s: State, data: seq<Status>, stored: Time, acts: seq<Action>,
                                            c: nat, now: Time)
    requires Enabled(s, Store(data, stored))
    requires StoresNothing(acts) && IsRun(Step(s, Store(data, stored)), acts)
    requires Enabled(After(Step(s, Store(data, stored)), acts), ReadBack(c, now))
    ensures var answer := Step(After(Step(s, Store(data, stored)), acts), ReadBack(c, now)).calls[c].answer;
            && (answer == Fallback <==> Clear in acts || now - stored >= TTL)
            && (answer.Listed? ==> answer.data == Some(data))
  {
    CacheStaysUntilCleared(Step(s, Store(data, stored)), acts);
  }

  /** No flight has stored anything yet. */
  predicate NothingStored(s: State) {
    && (forall c <- s.calls :: !s.calls[c].Woken?)
    && (s.flight.Some? ==> !s.flight.value.stored)
  }

  lemma {:induction false} WakingNeedsAStore(s: State, acts: seq<Action>)
    requires NothingStored(s) && IsRun(s, acts) && StoresNothing(acts)
    ensures NothingStored(After(s, acts))
    decreases acts
  {
    if acts != [] {
      var a := acts[0];
      assert !a.Store?;
      assert NothingStored(Step(s, a));
      WakingNeedsAStore(Step(s, a), acts[1..]);
    }
  }

  predicate IsLastStore(acts: seq<Action>, i: nat) {
    i < |acts| && acts[i].Store? && StoresNothing(acts[i + 1..])
  }

  lemma {:induction false} LastStore(acts: seq<Action>) returns (i: nat)
    requires !StoresNothing(acts)
    ensures IsLastStore(acts, i)
    decreases acts
  {
    var n := |acts| - 1;
    if acts[n].Store? {
      i := n;
    } else {
      i := LastStore(acts[..n]);
      assert acts[i + 1..] == acts[..n][i + 1..] + [acts[n]];
    }
  }

  lemma {:induction false} RunSplit(s: State, acts: seq<Action>, i: nat)
    requires IsRun(s, acts) && i <= |acts|
    ensures IsRun(s, acts[..i]) && IsRun(After(s, acts[..i]), acts[i..])
    ensures After(s, acts) == After(After(s, acts[..i]), acts[i..])
    decreases i
  {
    if i == 0 {
      assert acts[..0] == [] && acts[0..] == acts;
    } else {
      var first, rest := acts[0], acts[1..];
      RunSplit(Step(s, first), rest, i - 1);
      assert acts[i..] == rest[i - 1..];
      FirstThen(s, first, rest[..i - 1], acts[..i]);
    }
  }

  lemma FirstThen(s: State, first: Action, rest: seq<Action>, acts: seq<Action>)
    requires Enabled(s, first) && IsRun(Step(s, first), rest) && acts == [first] + rest
    ensures IsRun(s, acts) && After(s, acts) == After(Step(s, first), rest)
  {
    assert acts[1..] == rest;
  }

  /** Over whole runs, whichever calls and flights overlap: a caller that reads back gets the list stored last,
    * or the empty fallback exactly if a switch cleared the cache since or the TTL has passed. */
  lemma ReadsBackTheNewest(clock: Time, acts: seq<Action>, c: nat, now: Time) returns (i: nat)
    requires IsRun(Init(clock), acts) && Enabled(After(Init(clock), acts), ReadBack(c, now))
    ensures IsLastStore(acts, i)
    ensures var answer := Step(After(Init(clock), acts), ReadBack(c, now)).calls[c].answer;
            && (answer == Fallback <==> Clear in acts[i + 1..] || now - acts[i].now >= TTL)
            && (answer.Listed? ==> answer.data == Some(acts[i].data))
  {
    if StoresNothing(acts) {
      WakingNeedsAStore(Init(clock), acts);
    }
    i := LastStore(acts);
    RunSplit(Init(clock), acts, i);
    var s := After(Init(clock), acts[..i]);
    assert acts[i..][1..] == acts[i + 1..];
    FallbackExactlyWhenClearedOrExpired(s, acts[i].data, acts[i].now, acts[i + 1..], c, now);
  }

  /** Over whole runs, a call is answered at once exactly if some list was stored, no switch has cleared the cache
    * since the last one, and that one is younger than two seconds; it gets that list. */
  lemma HitsTheNewestIff(clock: Time, acts: seq<Action>, c: nat, now: Time) returns (i: Option<nat>)
    requires IsRun(Init(clock), acts) && Enabled(After(Init(clock), acts), Check(c, now))
    ensures if i.Some? then IsLastStore(acts, i.value) else StoresNothing(acts)
    ensures var call := Step(After(Init(clock), acts), Check(c, now)).calls[c];
            var hits := i.Some? && Clear !in acts[i.value + 1..] && now - acts[i.value].now < 2_000_000_000;
            if hits then call.Returned? && call.answer.Listed? && call.answer.data == Some(acts[i.value].data)
            else call.Missed?
  {
    if StoresNothing(acts) {
      i := None;
      CacheStaysUntilCleared(Init(clock), acts);
    } else {
      var j := LastStore(acts);
      i := Some(j);
      RunSplit(Init(clock), acts, j);
      assert acts[j..][1..] == acts[j + 1..];
      CacheStaysUntilCleared(Step(After(Init(clock), acts[..j]), acts[j]), acts[j + 1..]);
    }
  }

  // ---------------------------------------------------------------- when a flight writes into a fresh cache

  lemma {:induction false} ClockNeverFalls(s: State, acts: seq<Action>)
    requires IsRun(s, acts)
    ensures s.clock <= After(s, acts).clock
    decreases acts
  {
    if acts != [] {
      ClockNeverFalls(Step(s, acts[0]), acts[1..]);
    }
  }

  /** Flight `id` is in the air and has stored nothing. */
  predicate StillFetching(s: State, id: nat) {
    s.flight.Some? && s.flight.value.id == id && !s.flight.value.stored
  }

  lemma {:induction false} GoneForGood(s: State, acts: seq<Action>, id: nat)
    requires IsRun(s, acts) && id < s.flights && !StillFetching(s, id)
    ensures !StillFetching(After(s, acts), id)
    decreases acts
  {
    if acts != [] {
      GoneForGood(Step(s, acts[0]), acts[1..], id);
    }
  }

  /** As long as a flight is fetching, nothing is stored. */
  lemma {:induction false} FetchingMeansNoStore(s: State, acts: seq<Action>, id: nat)
    requires IsRun(s, acts) && id < s.flights && StillFetching(s, id) && StillFetching(After(s, acts), id)
    ensures StoresNothing(acts)
    decreases acts
  {
    if acts != [] {
      var u := Step(s, acts[0]);
      if StillFetching(u, id) {
        FetchingMeansNoStore(u, acts[1..], id);
      } else {
        GoneForGood(u, acts[1..], id);
      }
    }
  }

  /** Call `c` begins a flight in `s`, which after `acts` is about to store at `now` while the cache is fresh. */
  predicate WritesIntoFresh(s: State, c: nat, acts: seq<Action>, now: Time) {
    && Enabled(s, Join(c)) && s.flight.None?
    && IsRun(Step(s, Join(c)), acts)
    && var t := After(Step(s, Join(c)), acts);
       StillFetching(t, s.flights) && Enabled(t, Store([], now)) && t.cache.Fresh(now)
  }

  /** The claim that a flight only writes when the cache is stale holds of the flight that a call begins exactly
    * if the cache is stale at that moment. */
  lemma WritesIntoFreshIff(s: State, c: nat)
    requires Enabled(s, Join(c)) && s.flight.None?
    ensures (exists acts, now :: WritesIntoFresh(s, c, acts, now)) <==> s.cache.Fresh(s.clock)
  {
    var u := Step(s, Join(c));
    if s.cache.Fresh(s.clock) {
      assert WritesIntoFresh(s, c, [], s.clock);
    }
    forall acts, now | WritesIntoFresh(s, c, acts, now) ensures s.cache.Fresh(s.clock) {
      FetchingMeansNoStore(u, acts, s.flights);
      CacheStaysUntilCleared(u, acts);
      ClockNeverFalls(u, acts);
    }
  }

  /** Two calls miss, the first flies and lands, and the second meets a fresh cache when it begins its flight. */
  lemma MissMeetsFreshCache()
    ensures exists s: State, c: nat :: Reachable(s) && Enabled(s, Join(c)) && s.flight.None? && s.cache.Fresh(s.clock)
  {
    var s0 := Init(0);
    var acts: seq<Action> := [];
    OneMore(s0, acts, Begin(0));
    var s1, acts1 := Step(s0, Begin(0)), acts + [Begin(0)];
    OneMore(s0, acts1, Begin(1));
    var s2, acts2 := Step(s1, Begin(1)), acts1 + [Begin(1)];
    OneMore(s0, acts2, Check(0, 0));
    var s3, acts3 := Step(s2, Check(0, 0)), acts2 + [Check(0, 0)];
    OneMore(s0, acts3, Check(1, 0));
    var s4, acts4 := Step(s3, Check(1, 0)), acts3 + [Check(1, 0)];
    var s5 := Step(Step(Step(s4, Join(0)), Store([], 0)), Land);
    OneMore(s0, acts4, Join(0));
    OneMore(s0, acts4 + [Join(0)], Store([], 0));
    OneMore(s0, acts4 + [Join(0)] + [Store([], 0)], Land);
    assert IsRun(s0, acts4 + [Join(0)] + [Store([], 0)] + [Land]);
    assert Reachable(s5);
    assert Enabled(s5, Join(1));
  }

  // ---------------------------------------------------------------- a call that runs alone

  lemma {:induction false} OneMore(s: State, acts: seq<Action>, a: Action)
    requires IsRun(s, acts) && Enabled(After(s, acts), a)
    ensures IsRun(s, acts + [a]) && After(s, acts + [a]) == Step(After(s, acts), a)
    decreases acts
  {
    if acts == [] {
      assert acts + [a] == [a];
      assert [a][1..] == [];
    } else {
      OneMore(Step(s, acts[0]), acts[1..], a);
      assert (acts + [a])[1..] == acts[1..] + [a];
    }
  }

  lemma {:induction false} RunAppend(s: State, first: seq<Action>, second: seq<Action>)
    requires IsRun(s, first) && IsRun(After(s, first), second)
    ensures IsRun(s, first + second) && After(s, first + second) == After(After(s, first), second)
    decreases first
  {
    if first == [] {
      assert first + second == second;
    } else {
      RunAppend(Step(s, first[0]), first[1..], second);
      assert (first + second)[1..] == first[1..] + second;
    }
  }

  function Lookup(c: nat, checkedAt: Time): seq<Action> {
    [Begin(c), Check(c, checkedAt)]
  }

  function Flying(c: nat, data: seq<Status>, storedAt: Time): seq<Action> {
    [Join(c), Store(data, storedAt), Land]
  }

  /** The actions of a call with no other call or switch in between. */
  function Alone(s: State, c: nat, data: seq<Status>, checkedAt: Time, storedAt: Time, readAt: Time): seq<Action> {
    if s.cache.Fresh(checkedAt) then Lookup(c, checkedAt)
    else Lookup(c, checkedAt) + Flying(c, data, storedAt) + [ReadBack(c, readAt)]
  }

  // ---------------------------------------------------------------- lists fetched before a switch

  predicate Fetching(s: State) {
    s.flight.Some? && !s.flight.value.stored
  }

  /** Call `c` began after `since` switches and returned a list whose fetch had begun before the last of them. */
  predicate ReturnsOldFetch(s: State, c: nat, since: nat) {
    && c in s.calls && s.calls[c].Returned? && s.calls[c].since >= since
    && s.calls[c].answer.Listed? && s.calls[c].answer.fetchEpoch < since
  }

  /** Nothing fetched before switch number `since` is in the cache, in the air, or in an answer given since. */
  ghost predicate OnlyNewFetches(s: State, since: nat) {
    && since <= s.epoch
    && (s.cache.timestamp.Some? ==> s.cache.fetchEpoch >= since)
    && (Fetching(s) ==> s.flight.value.fetchEpoch >= since)
    && forall c: nat :: !ReturnsOldFetch(s, c, since)
  }

  lemma StepKeepsNewFetches(s: State, a: Action, since: nat)
    requires Inv(s) && Enabled(s, a) && OnlyNewFetches(s, since)
    ensures OnlyNewFetches(Step(s, a), since)
  {
    var t := Step(s, a);
    forall c: nat ensures !ReturnsOldFetch(t, c, since) {
      assert !ReturnsOldFetch(s, c, since);
    }
  }

  lemma {:induction false} RunKeepsNewFetches(s: State, acts: seq<Action>, since: nat)
    requires Inv(s) && IsRun(s, acts) && OnlyNewFetches(s, since)
    ensures OnlyNewFetches(After(s, acts), since)
    decreases acts
  {
    if acts != [] {
      StepKeepsInv(s, acts[0]);
      StepKeepsNewFetches(s, acts[0], since);
      RunKeepsNewFetches(Step(s, acts[0]), acts[1..], since);
    }
  }

  /** Run `acts`, taken after the clearing, ends with call `c`, begun since, returning a list fetched before. */
  predicate ReturnsOldFetchVia(s: State, acts: seq<Action>, c: nat) {
    var cleared := Step(s, Clear);
    IsRun(cleared, acts) && ReturnsOldFetch(After(cleared, acts), c, cleared.epoch)
  }

  ghost predicate OldFetchCanReturn(s: State) {
    exists acts: seq<Action>, c: nat :: ReturnsOldFetchVia(s, acts, c)
  }

  /** A call that starts after a switch can return a list fetched before it exactly if a fetch is in the air
    * when the switch clears the cache. */
  lemma OldFetchReturnsIffInTheAir(s: State)
    requires Reachable(s)
    ensures OldFetchCanReturn(s) <==> Fetching(s)
  {
    ReachableInv(s);
    if Fetching(s) {
      OldFetchRun(s);
    } else {
      forall acts: seq<Action>, c: nat ensures !ReturnsOldFetchVia(s, acts, c) {
        NoOldFetch(s, acts, c);
      }
    }
  }

  lemma NoOldFetch(s: State, acts: seq<Action>, c: nat)
    requires Inv(s) && !Fetching(s)
    ensures !ReturnsOldFetchVia(s, acts, c)
  {
    var cleared := Step(s, Clear);
    StepKeepsInv(s, Clear);
    assert forall d: nat :: !ReturnsOldFetch(cleared, d, cleared.epoch);
    if IsRun(cleared, acts) {
      RunKeepsNewFetches(cleared, acts, cleared.epoch);
    }
  }

  lemma {:induction false} UnusedCall(calls: set<nat>) returns (c: nat)
    ensures forall d <- calls :: d < c
    decreases |calls|
  {
    if calls == {} {
      c := 0;
    } else {
      var d :| d in calls;
      var e := UnusedCall(calls - {d});
      c := if d < e then e else d + 1;
      assert forall x <- calls :: x == d || x in calls - {d};
    }
  }

  lemma OldFetchRun(s: State)
    requires Inv(s) && Fetching(s)
    ensures OldFetchCanReturn(s)
  {
    var c := UnusedCall(s.calls.Keys);
    var s1 := Step(s, Clear);
    var s2 := Step(s1, Store([], s.clock));
    var s3 := Step(s2, Begin(c));
    var s4 := Step(s3, Check(c, s.clock));
    assert ReturnsOldFetch(s4, c, s.epoch + 1);
    var acts := [Store([], s.clock), Begin(c), Check(c, s.clock)];
    var acts1, acts2 := acts[1..], acts[1..][1..];
    assert acts2[1..] == [];
    assert IsRun(s4, acts2[1..]) && After(s4, acts2[1..]) == s4;
    assert IsRun(s3, acts2) && After(s3, acts2) == s4;
    assert IsRun(s2, acts1) && After(s2, acts1) == s4;
    assert IsRun(s1, acts) && After(s1, acts) == s4;
    assert ReturnsOldFetchVia(s, acts, c);
  }
}
