/** The fields and methods of the server that keep the observatory cache (server/handleroutbound.go), each
  * proved to perform the action of `ObsCache` that the theorems are about. */
module ObsServerMethods {
  import opened Prelude
  import opened ObsCache

  /** What GetOutboundStatus answers: an error, no status list, or a list. */
  datatype Reply = Failed | NoStatus | Statuses(entries: seq<Status>)

  /** The list a flight stores for a reply. */
  function Listing(reply: Reply): (r: seq<Status>)
    ensures reply.Statuses? ==> r == reply.entries
    ensures !reply.Statuses? ==> r == []
  {
    match reply
    case Failed => []
    case NoStatus => []
    case Statuses(entries) => entries
  }

  class Server {
    const hasClient: bool
    var data: Option<seq<Status>>
    var timestamp: Option<Time>

    // which switches the cached list follows, the calls in progress, and the singleflight group
    ghost var cacheEpoch: nat
    ghost var cacheFetchEpoch: nat
    ghost var clock: Time
    ghost var epoch: nat
    ghost var flights: nat
    ghost var flight: Option<Flight>
    ghost var calls: map<nat, Call>

    ghost function View(): State
      reads this
    {
      State(Cache(data, timestamp, cacheEpoch, cacheFetchEpoch), clock, epoch, flights, flight, calls)
    }

    ghost function Cached(): Cache
      reads this
    {
      View().cache
    }

    constructor (hasClient: bool, ghost clock: Time)
      ensures this.hasClient == hasClient && View() == Init(clock)
    {
      this.hasClient, data, timestamp := hasClient, None, None;
      cacheEpoch, cacheFetchEpoch, this.clock, epoch, flights, flight, calls := 0, 0, clock, 0, 0, None, map[];
    }

    method UpdateObsCache(statuses: seq<Status>, now: Time)
      requires Enabled(View(), Store(statuses, now))
      modifies this
      ensures View() == Step(old(View()), Store(statuses, now))
    {
      data, timestamp := Some(statuses), Some(now);
      cacheEpoch, cacheFetchEpoch, clock := epoch, flight.value.fetchEpoch, now;
      flight := Some(flight.value.(stored := true));
    }

    /** The section under the read lock at the start of call `c`. */
    method CheckCache(now: Time, ghost c: nat) returns (hit: bool, cached: Option<seq<Status>>)
      requires Enabled(View(), Check(c, now))
      modifies this`clock, this`calls
      ensures View() == Step(old(View()), Check(c, now))
      ensures hit <==> calls[c].Returned?
      ensures hit ==> calls[c].answer.Listed? && calls[c].answer.data == cached
    {
      hit, cached := timestamp.Some? && now - timestamp.value < TTL, None;
      clock := now;
      if hit {
        calls := calls[c := Returned(calls[c].since, Listed(data, timestamp.value, now, cacheEpoch, cacheFetchEpoch))];
        cached := data;
      } else {
        calls := calls[c := Missed(calls[c].since)];
      }
    }

    /** The read-back of call `c`; nil becomes the fallback. */
    method ObsSnapshot(now: Time, ghost c: nat) returns (r: Option<seq<Status>>)
      requires Enabled(View(), ReadBack(c, now))
      modifies this`clock, this`calls
      ensures View() == Step(old(View()), ReadBack(c, now))
      ensures r.None? <==> calls[c].answer.Fallback?
      ensures r.Some? ==> calls[c].answer.data == r
    {
      r := None;
      if timestamp.Some? && now - timestamp.value < TTL {
        r := data;
      }
      clock := now;
      calls := calls[c := Returned(calls[c].since,
        if r.Some? then Listed(r, timestamp.value, now, cacheEpoch, cacheFetchEpoch) else Fallback)];
    }

    /** The invalidation at the end of handleSwitchOutbound. */
    method InvalidateObsCache()
      modifies this
      ensures View() == Step(old(View()), Clear)
    {
      data, timestamp := None, None;
      cacheEpoch, cacheFetchEpoch, epoch := 0, 0, epoch + 1;
    }

    ghost method BeginCall(c: nat)
      requires Enabled(View(), Begin(c))
      modifies this`calls
      ensures View() == Step(old(View()), Begin(c))
    {
      calls := calls[c := Begun(epoch)];
    }

    ghost method EnterFlight(c: nat)
      requires Enabled(View(), Join(c)) && flight.None?
      modifies this`flights, this`flight, this`calls
      ensures View() == Step(old(View()), Join(c))
    {
      calls := calls[c := Waiting(calls[c].since, flights)];
      flight, flights := Some(Flight(flights, epoch, false)), flights + 1;
    }

    ghost method LandFlight()
      requires Enabled(View(), Land)
      modifies this`flight, this`calls
      ensures View() == Step(old(View()), Land)
    {
      calls := WakeWaiters(calls, flight.value.id);
      flight := None;
    }

    /** A call `c` with no other call or switch in between: it runs through the protocol's actions, and returns
      * what the protocol answers, an empty list for the fallback.  The clock reads `checkedAt`, `storedAt` and
      * `readAt` in turn. */
    method GetAllOutboundStatuses(reply: Reply, checkedAt: Time, storedAt: Time, readAt: Time, ghost c: nat)
        returns (r: seq<Status>)
      requires Inv(View()) && flight.None? && c !in calls
      requires clock <= checkedAt <= storedAt <= readAt
      modifies this
      ensures !hasClient ==> r == [] && View() == old(View())
      ensures hasClient ==>
                var acts := Alone(old(View()), c, Listing(reply), checkedAt, storedAt, readAt);
                && IsRun(old(View()), acts) && View() == After(old(View()), acts)
                && c in calls && calls[c].Returned?
                && r == match calls[c].answer
                        case Listed(list, _, _, _, _) => (if list.Some? then list.value else [])
                        case Fallback => []
      ensures hasClient && !old(View()).cache.Fresh(checkedAt) ==>
                r == if readAt - storedAt < TTL then Listing(reply) else []
    {
      if !hasClient {
        return [];
      }
      ghost var s := View();
      var hit, cached := StartCall(checkedAt, c);
      if hit {
        return cached.value;
      }
      ghost var acts := Lookup(c, checkedAt);
      Fly(reply, storedAt, c);
      RunAppend(s, acts, Flying(c, Listing(reply), storedAt));
      acts := acts + Flying(c, Listing(reply), storedAt);
      OneMore(s, acts, ReadBack(c, readAt));
      var snapshot := ObsSnapshot(readAt, c);
      if snapshot.Some? {
        return snapshot.value;
      }
      return [];
    }

    method StartCall(checkedAt: Time, ghost c: nat) returns (hit: bool, cached: Option<seq<Status>>)
      requires c !in calls && clock <= checkedAt
      modifies this`clock, this`calls
      ensures IsRun(old(View()), Lookup(c, checkedAt)) && View() == After(old(View()), Lookup(c, checkedAt))
      ensures hit <==> Cached().Fresh(checkedAt)
      ensures clock == checkedAt && c in calls
      ensures hit ==> calls[c].Returned? && calls[c].answer.Listed? && calls[c].answer.data == cached == data
      ensures !hit ==> calls[c].Missed?
    {
      ghost var s := View();
      OneMore(s, [], Begin(c));
      BeginCall(c);
      OneMore(s, [Begin(c)], Check(c, checkedAt));
      hit, cached := CheckCache(checkedAt, c);
      assert [Begin(c)] + [Check(c, checkedAt)] == Lookup(c, checkedAt);
    }

    /** The flight that a call makes alone. */
    method Fly(reply: Reply, storedAt: Time, ghost c: nat)
      requires c in calls && calls[c].Missed? && flight.None? && clock <= storedAt
      modifies this
      ensures var acts := Flying(c, Listing(reply), storedAt);
              IsRun(old(View()), acts) && View() == After(old(View()), acts)
      ensures c in calls && calls[c].Woken? && clock == storedAt
      ensures data == Some(Listing(reply)) && timestamp == Some(storedAt)
    {
      ghost var s := View();
      OneMore(s, [], Join(c));
      EnterFlight(c);
      var statuses := CollectStatuses(reply);
      OneMore(s, [Join(c)], Store(statuses, storedAt));
      UpdateObsCache(statuses, storedAt);
      OneMore(s, [Join(c)] + [Store(statuses, storedAt)], Land);
      LandFlight();
      assert [Join(c)] + [Store(statuses, storedAt)] + [Land] == Flying(c, statuses, storedAt);
    }
  }

  /** The part of the flight that builds the list. */
  method CollectStatuses(reply: Reply) returns (statuses: seq<Status>)
    ensures statuses == Listing(reply)
  {
    statuses := [];
    if reply.Statuses? {
      for i := 0 to |reply.entries|
        invariant statuses == reply.entries[..i]
      {
        statuses := statuses + [reply.entries[i]];
      }
      assert statuses == reply.entries;
    }
  }
}
