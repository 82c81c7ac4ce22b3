/** Byte rates (server/handlerstats.go, `computeBPS`) inside the polling loop: the rates reported in one run
  * add up to the bytes counted, although repeated and failed ticks report nothing. */
module StatsRates {
  import opened Prelude
  import opened PollLoop

  /** The fields of StatsData that the enrichment reads or writes. */
  datatype Stats = Stats(uplink: int, downlink: int, uplinkBPS: real, downlinkBPS: real)

  function Seconds(nanoseconds: int): real {
    nanoseconds as real / 1_000_000_000.0
  }

  function NonNegative(x: real): real {
    if x < 0.0 then 0.0 else x
  }

  function ComputeBPS(data: Stats, prev: Stats, tickAt: Time, prevAt: Option<Time>): Stats {
    match prevAt
    case None => data
    case Some(at) =>
      var elapsed := Seconds(tickAt - at);
      if elapsed <= 0.0 then data
      else
        data.(uplinkBPS := NonNegative(Wrap64(data.uplink - prev.uplink) as real / elapsed),
              downlinkBPS := NonNegative(Wrap64(data.downlink - prev.downlink) as real / elapsed))
  }

  datatype Direction = Up | Down

  function Counter(s: Stats, d: Direction): int {
    if d.Up? then s.uplink else s.downlink
  }

  function Rate(s: Stats, d: Direction): real {
    if d.Up? then s.uplinkBPS else s.downlinkBPS
  }

  const NO_STATS := Stats(0, 0, 0.0, 0.0)

  function StatsEvents(ticks: seq<Tick<Stats>>, n: nat): seq<Event<Stats>>
    requires n <= |ticks|
  {
    EventsOf(ticks, n, Some(ComputeBPS), NO_STATS)
  }

  // ---------------------------------------------------------------- what is reported, what is counted

  /** Data broadcasts in order, without the degraded events between them. */
  function Broadcasts(events: seq<Event<Stats>>): (r: seq<Event<Stats>>)
    ensures forall i :: 0 <= i < |r| ==> r[i].Data?
  {
    if events == [] then []
    else if events[|events| - 1].Data? then Broadcasts(events[..|events| - 1]) + [events[|events| - 1]]
    else Broadcasts(events[..|events| - 1])
  }

  /** Bytes reported by `shown` over the time between two ticks. */
  function Report(shown: Stats, d: Direction, at: Time, prevAt: Time): real {
    Rate(shown, d) * Seconds(at - prevAt)
  }

  /** The sum over successive broadcasts of reported rate times elapsed seconds. */
  function ReportedBytes(sent: seq<Event<Stats>>, d: Direction): real
    requires forall i :: 0 <= i < |sent| ==> sent[i].Data?
  {
    var n := |sent|;
    if n < 2 then 0.0
    else ReportedBytes(sent[..n - 1], d) + Report(sent[n - 1].shown, d, sent[n - 1].at, sent[n - 2].at)
  }

  /** The sum of the increases between successive successful fetches. */
  function CountedBytes(fetched: seq<Fetch<Stats>>, d: Direction): int {
    var n := |fetched|;
    if n < 2 then 0
    else CountedBytes(fetched[..n - 1], d) + Max(0, Counter(fetched[n - 1].data, d) - Counter(fetched[n - 2].data, d))
  }

  // ---------------------------------------------------------------- assumptions about the environment

  predicate IncreasingTimes(ticks: seq<Tick<Stats>>) {
    forall i, j :: 0 <= i < j < |ticks| ==> ticks[i].at < ticks[j].at
  }

  /** Byte counters are int64 values that count up from zero. */
  predicate ValidCounters(ticks: seq<Tick<Stats>>) {
    forall i :: 0 <= i < |ticks| && ticks[i].outcome.Fetched? ==>
      && 0 <= ticks[i].outcome.fetch.data.uplink < TWO_63
      && 0 <= ticks[i].outcome.fetch.data.downlink < TWO_63
  }

  /** The marshaled text shows both counters. */
  predicate JsonShowsCounters(ticks: seq<Tick<Stats>>) {
    forall i, j ::
      (&& 0 <= i < |ticks| && ticks[i].outcome.Fetched?
       && 0 <= j < |ticks| && ticks[j].outcome.Fetched?
       && SameJson(ticks[i].outcome.fetch, ticks[j].outcome.fetch)) ==>
        && ticks[i].outcome.fetch.data.uplink == ticks[j].outcome.fetch.data.uplink
        && ticks[i].outcome.fetch.data.downlink == ticks[j].outcome.fetch.data.downlink
  }

  // ---------------------------------------------------------------- the conservation law

  lemma DifferenceIsExact(a: int, b: int)
    requires 0 <= a < TWO_63 && 0 <= b < TWO_63
    ensures Wrap64(a - b) == a - b
  {
  }

  lemma RateTimesElapsed(x: int, elapsed: real)
    requires elapsed > 0.0
    ensures NonNegative(x as real / elapsed) * elapsed == Max(0, x) as real
  {
    assert x as real / elapsed * elapsed == x as real;
    if x < 0 {
      NegativeQuotient(x as real, elapsed);
    } else {
      assert x as real / elapsed >= 0.0;
    }
  }

  lemma NegativeQuotient(x: real, e: real)
    requires x < 0.0 < e
    ensures x / e < 0.0
  {
  }

  lemma BroadcastsOfOneMore(before: seq<Event<Stats>>, e: Event<Stats>)
    ensures Broadcasts(before + [e]) == if e.Data? then Broadcasts(before) + [e] else Broadcasts(before)
  {
    assert (before + [e])[..|before|] == before;
  }

  lemma ReportedOfOneMore(sent: seq<Event<Stats>>, e: Event<Stats>, d: Direction)
    requires e.Data? && forall i :: 0 <= i < |sent| ==> sent[i].Data?
    ensures ReportedBytes(sent + [e], d) ==
            if sent == [] then 0.0
            else ReportedBytes(sent, d) + Report(e.shown, d, e.at, sent[|sent| - 1].at)
  {
    assert (sent + [e])[..|sent|] == sent;
  }

  lemma CountedOfOneMore(fetched: seq<Fetch<Stats>>, f: Fetch<Stats>, d: Direction)
    ensures CountedBytes(fetched + [f], d) ==
            if fetched == [] then 0
            else CountedBytes(fetched, d) + Max(0, Counter(f.data, d) - Counter(fetched[|fetched| - 1].data, d))
  {
    assert (fetched + [f])[..|fetched|] == fetched;
  }

  lemma BroadcastsOfOneTick(ticks: seq<Tick<Stats>>, i: nat)
    requires i < |ticks|
    ensures var before, after := Broadcasts(StatsEvents(ticks, i)), Broadcasts(StatsEvents(ticks, i + 1));
            if !Sent(ticks, i) then after == before
            else |after| == |before| + 1 && after[|before|].at == ticks[i].at
  {
    match EventAt(ticks, i, Some(ComputeBPS), NO_STATS) {
      case None =>
      case Some(e) => BroadcastsOfOneMore(StatsEvents(ticks, i), e);
    }
  }

  /** The newest broadcast is that of the newest tick that was sent. */
  lemma {:induction false} LastBroadcastTick(ticks: seq<Tick<Stats>>, n: nat)
    requires n <= |ticks|
    ensures var sent, p := Broadcasts(StatsEvents(ticks, n)), PrevSent(ticks, n);
            if p.None? then sent == []
            else sent != [] && sent[|sent| - 1].at == ticks[p.value].at
  {
    if n > 0 {
      LastBroadcastTick(ticks, n - 1);
      BroadcastsOfOneTick(ticks, n - 1);
    }
  }

  /** Repeats show the same counters, so the newest fetch and the newest broadcast agree on them. */
  lemma {:induction false} LastFetchShown(ticks: seq<Tick<Stats>>, n: nat, d: Direction)
    requires n <= |ticks| && JsonShowsCounters(ticks)
    ensures var p, q := PrevSuccess(ticks, n), PrevSent(ticks, n);
            && (p.Some? <==> q.Some?)
            && (p.Some? ==>
                  Counter(ticks[p.value].outcome.fetch.data, d) == Counter(ticks[q.value].outcome.fetch.data, d))
  {
    if n > 0 {
      LastFetchShown(ticks, n - 1, d);
    }
  }

  lemma RateReportsIncrease(data: Stats, prev: Stats, tickAt: Time, prevAt: Time, d: Direction)
    requires prevAt < tickAt
    requires 0 <= Counter(data, d) < TWO_63 && 0 <= Counter(prev, d) < TWO_63
    ensures Report(ComputeBPS(data, prev, tickAt, Some(prevAt)), d, tickAt, prevAt)
            == Max(0, Counter(data, d) - Counter(prev, d)) as real
  {
    var elapsed := Seconds(tickAt - prevAt);
    var increase := Wrap64(Counter(data, d) - Counter(prev, d));
    assert elapsed > 0.0;
    DifferenceIsExact(Counter(data, d), Counter(prev, d));
    assert Rate(ComputeBPS(data, prev, tickAt, Some(prevAt)), d) == NonNegative(increase as real / elapsed);
    RateTimesElapsed(increase, elapsed);
  }

  /** All that the enrichment does, for any inputs: the first broadcast and one without elapsed time stay as they
    * are; otherwise only the two rates change, to the increase modulo 2^64 as a signed number, or zero if that is
    * negative, divided by the elapsed seconds. */
  lemma RatesExactly(data: Stats, prev: Stats, tickAt: Time, prevAt: Option<Time>, d: Direction)
    ensures var r := ComputeBPS(data, prev, tickAt, prevAt);
            && r.uplink == data.uplink && r.downlink == data.downlink
            && if prevAt.None? || tickAt <= prevAt.value then r == data
               else
                 Rate(r, d) * ((tickAt - prevAt.value) as real / 1_000_000_000.0)
                 == Max(0, Wrap64(Counter(data, d) - Counter(prev, d))) as real
  {
    if prevAt.Some? && prevAt.value < tickAt {
      var elapsed := Seconds(tickAt - prevAt.value);
      var increase := Wrap64(Counter(data, d) - Counter(prev, d));
      assert Rate(ComputeBPS(data, prev, tickAt, prevAt), d) == NonNegative(increase as real / elapsed);
      RateTimesElapsed(increase, elapsed);
    }
  }

  /** The enrichment compares tick `n` with the tick sent last. */
  lemma EnrichedAgainstLastSent(ticks: seq<Tick<Stats>>, n: nat)
    requires n < |ticks| && ticks[n].outcome.Fetched?
    ensures Enriched(ticks, n, Some(ComputeBPS), NO_STATS) ==
            match PrevSent(ticks, n)
            case None => ticks[n].outcome.fetch.data
            case Some(p) =>
              ComputeBPS(ticks[n].outcome.fetch.data, ticks[p].outcome.fetch.data, ticks[n].at, Some(ticks[p].at))
  {
  }

  /** What the broadcast of tick `n` adds to the report: the increase since the tick sent last. */
  lemma BroadcastReportsIncrease(ticks: seq<Tick<Stats>>, n: nat, p: nat, d: Direction)
    requires n < |ticks| && IncreasingTimes(ticks) && ValidCounters(ticks)
    requires ticks[n].outcome.Fetched? && PrevSent(ticks, n) == Some(p)
    ensures Report(Enriched(ticks, n, Some(ComputeBPS), NO_STATS), d, ticks[n].at, ticks[p].at)
            == Max(0, Counter(ticks[n].outcome.fetch.data, d) - Counter(ticks[p].outcome.fetch.data, d)) as real
  {
    EnrichedAgainstLastSent(ticks, n);
    RateReportsIncrease(ticks[n].outcome.fetch.data, ticks[p].outcome.fetch.data, ticks[n].at, ticks[p].at, d);
  }

  /** In one loop run the reported rates account for every counted byte. */
  lemma {:induction false} RatesConserveBytes(ticks: seq<Tick<Stats>>, n: nat, d: Direction)
    requires n <= |ticks|
    requires IncreasingTimes(ticks) && ValidCounters(ticks) && JsonShowsCounters(ticks)
    ensures ReportedBytes(Broadcasts(StatsEvents(ticks, n)), d) == CountedBytes(Successes(ticks, n), d) as real
  {
    if n > 0 {
      var i := n - 1;
      RatesConserveBytes(ticks, i, d);
      match ticks[i].outcome {
        case Failed(_) =>
          BroadcastsOfOneTick(ticks, i);
        case Fetched(f) =>
          FetchedTickConserves(ticks, i, d);
      }
    }
  }

  lemma FetchedTickConserves(ticks: seq<Tick<Stats>>, i: nat, d: Direction)
    requires i < |ticks| && ticks[i].outcome.Fetched?
    requires IncreasingTimes(ticks) && ValidCounters(ticks) && JsonShowsCounters(ticks)
    requires ReportedBytes(Broadcasts(StatsEvents(ticks, i)), d) == CountedBytes(Successes(ticks, i), d) as real
    ensures ReportedBytes(Broadcasts(StatsEvents(ticks, i + 1)), d) == CountedBytes(Successes(ticks, i + 1), d) as real
  {
    var f := ticks[i].outcome.fetch;
    CountedOfOneMore(Successes(ticks, i), f, d);
    LastSuccess(ticks, i);
    LastFetchShown(ticks, i, d);
    if Sent(ticks, i) {
      SentTickReports(ticks, i, d);
    }
  }

  /** How the report grows with a tick that is sent. */
  lemma SentTickReports(ticks: seq<Tick<Stats>>, i: nat, d: Direction)
    requires i < |ticks| && Sent(ticks, i)
    requires IncreasingTimes(ticks) && ValidCounters(ticks)
    ensures ReportedBytes(Broadcasts(StatsEvents(ticks, i + 1)), d) ==
            match PrevSent(ticks, i)
            case None => 0.0
            case Some(p) =>
              ReportedBytes(Broadcasts(StatsEvents(ticks, i)), d)
              + Max(0, Counter(ticks[i].outcome.fetch.data, d) - Counter(ticks[p].outcome.fetch.data, d)) as real
  {
    var e := EventAt(ticks, i, Some(ComputeBPS), NO_STATS).value;
    BroadcastsOfOneMore(StatsEvents(ticks, i), e);
    ReportedOfOneMore(Broadcasts(StatsEvents(ticks, i)), e, d);
    LastBroadcastTick(ticks, i);
    match PrevSent(ticks, i) {
      case None =>
      case Some(p) => BroadcastReportsIncrease(ticks, i, p, d);
    }
  }

  predicate NeverFalls(fetched: seq<Fetch<Stats>>, d: Direction) {
    forall i :: 0 < i < |fetched| ==> Counter(fetched[i - 1].data, d) <= Counter(fetched[i].data, d)
  }

  lemma {:induction false} CountedTelescopes(fetched: seq<Fetch<Stats>>, d: Direction)
    requires fetched != [] && NeverFalls(fetched, d)
    ensures CountedBytes(fetched, d) == Counter(fetched[|fetched| - 1].data, d) - Counter(fetched[0].data, d)
  {
    if |fetched| > 1 {
      CountedTelescopes(fetched[..|fetched| - 1], d);
    }
  }

  /** A counter that never falls: the reported bytes are its last value minus its first. */
  lemma ReportedIsLastMinusFirst(ticks: seq<Tick<Stats>>, d: Direction)
    requires IncreasingTimes(ticks) && ValidCounters(ticks) && JsonShowsCounters(ticks)
    requires Successes(ticks, |ticks|) != [] && NeverFalls(Successes(ticks, |ticks|), d)
    ensures var fetched := Successes(ticks, |ticks|);
            ReportedBytes(Broadcasts(StatsEvents(ticks, |ticks|)), d)
            == (Counter(fetched[|fetched| - 1].data, d) - Counter(fetched[0].data, d)) as real
  {
    RatesConserveBytes(ticks, |ticks|, d);
    CountedTelescopes(Successes(ticks, |ticks|), d);
  }
}
