/** One run of the broadcaster's polling loop (sse/broadcaster.go, `loop`): which ticks become events, and
  * what each event carries.  The specification looks only at the history of ticks; the loop itself keeps
  * four variables. */
module PollLoop {
  import opened Prelude

  const MAX_CONSECUTIVE_ERRORS: nat := 3

  /** A failed fetch comes with what degradedFn would return on that tick (`None` if it panics); a fetched
    * payload comes with its marshaled bytes (`None` if marshaling fails). */
  datatype Outcome<T> = Failed(degraded: Option<T>) | Fetched(fetch: Fetch<T>)

  datatype Fetch<T> = Fetch(data: T, json: Option<Bytes>)

  datatype Tick<T> = Tick(at: Time, outcome: Outcome<T>)

  datatype Event<T> = Data(raw: T, shown: T, at: Time) | Degraded(payload: T)

  type Enrich<!T> = (T, T, Time, Option<Time>) -> T

  // ---------------------------------------------------------------- what a tick means, given the earlier ones

  function PrevSuccess<T>(ticks: seq<Tick<T>>, i: nat): (p: Option<nat>)
    requires i <= |ticks|
    ensures p.Some? ==> p.value < i && ticks[p.value].outcome.Fetched?
  {
    if i == 0 then None
    else if ticks[i - 1].outcome.Fetched? then Some(i - 1)
    else PrevSuccess(ticks, i - 1)
  }

  predicate SameJson<T>(a: Fetch<T>, b: Fetch<T>) {
    a.json.Some? && a.json == b.json
  }

  /** The payload of tick `i` marshals to the same bytes as the payload fetched last before it. */
  predicate Repeats<T>(ticks: seq<Tick<T>>, i: nat)
    requires i < |ticks|
  {
    var p := PrevSuccess(ticks, i);
    p.Some? && ticks[i].outcome.Fetched? && SameJson(ticks[p.value].outcome.fetch, ticks[i].outcome.fetch)
  }

  predicate Sent<T>(ticks: seq<Tick<T>>, i: nat)
    requires i < |ticks|
  {
    ticks[i].outcome.Fetched? && !Repeats(ticks, i)
  }

  function PrevSent<T>(ticks: seq<Tick<T>>, i: nat): (p: Option<nat>)
    requires i <= |ticks|
    ensures p.Some? ==> p.value < i && Sent(ticks, p.value)
  {
    if i == 0 then None
    else if Sent(ticks, i - 1) then Some(i - 1)
    else PrevSent(ticks, i - 1)
  }

  predicate Fails<T>(ticks: seq<Tick<T>>, i: int) {
    0 <= i < |ticks| && ticks[i].outcome.Failed?
  }

  /** Tick `i` is the third failure in a row, not a later one. */
  predicate ThirdFailure<T>(ticks: seq<Tick<T>>, i: nat) {
    Fails(ticks, i) && Fails(ticks, i - 1) && Fails(ticks, i - 2) && !Fails(ticks, i - 3)
  }

  /** Payload and time of the tick sent last before tick `i`. */
  function LastSent<T>(ticks: seq<Tick<T>>, i: nat, zero: T): (T, Option<Time>)
    requires i <= |ticks|
  {
    match PrevSent(ticks, i)
    case None => (zero, None)
    case Some(p) => (ticks[p].outcome.fetch.data, Some(ticks[p].at))
  }

  /** Marshaled bytes of the payload fetched last before tick `i`. */
  function LastJson<T>(ticks: seq<Tick<T>>, i: nat): Option<Bytes>
    requires i <= |ticks|
  {
    match PrevSuccess(ticks, i)
    case None => None
    case Some(p) => ticks[p].outcome.fetch.json
  }

  function Enriched<T>(ticks: seq<Tick<T>>, i: nat, enrich: Option<Enrich<T>>, zero: T): T
    requires i < |ticks| && ticks[i].outcome.Fetched?
  {
    var data := ticks[i].outcome.fetch.data;
    match enrich
    case None => data
    case Some(f) =>
      var (last, lastAt) := LastSent(ticks, i, zero);
      f(data, last, ticks[i].at, lastAt)
  }

  function EventAt<T>(ticks: seq<Tick<T>>, i: nat, enrich: Option<Enrich<T>>, zero: T): Option<Event<T>>
    requires i < |ticks|
  {
    match ticks[i].outcome
    case Failed(degraded) =>
      if ThirdFailure(ticks, i) && degraded.Some? then Some(Degraded(degraded.value)) else None
    case Fetched(Fetch(data, _)) =>
      if Sent(ticks, i) then Some(Data(data, Enriched(ticks, i, enrich, zero), ticks[i].at)) else None
  }

  /** The events of the first `n` ticks. */
  function EventsOf<T>(ticks: seq<Tick<T>>, n: nat, enrich: Option<Enrich<T>>, zero: T): seq<Event<T>>
    requires n <= |ticks|
  {
    if n == 0 then []
    else
      match EventAt(ticks, n - 1, enrich, zero)
      case None => EventsOf(ticks, n - 1, enrich, zero)
      case Some(e) => EventsOf(ticks, n - 1, enrich, zero) + [e]
  }

  // ---------------------------------------------------------------- the loop

  function FailuresBefore<T>(ticks: seq<Tick<T>>, i: nat): (k: nat)
    requires i <= |ticks|
    ensures k <= i
    ensures forall j :: i - k <= j < i ==> Fails(ticks, j)
    ensures !Fails(ticks, i - k - 1)
  {
    if i == 0 || ticks[i - 1].outcome.Fetched? then 0 else FailuresBefore(ticks, i - 1) + 1
  }

  /** The loop's local variables. */
  datatype Vars<T> = Vars(lastSnapshot: T, lastAt: Option<Time>, prevJSON: Option<Bytes>, consecutiveErrors: nat)

  /** Their values before tick `i`. */
  function VarsBefore<T>(ticks: seq<Tick<T>>, i: nat, zero: T): Vars<T>
    requires i <= |ticks|
  {
    var (last, lastAt) := LastSent(ticks, i, zero);
    Vars(last, lastAt, LastJson(ticks, i), FailuresBefore(ticks, i))
  }

  /** A failed fetch. */
  method FailedTick<T>(v: Vars<T>, degraded: Option<T>, ghost ticks: seq<Tick<T>>, ghost i: nat,
                       ghost enrich: Option<Enrich<T>>, ghost zero: T)
      returns (w: Vars<T>, event: Option<Event<T>>)
    requires i < |ticks| && ticks[i].outcome == Failed(degraded) && v == VarsBefore(ticks, i, zero)
    ensures w == VarsBefore(ticks, i + 1, zero) && event == EventAt(ticks, i, enrich, zero)
  {
    w := v.(consecutiveErrors := v.consecutiveErrors + 1);
    ThirdFailureCounts(ticks, i);
    event := None;
    if w.consecutiveErrors == MAX_CONSECUTIVE_ERRORS && degraded.Some? {
      event := Some(Degraded(degraded.value));
    }
  }

  /** A successful one: a repeat is dropped, anything else is enriched and sent. */
  method FetchedTick<T>(v: Vars<T>, data: T, currJSON: Option<Bytes>, enrich: Option<Enrich<T>>, tickAt: Time,
                        ghost ticks: seq<Tick<T>>, ghost i: nat, ghost zero: T)
      returns (w: Vars<T>, event: Option<Event<T>>)
    requires i < |ticks| && ticks[i] == Tick(tickAt, Fetched(Fetch(data, currJSON))) && v == VarsBefore(ticks, i, zero)
    ensures w == VarsBefore(ticks, i + 1, zero) && event == EventAt(ticks, i, enrich, zero)
  {
    RepeatsByJson(ticks, i);
    w := v.(consecutiveErrors := 0);
    if currJSON.None? {
      w := w.(prevJSON := None);
    } else if v.prevJSON.Some? && currJSON == v.prevJSON {
      return w, None;
    } else {
      w := w.(prevJSON := currJSON);
    }
    var broadcast := data;
    if enrich.Some? {
      broadcast := enrich.value(data, v.lastSnapshot, tickAt, v.lastAt);
    }
    w := w.(lastSnapshot := data, lastAt := Some(tickAt));
    event := Some(Data(data, broadcast, tickAt));
  }

  /** One round of the loop: the variables and the event, if any, are those that the tick history defines. */
  method OneTick<T>(v: Vars<T>, tick: Tick<T>, enrich: Option<Enrich<T>>, ghost ticks: seq<Tick<T>>, ghost i: nat,
                    ghost zero: T)
      returns (w: Vars<T>, event: Option<Event<T>>)
    requires i < |ticks| && tick == ticks[i] && v == VarsBefore(ticks, i, zero)
    ensures w == VarsBefore(ticks, i + 1, zero) && event == EventAt(ticks, i, enrich, zero)
    ensures event.Some? <==> IsNews(ticks, i) || IsReport(ticks, i)
    ensures event.Some? ==> Carries(event.value, tick, EventsOf(ticks, i, enrich, zero), enrich, zero)
  {
    EventCarries(ticks, i, enrich, zero);
    match tick.outcome {
      case Failed(degraded) => w, event := FailedTick(v, degraded, ticks, i, enrich, zero);
      case Fetched(Fetch(data, currJSON)) =>
        w, event := FetchedTick(v, data, currJSON, enrich, tick.at, ticks, i, zero);
    }
  }

  method Run<T>(ticks: seq<Tick<T>>, enrich: Option<Enrich<T>>, zero: T) returns (events: seq<Event<T>>)
    ensures events == EventsOf(ticks, |ticks|, enrich, zero)
    ensures exists at :: Lists(events, at, ticks, |ticks|, enrich, zero)
  {
    events := [];
    var v := Vars(zero, None, None, 0);
    for i := 0 to |ticks|
      invariant events == EventsOf(ticks, i, enrich, zero)
      invariant v == VarsBefore(ticks, i, zero)
    {
      var w, event := OneTick(v, ticks[i], enrich, ticks, i, zero);
      v := w;
      if event.Some? {
        events := events + [event.value];
      }
    }
    ghost var at := EventsAreListed(ticks, |ticks|, enrich, zero);
  }

  lemma RepeatsByJson<T>(ticks: seq<Tick<T>>, i: nat)
    requires i < |ticks| && ticks[i].outcome.Fetched?
    ensures Repeats(ticks, i) <==>
              ticks[i].outcome.fetch.json.Some? && LastJson(ticks, i) == ticks[i].outcome.fetch.json
  {
  }

  lemma ThirdFailureCounts<T>(ticks: seq<Tick<T>>, i: nat)
    requires Fails(ticks, i)
    ensures ThirdFailure(ticks, i) <==> FailuresBefore(ticks, i) == 2
  {
    var k := FailuresBefore(ticks, i);
    if k < 2 {
      assert !Fails(ticks, i - k - 1);
    }
    if k > 2 {
      assert Fails(ticks, i - 3);
    }
  }

  // ---------------------------------------------------------------- destuttering

  function Raws<T>(events: seq<Event<T>>): (r: seq<T>)
  {
    if events == [] then []
    else
      var last := events[|events| - 1];
      if last.Data? then Raws(events[..|events| - 1]) + [last.raw] else Raws(events[..|events| - 1])
  }

  /** The successful fetches among the first `n` ticks. */
  function Successes<T>(ticks: seq<Tick<T>>, n: nat): seq<Fetch<T>>
    requires n <= |ticks|
  {
    if n == 0 then []
    else if ticks[n - 1].outcome.Fetched? then Successes(ticks, n - 1) + [ticks[n - 1].outcome.fetch]
    else Successes(ticks, n - 1)
  }

  /** Consecutive repeats removed: an element stays unless it marshals like its predecessor. */
  function Destutter<T>(fetched: seq<Fetch<T>>): seq<T>
  {
    if fetched == [] then []
    else
      var n := |fetched| - 1;
      if n > 0 && SameJson(fetched[n - 1], fetched[n]) then Destutter(fetched[..n])
      else Destutter(fetched[..n]) + [fetched[n].data]
  }

  lemma {:induction false} LastSuccess<T>(ticks: seq<Tick<T>>, n: nat)
    requires n <= |ticks|
    ensures var p, fs := PrevSuccess(ticks, n), Successes(ticks, n);
            if p.None? then fs == [] else fs != [] && fs[|fs| - 1] == ticks[p.value].outcome.fetch
  {
    if n > 0 {
      LastSuccess(ticks, n - 1);
    }
  }

  lemma RawsOfOneMore<T>(before: seq<Event<T>>, e: Event<T>)
    ensures Raws(before + [e]) == if e.Data? then Raws(before) + [e.raw] else Raws(before)
  {
    assert (before + [e])[..|before|] == before;
  }

  lemma DestutterOfOneMore<T>(fs: seq<Fetch<T>>, f: Fetch<T>)
    ensures Destutter(fs + [f]) ==
            if fs != [] && SameJson(fs[|fs| - 1], f) then Destutter(fs) else Destutter(fs) + [f.data]
  {
    assert (fs + [f])[..|fs|] == fs;
  }

  /** The payloads of the ticks that are sent. */
  function SentData<T>(ticks: seq<Tick<T>>, n: nat): seq<T>
    requires n <= |ticks|
  {
    if n == 0 then []
    else if Sent(ticks, n - 1) then SentData(ticks, n - 1) + [ticks[n - 1].outcome.fetch.data]
    else SentData(ticks, n - 1)
  }

  lemma {:induction false} RawsAreSent<T>(ticks: seq<Tick<T>>, n: nat, enrich: Option<Enrich<T>>, zero: T)
    requires n <= |ticks|
    ensures Raws(EventsOf(ticks, n, enrich, zero)) == SentData(ticks, n)
  {
    if n > 0 {
      RawsAreSent(ticks, n - 1, enrich, zero);
      match EventAt(ticks, n - 1, enrich, zero) {
        case None =>
        case Some(e) => RawsOfOneMore(EventsOf(ticks, n - 1, enrich, zero), e);
      }
    }
  }

  lemma {:induction false} KeptAreSent<T>(ticks: seq<Tick<T>>, n: nat)
    requires n <= |ticks|
    ensures Destutter(Successes(ticks, n)) == SentData(ticks, n)
  {
    if n > 0 {
      KeptAreSent(ticks, n - 1);
      if ticks[n - 1].outcome.Fetched? {
        LastSuccess(ticks, n - 1);
        DestutterOfOneMore(Successes(ticks, n - 1), ticks[n - 1].outcome.fetch);
      }
    }
  }

  /** The raw payloads broadcast in one run are the successful fetches without consecutive repeats, no matter
    * which failures lie in between. */
  lemma BroadcastsAreDestuttered<T>(ticks: seq<Tick<T>>, n: nat, enrich: Option<Enrich<T>>, zero: T)
    requires n <= |ticks|
    ensures Raws(EventsOf(ticks, n, enrich, zero)) == Destutter(Successes(ticks, n))
  {
    RawsAreSent(ticks, n, enrich, zero);
    KeptAreSent(ticks, n);
  }

  lemma {:induction false} SuccessBeforeFailures<T>(ticks: seq<Tick<T>>, i: nat, j: nat)
    requires i < j <= |ticks| && ticks[i].outcome.Fetched? && forall k :: i < k < j ==> Fails(ticks, k)
    ensures PrevSuccess(ticks, j) == Some(i)
    decreases j
  {
    if i + 1 < j {
      assert Fails(ticks, j - 1);
      SuccessBeforeFailures(ticks, i, j - 1);
    }
  }

  /** The first success `j` after a run of failures, however long, announces the recovery exactly if it does not
    * marshal like the success `i` before them. */
  lemma RecoveryIsSentIff<T>(ticks: seq<Tick<T>>, i: nat, j: nat, enrich: Option<Enrich<T>>, zero: T)
    requires i < j < |ticks| && ticks[i].outcome.Fetched? && ticks[j].outcome.Fetched?
    requires forall k :: i < k < j ==> Fails(ticks, k)
    ensures EventAt(ticks, j, enrich, zero).Some? <==> !SameJson(ticks[i].outcome.fetch, ticks[j].outcome.fetch)
  {
    SuccessBeforeFailures(ticks, i, j);
  }

  // ---------------------------------------------------------------- degraded events

  /** Ticks `lo` to `hi` (exclusive) all fail, and the run cannot be extended on either side. */
  predicate MaximalFailureRun<T>(ticks: seq<Tick<T>>, lo: nat, hi: nat) {
    && lo < hi <= |ticks|
    && (forall j :: lo <= j < hi ==> Fails(ticks, j))
    && !Fails(ticks, lo - 1)
    && !Fails(ticks, hi)
  }

  predicate StartsLongRun<T>(ticks: seq<Tick<T>>, lo: nat) {
    exists hi :: lo + MAX_CONSECUTIVE_ERRORS <= hi <= |ticks| && MaximalFailureRun(ticks, lo, hi)
  }

  predicate DegradedFnReturns<T>(ticks: seq<Tick<T>>, i: nat) {
    Fails(ticks, i) && ticks[i].outcome.degraded.Some?
  }

  /** The maximal failure runs of length at least three, each named by its first tick, except those on whose
    * third tick degradedFn panicked. */
  ghost function ReportedRuns<T>(ticks: seq<Tick<T>>): set<nat> {
    set lo: nat | lo < |ticks| && StartsLongRun(ticks, lo) && DegradedFnReturns(ticks, lo + 2)
  }

  function DegradedCount<T>(events: seq<Event<T>>): nat {
    if events == [] then 0
    else DegradedCount(events[..|events| - 1]) + (if events[|events| - 1].Degraded? then 1 else 0)
  }

  lemma {:induction false} FailureRunEnds<T>(ticks: seq<Tick<T>>, lo: nat, hi: nat) returns (end: nat)
    requires lo < hi <= |ticks| && forall j :: lo <= j < hi ==> Fails(ticks, j)
    ensures hi <= end <= |ticks| && (forall j :: lo <= j < end ==> Fails(ticks, j)) && !Fails(ticks, end)
    decreases |ticks| - hi
  {
    if Fails(ticks, hi) {
      end := FailureRunEnds(ticks, lo, hi + 1);
    } else {
      end := hi;
    }
  }

  lemma ThirdFailureStartsLongRun<T>(ticks: seq<Tick<T>>, lo: nat)
    ensures StartsLongRun(ticks, lo) <==> ThirdFailure(ticks, lo + 2)
  {
    if ThirdFailure(ticks, lo + 2) {
      var end := FailureRunEnds(ticks, lo, lo + 3);
      assert MaximalFailureRun(ticks, lo, end);
    }
    if StartsLongRun(ticks, lo) {
      var hi :| lo + MAX_CONSECUTIVE_ERRORS <= hi <= |ticks| && MaximalFailureRun(ticks, lo, hi);
      assert Fails(ticks, lo) && Fails(ticks, lo + 1) && Fails(ticks, lo + 2);
    }
  }

  predicate ReportsAt<T>(ticks: seq<Tick<T>>, lo: nat) {
    ThirdFailure(ticks, lo + 2) && DegradedFnReturns(ticks, lo + 2)
  }

  ghost function ReportedBefore<T>(ticks: seq<Tick<T>>, n: nat): set<nat> {
    set lo: nat | lo < n && lo + 2 < n && ReportsAt(ticks, lo)
  }

  lemma CountOfOneMore<T>(before: seq<Event<T>>, e: Event<T>)
    ensures DegradedCount(before + [e]) == DegradedCount(before) + (if e.Degraded? then 1 else 0)
  {
    assert (before + [e])[..|before|] == before;
  }

  lemma {:induction false} DegradedCountUpTo<T>(ticks: seq<Tick<T>>, n: nat, enrich: Option<Enrich<T>>, zero: T)
    requires n <= |ticks|
    ensures DegradedCount(EventsOf(ticks, n, enrich, zero)) == |ReportedBefore(ticks, n)|
  {
    if n == 0 {
      assert ReportedBefore(ticks, n) == {};
    } else {
      var before := EventsOf(ticks, n - 1, enrich, zero);
      var now := EventAt(ticks, n - 1, enrich, zero);
      DegradedCountUpTo(ticks, n - 1, enrich, zero);
      if now.Some? {
        CountOfOneMore(before, now.value);
      }
      ReportedOneMore(ticks, n - 1);
    }
  }

  lemma ReportedOneMore<T>(ticks: seq<Tick<T>>, n: nat)
    ensures |ReportedBefore(ticks, n + 1)| ==
            |ReportedBefore(ticks, n)| + (if ThirdFailure(ticks, n) && DegradedFnReturns(ticks, n) then 1 else 0)
  {
    if ThirdFailure(ticks, n) && DegradedFnReturns(ticks, n) {
      assert ReportsAt(ticks, n - 2);
      assert ReportedBefore(ticks, n + 1) == ReportedBefore(ticks, n) + {n - 2};
    } else {
      assert ReportedBefore(ticks, n + 1) == ReportedBefore(ticks, n);
    }
  }

  /** One degraded event per maximal failure run of length at least three (whose degradedFn call returned). */
  lemma OneDegradedEventPerLongRun<T>(ticks: seq<Tick<T>>, enrich: Option<Enrich<T>>, zero: T)
    ensures DegradedCount(EventsOf(ticks, |ticks|, enrich, zero)) == |ReportedRuns(ticks)|
  {
    DegradedCountUpTo(ticks, |ticks|, enrich, zero);
    forall lo: nat ensures lo in ReportedRuns(ticks) <==> lo in ReportedBefore(ticks, |ticks|) {
      ThirdFailureStartsLongRun(ticks, lo);
    }
    assert ReportedRuns(ticks) == ReportedBefore(ticks, |ticks|);
  }

  // ---------------------------------------------------------------- the whole list of events

  /** Tick `i` fetched a payload, and the fetch before it, whatever failed in between, did not marshal to the same
    * bytes. */
  predicate IsNews<T>(ticks: seq<Tick<T>>, i: nat) {
    && i < |ticks| && ticks[i].outcome.Fetched?
    && !exists j :: 0 <= j < i && ticks[j].outcome.Fetched? && (forall k :: j < k < i ==> ticks[k].outcome.Failed?)
                    && ticks[j].outcome.fetch.json.Some?
                    && ticks[j].outcome.fetch.json == ticks[i].outcome.fetch.json
  }

  /** Tick `i` is the third one of a long run of failures, and degradedFn returned on it. */
  ghost predicate IsReport<T>(ticks: seq<Tick<T>>, i: nat) {
    i >= 2 && i - 2 in ReportedRuns(ticks)
  }

  /** Raw payload and time of the newest data event. */
  function Newest<T>(events: seq<Event<T>>, zero: T): (T, Option<Time>) {
    if events == [] then (zero, None)
    else
      match events[|events| - 1]
      case Data(raw, _, at) => (raw, Some(at))
      case Degraded(_) => Newest(events[..|events| - 1], zero)
  }

  /** Event `e` reports the tick: what degradedFn returned on it, or what it fetched, enriched with the newest data
    * event before it. */
  predicate Carries<T(==)>(e: Event<T>, tick: Tick<T>, before: seq<Event<T>>, enrich: Option<Enrich<T>>, zero: T) {
    match tick.outcome
    case Failed(degraded) => degraded.Some? && e == Degraded(degraded.value)
    case Fetched(Fetch(data, _)) =>
      var (last, lastAt) := Newest(before, zero);
      && e.Data? && e.raw == data && e.at == tick.at
      && e.shown == if enrich.Some? then enrich.value(data, last, tick.at, lastAt) else data
  }

  /** The ticks with news and the reported failures among the first `n`, in order. */
  ghost predicate Reported<T>(at: seq<nat>, ticks: seq<Tick<T>>, n: nat) {
    && Increasing(at)
    && (forall i: nat :: i in at <==> i < n && i < |ticks| && (IsNews(ticks, i) || IsReport(ticks, i)))
  }

  predicate CarriesAll<T(==)>(events: seq<Event<T>>, at: seq<nat>, ticks: seq<Tick<T>>, enrich: Option<Enrich<T>>,
                              zero: T) {
    && |at| == |events|
    && forall k :: 0 <= k < |at| ==> at[k] < |ticks| && Carries(events[k], ticks[at[k]], events[..k], enrich, zero)
  }

  /** The events report exactly those ticks. */
  ghost predicate Lists<T>(events: seq<Event<T>>, at: seq<nat>, ticks: seq<Tick<T>>, n: nat,
                           enrich: Option<Enrich<T>>, zero: T) {
    Reported(at, ticks, n) && CarriesAll(events, at, ticks, enrich, zero)
  }

  lemma {:induction false} PrevSuccessIsLast<T>(ticks: seq<Tick<T>>, i: nat)
    requires i <= |ticks|
    ensures forall k :: (if PrevSuccess(ticks, i).Some? then PrevSuccess(ticks, i).value + 1 else 0) <= k < i ==>
              ticks[k].outcome.Failed?
  {
    if i > 0 && ticks[i - 1].outcome.Failed? {
      PrevSuccessIsLast(ticks, i - 1);
    }
  }

  lemma NewsIsSent<T>(ticks: seq<Tick<T>>, i: nat)
    requires i < |ticks|
    ensures IsNews(ticks, i) <==> Sent(ticks, i)
  {
    PrevSuccessIsLast(ticks, i);
    if ticks[i].outcome.Fetched? && !IsNews(ticks, i) {
      var j :| && 0 <= j < i && ticks[j].outcome.Fetched? && (forall k :: j < k < i ==> ticks[k].outcome.Failed?)
               && ticks[j].outcome.fetch.json.Some? && ticks[j].outcome.fetch.json == ticks[i].outcome.fetch.json;
      SuccessBeforeFailures(ticks, j, i);
    }
  }

  lemma ReportIsThirdFailure<T>(ticks: seq<Tick<T>>, i: nat)
    requires i < |ticks|
    ensures IsReport(ticks, i) <==> ThirdFailure(ticks, i) && ticks[i].outcome.degraded.Some?
  {
    if i >= 2 {
      ThirdFailureStartsLongRun(ticks, i - 2);
    }
  }

  lemma NewestOfOneMore<T>(before: seq<Event<T>>, e: Event<T>, zero: T)
    ensures Newest(before + [e], zero) == if e.Data? then (e.raw, Some(e.at)) else Newest(before, zero)
  {
    assert (before + [e])[..|before|] == before;
  }

  lemma {:induction false} NewestIsLastSent<T>(ticks: seq<Tick<T>>, n: nat, enrich: Option<Enrich<T>>, zero: T)
    requires n <= |ticks|
    ensures Newest(EventsOf(ticks, n, enrich, zero), zero) == LastSent(ticks, n, zero)
  {
    if n > 0 {
      NewestIsLastSent(ticks, n - 1, enrich, zero);
      match EventAt(ticks, n - 1, enrich, zero) {
        case None =>
        case Some(e) => NewestOfOneMore(EventsOf(ticks, n - 1, enrich, zero), e, zero);
      }
    }
  }

  lemma EventCarries<T>(ticks: seq<Tick<T>>, i: nat, enrich: Option<Enrich<T>>, zero: T)
    requires i < |ticks|
    ensures var e := EventAt(ticks, i, enrich, zero);
            && (e.Some? <==> IsNews(ticks, i) || IsReport(ticks, i))
            && (e.Some? ==> Carries(e.value, ticks[i], EventsOf(ticks, i, enrich, zero), enrich, zero))
  {
    NewsIsSent(ticks, i);
    ReportIsThirdFailure(ticks, i);
    NewestIsLastSent(ticks, i, enrich, zero);
  }

  lemma ReportedOfOneMoreTick<T>(at: seq<nat>, ticks: seq<Tick<T>>, n: nat)
    requires n < |ticks| && Reported(at, ticks, n)
    ensures Reported(if IsNews(ticks, n) || IsReport(ticks, n) then at + [n] else at, ticks, n + 1)
  {
    forall i | 0 <= i < |at| ensures at[i] < n {
      assert at[i] in at;
    }
  }

  lemma CarriesOneMore<T>(events: seq<Event<T>>, at: seq<nat>, ticks: seq<Tick<T>>, n: nat, e: Event<T>,
                          enrich: Option<Enrich<T>>, zero: T)
    requires n < |ticks| && CarriesAll(events, at, ticks, enrich, zero) && Carries(e, ticks[n], events, enrich, zero)
    ensures CarriesAll(events + [e], at + [n], ticks, enrich, zero)
  {
    forall k | 0 <= k <= |at| ensures (events + [e])[..k] == if k < |at| then events[..k] else events {
    }
  }

  lemma ListOfOneMore<T>(events: seq<Event<T>>, at: seq<nat>, ticks: seq<Tick<T>>, n: nat, e: Option<Event<T>>,
                         enrich: Option<Enrich<T>>, zero: T)
      returns (more: seq<nat>)
    requires n < |ticks| && Lists(events, at, ticks, n, enrich, zero)
    requires e.Some? <==> IsNews(ticks, n) || IsReport(ticks, n)
    requires e.Some? ==> Carries(e.value, ticks[n], events, enrich, zero)
    ensures Lists(if e.Some? then events + [e.value] else events, more, ticks, n + 1, enrich, zero)
  {
    more := if e.Some? then at + [n] else at;
    ReportedOfOneMoreTick(at, ticks, n);
    if e.Some? {
      CarriesOneMore(events, at, ticks, n, e.value, enrich, zero);
    }
  }

  lemma {:induction false} EventsAreListed<T>(ticks: seq<Tick<T>>, n: nat, enrich: Option<Enrich<T>>, zero: T)
      returns (at: seq<nat>)
    requires n <= |ticks|
    ensures Lists(EventsOf(ticks, n, enrich, zero), at, ticks, n, enrich, zero)
  {
    if n == 0 {
      at := [];
    } else {
      var e := EventAt(ticks, n - 1, enrich, zero);
      at := EventsAreListed(ticks, n - 1, enrich, zero);
      EventCarries(ticks, n - 1, enrich, zero);
      at := ListOfOneMore(EventsOf(ticks, n - 1, enrich, zero), at, ticks, n - 1, e, enrich, zero);
    }
  }

  /** No other list of events reports the same ticks. */
  lemma {:induction false} ListIsUnique<T>(es: seq<Event<T>>, fs: seq<Event<T>>, at: seq<nat>, bt: seq<nat>,
                                           ticks: seq<Tick<T>>, n: nat, enrich: Option<Enrich<T>>, zero: T)
    requires Lists(es, at, ticks, n, enrich, zero) && Lists(fs, bt, ticks, n, enrich, zero)
    ensures es == fs && at == bt
  {
    IncreasingIsUnique(at, bt);
    SameUpTo(es, fs, at, ticks, |at|, enrich, zero);
    assert es[..|at|] == es && fs[..|at|] == fs;
  }

  lemma {:induction false} SameUpTo<T>(es: seq<Event<T>>, fs: seq<Event<T>>, at: seq<nat>, ticks: seq<Tick<T>>, m: nat,
                                       enrich: Option<Enrich<T>>, zero: T)
    requires m <= |at| && CarriesAll(es, at, ticks, enrich, zero) && CarriesAll(fs, at, ticks, enrich, zero)
    ensures es[..m] == fs[..m]
  {
    if m > 0 {
      SameUpTo(es, fs, at, ticks, m - 1, enrich, zero);
      assert es[m - 1] == fs[m - 1];
      assert es[..m] == es[..m - 1] + [es[m - 1]] && fs[..m] == fs[..m - 1] + [fs[m - 1]];
    }
  }
}
