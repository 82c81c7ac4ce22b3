# A verified model of the Xray manager's concurrent core

The manager is a Go web server in front of an Xray proxy.  This project models the parts of it that carry state
across goroutines and requests, and proves in Dafny 4.11 what they guarantee over every run:

* **The statistics broadcaster** (`BroadcasterProtocol`, `BroadcasterSafety`, `BroadcasterTheorems`,
  `BroadcasterTimers`, `BroadcasterChanges`, `BroadcasterMethods`).  A state machine in which one action is one critical section, one end
  of a wait, one snapshot, one firing of a timer or one channel send, with any number of clients, timers and loops
  interleaving freely.  The class `Broadcaster` writes the critical sections out statement by statement and is proved
  to perform those actions; the theorems are about all reachable states and all runs.
* **One run of its polling loop** (`PollLoop`, `StatsRates`, `CombinedStats`): which ticks become events, what the
  events carry, and what the reported byte rates add up to.  `BroadcasterEvents` joins it to the state machine.
* **The two rate limiters** (`RateRules`, `RateLimit`, `RateSlides`, `RateLimitTightness`, `RateLimitCap`,
  `RateLimiterMethods`; `AuthLimit`, `AuthLimitTightness`, `AuthVisits`, `AuthLimiterMethods`): bounds over every history of requests of any
  number of addresses, with background cleanup and capacity evictions interleaved, and the classes that update maps
  of pointers in place.
* **Reading logs** (`SearchText`, `LogTail`, `LogFileReader`, `JournalReader`): a pooled ring buffer and a backward
  scan that both yield the last matching lines, byte trimming, and truncation to valid UTF-8 (RFC 3629, section 4).
* **The observatory cache** (`ObsCache`, `ObsServerMethods`): a short-lived cache behind one shared flight, cleared by
  switches.
* **The event stream** (`SseWire`, `SseWriter`): what is written, and that a client that follows section 9.2.6 of
  the WHATWG HTML Standard reads back exactly the payloads.

`Prelude`, `Picking`, `Middleware` and `Intervals` hold shared vocabulary.  `dafny verify dfyconfig.toml` checks everything.

## How the source is read

* Readings of the clock are parameters that never decrease in the order in which the lock is held; durations are
  integers in nanoseconds.  The 10 s idle time is not measured: an armed timer may fire at any moment, which covers
  every schedule.
* The order in which Go iterates over a map is a parameter (`order`, `victim`) or a nondeterministic choice.
* `strings.ToLower`, time stamps, marshaling, fetching and enriching are parameters or arbitrary values.
* The limiter's comparison `prev*overlap + curr >= limit` is a parameter, and the theorems name the properties of it
  that they need (`RateRules`).  `Exact` is that comparison multiplied by the window, in integers; `Rounded` is the
  source's float64 expression, with or without a fused multiply-add.  Both are shown to have those properties:
  `Rounded` for every order-keeping rounding, or for double precision in the range that a row names, which
  the deployed limit of 100 in one minute is in.  Only a weighted count that is exactly the limit may be decided
  differently by the two (`RoundedSlides`).  Byte rates are exact reals.
* A method that the source interrupts by releasing its lock is split there (`SubscribeEnter`/`SubscribeWake`,
  `StopEnter`/`StopFinish`); other long bodies are split into consecutive parts.
* A polling loop may crash (a panic outside its recovered callbacks) at any tick before its fan-out.  Safety holds
  all the same; `ServedUnlessCrashed` excludes it, and `ServedIff` and `CrashServesNobody` say what it costs.

Where code and comments disagree, the model follows the code:

* `sse/broadcaster.go:134-137` says that another Subscribe may have changed the generation.  Only Stop does (line
  79): that branch is unreachable (`GenerationChangesOnlyByStop`), and what keeps a second loop from starting is
  that the parked subscriber's own channel stays registered (`ParkedInv`).
* `sse/broadcaster.go:160-163` says that only Stop closes channels.  Subscribe also does, at lines 115 and 149
  (`ClosesExactly`, `BornClosedExactly`), and a Subscribe that is parked while Stop makes its final pass closes its
  channel a second time, which panics (`ClosedTwiceExactlyOnOverlap`, `OverlapClosesTwice`).
* `server/handlerlog.go:72-74` says that an incomplete sequence is stripped in one step.  It goes byte by byte
  (`IncompleteStripsOneByte`); the result is the same.
* `server/handleroutbound.go:313-316` says that the cache is only written when it is stale.  A call that misses just
  before another flight lands starts one of its own and can write into a fresh cache (`MissMeetsFreshCache`); the
  claim holds of a flight exactly if the cache is stale when the flight begins (`WritesIntoFreshIff`).
* `server/handleroutbound.go:278-281` promises that the next status check after a switch reflects the new state.  It
  never returns a list stored before the switch (`AnswersAreFresh`), but a fetch that was in the air during the
  switch is stored afterwards and may be returned, exactly then (`OldFetchReturnsIffInTheAir`).
* `middleware/ratelimit.go:128-130` says that evictOldest makes room by removing the oldest entry.  The empty key is
  also its mark for "none found"; `EvictionRemovesAnOldestIff` and `SentinelDefeatsEvictionIff` say exactly when it
  removes an oldest entry and when none, and `SizeStaysCappedIff` and `CapIsNotKept` what that does to the cap.  The
  key is empty when a trusted proxy sends an address header of white space that the HTTP server does not trim itself,
  such as U+00A0 (`middleware/logger.go:70-80`).

## Model

| member | source | states |
|---|---|---|
| BroadcasterTheorems.AtMostOneLoop | sse/broadcaster.go:125-156 | in every reachable state at most one polling loop is live, and `loopDone` is its done channel |
| BroadcasterTheorems.GenerationChangesOnlyByStop | sse/broadcaster.go:134-151 | a parked Subscribe finds the generation changed exactly if the broadcaster was stopped, so the branch "changed but not stopped" is unreachable |
| BroadcasterTheorems.NeverSendsOnClosedChannel | sse/broadcaster.go:286-294 | no fan-out of any interleaving ever sends on a closed channel |
| BroadcasterTheorems.ClosesOnlyAfterLastLoop | sse/broadcaster.go:84-103 | an existing channel is closed only after Stop was called and no loop is live any more; once stopped, no loop starts |
| BroadcasterTheorems.ClosedOnceBeforeFinalPass | sse/broadcaster.go:97-102 | before Stop's final pass no channel has been closed twice |
| BroadcasterTheorems.ClosedTwiceExactlyOnOverlap | sse/broadcaster.go:97-102 | once every parked Subscribe has returned, some channel was closed twice exactly if a Subscribe was parked when Stop's final pass ran |
| BroadcasterTheorems.OverlapClosesTwice | sse/broadcaster.go:138-151 | such an overlap is reachable: a run in which line 149 closes a closed channel |
| BroadcasterTheorems.NoLostStart | sse/broadcaster.go:125-156 | while not stopped and with subscribers, `stopCh` is set or exactly one Subscribe is parked, and waking it starts a live loop with its channel still subscribed |
| BroadcasterTheorems.ServedUnlessCrashed | sse/broadcaster.go:125-184 | in a run without a loop panic, subscribers always have a live loop that was not told to stop, or one parked Subscribe about to start it |
| BroadcasterTheorems.ServedIff | sse/broadcaster.go:125-184 | with panics: while not stopped, subscribers have a live loop that was not told to stop, or a parked Subscribe about to start one, exactly unless `stopCh` names a loop that has exited |
| BroadcasterTheorems.CrashServesNobody | sse/broadcaster.go:204-210 | after such a panic no loop starts and nothing is emitted, whoever subscribes, until Stop or an idle timer's callback runs |
| BroadcasterTheorems.NoStuckWait | sse/broadcaster.go:84-95 | whoever waits on a done channel waits for a loop whose stop channel is closed, and that loop can reach its exit by its own moves alone |
| BroadcasterTheorems.IdleLoopIsStopped | sse/broadcaster.go:168-184 | a loop without subscribers always has its idle timer pending, whose callback closes the loop's stop channel if nobody subscribed meanwhile |
| BroadcasterTimers.StopsIdleLoopIff | sse/broadcaster.go:168-184 | whatever the timer field refers to, each timer can stop an idle loop exactly if it was not cancelled in time and its callback has not run |
| BroadcasterTimers.SpentStaysSpent | sse/broadcaster.go:118-123 | a timer that was cancelled in time or whose callback has run never acts again, in any continuation |
| BroadcasterTimers.StrayTimerStopsLoop | sse/broadcaster.go:168-184 | a reachable state with two armed timers, one of which the broadcaster no longer refers to; either can stop the running loop |
| BroadcasterChanges.TimerChangesExactly | sse/broadcaster.go:80-83 | who is cancelled, fires and finishes: an armed timer is cancelled exactly if the field refers to it and Stop, or a Subscribe that is not turned away, comes; it fires and finishes exactly by its own two actions |
| BroadcasterChanges.TimerFieldChangesExactly | sse/broadcaster.go:168-184 | a timer is made exactly by an Unsubscribe that leaves nobody while a loop runs and the field is empty; the field is emptied exactly by Stop, Subscribe and any callback |
| BroadcasterChanges.TakenBackNeverActs | sse/broadcaster.go:118-123 | a timer that Subscribe or Stop finds armed in the field acts in no continuation |
| BroadcasterChanges.LoopsChangeExactly | sse/broadcaster.go:125-184 | a loop starts exactly by the first subscriber, at once or at the end of its wait; the running one is told to stop exactly by Stop or by a callback that finds nobody subscribed |
| BroadcasterTheorems.HandedInOrder | sse/broadcaster.go:109-110 | each subscriber is handed a subsequence of the emitted payloads, in order, across all loop restarts, with at most five queued |
| BroadcasterTheorems.CachedPayloadIsNewest | sse/broadcaster.go:279-282 | what LastBroadcast answers is the newest data event emitted, or the one whose fan-out is about to start, and nothing before the first |
| BroadcasterTheorems.MembershipChangesExactly | sse/broadcaster.go:109-167 | a channel is subscribed after a step exactly if it entered by an unstopped Subscribe or was subscribed and left neither by its own Unsubscribe, nor by Stop's final pass, nor by waking up stopped |
| BroadcasterTheorems.ClosesExactly | sse/broadcaster.go:97-151 | a step closes an existing channel, once, exactly if it is Stop's final pass over a subscribed one or that channel's own Subscribe waking up stopped |
| BroadcasterTheorems.BornClosedExactly | sse/broadcaster.go:110-117 | only Subscribe makes channels, and it makes a closed one exactly if stopped |
| BroadcasterTheorems.RoomAtSnapshotMeansDelivery | sse/broadcaster.go:286-294 | a subscriber with room in its queue when a snapshot is taken gets that event, whatever interleaves with the fan-out |
| BroadcasterTheorems.FanOutAccounts | sse/broadcaster.go:286-298 | every data fan-out delivers or counts as dropped one message per entry of its snapshot |
| BroadcasterChanges.QueuesChangeExactly | sse/broadcaster.go:286-294 | a channel is handed an event exactly if it is being sent to it and fewer than five are waiting; the client takes the oldest exactly by receiving |
| BroadcasterChanges.DropsChangeExactly | sse/broadcaster.go:249-298 | a data event that finds five waiting counts as dropped, a degraded one does not; the end of a fan-out leaves the counter at zero |
| BroadcasterTheorems.AtMostOneEventAfterUnsubscribe | sse/broadcaster.go:164-167 | in every continuation after Unsubscribe at most one further event enters the channel, and it is the newest one emitted before |
| BroadcasterEvents.DecideTick | sse/broadcaster.go:217-282 | one round of the loop body over its four variables ends in the move that the tick history demands, and leaves the variables it demands |
| BroadcasterEvents.DecideAll | sse/broadcaster.go:213-300 | so do all rounds of a loop, one after another, which is the hypothesis of the next two rows |
| BroadcasterEvents.LoopEmitsItsEvents | sse/broadcaster.go:204-300 | in any interleaving in which a loop decides each tick as its body does, what it has fanned out, in order, are exactly the events of its ticks, but for one that it may be about to fan out |
| BroadcasterEvents.HandedFromOneLoop | sse/broadcaster.go:286-294 | under the same hypothesis each subscriber is handed, of one loop run, a subsequence of the events of that loop's ticks, in order |
| BroadcasterSafety.StepKeepsInv | sse/broadcaster.go:75-300 | every action of every client, timer and loop keeps the invariant behind these theorems |
| BroadcasterMethods.Broadcaster.constructor | sse/broadcaster.go:56-64 | a new broadcaster is the initial state of the protocol |
| BroadcasterMethods.Broadcaster.SubscribeEnter | sse/broadcaster.go:109-141 | Subscribe up to its return or its wait is the protocol's action: it cancels a pending idle timer unless it is turned away, and waits exactly if nobody is subscribed, no loop is running and an earlier loop existed |
| BroadcasterMethods.Broadcaster.SubscribeWake | sse/broadcaster.go:142-157 | Subscribe after its wait is the protocol's action; it panics, and does not return its channel, exactly if it was stopped and Stop has closed that channel |
| BroadcasterMethods.Broadcaster.Unsubscribe | sse/broadcaster.go:164-169 | Unsubscribe is the protocol's action: a new idle timer is armed exactly if nobody is left, a loop runs and the timer field is empty |
| BroadcasterMethods.Broadcaster.OnIdleTimer | sse/broadcaster.go:169-184 | the timer callback, cancelled or not, is the protocol's action |
| BroadcasterMethods.Broadcaster.StopEnter | sse/broadcaster.go:77-90 | Stop's first critical section is the protocol's action; it cancels a pending idle timer |
| BroadcasterMethods.Broadcaster.StopFinish | sse/broadcaster.go:97-102 | the closing loop closes every subscribed channel once and no other, in any order of the map |
| BroadcasterMethods.Broadcaster.SnapshotSubscribers | sse/broadcaster.go:194-202 | the snapshot lists every subscriber exactly once |
| BroadcasterMethods.Broadcaster.SendOne | sse/broadcaster.go:288-294 | the non-blocking send is the protocol's action |
| BroadcasterMethods.Broadcaster.Publish | sse/broadcaster.go:279-282 | the payload is cached for LastBroadcast before the snapshot is taken |
| BroadcasterMethods.Broadcaster.BeginFanOut | sse/broadcaster.go:284-287 | the fan-out works on a snapshot of all subscribers, taken once |
| BroadcasterMethods.Broadcaster.EndFanOut | sse/broadcaster.go:296-298 | the dropped messages of the fan-out are read and the counter is reset |
| BroadcasterMethods.Broadcaster.LastBroadcast | sse/broadcaster.go:68-72 | the newest data event emitted, or the one whose fan-out is about to start |
| PollLoop.OneTick | sse/broadcaster.go:217-282 | one round yields the variables that the tick history defines, and an event exactly if the tick has news or is the reported one of a long failure run; the event carries what degradedFn returned, or what was fetched, enriched with the newest data event before |
| PollLoop.Run | sse/broadcaster.go:204-300 | the loop with its four variables emits exactly the events that the tick history defines, which report exactly those ticks, in order |
| PollLoop.EventCarries | sse/broadcaster.go:229-282 | the event of one tick, stated without the function that defines it |
| PollLoop.EventsAreListed | sse/broadcaster.go:213-300 | the whole list of events: one for each tick with news or a reported failure, in order, carrying what that tick fetched or what degradedFn returned on it |
| PollLoop.ListIsUnique | sse/broadcaster.go:213-300 | that determines the list |
| PollLoop.BroadcastsAreDestuttered | sse/broadcaster.go:262-275 | the raw payloads broadcast are the successful fetches without consecutive equal-JSON repeats, whatever failures lie between; what cannot be marshaled is always sent |
| PollLoop.ThirdFailureStartsLongRun | sse/broadcaster.go:229-233 | a third failure in a row is one exactly if a maximal failure run of length at least three begins two ticks earlier |
| PollLoop.OneDegradedEventPerLongRun | sse/broadcaster.go:229-257 | there is one degraded event per maximal failure run of length at least three whose degradedFn call returned |
| PollLoop.RecoveryIsSentIff | sse/broadcaster.go:262-270 | the first success after a run of failures is sent exactly if it does not marshal like the success before them |
| StatsRates.RateReportsIncrease | server/handlerstats.go:320-339 | rate times elapsed seconds is the increase of the counter, or zero if it fell |
| StatsRates.RatesExactly | server/handlerstats.go:318-339 | for any inputs: counters stay, the first sample and one without elapsed time stay as they are, and otherwise a rate times elapsed seconds is the increase as an int64, or zero if that is negative |
| StatsRates.RatesConserveBytes | sse/broadcaster.go:262-279 | over one loop run, reported rates times elapsed times add up to the increases between successive successful fetches, despite repeats and failures |
| StatsRates.ReportedIsLastMinusFirst | server/handlerstats.go:318-339 | if the counter never falls, that sum is its last value minus its first |
| CombinedStats.DirectionsAreDisjoint | server/handlerstats.go:274-279 | no counter name counts for both directions |
| CombinedStats.SumTraffic | server/handlerstats.go:272-281 | each total is the exact sum of the counters with that suffix, as an int64 |
| CombinedStats.CountersAddExactly | server/handlerstats.go:274-279 | a counter adds exactly its value to the first total if its name ends in ">>>traffic>>>uplink", to the second if in ">>>traffic>>>downlink", and to no other |
| CombinedStats.TotalIsOrderFree | server/handlerstats.go:273-280 | the totals do not depend on the order in which the service lists its counters |
| CombinedStats.GetCombinedStats | server/handlerstats.go:257-304 | a sample is refused exactly if a source was canceled or both failed; degraded exactly if one failed, with zeros for what it would have told |
| RateLimit.AtMostTwiceTheLimit | middleware/ratelimit.go:79-118 | a key that is not evicted has at most 2*limit accepted requests in any half-open window, for every history of all keys and cleanups, and every comparison that refuses a full window |
| RateRules.RoundedHonoursLimit | middleware/ratelimit.go:111-116 | the comparison in floating point refuses a full window, in every order-keeping rounding |
| RateRules.RoundedRefusesOnlyFull | middleware/ratelimit.go:111-116 | in double precision, with a limit of at most 2^53, what it refuses has counts that together reach the limit |
| RateRules.RoundedFades | middleware/ratelimit.go:99-116 | in double precision, with a limit of at most 2^53 and a window of at most 2^51 ns, just after a roll only a full previous window is refused, and only at the very start |
| RateRules.RoundedLeavesRoom | middleware/ratelimit.go:111-116 | with such a window at least twice as long, in nanoseconds, as the limit, a previous window that has faded or is about to leaves the whole limit free |
| RateSlides.RoundedNearlySlides | middleware/ratelimit.go:111-116 | in double precision the comparison refuses whatever weighs more than the limit, and accepts whatever weighs less, by (4*prev + curr) / 2^53, anywhere in the window |
| RateSlides.RoundedSlides | middleware/ratelimit.go:111-116 | so for 5*limit*window below 2^53, the deployed values among them, only a weight equal to the limit may go either way |
| RateSlides.RefusedAtTheLimit | middleware/ratelimit.go:94-117 | in every reachable state a request is refused only while the weighted count is between the limit and one above, and accepted only while it is not above the limit |
| RateSlides.RegainsLinearly | middleware/ratelimit.go:103-117 | after a full window a key regains its limit linearly: e after the roll a request is refused only if limit*e/window requests have been accepted since, accepted only if not more, and never more than one beyond |
| RateLimit.AtMostTwiceTheLimitRounded | middleware/ratelimit.go:79-118 | so the bound holds in floating point |
| RateLimit.BelowTwiceInShortWindows | middleware/ratelimit.go:94-117 | with the exact comparison and a window no longer than the limit, in nanoseconds, a key stays below 2*limit |
| RateLimitTightness.TwiceTheLimitIsReached | middleware/ratelimit.go:94-117 | for every comparison that leaves that room some run accepts exactly 2*limit within one window |
| RateLimitTightness.TwiceTheLimitIsReachedRounded | middleware/ratelimit.go:94-117 | so in floating point the bound is attained, for every positive limit and every window from twice the limit to 2^51 ns |
| RateLimitTightness.TwiceTheLimitIsReachedIff | middleware/ratelimit.go:94-117 | with the exact comparison and a positive limit, 2*limit is reached exactly if the window is longer than the limit |
| RateLimit.NonPositiveLimitIsExceeded | middleware/ratelimit.go:86-92 | with a limit of zero or less the first request is still accepted, so the bound needs its positive part |
| RateLimit.AcceptedAfterOneWindow | middleware/ratelimit.go:94-117 | in every reachable state a request more than one window after the key's window began is accepted, except at exactly two windows with a full old count; for the exact comparison and the floating-point one |
| RateLimit.RefusedOnlyAfterLimit | middleware/ratelimit.go:94-117 | no undeserved refusal: in every reachable state a refused request follows at least `limit` accepted ones of its key within the last three windows; for both comparisons |
| RateLimit.CleanupIsUnobservable | middleware/ratelimit.go:120-126 | while no request finds the map full, every request is decided as if cleanup never ran |
| RateLimit.CleanupLeavesExactly | middleware/ratelimit.go:120-126 | after a cleanup exactly the windows not older than two window lengths are left, unchanged |
| RateLimit.RequestRemovesExactly | middleware/ratelimit.go:83-92 | a request removes another key exactly if its own is new to a map of ten thousand and the scan names the other; it changes no other |
| RateLimit.EvictionRemovesAnOldestIff | middleware/ratelimit.go:131-143 | for every iteration order, eviction removes one oldest entry exactly if the empty string is not a key or some other key is no younger than it |
| RateLimit.SentinelDefeatsEvictionIff | middleware/ratelimit.go:131-143 | eviction removes nothing exactly if the empty key comes last and is the only oldest |
| RateLimit.RequestExceedsCapIff | middleware/ratelimit.go:86-92 | a request takes the map over the cap exactly if it brings a new key to a full map and the scan comes last to an empty key that is the only oldest |
| RateLimit.SizeStaysCappedIff | middleware/ratelimit.go:86-92 | the cap holds throughout a run exactly if no eviction of the run meets that condition |
| RateLimit.SizeStaysCapped | middleware/ratelimit.go:86-92 | in particular it holds in every run without requests from the empty key |
| RateLimitCap.CapIsNotKept | middleware/ratelimit.go:131-143 | otherwise there is no bound: for every size some run leaves the map with that many keys |
| RateLimiterMethods.RateLimiter.CheckAndRecord | middleware/ratelimit.go:79-118 | the in-place update changes the map's value and decides as the specification says |
| RateLimiterMethods.SlidingWindow.Admit | middleware/ratelimit.go:94-117 | reset, roll, compare and count on one window, for any comparison |
| RateLimiterMethods.RateLimiter.EvictOldest | middleware/ratelimit.go:131-143 | the scan deletes the key that the specification names, in any iteration order |
| RateLimiterMethods.RateLimiter.CleanupStaleKeys | middleware/ratelimit.go:120-126 | deleting while iterating leaves exactly the windows not older than two window lengths |
| AuthLimit.AtMostInFlightFailures | middleware/auth.go:103-145 | an address that is not evicted and never has more than k requests in flight has at most limit + 2*(k-1) recorded failures in any half-open block window, however cleanup interleaves |
| AuthLimitTightness.InFlightBoundIsReached | middleware/auth.go:103-145 | that bound is attained for every configuration and every k |
| AuthLimit.AtMostLimitFailures | middleware/auth.go:27-49 | requests that check and then record without overlapping (k = 1): at most `limit` |
| AuthLimit.OverlappingRequestsAreUnbounded | middleware/auth.go:103-145 | requests that all check before the first of them records are all recorded: any number in one window |
| AuthLimit.NotBlockedBelowLimit | middleware/auth.go:134-144 | in every run, with overlaps, cleanups and evictions, an address is blocked only after it has failed `limit` times |
| AuthLimit.EntryTellsNewestFailures | middleware/auth.go:134-144 | in every run an entry counts the newest recorded failures, holds the time of the last one, and is blocked exactly from the one that reached the limit on |
| AuthLimit.CleanupLeavesExactly | middleware/auth.go:152-165 | after a cleanup exactly the entries are left that are blocked since, or else failed last, less than a window ago |
| AuthLimit.RecordRemovesExactly | middleware/auth.go:124-138 | recording removes another address exactly if its own is new to a map of ten thousand and the other is the victim; it changes no other |
| AuthLimit.BlockLastsOneWindow | middleware/auth.go:111-117 | in every run that does not evict the address a block lasts exactly one window: neither checks, cleanup nor late records lift or prolong it; after that every check lets the address through and forgets it |
| AuthLimit.SizeStaysCapped | middleware/auth.go:124-138 | no run tracks more addresses than the cap |
| AuthVisits.LimiterSeesTrace | middleware/auth.go:27-49 | in any interleaving of requests of all addresses and cleanups, each of the two limiters sees a trace whose requests in flight are those in progress, and records exactly the requests answered Unauthorized |
| AuthVisits.AtMostFiveWrongLogins | middleware/auth.go:27-49 | with at most k requests of an address in progress at a time, at most 5 + 2*(k-1) of its wrong credentials are compared in any five minutes |
| AuthVisits.AtMostThirtyProbes | middleware/auth.go:34-44 | and at most 30 + 2*(k-1) of its requests without credentials get the challenge in any minute |
| AuthVisits.OnlyTheSecretGetsIn | middleware/auth.go:24-50 | in every run whoever reaches the handler came in unblocked with exactly the configured user and password; whoever is rejected came in with something else, counted by the first limiter exactly if that was a user and a password |
| AuthVisits.DecidedByCredentials | middleware/auth.go:45-50 | a request with credentials is accepted exactly if both parts are right, and rejected exactly if either differs |
| AuthVisits.AnswersExactly | middleware/auth.go:11-52 | which of the four answers a request alone gets, from the blocks, the credentials and the configuration |
| AuthVisits.AloneIsRun | middleware/auth.go:27-52 | a request that runs alone, whatever others are in progress, is a run of that state machine |
| AuthLimiterMethods.AuthRateLimit.IsAuthBlocked | middleware/auth.go:103-118 | the check answers and forgets as specified |
| AuthLimiterMethods.AuthRateLimit.RecordAuthFailure | middleware/auth.go:120-145 | recording, with its eviction, changes the map's value as specified |
| AuthLimiterMethods.AuthState.Fail | middleware/auth.go:140-144 | one more attempt, and the block once the limit is reached |
| AuthLimiterMethods.AuthRateLimit.Cleanup | middleware/auth.go:152-165 | deleting while iterating leaves exactly the entries that have not expired |
| AuthLimiterMethods.BasicAuth.constructor | middleware/auth.go:85-101 | two separate empty limiters, five failures in five minutes and thirty in one minute, and the configured credentials |
| AuthLimiterMethods.BasicAuth.ServeProtected | middleware/auth.go:24-52 | which limiter sees which check and failure, and the response, for each kind of credentials; served exactly if not blocked and both parts are right |
| AuthLimiterMethods.BasicAuth.Serve | middleware/auth.go:11-52 | a request alone changes both limiters and answers as in that run; it is served exactly if user or password is not configured, or the address is not blocked and both parts are right |
| AuthLimiterMethods.BasicAuth.CleanUp | middleware/auth.go:17-21 | a cleanup round leaves in both limiters exactly the entries that have not expired |
| SearchText.TruncateSearch | server/handlerlog.go:63-83 | an over-long search becomes the longest valid UTF-8 prefix of its first maxBytes bytes; the loop terminates |
| SearchText.StripKeepsValidPrefixes | server/handlerlog.go:75-80 | stripping the last whole character, or one byte, never skips a valid prefix |
| SearchText.IncompleteStripsOneByte | server/handlerlog.go:72-77 | from a text that ends in a cut character only one byte is stripped at a time |
| SearchText.RuneIffScalar | server/handlerlog.go:69-70 | the characters of the byte grammar are exactly the encodings of the Unicode scalar values |
| SearchText.ValidIffEncoded | server/handlerlog.go:69-70 | a text is valid exactly if it encodes some sequence of scalar values |
| SearchText.RuneThenValid | server/handlerlog.go:69-70 | the greedy reading of UTF-8 accepts every sequence of characters |
| SearchText.LongestValidPrefixIsUnique | server/handlerlog.go:63-83 | that specification determines the result |
| LogTail.TrimLinesToBytes | server/handlerlog.go:32-49 | all lines if there is no limit or the last line alone exceeds it, else the longest fitting suffix behind a marker if anything was left out |
| LogTail.TrimmedIsMarkedSuffix | server/handlerlog.go:32-49 | the result has at most as many entries as the input and, apart from the marker, is a suffix that fits and could not be longer |
| LogTail.MarkerExactlyWhenCut | server/handlerlog.go:45-47 | when the last line fits, the marker leads exactly if not everything fits |
| LogTail.TrimmedIsUnique | server/handlerlog.go:32-49 | that specification determines the result |
| LogTail.MatchingPicks | server/handlerlog.go:193-204 | a line matches exactly if the search is empty or the lowered line is something, the lowered search, and something; all such lines are found, as often as they occur and in order |
| Picking.PicksIsUnique | server/handlerlog.go:193-204 | that determines the list |
| LogTail.CaseDoesNotMatter | server/handlerlog.go:187-197 | searches that are equal when lowered find the same lines |
| LogFileReader.ReadLogFile | server/handlerlog.go:147-225 | the last maxLines of the lines that hold the search apart from case, all of them and in order, trimmed, in storage of their own, whatever the pooled buffer held; otherwise the first obstacle met, in the order of the source |
| LogFileReader.FillRing | server/handlerlog.go:188-204 | the ring holds the last of the lines that hold the search from `pos` on, whatever it held before |
| LogFileReader.RingWrite | server/handlerlog.go:201-203 | writing one line keeps that |
| LogFileReader.Unroll | server/handlerlog.go:210-220 | a fresh copy of the ring, oldest line first |
| JournalReader.ReadJournalLog | server/journal.go:16-80 | the last maxLines records whose message holds the search, as lines, oldest first, trimmed, in fresh storage; otherwise the first obstacle met |
| JournalReader.LinesListRecords | server/journal.go:52-70 | a record is found exactly if what follows "MESSAGE=" holds the search, and its line is its time stamp, a space and that message |
| JournalReader.ScanIsTail | server/journal.go:36-73 | the backward scan, reversed, is the tail of the matching lines |
| JournalReader.ObstacleIff | server/journal.go:36-50 | the scan is stopped exactly if it still lacks lines when the cancellation or the failure comes, whichever is first; in the same round the cancellation wins |
| JournalReader.NoObstacle | server/journal.go:37-50 | without a cancellation or a failure the scan always ends in a result |
| JournalReader.ReverseInPlace | server/journal.go:73 | the reversal in place |
| JournalReader.ReadersAgree | server/journal.go:52-70 | both lists come from the same records in the same order: the journal's line of each, and the file's bare message of each |
| ObsCache.AnswersAreFresh | server/handleroutbound.go:335-399 | in every interleaving a returned list was stored less than the TTL before it was read, and after the last switch that preceded the call |
| ObsCache.WaitersShareTheFlight | server/handleroutbound.go:350-379 | at most one fetch is in the air; whoever waits waits for it, it can always land, and then all waiters wake |
| ObsCache.ReadsBackTheNewest | server/handleroutbound.go:381-388 | over whole runs, whichever calls and flights overlap, a caller that reads back gets the list stored last, or the empty fallback exactly if a switch cleared the cache since or the TTL has passed |
| ObsCache.FallbackExactlyWhenClearedOrExpired | server/handleroutbound.go:381-388 | the same from one store to the next |
| ObsCache.HitsTheNewestIff | server/handleroutbound.go:340-346 | over whole runs a call is answered at once exactly if the list stored last is younger than two seconds and not cleared since, and then with that list |
| ObsCache.OldFetchReturnsIffInTheAir | server/handleroutbound.go:278-281 | a call begun after a switch can return a list fetched before it exactly if a fetch was in the air when the cache was cleared |
| ObsCache.WritesIntoFreshIff | server/handleroutbound.go:313-322 | the flight that a call begins can write into a fresh cache exactly if the cache is fresh when it begins |
| ObsCache.MissMeetsFreshCache | server/handleroutbound.go:340-350 | that is reachable: two calls miss, one flies and lands, and the other begins its flight |
| ObsServerMethods.Server.GetAllOutboundStatuses | server/handleroutbound.go:335-388 | a call alone is the run Begin, Check, and on a miss Join, Store, Land, ReadBack of the protocol, and returns what the protocol answers, an empty list for the fallback |
| ObsServerMethods.Server.CheckCache | server/handleroutbound.go:340-346 | the first section performs the protocol's Check |
| ObsServerMethods.Server.UpdateObsCache | server/handleroutbound.go:317-322 | storing performs the protocol's Store |
| ObsServerMethods.Server.ObsSnapshot | server/handleroutbound.go:392-399 | the read-back performs the protocol's ReadBack; nil is its fallback |
| ObsServerMethods.Server.InvalidateObsCache | server/handleroutbound.go:278-281 | a switch performs the protocol's Clear |
| SseWire.ReadYieldsPayloads | server/handlerstats.go:27-32 | any sequence of payloads and heartbeats, followed by a frame cut anywhere, reads back as exactly the payloads, in order, as `update` events |
| SseWire.CutFrameIsSilent | server/handlerstats.go:65-77 | a frame cut before its end shows nothing |
| SseWire.FramesAsText | server/handlerstats.go:27-32 | the bytes of both frames as text |
| SseWriter.SseWriteEvent | server/handlerstats.go:65-77 | the frame goes out whole and is flushed once, or is cut where the connection broke and not flushed |
| SseWriter.WriteHeartbeat | server/handlerstats.go:201-205 | the same for a heartbeat |
| SseWriter.ServeStream | server/handlerstats.go:189-223 | wherever the connection breaks, the client has seen exactly the payloads of the frames that went out whole |

## Left out

- StatsRates.RatesConserveBytes: float64 rounding is not modelled; it assumes strictly increasing tick times, counters that are nonnegative int64 values, and marshaled text that shows both counters.
- RateLimit.AtMostTwiceTheLimit: a nonpositive limit counts as one, see `NonPositiveLimitIsExceeded`.
- RateLimit.BelowTwiceInShortWindows: is about the exact comparison, and so is the equivalence in `TwiceTheLimitIsReachedIff`; in floating point windows of fewer nanoseconds than twice the limit are not decided.
- RateSlides.RoundedSlides: which way floating point decides a weighted count that is exactly the limit is left open.
- RateRules.RoundedFades: windows beyond 2^51 ns (26 days) and limits beyond 2^53 are not covered.
- AuthLimit.AtMostInFlightFailures: a nonpositive limit counts as one; without a bound on the requests in flight there is none, see `OverlappingRequestsAreUnbounded`.
- BroadcasterTheorems.NoStuckWait: says that the loop awaited can always exit by itself, not that the scheduler lets it; fetches are assumed to return.
- LogFileReader.ReadLogFile: opening, scanning limits of 256 KiB per line and reading errors are parameters; `maxLines` is positive, as the handler guarantees (server/handlerlog.go:98-107).
- JournalReader.ReadJournalLog: opening, matching the unit and seeking are one step that may fail; the journal is a fixed list of records.
- SseWire.ReadYieldsPayloads: the client's parser works on bytes; decoding UTF-8 afterwards, reconnection and the `retry` field are not modelled.
- AuthLimiterMethods.BasicAuth.ServeProtected: is a request that runs alone; interleavings are those of `AuthVisits`. The timing of the constant-time comparison, headers and bodies are not modelled.
- singleflight is taken as one flight at a time whose callers wait for it; panics inside a flight are not modelled.
- Logging and its throttling (`warnBPSOnce`), the dropped-message log line, HTTP headers and status texts.
- The 10 s idle time and the 2 s tick as lengths of time: a timer that fired before it was cancelled, or that the broadcaster no longer refers to, may stop a later loop early, so no grace period is claimed.
- `server/handlerhealth.go`: it writes its cache outside the flight and would add no stronger theorem than the observatory cache.
- `findBestAvailableNode`, `parseProtocol`, the excluded-tag cache, `sse/manager.go`, `config/config.go`, CORS, security headers, recovery and the request logger: short functions whose properties are read off one body.
- gRPC, reconnection, routing, the frontend and generated protobuf code.
