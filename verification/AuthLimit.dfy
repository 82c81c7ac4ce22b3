/** The authentication-failure limiter (middleware/auth.go): failures are counted until they block the
  * address for a while; a request checks first and records its failure later. */
module AuthLimit {
  import opened Prelude
  import opened Intervals
  import opened Middleware

  /** The value of an authState. */
  datatype Entry = Entry(attempts: int, lastAttempt: Time, blockedAt: Option<Time>)

  type Table = map<string, Entry>

  // ---------------------------------------------------------------- the three critical sections

  predicate BlockedIn(t: Table, ip: string, now: Time, cfg: Config) {
    ip in t && t[ip].blockedAt.Some? && now - t[ip].blockedAt.value < cfg.window
  }

  function AfterCheck(t: Table, ip: string, now: Time, cfg: Config): Table {
    if ip in t && t[ip].blockedAt.Some? && !BlockedIn(t, ip, now, cfg) then t - {ip} else t
  }

  function Failed(e: Entry, at: Time, blockAt: Time, cfg: Config): Entry {
    Entry(e.attempts + 1, at,
          if e.attempts + 1 >= cfg.limit && e.blockedAt.None? then Some(blockAt) else e.blockedAt)
  }

  predicate Evicts(t: Table, ip: string) {
    ip !in t && |t| >= MAX_TRACKED_IPS
  }

  /** `victim` is the key that the iteration over the map yields first. */
  function AfterRecord(t: Table, ip: string, at: Time, blockAt: Time, victim: string, cfg: Config): Table {
    var room := if Evicts(t, ip) then t - {victim} else t;
    room[ip := Failed(if ip in t then t[ip] else Entry(0, 0, None), at, blockAt, cfg)]
  }

  predicate Expired(e: Entry, now: Time, cfg: Config) {
    match e.blockedAt
    case Some(b) => now - b >= cfg.window
    case None => now - e.lastAttempt >= cfg.window
  }

  function AfterCleanup(t: Table, now: Time, cfg: Config): Table {
    map k | k in t && !Expired(t[k], now, cfg) :: t[k]
  }

  /** After a cleanup an entry is left exactly if it is blocked since less than a window, or not blocked and failed
    * last less than a window ago; it is left as it was. */
  lemma CleanupLeavesExactly(t: Table, now: Time, ip: string, cfg: Config)
    ensures var u := AfterCleanup(t, now, cfg);
            && (ip in u <==> ip in t && now < cfg.window +
                                match t[ip].blockedAt case Some(b) => b case None => t[ip].lastAttempt)
            && (ip in u ==> u[ip] == t[ip])
  {
  }

  /** Recording a failure of one address removes another exactly if the first is new to a map of ten thousand or more
    * and the second is the victim; it changes no other. */
  lemma RecordRemovesExactly(t: Table, ip: string, other: string, at: Time, blockAt: Time, victim: string, cfg: Config)
    requires other != ip
    ensures var u := AfterRecord(t, ip, at, blockAt, victim, cfg);
            && (other in u <==> other in t && !(ip !in t && |t| >= 10_000 && other == victim))
            && (other in u ==> u[other] == t[other])
  {
  }

  // ---------------------------------------------------------------- traces

  /** `Pass` ends a request that its check let through and that does not fail. */
  datatype Op =
    | Check(ip: string, now: Time)
    | Record(ip: string, now: Time, blockAt: Time, victim: string)
    | Pass(ip: string, now: Time)
    | Cleanup(now: Time)

  function AfterOp(t: Table, op: Op, cfg: Config): Table {
    match op
    case Check(ip, now) => AfterCheck(t, ip, now, cfg)
    case Record(ip, now, blockAt, victim) => AfterRecord(t, ip, now, blockAt, victim, cfg)
    case Pass(_, _) => t
    case Cleanup(now) => AfterCleanup(t, now, cfg)
  }

  function After(t: Table, ops: seq<Op>, cfg: Config): Table
    decreases ops
  {
    if ops == [] then t else After(AfterOp(t, ops[0], cfg), ops[1..], cfg)
  }

  function EndOf(op: Op): Time {
    if op.Record? then op.blockAt else op.now
  }

  predicate Timed(ops: seq<Op>, clock: Time)
    decreases ops
  {
    ops == [] || (clock <= ops[0].now <= EndOf(ops[0]) && Timed(ops[1..], EndOf(ops[0])))
  }

  function EndTime(ops: seq<Op>, clock: Time): Time
    decreases ops
  {
    if ops == [] then clock else EndTime(ops[1..], EndOf(ops[0]))
  }

  predicate NeverEvicted(t: Table, ops: seq<Op>, ip: string, cfg: Config)
    decreases ops
  {
    ops == []
    || (!(ops[0].Record? && Evicts(t, ops[0].ip) && ops[0].victim == ip)
        && NeverEvicted(AfterOp(t, ops[0], cfg), ops[1..], ip, cfg))
  }

  /** How many requests of `ip` have been let through and not ended yet, if there were `n` before. */
  function InFlight(t: Table, op: Op, ip: string, n: int, cfg: Config): int {
    if op.Cleanup? || op.ip != ip then n
    else
      match op
      case Check(_, now) => if BlockedIn(t, ip, now, cfg) then n else n + 1
      case _ => n - 1
  }

  /** Each failure of `ip` is recorded by a request that was let through, and never are more than `k` of them
    * in flight.  Other addresses and the cleanup interleave freely. */
  predicate AtMostInFlight(t: Table, ops: seq<Op>, ip: string, n: int, k: nat, cfg: Config)
    decreases ops
  {
    ops == []
    || (var m := InFlight(t, ops[0], ip, n, cfg);
        0 <= m <= k && AtMostInFlight(AfterOp(t, ops[0], cfg), ops[1..], ip, m, k, cfg))
  }

  /** The requests of `ip` do not overlap. */
  predicate ChecksThenRecords(t: Table, ops: seq<Op>, ip: string, cfg: Config) {
    AtMostInFlight(t, ops, ip, 0, 1, cfg)
  }

  /** What one operation adds to the log of `ip`. */
  function Logged(op: Op, ip: string): seq<Time> {
    if op.Record? && op.ip == ip then [op.now] else []
  }

  /** The times of the recorded failures of `ip`. */
  function Failures(ops: seq<Op>, ip: string): seq<Time> {
    if ops == [] then []
    else Logged(ops[0], ip) + Failures(ops[1..], ip)
  }

  // ---------------------------------------------------------------- the map stays bounded

  /** Each eviction removes a key of the map. */
  predicate VictimsAreKeys(t: Table, ops: seq<Op>, cfg: Config)
    decreases ops
  {
    ops == []
    || ((ops[0].Record? && Evicts(t, ops[0].ip) ==> ops[0].victim in t)
        && VictimsAreKeys(AfterOp(t, ops[0], cfg), ops[1..], cfg))
  }

  lemma OpKeepsCap(t: Table, op: Op, cfg: Config)
    requires |t| <= MAX_TRACKED_IPS && (op.Record? && Evicts(t, op.ip) ==> op.victim in t)
    ensures |AfterOp(t, op, cfg)| <= MAX_TRACKED_IPS
  {
    var u := AfterOp(t, op, cfg);
    assert |u| == |u.Keys| && |t| == |t.Keys|;
    if op.Record? {
      var room := if Evicts(t, op.ip) then t - {op.victim} else t;
      assert u.Keys == room.Keys + {op.ip};
      assert room.Keys == if Evicts(t, op.ip) then t.Keys - {op.victim} else t.Keys;
    } else {
      SubsetSize(u.Keys, t.Keys);
    }
  }

  /** No run tracks more addresses than the cap, the empty one included. */
  lemma {:induction false} SizeStaysCapped(t: Table, ops: seq<Op>, cfg: Config)
    requires |t| <= MAX_TRACKED_IPS && VictimsAreKeys(t, ops, cfg)
    ensures |After(t, ops, cfg)| <= MAX_TRACKED_IPS
    decreases ops
  {
    if ops != [] {
      OpKeepsCap(t, ops[0], cfg);
      SizeStaysCapped(AfterOp(t, ops[0], cfg), ops[1..], cfg);
    }
  }

  // ---------------------------------------------------------------- failures in any window

  function Lookup(t: Table, ip: string): Option<Entry> {
    if ip in t then Some(t[ip]) else None
  }

  /** The most failures that one block window can hold with at most `k` requests in flight: up to `k - 1` late
    * ones on a block that has run out, the limit, and up to `k - 1` late ones on the next block. */
  function InFlightBound(k: nat, cfg: Config): int {
    AtLeastOne(cfg.limit) + 2 * (k - 1)
  }

  /** `log` holds the recorded failures of a key whose entry is `e`; `n` of its requests are in flight. */
  predicate KeyInv(log: seq<Time>, e: Option<Entry>, clock: Time, n: int, k: nat, cfg: Config) {
    var size, m, most := |log|, k - 1, AtLeastOne(cfg.limit);
    && k >= 1 && 0 <= n <= k
    && Sorted(log)
    && (forall j :: 0 <= j < size ==> log[j] <= clock)
    && match e
       case None => forall j :: 0 <= j < size - m ==> log[j] + cfg.window <= clock
       case Some(v) =>
         && 1 <= v.attempts <= size
         && (forall j :: 0 <= j < size ==> log[j] <= v.lastAttempt)
         && (forall j :: 0 <= j < size - v.attempts - m ==> log[j] + cfg.window <= log[size - v.attempts])
         && match v.blockedAt
            case None => v.attempts < cfg.limit
            case Some(b) =>
              && most <= v.attempts && v.attempts - most + n <= m
              && forall j :: 0 <= j < size - (v.attempts - most) ==> log[j] <= b
  }

  /** The bound itself, kept apart from what only serves to prove it. */
  predicate LogInv(log: seq<Time>, e: Option<Entry>, clock: Time, n: int, k: nat, cfg: Config) {
    KeyInv(log, e, clock, n, k, cfg) && Spread(log, InFlightBound(k, cfg), cfg.window)
  }

  lemma FirstFailureKeepsKeyInv(log: seq<Time>, clock: Time, n: int, k: nat, at: Time, blockAt: Time, cfg: Config)
    requires cfg.Valid() && KeyInv(log, None, clock, n, k, cfg) && clock <= at <= blockAt && n >= 1
    ensures KeyInv(log + [at], Some(Failed(Entry(0, 0, None), at, blockAt, cfg)), blockAt, n - 1, k, cfg)
  {
    SortedByAppending(log, at);
  }

  lemma NextFailureKeepsKeyInv(log: seq<Time>, v: Entry, clock: Time, n: int, k: nat, at: Time, blockAt: Time,
                               cfg: Config)
    requires cfg.Valid() && KeyInv(log, Some(v), clock, n, k, cfg) && clock <= at <= blockAt && n >= 1
    ensures KeyInv(log + [at], Some(Failed(v, at, blockAt, cfg)), blockAt, n - 1, k, cfg)
  {
    SortedByAppending(log, at);
    var later := log + [at];
    assert forall j :: 0 <= j < |log| ==> later[j] == log[j];
  }

  /** A new failure comes a window after the one that lies the bound before it. */
  lemma FailureIsSpread(log: seq<Time>, e: Option<Entry>, clock: Time, n: int, k: nat, at: Time, cfg: Config)
    requires cfg.Valid() && LogInv(log, e, clock, n, k, cfg) && clock <= at && n >= 1
    ensures Spread(log + [at], InFlightBound(k, cfg), cfg.window)
  {
    var gap := InFlightBound(k, cfg);
    if |log| >= gap {
      assert log[|log| - gap] + cfg.window <= at;
    }
    SpreadByAppending(log, gap, cfg.window, at);
  }

  lemma CheckKeepsKeyInv(log: seq<Time>, t: Table, ip: string, clock: Time, n: int, k: nat, now: Time, cfg: Config)
    requires cfg.Valid() && KeyInv(log, Lookup(t, ip), clock, n, k, cfg) && clock <= now
    requires InFlight(t, Check(ip, now), ip, n, cfg) <= k
    ensures KeyInv(log, Lookup(AfterCheck(t, ip, now, cfg), ip), now, InFlight(t, Check(ip, now), ip, n, cfg), k, cfg)
  {
  }

  lemma CleanupKeepsKeyInv(log: seq<Time>, t: Table, ip: string, clock: Time, n: int, k: nat, now: Time, cfg: Config)
    requires cfg.Valid() && KeyInv(log, Lookup(t, ip), clock, n, k, cfg) && clock <= now
    ensures KeyInv(log, Lookup(AfterCleanup(t, now, cfg), ip), now, n, k, cfg)
  {
  }

  lemma OtherKeepsLookup(t: Table, op: Op, ip: string, cfg: Config)
    requires !op.Cleanup? && op.ip != ip && !(op.Record? && Evicts(t, op.ip) && op.victim == ip)
    ensures Lookup(AfterOp(t, op, cfg), ip) == Lookup(t, ip)
  {
  }

  lemma LaterKeepsKeyInv(log: seq<Time>, e: Option<Entry>, clock: Time, n: int, m: int, k: nat, later: Time,
                         cfg: Config)
    requires KeyInv(log, e, clock, n, k, cfg) && clock <= later && 0 <= m <= n
    ensures KeyInv(log, e, later, m, k, cfg)
  {
  }

  lemma RecordKeepsLogInv(t: Table, op: Op, log: seq<Time>, clock: Time, n: int, k: nat, cfg: Config)
    requires cfg.Valid() && op.Record? && LogInv(log, Lookup(t, op.ip), clock, n, k, cfg)
    requires clock <= op.now <= op.blockAt && n >= 1
    ensures LogInv(log + [op.now], Lookup(AfterOp(t, op, cfg), op.ip), op.blockAt, n - 1, k, cfg)
  {
    FailureIsSpread(log, Lookup(t, op.ip), clock, n, k, op.now, cfg);
    if op.ip in t {
      NextFailureKeepsKeyInv(log, t[op.ip], clock, n, k, op.now, op.blockAt, cfg);
    } else {
      FirstFailureKeepsKeyInv(log, clock, n, k, op.now, op.blockAt, cfg);
    }
  }

  lemma OpKeepsLogInv(t: Table, op: Op, ip: string, log: seq<Time>, clock: Time, n: int, k: nat, cfg: Config)
    requires cfg.Valid() && LogInv(log, Lookup(t, ip), clock, n, k, cfg)
    requires clock <= op.now <= EndOf(op)
    requires !(op.Record? && Evicts(t, op.ip) && op.victim == ip)
    requires 0 <= InFlight(t, op, ip, n, cfg) <= k
    ensures LogInv(log + Logged(op, ip), Lookup(AfterOp(t, op, cfg), ip), EndOf(op), InFlight(t, op, ip, n, cfg),
                   k, cfg)
  {
    assert log + [] == log;
    if op.Cleanup? {
      CleanupKeepsKeyInv(log, t, ip, clock, n, k, op.now, cfg);
    } else if op.ip != ip {
      OtherKeepsLookup(t, op, ip, cfg);
      LaterKeepsKeyInv(log, Lookup(t, ip), clock, n, n, k, EndOf(op), cfg);
    } else {
      match op
      case Check(_, now) => CheckKeepsKeyInv(log, t, ip, clock, n, k, now, cfg);
      case Record(_, _, _, _) => RecordKeepsLogInv(t, op, log, clock, n, k, cfg);
      case Pass(_, now) => LaterKeepsKeyInv(log, Lookup(t, ip), clock, n, n - 1, k, now, cfg);
    }
  }

  lemma {:induction false} TraceKeepsSpread(
    t: Table, ops: seq<Op>, ip: string, log: seq<Time>, clock: Time, n: int, k: nat, cfg: Config)
    requires cfg.Valid() && Timed(ops, clock) && NeverEvicted(t, ops, ip, cfg)
    requires AtMostInFlight(t, ops, ip, n, k, cfg)
    requires LogInv(log, Lookup(t, ip), clock, n, k, cfg)
    ensures Sorted(log + Failures(ops, ip)) && Spread(log + Failures(ops, ip), InFlightBound(k, cfg), cfg.window)
    decreases ops
  {
    if ops == [] {
      assert log + Failures(ops, ip) == log;
    } else {
      var op, rest := ops[0], ops[1..];
      OpKeepsLogInv(t, op, ip, log, clock, n, k, cfg);
      TraceKeepsSpread(AfterOp(t, op, cfg), rest, ip, log + Logged(op, ip), EndOf(op), InFlight(t, op, ip, n, cfg),
                       k, cfg);
      Regroup(log, Logged(op, ip), Failures(rest, ip));
    }
  }

  lemma FailuresAreSpread(ops: seq<Op>, ip: string, clock: Time, k: nat, cfg: Config)
    requires cfg.Valid() && Timed(ops, clock) && NeverEvicted(map[], ops, ip, cfg)
    requires k >= 1 && AtMostInFlight(map[], ops, ip, 0, k, cfg)
    ensures Sorted(Failures(ops, ip)) && Spread(Failures(ops, ip), InFlightBound(k, cfg), cfg.window)
  {
    TraceKeepsSpread(map[], ops, ip, [], clock, 0, k, cfg);
    assert [] + Failures(ops, ip) == Failures(ops, ip);
  }

  /** An address that is not evicted and never has more than `k` requests in flight has at most `limit` (one, if
    * the limit is not positive) plus `2*(k - 1)` recorded failures in any half-open interval as long as the
    * block, however cleanup runs are interleaved. */
  lemma AtMostInFlightFailures(ops: seq<Op>, ip: string, clock: Time, from: Time, k: nat, cfg: Config)
    requires cfg.Valid() && Timed(ops, clock) && NeverEvicted(map[], ops, ip, cfg)
    requires k >= 1 && AtMostInFlight(map[], ops, ip, 0, k, cfg)
    ensures CountIn(Failures(ops, ip), from, cfg.window) <= Max(1, cfg.limit) + 2 * (k - 1)
  {
    FailuresAreSpread(ops, ip, clock, k, cfg);
    SpreadBoundsCount(Failures(ops, ip), InFlightBound(k, cfg), from, cfg.window);
  }

  /** Requests that check and record without overlapping: at most `limit` recorded failures. */
  lemma AtMostLimitFailures(ops: seq<Op>, ip: string, clock: Time, from: Time, cfg: Config)
    requires cfg.Valid() && Timed(ops, clock) && NeverEvicted(map[], ops, ip, cfg)
    requires ChecksThenRecords(map[], ops, ip, cfg)
    ensures CountIn(Failures(ops, ip), from, cfg.window) <= Max(1, cfg.limit)
  {
    AtMostInFlightFailures(ops, ip, clock, from, 1, cfg);
  }

  // ---------------------------------------------------------------- blocks, in every run

  /** The recorded failures of `ip`. */
  function Records(ops: seq<Op>, ip: string): (r: seq<Op>)
    ensures forall i :: 0 <= i < |r| ==> r[i].Record? && r[i].ip == ip
  {
    if ops == [] then []
    else (if ops[0].Record? && ops[0].ip == ip then [ops[0]] else []) + Records(ops[1..], ip)
  }

  lemma {:induction false} AsManyFailures(ops: seq<Op>, ip: string)
    ensures |Failures(ops, ip)| == |Records(ops, ip)|
  {
    if ops != [] {
      AsManyFailures(ops[1..], ip);
    }
  }

  /** An entry stands for the newest of the recorded failures: it counts them, knows the last one's time, and is
    * blocked since the one that reached the limit. */
  predicate Tells(e: Option<Entry>, log: seq<Op>, cfg: Config)
    requires forall i :: 0 <= i < |log| ==> log[i].Record?
  {
    match e
    case None => true
    case Some(v) =>
      && 1 <= v.attempts <= |log|
      && v.lastAttempt == log[|log| - 1].now
      && v.blockedAt == if v.attempts < cfg.limit then None
                        else Some(log[|log| - v.attempts + Max(1, cfg.limit) - 1].blockAt)
  }

  lemma OpKeepsTelling(t: Table, op: Op, ip: string, log: seq<Op>, cfg: Config)
    requires forall i :: 0 <= i < |log| ==> log[i].Record?
    requires Tells(Lookup(t, ip), log, cfg)
    ensures Tells(Lookup(AfterOp(t, op, cfg), ip), log + (if op.Record? && op.ip == ip then [op] else []), cfg)
  {
    assert log + [] == log;
  }

  lemma {:induction false} TraceKeepsTelling(t: Table, ops: seq<Op>, ip: string, log: seq<Op>, cfg: Config)
    requires forall i :: 0 <= i < |log| ==> log[i].Record?
    requires Tells(Lookup(t, ip), log, cfg)
    ensures Tells(Lookup(After(t, ops, cfg), ip), log + Records(ops, ip), cfg)
    decreases ops
  {
    if ops == [] {
      assert log + Records(ops, ip) == log;
    } else {
      var more := if ops[0].Record? && ops[0].ip == ip then [ops[0]] else [];
      OpKeepsTelling(t, ops[0], ip, log, cfg);
      TraceKeepsTelling(AfterOp(t, ops[0], cfg), ops[1..], ip, log + more, cfg);
      Regroup(log, more, Records(ops[1..], ip));
    }
  }

  /** In any run, with overlaps, cleanups and evictions, that is what an entry says. */
  lemma EntryTellsNewestFailures(ops: seq<Op>, ip: string, cfg: Config)
    ensures Tells(Lookup(After(map[], ops, cfg), ip), Records(ops, ip), cfg)
  {
    TraceKeepsTelling(map[], ops, ip, [], cfg);
    assert [] + Records(ops, ip) == Records(ops, ip);
  }

  /** So nobody is blocked who has not failed `limit` times. */
  lemma NotBlockedBelowLimit(ops: seq<Op>, ip: string, now: Time, cfg: Config)
    ensures BlockedIn(After(map[], ops, cfg), ip, now, cfg) ==> |Failures(ops, ip)| >= cfg.limit
  {
    EntryTellsNewestFailures(ops, ip, cfg);
    AsManyFailures(ops, ip);
  }

  lemma OpKeepsBlock(t: Table, op: Op, ip: string, b: Time, cfg: Config)
    requires ip in t && t[ip].blockedAt == Some(b) && op.now < b + cfg.window
    requires !(op.Record? && Evicts(t, op.ip) && op.victim == ip)
    ensures var u := AfterOp(t, op, cfg); ip in u && u[ip].blockedAt == Some(b)
  {
  }

  /** A block that began at `b` lasts exactly one window: neither checks nor the cleanup lift it earlier, and
    * failures recorded late neither lift nor prolong it.  Every check from then on lets the address through and
    * forgets it. */
  lemma {:induction false} BlockLastsOneWindow(t: Table, ops: seq<Op>, ip: string, b: Time, now: Time, cfg: Config)
    requires NeverEvicted(t, ops, ip, cfg)
    requires ip in t && t[ip].blockedAt == Some(b)
    requires forall i :: 0 <= i < |ops| ==> ops[i].now < b + cfg.window
    ensures BlockedIn(After(t, ops, cfg), ip, now, cfg) <==> now < b + cfg.window
    ensures now >= b + cfg.window ==> ip !in AfterCheck(After(t, ops, cfg), ip, now, cfg)
    decreases ops
  {
    if ops != [] {
      OpKeepsBlock(t, ops[0], ip, b, cfg);
      BlockLastsOneWindow(AfterOp(t, ops[0], cfg), ops[1..], ip, b, now, cfg);
    }
  }

  // ---------------------------------------------------------------- without a bound on overlap

  function Repeat(op: Op, n: nat): (ops: seq<Op>)
    ensures |ops| == n
  {
    if n == 0 then [] else [op] + Repeat(op, n - 1)
  }

  /** `n` requests of one address that all check before the first of them records its failure. */
  function Overlapping(ip: string, now: Time, checks: nat, records: nat): seq<Op> {
    if checks == 0 then Repeat(Record(ip, now, now, ip), records)
    else [Check(ip, now)] + Overlapping(ip, now, checks - 1, records)
  }

  lemma {:induction false} RecordsOnly(t: Table, ip: string, now: Time, n: nat, cfg: Config)
    requires t == map[] || ip in t
    ensures var ops := Repeat(Record(ip, now, now, ip), n);
            && Timed(ops, now) && NeverEvicted(t, ops, ip, cfg)
            && |Failures(ops, ip)| == n && (forall j :: 0 <= j < n ==> Failures(ops, ip)[j] == now)
    decreases n
  {
    if n > 0 {
      var op := Record(ip, now, now, ip);
      assert Repeat(op, n)[1..] == Repeat(op, n - 1);
      RecordsOnly(AfterOp(t, op, cfg), ip, now, n - 1, cfg);
    }
  }

  lemma {:induction false} ChecksThenAllRecords(ip: string, now: Time, checks: nat, n: nat, cfg: Config)
    ensures var ops := Overlapping(ip, now, checks, n);
            && Timed(ops, now) && NeverEvicted(map[], ops, ip, cfg)
            && |Failures(ops, ip)| == n && (forall j :: 0 <= j < n ==> Failures(ops, ip)[j] == now)
  {
    if checks == 0 {
      RecordsOnly(map[], ip, now, n, cfg);
    } else {
      ChecksThenAllRecords(ip, now, checks - 1, n, cfg);
      assert Overlapping(ip, now, checks, n)[1..] == Overlapping(ip, now, checks - 1, n);
      assert AfterOp(map[], Check(ip, now), cfg) == map[];
    }
  }

  /** Without that order there is no bound: any number of requests that all check before the first of them
    * records its failure are all recorded, within one window. */
  lemma OverlappingRequestsAreUnbounded(ip: string, now: Time, n: nat, cfg: Config)
    requires cfg.Valid()
    ensures var ops := Overlapping(ip, now, n, n);
            && Timed(ops, now) && NeverEvicted(map[], ops, ip, cfg)
            && CountIn(Failures(ops, ip), now, cfg.window) == n
  {
    ChecksThenAllRecords(ip, now, n, n, cfg);
    var log := Failures(Overlapping(ip, now, n, n), ip);
    assert (set i | 0 <= i < |log| && now <= log[i] < now + cfg.window) == Range(n);
  }

  // ---------------------------------------------------------------- one request alone

  /** One request as a limiter sees it when it runs alone: the check at `now`, and at `at` and `blockAt` the
    * clock of its failure, if it is `wrong`. */
  datatype Attempt = Attempt(ip: string, wrong: bool, now: Time, at: Time, blockAt: Time, victim: string)

  function AfterAttempt(t: Table, r: Attempt, cfg: Config): Table {
    var checked := AfterCheck(t, r.ip, r.now, cfg);
    if r.wrong && !BlockedIn(t, r.ip, r.now, cfg) then AfterRecord(checked, r.ip, r.at, r.blockAt, r.victim, cfg)
    else checked
  }

  // ---------------------------------------------------------------- building traces

  /** One operation in front of a trace. */
  lemma OneOp(t: Table, op: Op, rest: seq<Op>, ip: string, n: int, k: nat, cfg: Config)
    ensures After(t, [op] + rest, cfg) == After(AfterOp(t, op, cfg), rest, cfg)
    ensures Failures([op] + rest, ip) == Logged(op, ip) + Failures(rest, ip)
    ensures var m := InFlight(t, op, ip, n, cfg);
            0 <= m <= k && AtMostInFlight(AfterOp(t, op, cfg), rest, ip, m, k, cfg) ==>
              AtMostInFlight(t, [op] + rest, ip, n, k, cfg)
  {
    assert ([op] + rest)[1..] == rest;
  }

  lemma TimedFirst(op: Op, rest: seq<Op>, clock: Time, end: Time)
    requires clock <= op.now <= EndOf(op) <= end && Timed(rest, end)
    ensures Timed([op] + rest, clock)
  {
    assert ([op] + rest)[1..] == rest;
  }
}
