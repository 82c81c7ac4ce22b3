/** The bound on recorded authentication failures is exact: for every configuration and every number of requests
  * in flight some run reaches it. */
module AuthLimitTightness {
  import opened Prelude
  import opened Intervals
  import opened Middleware
  import opened AuthLimit

  /** The map of a limiter that knows at most one address. */
  function Single(ip: string, e: Option<Entry>): Table {
    if e.None? then map[] else map[ip := e.value]
  }

  /** `ops` is a run of that address alone from `e` on, with `n` requests in flight at first and never more than
    * `k`, which records the failures `log`. */
  predicate Run(ip: string, e: Option<Entry>, n: int, ops: seq<Op>, clock: Time, log: seq<Time>, k: nat, cfg: Config) {
    && Timed(ops, clock)
    && NeverEvicted(Single(ip, e), ops, ip, cfg)
    && AtMostInFlight(Single(ip, e), ops, ip, n, k, cfg)
    && Failures(ops, ip) == log
  }

  lemma EarlierClock(ops: seq<Op>, now: Time, later: Time)
    requires Timed(ops, later) && now <= later
    ensures Timed(ops, now)
  {
  }

  /** A check put in front of a run. */
  lemma CheckFirst(ip: string, e: Option<Entry>, n: int, now: Time, v: Option<Entry>, rest: seq<Op>, later: Time,
                   log: seq<Time>, k: nat, cfg: Config)
      returns (ops: seq<Op>)
    requires 0 <= n < k && now <= later && Run(ip, v, n + 1, rest, later, log, k, cfg)
    requires !BlockedIn(Single(ip, e), ip, now, cfg) && AfterCheck(Single(ip, e), ip, now, cfg) == Single(ip, v)
    ensures Run(ip, e, n, ops, now, log, k, cfg)
  {
    ops := [Check(ip, now)] + rest;
    assert ops[1..] == rest;
    assert [] + log == log;
    EarlierClock(rest, now, later);
  }

  /** The entry after one more failure. */
  function FailedOnce(e: Option<Entry>, now: Time, cfg: Config): Entry {
    Failed(if e.Some? then e.value else Entry(0, 0, None), now, now, cfg)
  }

  /** A failure put in front of a run. */
  lemma RecordFirst(ip: string, e: Option<Entry>, n: int, now: Time, v: Entry, rest: seq<Op>, later: Time,
                    log: seq<Time>, k: nat, cfg: Config)
      returns (ops: seq<Op>)
    requires 1 <= n <= k + 1 && now <= later && v == FailedOnce(e, now, cfg)
    requires Run(ip, Some(v), n - 1, rest, later, log, k, cfg)
    ensures Run(ip, e, n, ops, now, [now] + log, k, cfg)
  {
    var op := Record(ip, now, now, ip);
    ops := [op] + rest;
    assert ops[1..] == rest;
    assert AfterOp(Single(ip, e), op, cfg) == Single(ip, Some(v));
    EarlierClock(rest, now, later);
  }

  /** Checks on an unknown address until `k` requests are in flight. */
  lemma {:induction false} ChecksFirst(ip: string, n: int, now: Time, rest: seq<Op>, later: Time, log: seq<Time>,
                                       k: nat, cfg: Config)
      returns (ops: seq<Op>)
    requires 0 <= n <= k && now <= later && Run(ip, None, k, rest, later, log, k, cfg)
    ensures Run(ip, None, n, ops, now, log, k, cfg)
    decreases k - n
  {
    if n == k {
      ops := rest;
      EarlierClock(rest, now, later);
    } else {
      ops := ChecksFirst(ip, n + 1, now, rest, later, log, k, cfg);
      ops := CheckFirst(ip, None, n, now, None, ops, now, log, k, cfg);
    }
  }

  /** The entry of a block with `late` failures recorded since, the last of them at `last`. */
  function Blocked(late: nat, last: Time, b: Time, cfg: Config): Entry {
    Entry(AtLeastOne(cfg.limit) + late, last, Some(b))
  }

  /** The requests still in flight record their failures on a block, which ends up as `e`. */
  lemma {:induction false} LateFirst(ip: string, late: nat, last: Time, b: Time, n: nat, now: Time, e: Entry,
                                     rest: seq<Op>, later: Time, log: seq<Time>, k: nat, cfg: Config)
      returns (ops: seq<Op>)
    requires n <= k && now <= later && e == Blocked(late + n, if n == 0 then last else now, b, cfg)
    requires Run(ip, Some(e), 0, rest, later, log, k, cfg)
    ensures Run(ip, Some(Blocked(late, last, b, cfg)), n, ops, now, Burst(now, n, log), k, cfg)
    decreases n
  {
    if n == 0 {
      ops := rest;
      EarlierClock(rest, now, later);
    } else {
      ops := LateFirst(ip, late + 1, now, b, n - 1, now, e, rest, later, log, k, cfg);
      var v := Blocked(late + 1, now, b, cfg);
      OneLater(late, last, b, now, cfg);
      ops := RecordFirst(ip, Some(Blocked(late, last, b, cfg)), n, now, v, ops, now, Burst(now, n - 1, log), k, cfg);
    }
  }

  lemma OneLater(late: nat, last: Time, b: Time, now: Time, cfg: Config)
    ensures FailedOnce(Some(Blocked(late, last, b, cfg)), now, cfg) == Blocked(late + 1, now, b, cfg)
  {
  }

  /** An address with `a` failures at `now` and no block. */
  function Counting(a: nat, now: Time): Option<Entry> {
    if a == 0 then None else Some(Entry(a, now, None))
  }

  /** The failure that brings the block. */
  lemma LastFailureFirst(ip: string, a: nat, now: Time, rest: seq<Op>, later: Time, log: seq<Time>, k: nat, cfg: Config)
      returns (ops: seq<Op>)
    requires a + 1 == AtLeastOne(cfg.limit) && k >= 1 && now <= later
    requires Run(ip, Some(Blocked(0, now, now, cfg)), k - 1, rest, later, log, k, cfg)
    ensures Run(ip, Counting(a, now), k, ops, now, [now] + log, k, cfg)
  {
    FailureCounts(a, now, cfg);
    ops := RecordFirst(ip, Counting(a, now), k, now, Blocked(0, now, now, cfg), rest, later, log, k, cfg);
  }

  lemma FailureCounts(a: nat, now: Time, cfg: Config)
    requires a < AtLeastOne(cfg.limit)
    ensures Some(FailedOnce(Counting(a, now), now, cfg)) ==
            if a + 1 == AtLeastOne(cfg.limit) then Some(Blocked(0, now, now, cfg)) else Counting(a + 1, now)
  {
  }

  lemma OpenEntryPasses(ip: string, v: Entry, now: Time, cfg: Config)
    requires v.blockedAt.None?
    ensures !BlockedIn(Single(ip, Some(v)), ip, now, cfg)
    ensures AfterCheck(Single(ip, Some(v)), ip, now, cfg) == Single(ip, Some(v))
  {
  }

  /** The check of a request on an entry without a block. */
  lemma OpenCheckFirst(ip: string, v: Entry, now: Time, rest: seq<Op>, log: seq<Time>, k: nat, cfg: Config)
      returns (ops: seq<Op>)
    requires v.blockedAt.None? && k >= 1 && Run(ip, Some(v), k, rest, now, log, k, cfg)
    ensures Run(ip, Some(v), k - 1, ops, now, log, k, cfg)
  {
    OpenEntryPasses(ip, v, now, cfg);
    ops := CheckFirst(ip, Some(v), k - 1, now, Some(v), rest, now, log, k, cfg);
  }

  /** A failure before the block, and the check of the request that takes its place. */
  lemma NextFailureFirst(ip: string, a: nat, v: Entry, now: Time, rest: seq<Op>, log: seq<Time>, k: nat, cfg: Config)
      returns (ops: seq<Op>)
    requires v == FailedOnce(Counting(a, now), now, cfg) && v.blockedAt.None? && k >= 1
    requires Run(ip, Some(v), k, rest, now, log, k, cfg)
    ensures Run(ip, Counting(a, now), k, ops, now, [now] + log, k, cfg)
  {
    var checked := OpenCheckFirst(ip, v, now, rest, log, k, cfg);
    ops := RecordFirst(ip, Counting(a, now), k, now, v, checked, now, log, k, cfg);
  }

  /** The same in front of the run that the induction gives. */
  lemma {:induction false} OneMoreFailure(ip: string, a: nat, left: nat, now: Time, rest: seq<Op>, later: Time,
                                          log: seq<Time>, k: nat, cfg: Config)
      returns (ops: seq<Op>)
    requires left >= 2 && a + left == AtLeastOne(cfg.limit) && k >= 1 && now <= later
    requires Run(ip, Some(Blocked(0, now, now, cfg)), k - 1, rest, later, log, k, cfg)
    ensures Run(ip, Counting(a, now), k, ops, now, Burst(now, left, log), k, cfg)
    decreases left, 0
  {
    var more := CountUpFirst(ip, a + 1, left - 1, now, rest, later, log, k, cfg);
    FailureCounts(a, now, cfg);
    ops := NextFailureFirst(ip, a, Entry(a + 1, now, None), now, more, Burst(now, left - 1, log), k, cfg);
  }

  lemma OnlyFailure(ip: string, a: nat, now: Time, rest: seq<Op>, later: Time, log: seq<Time>, k: nat, cfg: Config)
      returns (ops: seq<Op>)
    requires a + 1 == AtLeastOne(cfg.limit) && k >= 1 && now <= later
    requires Run(ip, Some(Blocked(0, now, now, cfg)), k - 1, rest, later, log, k, cfg)
    ensures Run(ip, Counting(a, now), k, ops, now, Burst(now, 1, log), k, cfg)
  {
    assert Burst(now, 1, log) == [now] + log;
    ops := LastFailureFirst(ip, a, now, rest, later, log, k, cfg);
  }

  /** With `k` requests in flight all the time, `left` more failures up to the block. */
  lemma {:induction false} CountUpFirst(ip: string, a: nat, left: nat, now: Time, rest: seq<Op>, later: Time,
                                        log: seq<Time>, k: nat, cfg: Config)
      returns (ops: seq<Op>)
    requires left >= 1 && a + left == AtLeastOne(cfg.limit) && k >= 1 && now <= later
    requires Run(ip, Some(Blocked(0, now, now, cfg)), k - 1, rest, later, log, k, cfg)
    ensures Run(ip, Counting(a, now), k, ops, now, Burst(now, left, log), k, cfg)
    decreases left, 1
  {
    if left == 1 {
      ops := OnlyFailure(ip, a, now, rest, later, log, k, cfg);
    } else {
      ops := OneMoreFailure(ip, a, left, now, rest, later, log, k, cfg);
    }
  }

  /** An unknown address: `k` checks, then failures up to a block, which leaves `k - 1` requests in flight. */
  lemma BlockFirst(ip: string, n: int, now: Time, rest: seq<Op>, later: Time, log: seq<Time>, k: nat, cfg: Config)
      returns (ops: seq<Op>)
    requires k >= 1 && 0 <= n <= k && now <= later
    requires Run(ip, Some(Blocked(0, now, now, cfg)), k - 1, rest, later, log, k, cfg)
    ensures Run(ip, None, n, ops, now, Burst(now, AtLeastOne(cfg.limit), log), k, cfg)
  {
    ops := CountUpFirst(ip, 0, AtLeastOne(cfg.limit), now, rest, later, log, k, cfg);
    ops := ChecksFirst(ip, n, now, ops, now, Burst(now, AtLeastOne(cfg.limit), log), k, cfg);
  }

  /** A check on a block that has run out forgets it. */
  lemma ForgetFirst(ip: string, e: Entry, b: Time, now: Time, rest: seq<Op>, later: Time, log: seq<Time>,
                    k: nat, cfg: Config)
      returns (ops: seq<Op>)
    requires k >= 1 && now <= later && e.blockedAt == Some(b) && b + cfg.window <= now
    requires Run(ip, None, 1, rest, later, log, k, cfg)
    ensures Run(ip, Some(e), 0, ops, now, log, k, cfg)
  {
    assert AfterCheck(Single(ip, Some(e)), ip, now, cfg) == Single(ip, None);
    ops := CheckFirst(ip, Some(e), 0, now, None, rest, later, log, k, cfg);
  }

  /** Failures up to a second block at time `w`, and late failures on it. */
  lemma SecondBlock(ip: string, w: Time, k: nat, cfg: Config) returns (ops: seq<Op>)
    requires k >= 1
    ensures Run(ip, None, 1, ops, w, Burst(w, AtLeastOne(cfg.limit), Burst(w, k - 1, [])), k, cfg)
  {
    ops := LateFirst(ip, 0, w, w, k - 1, w, Blocked(k - 1, w, w, cfg), [], w, [], k, cfg);
    ops := BlockFirst(ip, 1, w, ops, w, Burst(w, k - 1, []), k, cfg);
  }

  /** Before that, one window after the first block: late failures on it, and a check that forgets it. */
  lemma SecondWave(ip: string, w: Time, e: Entry, rest: seq<Op>, log: seq<Time>, k: nat, cfg: Config)
      returns (ops: seq<Op>)
    requires cfg.window <= w && k >= 1 && e == Blocked(k - 1, if k == 1 then 0 else w, 0, cfg)
    requires Run(ip, None, 1, rest, w, log, k, cfg)
    ensures Run(ip, Some(Blocked(0, 0, 0, cfg)), k - 1, ops, w, Burst(w, k - 1, log), k, cfg)
  {
    ops := ForgetFirst(ip, e, 0, w, rest, w, log, k, cfg);
    ops := LateFirst(ip, 0, 0, 0, k - 1, w, e, ops, w, log, k, cfg);
  }

  /** The failures of the run: the limit at time zero, everything else one window later. */
  function BothWaves(w: Time, few: nat, most: nat): seq<Time> {
    Burst(0, most, Burst(w, few, Burst(w, most, Burst(w, few, []))))
  }

  lemma TwoWaves(ip: string, w: Time, e: Entry, k: nat, cfg: Config) returns (ops: seq<Op>)
    requires w == cfg.window > 0 && k >= 1 && e == Blocked(k - 1, if k == 1 then 0 else w, 0, cfg)
    ensures Run(ip, None, 0, ops, 0, BothWaves(w, k - 1, AtLeastOne(cfg.limit)), k, cfg)
  {
    var second := Burst(w, AtLeastOne(cfg.limit), Burst(w, k - 1, []));
    var last := SecondBlock(ip, w, k, cfg);
    var later := SecondWave(ip, w, e, last, second, k, cfg);
    ops := BlockFirst(ip, 0, 0, later, w, Burst(w, k - 1, second), k, cfg);
  }

  lemma WavesAreLate(w: Time, few: nat, most: nat)
    ensures var log := BothWaves(w, few, most);
            |log| == 2 * most + 2 * few && forall i :: most <= i < |log| ==> log[i] == w
  {
    var late := Burst(w, few, Burst(w, most, Burst(w, few, [])));
    AllLate(late, w, few, most);
    BurstAt(0, most, late);
  }

  lemma SingleRun(ip: string, ops: seq<Op>, log: seq<Time>, k: nat, cfg: Config)
    requires Run(ip, None, 0, ops, 0, log, k, cfg)
    ensures Timed(ops, 0) && NeverEvicted(map[], ops, ip, cfg) && AtMostInFlight(map[], ops, ip, 0, k, cfg)
    ensures Failures(ops, ip) == log
  {
  }

  /** The bound of `AtMostInFlightFailures` is attained. */
  lemma InFlightBoundIsReached(ip: string, k: nat, cfg: Config) returns (ops: seq<Op>, from: Time)
    requires cfg.Valid() && k >= 1
    ensures Timed(ops, 0) && NeverEvicted(map[], ops, ip, cfg) && AtMostInFlight(map[], ops, ip, 0, k, cfg)
    ensures CountIn(Failures(ops, ip), from, cfg.window) == Max(1, cfg.limit) + 2 * (k - 1)
  {
    from := cfg.window;
    var log := BothWaves(from, k - 1, AtLeastOne(cfg.limit));
    ops := TwoWaves(ip, from, Blocked(k - 1, if k == 1 then 0 else from, 0, cfg), k, cfg);
    WavesAreLate(from, k - 1, AtLeastOne(cfg.limit));
    SingleRun(ip, ops, log, k, cfg);
    StretchCounts(log, AtLeastOne(cfg.limit), |log|, from, cfg.window);
    AtMostInFlightFailures(ops, ip, 0, from, k, cfg);
  }

  lemma AllLate(late: seq<Time>, w: Time, few: nat, most: nat)
    requires late == Burst(w, few, Burst(w, most, Burst(w, few, [])))
    ensures |late| == most + 2 * few && forall i :: 0 <= i < |late| ==> late[i] == w
  {
    BurstAt(w, few, []);
    BurstAt(w, most, Burst(w, few, []));
    BurstAt(w, few, Burst(w, most, Burst(w, few, [])));
  }
}
