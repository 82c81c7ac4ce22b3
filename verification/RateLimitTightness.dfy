/** When the bound on the sliding-window limiter is attained.  With the exact comparison some run accepts twice the
  * limit within one window exactly if the window is longer (in nanoseconds) than the limit; in floating point it
  * suffices that the window is twice as long. */
module RateLimitTightness {
  import opened Prelude
  import opened Intervals
  import opened Middleware
  import opened RateLimit
  import opened RateRules

  /** The map of a limiter that knows at most one key. */
  function Single(ip: string, w: Option<Window>): Table {
    if w.None? then map[] else map[ip := w.value]
  }

  /** `ops` is a run of that key alone from `w` on, which accepts the arrivals `log`. */
  predicate Run(ip: string, w: Option<Window>, ops: seq<Op>, clock: Time, log: seq<Time>, cfg: Rules) {
    && cfg.Valid() && Timed(ops, clock)
    && IsTrace(Single(ip, w), ops, cfg) && NeverEvicted(Single(ip, w), ops, ip, cfg)
    && Accepted(Single(ip, w), ops, ip, cfg) == log
  }

  lemma RequestFirst(ip: string, w: Option<Window>, now: Time, v: Window, ok: bool, rest: seq<Op>, later: Time,
                     log: seq<Time>, cfg: Rules)
      returns (ops: seq<Op>)
    requires cfg.Valid() && Decide(w, now, cfg) == (v, ok)
    requires Run(ip, Some(v), rest, later, log, cfg) && now <= later
    ensures Run(ip, w, ops, now, (if ok then [now] else []) + log, cfg)
  {
    var op := Request(ip, now, []);
    ops := [op] + rest;
    assert ops[1..] == rest;
    assert AfterOp(Single(ip, w), op, cfg) == Single(ip, Some(v));
    EarlierClock(rest, now, later);
  }

  lemma EarlierClock(ops: seq<Op>, now: Time, later: Time)
    requires Timed(ops, later) && now <= later
    ensures Timed(ops, now)
  {
  }

  predicate Admits(w: Window, now: Time, cfg: Rules) {
    cfg.Valid() && Decide(Some(w), now, cfg) == (w.(curr := w.curr + 1), true)
  }

  // ---------------------------------------------------------------- the decisions of the run

  /** What the run needs of the comparison. */
  ghost predicate Suitable(cfg: Rules) {
    cfg.limit >= 1 && cfg.window >= 2 && HonoursLimit(cfg) && Fades(cfg) && LeavesRoom(cfg)
  }

  lemma FreeAdmits(w: Window, now: Time, cfg: Rules)
    requires Suitable(cfg) && Free(w, now, cfg) && w.curr < cfg.limit
    ensures Admits(w, now, cfg)
  {
  }

  /** A full window rolled after exactly two windows still refuses. */
  lemma FullAfterTwo(cfg: Rules)
    requires Suitable(cfg)
    ensures Decide(Some(Window(0, cfg.limit, 0)), cfg.window * 2, cfg)
            == (Window(cfg.limit, 0, cfg.window * 2), false)
  {
    RollDistance(cfg.window * 2, cfg.window);
    var w, now := Window(cfg.limit, 0, cfg.window * 2), cfg.window * 2;
    assert cfg.refuses(w, now) <==> now == w.start && w.prev == cfg.limit;
  }

  /** The next request one window later rolls first. */
  lemma RollsAtTheEnd(start: Time, cfg: Rules)
    requires Suitable(cfg)
    ensures Decide(Some(Window(cfg.limit, cfg.limit, start)), start + cfg.window * 2 - 1, cfg)
            == (Window(cfg.limit, 1, start + cfg.window), true)
  {
    RollDistance(cfg.window * 2 - 1, cfg.window);
    FreeAdmits(Window(cfg.limit, 0, start + cfg.window), start + cfg.window * 2 - 1, cfg);
  }

  /** Requests at one moment that fill a free window up to the limit, put in front of a run; all are accepted. */
  lemma {:induction false} BurstFirst(ip: string, w: Window, now: Time, rest: seq<Op>, later: Time, log: seq<Time>,
                                      cfg: Rules)
      returns (ops: seq<Op>)
    requires Suitable(cfg) && now <= later && w.curr <= cfg.limit && Free(w, now, cfg)
    requires Run(ip, Some(w.(curr := cfg.limit)), rest, later, log, cfg)
    ensures Run(ip, Some(w), ops, now, Burst(now, cfg.limit - w.curr, log), cfg)
    decreases cfg.limit - w.curr
  {
    if w.curr == cfg.limit {
      ops := rest;
      EarlierClock(rest, now, later);
    } else {
      var v := w.(curr := w.curr + 1);
      FreeAdmits(w, now, cfg);
      ops := BurstFirst(ip, v, now, rest, later, log, cfg);
      ops := RequestFirst(ip, Some(w), now, v, true, ops, now, Burst(now, cfg.limit - v.curr, log), cfg);
    }
  }

  // ---------------------------------------------------------------- the run

  /** From a full window on, the limit one moment before the next window ends. */
  lemma LastBurst(ip: string, start: Time, end: Time, cfg: Rules) returns (ops: seq<Op>)
    requires Suitable(cfg) && end == start + cfg.window * 2 - 1
    ensures Run(ip, Some(Window(cfg.limit, cfg.limit, start)), ops, end, Burst(end, cfg.limit, []), cfg)
  {
    var rolled := Window(cfg.limit, 1, start + cfg.window);
    ops := BurstFirst(ip, rolled, end, [], end, [], cfg);
    RollsAtTheEnd(start, cfg);
    ops := RequestFirst(ip, Some(Window(cfg.limit, cfg.limit, start)), end, rolled, true, ops, end,
                        Burst(end, cfg.limit - 1, []), cfg);
  }

  /** From a window that was just rolled, the limit as that window ends. */
  lemma MiddleBurst(ip: string, start: Time, end: Time, rest: seq<Op>, later: Time, log: seq<Time>, cfg: Rules)
      returns (ops: seq<Op>)
    requires Suitable(cfg) && end == start + cfg.window && end <= later
    requires Run(ip, Some(Window(cfg.limit, cfg.limit, start)), rest, later, log, cfg)
    ensures Run(ip, Some(Window(cfg.limit, 0, start)), ops, end, Burst(end, cfg.limit, log), cfg)
  {
    ops := BurstFirst(ip, Window(cfg.limit, 0, start), end, rest, later, log, cfg);
  }

  /** A full window, and one refused request two windows after it began. */
  lemma RefuseFirst(ip: string, rest: seq<Op>, later: Time, log: seq<Time>, cfg: Rules) returns (ops: seq<Op>)
    requires Suitable(cfg) && cfg.window * 2 <= later
    requires Run(ip, Some(Window(cfg.limit, 0, cfg.window * 2)), rest, later, log, cfg)
    ensures Run(ip, Some(Window(0, cfg.limit, 0)), ops, cfg.window * 2, log, cfg)
  {
    FullAfterTwo(cfg);
    ops := RequestFirst(ip, Some(Window(0, cfg.limit, 0)), cfg.window * 2, Window(cfg.limit, 0, cfg.window * 2), false,
                        rest, later, log, cfg);
    assert [] + log == log;
  }

  /** The limit at time zero. */
  lemma FillFirst(ip: string, rest: seq<Op>, later: Time, log: seq<Time>, cfg: Rules) returns (ops: seq<Op>)
    requires Suitable(cfg) && 0 <= later
    requires Run(ip, Some(Window(0, cfg.limit, 0)), rest, later, log, cfg)
    ensures Run(ip, None, ops, 0, Burst(0, cfg.limit, log), cfg)
  {
    ops := BurstFirst(ip, Window(0, 1, 0), 0, rest, later, log, cfg);
    ops := RequestFirst(ip, None, 0, Window(0, 1, 0), true, ops, 0, Burst(0, cfg.limit - 1, log), cfg);
  }

  /** In the run `ops` the key has twice the limit accepted within one window from `from` on. */
  ghost predicate ReachesTwice(ip: string, ops: seq<Op>, clock: Time, from: Time, cfg: Rules) {
    && cfg.Valid() && Timed(ops, clock) && IsTrace(map[], ops, cfg) && NeverEvicted(map[], ops, ip, cfg)
    && CountIn(Accepted(map[], ops, ip, cfg), from, cfg.window) == 2 * cfg.limit
  }

  /** For every suitable comparison some run of one key accepts exactly twice the limit within one window. */
  lemma TwiceTheLimitIsReached(ip: string, cfg: Rules) returns (ops: seq<Op>, from: Time)
    requires Suitable(cfg)
    ensures ReachesTwice(ip, ops, 0, from, cfg)
  {
    var limit, window := cfg.limit, cfg.window;
    from := window * 3;
    var end := window * 4 - 1;
    ops := LastBurst(ip, window * 2, end, cfg);
    ops := MiddleBurst(ip, window * 2, from, ops, end, Burst(end, limit, []), cfg);
    var late := Burst(from, limit, Burst(end, limit, []));
    ops := RefuseFirst(ip, ops, from, late, cfg);
    ops := FillFirst(ip, ops, window * 2, late, cfg);
    var log := Burst(0, limit, late);
    LateArrivals(log, late, limit, from, end);
    StretchCounts(log, limit, limit * 3, from, window);
    AtMostTwiceTheLimit(ops, ip, 0, from, cfg);
  }

  /** So it is in floating point, for every positive limit and every window at least twice as long. */
  lemma TwiceTheLimitIsReachedRounded(ip: string, limit: int, window: int, round: real -> real, fused: bool)
      returns (ops: seq<Op>, from: Time)
    requires 1 <= limit && 2 * limit <= window <= TWO_51 && IsDouble(round)
    ensures ReachesTwice(ip, ops, 0, from, Rounded(limit, window, round, fused))
  {
    RoundedHonoursLimit(limit, window, round, fused);
    RoundedFades(limit, window, round, fused);
    RoundedLeavesRoom(limit, window, round, fused);
    ops, from := TwiceTheLimitIsReached(ip, Rounded(limit, window, round, fused));
  }

  /** With the exact comparison: exactly if the window is longer than the limit. */
  lemma TwiceTheLimitIsReachedIff(ip: string, limit: int, window: int)
    requires limit >= 1 && window >= 1
    ensures (exists ops: seq<Op>, clock: Time, from: Time :: ReachesTwice(ip, ops, clock, from, Exact(limit, window)))
            <==> window > limit
  {
    var cfg := Exact(limit, window);
    if window > limit {
      ExactHonoursLimit(limit, window);
      ExactFades(limit, window);
      ExactLeavesRoom(limit, window);
      var ops, from := TwiceTheLimitIsReached(ip, cfg);
    } else {
      forall ops: seq<Op>, clock: Time, from: Time
        | Timed(ops, clock) && IsTrace(map[], ops, cfg) && NeverEvicted(map[], ops, ip, cfg)
        ensures !ReachesTwice(ip, ops, clock, from, cfg)
      {
        BelowTwiceInShortWindows(ops, ip, clock, from, limit, window);
      }
    }
  }

  lemma LateArrivals(log: seq<Time>, late: seq<Time>, limit: nat, from: Time, end: Time)
    requires late == Burst(from, limit, Burst(end, limit, [])) && log == Burst(0, limit, late)
    ensures |log| == limit * 3
    ensures forall i :: limit <= i < limit * 3 ==> log[i] == from || log[i] == end
  {
    BurstAt(end, limit, []);
    BurstAt(from, limit, Burst(end, limit, []));
    BurstAt(0, limit, late);
  }
}
