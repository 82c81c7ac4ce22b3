/** The sliding-window request limiter (middleware/ratelimit.go), for any comparison of `RateRules`. */
module RateLimit {
  import opened Prelude
  import opened Intervals
  import opened Middleware
  import opened RateRules

  // ---------------------------------------------------------------- one key

  function Rolled(w: Window, now: Time, cfg: Rules): Window
    requires cfg.Valid()
  {
    var elapsed := now - w.start;
    if elapsed > cfg.window then Window(w.curr, 0, w.start + cfg.window * (elapsed / cfg.window)) else w
  }

  function Decide(w: Option<Window>, now: Time, cfg: Rules): (r: (Window, bool))
    requires cfg.Valid()
  {
    if w.None? || now - w.value.start > cfg.window * 2 then
      (Window(0, 1, now), true)
    else
      var v := Rolled(w.value, now, cfg);
      if cfg.refuses(v, now) then (v, false)
      else (v.(curr := v.curr + 1), true)
  }

  // ---------------------------------------------------------------- the whole map

  type Table = map<string, Window>

  function Lookup(t: Table, ip: string): Option<Window> {
    if ip in t then Some(t[ip]) else None
  }

  /** The scan of evictOldest; the empty string doubles as "none found yet". */
  function Oldest(t: Table, order: seq<string>): (k: string)
    requires forall k <- order :: k in t
    ensures k == "" || k in order
  {
    if order == [] then ""
    else
      var n := |order| - 1;
      var before := Oldest(t, order[..n]);
      if before == "" || t[order[n]].start < t[before].start then order[n] else before
  }

  function AfterEvict(t: Table, order: seq<string>): Table
    requires forall k <- order :: k in t
  {
    var k := Oldest(t, order);
    if k == "" then t else t - {k}
  }

  predicate Evicts(t: Table, ip: string) {
    ip !in t && |t| >= MAX_TRACKED_IPS
  }

  function AfterRequest(t: Table, ip: string, now: Time, order: seq<string>, cfg: Rules): (Table, bool)
    requires cfg.Valid() && (Evicts(t, ip) ==> Enumerates(order, t.Keys))
  {
    var room := if Evicts(t, ip) then AfterEvict(t, order) else t;
    var (w, ok) := Decide(Lookup(t, ip), now, cfg);
    (room[ip := w], ok)
  }

  predicate Stale(w: Window, now: Time, cfg: Rules) {
    now - w.start > cfg.window * 2
  }

  function AfterCleanup(t: Table, now: Time, cfg: Rules): Table {
    map k | k in t && !Stale(t[k], now, cfg) :: t[k]
  }

  /** After a cleanup exactly the windows that began at most two window lengths ago are left, as they were. */
  lemma CleanupLeavesExactly(t: Table, now: Time, ip: string, cfg: Rules)
    ensures var u := AfterCleanup(t, now, cfg);
            && (ip in u <==> ip in t && now <= t[ip].start + 2 * cfg.window)
            && (ip in u ==> u[ip] == t[ip])
  {
  }

  /** A request of one key removes another exactly if the first is new to a map of ten thousand or more and the scan
    * names the second; it changes no other. */
  lemma RequestRemovesExactly(t: Table, ip: string, other: string, now: Time, order: seq<string>, cfg: Rules)
    requires cfg.Valid() && (Evicts(t, ip) ==> Enumerates(order, t.Keys)) && other != ip
    ensures var u := AfterRequest(t, ip, now, order, cfg).0;
            var full := ip !in t && |t| >= 10_000;
            && (other in u <==> other in t && !(full && other != "" && other == Oldest(t, order)))
            && (other in u ==> u[other] == t[other])
  {
  }

  // ---------------------------------------------------------------- eviction

  predicate IsOldest(t: Table, k: string) {
    k in t && forall j <- t :: t[k].start <= t[j].start
  }

  /** Some key other than the sentinel is among the oldest of `keys`. */
  predicate HasNamedOldest(t: Table, keys: seq<string>)
    requires forall k <- keys :: k in t
  {
    exists k <- keys :: k != "" && forall j <- keys :: t[k].start <= t[j].start
  }

  lemma {:induction false} ScanFindsOldest(t: Table, order: seq<string>)
    requires forall k <- order :: k in t
    requires HasNamedOldest(t, order)
    ensures var k := Oldest(t, order);
            k != "" && k in order && forall j <- order :: t[k].start <= t[j].start
  {
    var n := |order| - 1;
    var first, last := order[..n], order[n];
    assert order == first + [last];
    var g :| g in order && g != "" && forall j <- order :: t[g].start <= t[j].start;
    if HasNamedOldest(t, first) {
      ScanFindsOldest(t, first);
    } else {
      assert g == last;
      var before := Oldest(t, first);
      if before != "" {
        var j :| j in first && t[j].start < t[before].start;
        assert t[last].start <= t[j].start;
      }
    }
  }

  /** For every iteration order, evictOldest removes exactly one entry, and an oldest one, precisely when the
    * empty string is not a key or some other key is no younger than it. */
  lemma EvictionRemovesAnOldestIff(t: Table, order: seq<string>)
    requires t != map[] && Enumerates(order, t.Keys)
    ensures (exists k :: IsOldest(t, k) && AfterEvict(t, order) == t - {k})
            <==> ("" !in t || exists k <- t :: k != "" && t[k].start <= t[""].start)
  {
    var k := Oldest(t, order);
    if "" !in t || exists k <- t :: k != "" && t[k].start <= t[""].start {
      NamedOldestExists(t, order);
      ScanFindsOldest(t, order);
      assert IsOldest(t, k);
    }
    if exists k :: IsOldest(t, k) && AfterEvict(t, order) == t - {k} {
      var o :| IsOldest(t, o) && AfterEvict(t, order) == t - {o};
      assert o !in AfterEvict(t, order);
      assert o == k && k != "";
    }
  }

  /** The iteration comes to the empty string last, and that key is the only oldest. */
  predicate SentinelLast(t: Table, order: seq<string>) {
    && order != [] && order[|order| - 1] == ""
    && "" in t && forall k <- t :: k != "" ==> t[""].start < t[k].start
  }

  /** It removes nothing precisely then. */
  lemma SentinelDefeatsEvictionIff(t: Table, order: seq<string>)
    requires t != map[] && Enumerates(order, t.Keys)
    ensures AfterEvict(t, order) == t <==> SentinelLast(t, order)
  {
    var some :| some in t;
    assert some in order;
    var k := Oldest(t, order);
    assert AfterEvict(t, order) == t <==> k == "";
    if "" !in t || exists k <- t :: k != "" && t[k].start <= t[""].start {
      NamedOldestExists(t, order);
      ScanFindsOldest(t, order);
    }
  }

  lemma NamedOldestExists(t: Table, order: seq<string>)
    requires t != map[] && Enumerates(order, t.Keys)
    requires "" !in t || exists k <- t :: k != "" && t[k].start <= t[""].start
    ensures HasNamedOldest(t, order)
  {
    var named := t.Keys - {""};
    var k :| k in t && ("" in t ==> k != "");
    assert k in named;
    var g := OldestOf(t, named);
    assert g in order;
  }

  lemma {:induction false} OldestOf(t: Table, keys: set<string>) returns (g: string)
    requires keys != {} && keys <= t.Keys
    ensures g in keys && forall j <- keys :: t[g].start <= t[j].start
    decreases |keys|
  {
    var first :| first in keys;
    var rest := keys - {first};
    g := first;
    if rest != {} {
      var h := OldestOf(t, rest);
      g := if t[h].start < t[first].start then h else first;
      assert forall j <- keys :: j in rest || j == first;
    }
  }

  // ---------------------------------------------------------------- traces

  datatype Op = Request(ip: string, now: Time, order: seq<string>) | Cleanup(now: Time)

  function AfterOp(t: Table, op: Op, cfg: Rules): Table
    requires cfg.Valid() && CanHappen(t, op)
  {
    match op
    case Request(ip, now, order) => AfterRequest(t, ip, now, order, cfg).0
    case Cleanup(now) => AfterCleanup(t, now, cfg)
  }

  /** An eviction scans the map in some order. */
  predicate CanHappen(t: Table, op: Op) {
    op.Request? && Evicts(t, op.ip) ==> Enumerates(op.order, t.Keys)
  }

  predicate IsTrace(t: Table, ops: seq<Op>, cfg: Rules)
    requires cfg.Valid()
    decreases ops
  {
    ops == [] || (CanHappen(t, ops[0]) && IsTrace(AfterOp(t, ops[0], cfg), ops[1..], cfg))
  }

  predicate Timed(ops: seq<Op>, clock: Time)
    decreases ops
  {
    ops == [] || (clock <= ops[0].now && Timed(ops[1..], ops[0].now))
  }

  /** No step of the trace evicts `ip` to make room for another key. */
  predicate NeverEvicted(t: Table, ops: seq<Op>, ip: string, cfg: Rules)
    requires cfg.Valid() && IsTrace(t, ops, cfg)
    decreases ops
  {
    ops == []
    || (!(ops[0].Request? && Evicts(t, ops[0].ip) && Oldest(t, ops[0].order) == ip)
        && NeverEvicted(AfterOp(t, ops[0], cfg), ops[1..], ip, cfg))
  }

  function After(t: Table, ops: seq<Op>, cfg: Rules): Table
    requires cfg.Valid() && IsTrace(t, ops, cfg)
    decreases ops
  {
    if ops == [] then t else After(AfterOp(t, ops[0], cfg), ops[1..], cfg)
  }

  /** What one operation adds to the log of `ip`. */
  function Logged(t: Table, op: Op, ip: string, cfg: Rules): seq<Time>
    requires cfg.Valid()
  {
    if op.Request? && op.ip == ip && Decide(Lookup(t, ip), op.now, cfg).1 then [op.now] else []
  }

  /** The arrival times of the accepted requests of `ip`. */
  function Accepted(t: Table, ops: seq<Op>, ip: string, cfg: Rules): seq<Time>
    requires cfg.Valid() && IsTrace(t, ops, cfg)
    decreases ops
  {
    if ops == [] then []
    else Logged(t, ops[0], ip, cfg) + Accepted(AfterOp(t, ops[0], cfg), ops[1..], ip, cfg)
  }

  function EndTime(ops: seq<Op>, clock: Time): Time {
    if ops == [] then clock else ops[|ops| - 1].now
  }

  // ---------------------------------------------------------------- the map stays bounded

  lemma SizeWithout(t: Table, k: string)
    requires k in t
    ensures |t - {k}| == |t| - 1
  {
    assert (t - {k}).Keys == t.Keys - {k};
    assert |t - {k}| == |(t - {k}).Keys| && |t| == |t.Keys|;
  }

  lemma SizeWith(t: Table, k: string, w: Window)
    ensures |t[k := w]| == if k in t then |t| else |t| + 1
  {
    assert t[k := w].Keys == t.Keys + {k};
    assert |t[k := w]| == |t[k := w].Keys| && |t| == |t.Keys|;
  }

  /** A request takes the map over the cap exactly when it makes room for a new key and the scan finds none. */
  lemma RequestExceedsCapIff(t: Table, ip: string, now: Time, order: seq<string>, cfg: Rules)
    requires cfg.Valid() && |t| <= MAX_TRACKED_IPS && (Evicts(t, ip) ==> Enumerates(order, t.Keys))
    ensures |AfterRequest(t, ip, now, order, cfg).0| > MAX_TRACKED_IPS <==> Evicts(t, ip) && SentinelLast(t, order)
  {
    var w := Decide(Lookup(t, ip), now, cfg).0;
    SizeWith(t, ip, w);
    if Evicts(t, ip) {
      SentinelDefeatsEvictionIff(t, order);
      if Oldest(t, order) != "" {
        SizeWithout(t, Oldest(t, order));
        SizeWith(AfterEvict(t, order), ip, w);
      }
    }
  }

  lemma CleanupShrinks(t: Table, now: Time, cfg: Rules)
    ensures |AfterCleanup(t, now, cfg)| <= |t|
  {
    var u := AfterCleanup(t, now, cfg);
    SubsetSize(u.Keys, t.Keys);
    assert |u| == |u.Keys| && |t| == |t.Keys|;
  }

  /** The map holds at most as many keys as the cap, now and after every operation. */
  predicate Capped(t: Table, ops: seq<Op>, cfg: Rules)
    requires cfg.Valid() && IsTrace(t, ops, cfg)
    decreases ops
  {
    |t| <= MAX_TRACKED_IPS && (ops == [] || Capped(AfterOp(t, ops[0], cfg), ops[1..], cfg))
  }

  /** No eviction of the run comes to the empty string last while it is the only oldest key. */
  predicate NoSentinelLast(t: Table, ops: seq<Op>, cfg: Rules)
    requires cfg.Valid() && IsTrace(t, ops, cfg)
    decreases ops
  {
    ops == []
    || (&& !(ops[0].Request? && Evicts(t, ops[0].ip) && SentinelLast(t, ops[0].order))
        && NoSentinelLast(AfterOp(t, ops[0], cfg), ops[1..], cfg))
  }

  /** The cap holds throughout a run exactly under that condition. */
  lemma {:induction false} SizeStaysCappedIff(t: Table, ops: seq<Op>, cfg: Rules)
    requires cfg.Valid() && IsTrace(t, ops, cfg) && |t| <= MAX_TRACKED_IPS
    ensures Capped(t, ops, cfg) <==> NoSentinelLast(t, ops, cfg)
    decreases ops
  {
    if ops != [] {
      var u := AfterOp(t, ops[0], cfg);
      match ops[0] {
        case Cleanup(now) => CleanupShrinks(t, now, cfg);
        case Request(ip, now, order) => RequestExceedsCapIff(t, ip, now, order, cfg);
      }
      if |u| <= MAX_TRACKED_IPS {
        SizeStaysCappedIff(u, ops[1..], cfg);
      }
    }
  }

  /** So without requests from the empty key it always holds. */
  lemma {:induction false} SizeStaysCapped(t: Table, ops: seq<Op>, cfg: Rules)
    requires cfg.Valid() && IsTrace(t, ops, cfg) && |t| <= MAX_TRACKED_IPS && "" !in t
    requires forall i :: 0 <= i < |ops| && ops[i].Request? ==> ops[i].ip != ""
    ensures Capped(t, ops, cfg)
    decreases ops
  {
    SizeStaysCappedIff(t, ops, cfg);
    NamedKeysOnly(t, ops, cfg);
  }

  lemma {:induction false} NamedKeysOnly(t: Table, ops: seq<Op>, cfg: Rules)
    requires cfg.Valid() && IsTrace(t, ops, cfg) && "" !in t
    requires forall i :: 0 <= i < |ops| && ops[i].Request? ==> ops[i].ip != ""
    ensures NoSentinelLast(t, ops, cfg)
    decreases ops
  {
    if ops != [] {
      NamedKeysOnly(AfterOp(t, ops[0], cfg), ops[1..], cfg);
    }
  }

  // ---------------------------------------------------------------- how many are accepted in any window

  /** `log` holds the accepted arrivals of a key whose window is `w`, at time `clock`. */
  predicate KeyInv(log: seq<Time>, w: Option<Window>, clock: Time, cfg: Rules) {
    var n := |log|;
    && Sorted(log)
    && (forall j :: 0 <= j < n ==> log[j] <= clock)
    && match w
       case None => forall j :: 0 <= j < n ==> log[j] + cfg.window <= clock
       case Some(v) =>
         && WindowInv(v, clock, cfg)
         && v.curr <= n
         && (forall j :: 0 <= j < n ==> log[j] <= v.start + cfg.window)
         && (forall j :: 0 <= j < n - v.curr ==> log[j] <= v.start)
         && (forall j :: 0 <= j < n - v.curr - v.prev ==> log[j] + cfg.window <= v.start)
         && v.curr + v.prev <= n
         && (forall j :: n - v.curr <= j < n ==> v.start <= log[j])
         && (forall j :: n - v.curr - v.prev <= j < n ==> v.start <= log[j] + cfg.window * 2)
  }

  predicate WindowInv(v: Window, clock: Time, cfg: Rules) {
    0 <= v.prev <= AtLeastOne(cfg.limit) && 0 <= v.curr <= AtLeastOne(cfg.limit) && v.start <= clock
  }

  /** What the comparison lets through keeps arrivals `gap` places apart a window apart: the two counts stay
    * below `gap`, or the request comes at the very end of the window and the current count does. */
  ghost predicate Separates(gap: nat, cfg: Rules) {
    && gap >= 1
    && forall v: Window, now: Time ::
         (WindowInv(v, now, cfg) && now <= v.start + cfg.window && !cfg.refuses(v, now)) ==>
           v.curr < cfg.limit && (v.curr + v.prev < gap || (now == v.start + cfg.window && v.curr < gap))
  }

  lemma RollDistance(elapsed: int, window: int)
    requires 0 < window < elapsed <= window * 2
    ensures elapsed / window == if elapsed == window * 2 then 2 else 1
  {
    var q, r := elapsed / window, elapsed % window;
    assert elapsed == window * q + r && 0 <= r < window;
  }

  /** After rolling, the request lies in the closed window [start, start + window]. */
  lemma RolledWindow(w: Window, now: Time, cfg: Rules)
    requires cfg.Valid() && w.start <= now && now - w.start <= cfg.window * 2
    ensures var v := Rolled(w, now, cfg);
            && v.start <= now <= v.start + cfg.window
            && if now - w.start > cfg.window then
                 v.prev == w.curr && v.curr == 0
                 && v.start == (if now - w.start == cfg.window * 2 then now else w.start + cfg.window)
               else
                 v == w
  {
    if now - w.start > cfg.window {
      RollDistance(now - w.start, cfg.window);
    }
  }

  lemma RolledKeepsKeyInv(log: seq<Time>, w: Window, clock: Time, now: Time, cfg: Rules)
    requires cfg.Valid() && KeyInv(log, Some(w), clock, cfg)
    requires clock <= now && now - w.start <= cfg.window * 2
    ensures KeyInv(log, Some(Rolled(w, now, cfg)), now, cfg)
  {
    RolledWindow(w, now, cfg);
  }

  lemma ResetKeepsKeyInv(log: seq<Time>, w: Option<Window>, clock: Time, now: Time, gap: nat, cfg: Rules)
    requires cfg.Valid() && KeyInv(log, w, clock, cfg) && clock <= now
    requires gap >= 1 && Spread(log, gap, cfg.window)
    requires w.None? || now - w.value.start > cfg.window * 2
    ensures KeyInv(log + [now], Some(Window(0, 1, now)), now, cfg) && Spread(log + [now], gap, cfg.window)
  {
    assert forall j :: 0 <= j < |log| ==> log[j] + cfg.window <= now;
    SpreadByAppending(log, gap, cfg.window, now);
  }

  lemma AcceptIsSpread(log: seq<Time>, v: Window, now: Time, gap: nat, cfg: Rules)
    requires cfg.Valid() && KeyInv(log, Some(v), now, cfg) && During(v, now, cfg.window)
    requires gap >= 1 && Spread(log, gap, cfg.window)
    requires v.curr + v.prev < gap || (now == v.start + cfg.window && v.curr < gap)
    ensures Spread(log + [now], gap, cfg.window)
  {
    if |log| >= gap {
      assert log[|log| - gap] + cfg.window <= now;
    }
    SpreadByAppending(log, gap, cfg.window, now);
  }

  lemma AcceptKeepsKeyInv(log: seq<Time>, v: Window, now: Time, cfg: Rules)
    requires cfg.Valid() && KeyInv(log, Some(v), now, cfg) && During(v, now, cfg.window)
    requires v.curr < AtLeastOne(cfg.limit)
    ensures KeyInv(log + [now], Some(v.(curr := v.curr + 1)), now, cfg)
  {
    SortedByAppending(log, now);
    var later := log + [now];
    assert forall j :: 0 <= j < |log| ==> later[j] == log[j];
  }

  lemma RolledRequestKeepsKeyInv(log: seq<Time>, v: Window, now: Time, gap: nat, cfg: Rules)
    requires cfg.Valid() && KeyInv(log, Some(v), now, cfg) && During(v, now, cfg.window)
    requires Separates(gap, cfg) && Spread(log, gap, cfg.window)
    ensures cfg.refuses(v, now) ==> KeyInv(log, Some(v), now, cfg) && Spread(log, gap, cfg.window)
    ensures !cfg.refuses(v, now) ==>
              KeyInv(log + [now], Some(v.(curr := v.curr + 1)), now, cfg) && Spread(log + [now], gap, cfg.window)
  {
    if !cfg.refuses(v, now) {
      AcceptIsSpread(log, v, now, gap, cfg);
      AcceptKeepsKeyInv(log, v, now, cfg);
    }
  }

  lemma RequestKeepsKeyInv(log: seq<Time>, w: Option<Window>, clock: Time, now: Time, gap: nat, cfg: Rules)
    requires cfg.Valid() && KeyInv(log, w, clock, cfg) && clock <= now
    requires Separates(gap, cfg) && Spread(log, gap, cfg.window)
    ensures var (v, ok) := Decide(w, now, cfg);
            var later := if ok then log + [now] else log;
            KeyInv(later, Some(v), now, cfg) && Spread(later, gap, cfg.window)
  {
    if w.None? || now - w.value.start > cfg.window * 2 {
      ResetKeepsKeyInv(log, w, clock, now, gap, cfg);
    } else {
      RolledWindow(w.value, now, cfg);
      RolledKeepsKeyInv(log, w.value, clock, now, cfg);
      RolledRequestKeepsKeyInv(log, Rolled(w.value, now, cfg), now, gap, cfg);
    }
  }

  lemma CleanupKeepsKeyInv(log: seq<Time>, t: Table, ip: string, clock: Time, now: Time, cfg: Rules)
    requires cfg.Valid() && KeyInv(log, Lookup(t, ip), clock, cfg) && clock <= now
    ensures KeyInv(log, Lookup(AfterCleanup(t, now, cfg), ip), now, cfg)
  {
  }

  lemma OtherKeepsLookup(t: Table, op: Op, ip: string, cfg: Rules)
    requires cfg.Valid() && CanHappen(t, op) && op.Request? && op.ip != ip
    requires !(Evicts(t, op.ip) && Oldest(t, op.order) == ip)
    ensures Lookup(AfterOp(t, op, cfg), ip) == Lookup(t, ip)
  {
  }

  lemma OpKeepsKeyInv(t: Table, op: Op, ip: string, log: seq<Time>, clock: Time, gap: nat, cfg: Rules)
    requires cfg.Valid() && CanHappen(t, op) && clock <= op.now && KeyInv(log, Lookup(t, ip), clock, cfg)
    requires Separates(gap, cfg) && Spread(log, gap, cfg.window)
    requires !(op.Request? && Evicts(t, op.ip) && Oldest(t, op.order) == ip)
    ensures var later := log + Logged(t, op, ip, cfg);
            KeyInv(later, Lookup(AfterOp(t, op, cfg), ip), op.now, cfg) && Spread(later, gap, cfg.window)
  {
    assert log + [] == log;
    if op.Request? && op.ip == ip {
      RequestKeepsKeyInv(log, Lookup(t, ip), clock, op.now, gap, cfg);
      assert Lookup(AfterOp(t, op, cfg), ip) == Some(Decide(Lookup(t, ip), op.now, cfg).0);
    } else if op.Request? {
      OtherKeepsLookup(t, op, ip, cfg);
    } else {
      CleanupKeepsKeyInv(log, t, ip, clock, op.now, cfg);
    }
  }

  lemma {:induction false} TraceKeepsKeyInv(
    t: Table, ops: seq<Op>, ip: string, log: seq<Time>, clock: Time, gap: nat, cfg: Rules)
    requires cfg.Valid() && IsTrace(t, ops, cfg) && Timed(ops, clock) && NeverEvicted(t, ops, ip, cfg)
    requires Separates(gap, cfg) && Spread(log, gap, cfg.window)
    requires KeyInv(log, Lookup(t, ip), clock, cfg)
    ensures var all := log + Accepted(t, ops, ip, cfg);
            KeyInv(all, Lookup(After(t, ops, cfg), ip), EndTime(ops, clock), cfg) && Spread(all, gap, cfg.window)
    decreases ops
  {
    if ops == [] {
      assert log + Accepted(t, ops, ip, cfg) == log;
    } else {
      var op, rest := ops[0], ops[1..];
      var t1 := AfterOp(t, op, cfg);
      OpKeepsKeyInv(t, op, ip, log, clock, gap, cfg);
      TraceKeepsKeyInv(t1, rest, ip, log + Logged(t, op, ip, cfg), op.now, gap, cfg);
      Regroup(log, Logged(t, op, ip, cfg), Accepted(t1, rest, ip, cfg));
      assert EndTime(ops, clock) == EndTime(rest, op.now);
    }
  }

  lemma ReachableKeyInv(ops: seq<Op>, ip: string, clock: Time, gap: nat, cfg: Rules)
    requires cfg.Valid() && IsTrace(map[], ops, cfg) && Timed(ops, clock) && NeverEvicted(map[], ops, ip, cfg)
    requires Separates(gap, cfg)
    ensures var log := Accepted(map[], ops, ip, cfg);
            KeyInv(log, Lookup(After(map[], ops, cfg), ip), EndTime(ops, clock), cfg) && Spread(log, gap, cfg.window)
  {
    TraceKeepsKeyInv(map[], ops, ip, [], clock, gap, cfg);
    var log := Accepted(map[], ops, ip, cfg);
    assert [] + log == log;
  }

  lemma FullLimitSeparates(cfg: Rules)
    requires cfg.Valid() && HonoursLimit(cfg)
    ensures Separates(2 * AtLeastOne(cfg.limit), cfg)
  {
    forall v: Window, now: Time | WindowInv(v, now, cfg) && now <= v.start + cfg.window && !cfg.refuses(v, now)
      ensures v.curr < cfg.limit && v.curr + v.prev < 2 * AtLeastOne(cfg.limit)
    {
    }
  }

  /** In any half-open interval one window long, a key that is not evicted has at most 2*limit accepted
    * requests (two if the limit is not positive), whatever other keys and the cleanup do, and however the
    * comparison rounds. */
  lemma AtMostTwiceTheLimit(ops: seq<Op>, ip: string, clock: Time, from: Time, cfg: Rules)
    requires cfg.Valid() && HonoursLimit(cfg)
    requires IsTrace(map[], ops, cfg) && Timed(ops, clock) && NeverEvicted(map[], ops, ip, cfg)
    ensures CountIn(Accepted(map[], ops, ip, cfg), from, cfg.window) <= 2 * Max(1, cfg.limit)
  {
    var gap := 2 * AtLeastOne(cfg.limit);
    FullLimitSeparates(cfg);
    ReachableKeyInv(ops, ip, clock, gap, cfg);
    SpreadBoundsCount(Accepted(map[], ops, ip, cfg), gap, from, cfg.window);
  }

  /** In floating point too. */
  lemma AtMostTwiceTheLimitRounded(
    ops: seq<Op>, ip: string, clock: Time, from: Time, limit: int, window: int, round: real -> real, fused: bool)
    requires window > 0 && IsRounding(round)
    requires var cfg := Rounded(limit, window, round, fused);
             IsTrace(map[], ops, cfg) && Timed(ops, clock) && NeverEvicted(map[], ops, ip, cfg)
    ensures CountIn(Accepted(map[], ops, ip, Rounded(limit, window, round, fused)), from, window) <= 2 * Max(1, limit)
  {
    RoundedHonoursLimit(limit, window, round, fused);
    AtMostTwiceTheLimit(ops, ip, clock, from, Rounded(limit, window, round, fused));
  }

  lemma OneBelowFull(prev: int, rest: int, limit: int, window: int)
    requires prev >= 0 && rest >= 1 && prev * rest + (limit - 1) * window < limit * window
    ensures prev < window
  {
    assert (limit - 1) * window == limit * window - window;
    assert prev * rest >= prev by { AtLeastOnce(prev, rest); }
  }

  lemma AtLeastOnce(a: int, b: int)
    requires a >= 0 && b >= 1
    ensures a * b >= a
  {
  }

  lemma ShortWindowSeparates(limit: int, window: int)
    requires 1 <= window <= limit
    ensures Separates(2 * limit - 1, Exact(limit, window))
  {
    var cfg := Exact(limit, window);
    ExactHonoursLimit(limit, window);
    forall v: Window, now: Time | WindowInv(v, now, cfg) && now <= v.start + window && !cfg.refuses(v, now)
      ensures v.curr < limit
      ensures v.curr + v.prev < 2 * limit - 1 || (now == v.start + window && v.curr < 2 * limit - 1)
    {
      if v.curr == limit - 1 && now < v.start + window {
        OneBelowFull(v.prev, window - (now - v.start), limit, window);
      }
    }
  }

  /** With a window no longer than the limit (in nanoseconds) and an exact comparison, a key stays below twice
    * the limit. */
  lemma BelowTwiceInShortWindows(ops: seq<Op>, ip: string, clock: Time, from: Time, limit: int, window: int)
    requires 1 <= window <= limit
    requires var cfg := Exact(limit, window);
             IsTrace(map[], ops, cfg) && Timed(ops, clock) && NeverEvicted(map[], ops, ip, cfg)
    ensures CountIn(Accepted(map[], ops, ip, Exact(limit, window)), from, window) < 2 * limit
  {
    var cfg := Exact(limit, window);
    ShortWindowSeparates(limit, window);
    ReachableKeyInv(ops, ip, clock, 2 * limit - 1, cfg);
    SpreadBoundsCount(Accepted(map[], ops, ip, cfg), 2 * limit - 1, from, window);
  }

  /** The positive part in that bound is needed: with a limit of zero or less a key's first request is still
    * accepted, so 2*limit is exceeded at once. */
  lemma NonPositiveLimitIsExceeded(ip: string, now: Time, cfg: Rules)
    requires cfg.Valid() && cfg.limit <= 0
    ensures var ops := [Request(ip, now, [])];
            && IsTrace(map[], ops, cfg) && NeverEvicted(map[], ops, ip, cfg)
            && CountIn(Accepted(map[], ops, ip, cfg), now, cfg.window) > 2 * cfg.limit
  {
    var ops := [Request(ip, now, [])];
    assert ops[1..] == [];
    assert Accepted(map[], ops, ip, cfg) == [now];
    assert (set i | 0 <= i < 1 && now <= [now][i] < now + cfg.window) == {0};
  }

  // ---------------------------------------------------------------- no starvation

  /** In every reachable state a request more than one window after its key's window began is accepted,
    * except at exactly two windows when the old window was full.  The exact comparison and, in the usual range,
    * the floating-point one meet the requirements (`RateRules`). */
  lemma AcceptedAfterOneWindow(ops: seq<Op>, ip: string, clock: Time, now: Time, cfg: Rules)
    requires cfg.Valid() && cfg.limit >= 1 && HonoursLimit(cfg) && Fades(cfg)
    requires IsTrace(map[], ops, cfg) && Timed(ops, clock) && NeverEvicted(map[], ops, ip, cfg)
    requires ip in After(map[], ops, cfg) && EndTime(ops, clock) <= now
    requires now - After(map[], ops, cfg)[ip].start > cfg.window
    ensures var w := After(map[], ops, cfg)[ip];
            && w.curr <= cfg.limit
            && (Decide(Some(w), now, cfg).1 <==> !(now - w.start == cfg.window * 2 && w.curr == cfg.limit))
  {
    FullLimitSeparates(cfg);
    ReachableKeyInv(ops, ip, clock, 2 * AtLeastOne(cfg.limit), cfg);
    DecidedAfterOneWindow(After(map[], ops, cfg)[ip], now, cfg);
  }

  lemma DecidedAfterOneWindow(w: Window, now: Time, cfg: Rules)
    requires cfg.Valid() && Fades(cfg) && 0 <= w.curr <= cfg.limit && now - w.start > cfg.window
    ensures Decide(Some(w), now, cfg).1 <==> !(now - w.start == cfg.window * 2 && w.curr == cfg.limit)
  {
    if now - w.start <= cfg.window * 2 {
      RolledWindow(w, now, cfg);
      var v := Rolled(w, now, cfg);
      assert cfg.refuses(v, now) <==> now == v.start && v.prev == cfg.limit;
    }
  }

  // ---------------------------------------------------------------- no undeserved refusal

  /** The newest `n` entries exist and are not older than `from`. */
  predicate NewestSince(log: seq<Time>, n: int, from: Time) {
    n <= |log| && forall j :: 0 <= j < |log| && |log| - n <= j ==> from <= log[j]
  }

  /** In every reachable state a refused request follows at least `limit` accepted ones of the same key within
    * the last three windows. */
  lemma RefusedOnlyAfterLimit(ops: seq<Op>, ip: string, clock: Time, now: Time, cfg: Rules)
    requires cfg.Valid() && HonoursLimit(cfg) && RefusesOnlyFull(cfg)
    requires IsTrace(map[], ops, cfg) && Timed(ops, clock) && NeverEvicted(map[], ops, ip, cfg)
    requires EndTime(ops, clock) <= now && !Decide(Lookup(After(map[], ops, cfg), ip), now, cfg).1
    ensures NewestSince(Accepted(map[], ops, ip, cfg), cfg.limit, now - cfg.window * 3)
  {
    var log, w := Accepted(map[], ops, ip, cfg), Lookup(After(map[], ops, cfg), ip);
    FullLimitSeparates(cfg);
    ReachableKeyInv(ops, ip, clock, 2 * AtLeastOne(cfg.limit), cfg);
    RolledWindow(w.value, now, cfg);
    RolledKeepsKeyInv(log, w.value, EndTime(ops, clock), now, cfg);
    FullIsRecent(log, Rolled(w.value, now, cfg), now, cfg);
  }

  lemma FullIsRecent(log: seq<Time>, v: Window, now: Time, cfg: Rules)
    requires cfg.Valid() && RefusesOnlyFull(cfg) && KeyInv(log, Some(v), now, cfg)
    requires During(v, now, cfg.window) && cfg.refuses(v, now)
    ensures NewestSince(log, cfg.limit, now - cfg.window * 3)
  {
    assert v.prev + v.curr >= cfg.limit;
  }

  // ---------------------------------------------------------------- cleanup is unobservable

  function Decisions(t: Table, ops: seq<Op>, cfg: Rules): seq<bool>
    requires cfg.Valid() && IsTrace(t, ops, cfg)
    decreases ops
  {
    if ops == [] then []
    else
      (if ops[0].Request? then [Decide(Lookup(t, ops[0].ip), ops[0].now, cfg).1] else [])
      + Decisions(AfterOp(t, ops[0], cfg), ops[1..], cfg)
  }

  function WithoutCleanups(ops: seq<Op>): seq<Op> {
    if ops == [] then []
    else if ops[0].Cleanup? then WithoutCleanups(ops[1..])
    else [ops[0]] + WithoutCleanups(ops[1..])
  }

  /** No request of the trace finds the map full. */
  predicate BelowCap(t: Table, ops: seq<Op>, cfg: Rules)
    requires cfg.Valid() && IsTrace(t, ops, cfg)
    decreases ops
  {
    ops == []
    || (!(ops[0].Request? && Evicts(t, ops[0].ip)) && BelowCap(AfterOp(t, ops[0], cfg), ops[1..], cfg))
  }

  /** `cleaned` lacks only windows of `full` that would be reset anyway. */
  predicate SameButStale(cleaned: Table, full: Table, clock: Time, cfg: Rules) {
    && (forall k <- cleaned :: k in full && cleaned[k] == full[k])
    && (forall k <- full :: k in cleaned || Stale(full[k], clock, cfg))
  }

  lemma CleanedHasRoom(cleaned: Table, full: Table, ip: string)
    requires (forall k <- cleaned :: k in full) && |full| <= MAX_TRACKED_IPS && !Evicts(full, ip)
    ensures !Evicts(cleaned, ip)
  {
    SubsetSize(cleaned.Keys, full.Keys);
    assert |cleaned| == |cleaned.Keys| && |full| == |full.Keys|;
    if ip in full && ip !in cleaned {
      SubsetSize(cleaned.Keys, full.Keys - {ip});
    }
  }

  lemma RequestKeepsSameButStale(cleaned: Table, full: Table, op: Op, clock: Time, cfg: Rules)
    requires cfg.Valid() && op.Request? && clock <= op.now && SameButStale(cleaned, full, clock, cfg)
    requires !Evicts(full, op.ip) && !Evicts(cleaned, op.ip)
    ensures Decide(Lookup(cleaned, op.ip), op.now, cfg) == Decide(Lookup(full, op.ip), op.now, cfg)
    ensures SameButStale(AfterOp(cleaned, op, cfg), AfterOp(full, op, cfg), op.now, cfg)
  {
  }

  lemma {:induction false} CleanupIsUnobservableFrom(
    cleaned: Table, full: Table, ops: seq<Op>, clock: Time, cfg: Rules)
    requires cfg.Valid() && Timed(ops, clock) && SameButStale(cleaned, full, clock, cfg) && |full| <= MAX_TRACKED_IPS
    requires IsTrace(full, WithoutCleanups(ops), cfg) && BelowCap(full, WithoutCleanups(ops), cfg)
    ensures IsTrace(cleaned, ops, cfg)
    ensures Decisions(cleaned, ops, cfg) == Decisions(full, WithoutCleanups(ops), cfg)
    decreases ops
  {
    if ops != [] {
      var op := ops[0];
      if op.Cleanup? {
        CleanupIsUnobservableFrom(AfterCleanup(cleaned, op.now, cfg), full, ops[1..], op.now, cfg);
        assert Decisions(cleaned, ops, cfg) == [] + Decisions(AfterCleanup(cleaned, op.now, cfg), ops[1..], cfg);
      } else {
        var rest := WithoutCleanups(ops[1..]);
        assert WithoutCleanups(ops) == [op] + rest;
        assert WithoutCleanups(ops)[1..] == rest;
        CleanedHasRoom(cleaned, full, op.ip);
        RequestKeepsSameButStale(cleaned, full, op, clock, cfg);
        CleanupIsUnobservableFrom(AfterOp(cleaned, op, cfg), AfterOp(full, op, cfg), ops[1..], op.now, cfg);
      }
    }
  }

  /** As long as no request would find the map full, requests are decided as if the cleanup never ran. */
  lemma CleanupIsUnobservable(ops: seq<Op>, clock: Time, cfg: Rules)
    requires cfg.Valid() && Timed(ops, clock)
    requires IsTrace(map[], WithoutCleanups(ops), cfg) && BelowCap(map[], WithoutCleanups(ops), cfg)
    ensures IsTrace(map[], ops, cfg)
    ensures Decisions(map[], ops, cfg) == Decisions(map[], WithoutCleanups(ops), cfg)
  {
    CleanupIsUnobservableFrom(map[], map[], ops, clock, cfg);
  }
}
