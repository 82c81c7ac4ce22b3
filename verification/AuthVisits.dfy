/** Requests to a protected service (middleware/auth.go, `BasicAuth`) as a state machine: two limiters, one for
  * wrong credentials and one for missing ones.  One action is one critical section of one request, or one half of
  * a cleanup round; any number of requests of any addresses interleave freely. */
module AuthVisits {
  import opened Prelude
  import opened Intervals
  import opened Middleware
  import opened AuthLimit

  const MINUTE: int := 60 * 1_000_000_000

  /** Five wrong passwords in five minutes; thirty requests without any in one minute. */
  const AUTH_CONFIG := Config(5, 5 * MINUTE)
  const NO_CRED_CONFIG := Config(30, MINUTE)

  datatype Secret = Secret(username: string, password: string) {
    /** Without a configured user and password every request is served. */
    predicate Unprotected() { username == "" || password == "" }

    predicate Wrong(c: Credentials) { c.Given? && (c.user != username || c.pass != password) }
  }

  datatype Credentials = Missing | Given(user: string, pass: string)

  datatype Response = TooManyFailures | TooManyProbes | Unauthorized | Served

  /** The values of the two limiters. */
  datatype Shield = Shield(auth: Table, noCred: Table)

  const EMPTY_SHIELD := Shield(map[], map[])

  // ---------------------------------------------------------------- the state machine

  /** A request that the first limiter let through; `probed` if the second one did too. */
  datatype Visit = Visit(ip: string, creds: Credentials, probed: bool)

  datatype State = State(shield: Shield, active: map<nat, Visit>)

  /** `Reject` records a failure and answers Unauthorized; `Accept` goes on to the protected handler. */
  datatype Action =
    | Arrive(id: nat, ip: string, creds: Credentials, now: Time)
    | Probe(id: nat, now: Time)
    | Reject(id: nat, now: Time, blockAt: Time, victim: string)
    | Accept(id: nat, now: Time)
    | SweepLogins(now: Time)
    | SweepProbes(now: Time)

  predicate Enabled(s: State, a: Action, secret: Secret) {
    match a
    case Arrive(id, _, _, _) => id !in s.active
    case Probe(id, _) => id in s.active && s.active[id].creds.Missing? && !s.active[id].probed
    case Reject(id, _, _, _) => id in s.active && (s.active[id].probed || secret.Wrong(s.active[id].creds))
    case Accept(id, _) =>
      id in s.active && !s.active[id].probed && s.active[id].creds.Given? && !secret.Wrong(s.active[id].creds)
    case SweepLogins(_) => true
    case SweepProbes(_) => true
  }

  function Step(s: State, a: Action, secret: Secret): State
    requires Enabled(s, a, secret)
  {
    var sh := s.shield;
    match a
    case Arrive(id, ip, creds, now) =>
      State(sh.(auth := AfterCheck(sh.auth, ip, now, AUTH_CONFIG)),
            if BlockedIn(sh.auth, ip, now, AUTH_CONFIG) then s.active else s.active[id := Visit(ip, creds, false)])
    case Probe(id, now) =>
      var v := s.active[id];
      State(sh.(noCred := AfterCheck(sh.noCred, v.ip, now, NO_CRED_CONFIG)),
            if BlockedIn(sh.noCred, v.ip, now, NO_CRED_CONFIG) then s.active - {id}
            else s.active[id := v.(probed := true)])
    case Reject(id, now, blockAt, victim) =>
      var v := s.active[id];
      State(if v.probed then sh.(noCred := AfterRecord(sh.noCred, v.ip, now, blockAt, victim, NO_CRED_CONFIG))
            else sh.(auth := AfterRecord(sh.auth, v.ip, now, blockAt, victim, AUTH_CONFIG)),
            s.active - {id})
    case Accept(id, _) => s.(active := s.active - {id})
    case SweepLogins(now) => s.(shield := sh.(auth := AfterCleanup(sh.auth, now, AUTH_CONFIG)))
    case SweepProbes(now) => s.(shield := sh.(noCred := AfterCleanup(sh.noCred, now, NO_CRED_CONFIG)))
  }

  predicate IsRun(s: State, acts: seq<Action>, secret: Secret)
    decreases acts
  {
    acts == [] || (Enabled(s, acts[0], secret) && IsRun(Step(s, acts[0], secret), acts[1..], secret))
  }

  function After(s: State, acts: seq<Action>, secret: Secret): State
    requires IsRun(s, acts, secret)
    decreases acts
  {
    if acts == [] then s else After(Step(s, acts[0], secret), acts[1..], secret)
  }

  function EndOf(a: Action): Time {
    if a.Reject? then a.blockAt else a.now
  }

  predicate Timed(acts: seq<Action>, clock: Time)
    decreases acts
  {
    acts == [] || (clock <= acts[0].now <= EndOf(acts[0]) && Timed(acts[1..], EndOf(acts[0])))
  }

  // ---------------------------------------------------------------- what is counted

  /** The requests of `ip` in progress; of those, the ones that the second limiter let through. */
  function Busy(active: map<nat, Visit>, ip: string, probed: bool): set<nat> {
    set id | id in active && active[id].ip == ip && (probed ==> active[id].probed)
  }

  /** Never are more than `k` requests of `ip` in progress. */
  predicate AtMostBusy(s: State, acts: seq<Action>, ip: string, k: nat, secret: Secret)
    requires IsRun(s, acts, secret)
    decreases acts
  {
    |Busy(s.active, ip, false)| <= k
    && (acts == [] || AtMostBusy(Step(s, acts[0], secret), acts[1..], ip, k, secret))
  }

  /** The times at which requests of `ip` were answered Unauthorized: those that had passed the second limiter,
    * or those that had not. */
  function Rejected(s: State, acts: seq<Action>, ip: string, probed: bool, secret: Secret): seq<Time>
    requires IsRun(s, acts, secret)
    decreases acts
  {
    if acts == [] then []
    else RejectedBy(s, acts[0], ip, probed) + Rejected(Step(s, acts[0], secret), acts[1..], ip, probed, secret)
  }

  function RejectedBy(s: State, a: Action, ip: string, probed: bool): seq<Time> {
    if a.Reject? && a.id in s.active && s.active[a.id].ip == ip && s.active[a.id].probed == probed then [a.now] else []
  }

  // ---------------------------------------------------------------- what each limiter sees

  /** The operation of the first limiter (or of the second, if `probes`) that an action is. */
  function OpOf(s: State, a: Action, probes: bool, secret: Secret): seq<Op>
    requires Enabled(s, a, secret)
  {
    match a
    case Arrive(_, ip, _, now) => if probes then [] else [Check(ip, now)]
    case Probe(id, now) =>
      var ip := s.active[id].ip;
      if probes then [Check(ip, now)]
      else if BlockedIn(s.shield.noCred, ip, now, NO_CRED_CONFIG) then [Pass(ip, now)]
      else []
    case Reject(id, now, blockAt, victim) =>
      var ip := s.active[id].ip;
      if probes == s.active[id].probed then [Record(ip, now, blockAt, victim)]
      else if probes then []
      else [Pass(ip, now)]
    case Accept(id, now) => if probes then [] else [Pass(s.active[id].ip, now)]
    case SweepLogins(now) => if probes then [] else [Cleanup(now)]
    case SweepProbes(now) => if probes then [Cleanup(now)] else []
  }

  function OpsOf(s: State, acts: seq<Action>, probes: bool, secret: Secret): seq<Op>
    requires IsRun(s, acts, secret)
    decreases acts
  {
    if acts == [] then []
    else OpOf(s, acts[0], probes, secret) + OpsOf(Step(s, acts[0], secret), acts[1..], probes, secret)
  }

  function TableOf(s: State, probes: bool): Table {
    if probes then s.shield.noCred else s.shield.auth
  }

  function ConfigOf(probes: bool): Config {
    if probes then NO_CRED_CONFIG else AUTH_CONFIG
  }

  lemma LoginStepIsOp(s: State, a: Action, secret: Secret)
    requires Enabled(s, a, secret)
    ensures var ops, u := OpOf(s, a, false, secret), Step(s, a, secret).shield.auth;
            |ops| <= 1 && u == if ops == [] then s.shield.auth else AfterOp(s.shield.auth, ops[0], AUTH_CONFIG)
  {
  }

  lemma ProbeStepIsOp(s: State, a: Action, secret: Secret)
    requires Enabled(s, a, secret)
    ensures var ops, u := OpOf(s, a, true, secret), Step(s, a, secret).shield.noCred;
            |ops| <= 1 && u == if ops == [] then s.shield.noCred else AfterOp(s.shield.noCred, ops[0], NO_CRED_CONFIG)
  {
  }

  lemma OpIsTimed(s: State, a: Action, probes: bool, secret: Secret)
    requires Enabled(s, a, secret) && OpOf(s, a, probes, secret) != [] && a.now <= EndOf(a)
    ensures var op := OpOf(s, a, probes, secret)[0]; op.now == a.now && op.now <= AuthLimit.EndOf(op) <= EndOf(a)
  {
  }

  lemma StepIsOp(s: State, a: Action, probes: bool, secret: Secret)
    requires Enabled(s, a, secret)
    ensures var ops := OpOf(s, a, probes, secret);
            && |ops| <= 1
            && TableOf(Step(s, a, secret), probes) ==
                 (if ops == [] then TableOf(s, probes) else AfterOp(TableOf(s, probes), ops[0], ConfigOf(probes)))
  {
    if probes {
      ProbeStepIsOp(s, a, secret);
    } else {
      LoginStepIsOp(s, a, secret);
    }
  }

  lemma OneMoreBusy(active: map<nat, Visit>, id: nat, v: Visit, ip: string, probed: bool)
    requires id !in Busy(active, ip, probed)
    ensures |Busy(active[id := v], ip, probed)|
            == |Busy(active, ip, probed)| + if v.ip == ip && (probed ==> v.probed) then 1 else 0
  {
    var before, later := Busy(active, ip, probed), Busy(active[id := v], ip, probed);
    assert later == if v.ip == ip && (probed ==> v.probed) then before + {id} else before;
  }

  lemma OneLessBusy(active: map<nat, Visit>, id: nat, ip: string, probed: bool)
    requires id in active
    ensures |Busy(active - {id}, ip, probed)|
            == |Busy(active, ip, probed)| - if id in Busy(active, ip, probed) then 1 else 0
  {
    var before, later := Busy(active, ip, probed), Busy(active - {id}, ip, probed);
    assert later == before - {id};
  }

  /** What is in flight at a limiter is what is busy with it. */
  lemma StepCountsBusy(s: State, a: Action, ip: string, probes: bool, secret: Secret)
    requires Enabled(s, a, secret)
    ensures var ops, n := OpOf(s, a, probes, secret), |Busy(s.active, ip, probes)|;
            |Busy(Step(s, a, secret).active, ip, probes)| ==
            if ops == [] then n else InFlight(TableOf(s, probes), ops[0], ip, n, ConfigOf(probes))
  {
    match a
    case Arrive(id, i, creds, now) => OneMoreBusy(s.active, id, Visit(i, creds, false), ip, probes);
    case Probe(id, now) =>
      OneLessBusy(s.active, id, ip, probes);
      ProbeKeepsBusy(s.active, id, ip, probes);
    case Reject(id, _, _, _) => OneLessBusy(s.active, id, ip, probes);
    case Accept(id, _) => OneLessBusy(s.active, id, ip, probes);
    case SweepLogins(_) =>
    case SweepProbes(_) =>
  }

  lemma ProbeKeepsBusy(active: map<nat, Visit>, id: nat, ip: string, probed: bool)
    requires id in active && !active[id].probed
    ensures |Busy(active[id := active[id].(probed := true)], ip, probed)|
            == |Busy(active, ip, probed)| + if probed && active[id].ip == ip then 1 else 0
  {
    var v := active[id].(probed := true);
    if probed {
      OneMoreBusy(active, id, v, ip, probed);
    } else {
      assert Busy(active[id := v], ip, probed) == Busy(active, ip, probed);
    }
  }

  lemma FewerProbing(active: map<nat, Visit>, ip: string)
    ensures |Busy(active, ip, true)| <= |Busy(active, ip, false)|
  {
    SmallerSet(Busy(active, ip, true), Busy(active, ip, false));
  }

  lemma {:induction false} SmallerSet(a: set<nat>, b: set<nat>)
    requires a <= b
    ensures |a| <= |b|
  {
    if a != {} {
      var x :| x in a;
      SmallerSet(a - {x}, b - {x});
    }
  }

  /** The trace of one action in front of the trace of the rest. */
  lemma StepOfTrace(s: State, a: Action, rest: seq<Op>, ip: string, k: nat, clock: Time, probes: bool, secret: Secret)
    requires Enabled(s, a, secret) && clock <= a.now <= EndOf(a)
    requires |Busy(Step(s, a, secret).active, ip, probes)| <= k
    requires AtMostInFlight(TableOf(Step(s, a, secret), probes), rest, ip,
                            |Busy(Step(s, a, secret).active, ip, probes)|, k, ConfigOf(probes))
    requires AuthLimit.Timed(rest, EndOf(a))
    ensures var ops := OpOf(s, a, probes, secret) + rest;
            && AtMostInFlight(TableOf(s, probes), ops, ip, |Busy(s.active, ip, probes)|, k, ConfigOf(probes))
            && AuthLimit.Timed(ops, clock)
            && Failures(ops, ip) == RejectedBy(s, a, ip, probes) + Failures(rest, ip)
  {
    var ops := OpOf(s, a, probes, secret);
    StepIsOp(s, a, probes, secret);
    StepCountsBusy(s, a, ip, probes, secret);
    if ops == [] {
      assert ops + rest == rest;
      EarlierTrace(rest, clock, EndOf(a));
      assert [] + Failures(rest, ip) == Failures(rest, ip);
    } else {
      assert ops == [ops[0]];
      OpIsTimed(s, a, probes, secret);
      OneOp(TableOf(s, probes), ops[0], rest, ip, |Busy(s.active, ip, probes)|, k, ConfigOf(probes));
      TimedFirst(ops[0], rest, clock, EndOf(a));
      assert Logged(ops[0], ip) == RejectedBy(s, a, ip, probes);
    }
  }

  lemma EarlierTrace(ops: seq<Op>, clock: Time, later: Time)
    requires AuthLimit.Timed(ops, later) && clock <= later
    ensures AuthLimit.Timed(ops, clock)
  {
  }

  /** In any interleaving each limiter sees a trace with at most as many requests in flight as are in progress. */
  lemma {:induction false} LimiterSeesTrace(s: State, acts: seq<Action>, ip: string, k: nat, clock: Time, probes: bool,
                                            secret: Secret)
    requires IsRun(s, acts, secret) && Timed(acts, clock) && AtMostBusy(s, acts, ip, k, secret)
    ensures var ops := OpsOf(s, acts, probes, secret);
            && AtMostInFlight(TableOf(s, probes), ops, ip, |Busy(s.active, ip, probes)|, k, ConfigOf(probes))
            && AuthLimit.Timed(ops, clock)
            && Failures(ops, ip) == Rejected(s, acts, ip, probes, secret)
    decreases acts
  {
    if acts != [] {
      var u := Step(s, acts[0], secret);
      LimiterSeesTrace(u, acts[1..], ip, k, EndOf(acts[0]), probes, secret);
      FewerProbing(u.active, ip);
      StepOfTrace(s, acts[0], OpsOf(u, acts[1..], probes, secret), ip, k, clock, probes, secret);
    }
  }

  // ---------------------------------------------------------------- the deployed bounds

  const INIT := State(EMPTY_SHIELD, map[])

  lemma AtMostRejected(acts: seq<Action>, ip: string, k: nat, clock: Time, from: Time, probes: bool, secret: Secret)
    requires IsRun(INIT, acts, secret) && Timed(acts, clock) && k >= 1 && AtMostBusy(INIT, acts, ip, k, secret)
    requires NeverEvicted(map[], OpsOf(INIT, acts, probes, secret), ip, ConfigOf(probes))
    ensures CountIn(Rejected(INIT, acts, ip, probes, secret), from, ConfigOf(probes).window)
            <= ConfigOf(probes).limit + 2 * (k - 1)
  {
    LimiterSeesTrace(INIT, acts, ip, k, clock, probes, secret);
    assert Busy(INIT.active, ip, probes) == {};
    AtMostInFlightFailures(OpsOf(INIT, acts, probes, secret), ip, clock, from, k, ConfigOf(probes));
  }

  /** In any interleaving in which at most `k` requests of an address are in progress at a time, and the first
    * limiter does not evict it, at most `5 + 2*(k - 1)` wrong credentials of that address are compared in any
    * five minutes. */
  lemma AtMostFiveWrongLogins(acts: seq<Action>, ip: string, k: nat, clock: Time, from: Time, secret: Secret)
    requires IsRun(INIT, acts, secret) && Timed(acts, clock) && k >= 1 && AtMostBusy(INIT, acts, ip, k, secret)
    requires NeverEvicted(map[], OpsOf(INIT, acts, false, secret), ip, AUTH_CONFIG)
    ensures CountIn(Rejected(INIT, acts, ip, false, secret), from, 5 * MINUTE) <= 5 + 2 * (k - 1)
  {
    AtMostRejected(acts, ip, k, clock, from, false, secret);
  }

  /** Likewise at most `30 + 2*(k - 1)` requests without credentials get the challenge in any minute. */
  lemma AtMostThirtyProbes(acts: seq<Action>, ip: string, k: nat, clock: Time, from: Time, secret: Secret)
    requires IsRun(INIT, acts, secret) && Timed(acts, clock) && k >= 1 && AtMostBusy(INIT, acts, ip, k, secret)
    requires NeverEvicted(map[], OpsOf(INIT, acts, true, secret), ip, NO_CRED_CONFIG)
    ensures CountIn(Rejected(INIT, acts, ip, true, secret), from, MINUTE) <= 30 + 2 * (k - 1)
  {
    AtMostRejected(acts, ip, k, clock, from, true, secret);
  }

  // ---------------------------------------------------------------- who gets in

  /** A block of the address is younger than `window`. */
  predicate Barred(t: Table, ip: string, now: Time, window: int) {
    ip in t && t[ip].blockedAt.Some? && now - t[ip].blockedAt.value < window
  }

  /** Which of the two answers a request with credentials can get: both parts must be right. */
  lemma DecidedByCredentials(s: State, id: nat, now: Time, blockAt: Time, victim: string, secret: Secret)
    requires id in s.active && s.active[id].creds.Given? && !s.active[id].probed
    ensures Enabled(s, Accept(id, now), secret) <==> s.active[id].creds == Given(secret.username, secret.password)
    ensures Enabled(s, Reject(id, now, blockAt, victim), secret)
            <==> s.active[id].creds.user != secret.username || s.active[id].creds.pass != secret.password
  {
  }

  lemma {:induction false} PrefixIsRun(s: State, acts: seq<Action>, i: nat, secret: Secret)
    requires IsRun(s, acts, secret) && i < |acts|
    ensures IsRun(s, acts[..i], secret) && Enabled(After(s, acts[..i], secret), acts[i], secret)
    ensures IsRun(s, acts[..i + 1], secret)
    ensures After(s, acts[..i + 1], secret) == Step(After(s, acts[..i], secret), acts[i], secret)
    decreases i
  {
    if i == 0 {
      assert acts[..1][1..] == [];
    } else {
      PrefixIsRun(Step(s, acts[0], secret), acts[1..], i - 1, secret);
      assert acts[..i][1..] == acts[1..][..i - 1] && acts[..i + 1][1..] == acts[1..][..i];
    }
  }

  /** The state before action `i` of a run. */
  function Before(acts: seq<Action>, i: nat, secret: Secret): State
    requires IsRun(INIT, acts, secret) && i < |acts|
  {
    PrefixIsRun(INIT, acts, i, secret);
    After(INIT, acts[..i], secret)
  }

  /** Action `j` is the arrival of request `id`, found no block, and the request is not over before action `i`. */
  predicate CameInAt(acts: seq<Action>, j: nat, i: nat, id: nat, ip: string, creds: Credentials, secret: Secret)
    requires IsRun(INIT, acts, secret)
  {
    && j < i <= |acts|
    && acts[j].Arrive? && acts[j].id == id && acts[j].ip == ip && acts[j].creds == creds
    && !Barred(Before(acts, j, secret).shield.auth, ip, acts[j].now, 5 * MINUTE)
    && forall k :: j < k < i ==> !((acts[k].Accept? || acts[k].Reject?) && acts[k].id == id)
  }

  lemma VisitsComeIn(s: State, a: Action, id: nat, secret: Secret)
    requires Enabled(s, a, secret) && id in Step(s, a, secret).active
    ensures var v := Step(s, a, secret).active[id];
            if id in s.active then
              && v.ip == s.active[id].ip && v.creds == s.active[id].creds
              && !((a.Accept? || a.Reject?) && a.id == id)
              && (v.probed ==> s.active[id].probed || s.active[id].creds.Missing?)
            else
              && a == Arrive(id, v.ip, v.creds, a.now) && !v.probed
              && !Barred(s.shield.auth, v.ip, a.now, 5 * MINUTE)
  {
  }

  lemma NobodyAtFirst(acts: seq<Action>, secret: Secret)
    requires IsRun(INIT, acts, secret) && acts != []
    ensures Before(acts, 0, secret).active == map[]
  {
    assert acts[..0] == [];
  }

  lemma {:induction false} ActiveCameIn(acts: seq<Action>, i: nat, id: nat, secret: Secret) returns (j: nat)
    requires IsRun(INIT, acts, secret) && i < |acts| && id in Before(acts, i, secret).active
    ensures var v := Before(acts, i, secret).active[id];
            CameInAt(acts, j, i, id, v.ip, v.creds, secret) && (v.probed ==> v.creds.Missing?)
  {
    NobodyAtFirst(acts, secret);
    if i > 0 {
      PrefixIsRun(INIT, acts, i - 1, secret);
      var s := Before(acts, i - 1, secret);
      VisitsComeIn(s, acts[i - 1], id, secret);
      j := i - 1;
      if id in s.active {
        j := ActiveCameIn(acts, i - 1, id, secret);
      }
    }
  }

  /** In every run whoever reaches the protected handler came in, unblocked, with exactly the configured user and
    * password; whoever is rejected came in with something else, and is counted by the first limiter exactly if that
    * was a user and a password. */
  lemma OnlyTheSecretGetsIn(acts: seq<Action>, i: nat, secret: Secret) returns (j: nat, ip: string, creds: Credentials)
    requires IsRun(INIT, acts, secret) && i < |acts| && (acts[i].Accept? || acts[i].Reject?)
    ensures CameInAt(acts, j, i, acts[i].id, ip, creds, secret)
    ensures acts[i].Accept? <==> creds == Given(secret.username, secret.password)
    ensures acts[i].Reject? ==> RejectedBy(Before(acts, i, secret), acts[i], ip, !creds.Given?) == [acts[i].now]
    ensures acts[i].Reject? ==> RejectedBy(Before(acts, i, secret), acts[i], ip, creds.Given?) == []
  {
    PrefixIsRun(INIT, acts, i, secret);
    var v := Before(acts, i, secret).active[acts[i].id];
    ip, creds := v.ip, v.creds;
    j := ActiveCameIn(acts, i, acts[i].id, secret);
  }

  // ---------------------------------------------------------------- a request that runs alone

  /** The readings of the clock during one request, and the victim of its possible eviction. */
  datatype Moments = Moments(checked: Time, probed: Time, failed: Time, blockAt: Time, victim: string)

  /** What the first limiter sees of it: a failure if the credentials are wrong. */
  function LoginAttempt(ip: string, creds: Credentials, m: Moments, secret: Secret): Attempt {
    Attempt(ip, secret.Wrong(creds), m.checked, m.failed, m.blockAt, m.victim)
  }

  /** What the second limiter sees of a request without credentials: always a failure. */
  function ProbeAttempt(ip: string, m: Moments): Attempt {
    Attempt(ip, true, m.probed, m.failed, m.blockAt, m.victim)
  }

  function AfterServe(s: Shield, ip: string, creds: Credentials, m: Moments, secret: Secret): Shield {
    if secret.Unprotected() then s
    else
      Shield(AfterAttempt(s.auth, LoginAttempt(ip, creds, m, secret), AUTH_CONFIG),
             if creds.Missing? && !BlockedIn(s.auth, ip, m.checked, AUTH_CONFIG)
             then AfterAttempt(s.noCred, ProbeAttempt(ip, m), NO_CRED_CONFIG)
             else s.noCred)
  }

  function Answer(s: Shield, ip: string, creds: Credentials, m: Moments, secret: Secret): Response {
    if secret.Unprotected() then Served
    else if BlockedIn(s.auth, ip, m.checked, AUTH_CONFIG) then TooManyFailures
    else if creds.Missing? then
      if BlockedIn(s.noCred, ip, m.probed, NO_CRED_CONFIG) then TooManyProbes else Unauthorized
    else if secret.Wrong(creds) then Unauthorized
    else Served
  }

  /** Without a configured user or password everybody is served; otherwise exactly those whose address is not
    * blocked and who give both, and the other answers follow in this order. */
  lemma AnswersExactly(s: Shield, ip: string, creds: Credentials, m: Moments, secret: Secret)
    ensures var open := secret.username == "" || secret.password == "";
            var barred := Barred(s.auth, ip, m.checked, 5 * MINUTE);
            var r := Answer(s, ip, creds, m, secret);
            && (r == Served <==> open || (!barred && creds == Given(secret.username, secret.password)))
            && (r == TooManyFailures <==> !open && barred)
            && (r == TooManyProbes <==> !open && !barred && creds == Missing && Barred(s.noCred, ip, m.probed, MINUTE))
  {
  }

  /** The actions of such a request. */
  function Alone(s: Shield, id: nat, ip: string, creds: Credentials, m: Moments, secret: Secret): seq<Action> {
    var arrive, reject := Arrive(id, ip, creds, m.checked), Reject(id, m.failed, m.blockAt, m.victim);
    match Answer(s, ip, creds, m, secret)
    case TooManyFailures => [arrive]
    case TooManyProbes => [arrive, Probe(id, m.probed)]
    case Unauthorized => if creds.Missing? then [arrive, Probe(id, m.probed), reject] else [arrive, reject]
    case Served => [arrive, Accept(id, m.failed)]
  }

  lemma OneAction(s: State, a: Action, rest: seq<Action>, secret: Secret)
    requires Enabled(s, a, secret) && IsRun(Step(s, a, secret), rest, secret)
    ensures IsRun(s, [a] + rest, secret) && After(s, [a] + rest, secret) == After(Step(s, a, secret), rest, secret)
  {
    assert ([a] + rest)[1..] == rest;
  }

  /** Whatever other requests are in progress meanwhile, it is a run of the state machine, changes the limiters as
    * `AfterServe` says, and leaves the others as they were. */
  lemma AloneIsRun(s: State, id: nat, ip: string, creds: Credentials, m: Moments, secret: Secret)
    requires id !in s.active && !secret.Unprotected()
    ensures var acts := Alone(s.shield, id, ip, creds, m, secret);
            && IsRun(s, acts, secret)
            && After(s, acts, secret) == State(AfterServe(s.shield, ip, creds, m, secret), s.active)
  {
    var arrive := Arrive(id, ip, creds, m.checked);
    var s1 := Step(s, arrive, secret);
    var rest := Alone(s.shield, id, ip, creds, m, secret)[1..];
    assert Alone(s.shield, id, ip, creds, m, secret) == [arrive] + rest;
    if BlockedIn(s.shield.auth, ip, m.checked, AUTH_CONFIG) {
      assert rest == [];
    } else if creds.Missing? {
      ProbeAlone(s, s1, id, ip, m, secret);
      assert rest == ProbeRest(s.shield, id, ip, m);
    } else if secret.Wrong(creds) {
      var reject := Reject(id, m.failed, m.blockAt, m.victim);
      assert s1.active - {id} == s.active;
      OneAction(s1, reject, [], secret);
      assert rest == [reject] + [];
    } else {
      var accept := Accept(id, m.failed);
      assert s1.active - {id} == s.active;
      OneAction(s1, accept, [], secret);
      assert rest == [accept] + [];
    }
    OneAction(s, arrive, rest, secret);
  }

  function ProbeRest(s: Shield, id: nat, ip: string, m: Moments): seq<Action> {
    if BlockedIn(s.noCred, ip, m.probed, NO_CRED_CONFIG) then [Probe(id, m.probed)]
    else [Probe(id, m.probed), Reject(id, m.failed, m.blockAt, m.victim)]
  }

  /** The state after the probe and its answer. */
  function ProbedAlone(sh: Shield, ip: string, m: Moments, active: map<nat, Visit>): State {
    State(sh.(noCred := AfterAttempt(sh.noCred, ProbeAttempt(ip, m), NO_CRED_CONFIG)), active)
  }

  lemma ProbeRefused(s: State, s1: State, id: nat, ip: string, m: Moments, secret: Secret)
    requires id !in s.active && s1.active == s.active[id := Visit(ip, Missing, false)]
    requires BlockedIn(s1.shield.noCred, ip, m.probed, NO_CRED_CONFIG)
    ensures Enabled(s1, Probe(id, m.probed), secret)
    ensures Step(s1, Probe(id, m.probed), secret)
            == ProbedAlone(s1.shield, ip, m, s.active)
  {
    assert s1.active - {id} == s.active;
  }

  lemma ProbeRejected(s: State, s1: State, id: nat, ip: string, m: Moments, secret: Secret)
    requires id !in s.active && s1.active == s.active[id := Visit(ip, Missing, false)]
    requires !BlockedIn(s1.shield.noCred, ip, m.probed, NO_CRED_CONFIG)
    ensures Enabled(s1, Probe(id, m.probed), secret)
    ensures var s2, reject := Step(s1, Probe(id, m.probed), secret), Reject(id, m.failed, m.blockAt, m.victim);
            && Enabled(s2, reject, secret)
            && Step(s2, reject, secret)
               == ProbedAlone(s1.shield, ip, m, s.active)
  {
    assert Step(s1, Probe(id, m.probed), secret).active - {id} == s.active;
  }

  lemma ProbeAlone(s: State, s1: State, id: nat, ip: string, m: Moments, secret: Secret)
    requires id !in s.active && s1.active == s.active[id := Visit(ip, Missing, false)]
    ensures var rest := ProbeRest(s1.shield, id, ip, m);
            && IsRun(s1, rest, secret)
            && After(s1, rest, secret)
               == ProbedAlone(s1.shield, ip, m, s.active)
  {
    var probe := Probe(id, m.probed);
    if BlockedIn(s1.shield.noCred, ip, m.probed, NO_CRED_CONFIG) {
      ProbeRefused(s, s1, id, ip, m, secret);
      OneAction(s1, probe, [], secret);
      assert ProbeRest(s1.shield, id, ip, m) == [probe] + [];
    } else {
      var reject := Reject(id, m.failed, m.blockAt, m.victim);
      ProbeRejected(s, s1, id, ip, m, secret);
      OneAction(Step(s1, probe, secret), reject, [], secret);
      OneAction(s1, probe, [reject] + [], secret);
      assert ProbeRest(s1.shield, id, ip, m) == [probe] + ([reject] + []);
    }
  }
}
