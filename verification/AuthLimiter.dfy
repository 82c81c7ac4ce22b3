/** The authentication limiter as the source has it, a map of pointers to states updated in place, and the
  * request handler that consults two of them. */
module AuthLimiterMethods {
  import opened Prelude
  import opened Middleware
  import opened AuthLimit
  import opened AuthVisits

  class AuthState {
    var attempts: int
    var lastAttempt: Time
    var blockedAt: Option<Time>

    constructor ()
      ensures Value() == Entry(0, 0, None)
    {
      attempts, lastAttempt, blockedAt := 0, 0, None;
    }

    function Value(): Entry
      reads this
    {
      Entry(attempts, lastAttempt, blockedAt)
    }

    /** `now` and `blockAt` are the two readings of the clock. */
    method Fail(now: Time, blockAt: Time, cfg: Config)
      modifies this
      ensures Value() == Failed(old(Value()), now, blockAt, cfg)
    {
      attempts := attempts + 1;
      lastAttempt := now;
      if attempts >= cfg.limit && blockedAt.None? {
        blockedAt := Some(blockAt);
      }
    }
  }

  class AuthRateLimit {
    var states: map<string, AuthState>
    const cfg: Config

    constructor (cfg: Config)
      requires cfg.Valid()
      ensures Valid() && states == map[] && View() == map[] && this.cfg == cfg
    {
      this.cfg, states := cfg, map[];
    }

    ghost function States(): set<AuthState>
      reads this
    {
      set k | k in states :: states[k]
    }

    /** No two addresses share a state. */
    ghost predicate Valid()
      reads this
    {
      cfg.Valid() && forall j, k :: j in states && k in states && j != k ==> states[j] != states[k]
    }

    ghost function View(): Table
      reads this, States()
    {
      map k | k in states :: states[k].Value()
    }

    method IsAuthBlocked(ip: string, now: Time) returns (blocked: bool)
      requires Valid()
      modifies this
      ensures Valid() && States() <= old(States())
      ensures View() == AfterCheck(old(View()), ip, now, cfg)
      ensures blocked == BlockedIn(old(View()), ip, now, cfg)
    {
      ghost var before := View();
      if ip !in states {
        return false;
      }
      var st := states[ip];
      if st.blockedAt.Some? && now - st.blockedAt.value < cfg.window {
        return true;
      }
      if st.blockedAt.Some? {
        states := states - {ip};
        assert View() == before - {ip};
      }
      return false;
    }

    lemma SameSize()
      ensures |View()| == |states| && View().Keys == states.Keys
    {
      assert View().Keys == states.Keys;
      assert |View()| == |View().Keys| && |states| == |states.Keys|;
    }

    /** `victim` is the key that an iteration over the full map yields first. */
    method RecordAuthFailure(ip: string, now: Time, blockAt: Time, victim: string)
      requires Valid()
      modifies this, States()
      ensures Valid() && fresh(States() - old(States()))
      ensures View() == AfterRecord(old(View()), ip, now, blockAt, victim, cfg)
    {
      SameSize();
      if ip !in states {
        StartTracking(ip, victim);
      }
      FailTracked(ip, now, blockAt);
    }

    method FailTracked(ip: string, now: Time, blockAt: Time)
      requires Valid() && ip in states
      modifies states[ip]
      ensures Valid()
      ensures View() == old(View())[ip := Failed(old(View())[ip], now, blockAt, cfg)]
    {
      states[ip].Fail(now, blockAt, cfg);
    }

    method StartTracking(ip: string, victim: string)
      requires Valid() && ip !in states
      modifies this
      ensures Valid() && fresh(States() - old(States())) && ip in states
      ensures View() ==
              (if |old(states)| >= MAX_TRACKED_IPS then old(View()) - {victim} else old(View()))
              [ip := Entry(0, 0, None)]
    {
      if |states| >= MAX_TRACKED_IPS {
        Delete(victim);
      }
      Track(ip);
    }

    method Delete(victim: string)
      requires Valid()
      modifies this
      ensures Valid() && States() <= old(States())
      ensures View() == old(View()) - {victim} && states == old(states) - {victim}
    {
      states := states - {victim};
    }

    method Track(ip: string)
      requires Valid()
      modifies this
      ensures Valid() && fresh(States() - old(States()))
      ensures View() == old(View())[ip := Entry(0, 0, None)] && ip in states
    {
      var st := new AuthState();
      states := states[ip := st];
    }

    method Cleanup(now: Time)
      requires Valid()
      modifies this
      ensures Valid() && States() <= old(States())
      ensures View() == AfterCleanup(old(View()), now, cfg)
    {
      var before := states;
      var left := states.Keys;
      while left != {}
        invariant left <= before.Keys
        invariant states == map k | k in before && (k in left || !Expired(before[k].Value(), now, cfg)) :: before[k]
        decreases left
      {
        var ip :| ip in left;
        var st := states[ip];
        left := left - {ip};
        if st.blockedAt.Some? && now - st.blockedAt.value >= cfg.window {
          states := states - {ip};
          continue;
        }
        if st.blockedAt.None? && now - st.lastAttempt >= cfg.window {
          states := states - {ip};
        }
      }
    }
  }

  class BasicAuth {
    const secret: Secret
    const authLimiter: AuthRateLimit
    const noCredLimiter: AuthRateLimit

    constructor (username: string, password: string)
      ensures Valid() && fresh(authLimiter) && fresh(noCredLimiter)
      ensures View() == EMPTY_SHIELD && secret == Secret(username, password)
      ensures authLimiter.cfg == Config(5, 5 * MINUTE) && noCredLimiter.cfg == Config(30, MINUTE)
    {
      secret := Secret(username, password);
      authLimiter := new AuthRateLimit(AUTH_CONFIG);
      noCredLimiter := new AuthRateLimit(NO_CRED_CONFIG);
    }

    ghost predicate Valid()
      reads authLimiter, noCredLimiter
    {
      && authLimiter != noCredLimiter && authLimiter.Valid() && noCredLimiter.Valid()
      && authLimiter.cfg == AUTH_CONFIG && noCredLimiter.cfg == NO_CRED_CONFIG
      && authLimiter.States() !! noCredLimiter.States()
    }

    ghost function View(): Shield
      reads authLimiter, noCredLimiter, authLimiter.States(), noCredLimiter.States()
    {
      Shield(authLimiter.View(), noCredLimiter.View())
    }

    method ServeWithoutCredentials(ip: string, m: Moments) returns (r: Response)
      requires Valid()
      modifies noCredLimiter, noCredLimiter.States()
      ensures Valid() && authLimiter.View() == old(authLimiter.View())
      ensures noCredLimiter.View() == AfterAttempt(old(noCredLimiter.View()), ProbeAttempt(ip, m), NO_CRED_CONFIG)
      ensures r == if BlockedIn(old(noCredLimiter.View()), ip, m.probed, NO_CRED_CONFIG) then TooManyProbes
                   else Unauthorized
    {
      var blocked := noCredLimiter.IsAuthBlocked(ip, m.probed);
      if blocked {
        return TooManyProbes;
      }
      noCredLimiter.RecordAuthFailure(ip, m.failed, m.blockAt, m.victim);
      return Unauthorized;
    }

    method ServeCredentials(ip: string, creds: Credentials, m: Moments) returns (r: Response)
      requires Valid() && creds.Given?
      modifies authLimiter, authLimiter.States()
      ensures Valid() && noCredLimiter.View() == old(noCredLimiter.View())
      ensures authLimiter.View() ==
              if secret.Wrong(creds)
              then AfterRecord(old(authLimiter.View()), ip, m.failed, m.blockAt, m.victim, AUTH_CONFIG)
              else old(authLimiter.View())
      ensures r == if secret.Wrong(creds) then Unauthorized else Served
    {
      if creds.user != secret.username || creds.pass != secret.password {
        authLimiter.RecordAuthFailure(ip, m.failed, m.blockAt, m.victim);
        return Unauthorized;
      }
      return Served;
    }

    /** The handler behind a configured secret. */
    method ServeProtected(ip: string, creds: Credentials, m: Moments) returns (r: Response)
      requires Valid() && !secret.Unprotected()
      modifies authLimiter, noCredLimiter, authLimiter.States(), noCredLimiter.States()
      ensures Valid()
      ensures authLimiter.View() == AfterServe(old(View()), ip, creds, m, secret).auth
      ensures noCredLimiter.View() == AfterServe(old(View()), ip, creds, m, secret).noCred
      ensures r == Answer(old(View()), ip, creds, m, secret)
      ensures r == Served <==> && !Barred(old(View()).auth, ip, m.checked, 5 * MINUTE)
                               && creds == Given(secret.username, secret.password)
    {
      AnswersExactly(View(), ip, creds, m, secret);
      var blocked := authLimiter.IsAuthBlocked(ip, m.checked);
      if blocked {
        return TooManyFailures;
      }
      if creds.Missing? {
        r := ServeWithoutCredentials(ip, m);
        return;
      }
      r := ServeCredentials(ip, creds, m);
    }

    /** One request alone changes the limiters and answers as `AuthVisits` says, whose actions it performs
      * (`AloneIsRun`). */
    method Serve(ip: string, creds: Credentials, m: Moments) returns (r: Response)
      requires Valid()
      modifies authLimiter, noCredLimiter, authLimiter.States(), noCredLimiter.States()
      ensures Valid() && View() == AfterServe(old(View()), ip, creds, m, secret)
      ensures r == Answer(old(View()), ip, creds, m, secret)
      ensures r == Served <==>
                || secret.username == "" || secret.password == ""
                || (&& !Barred(old(View()).auth, ip, m.checked, 5 * MINUTE)
                    && creds == Given(secret.username, secret.password))
    {
      AnswersExactly(View(), ip, creds, m, secret);
      if secret.Unprotected() {
        return Served;
      }
      r := ServeProtected(ip, creds, m);
    }

    /** The function handed to startCleanupLoop. */
    method CleanUp(first: Time, second: Time)
      requires Valid()
      modifies authLimiter, noCredLimiter
      ensures Valid()
      ensures View() == Shield(AfterCleanup(old(View()).auth, first, AUTH_CONFIG),
                               AfterCleanup(old(View()).noCred, second, NO_CRED_CONFIG))
    {
      authLimiter.Cleanup(first);
      noCredLimiter.Cleanup(second);
    }
  }
}
