/** The limiter as the source has it: a map of pointers to windows that are updated in place.  Every method
  * is proved to change the map's value as `RateLimit` says. */
module RateLimiterMethods {
  import opened Prelude
  import opened Middleware
  import opened RateLimit
  import opened RateRules

  class SlidingWindow {
    var prevCount: int
    var currCount: int
    var windowStart: Time

    constructor (curr: int, start: Time)
      ensures Value() == Window(0, curr, start)
    {
      prevCount, currCount, windowStart := 0, curr, start;
    }

    function Value(): Window
      reads this
    {
      Window(prevCount, currCount, windowStart)
    }

    /** The part of checkAndRecord that works on an existing window. */
    method Admit(now: Time, cfg: Rules) returns (ok: bool)
      requires cfg.Valid()
      modifies this
      ensures (Value(), ok) == Decide(Some(old(Value())), now, cfg)
    {
      var elapsed := now - windowStart;
      if elapsed > cfg.window * 2 {
        currCount := 1;
        prevCount := 0;
        windowStart := now;
        return true;
      }
      if elapsed > cfg.window {
        prevCount := currCount;
        currCount := 0;
        windowStart := windowStart + cfg.window * (elapsed / cfg.window);
      }
      if cfg.refuses(Value(), now) {
        return false;
      }
      currCount := currCount + 1;
      return true;
    }
  }

  class RateLimiter {
    var requests: map<string, SlidingWindow>
    const cfg: Rules

    constructor (cfg: Rules)
      requires cfg.Valid()
      ensures Valid() && View() == map[] && this.cfg == cfg && requests == map[]
    {
      this.cfg, requests := cfg, map[];
    }

    ghost function Windows(): set<SlidingWindow>
      reads this
    {
      set k | k in requests :: requests[k]
    }

    /** No two keys share a window. */
    ghost predicate Valid()
      reads this
    {
      cfg.Valid() && forall j, k :: j in requests && k in requests && j != k ==> requests[j] != requests[k]
    }

    ghost function View(): Table
      reads this, Windows()
    {
      map k | k in requests :: requests[k].Value()
    }

    method CheckAndRecord(ip: string, now: Time, order: seq<string>) returns (ok: bool)
      requires Valid()
      requires Evicts(View(), ip) ==> Enumerates(order, requests.Keys)
      modifies this, Windows()
      ensures Valid() && fresh(Windows() - old(Windows()))
      ensures (View(), ok) == AfterRequest(old(View()), ip, now, order, cfg)
    {
      SameSize();
      ghost var before := View();
      if ip !in requests {
        AddKey(ip, now, order);
        return true;
      }
      ok := requests[ip].Admit(now, cfg);
      assert View() == before[ip := requests[ip].Value()];
    }

    lemma SameSize()
      ensures |View()| == |requests| && View().Keys == requests.Keys
    {
      assert View().Keys == requests.Keys;
      assert |View()| == |View().Keys| && |requests| == |requests.Keys|;
    }

    /** The part of checkAndRecord that starts a window for a new key. */
    method AddKey(ip: string, now: Time, order: seq<string>)
      requires Valid() && ip !in requests
      requires |requests| >= MAX_TRACKED_IPS ==> Enumerates(order, requests.Keys)
      modifies this
      ensures Valid() && fresh(Windows() - old(Windows()))
      ensures View() ==
              (if |old(requests)| >= MAX_TRACKED_IPS then AfterEvict(old(View()), order) else old(View()))
              [ip := Window(0, 1, now)]
    {
      if |requests| >= MAX_TRACKED_IPS {
        EvictOldest(order);
      }
      Insert(ip, now);
    }

    method Insert(ip: string, now: Time)
      requires Valid()
      modifies this
      ensures Valid() && fresh(Windows() - old(Windows()))
      ensures View() == old(View())[ip := Window(0, 1, now)]
    {
      var sw := new SlidingWindow(1, now);
      requests := requests[ip := sw];
    }

    method EvictOldest(order: seq<string>)
      requires Valid() && forall k <- order :: k in requests
      modifies this
      ensures Valid() && Windows() <= old(Windows())
      ensures View() == AfterEvict(old(View()), order)
    {
      ghost var before := View();
      var oldestIP: string := "";
      var oldestTime: Time := 0;
      for i := 0 to |order|
        invariant oldestIP == Oldest(before, order[..i])
        invariant oldestIP != "" ==> oldestIP in before && oldestTime == before[oldestIP].start
      {
        var ip := order[i];
        assert order[..i + 1][..i] == order[..i];
        if oldestIP == "" || requests[ip].windowStart < oldestTime {
          oldestIP := ip;
          oldestTime := requests[ip].windowStart;
        }
      }
      assert order[..|order|] == order;
      if oldestIP != "" {
        requests := requests - {oldestIP};
        assert View() == before - {oldestIP};
      }
    }

    method CleanupStaleKeys(now: Time)
      requires Valid()
      modifies this
      ensures Valid() && Windows() <= old(Windows())
      ensures View() == AfterCleanup(old(View()), now, cfg)
    {
      var before := requests;
      var left := requests.Keys;
      while left != {}
        invariant left <= before.Keys
        invariant requests ==
                  map k | k in before && (k in left || now - before[k].windowStart <= cfg.window * 2) :: before[k]
        decreases left
      {
        var ip :| ip in left;
        if now - requests[ip].windowStart > cfg.window * 2 {
          requests := requests - {ip};
        }
        left := left - {ip};
      }
    }
  }
}
