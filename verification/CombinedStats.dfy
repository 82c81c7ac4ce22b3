/** Gathering one stats sample (server/handlerstats.go, `getCombinedStats`): traffic totals and partial failure. */
module CombinedStats {
  import opened Prelude

  /** One named counter of the statistics service. */
  datatype Stat = Stat(name: string, value: int)

  const UPLINK_SUFFIX := ">>>traffic>>>uplink"
  const DOWNLINK_SUFFIX := ">>>traffic>>>downlink"

  predicate HasSuffix(s: string, suffix: string) {
    |suffix| <= |s| && s[|s| - |suffix|..] == suffix
  }

  /** The exact sum of the counters whose name ends in `suffix`. */
  function Total(stats: seq<Stat>, suffix: string): int {
    if stats == [] then 0
    else Total(stats[..|stats| - 1], suffix) + Share(stats[|stats| - 1], suffix)
  }

  function Share(stat: Stat, suffix: string): int {
    if HasSuffix(stat.name, suffix) then stat.value else 0
  }

  lemma SuffixAt(s: string, suffix: string, k: nat)
    requires HasSuffix(s, suffix) && k < |suffix|
    ensures s[|s| - |suffix| + k] == suffix[k]
  {
    assert s[|s| - |suffix|..][k] == suffix[k];
  }

  /** The fifth letter from the end tells the directions apart. */
  lemma DirectionsAreDisjoint(name: string)
    ensures !(HasSuffix(name, UPLINK_SUFFIX) && HasSuffix(name, DOWNLINK_SUFFIX))
  {
    if HasSuffix(name, UPLINK_SUFFIX) {
      SuffixAt(name, UPLINK_SUFFIX, 14);
    }
    if HasSuffix(name, DOWNLINK_SUFFIX) {
      SuffixAt(name, DOWNLINK_SUFFIX, 16);
    }
  }

  lemma Wrap64OfSum(a: int, b: int)
    ensures Wrap64(Wrap64(a) + b) == Wrap64(a + b)
  {
  }

  /** The loop over the answer: each int64 total is the exact sum, wrapped once, whatever it wrapped to on the way. */
  method SumTraffic(stats: seq<Stat>) returns (uplink: int, downlink: int)
    ensures uplink == Wrap64(Total(stats, UPLINK_SUFFIX))
    ensures downlink == Wrap64(Total(stats, DOWNLINK_SUFFIX))
  {
    uplink, downlink := 0, 0;
    for i := 0 to |stats|
      invariant uplink == Wrap64(Total(stats[..i], UPLINK_SUFFIX))
      invariant downlink == Wrap64(Total(stats[..i], DOWNLINK_SUFFIX))
    {
      assert stats[..i + 1][..i] == stats[..i];
      DirectionsAreDisjoint(stats[i].name);
      Wrap64OfSum(Total(stats[..i], UPLINK_SUFFIX), stats[i].value);
      Wrap64OfSum(Total(stats[..i], DOWNLINK_SUFFIX), stats[i].value);
      if HasSuffix(stats[i].name, UPLINK_SUFFIX) {
        uplink := Wrap64(uplink + stats[i].value);
      } else if HasSuffix(stats[i].name, DOWNLINK_SUFFIX) {
        downlink := Wrap64(downlink + stats[i].value);
      }
    }
    assert stats[..|stats|] == stats;
  }

  // ---------------------------------------------------------------- the totals do not depend on the order

  lemma {:induction false} TotalWithout(stats: seq<Stat>, i: nat, suffix: string)
    requires i < |stats|
    ensures Total(stats, suffix) == Total(stats[..i] + stats[i + 1..], suffix) + Share(stats[i], suffix)
  {
    var n := |stats| - 1;
    var rest := stats[..i] + stats[i + 1..];
    if i == n {
      assert rest == stats[..n];
    } else {
      TotalWithout(stats[..n], i, suffix);
      assert rest[..n - 1] == stats[..n][..i] + stats[..n][i + 1..];
      assert rest[n - 1] == stats[n];
    }
  }

  lemma MultisetWithout(stats: seq<Stat>, i: nat)
    requires i < |stats|
    ensures multiset(stats[..i] + stats[i + 1..]) == multiset(stats) - multiset{stats[i]}
  {
    assert stats == stats[..i] + [stats[i]] + stats[i + 1..];
  }

  lemma IndexIn(a: seq<Stat>, n: nat, b: seq<Stat>) returns (i: nat)
    requires multiset(a) == multiset(b) && n < |a|
    ensures i < |b| && b[i] == a[n]
  {
    assert a[n] in multiset(b);
    i :| 0 <= i < |b| && b[i] == a[n];
  }

  /** The service may list its counters in any order. */
  lemma {:induction false} TotalIsOrderFree(a: seq<Stat>, b: seq<Stat>, suffix: string)
    requires multiset(a) == multiset(b)
    ensures Total(a, suffix) == Total(b, suffix)
  {
    if a == [] {
      assert |multiset(b)| == |b|;
    } else {
      var n := |a| - 1;
      var i := IndexIn(a, n, b);
      MultisetWithout(a, n);
      MultisetWithout(b, i);
      assert a[..n] + a[n + 1..] == a[..n];
      TotalIsOrderFree(a[..n], b[..i] + b[i + 1..], suffix);
      TotalWithout(b, i, suffix);
    }
  }

  lemma SuffixIff(s: string, suffix: string)
    ensures HasSuffix(s, suffix) <==> exists name :: s == name + suffix
  {
    if HasSuffix(s, suffix) {
      assert s == s[..|s| - |suffix|] + suffix;
    }
    if name :| s == name + suffix {
      assert s[|name|..] == suffix;
    }
  }

  /** Which counter adds its value to which total: a name that ends in ">>>traffic>>>uplink" to the first, one that
    * ends in ">>>traffic>>>downlink" to the second, and no other counter to either. */
  lemma CountersAddExactly(stats: seq<Stat>, stat: Stat)
    ensures Total([], UPLINK_SUFFIX) == 0 == Total([], DOWNLINK_SUFFIX)
    ensures Total(stats + [stat], UPLINK_SUFFIX) == Total(stats, UPLINK_SUFFIX) +
              if exists name :: stat.name == name + ">>>traffic>>>uplink" then stat.value else 0
    ensures Total(stats + [stat], DOWNLINK_SUFFIX) == Total(stats, DOWNLINK_SUFFIX) +
              if exists name :: stat.name == name + ">>>traffic>>>downlink" then stat.value else 0
  {
    assert (stats + [stat])[..|stats|] == stats;
    SuffixIff(stat.name, UPLINK_SUFFIX);
    SuffixIff(stat.name, DOWNLINK_SUFFIX);
  }

  // ---------------------------------------------------------------- partial failure

  /** The outcome of one call of the service. */
  datatype Source<+T> = Answered(value: T) | Absent | Canceled | Failed {
    predicate Usable() { Answered? || Absent? }
  }

  datatype Sys = Sys(uptime: int, mem: nat, goroutines: int)

  datatype Sample<O> = Sample(uplink: int, downlink: int, sys: Sys, outbounds: O, degraded: bool)

  datatype Failure = Cancellation | BothSourcesFailed

  const NO_SYS := Sys(0, 0, 0)

  /** A sample is refused exactly if a source was canceled or both failed; it is degraded exactly if one failed,
    * and then what that source would have told is zero. */
  method GetCombinedStats<O>(query: Source<seq<Stat>>, sys: Source<Sys>, outbounds: O)
      returns (r: Result<Sample<O>, Failure>)
    ensures r.Ok? <==> (query.Usable() && !sys.Canceled?) || (query.Failed? && sys.Usable())
    ensures r.Err? ==> (r.error == BothSourcesFailed <==> query.Failed? && sys.Failed?)
    ensures r.Ok? ==> (r.value.degraded <==> query.Failed? || sys.Failed?) && r.value.outbounds == outbounds
    ensures r.Ok? && query.Answered? ==>
              && r.value.uplink == Wrap64(Total(query.value, UPLINK_SUFFIX))
              && r.value.downlink == Wrap64(Total(query.value, DOWNLINK_SUFFIX))
    ensures r.Ok? && !query.Answered? ==> r.value.uplink == 0 && r.value.downlink == 0
    ensures r.Ok? ==> r.value.sys == if sys.Answered? then sys.value else NO_SYS
  {
    var uplink, downlink, system, degraded, failedSources := 0, 0, NO_SYS, false, 0;
    if query.Canceled? {
      return Err(Cancellation);
    } else if query.Failed? {
      degraded, failedSources := true, failedSources + 1;
    } else if query.Answered? {
      uplink, downlink := SumTraffic(query.value);
    }
    if sys.Canceled? {
      return Err(Cancellation);
    } else if sys.Failed? {
      degraded, failedSources := true, failedSources + 1;
    } else if sys.Answered? {
      system := sys.value;
    }
    if failedSources >= 2 {
      return Err(BothSourcesFailed);
    }
    return Ok(Sample(uplink, downlink, system, outbounds, degraded));
  }
}
