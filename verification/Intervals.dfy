/** Counting the events of a log that fall into a half-open interval. */
module Intervals {
  predicate Sorted(xs: seq<int>) {
    forall i, j :: 0 <= i < j < |xs| ==> xs[i] <= xs[j]
  }

  /** Any two entries `gap` places apart lie at least `length` apart. */
  predicate Spread(xs: seq<int>, gap: nat, length: int) {
    forall i :: 0 <= i && i + gap < |xs| ==> xs[i] + length <= xs[i + gap]
  }

  ghost function CountIn(xs: seq<int>, from: int, length: int): nat {
    |set i | 0 <= i < |xs| && from <= xs[i] < from + length|
  }

  lemma {:induction false} IndexRange(idx: set<int>, lo: int, n: nat)
    requires forall i <- idx :: lo <= i < lo + n
    ensures |idx| <= n
    decreases n
  {
    if n > 0 {
      var rest := idx - {lo + n - 1};
      IndexRange(rest, lo, n - 1);
      assert |idx| <= |rest| + 1;
    } else {
      assert forall i: int :: i !in idx;
      assert idx == {};
    }
  }

  /** A sorted, spread log has at most `gap` entries in any half-open interval of that length. */
  lemma SpreadBoundsCount(xs: seq<int>, gap: nat, from: int, length: int)
    requires Sorted(xs) && Spread(xs, gap, length)
    ensures CountIn(xs, from, length) <= gap
  {
    var inside := set i | 0 <= i < |xs| && from <= xs[i] < from + length;
    var lo := FirstAtLeast(xs, from);
    if lo + gap < |xs| {
      assert from + length <= xs[lo] + length <= xs[lo + gap];
    }
    assert forall i <- inside :: lo <= i < lo + gap;
    IndexRange(inside, lo, gap);
  }

  /** A stretch of entries inside the interval counts in full. */
  lemma {:induction false} StretchCounts(xs: seq<int>, lo: nat, hi: nat, from: int, length: int)
    requires lo <= hi <= |xs| && forall i :: lo <= i < hi ==> from <= xs[i] < from + length
    ensures CountIn(xs, from, length) >= hi - lo
  {
    var inside := set i | 0 <= i < |xs| && from <= xs[i] < from + length;
    IndexInterval(inside, lo, hi);
  }

  lemma {:induction false} IndexInterval(idx: set<int>, lo: int, hi: int)
    requires lo <= hi && forall i :: lo <= i < hi ==> i in idx
    ensures |idx| >= hi - lo
    decreases hi - lo
  {
    if lo < hi {
      IndexInterval(idx - {lo}, lo + 1, hi);
      assert |idx| == |idx - {lo}| + 1;
    }
  }

  lemma {:induction false} FirstAtLeast(xs: seq<int>, from: int) returns (lo: nat)
    ensures lo <= |xs| && (forall i :: 0 <= i < lo ==> xs[i] < from) && (lo < |xs| ==> from <= xs[lo])
  {
    if xs == [] || from <= xs[0] {
      lo := 0;
    } else {
      var l := FirstAtLeast(xs[1..], from);
      lo := l + 1;
      assert forall i :: 1 <= i < lo ==> xs[i] == xs[1..][i - 1];
    }
  }

  lemma SortedByAppending(xs: seq<int>, x: int)
    requires Sorted(xs) && forall j :: 0 <= j < |xs| ==> xs[j] <= x
    ensures Sorted(xs + [x])
  {
  }

  /** Appending an entry that is late enough keeps a log spread. */
  lemma SpreadByAppending(xs: seq<int>, gap: nat, length: int, x: int)
    requires Spread(xs, gap, length)
    requires |xs| >= gap > 0 ==> xs[|xs| - gap] + length <= x
    requires gap > 0
    ensures Spread(xs + [x], gap, length)
  {
  }

  /** `n` events at one moment, before those of `log`. */
  function Burst(now: int, n: nat, log: seq<int>): seq<int> {
    if n == 0 then log else [now] + Burst(now, n - 1, log)
  }

  lemma {:induction false} BurstAt(now: int, n: nat, log: seq<int>)
    ensures |Burst(now, n, log)| == n + |log|
    ensures forall i :: 0 <= i < n ==> Burst(now, n, log)[i] == now
    ensures forall i :: n <= i < n + |log| ==> Burst(now, n, log)[i] == log[i - n]
    decreases n
  {
    if n > 0 {
      BurstAt(now, n - 1, log);
    }
  }

  ghost function Range(n: nat): (r: set<int>)
    ensures |r| == n && forall i :: i in r <==> 0 <= i < n
  {
    if n == 0 then {} else Range(n - 1) + {n - 1}
  }
}
