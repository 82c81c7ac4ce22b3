/** How far the sliding-window limiter can exceed its cap: a request from the empty key, followed by requests
  * from ever new addresses whose evictions all come to the empty key last, fills the map to any size. */
module RateLimitCap {
  import opened Prelude
  import opened RateLimit
  import opened RateRules

  /** Any number of different addresses. */
  function Address(n: nat): (name: string)
    ensures |name| == n
  {
    seq(n, _ => 'a')
  }

  /** The map after the empty key and `n` addresses have come. */
  function Filled(n: nat): Table {
    if n == 0 then map["" := Window(0, 1, 0)] else Filled(n - 1)[Address(n) := Window(0, 1, 1)]
  }

  /** An order in which the empty key comes last. */
  function EmptyLast(n: nat): (order: seq<string>)
    ensures |order| == n + 1
    ensures forall i :: 0 <= i <= n ==> order[i] == Address(n - i)
  {
    seq(n + 1, i requires 0 <= i <= n => Address(n - i))
  }

  lemma {:induction false} FilledAt(n: nat, k: string)
    ensures k in Filled(n) <==> |k| <= n && k == Address(|k|)
    ensures k in Filled(n) ==> Filled(n)[k] == Window(0, 1, if k == "" then 0 else 1)
  {
    if n == 0 {
      assert Address(0) == "";
    } else {
      FilledAt(n - 1, k);
    }
  }

  lemma {:induction false} FilledSize(n: nat)
    ensures |Filled(n)| == n + 1
  {
    if n > 0 {
      FilledSize(n - 1);
      FilledAt(n - 1, Address(n));
      SizeWith(Filled(n - 1), Address(n), Window(0, 1, 1));
    }
  }

  lemma EmptyLastEnumerates(n: nat)
    ensures Enumerates(EmptyLast(n), Filled(n).Keys)
  {
    var order := EmptyLast(n);
    forall i, j | 0 <= i < j < |order| ensures order[i] != order[j] {
      assert |order[i]| == n - i && |order[j]| == n - j;
    }
    forall k | k in Filled(n) ensures k in order {
      FilledAt(n, k);
      assert order[n - |k|] == Address(|k|);
    }
    forall k | k in order ensures k in Filled(n) {
      var i :| 0 <= i < |order| && order[i] == k;
      assert k == Address(n - i);
      FilledAt(n, k);
    }
  }

  lemma EmptyIsLast(n: nat)
    ensures SentinelLast(Filled(n), EmptyLast(n))
  {
    assert EmptyLast(n)[n] == "";
    FilledAt(n, "");
    forall k | k in Filled(n) && k != "" ensures Filled(n)[""].start < Filled(n)[k].start {
      FilledAt(n, k);
    }
  }

  /** One more address: nothing is evicted to make room for it. */
  lemma NextAddress(n: nat, cfg: Rules)
    requires cfg.Valid()
    ensures var op := Request(Address(n + 1), 1, EmptyLast(n));
            CanHappen(Filled(n), op) && AfterOp(Filled(n), op, cfg) == Filled(n + 1)
  {
    FilledAt(n, Address(n + 1));
    FilledSize(n);
    EmptyLastEnumerates(n);
    EmptyIsLast(n);
    SentinelDefeatsEvictionIff(Filled(n), EmptyLast(n));
  }

  lemma {:induction false} OneMore(t: Table, ops: seq<Op>, op: Op, cfg: Rules)
    requires cfg.Valid() && IsTrace(t, ops, cfg) && CanHappen(After(t, ops, cfg), op)
    ensures IsTrace(t, ops + [op], cfg) && After(t, ops + [op], cfg) == AfterOp(After(t, ops, cfg), op, cfg)
    decreases ops
  {
    if ops == [] {
      assert ops + [op] == [op];
      assert [op][1..] == [];
    } else {
      OneMore(AfterOp(t, ops[0], cfg), ops[1..], op, cfg);
      assert (ops + [op])[1..] == ops[1..] + [op];
    }
  }

  /** The request from the empty key, then one from each of `n` addresses. */
  predicate Filling(ops: seq<Op>, n: nat) {
    |ops| == n + 1 && forall i :: 0 <= i <= n ==> ops[i].Request? && ops[i].now == (if i == 0 then 0 else 1)
  }

  predicate Fills(ops: seq<Op>, n: nat, cfg: Rules)
    requires cfg.Valid()
  {
    Filling(ops, n) && IsTrace(map[], ops, cfg) && After(map[], ops, cfg) == Filled(n)
  }

  /** One operation at the end of a run from the empty map. */
  lemma Extend(before: seq<Op>, t: Table, op: Op, u: Table, cfg: Rules) returns (ops: seq<Op>)
    requires cfg.Valid() && IsTrace(map[], before, cfg) && After(map[], before, cfg) == t
    requires CanHappen(t, op) && AfterOp(t, op, cfg) == u
    ensures ops == before + [op] && IsTrace(map[], ops, cfg) && After(map[], ops, cfg) == u
  {
    OneMore(map[], before, op, cfg);
    ops := before + [op];
  }

  lemma EmptyKeyFirst(cfg: Rules) returns (ops: seq<Op>)
    requires cfg.Valid()
    ensures Fills(ops, 0, cfg)
  {
    var op := Request("", 0, []);
    assert AfterOp(map[], op, cfg) == Filled(0);
    ops := Extend([], map[], op, Filled(0), cfg);
  }

  lemma AddressNext(before: seq<Op>, n: nat, cfg: Rules) returns (ops: seq<Op>)
    requires cfg.Valid() && n >= 1 && Fills(before, n - 1, cfg)
    ensures Fills(ops, n, cfg)
  {
    NextAddress(n - 1, cfg);
    ops := Extend(before, Filled(n - 1), Request(Address(n), 1, EmptyLast(n - 1)), Filled(n), cfg);
  }

  /** Some run leaves the map with any number of keys, the cap notwithstanding. */
  lemma {:induction false} CapIsNotKept(n: nat, cfg: Rules) returns (ops: seq<Op>)
    requires cfg.Valid()
    ensures IsTrace(map[], ops, cfg) && |After(map[], ops, cfg)| == n + 1
    ensures After(map[], ops, cfg) == Filled(n) && Filling(ops, n)
  {
    ops := FillingRun(n, cfg);
    FilledSize(n);
  }

  lemma {:induction false} FillingRun(n: nat, cfg: Rules) returns (ops: seq<Op>)
    requires cfg.Valid()
    ensures Fills(ops, n, cfg)
  {
    if n == 0 {
      ops := EmptyKeyFirst(cfg);
    } else {
      var before := FillingRun(n - 1, cfg);
      ops := AddressNext(before, n, cfg);
    }
  }
}
