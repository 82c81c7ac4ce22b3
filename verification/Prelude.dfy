/** Small vocabulary shared by the modules of this project. */
module Prelude {
  datatype Option<+T> = None | Some(value: T)

  datatype Result<+R, +E> = Ok(value: R) | Err(error: E)

  /** Nanoseconds on a monotonic clock; the source's zero Time is `None`. */
  type Time = int

  newtype Byte = x: int | 0 <= x < 256

  type Bytes = seq<Byte>

  function Max(a: int, b: int): (m: int)
    ensures m >= a && m >= b && (m == a || m == b)
  {
    if a >= b then a else b
  }

  const TWO_63: int := 0x8000_0000_0000_0000

  /** The int64 value an integer result wraps around to. */
  function Wrap64(x: int): (w: int)
    ensures -TWO_63 <= w < TWO_63 && (x - w) % (2 * TWO_63) == 0
  {
    (x + TWO_63) % (2 * TWO_63) - TWO_63
  }

  predicate NoDuplicates<T(==)>(order: seq<T>) {
    forall i, j :: 0 <= i < j < |order| ==> order[i] != order[j]
  }

  /** An order in which Go may happen to iterate over a map with these keys. */
  predicate Enumerates<T(==)>(order: seq<T>, members: set<T>) {
    && NoDuplicates(order)
    && (forall c <- order :: c in members)
    && (forall c <- members :: c in order)
  }

  lemma Regroup<T>(xs: seq<T>, ys: seq<T>, zs: seq<T>)
    ensures xs + (ys + zs) == (xs + ys) + zs
  {
  }

  predicate Increasing(xs: seq<nat>) {
    forall i, j :: 0 <= i < j < |xs| ==> xs[i] < xs[j]
  }

  /** An increasing list is determined by its members. */
  lemma {:induction false} IncreasingIsUnique(xs: seq<nat>, ys: seq<nat>)
    requires Increasing(xs) && Increasing(ys) && forall n: nat :: n in xs <==> n in ys
    ensures xs == ys
    decreases |xs|
  {
    EmptyTogether(xs, ys);
    if xs != [] {
      LastAtMost(xs, ys);
      LastAtMost(ys, xs);
      var x, y := |xs| - 1, |ys| - 1;
      forall n: nat ensures n in xs[..x] <==> n in ys[..y] {
        assert n in xs <==> n in xs[..x] || n == xs[x];
        assert n in ys <==> n in ys[..y] || n == ys[y];
      }
      IncreasingIsUnique(xs[..x], ys[..y]);
      assert xs == xs[..x] + [xs[x]] && ys == ys[..y] + [ys[y]];
    }
  }

  lemma EmptyTogether(xs: seq<nat>, ys: seq<nat>)
    requires forall n: nat :: n in xs <==> n in ys
    ensures xs == [] <==> ys == []
  {
    assert xs != [] ==> xs[0] in xs;
    assert ys != [] ==> ys[0] in ys;
  }

  lemma LastAtMost(xs: seq<nat>, ys: seq<nat>)
    requires xs != [] && ys != [] && Increasing(ys) && forall n: nat :: n in xs ==> n in ys
    ensures xs[|xs| - 1] <= ys[|ys| - 1]
  {
    assert xs[|xs| - 1] in ys;
  }
}
