/** Picking the elements of a list that have a property: all of them, as often as they occur, in their order. */
module Picking {
  import opened Prelude

  /** `at` are the places of the elements with the property, in order. */
  ghost predicate Places<T>(at: seq<nat>, xs: seq<T>, has: T -> bool) {
    && Increasing(at)
    && (forall k :: 0 <= k < |at| ==> at[k] < |xs| && has(xs[at[k]]))
    && (forall i: nat :: i < |xs| && has(xs[i]) ==> i in at)
  }

  /** `picked` are the elements at those places. */
  ghost predicate PicksAt<T>(picked: seq<T>, at: seq<nat>, xs: seq<T>, has: T -> bool) {
    Places(at, xs, has) && |at| == |picked| && forall k :: 0 <= k < |at| ==> picked[k] == xs[at[k]]
  }

  ghost predicate Picks<T>(picked: seq<T>, xs: seq<T>, has: T -> bool) {
    exists at :: PicksAt(picked, at, xs, has)
  }

  lemma PicksOfNone<T>(has: T -> bool)
    ensures PicksAt([], [], [], has)
  {
  }

  lemma PlacesOfOneMore<T>(at: seq<nat>, xs: seq<T>, x: T, has: T -> bool)
    requires Places(at, xs, has)
    ensures Places(if has(x) then at + [|xs|] else at, xs + [x], has)
  {
    var more := if has(x) then at + [|xs|] else at;
    forall i: nat | i < |xs| + 1 && has((xs + [x])[i]) ensures i in more {
      if i < |xs| {
        assert has(xs[i]) && i in at;
      }
    }
  }

  lemma PicksOfOneMore<T>(picked: seq<T>, at: seq<nat>, xs: seq<T>, x: T, has: T -> bool) returns (more: seq<nat>)
    requires PicksAt(picked, at, xs, has)
    ensures PicksAt(if has(x) then picked + [x] else picked, more, xs + [x], has)
  {
    PlacesOfOneMore(at, xs, x, has);
    more := if has(x) then at + [|xs|] else at;
  }

  lemma SamePlaces<T>(at: seq<nat>, bt: seq<nat>, xs: seq<T>, has: T -> bool)
    requires Places(at, xs, has) && Places(bt, xs, has)
    ensures at == bt
  {
    forall i: nat ensures i in at <==> i in bt {
    }
    IncreasingIsUnique(at, bt);
  }

  /** That determines the list. */
  lemma PicksIsUnique<T>(p: seq<T>, q: seq<T>, xs: seq<T>, has: T -> bool)
    requires Picks(p, xs, has) && Picks(q, xs, has)
    ensures p == q
  {
    var at: seq<nat> :| PicksAt(p, at, xs, has);
    var bt: seq<nat> :| PicksAt(q, bt, xs, has);
    SamePlaces(at, bt, xs, has);
  }
}
