/** What the two limiters of the middleware package share. */
module Middleware {
  import opened Prelude

  const MAX_TRACKED_IPS: nat := 10_000

  datatype Config = Config(limit: int, window: int) {
    predicate Valid() { window > 0 }
  }

  /** Both limiters let the first event of a key pass unseen, even with a limit below one. */
  function AtLeastOne(limit: int): (m: int)
    ensures m >= 1 && m >= limit
  {
    Max(1, limit)
  }

  lemma {:induction false} SubsetSize(a: set<string>, b: set<string>)
    requires a <= b
    ensures |a| <= |b|
  {
    if a != {} {
      var k :| k in a;
      SubsetSize(a - {k}, b - {k});
    }
  }
}
