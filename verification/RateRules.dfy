/** When the request limiter refuses (middleware/ratelimit.go, lines 111-116): the comparison is a parameter of the
  * limiter's model.  `Exact` compares integers, both sides multiplied by the window; `Rounded` computes as the
  * source does, in floating point.  The properties below are what the theorems need of a comparison. */
module RateRules {
  import opened Prelude

  /** The value of a slidingWindow. */
  datatype Window = Window(prev: int, curr: int, start: Time)

  /** A limit, a window length, and the comparison that refuses a request at a given time. */
  datatype Rules = Rules(limit: int, window: int, refuses: (Window, Time) -> bool) {
    predicate Valid() { window > 0 }
  }

  /** The window has been rolled and not run out. */
  predicate During(w: Window, now: Time, window: int) {
    w.start <= now <= w.start + window
  }

  // ---------------------------------------------------------------- what may be asked of a comparison

  /** A full window is refused whatever the previous one adds. */
  ghost predicate HonoursLimit(cfg: Rules) {
    forall w: Window, now: Time ::
      (w.prev >= 0 && During(w, now, cfg.window) && w.curr >= cfg.limit) ==> cfg.refuses(w, now)
  }

  /** Whatever is refused, the two counts together reach the limit. */
  ghost predicate RefusesOnlyFull(cfg: Rules) {
    forall w: Window, now: Time ::
      (w.prev >= 0 && w.curr >= 0 && During(w, now, cfg.window) && cfg.refuses(w, now)) ==>
        w.prev + w.curr >= cfg.limit
  }

  /** In a window that was just rolled only a full previous one is refused, and only at the very start. */
  ghost predicate Fades(cfg: Rules) {
    forall w: Window, now: Time ::
      (0 <= w.prev <= cfg.limit && w.curr == 0 && w.start <= now < w.start + cfg.window) ==>
        (cfg.refuses(w, now) <==> now == w.start && w.prev == cfg.limit)
  }

  /** The previous window has faded, or is full and about to fade. */
  predicate Free(w: Window, now: Time, cfg: Rules) {
    && w.curr >= 0 && During(w, now, cfg.window)
    && (|| w.prev == 0
        || now == w.start + cfg.window
        || (w.prev == cfg.limit && now == w.start + cfg.window - 1))
  }

  /** Then the current count alone decides. */
  ghost predicate LeavesRoom(cfg: Rules) {
    forall w: Window, now: Time :: (Free(w, now, cfg) && w.curr < cfg.limit) ==> !cfg.refuses(w, now)
  }

  // ---------------------------------------------------------------- the exact comparison

  function Effective(w: Window, now: Time, window: int): int {
    w.prev * (window - (now - w.start)) + w.curr * window
  }

  function Exact(limit: int, window: int): Rules {
    Rules(limit, window, (w: Window, now: Time) => Effective(w, now, window) >= limit * window)
  }

  lemma ExactHonoursLimit(limit: int, window: int)
    requires window > 0
    ensures HonoursLimit(Exact(limit, window))
  {
    forall w: Window, now: Time | w.prev >= 0 && During(w, now, window) && w.curr >= limit
      ensures Exact(limit, window).refuses(w, now)
    {
      FullIsRefused(w.prev, window - (now - w.start), w.curr, limit, window);
    }
  }

  lemma FullIsRefused(prev: int, rest: int, curr: int, limit: int, window: int)
    requires prev >= 0 && rest >= 0 && window > 0 && curr >= limit
    ensures prev * rest + curr * window >= limit * window
  {
    assert prev * rest >= 0;
    assert curr * window >= limit * window;
  }

  lemma ExactRefusesOnlyFull(limit: int, window: int)
    requires window > 0
    ensures RefusesOnlyFull(Exact(limit, window))
  {
    forall w: Window, now: Time
      | w.prev >= 0 && w.curr >= 0 && During(w, now, window) && Exact(limit, window).refuses(w, now)
      ensures w.prev + w.curr >= limit
    {
      RefusedIsFull(w.prev, window - (now - w.start), w.curr, limit, window);
    }
  }

  lemma RefusedIsFull(prev: int, rest: int, curr: int, limit: int, window: int)
    requires prev >= 0 && 0 <= rest <= window && window > 0 && prev * rest + curr * window >= limit * window
    ensures prev + curr >= limit
  {
    assert prev * rest <= prev * window;
    assert (prev + curr) * window == prev * window + curr * window;
    NoSmaller(prev + curr, limit, window);
  }

  lemma NoSmaller(a: int, b: int, c: int)
    requires c > 0 && a * c >= b * c
    ensures a >= b
  {
  }

  lemma ExactFades(limit: int, window: int)
    requires limit >= 1 && window > 0
    ensures Fades(Exact(limit, window))
  {
    forall w: Window, now: Time | 0 <= w.prev <= limit && w.curr == 0 && w.start <= now < w.start + window
      ensures Exact(limit, window).refuses(w, now) <==> now == w.start && w.prev == limit
    {
      PreviousWindowFades(w.prev, now - w.start, limit, window);
    }
  }

  lemma PreviousWindowFades(prev: int, elapsed: int, limit: int, window: int)
    requires window > 0 && 0 <= prev <= limit && limit >= 1 && 0 <= elapsed < window
    ensures prev * (window - elapsed) >= limit * window <==> elapsed == 0 && prev == limit
  {
    if elapsed > 0 {
      assert prev * (window - elapsed) <= limit * (window - elapsed);
      assert limit * (window - elapsed) < limit * window;
    } else if prev < limit {
      assert prev * window < limit * window;
    }
  }

  /** The window must be longer, in nanoseconds, than the limit. */
  lemma ExactLeavesRoom(limit: int, window: int)
    requires 1 <= limit < window
    ensures LeavesRoom(Exact(limit, window))
  {
    forall w: Window, now: Time | Free(w, now, Exact(limit, window)) && w.curr < limit
      ensures !Exact(limit, window).refuses(w, now)
    {
      FreeIsBelowFull(w.prev, window - (now - w.start), w.curr, limit, window);
    }
  }

  lemma FreeIsBelowFull(prev: int, rest: int, curr: int, limit: int, window: int)
    requires 0 <= curr < limit < window && (prev == 0 || rest == 0 || (prev == limit && rest == 1))
    ensures prev * rest + curr * window < limit * window
  {
    BelowFull(limit, curr, window);
    if prev == 0 || rest == 0 {
      assert prev * rest == 0;
    }
  }

  lemma BelowFull(limit: int, curr: int, window: int)
    requires 0 <= curr < limit < window
    ensures limit * 1 + curr * window < limit * window
  {
    assert curr * window <= (limit - 1) * window;
    assert (limit - 1) * window == limit * window - window;
  }

  // ---------------------------------------------------------------- floating point

  /** The share of the previous window that is still counted, as the source computes it. */
  function Overlap(elapsed: int, window: int, round: real -> real): real {
    var length := round(window as real);
    if length == 0.0 then 0.0 else Rest(round(elapsed as real) / length, round)
  }

  function Rest(part: real, round: real -> real): real {
    round(1.0 - round(part))
  }

  /** The weighted count: every operation is rounded, except that a compiler may fuse the multiplication with
    * the addition. */
  function Total(prev: real, overlap: real, curr: real, round: real -> real, fused: bool): real {
    var product := prev * overlap;
    round((if fused then product else round(product)) + curr)
  }

  /** The comparison, if `share` gives the overlap after some time and `total` the weighted count. */
  function Comparing(limit: int, window: int, share: int -> real, total: (real, real, real) -> real,
                     round: real -> real): Rules {
    Rules(limit, window, (w: Window, now: Time) =>
      total(round(w.prev as real), share(now - w.start), round(w.curr as real)) >= round(limit as real))
  }

  function Overlaps(window: int, round: real -> real): int -> real {
    (elapsed: int) => Overlap(elapsed, window, round)
  }

  function Totals(round: real -> real, fused: bool): (real, real, real) -> real {
    (prev: real, overlap: real, curr: real) => Total(prev, overlap, curr, round, fused)
  }

  /** The source's comparison. */
  function Rounded(limit: int, window: int, round: real -> real, fused: bool): Rules {
    Comparing(limit, window, Overlaps(window, round), Totals(round, fused), round)
  }

  /** Rounding in any mode keeps the order, and whatever is representable, as zero and one are. */
  ghost predicate IsRounding(round: real -> real) {
    && round(0.0) == 0.0 && round(1.0) == 1.0
    && (forall x {:trigger round(round(x))} :: round(round(x)) == round(x))
    && (forall x, y {:trigger round(x), round(y)} :: x <= y ==> round(x) <= round(y))
  }

  /** The error that rounding may add to a double, half a unit in the last place of `x`. */
  function HalfUnit(x: real): real {
    x / 9007199254740992.0
  }

  const TWO_53: int := 9007199254740992
  const TWO_51: int := 2251799813685248

  const TINY: real := 0.0000000000000001
  const HUGE: real := 100000000000000000.0

  predicate Whole(x: real) {
    0.0 <= x <= TWO_53 as real && x.Floor as real == x
  }

  /** What is used of the format's precision: integers of 53 bits, and the relative error of numbers that are
    * neither tiny nor huge. */
  ghost predicate IsDouble(round: real -> real) {
    && IsRounding(round)
    && (forall x: real :: Whole(x) ==> round(x) == x)
    && (forall x: real :: TINY <= x <= HUGE ==> x - HalfUnit(x) <= round(x) <= x + HalfUnit(x))
  }

  lemma Monotone(round: real -> real, x: real, y: real)
    requires IsRounding(round) && x <= y
    ensures round(x) <= round(y)
  {
  }

  lemma WholeNumber(round: real -> real, n: int)
    requires IsDouble(round) && 0 <= n <= TWO_53
    ensures Whole(n as real) && round(n as real) == n as real
  {
  }

  lemma NearlyRight(round: real -> real, x: real)
    requires IsDouble(round) && TINY <= x <= HUGE
    ensures x - HalfUnit(x) <= round(x) <= x + HalfUnit(x)
  {
  }

  lemma FactorAtLeast(a: real, w: real, c: real)
    requires w > 0.0 && c * w <= a * w
    ensures c <= a
  {
  }

  lemma SameFactor(a: real, b: real, w: real)
    requires w > 0.0 && a * w == b * w
    ensures a == b
  {
  }

  lemma QuotientAtMostOne(a: real, b: real)
    requires 0.0 <= a <= b && b > 0.0
    ensures 0.0 <= a / b <= 1.0
    ensures a == 0.0 ==> a / b == 0.0
    ensures a == b ==> a / b == 1.0
  {
  }

  lemma RestIsShare(part: real, round: real -> real)
    requires IsRounding(round) && 0.0 <= part <= 1.0
    ensures 0.0 <= Rest(part, round) <= 1.0
    ensures part == 0.0 ==> Rest(part, round) == 1.0
    ensures part == 1.0 ==> Rest(part, round) == 0.0
  {
    Monotone(round, 0.0, part);
    Monotone(round, part, 1.0);
    Monotone(round, 0.0, 1.0 - round(part));
    Monotone(round, 1.0 - round(part), 1.0);
  }

  lemma LengthsAreOrdered(elapsed: int, window: int, round: real -> real)
    requires IsRounding(round) && window > 0 && 0 <= elapsed <= window
    ensures 0.0 <= round(elapsed as real) <= round(window as real) && 1.0 <= round(window as real)
    ensures elapsed == 0 ==> round(elapsed as real) == 0.0
  {
    Monotone(round, 0.0, elapsed as real);
    Monotone(round, elapsed as real, window as real);
    Monotone(round, 1.0, window as real);
  }

  lemma OverlapIsShare(elapsed: int, window: int, round: real -> real)
    requires IsRounding(round) && window > 0 && 0 <= elapsed <= window
    ensures 0.0 <= Overlap(elapsed, window, round) <= 1.0
    ensures elapsed == 0 ==> Overlap(elapsed, window, round) == 1.0
    ensures elapsed == window ==> Overlap(elapsed, window, round) == 0.0
  {
    LengthsAreOrdered(elapsed, window, round);
    QuotientAtMostOne(round(elapsed as real), round(window as real));
    RestIsShare(round(elapsed as real) / round(window as real), round);
  }

  lemma ProductBounds(a: real, b: real, c: real)
    requires 0.0 <= a && 0.0 <= b <= c
    ensures 0.0 <= a * b <= a * c
  {
  }

  // ---------------------------------------------------------------- what the overlap is

  /** A share between one and zero, whole at the start of the window and nothing at its end. */
  ghost predicate IsShare(share: int -> real, window: int) {
    && (forall e: int :: 0 <= e <= window ==> 0.0 <= share(e) <= 1.0)
    && share(0) == 1.0 && share(window) == 0.0
  }

  lemma OverlapsAreShares(window: int, round: real -> real)
    requires IsRounding(round) && window > 0
    ensures IsShare(Overlaps(window, round), window)
  {
    forall e: int | 0 <= e <= window ensures 0.0 <= Overlaps(window, round)(e) <= 1.0 {
      OverlapIsShare(e, window, round);
    }
    OverlapIsShare(0, window, round);
    OverlapIsShare(window, window, round);
  }

  /** One nanosecond after the roll it is below one by two units. */
  ghost predicate FadesAtOnce(share: int -> real, window: int) {
    forall e: int :: 1 <= e < window ==> share(e) <= 1.0 - HalfUnit(2.0)
  }

  /** The exact part of the window that has passed. */
  function Parts(window: int): int -> real
    requires window > 0
  {
    (elapsed: int) => elapsed as real / window as real
  }

  function Rests(parts: int -> real, round: real -> real): int -> real {
    (elapsed: int) => Rest(parts(elapsed), round)
  }

  /** Windows and times below 2^53 nanoseconds are exact. */
  lemma OverlapIsRest(elapsed: int, window: int, round: real -> real)
    requires IsDouble(round) && 0 <= elapsed <= window <= TWO_51 && 1 <= window
    ensures Overlaps(window, round)(elapsed) == Rests(Parts(window), round)(elapsed)
  {
    WholeNumber(round, elapsed);
    WholeNumber(round, window);
  }

  /** After one nanosecond the part is at least four units. */
  ghost predicate NotTiny(parts: int -> real, window: int) {
    forall e: int :: 1 <= e < window ==> HalfUnit(4.0) <= parts(e) <= 1.0
  }

  lemma PartsAreNotTiny(window: int)
    requires 1 <= window <= TWO_51
    ensures NotTiny(Parts(window), window)
  {
    forall e: int | 1 <= e < window ensures HalfUnit(4.0) <= Parts(window)(e) <= 1.0 {
      QuotientBounds(e as real, window as real);
    }
  }

  lemma QuotientBounds(e: real, w: real)
    requires 1.0 <= e <= w <= TWO_51 as real
    ensures HalfUnit(4.0) <= e / w <= 1.0
  {
    var q := e / w;
    assert q * w == e;
    assert HalfUnit(4.0) * w == HalfUnit(4.0 * w);
    FactorAtLeast(q, w, HalfUnit(4.0));
    FactorAtLeast(1.0, w, q);
  }

  /** What the parts are one nanosecond before the end, and of how little weight one nanosecond is. */
  ghost predicate EndsWhole(parts: int -> real, limit: real, window: int) {
    && parts(window - 1) == 1.0 - parts(1) && 0.5 <= parts(window - 1) <= 1.0
    && TINY <= parts(1) && limit * parts(1) <= 0.5
  }

  lemma PartsEndWhole(limit: int, window: int)
    requires 1 <= limit && 2 * limit <= window <= TWO_51
    ensures EndsWhole(Parts(window), limit as real, window)
  {
    var w := window as real;
    assert (window - 1) as real == w - 1.0;
    LastQuotient(limit as real, w);
  }

  lemma LastQuotient(l: real, w: real)
    requires 1.0 <= l && 2.0 * l <= w <= TWO_51 as real
    ensures (w - 1.0) / w == 1.0 - 1.0 / w && 0.5 <= (w - 1.0) / w <= 1.0
    ensures TINY <= 1.0 / w && l * (1.0 / w) <= 0.5
  {
    var r := 1.0 / w;
    assert r * w == 1.0;
    FactorAtLeast(r, w, TINY);
    FactorAtLeast(0.5, w, r);
    HalfAtMost(l, w, r);
    assert (w - 1.0) / w == 1.0 - r by { OneMinus(w); }
  }

  lemma OneMinus(w: real)
    requires w > 0.0
    ensures (w - 1.0) / w == 1.0 - 1.0 / w
  {
  }

  lemma RestHasFaded(part: real, round: real -> real)
    requires IsDouble(round) && HalfUnit(4.0) <= part <= 1.0
    ensures 0.0 <= Rest(part, round) <= 1.0 - HalfUnit(2.0)
  {
    RestIsShare(part, round);
    NearlyRight(round, part);
    Monotone(round, 1.0 - round(part), 1.0 - HalfUnit(3.0));
    NearlyRight(round, 1.0 - HalfUnit(3.0));
  }

  lemma OverlapsFadeAtOnce(window: int, round: real -> real)
    requires IsDouble(round) && 1 <= window <= TWO_51
    ensures FadesAtOnce(Overlaps(window, round), window)
  {
    PartsAreNotTiny(window);
    RestsFadeAtOnce(Parts(window), window, round);
    forall e: int | 1 <= e < window ensures Overlaps(window, round)(e) <= 1.0 - HalfUnit(2.0) {
      OverlapIsRest(e, window, round);
    }
  }

  lemma RestsFadeAtOnce(parts: int -> real, window: int, round: real -> real)
    requires IsDouble(round) && NotTiny(parts, window)
    ensures FadesAtOnce(Rests(parts, round), window)
  {
    forall e: int | 1 <= e < window ensures Rests(parts, round)(e) <= 1.0 - HalfUnit(2.0) {
      RestHasFaded(parts(e), round);
    }
  }

  lemma RestAtTheEnd(part: real, r: real, round: real -> real)
    requires IsDouble(round) && 0.5 <= part <= 1.0 && part == 1.0 - r && TINY <= r
    ensures 0.0 <= Rest(part, round) <= r + HalfUnit(1.0) + HalfUnit(r + HalfUnit(1.0))
  {
    RestIsShare(part, round);
    NearlyRight(round, part);
    Monotone(round, 1.0 - round(part), r + HalfUnit(1.0));
    NearlyRight(round, r + HalfUnit(1.0));
  }

  lemma HalfAtMost(l: real, w: real, r: real)
    requires 0.0 <= r && r * w == 1.0 && 0.0 <= 2.0 * l <= w
    ensures l * r <= 0.5
  {
    ProductBounds(r, 2.0 * l, w);
    assert r * (2.0 * l) == 2.0 * (l * r);
  }

  lemma SmallExcess(l: real, r: real)
    requires 1.0 <= l <= 0.5 * TWO_51 as real && 0.0 <= r && l * r <= 0.5
    ensures l * (r + HalfUnit(1.0) + HalfUnit(r + HalfUnit(1.0))) <= 0.65
  {
    assert l * (r + HalfUnit(1.0) + HalfUnit(r + HalfUnit(1.0))) == l * r + HalfUnit(l) + HalfUnit(l * r + HalfUnit(l));
  }

  lemma LastProduct(l: real, overlap: real, r: real)
    requires 1.0 <= l <= 0.5 * TWO_51 as real && 0.0 <= r && l * r <= 0.5
    requires 0.0 <= overlap <= r + HalfUnit(1.0) + HalfUnit(r + HalfUnit(1.0))
    ensures l * overlap <= 0.65
  {
    ProductBounds(l, overlap, r + HalfUnit(1.0) + HalfUnit(r + HalfUnit(1.0)));
    SmallExcess(l, r);
  }

  /** One nanosecond before the end of a window at least twice the limit long, a full previous window weighs less
    * than two thirds. */
  predicate Light(prev: real, overlap: real) {
    prev * overlap <= 0.65
  }

  lemma RestsEndLight(parts: int -> real, limit: real, window: int, round: real -> real)
    requires IsDouble(round) && 1.0 <= limit <= 0.5 * TWO_51 as real && EndsWhole(parts, limit, window)
    ensures Light(limit, Rests(parts, round)(window - 1))
  {
    RestAtTheEnd(parts(window - 1), parts(1), round);
    LastProduct(limit, Rest(parts(window - 1), round), parts(1));
  }

  lemma OverlapsEndLight(limit: int, window: int, round: real -> real)
    requires IsDouble(round) && 1 <= limit && 2 * limit <= window <= TWO_51
    ensures Light(limit as real, Overlaps(window, round)(window - 1))
  {
    PartsEndWhole(limit, window);
    RestsEndLight(Parts(window), limit as real, window, round);
    OverlapIsRest(window - 1, window, round);
  }

  // ---------------------------------------------------------------- what the total is

  lemma FullTotal(prev: real, overlap: real, curr: real, limit: real, round: real -> real, fused: bool)
    requires IsRounding(round) && prev >= 0.0 && overlap >= 0.0 && curr >= round(limit)
    ensures Total(prev, overlap, curr, round, fused) >= round(limit)
  {
    var product := prev * overlap;
    ProductBounds(prev, 0.0, overlap);
    Monotone(round, 0.0, product);
    var sum := (if fused then product else round(product)) + curr;
    Monotone(round, round(limit), sum);
  }

  /** If the product stays below `bound`, the total stays below the rounded sum. */
  lemma TotalAtMost(prev: real, overlap: real, curr: real, bound: real, round: real -> real, fused: bool)
    requires IsRounding(round) && prev * overlap <= bound
    ensures Total(prev, overlap, curr, round, fused) <= round((if fused then bound else round(bound)) + curr)
  {
    var product := prev * overlap;
    Monotone(round, product, bound);
    Monotone(round, (if fused then product else round(product)) + curr, (if fused then bound else round(bound)) + curr);
  }

  lemma TotalAtMostSum(p: real, overlap: real, c: real, round: real -> real, fused: bool)
    requires IsDouble(round) && Whole(p) && Whole(c) && Whole(p + c) && 0.0 <= overlap <= 1.0
    ensures Totals(round, fused)(p, overlap, c) <= p + c
  {
    ProductBounds(p, overlap, 1.0);
    TotalAtMost(p, overlap, c, p, round, fused);
  }

  lemma RoundedTwice(bound: real, limit: real, round: real -> real)
    requires IsDouble(round) && 1.0 <= limit <= TWO_53 as real && bound == limit - HalfUnit(2.0 * limit)
    ensures round(bound) < limit && round(round(bound)) < limit
  {
    NearlyRight(round, bound);
    var less := limit - HalfUnit(limit);
    Monotone(round, round(bound), less);
    NearlyRight(round, less);
  }

  lemma FadedProduct(prev: real, overlap: real, limit: real)
    requires 0.0 <= prev <= limit && 0.0 <= overlap <= 1.0 - HalfUnit(2.0)
    ensures prev * overlap <= limit - HalfUnit(2.0 * limit)
  {
    ProductBounds(prev, overlap, 1.0 - HalfUnit(2.0));
    assert prev * (1.0 - HalfUnit(2.0)) == prev - HalfUnit(2.0 * prev);
  }

  lemma FadedTotal(prev: real, overlap: real, limit: real, round: real -> real, fused: bool)
    requires IsDouble(round) && 1.0 <= limit <= TWO_53 as real && 0.0 <= prev <= limit
    requires 0.0 <= overlap <= 1.0 - HalfUnit(2.0)
    ensures Total(prev, overlap, 0.0, round, fused) < limit
  {
    var bound := limit - HalfUnit(2.0 * limit);
    FadedProduct(prev, overlap, limit);
    TotalAtMost(prev, overlap, 0.0, bound, round, fused);
    RoundedTwice(bound, limit, round);
  }

  lemma WholeTotal(prev: real, round: real -> real, fused: bool)
    requires IsDouble(round) && Whole(prev)
    ensures Total(prev, 1.0, 0.0, round, fused) == prev
  {
  }

  lemma LastTotal(prev: real, overlap: real, curr: real, limit: real, round: real -> real, fused: bool)
    requires IsDouble(round) && 1.0 <= limit <= 0.5 * TWO_51 as real && 0.0 <= curr <= limit - 1.0
    requires Light(prev, overlap)
    ensures Total(prev, overlap, curr, round, fused) < limit
  {
    TotalAtMost(prev, overlap, curr, 0.65, round, fused);
    NearlyRight(round, 0.65);
    Monotone(round, (if fused then 0.65 else round(0.65)) + curr, limit - 0.3);
    NearlyRight(round, limit - 0.3);
  }

  lemma NothingAdded(prev: real, overlap: real, curr: real, round: real -> real, fused: bool)
    requires IsDouble(round) && (prev == 0.0 || overlap == 0.0) && Whole(curr)
    ensures Total(prev, overlap, curr, round, fused) == curr
  {
    assert prev * overlap == 0.0;
  }

  /** What is needed of the weighted count, apart from how it is computed. */
  ghost predicate IsTotal(total: (real, real, real) -> real, round: real -> real) {
    forall p, o, c, l {:trigger total(p, o, c), round(l)} ::
      (p >= 0.0 && o >= 0.0 && c >= round(l)) ==> total(p, o, c) >= round(l)
  }

  lemma TotalsAreTotal(round: real -> real, fused: bool)
    requires IsRounding(round)
    ensures IsTotal(Totals(round, fused), round)
  {
    forall p, o, c, l | p >= 0.0 && o >= 0.0 && c >= round(l) ensures Totals(round, fused)(p, o, c) >= round(l) {
      FullTotal(p, o, c, l, round, fused);
    }
  }

  ghost predicate AtMostSum(total: (real, real, real) -> real) {
    forall p, o, c ::
      (Whole(p) && Whole(c) && Whole(p + c) && 0.0 <= o <= 1.0) ==> total(p, o, c) <= p + c
  }

  lemma TotalsAreAtMostSum(round: real -> real, fused: bool)
    requires IsDouble(round)
    ensures AtMostSum(Totals(round, fused))
  {
    forall p, o, c | Whole(p) && Whole(c) && Whole(p + c) && 0.0 <= o <= 1.0
      ensures Totals(round, fused)(p, o, c) <= p + c
    {
      TotalAtMostSum(p, o, c, round, fused);
    }
  }

  ghost predicate CountsWhole(total: (real, real, real) -> real) {
    forall p :: Whole(p) ==> total(p, 1.0, 0.0) == p
  }

  lemma TotalsCountWhole(round: real -> real, fused: bool)
    requires IsDouble(round)
    ensures CountsWhole(Totals(round, fused))
  {
    forall p | Whole(p) ensures Totals(round, fused)(p, 1.0, 0.0) == p {
      WholeTotal(p, round, fused);
    }
  }

  ghost predicate FadesBelow(total: (real, real, real) -> real, limit: real) {
    forall p, o :: (0.0 <= p <= limit && 0.0 <= o <= 1.0 - HalfUnit(2.0)) ==> total(p, o, 0.0) < limit
  }

  lemma TotalsFadeBelow(limit: real, round: real -> real, fused: bool)
    requires IsDouble(round) && 1.0 <= limit <= TWO_53 as real
    ensures FadesBelow(Totals(round, fused), limit)
  {
    forall p, o | 0.0 <= p <= limit && 0.0 <= o <= 1.0 - HalfUnit(2.0) ensures Totals(round, fused)(p, o, 0.0) < limit {
      FadedTotal(p, o, limit, round, fused);
    }
  }

  ghost predicate AddsNothing(total: (real, real, real) -> real) {
    forall p, o, c :: ((p == 0.0 || o == 0.0) && Whole(c)) ==> total(p, o, c) == c
  }

  lemma TotalsAddNothing(round: real -> real, fused: bool)
    requires IsDouble(round)
    ensures AddsNothing(Totals(round, fused))
  {
    forall p, o, c | (p == 0.0 || o == 0.0) && Whole(c) ensures Totals(round, fused)(p, o, c) == c {
      NothingAdded(p, o, c, round, fused);
    }
  }

  ghost predicate LightStaysBelow(total: (real, real, real) -> real, limit: real) {
    forall p, o, c :: (Light(p, o) && 0.0 <= c <= limit - 1.0) ==> total(p, o, c) < limit
  }

  lemma TotalsStayBelow(limit: real, round: real -> real, fused: bool)
    requires IsDouble(round) && 1.0 <= limit <= 0.5 * TWO_51 as real
    ensures LightStaysBelow(Totals(round, fused), limit)
  {
    forall p, o, c | Light(p, o) && 0.0 <= c <= limit - 1.0 ensures Totals(round, fused)(p, o, c) < limit {
      LastTotal(p, o, c, limit, round, fused);
    }
  }

  // ---------------------------------------------------------------- the source's comparison

  /** Whatever the rounding, a full window is refused. */
  lemma RoundedHonoursLimit(limit: int, window: int, round: real -> real, fused: bool)
    requires window > 0 && IsRounding(round)
    ensures HonoursLimit(Rounded(limit, window, round, fused))
  {
    OverlapsAreShares(window, round);
    TotalsAreTotal(round, fused);
    ComparingHonoursLimit(limit, window, Overlaps(window, round), Totals(round, fused), round);
  }

  lemma ComparingHonoursLimit(limit: int, window: int, share: int -> real, total: (real, real, real) -> real,
                              round: real -> real)
    requires IsRounding(round) && IsShare(share, window) && IsTotal(total, round)
    ensures HonoursLimit(Comparing(limit, window, share, total, round))
  {
    forall w: Window, now: Time | w.prev >= 0 && During(w, now, window) && w.curr >= limit
      ensures Comparing(limit, window, share, total, round).refuses(w, now)
    {
      Monotone(round, 0.0, w.prev as real);
      Monotone(round, limit as real, w.curr as real);
    }
  }

  /** In double precision, a request is refused only if the two counts together reach the limit. */
  lemma RoundedRefusesOnlyFull(limit: int, window: int, round: real -> real, fused: bool)
    requires window > 0 && limit <= TWO_53 && IsDouble(round)
    ensures RefusesOnlyFull(Rounded(limit, window, round, fused))
  {
    OverlapsAreShares(window, round);
    TotalsAreAtMostSum(round, fused);
    ComparingRefusesOnlyFull(limit, window, Overlaps(window, round), Totals(round, fused), round);
  }

  lemma ComparingRefusesOnlyFull(limit: int, window: int, share: int -> real, total: (real, real, real) -> real,
                                 round: real -> real)
    requires limit <= TWO_53 && IsDouble(round) && IsShare(share, window) && AtMostSum(total)
    ensures RefusesOnlyFull(Comparing(limit, window, share, total, round))
  {
    forall w: Window, now: Time
      | && w.prev >= 0 && w.curr >= 0 && During(w, now, window)
        && Comparing(limit, window, share, total, round).refuses(w, now)
      ensures w.prev + w.curr >= limit
    {
      RefusedIsSum(w, now, limit, window, share, total, round);
    }
  }

  lemma RefusedIsSum(w: Window, now: Time, limit: int, window: int, share: int -> real,
                     total: (real, real, real) -> real, round: real -> real)
    requires limit <= TWO_53 && IsDouble(round) && AtMostSum(total)
    requires w.prev >= 0 && w.curr >= 0 && 0.0 <= share(now - w.start) <= 1.0
    ensures Comparing(limit, window, share, total, round).refuses(w, now) ==> w.prev + w.curr >= limit
  {
    if w.prev + w.curr < limit {
      SumBelow(w.prev, share(now - w.start), w.curr, limit, total, round);
    }
  }

  lemma SumBelow(p: int, o: real, c: int, limit: int, total: (real, real, real) -> real, round: real -> real)
    requires IsDouble(round) && AtMostSum(total)
    requires 0 <= p && 0 <= c && p + c < limit <= TWO_53 && 0.0 <= o <= 1.0
    ensures total(round(p as real), o, round(c as real)) < round(limit as real)
  {
    WholeNumber(round, p);
    WholeNumber(round, c);
    WholeNumber(round, p + c);
    WholeNumber(round, limit);
    assert p as real + c as real == (p + c) as real;
  }

  /** Just after a roll the comparison decides as the exact one does. */
  lemma RoundedFades(limit: int, window: int, round: real -> real, fused: bool)
    requires 1 <= limit <= TWO_53 && 1 <= window <= TWO_51 && IsDouble(round)
    ensures Fades(Rounded(limit, window, round, fused))
  {
    OverlapsAreShares(window, round);
    OverlapsFadeAtOnce(window, round);
    TotalsCountWhole(round, fused);
    TotalsFadeBelow(limit as real, round, fused);
    ComparingFades(limit, window, Overlaps(window, round), Totals(round, fused), round);
  }

  lemma ComparingFades(limit: int, window: int, share: int -> real, total: (real, real, real) -> real,
                       round: real -> real)
    requires 1 <= limit <= TWO_53 && IsDouble(round) && IsShare(share, window) && FadesAtOnce(share, window)
    requires CountsWhole(total) && FadesBelow(total, limit as real)
    ensures Fades(Comparing(limit, window, share, total, round))
  {
    forall w: Window, now: Time | 0 <= w.prev <= limit && w.curr == 0 && w.start <= now < w.start + window
      ensures Comparing(limit, window, share, total, round).refuses(w, now) <==> now == w.start && w.prev == limit
    {
      WholeNumber(round, w.prev);
      WholeNumber(round, limit);
      WholeNumber(round, w.curr);
      assert now > w.start ==> share(now - w.start) <= 1.0 - HalfUnit(2.0);
    }
  }

  /** With a window at least twice as long, in nanoseconds, as the limit. */
  lemma RoundedLeavesRoom(limit: int, window: int, round: real -> real, fused: bool)
    requires 1 <= limit && 2 * limit <= window <= TWO_51 && IsDouble(round)
    ensures LeavesRoom(Rounded(limit, window, round, fused))
  {
    OverlapsAreShares(window, round);
    OverlapsEndLight(limit, window, round);
    TotalsAddNothing(round, fused);
    TotalsStayBelow(limit as real, round, fused);
    ComparingLeavesRoom(limit, window, Overlaps(window, round), Totals(round, fused), round);
  }

  lemma ComparingLeavesRoom(limit: int, window: int, share: int -> real, total: (real, real, real) -> real,
                            round: real -> real)
    requires 1 <= limit && 2 * limit <= TWO_51 && IsDouble(round)
    requires IsShare(share, window) && Light(limit as real, share(window - 1))
    requires AddsNothing(total) && LightStaysBelow(total, limit as real)
    ensures LeavesRoom(Comparing(limit, window, share, total, round))
  {
    forall w: Window, now: Time | Free(w, now, Comparing(limit, window, share, total, round)) && w.curr < limit
      ensures !Comparing(limit, window, share, total, round).refuses(w, now)
    {
      FreeIsAccepted(w, now, limit, window, share, total, round);
    }
  }

  lemma FreeIsAccepted(w: Window, now: Time, limit: int, window: int, share: int -> real,
                       total: (real, real, real) -> real, round: real -> real)
    requires 1 <= limit <= TWO_53 && IsDouble(round)
    requires AddsNothing(total) && LightStaysBelow(total, limit as real)
    requires share(window) == 0.0 && Light(limit as real, share(window - 1))
    requires Free(w, now, Comparing(limit, window, share, total, round)) && w.curr < limit
    ensures !Comparing(limit, window, share, total, round).refuses(w, now)
  {
    if w.prev == 0 {
      FreeIsBelow(0.0, share(now - w.start), w.curr, limit, total, round);
    } else if now == w.start + window {
      FreeIsBelow(round(w.prev as real), 0.0, w.curr, limit, total, round);
    } else {
      WholeNumber(round, limit);
      FreeIsBelow(limit as real, share(window - 1), w.curr, limit, total, round);
    }
  }

  lemma FreeIsBelow(p: real, o: real, c: int, limit: int, total: (real, real, real) -> real, round: real -> real)
    requires IsDouble(round) && AddsNothing(total) && LightStaysBelow(total, limit as real)
    requires 0 <= c < limit <= TWO_53 && (p == 0.0 || o == 0.0 || Light(p, o))
    ensures total(p, o, round(c as real)) < round(limit as real)
  {
    WholeNumber(round, limit);
    WholeNumber(round, c);
    assert c as real <= limit as real - 1.0;
  }
}
