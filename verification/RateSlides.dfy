/** What the request limiter counts between the ends of a window (middleware/ratelimit.go, lines 103-117): the previous
  * count fades linearly, in floating point too, and over runs a key regains its limit at that rate. */
module RateSlides {
  import opened Prelude
  import opened Intervals
  import opened Middleware
  import opened RateRules
  import opened RateLimit

  /** What weighs more than the limit is refused and what weighs less is not; `rest` of the window is left, and the
    * weight and the limit are multiplied by the window. */
  predicate Decides(prev: int, curr: int, rest: int, limit: int, window: int, refused: bool) {
    && (prev * rest + curr * window > limit * window ==> refused)
    && (prev * rest + curr * window < limit * window ==> !refused)
  }

  /** A comparison counts the previous window by the share of it that is left. */
  ghost predicate Slides(cfg: Rules) {
    forall w: Window, now: Time ::
      (WindowInv(w, now, cfg) && During(w, now, cfg.window)) ==>
        Decides(w.prev, w.curr, w.start + cfg.window - now, cfg.limit, cfg.window, cfg.refuses(w, now))
  }

  lemma ExactSlides(limit: int, window: int)
    requires window > 0
    ensures Slides(Exact(limit, window))
  {
    forall w: Window, now: Time | WindowInv(w, now, Exact(limit, window)) && During(w, now, window)
      ensures Decides(w.prev, w.curr, w.start + window - now, limit, window, Exact(limit, window).refuses(w, now))
    {
      assert window - (now - w.start) == w.start + window - now;
    }
  }

  // ---------------------------------------------------------------- floating point: how far off each step is

  /** The distance between two numbers is at most `d`. */
  predicate Near(x: real, y: real, d: real) {
    y - d <= x <= y + d
  }

  /** Rounding a number up to `m` is off by at most what it is for `m`. */
  lemma RoundNear(round: real -> real, x: real, m: real)
    requires IsDouble(round) && 0.0 <= x <= m <= HUGE && 1.0 <= m
    ensures Near(round(x), x, HalfUnit(m))
  {
    if x >= TINY {
      NearlyRight(round, x);
    } else {
      Monotone(round, 0.0, x);
      Monotone(round, x, TINY);
      NearlyRight(round, TINY);
    }
  }

  lemma RestNear(part: real, round: real -> real)
    requires IsDouble(round) && 0.0 <= part <= 1.0
    ensures 0.0 <= Rest(part, round) <= 1.0 && Near(Rest(part, round), 1.0 - part, HalfUnit(2.0))
  {
    RestIsShare(part, round);
    RoundNear(round, part, 1.0);
    Monotone(round, 0.0, part);
    Monotone(round, part, 1.0);
    RoundNear(round, 1.0 - round(part), 1.0);
  }

  lemma ProductNear(p: real, o: real, share: real, d: real)
    requires 0.0 <= p && Near(o, share, d)
    ensures Near(p * o, p * share, p * d)
  {
    TimesOrdered(p, share - d, o);
    TimesOrdered(p, o, share + d);
    assert p * (share - d) == p * share - p * d && p * (share + d) == p * share + p * d;
  }

  lemma TimesOrdered(a: real, b: real, c: real)
    requires 0.0 <= a && b <= c
    ensures a * b <= a * c
  {
  }

  lemma ShareOfCount(p: real, o: real, share: real)
    requires 0.0 <= p && 0.0 <= o <= 1.0 && Near(o, share, HalfUnit(2.0))
    ensures 0.0 <= p * o <= p && Near(p * o, p * share, HalfUnit(2.0 * p))
  {
    ProductBounds(p, o, 1.0);
    ProductNear(p, o, share, HalfUnit(2.0));
    assert p * HalfUnit(2.0) == HalfUnit(2.0 * p);
  }

  lemma RoundedProduct(exact: real, p: real, round: real -> real)
    requires IsDouble(round) && Whole(p) && 1.0 <= p && 0.0 <= exact <= p
    ensures 0.0 <= round(exact) <= p && Near(round(exact), exact, HalfUnit(p))
  {
    RoundNear(round, exact, p);
    Monotone(round, 0.0, exact);
    Monotone(round, exact, p);
  }

  lemma RoundedSum(product: real, weight: real, p: real, c: real, round: real -> real)
    requires IsDouble(round) && 1.0 <= p && 0.0 <= c && p + c <= TWO_53 as real
    requires 0.0 <= product <= p && Near(product, weight, HalfUnit(3.0 * p))
    ensures Near(round(product + c), weight + c, HalfUnit(4.0 * p + c))
  {
    RoundNear(round, product + c, p + c);
  }

  lemma WholeAtLeastOne(x: real)
    requires Whole(x) && x != 0.0
    ensures x >= 1.0
  {
  }

  lemma QuotientIsShare(elapsed: int, window: int)
    requires 0 <= elapsed <= window && window > 0
    ensures 0.0 <= elapsed as real / window as real <= 1.0
  {
    QuotientAtMostOne(elapsed as real, window as real);
  }

  /** The share of the window that is left. */
  function Left(e: int, window: int): real
    requires window > 0
  {
    1.0 - e as real / window as real
  }

  lemma OverlapIsNear(e: int, window: int, round: real -> real)
    requires IsDouble(round) && 1 <= window <= TWO_51 && 0 <= e <= window
    ensures 0.0 <= Overlap(e, window, round) <= 1.0
    ensures Near(Overlap(e, window, round), Left(e, window), HalfUnit(2.0))
  {
    OverlapIsRest(e, window, round);
    QuotientIsShare(e, window);
    RestNear(e as real / window as real, round);
  }

  predicate NearProduct(exact: real, weight: real, p: real) {
    0.0 <= exact <= p && Near(exact, weight, HalfUnit(2.0 * p))
  }

  /** What is needed of the overlap, apart from how it is computed. */
  ghost predicate FadesEvenly(share: int -> real, window: int)
    requires window > 0
  {
    forall e: int :: 0 <= e <= window ==>
      0.0 <= share(e) <= 1.0 && Near(share(e), Left(e, window), HalfUnit(2.0))
  }

  /** The weighted count, if `exact` is the product. */
  function Summed(exact: real, c: real, round: real -> real, fused: bool): real {
    round((if fused then exact else round(exact)) + c)
  }

  function Sums(round: real -> real, fused: bool): (real, real) -> real {
    (exact: real, c: real) => Summed(exact, c, round, fused)
  }

  lemma SummedNear(exact: real, weight: real, p: real, c: real, round: real -> real, fused: bool)
    requires IsDouble(round) && Whole(p) && Whole(c) && Whole(p + c) && NearProduct(exact, weight, p)
    ensures Near(Summed(exact, c, round, fused), weight + c, HalfUnit(4.0 * p + c))
  {
    if p != 0.0 {
      WholeAtLeastOne(p);
      RoundedProduct(exact, p, round);
      RoundedSum(if fused then exact else round(exact), weight, p, c, round);
    }
  }

  /** It is off by at most four units of the previous count and one of the current. */
  ghost predicate StaysNear(sum: (real, real) -> real) {
    forall exact, weight, p, c {:trigger sum(exact, c), NearProduct(exact, weight, p)} ::
      (Whole(p) && Whole(c) && Whole(p + c) && NearProduct(exact, weight, p)) ==>
        Near(sum(exact, c), weight + c, HalfUnit(4.0 * p + c))
  }

  lemma SumsStayNear(round: real -> real, fused: bool)
    requires IsDouble(round)
    ensures StaysNear(Sums(round, fused))
  {
    forall exact, weight, p, c | Whole(p) && Whole(c) && Whole(p + c) && NearProduct(exact, weight, p)
      ensures Near(Sums(round, fused)(exact, c), weight + c, HalfUnit(4.0 * p + c))
    {
      SummedNear(exact, weight, p, c, round, fused);
    }
  }

  lemma OverlapsFadeEvenly(window: int, round: real -> real)
    requires IsDouble(round) && 1 <= window <= TWO_51
    ensures FadesEvenly(Overlaps(window, round), window)
  {
    forall e: int | 0 <= e <= window
      ensures 0.0 <= Overlaps(window, round)(e) <= 1.0
      ensures Near(Overlaps(window, round)(e), Left(e, window), HalfUnit(2.0))
    {
      OverlapIsNear(e, window, round);
    }
  }

  /** Right about every weight that differs from the limit by more than (4*prev + curr) / 2^53. */
  predicate NearlyDecides(prev: int, curr: int, rest: int, limit: int, window: int, refused: bool) {
    var excess, margin := prev * rest + curr * window - limit * window, (4 * prev + curr) * window;
    && (TWO_53 * excess >= margin ==> refused)
    && (TWO_53 * excess < -margin ==> !refused)
  }

  ghost predicate NearlySlides(cfg: Rules) {
    forall w: Window, now: Time ::
      (0 <= w.prev && 0 <= w.curr && w.prev + w.curr <= TWO_53 && During(w, now, cfg.window)) ==>
        NearlyDecides(w.prev, w.curr, w.start + cfg.window - now, cfg.limit, cfg.window, cfg.refuses(w, now))
  }

  /** Counts are exact. */
  ghost predicate KeepsCounts(round: real -> real) {
    forall x: real :: Whole(x) ==> round(x) == x
  }

  /** The source's comparison is right about every request whose weighted count differs from the limit by more than
    * that. */
  lemma RoundedNearlySlides(limit: int, window: int, round: real -> real, fused: bool)
    requires IsDouble(round) && 0 <= limit <= TWO_53 && 1 <= window <= TWO_51
    ensures NearlySlides(Rounded(limit, window, round, fused))
  {
    OverlapsFadeEvenly(window, round);
    SumsStayNear(round, fused);
    TotalsSumUp(round, fused);
    ComparingNearlySlides(limit, window, Overlaps(window, round), Totals(round, fused), Sums(round, fused), round);
  }

  lemma ComparingNearlySlides(limit: int, window: int, share: int -> real, total: (real, real, real) -> real,
                              sum: (real, real) -> real, round: real -> real)
    requires window > 0 && FadesEvenly(share, window) && SumsUp(total, sum) && StaysNear(sum)
    requires KeepsCounts(round) && 0 <= limit <= TWO_53
    ensures NearlySlides(Comparing(limit, window, share, total, round))
  {
    forall w: Window, now: Time | 0 <= w.prev && 0 <= w.curr && w.prev + w.curr <= TWO_53 && During(w, now, window)
      ensures NearlyDecides(w.prev, w.curr, w.start + window - now, limit, window,
                            Comparing(limit, window, share, total, round).refuses(w, now))
    {
      ComparingIsNearlyExact(w, now, limit, window, share, total, sum, round);
    }
  }

  ghost predicate SumsUp(total: (real, real, real) -> real, sum: (real, real) -> real) {
    forall p, o, c {:trigger total(p, o, c)} :: total(p, o, c) == sum(p * o, c)
  }

  lemma TotalsSumUp(round: real -> real, fused: bool)
    ensures SumsUp(Totals(round, fused), Sums(round, fused))
  {
  }

  lemma ComparingIsNearlyExact(w: Window, now: Time, limit: int, window: int, share: int -> real,
                               total: (real, real, real) -> real, sum: (real, real) -> real, round: real -> real)
    requires window > 0 && During(w, now, window) && FadesEvenly(share, window) && SumsUp(total, sum) && StaysNear(sum)
    requires KeepsCounts(round) && 0 <= limit <= TWO_53
    requires 0 <= w.prev && 0 <= w.curr && w.prev + w.curr <= TWO_53
    ensures NearlyDecides(w.prev, w.curr, w.start + window - now, limit, window,
                          Comparing(limit, window, share, total, round).refuses(w, now))
  {
    var e := now - w.start;
    WholeCounts(w.prev, w.curr);
    WholeCount(limit);
    var decided := TotalDecides(w.prev, w.curr, e, w.start + window - now, limit, window, share(e), total, sum);
    assert Comparing(limit, window, share, total, round).refuses(w, now) <==> decided >= limit as real;
  }

  lemma TotalDecides(prev: int, curr: int, e: int, rest: int, limit: int, window: int, o: real,
                     total: (real, real, real) -> real, sum: (real, real) -> real)
      returns (decided: real)
    requires window > 0 && rest == window - e && SumsUp(total, sum) && StaysNear(sum)
    requires Whole(prev as real) && Whole(curr as real) && Whole(prev as real + curr as real)
    requires 0.0 <= o <= 1.0 && Near(o, Left(e, window), HalfUnit(2.0))
    ensures decided == total(prev as real, o, curr as real)
    ensures NearlyDecides(prev, curr, rest, limit, window, decided >= limit as real)
  {
    decided := TotalIsNear(prev as real, curr as real, o, Left(e, window), total, sum);
    Decided(decided, prev, curr, e, rest, limit, window);
  }

  lemma TotalIsNear(p: real, c: real, o: real, share: real, total: (real, real, real) -> real,
                    sum: (real, real) -> real)
      returns (decided: real)
    requires SumsUp(total, sum) && StaysNear(sum) && Whole(p) && Whole(c) && Whole(p + c)
    requires 0.0 <= o <= 1.0 && Near(o, share, HalfUnit(2.0))
    ensures decided == total(p, o, c) && Near(decided, p * share + c, HalfUnit(4.0 * p + c))
  {
    decided := total(p, o, c);
    ShareOfCount(p, o, share);
    var summed := Applied(p * o, p * share, p, c, sum);
  }

  lemma Applied(exact: real, weight: real, p: real, c: real, sum: (real, real) -> real) returns (decided: real)
    requires StaysNear(sum) && Whole(p) && Whole(c) && Whole(p + c) && NearProduct(exact, weight, p)
    ensures decided == sum(exact, c) && Near(decided, weight + c, HalfUnit(4.0 * p + c))
  {
    decided := sum(exact, c);
  }

  lemma WholeCount(n: int)
    requires 0 <= n <= TWO_53
    ensures Whole(n as real)
  {
  }

  lemma WholeCounts(prev: int, curr: int)
    requires 0 <= prev && 0 <= curr && prev + curr <= TWO_53
    ensures Whole(prev as real) && Whole(curr as real) && Whole(prev as real + curr as real)
  {
    WholeCount(prev);
    WholeCount(curr);
    WholeCount(prev + curr);
    assert prev as real + curr as real == (prev + curr) as real;
  }

  lemma Decided(total: real, prev: int, curr: int, e: int, rest: int, limit: int, window: int)
    requires window > 0 && rest == window - e
    requires Near(total, prev as real * Left(e, window) + curr as real, HalfUnit(4.0 * prev as real + curr as real))
    ensures var excess, margin := prev * rest + curr * window - limit * window, (4 * prev + curr) * window;
            && (TWO_53 * excess >= margin ==> total >= limit as real)
            && (TWO_53 * excess < -margin ==> total < limit as real)
  {
    var p, c, w, l := prev as real, curr as real, window as real, limit as real;
    LeftOfWindow(p, e, c, window);
    AsReals(prev, curr, rest, limit, window);
    DecidedReals(total, p * Left(e, window) + c, 4.0 * p + c, l, w, p * rest as real + c * w - l * w);
  }

  lemma LeftOfWindow(p: real, e: int, c: real, window: int)
    requires window > 0
    ensures (p * Left(e, window) + c) * window as real == p * (window - e) as real + c * window as real
  {
    var left, w := Left(e, window), window as real;
    assert e as real / w * w == e as real;
    assert left * w == (window - e) as real;
    assert (p * left) * w == p * (left * w);
  }

  lemma DecidedReals(total: real, weight: real, units: real, limit: real, w: real, excess: real)
    requires w > 0.0 && Near(total, weight, HalfUnit(units)) && excess == weight * w - limit * w
    ensures TWO_53 as real * excess >= units * w ==> total >= limit
    ensures TWO_53 as real * excess < -(units * w) ==> total < limit
  {
    var error := HalfUnit(units);
    assert error * w == HalfUnit(units * w);
    if excess >= error * w {
      assert (limit + error) * w <= weight * w;
      FactorAtLeast(weight, w, limit + error);
    }
    if limit - error <= weight {
      TimesOrdered(w, limit - error, weight);
      assert w * (limit - error) == limit * w - error * w;
    }
  }

  lemma AsReals(prev: int, curr: int, rest: int, limit: int, window: int)
    ensures (prev * rest + curr * window - limit * window) as real ==
            prev as real * rest as real + curr as real * window as real - limit as real * window as real
    ensures ((4 * prev + curr) * window) as real == (4.0 * prev as real + curr as real) * window as real
  {
    ProductAsReals(prev, rest);
    ProductAsReals(curr, window);
    ProductAsReals(limit, window);
    ProductAsReals(4 * prev + curr, window);
  }

  lemma ProductAsReals(a: int, b: int)
    ensures (a * b) as real == a as real * b as real
  {
  }

  /** The margin is smaller than the smallest difference. */
  lemma NearlySlidesIsSlides(cfg: Rules)
    requires NearlySlides(cfg) && 1 <= cfg.limit && 1 <= cfg.window && 5 * cfg.limit * cfg.window < TWO_53
    ensures Slides(cfg)
  {
    RangeIsSmall(cfg.limit, cfg.window);
    forall w: Window, now: Time | WindowInv(w, now, cfg) && During(w, now, cfg.window)
      ensures Decides(w.prev, w.curr, w.start + cfg.window - now, cfg.limit, cfg.window, cfg.refuses(w, now))
    {
      NearlyDecidesIsDecides(w.prev, w.curr, w.start + cfg.window - now, cfg.limit, cfg.window, cfg.refuses(w, now));
    }
  }

  lemma NearlyDecidesIsDecides(prev: int, curr: int, rest: int, limit: int, window: int, refused: bool)
    requires 0 <= prev <= limit && 0 <= curr <= limit && 1 <= window && 5 * limit * window < TWO_53
    requires NearlyDecides(prev, curr, rest, limit, window, refused)
    ensures Decides(prev, curr, rest, limit, window, refused)
  {
    MarginIsSmall(prev, curr, limit, window);
    SignDecides(prev * rest + curr * window - limit * window, (4 * prev + curr) * window, refused);
  }

  lemma SignDecides(excess: int, margin: int, refused: bool)
    requires 0 <= margin < TWO_53
    requires (TWO_53 * excess >= margin ==> refused) && (TWO_53 * excess < -margin ==> !refused)
    ensures (excess > 0 ==> refused) && (excess < 0 ==> !refused)
  {
  }

  /** So in double precision only a weighted count equal to the limit may be decided either way, with the deployed
    * limit of 100 in a minute among others. */
  lemma RoundedSlides(limit: int, window: int, round: real -> real, fused: bool)
    requires IsDouble(round) && 1 <= limit && 1 <= window && 5 * limit * window < TWO_53
    ensures Slides(Rounded(limit, window, round, fused))
  {
    RangeIsSmall(limit, window);
    RoundedNearlySlides(limit, window, round, fused);
    NearlySlidesIsSlides(Rounded(limit, window, round, fused));
  }

  lemma RangeIsSmall(limit: int, window: int)
    requires 1 <= limit && 1 <= window && 5 * limit * window < TWO_53
    ensures 2 * limit <= TWO_53 && window <= TWO_51
  {
    assert limit * window >= limit;
    assert limit * window >= window;
  }

  lemma MarginIsSmall(prev: int, curr: int, limit: int, window: int)
    requires 0 <= prev <= limit && 0 <= curr <= limit && 1 <= window && 5 * limit * window < TWO_53
    ensures 0 <= (4 * prev + curr) * window < TWO_53
  {
    Fade(window, 4 * prev + curr, 5 * limit);
    Fade(window, 0, 4 * prev + curr);
  }

  // ---------------------------------------------------------------- over runs

  /** When the newest request was accepted, the weighted count without it was not above the limit. */
  predicate WeightInv(log: seq<Time>, w: Option<Window>, cfg: Rules) {
    w.Some? && w.value.curr >= 1 ==>
      && log != []
      && During(w.value, log[|log| - 1], cfg.window)
      && w.value.prev * (w.value.start + cfg.window - log[|log| - 1]) + (w.value.curr - 1) * cfg.window
         <= cfg.limit * cfg.window
  }

  /** A request compared with the window `v`. */
  lemma ComparedKeepsWeight(log: seq<Time>, v: Window, now: Time, cfg: Rules)
    requires cfg.Valid() && Slides(cfg) && During(v, now, cfg.window) && KeyInv(log, Some(v), now, cfg)
    requires !cfg.refuses(v, now)
    ensures WeightInv(log + [now], Some(v.(curr := v.curr + 1)), cfg)
  {
    assert (log + [now])[|log|] == now;
    assert v.prev * (v.start + cfg.window - now) + v.curr * cfg.window <= cfg.limit * cfg.window;
  }

  lemma RolledKeepsWeight(log: seq<Time>, w: Window, clock: Time, now: Time, cfg: Rules)
    requires cfg.Valid() && clock <= now && now - w.start <= cfg.window * 2
    requires KeyInv(log, Some(w), clock, cfg) && WeightInv(log, Some(w), cfg)
    ensures var v := Rolled(w, now, cfg);
            KeyInv(log, Some(v), now, cfg) && WeightInv(log, Some(v), cfg) && During(v, now, cfg.window)
  {
    RolledWindow(w, now, cfg);
    RolledKeepsKeyInv(log, w, clock, now, cfg);
  }

  /** Without the request at the end of the log, the weight is at most the limit; it only fades afterwards. */
  lemma WeightAtMostOneMore(log: seq<Time>, v: Window, now: Time, cfg: Rules)
    requires cfg.Valid() && cfg.limit >= 1 && During(v, now, cfg.window)
    requires KeyInv(log, Some(v), now, cfg) && WeightInv(log, Some(v), cfg)
    ensures v.prev * (v.start + cfg.window - now) + v.curr * cfg.window <= (cfg.limit + 1) * cfg.window
  {
    if v.curr == 0 {
      AtMostFull(v.prev, v.start + cfg.window - now, cfg.limit, cfg.window);
    } else {
      var end := v.start + cfg.window;
      FadesFrom(v.prev, end - now, end - log[|log| - 1], v.curr, cfg.limit, cfg.window);
    }
  }

  lemma FadesFrom(prev: int, rest: int, before: int, curr: int, limit: int, window: int)
    requires 0 <= prev && rest <= before && prev * before + (curr - 1) * window <= limit * window
    ensures prev * rest + curr * window <= (limit + 1) * window
  {
    Fade(prev, rest, before);
    assert (curr - 1) * window == curr * window - window;
    assert (limit + 1) * window == limit * window + window;
  }

  lemma AtMostFull(prev: int, rest: int, limit: int, window: int)
    requires 0 <= prev <= limit && 0 <= rest <= window
    ensures prev * rest + 0 * window <= (limit + 1) * window
  {
    Fade(prev, rest, window);
    Fade(window, prev, limit + 1);
  }

  lemma Fade(a: int, b: int, c: int)
    requires 0 <= a && b <= c
    ensures a * b <= a * c
  {
  }

  /** What the weight is when a request is decided; `v` is the window that the request leaves. */
  predicate WeighsRight(v: Window, ok: bool, now: Time, cfg: Rules) {
    var rest := v.start + cfg.window - now;
    && 0 <= rest <= cfg.window
    && (ok ==> v.prev * rest + (v.curr - 1) * cfg.window <= cfg.limit * cfg.window)
    && (!ok ==> cfg.limit * cfg.window <= v.prev * rest + v.curr * cfg.window <= (cfg.limit + 1) * cfg.window)
  }

  lemma RolledWeighsRight(log: seq<Time>, v: Window, now: Time, cfg: Rules)
    requires cfg.Valid() && cfg.limit >= 1 && Slides(cfg) && During(v, now, cfg.window)
    requires KeyInv(log, Some(v), now, cfg) && WeightInv(log, Some(v), cfg)
    ensures cfg.refuses(v, now) ==> WeighsRight(v, false, now, cfg)
    ensures !cfg.refuses(v, now) ==>
              var u := v.(curr := v.curr + 1); WeighsRight(u, true, now, cfg) && WeightInv(log + [now], Some(u), cfg)
  {
    if cfg.refuses(v, now) {
      WeightAtMostOneMore(log, v, now, cfg);
      assert v.prev * (v.start + cfg.window - now) + v.curr * cfg.window >= cfg.limit * cfg.window;
    } else {
      ComparedKeepsWeight(log, v, now, cfg);
      assert (log + [now])[|log|] == now;
    }
  }

  lemma FirstWeighsRight(log: seq<Time>, now: Time, cfg: Rules)
    requires cfg.Valid() && cfg.limit >= 1
    ensures WeighsRight(Window(0, 1, now), true, now, cfg) && WeightInv(log + [now], Some(Window(0, 1, now)), cfg)
  {
    assert (log + [now])[|log|] == now;
    assert 0 * (now + cfg.window - now) == 0;
    Fade(cfg.window, 0, cfg.limit);
  }

  lemma RequestKeepsWeight(log: seq<Time>, w: Option<Window>, clock: Time, now: Time, cfg: Rules)
    requires cfg.Valid() && cfg.limit >= 1 && Slides(cfg) && clock <= now
    requires KeyInv(log, w, clock, cfg) && WeightInv(log, w, cfg)
    ensures var (v, ok) := Decide(w, now, cfg);
            WeightInv(if ok then log + [now] else log, Some(v), cfg) && WeighsRight(v, ok, now, cfg)
  {
    if w.None? || now - w.value.start > cfg.window * 2 {
      FirstWeighsRight(log, now, cfg);
    } else {
      RolledKeepsWeight(log, w.value, clock, now, cfg);
      RolledWeighsRight(log, Rolled(w.value, now, cfg), now, cfg);
    }
  }

  lemma OpKeepsWeight(t: Table, op: Op, ip: string, log: seq<Time>, clock: Time, cfg: Rules)
    requires cfg.Valid() && cfg.limit >= 1 && Slides(cfg) && CanHappen(t, op) && clock <= op.now
    requires KeyInv(log, Lookup(t, ip), clock, cfg) && WeightInv(log, Lookup(t, ip), cfg)
    requires !(op.Request? && Evicts(t, op.ip) && Oldest(t, op.order) == ip)
    ensures WeightInv(log + Logged(t, op, ip, cfg), Lookup(AfterOp(t, op, cfg), ip), cfg)
  {
    assert log + [] == log;
    if op.Request? && op.ip == ip {
      RequestKeepsWeight(log, Lookup(t, ip), clock, op.now, cfg);
      assert Lookup(AfterOp(t, op, cfg), ip) == Some(Decide(Lookup(t, ip), op.now, cfg).0);
    } else if op.Request? {
      OtherKeepsLookup(t, op, ip, cfg);
    }
  }

  lemma {:induction false} TraceKeepsWeight(t: Table, ops: seq<Op>, ip: string, log: seq<Time>, clock: Time, gap: nat,
                                            cfg: Rules)
    requires cfg.Valid() && cfg.limit >= 1 && Slides(cfg) && Separates(gap, cfg) && Spread(log, gap, cfg.window)
    requires IsTrace(t, ops, cfg) && Timed(ops, clock) && NeverEvicted(t, ops, ip, cfg)
    requires KeyInv(log, Lookup(t, ip), clock, cfg) && WeightInv(log, Lookup(t, ip), cfg)
    ensures WeightInv(log + Accepted(t, ops, ip, cfg), Lookup(After(t, ops, cfg), ip), cfg)
    decreases ops
  {
    if ops == [] {
      assert log + Accepted(t, ops, ip, cfg) == log;
    } else {
      var op, u := ops[0], AfterOp(t, ops[0], cfg);
      OpKeepsKeyInv(t, op, ip, log, clock, gap, cfg);
      OpKeepsWeight(t, op, ip, log, clock, cfg);
      TraceKeepsWeight(u, ops[1..], ip, log + Logged(t, op, ip, cfg), op.now, gap, cfg);
      Regroup(log, Logged(t, op, ip, cfg), Accepted(u, ops[1..], ip, cfg));
    }
  }

  lemma ReachableWeight(ops: seq<Op>, ip: string, clock: Time, cfg: Rules)
    requires cfg.Valid() && cfg.limit >= 1 && HonoursLimit(cfg) && Slides(cfg)
    requires IsTrace(map[], ops, cfg) && Timed(ops, clock) && NeverEvicted(map[], ops, ip, cfg)
    ensures var log, w := Accepted(map[], ops, ip, cfg), Lookup(After(map[], ops, cfg), ip);
            KeyInv(log, w, EndTime(ops, clock), cfg) && WeightInv(log, w, cfg)
  {
    FullLimitSeparates(cfg);
    ReachableKeyInv(ops, ip, clock, 2 * AtLeastOne(cfg.limit), cfg);
    TraceKeepsWeight(map[], ops, ip, [], clock, 2 * AtLeastOne(cfg.limit), cfg);
    assert [] + Accepted(map[], ops, ip, cfg) == Accepted(map[], ops, ip, cfg);
  }

  /** In every reachable state a request is refused only while the weighted count is between the limit and one above,
    * and accepted only while it is not above the limit. */
  lemma RefusedAtTheLimit(ops: seq<Op>, ip: string, clock: Time, now: Time, cfg: Rules)
    requires cfg.Valid() && cfg.limit >= 1 && HonoursLimit(cfg) && Slides(cfg)
    requires IsTrace(map[], ops, cfg) && Timed(ops, clock) && NeverEvicted(map[], ops, ip, cfg)
    requires EndTime(ops, clock) <= now
    ensures var (v, ok) := Decide(Lookup(After(map[], ops, cfg), ip), now, cfg); WeighsRight(v, ok, now, cfg)
  {
    var log, w := Accepted(map[], ops, ip, cfg), Lookup(After(map[], ops, cfg), ip);
    ReachableWeight(ops, ip, clock, cfg);
    RequestKeepsWeight(log, w, EndTime(ops, clock), now, cfg);
  }

  /** The log entries that a count of `n` stands for: the newest ones, made since `start`. */
  predicate CountsSince(log: seq<Time>, n: int, start: Time) {
    && 0 <= n <= |log|
    && (forall j :: |log| - n <= j < |log| ==> start <= log[j])
    && (forall j :: 0 <= j < |log| - n ==> log[j] <= start)
  }

  lemma DecidedCounts(log: seq<Time>, w: Option<Window>, clock: Time, now: Time, cfg: Rules)
    requires cfg.Valid() && clock <= now && KeyInv(log, w, clock, cfg)
    ensures var (v, ok) := Decide(w, now, cfg); CountsSince(log, if ok then v.curr - 1 else v.curr, v.start)
  {
    if w.Some? && now - w.value.start <= cfg.window * 2 {
      RolledKeepsKeyInv(log, w.value, clock, now, cfg);
    }
  }

  /** After a full window a key regains its limit linearly: `e` after the roll, a request is accepted only if the
    * `taken` requests accepted since are not above the share limit*e/window, and refused only if they have
    * reached it; they never exceed it by more than one. */
  lemma RegainsLinearly(ops: seq<Op>, ip: string, clock: Time, now: Time, cfg: Rules)
    requires cfg.Valid() && cfg.limit >= 1 && HonoursLimit(cfg) && Slides(cfg)
    requires IsTrace(map[], ops, cfg) && Timed(ops, clock) && NeverEvicted(map[], ops, ip, cfg)
    requires EndTime(ops, clock) <= now
    requires Decide(Lookup(After(map[], ops, cfg), ip), now, cfg).0.prev == cfg.limit
    ensures var (v, ok) := Decide(Lookup(After(map[], ops, cfg), ip), now, cfg);
            var e, taken := now - v.start, if ok then v.curr - 1 else v.curr;
            && CountsSince(Accepted(map[], ops, ip, cfg), taken, v.start)
            && (ok ==> taken * cfg.window <= cfg.limit * e)
            && (!ok ==> cfg.limit * e <= taken * cfg.window <= cfg.limit * e + cfg.window)
  {
    var (v, ok) := Decide(Lookup(After(map[], ops, cfg), ip), now, cfg);
    RefusedAtTheLimit(ops, ip, clock, now, cfg);
    ReachableWeight(ops, ip, clock, cfg);
    DecidedCounts(Accepted(map[], ops, ip, cfg), Lookup(After(map[], ops, cfg), ip), EndTime(ops, clock), now, cfg);
    SharesOfLimit(v, ok, now, cfg);
  }

  lemma SharesOfLimit(v: Window, ok: bool, now: Time, cfg: Rules)
    requires v.prev == cfg.limit && WeighsRight(v, ok, now, cfg)
    ensures var e, taken := now - v.start, if ok then v.curr - 1 else v.curr;
            && (ok ==> taken * cfg.window <= cfg.limit * e)
            && (!ok ==> cfg.limit * e <= taken * cfg.window <= cfg.limit * e + cfg.window)
  {
    Spelled(cfg.limit, v.start + cfg.window - now, now - v.start, cfg.window);
  }

  lemma Spelled(limit: int, rest: int, e: int, window: int)
    requires rest + e == window
    ensures limit * rest == limit * window - limit * e
    ensures (limit + 1) * window == limit * window + window
  {
  }
}
