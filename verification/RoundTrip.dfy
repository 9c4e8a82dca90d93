/** A pool cannot be drained by trading against itself: swapping some token in and
    swapping the output back never returns more than was put in, whatever ranges,
    crossings and roundings lie between. The proof weighs a price by what the pool
    holds of either token up to it, summed over the ranges. */
module RoundTrip {
  import opened Arithmetic
  import opened TickMath
  import opened SwapMath
  import opened SwapEngine

  // ----- a weight of prices, summed over ranges -----

  /** The weight liquidity L gives to the prices between two points of the scale g. */
  ghost function Weight(L: int, low: real, high: real): real {
    L as real * (high - low)
  }

  /** Total weight of the ranges below tick t. */
  ghost function Below(g: nat -> real, pool: Pool, t: int): real
    requires MIN_TICK <= t <= MAX_TICK
    decreases t - MIN_TICK
  {
    if t == MIN_TICK then 0.0
    else Below(g, pool, t - 1)
         + Weight(NetBelow(pool.net, t - 1), g(SqrtRatioAtTick(t - 1)), g(SqrtRatioAtTick(t)))
  }

  /** Weight up to price p in the range of tick t. */
  ghost function Upto(g: nat -> real, pool: Pool, t: int, p: nat): real
    requires MIN_TICK <= t <= MAX_TICK
  {
    Below(g, pool, t) + Weight(NetBelow(pool.net, t), g(SqrtRatioAtTick(t)), g(p))
  }

  ghost function Home(p: nat): (t: int)
    requires MIN_SQRT_RATIO <= p <= MAX_SQRT_RATIO
    ensures MIN_TICK <= t <= MAX_TICK
  {
    if p == MAX_SQRT_RATIO then MAX_TICK else TickAt(p)
  }

  /** Weight of all the pool up to price p. */
  ghost function Total(g: nat -> real, pool: Pool, p: nat): real
    requires MIN_SQRT_RATIO <= p <= MAX_SQRT_RATIO
  {
    Upto(g, pool, Home(p), p)
  }

  /** A range's upper end is the next range's lower end. */
  lemma Boundary(g: nat -> real, pool: Pool, t: int)
    requires MIN_TICK < t <= MAX_TICK
    ensures Upto(g, pool, t - 1, SqrtRatioAtTick(t)) == Below(g, pool, t) == Upto(g, pool, t, SqrtRatioAtTick(t))
  {
    hide SqrtRatioAtTick, NetBelow;
  }

  /** The tick a swap keeps is the price's home, or the one below when the price is at a boundary. */
  lemma HomeOfRange(pool: Pool, p: nat, tick: int, L: int)
    requires InRange(pool, p, tick, L)
    ensures Home(p) == tick || (Home(p) == tick + 1 && p == SqrtRatioAtTick(tick + 1))
  {
    hide SqrtRatioAtTick, TickAt, NetBelow;
    SqrtRatioRange(MIN_TICK);
    SqrtRatioRange(MAX_TICK);
    if p < MAX_SQRT_RATIO {
      if MIN_TICK <= tick { TickAtGalois(p, tick); }
      if tick + 2 <= MAX_TICK { TickAtGalois(p, tick + 2); SqrtRatioIncreases(tick + 1, tick + 2); }
      if tick + 1 <= MAX_TICK { TickAtGalois(p, tick + 1); }
    } else if tick + 1 < MAX_TICK {
      SqrtRatioIncreases(tick + 1, MAX_TICK);
    }
  }

  /** Weight in the range a swap is in, read off its own tick. */
  lemma TotalOfRange(g: nat -> real, pool: Pool, p: nat, tick: int, L: int)
    requires InRange(pool, p, tick, L) && MIN_TICK <= tick
    ensures Total(g, pool, p) == Below(g, pool, tick) + Weight(L, g(SqrtRatioAtTick(tick)), g(p))
  {
    hide SqrtRatioAtTick, NetBelow, Home, Below;
    HomeOfRange(pool, p, tick, L);
    if Home(p) == tick + 1 { Boundary(g, pool, tick + 1); }
  }

  /** At the upper end of the range of a tick, or inside it. */
  lemma TotalFromAbove(g: nat -> real, pool: Pool, p: nat, tick: int, L: int)
    requires InRange(pool, p, tick, L) && tick < MAX_TICK
    ensures Total(g, pool, p) == Below(g, pool, tick + 1) - Weight(L, g(p), g(SqrtRatioAtTick(tick + 1)))
  {
    hide SqrtRatioAtTick, Home;
    if MIN_TICK <= tick {
      TotalOfRange(g, pool, p, tick, L);
      WeightAdds(L, g(SqrtRatioAtTick(tick)), g(p), g(SqrtRatioAtTick(tick + 1)));
    } else {
      hide Below, NetBelow;
      HomeOfRange(pool, p, tick, L);
      BottomEmpty(pool);
      SqrtRatioRange(MIN_TICK);
      SqrtRatioRange(MAX_TICK);
    }
  }

  lemma BottomEmpty(pool: Pool)
    ensures NetBelow(pool.net, MIN_TICK - 1) == 0
  {
  }

  lemma WeightAdds(L: int, a: real, b: real, c: real)
    ensures Weight(L, a, b) + Weight(L, b, c) == Weight(L, a, c)
  {
  }

  /** Ranges of equal liquidity weigh as one. */
  lemma {:induction false} FlatBelow(g: nat -> real, pool: Pool, a: int, b: int, L: int)
    requires MIN_TICK <= a <= b <= MAX_TICK && forall u | a <= u < b :: NetBelow(pool.net, u) == L
    ensures Below(g, pool, b) - Below(g, pool, a) == Weight(L, g(SqrtRatioAtTick(a)), g(SqrtRatioAtTick(b)))
    decreases b - a
  {
    hide SqrtRatioAtTick, NetBelow;
    if a < b {
      FlatBelow(g, pool, a, b - 1, L);
      WeightAdds(L, g(SqrtRatioAtTick(a)), g(SqrtRatioAtTick(b - 1)), g(SqrtRatioAtTick(b)));
    }
  }

  // ----- the weight of one step -----

  /** The ranges a step passes through all have the liquidity it started with. */
  ghost predicate FlatMove(pool: Pool, s: SwapState, t: SwapState, reverse: bool)
    requires InRange(pool, t.sqrtP, t.tick, t.liquidity)
  {
    if reverse then
      && MIN_TICK <= s.tick <= t.tick && (forall u | s.tick <= u < t.tick :: NetBelow(pool.net, u) == s.liquidity)
      && (t.liquidity == s.liquidity || t.sqrtP == SqrtRatioAtTick(t.tick))
    else
      && t.tick <= s.tick < MAX_TICK && (forall u | t.tick < u <= s.tick :: NetBelow(pool.net, u) == s.liquidity)
      && (t.liquidity == s.liquidity || t.sqrtP == SqrtRatioAtTick(t.tick + 1))
  }

  lemma FlatStretch(net: map<int, int>, tick: int, next: int, reverse: bool, u: int)
    requires forall t | t in net :: !(if reverse then tick < t < next else next < t <= tick)
    requires if reverse then tick <= u < next else next <= u <= tick
    ensures NetBelow(net, u) == NetBelow(net, tick)
  {
    if reverse { NetBelowFlat(net, tick, u); } else { NetBelowFlat(net, u, tick); }
  }

  lemma StepIsFlat(pool: Pool, s: SwapState, reverse: bool)
    requires ValidPool(pool) && Inv(pool, s) && Active(s) && 0 <= s.liquidity
    requires StepOnce(pool, s, reverse).Success?
    ensures var t := StepOnce(pool, s, reverse).value;
            InRange(pool, t.sqrtP, t.tick, t.liquidity) && FlatMove(pool, s, t, reverse)
  {
    hide SqrtRatioAtTick, NetBelow, ValidPool, NextTick, ComputeSwapStep, TickAt, Pays, Yields, StepContract;
    StepKeeps(pool, s, reverse);
    hide FairMove;
    var spacing := TickSpacing(pool.fee).value;
    var (next, found) := NextTick(pool, spacing, s.tick, reverse).value;
    ActiveTick(pool, s);
    NextTickIsNearest(pool, spacing, s.tick, reverse);
    var target := SqrtRatioAtTick(next);
    TargetBounds(pool, s, next, reverse);
    StepMeetsContract(s.sqrtP, target, s.liquidity, s.remaining, pool.fee);
    var step := ComputeSwapStep(s.sqrtP, target, s.liquidity, s.remaining, pool.fee).value;
    ContractIsFair(s.sqrtP, target, s.liquidity, s.remaining, pool.fee, step, reverse);
    forall u | if reverse then s.tick <= u < next else next <= u <= s.tick
      ensures NetBelow(pool.net, u) == s.liquidity
    {
      FlatStretch(pool.net, s.tick, next, reverse, u);
    }
    if step.sqrtP != target && step.sqrtP != s.sqrtP { TickAtGalois(step.sqrtP, next); }
  }

  /** A step changes the total weight by its liquidity times its move on the scale. */
  lemma StepWeight(g: nat -> real, pool: Pool, s: SwapState, t: SwapState, reverse: bool)
    requires InRange(pool, s.sqrtP, s.tick, s.liquidity) && InRange(pool, t.sqrtP, t.tick, t.liquidity)
    requires FlatMove(pool, s, t, reverse)
    ensures Total(g, pool, t.sqrtP) - Total(g, pool, s.sqrtP) == Weight(s.liquidity, g(s.sqrtP), g(t.sqrtP))
  {
    hide SqrtRatioAtTick, NetBelow, Total, Below, Weight;
    var L := s.liquidity;
    if reverse {
      TotalOfRange(g, pool, s.sqrtP, s.tick, L);
      TotalOfRange(g, pool, t.sqrtP, t.tick, t.liquidity);
      FlatBelow(g, pool, s.tick, t.tick, L);
      var a, b := g(SqrtRatioAtTick(s.tick)), g(SqrtRatioAtTick(t.tick));
      WeightAdds(L, a, g(s.sqrtP), g(t.sqrtP));
      WeightAdds(L, a, b, g(t.sqrtP));
      WeightOfNothing(L, t.liquidity, b);
    } else {
      TotalFromAbove(g, pool, s.sqrtP, s.tick, L);
      TotalFromAbove(g, pool, t.sqrtP, t.tick, t.liquidity);
      FlatBelow(g, pool, t.tick + 1, s.tick + 1, L);
      var a, b := g(SqrtRatioAtTick(s.tick + 1)), g(SqrtRatioAtTick(t.tick + 1));
      WeightAdds(L, g(s.sqrtP), g(t.sqrtP), b);
      WeightAdds(L, g(s.sqrtP), b, a);
      WeightAdds(L, g(s.sqrtP), a, b);
      WeightAdds(L, a, b, a);
      WeightOfNothing(L, t.liquidity, b);
      WeightOfNothing(L, L, a);
    }
  }

  lemma WeightOfNothing(L: int, M: int, a: real)
    ensures Weight(L, a, a) == 0.0 == Weight(M, a, a)
  {
  }

  // ----- the two tokens as scales -----

  const Q96: real := 79228162514264337593543950336.0

  /** Token 1 held up to a price is proportional to the price ... */
  ghost function Scale1(p: nat): real { p as real }

  /** ... and token 0 held above it to the price's inverse. */
  ghost function Scale0(p: nat): real { if p == 0 then 0.0 else -Q96 / (p as real) }

  ghost function Scale(reverse: bool): nat -> real {
    if reverse then Scale0 else Scale1
  }

  lemma InverseGap(low: nat, high: nat)
    requires 0 < low <= high
    ensures (Scale0(high) - Scale0(low)) * ((high * low) as real) == Q96 * ((high - low) as real)
  {
    var x, y := low as real, high as real;
    assert (high * low) as real == y * x;
    var u, v := Q96 / x, Q96 / y;
    assert u * x == Q96 && v * y == Q96;
    assert (-v + u) * (y * x) == -(v * y) * x + u * x * y;
    assert Q96 * (y - x) == Q96 * y - Q96 * x;
    assert Scale0(high) == -v && Scale0(low) == -u;
  }

  /** Token 0 paid for a fall in price is at least its weight; token 0 got for a rise is at most its weight. */
  lemma Token0Weight(L: nat, low: nat, high: nat, a: nat)
    requires 0 < low <= high
    ensures Pays0(L, high, low, a) <==> Weight(L, Scale0(low), Scale0(high)) <= a as real
    ensures Yields0(L, high, low, a) <==> a as real <= Weight(L, Scale0(low), Scale0(high))
  {
    var w, m := L as real * (Scale0(high) - Scale0(low)), high * low;
    var n, b := L * P96 * (high - low), a * m;
    assert w * m as real == n as real by { WeightNumerator(L, low, high); }
    assert 1 <= m by { MulBoth(1, high, 1, low); }
    assert b as real == a as real * m as real by { CastMul(a, m); }
    assert Weight(L, Scale0(low), Scale0(high)) == w;
    hide Scale0, Weight;
    SameOrder(w, a as real, m as real);
    SameOrder(a as real, w, m as real);
  }

  lemma SameOrder(x: real, y: real, m: real)
    requires 0.0 < m
    ensures x * m <= y * m <==> x <= y
  {
    if x <= y { RealMono(x, y, m); } else { RealMonoStrict(y, x, m); }
  }

  lemma WeightNumerator(L: nat, low: nat, high: nat)
    requires 0 < low <= high
    ensures L as real * (Scale0(high) - Scale0(low)) * (high * low) as real == (L * P96 * (high - low)) as real
  {
    var d, e, m := Scale0(high) - Scale0(low), (high - low) as real, (high * low) as real;
    assert d * m == Q96 * e by { InverseGap(low, high); }
    hide Scale0;
    CastMul(L * P96, high - low);
    CastMul(L, P96);
    ScaledGap(L as real, d, m, Q96 * e);
    ScaledGap(L as real, Q96, e, Q96 * e);
  }

  lemma ScaledGap(l: real, d: real, m: real, x: real)
    requires d * m == x
    ensures l * d * m == l * x
  {
  }

  lemma Token1Weight(L: nat, low: nat, high: nat, a: nat)
    requires low <= high
    ensures Pays1(L, high, low, a) <==> Weight(L, Scale1(low), Scale1(high)) <= a as real * Q96
    ensures Yields1(L, high, low, a) <==> a as real * Q96 <= Weight(L, Scale1(low), Scale1(high))
  {
    assert (L * (high - low)) as real == L as real * ((high - low) as real);
    assert (a * P96) as real == a as real * Q96;
  }

  lemma PriceInRange(pool: Pool, p: nat, tick: int, L: int)
    requires InRange(pool, p, tick, L)
    ensures MIN_SQRT_RATIO <= p <= MAX_SQRT_RATIO
  {
    hide SqrtRatioAtTick, NetBelow;
  }

  // ----- the weight of a whole swap -----

  /** w lies between two whole numbers of units. */
  ghost predicate Spans(lo: int, w: real, hi: int, unit: real) {
    lo as real * unit <= w <= hi as real * unit
  }

  /** What a swap pays in and gets out, against the pool's weights at the two prices: the
      trader pays no less and gets no more, and either is off by at most a unit a step. */
  ghost predicate Weighed(pool: Pool, p: nat, q: nat, reverse: bool, paid: int, got: int, steps: nat)
    requires MIN_SQRT_RATIO <= p <= MAX_SQRT_RATIO && MIN_SQRT_RATIO <= q <= MAX_SQRT_RATIO
  {
    var w0, w1 := Total(Scale0, pool, q) - Total(Scale0, pool, p), Total(Scale1, pool, q) - Total(Scale1, pool, p);
    if reverse then Spans(paid - steps, w1, paid, Q96) && Spans(got, w0, got + steps, 1.0)
    else Spans(paid - steps, -w0, paid, 1.0) && Spans(got, -w1, got + steps, Q96)
  }

  lemma StepWeighed(pool: Pool, s: SwapState, t: SwapState, reverse: bool, paid: int, got: int)
    requires InRange(pool, s.sqrtP, s.tick, s.liquidity) && InRange(pool, t.sqrtP, t.tick, t.liquidity)
    requires FlatMove(pool, s, t, reverse) && FairMove(s.liquidity, s.sqrtP, t.sqrtP, reverse, paid, got)
    requires if reverse then s.sqrtP <= t.sqrtP else t.sqrtP <= s.sqrtP
    ensures Weighed(pool, s.sqrtP, t.sqrtP, reverse, paid, got, 1)
  {
    hide SqrtRatioAtTick, NetBelow, Total, FlatMove, FairMove, Scale0, Scale1, Weight, Spans, InRange, Weighed;
    PriceInRange(pool, s.sqrtP, s.tick, s.liquidity);
    PriceInRange(pool, t.sqrtP, t.tick, t.liquidity);
    StepWeight(Scale0, pool, s, t, reverse);
    StepWeight(Scale1, pool, s, t, reverse);
    FairAmounts(s.liquidity, s.sqrtP, t.sqrtP, reverse, paid, got);
    if reverse {
      MovedUp(s.liquidity, s.sqrtP, t.sqrtP, paid, got);
    } else {
      MovedDown(s.liquidity, s.sqrtP, t.sqrtP, paid, got);
    }
    WeighedOnce(pool, s.sqrtP, t.sqrtP, s.liquidity, reverse, paid, got);
  }

  lemma FairAmounts(L: int, p: nat, q: nat, reverse: bool, paid: int, got: int)
    requires FairMove(L, p, q, reverse, paid, got)
    ensures 0 <= L && 0 <= paid && 0 <= got
  {
  }

  lemma WeighedOnce(pool: Pool, p: nat, q: nat, L: int, reverse: bool, paid: int, got: int)
    requires MIN_SQRT_RATIO <= p <= MAX_SQRT_RATIO && MIN_SQRT_RATIO <= q <= MAX_SQRT_RATIO
    requires Total(Scale0, pool, q) - Total(Scale0, pool, p) == Weight(L, Scale0(p), Scale0(q))
    requires Total(Scale1, pool, q) - Total(Scale1, pool, p) == Weight(L, Scale1(p), Scale1(q))
    requires reverse ==> Spans(paid - 1, Weight(L, Scale1(p), Scale1(q)), paid, Q96)
    requires reverse ==> Spans(got, Weight(L, Scale0(p), Scale0(q)), got + 1, 1.0)
    requires !reverse ==> Spans(paid - 1, -Weight(L, Scale0(p), Scale0(q)), paid, 1.0)
    requires !reverse ==> Spans(got, -Weight(L, Scale1(p), Scale1(q)), got + 1, Q96)
    ensures Weighed(pool, p, q, reverse, paid, got, 1)
  {
    hide Total, Scale0, Scale1, Weight, Spans;
  }

  lemma MovedUp(L: nat, p: nat, q: nat, paid: nat, got: nat)
    requires 0 < p <= q && FairMove(L, p, q, true, paid, got)
    ensures Spans(paid - 1, Weight(L, Scale1(p), Scale1(q)), paid, Q96)
    ensures Spans(got, Weight(L, Scale0(p), Scale0(q)), got + 1, 1.0)
  {
    FairBounds(L, p, q, true, paid, got);
    hide Pays0, Pays1, Yields0, Yields1, FairMove, Spans, Weight, Scale0, Scale1;
    Swaps1(L, p, q, paid);
    Gives0(L, p, q, got);
  }

  lemma MovedDown(L: nat, p: nat, q: nat, paid: nat, got: nat)
    requires 0 < q <= p && FairMove(L, p, q, false, paid, got)
    ensures Spans(paid - 1, -Weight(L, Scale0(p), Scale0(q)), paid, 1.0)
    ensures Spans(got, -Weight(L, Scale1(p), Scale1(q)), got + 1, Q96)
  {
    FairBounds(L, p, q, false, paid, got);
    hide Pays0, Pays1, Yields0, Yields1, FairMove, Spans, Weight, Scale0, Scale1;
    Swaps0(L, q, p, paid);
    Gives1(L, q, p, got);
    Backwards(Scale0, L, q, p);
    Backwards(Scale1, L, q, p);
  }

  lemma Backwards(g: nat -> real, L: int, p: nat, q: nat)
    ensures Weight(L, g(q), g(p)) == -Weight(L, g(p), g(q))
  {
  }

  lemma Swaps1(L: nat, low: nat, high: nat, paid: nat)
    requires low <= high && Pays1(L, high, low, paid) && (0 < paid ==> !Pays1(L, high, low, paid - 1))
    ensures Spans(paid - 1, Weight(L, Scale1(low), Scale1(high)), paid, Q96)
  {
    Token1Weight(L, low, high, paid);
    if 0 < paid { Token1Weight(L, low, high, paid - 1); } else { WeightUp(L, low, high); }
  }

  lemma WeightUp(L: nat, low: nat, high: nat)
    requires low <= high
    ensures 0.0 <= Weight(L, Scale1(low), Scale1(high))
    ensures 0 < low ==> 0.0 <= Weight(L, Scale0(low), Scale0(high))
  {
    assert Yields1(L, high, low, 0) by { MulMono(0, L, high - low); }
    Token1Weight(L, low, high, 0);
    if 0 < low {
      assert Yields0(L, high, low, 0) by { MulMono(0, L * P96, high - low); }
      Token0Weight(L, low, high, 0);
    }
  }

  lemma Gives1(L: nat, low: nat, high: nat, got: nat)
    requires low <= high && Yields1(L, high, low, got) && !Yields1(L, high, low, got + 1)
    ensures Spans(got, Weight(L, Scale1(low), Scale1(high)), got + 1, Q96)
  {
    Token1Weight(L, low, high, got);
    Token1Weight(L, low, high, got + 1);
  }

  lemma Swaps0(L: nat, low: nat, high: nat, paid: nat)
    requires 0 < low <= high && Pays0(L, high, low, paid) && (0 < paid ==> !Pays0(L, high, low, paid - 1))
    ensures Spans(paid - 1, Weight(L, Scale0(low), Scale0(high)), paid, 1.0)
  {
    Token0Weight(L, low, high, paid);
    if 0 < paid { Token0Weight(L, low, high, paid - 1); } else { WeightUp(L, low, high); }
  }

  lemma Gives0(L: nat, low: nat, high: nat, got: nat)
    requires 0 < low <= high && Yields0(L, high, low, got) && !Yields0(L, high, low, got + 1)
    ensures Spans(got, Weight(L, Scale0(low), Scale0(high)), got + 1, 1.0)
  {
    Token0Weight(L, low, high, got);
    Token0Weight(L, low, high, got + 1);
  }

  lemma SpansAdd(a: int, v: real, b: int, c: int, w: real, d: int, unit: real)
    requires Spans(a, v, b, unit) && Spans(c, w, d, unit)
    ensures Spans(a + c, v + w, b + d, unit)
  {
    assert (a + c) as real * unit == a as real * unit + c as real * unit;
    assert (b + d) as real * unit == b as real * unit + d as real * unit;
  }

  lemma WeighedAdds(pool: Pool, p: nat, q: nat, r: nat, reverse: bool, a: int, b: int, k: nat, c: int, d: int, l: nat)
    requires MIN_SQRT_RATIO <= p <= MAX_SQRT_RATIO && MIN_SQRT_RATIO <= q <= MAX_SQRT_RATIO
    requires MIN_SQRT_RATIO <= r <= MAX_SQRT_RATIO
    requires Weighed(pool, p, q, reverse, a, b, k) && Weighed(pool, q, r, reverse, c, d, l)
    ensures Weighed(pool, p, r, reverse, a + c, b + d, k + l)
  {
    hide Total, Scale0, Scale1, Spans;
    var v0, v1 := Total(Scale0, pool, q) - Total(Scale0, pool, p), Total(Scale1, pool, q) - Total(Scale1, pool, p);
    var w0, w1 := Total(Scale0, pool, r) - Total(Scale0, pool, q), Total(Scale1, pool, r) - Total(Scale1, pool, q);
    if reverse {
      SpansAdd(a - k, v1, a, c - l, w1, c, Q96);
      SpansAdd(b, v0, b + k, d, w0, d + l, 1.0);
    } else {
      SpansAdd(a - k, -v0, a, c - l, -w0, c, 1.0);
      SpansAdd(b, -v1, b + k, d, -w1, d + l, Q96);
    }
  }

  /** How many steps a swap takes. */
  ghost function Passes(pool: Pool, s: SwapState, reverse: bool): nat
    requires ValidPool(pool) && Inv(pool, s)
    decreases Distance(s, reverse), s.remaining
  {
    if !Active(s) then 0
    else
      InvLiquidity(pool, s);
      if StepOnce(pool, s, reverse).Failure? then 0
      else
        RunDecreases(pool, s, reverse);
        1 + Passes(pool, StepOnce(pool, s, reverse).value, reverse)
  }

  /** Over a whole swap the trader pays no less and gets no more than the difference of the
      pool's weights, and either is off by at most a unit a step. */
  lemma {:induction false} RunWeighed(pool: Pool, s: SwapState, reverse: bool)
    requires ValidPool(pool) && Inv(pool, s) && Run(pool, s, reverse).Success?
    ensures var t := Run(pool, s, reverse).value;
            MIN_SQRT_RATIO <= t.sqrtP <= MAX_SQRT_RATIO
            && Weighed(pool, s.sqrtP, t.sqrtP, reverse, t.netIn - s.netIn, s.calculated - t.calculated,
                       Passes(pool, s, reverse))
    decreases Distance(s, reverse), s.remaining
  {
    hide SqrtRatioAtTick, NetBelow, ValidPool, StepOnce, FairMove, FairFee, Active, FlatMove, Weighed;
    if Active(s) {
      InvLiquidity(pool, s);
      StepKeeps(pool, s, reverse);
      StepIsFlat(pool, s, reverse);
      RunDecreases(pool, s, reverse);
      var m := StepOnce(pool, s, reverse).value;
      RunWeighed(pool, m, reverse);
      var t := Run(pool, m, reverse).value;
      StepWeighed(pool, s, m, reverse, m.netIn - s.netIn, s.calculated - m.calculated);
      WeighedAdds(pool, s.sqrtP, m.sqrtP, t.sqrtP, reverse, m.netIn - s.netIn, s.calculated - m.calculated, 1,
                  t.netIn - m.netIn, m.calculated - t.calculated, Passes(pool, m, reverse));
    } else {
      StandingStill(pool, s.sqrtP, reverse);
    }
  }

  lemma StandingStill(pool: Pool, p: nat, reverse: bool)
    requires MIN_SQRT_RATIO <= p <= MAX_SQRT_RATIO
    ensures Weighed(pool, p, p, reverse, 0, 0, 0)
  {
    hide Total;
  }

  // ----- the two weights rise together -----

  /** Over the same prices, both weights rise, and neither without the other. */
  ghost predicate Rises(d0: real, d1: real) {
    0.0 <= d0 && 0.0 <= d1 && (d0 == 0.0 <==> d1 == 0.0)
  }

  lemma RangeRises(L: nat, low: nat, high: nat)
    requires 0 < low <= high
    ensures Rises(Weight(L, Scale0(low), Scale0(high)), Weight(L, Scale1(low), Scale1(high)))
  {
    ScalesRise(low, high);
    hide Scale0, Scale1, Weight, Rises;
    ScaledRises(L, Scale0(low), Scale0(high), Scale1(low), Scale1(high));
  }

  lemma ScaledRises(L: nat, a: real, b: real, c: real, d: real)
    requires Rises(b - a, d - c)
    ensures Rises(Weight(L, a, b), Weight(L, c, d))
  {
    RealNonNegative(L as real, b - a);
    RealNonNegative(L as real, d - c);
    if L != 0 {
      NoZeroDivisors(b - a, L as real);
      NoZeroDivisors(d - c, L as real);
    }
  }

  lemma ScalesRise(low: nat, high: nat)
    requires 0 < low <= high
    ensures Rises(Scale0(high) - Scale0(low), Scale1(high) - Scale1(low))
  {
    hide Scale0;
    InverseGap(low, high);
    MulPositive(high, low);
    var d, e, m := Scale0(high) - Scale0(low), (high - low) as real, (high * low) as real;
    NoZeroDivisors(d, m);
    RealCancel(0.0, d, m);
    assert e == Scale1(high) - Scale1(low);
  }

  lemma {:induction false} BelowRises(pool: Pool, a: int, b: int)
    requires ValidPool(pool) && MIN_TICK <= a <= b <= MAX_TICK
    ensures Rises(Below(Scale0, pool, b) - Below(Scale0, pool, a), Below(Scale1, pool, b) - Below(Scale1, pool, a))
    decreases b - a
  {
    hide SqrtRatioAtTick, NetBelow, Weight, Scale0, Scale1;
    if a < b {
      BelowRises(pool, a, b - 1);
      SqrtRatioIncreases(b - 1, b);
      SqrtRatioRange(b - 1);
      SqrtRatioRange(b);
      RangeRises(NetBelow(pool.net, b - 1), SqrtRatioAtTick(b - 1), SqrtRatioAtTick(b));
    }
  }

  lemma TotalRises(pool: Pool, p: nat, q: nat)
    requires ValidPool(pool) && MIN_SQRT_RATIO <= p <= q <= MAX_SQRT_RATIO
    ensures Rises(Total(Scale0, pool, q) - Total(Scale0, pool, p), Total(Scale1, pool, q) - Total(Scale1, pool, p))
  {
    hide SqrtRatioAtTick, NetBelow, Below, TickAt, Scale0, Scale1;
    SqrtRatioRange(MIN_TICK);
    SqrtRatioRange(MAX_TICK);
    var a, b := Home(p), Home(q);
    SqrtRatioRange(a);
    if p < MAX_SQRT_RATIO { TickAtGalois(p, b); }
    if q < MAX_SQRT_RATIO { TickAtGalois(q, a); }
    HomeLow(p);
    HomeLow(q);
    if a == b {
      SameRangeRises(pool, a, p, q);
    } else {
      AcrossRangesRises(pool, a, b, p, q);
    }
  }

  lemma HomeLow(p: nat)
    requires MIN_SQRT_RATIO <= p <= MAX_SQRT_RATIO
    ensures 0 < SqrtRatioAtTick(Home(p)) <= p && (Home(p) < MAX_TICK ==> p <= SqrtRatioAtTick(Home(p) + 1))
  {
    hide SqrtRatioAtTick, TickAt;
    SqrtRatioRange(MIN_TICK);
    SqrtRatioRange(MAX_TICK);
    SqrtRatioRange(Home(p));
  }

  lemma SameRangeRises(pool: Pool, a: int, p: nat, q: nat)
    requires ValidPool(pool) && MIN_TICK <= a <= MAX_TICK && 0 < p <= q <= MAX_SQRT_RATIO
    ensures Rises(Upto(Scale0, pool, a, q) - Upto(Scale0, pool, a, p),
                  Upto(Scale1, pool, a, q) - Upto(Scale1, pool, a, p))
  {
    hide SqrtRatioAtTick, NetBelow, Below, Scale0, Scale1;
    var L, r := NetBelow(pool.net, a), SqrtRatioAtTick(a);
    RangeRises(L, p, q);
    WeightAdds(L, Scale0(r), Scale0(p), Scale0(q));
    WeightAdds(L, Scale1(r), Scale1(p), Scale1(q));
  }

  lemma AcrossRangesRises(pool: Pool, a: int, b: int, p: nat, q: nat)
    requires ValidPool(pool) && MIN_TICK <= a < b <= MAX_TICK && 0 < p <= SqrtRatioAtTick(a + 1)
    requires 0 < SqrtRatioAtTick(b) <= q <= MAX_SQRT_RATIO
    ensures Rises(Upto(Scale0, pool, b, q) - Upto(Scale0, pool, a, p),
                  Upto(Scale1, pool, b, q) - Upto(Scale1, pool, a, p))
  {
    hide SqrtRatioAtTick, NetBelow, Scale0, Scale1, ValidPool, Below, Upto;
    var u, v := SqrtRatioAtTick(a + 1), SqrtRatioAtTick(b);
    SqrtRatioRange(a + 1);
    SameRangeRises(pool, a, p, u);
    BelowRises(pool, a + 1, b);
    SameRangeRises(pool, b, v, q);
    Boundary(Scale0, pool, a + 1);
    Boundary(Scale1, pool, a + 1);
    Boundary(Scale0, pool, b);
    Boundary(Scale1, pool, b);
  }

  /** The two weights order prices alike. */
  lemma Comonotone(pool: Pool, p: nat, q: nat)
    requires ValidPool(pool)
    requires MIN_SQRT_RATIO <= p <= MAX_SQRT_RATIO && MIN_SQRT_RATIO <= q <= MAX_SQRT_RATIO
    ensures Total(Scale1, pool, p) <= Total(Scale1, pool, q) <==> Total(Scale0, pool, p) <= Total(Scale0, pool, q)
  {
    hide Total;
    if p <= q { TotalRises(pool, p, q); } else { TotalRises(pool, q, p); }
  }

  // ----- the round trip -----

  /** The swap that sends some of the output back, from where the first swap left the pool. */
  ghost predicate SendsBack(s: SwapState, t: SwapState, b: SwapState) {
    && b.sqrtP == t.sqrtP && b.tick == t.tick && b.liquidity == t.liquidity
    && 0 <= b.remaining <= s.calculated - t.calculated
  }

  /** Swapping in one direction and sending the output back never returns more than the first swap took net of fees. */
  lemma RoundTripNeverProfits(pool: Pool, s: SwapState, b: SwapState, reverse: bool)
    requires ValidPool(pool) && Inv(pool, s) && Run(pool, s, reverse).Success?
    requires SendsBack(s, Run(pool, s, reverse).value, b)
    requires Inv(pool, b) && Run(pool, b, !reverse).Success?
    ensures b.calculated - Run(pool, b, !reverse).value.calculated <= Run(pool, s, reverse).value.netIn - s.netIn
  {
    hide Run, SqrtRatioAtTick, NetBelow, ValidPool, InRange, Total, Active;
    var t, u := Run(pool, s, reverse).value, Run(pool, b, !reverse).value;
    RunWeighed(pool, s, reverse);
    RunWeighed(pool, b, !reverse);
    RunKeeps(pool, b, !reverse);
    RunKeeps(pool, s, reverse);
    assert InRange(pool, s.sqrtP, s.tick, s.liquidity) && InRange(pool, u.sqrtP, u.tick, u.liquidity);
    PriceInRange(pool, s.sqrtP, s.tick, s.liquidity);
    PriceInRange(pool, u.sqrtP, u.tick, u.liquidity);
    Comonotone(pool, u.sqrtP, s.sqrtP);
    Comonotone(pool, s.sqrtP, u.sqrtP);
    var paid, got := t.netIn - s.netIn, s.calculated - t.calculated;
    var paidBack, gotBack := u.netIn - b.netIn, b.calculated - u.calculated;
    assert paidBack <= got;
    assert paidBack as real * Q96 <= got as real * Q96;
    if reverse {
      assert gotBack as real * Q96 <= paid as real * Q96;
      RealCancel(gotBack as real, paid as real, Q96);
    } else {
      assert gotBack as real <= paid as real;
    }
  }
}
