/** Splitting an input: a swap of one part followed by a swap of the rest never yields
    more than one swap of the whole, whatever is crossed on the way. The single swap takes
    the same steps as the first part until that one stops short, and stays ahead of the
    second part from there. */
module Splitting {
  import opened Arithmetic
  import opened Results
  import opened Bits
  import opened TickMath
  import opened TickBitmap
  import opened SwapMath
  import opened SwapEngine

  // ----- adding up moves -----

  /** Two parts, each less its fee, are no more than the whole less its fee. */
  lemma {:induction false} LessFeeAdds(a: nat, b: nat, c: nat, fee: nat)
    requires fee < FEE_UNIT && a + b <= c
    ensures LessFee(a, fee) + LessFee(b, fee) <= LessFee(c, fee)
  {
    var k := FEE_UNIT - fee;
    var p, q := LessFee(a, fee), LessFee(b, fee);
    QuotientGalois(a * k, FEE_UNIT, p);
    QuotientGalois(b * k, FEE_UNIT, q);
    MulMono(a + b, c, k);
    QuotientGalois(c * k, FEE_UNIT, p + q);
  }

  /** What pays for two moves one after the other pays for both at once. */
  lemma {:induction false} PaysAdds(L: nat, from: nat, mid: nat, to: nat, down: bool, a: nat, b: nat)
    requires 0 < mid && Between(from, mid, to, down)
    requires Pays(L, from, mid, down, a) && Pays(L, mid, to, down, b)
    ensures Pays(L, from, to, down, a + b)
  {
    if down {
      Halves0(L * P96, from, mid, to, a, b);
    } else {
      Halves1(L, to, mid, from, a, b);
    }
  }

  lemma {:induction false} Halves0(n: nat, hi: nat, mid: nat, lo: nat, a: nat, b: nat)
    requires 0 < mid && lo <= mid <= hi
    requires n * (hi - mid) <= a * (hi * mid) && n * (mid - lo) <= b * (mid * lo)
    ensures n * (hi - lo) <= (a + b) * (hi * lo)
  {
    MulMono(n * (hi - mid), a * (hi * mid), lo);
    MulMono(n * (mid - lo), b * (mid * lo), hi);
    BothHalves(n, hi, mid, lo, a, b);
    MulCancel(n * (hi - lo), (a + b) * (hi * lo), mid);
  }

  lemma {:induction false} BothHalves(n: nat, hi: nat, mid: nat, lo: nat, a: nat, b: nat)
    ensures n * (hi - mid) * lo + n * (mid - lo) * hi == n * (hi - lo) * mid
    ensures a * (hi * mid) * lo + b * (mid * lo) * hi == (a + b) * (hi * lo) * mid
  {
    assert (hi - mid) * lo + (mid - lo) * hi == (hi - lo) * mid;
    assert n * (hi - mid) * lo + n * (mid - lo) * hi == n * ((hi - mid) * lo + (mid - lo) * hi);
    var c := hi * lo * mid;
    assert hi * mid * lo == c && mid * lo * hi == c;
    assert a * (hi * mid) * lo == a * c && b * (mid * lo) * hi == b * c;
  }

  lemma {:induction false} Halves1(L: nat, hi: nat, mid: nat, lo: nat, a: nat, b: nat)
    requires lo <= mid <= hi && L * (mid - lo) <= a * P96 && L * (hi - mid) <= b * P96
    ensures L * (hi - lo) <= (a + b) * P96
  {
    assert L * (hi - lo) == L * (hi - mid) + L * (mid - lo);
  }

  /** What two moves yield is yielded by both at once. */
  lemma {:induction false} YieldsAdds(L: nat, from: nat, mid: nat, to: nat, down: bool, a: nat, b: nat)
    requires 0 < mid && Between(from, mid, to, down)
    requires Yields(L, from, mid, down, a) && Yields(L, mid, to, down, b)
    ensures Yields(L, from, to, down, a + b)
  {
    if down {
      Shares1(L, from, mid, to, a, b);
    } else {
      Shares0(L * P96, to, mid, from, a, b);
    }
  }

  lemma {:induction false} Shares0(n: nat, hi: nat, mid: nat, lo: nat, a: nat, b: nat)
    requires 0 < mid && lo <= mid <= hi
    requires a * (mid * lo) <= n * (mid - lo) && b * (hi * mid) <= n * (hi - mid)
    ensures (a + b) * (hi * lo) <= n * (hi - lo)
  {
    MulMono(a * (mid * lo), n * (mid - lo), hi);
    MulMono(b * (hi * mid), n * (hi - mid), lo);
    BothHalves(n, hi, mid, lo, b, a);
    MulCancel((a + b) * (hi * lo), n * (hi - lo), mid);
  }

  lemma {:induction false} Shares1(L: nat, hi: nat, mid: nat, lo: nat, a: nat, b: nat)
    requires lo <= mid <= hi && a * P96 <= L * (hi - mid) && b * P96 <= L * (mid - lo)
    ensures (a + b) * P96 <= L * (hi - lo)
  {
    assert L * (hi - lo) == L * (hi - mid) + L * (mid - lo);
  }

  /** Any move yields nothing or more. */
  lemma {:induction false} YieldsNothing(L: nat, from: nat, to: nat, down: bool)
    requires Between(from, to, to, down)
    ensures Yields(L, from, to, down, 0)
  {
    if down { MulMono(0, L, from - to); } else { MulMono(0, L * P96, to - from); }
  }

  lemma {:induction false} CoversLess(a: nat, b: nat, fee: nat, f: nat)
    requires fee < FEE_UNIT && a <= b && CoversFee(b, fee, f)
    ensures CoversFee(a, fee, f)
  {
    MulMono(a, b, fee);
  }

  // ----- the contract of a step, in the direction of the swap -----

  /** A step's contract with the direction given rather than read off its prices. */
  ghost predicate Meets(L: nat, from: nat, target: nat, down: bool, remaining: nat, fee: nat, s: Step)
    requires fee < FEE_UNIT
  {
    var net := LessFee(remaining, fee);
    && Between(from, s.sqrtP, target, down)
    && (forall a: nat :: s.amountIn <= a <==> Pays(L, from, s.sqrtP, down, a))
    && (forall o: nat :: o <= s.amountOut <==> Yields(L, from, s.sqrtP, down, o))
    && s.amountIn <= net
    && 0 <= s.feeAmount && CoversFee(s.amountIn, fee, s.feeAmount) && s.amountIn + s.feeAmount <= remaining
    && (s.sqrtP == target <==> Pays(L, from, target, down, net))
    && (s.sqrtP == target ==> forall f: nat :: s.feeAmount <= f <==> CoversFee(s.amountIn, fee, f))
    && (s.sqrtP != target ==>
          && s.amountIn + s.feeAmount == remaining
          && forall p: nat | Between(from, p, target, down) ::
               NoFurther(p, s.sqrtP, down) <==> Pays(L, from, p, down, net))
  }

  lemma {:induction false} ContractMeets(from: nat, target: nat, L: nat, down: bool, remaining: nat, fee: nat, s: Step)
    requires fee < FEE_UNIT && 0 < from && StepContract(from, target, L, remaining, fee, s)
    requires if down then target <= from else from <= target
    ensures Meets(L, from, target, down, remaining, fee, s)
  {
    LessFeeIsMost(remaining, fee, s.amountIn);
    hide Pays, Yields, LessFee;
    if from == target { StandingMove(L, from); }
    if s.sqrtP == target { assert CoversFee(s.amountIn, fee, s.feeAmount); }
  }

  /** A step that is given more goes as far and yields as much; if it reaches its target
      on the less it takes the very same step. */
  lemma {:induction false} MoreGoesFurther(L: nat, from: nat, target: nat, down: bool, r: nat, t: nat, fee: nat,
                                           s: Step, u: Step)
    requires fee < FEE_UNIT && 0 < from && 0 < target && r <= t
    requires Meets(L, from, target, down, r, fee, s) && Meets(L, from, target, down, t, fee, u)
    ensures s.sqrtP == target ==> u == s
    ensures s.amountOut <= u.amountOut
  {
    LessFeeAdds(r, 0, t, fee);
    hide LessFee;
    assert Pays(L, from, s.sqrtP, down, s.amountIn) && Yields(L, from, s.sqrtP, down, s.amountOut);
    PaysMore(L, from, s.sqrtP, down, s.amountIn, LessFee(t, fee));
    hide Pays, Yields, CoversFee;
    if s.sqrtP == target {
      assert Pays(L, from, target, down, u.amountIn) && Yields(L, from, target, down, u.amountOut);
      assert u.amountIn == s.amountIn;
      assert CoversFee(s.amountIn, fee, s.feeAmount) && CoversFee(u.amountIn, fee, u.feeAmount);
    } else {
      YieldsNothing(L, s.sqrtP, u.sqrtP, down);
      YieldsAdds(L, from, s.sqrtP, u.sqrtP, down, s.amountOut, 0);
    }
  }

  lemma {:induction false} PaysMore(L: nat, from: nat, to: nat, down: bool, a: nat, b: nat)
    requires Pays(L, from, to, down, a) && a <= b
    ensures Pays(L, from, to, down, b)
  {
    if down { MulMono(0, from, to); MulMono(a, b, from * to); } else { MulMono(a, b, P96); }
  }

  /** A step stopped short at s, and v goes on from there with b more: u, which had both at
      once, reaches the target if v does, having used no more, and yields at least as much
      as the two. */
  lemma {:induction false} BothAtOnce(L: nat, from: nat, target: nat, down: bool, r: nat, b: nat, t: nat, fee: nat,
                                      s: Step, v: Step, u: Step)
    requires fee < FEE_UNIT && 0 < from && 0 < target && r + b <= t && s.sqrtP != target && 0 < s.sqrtP
    requires Meets(L, from, target, down, r, fee, s) && Meets(L, s.sqrtP, target, down, b, fee, v)
    requires Meets(L, from, target, down, t, fee, u)
    ensures s.amountOut + v.amountOut <= u.amountOut
    ensures v.sqrtP == target ==> u.sqrtP == target && u.amountIn + u.feeAmount <= r + v.amountIn + v.feeAmount
  {
    LessFeeAdds(r, b, t, fee);
    assert Pays(L, from, s.sqrtP, down, s.amountIn) && Yields(L, from, s.sqrtP, down, s.amountOut);
    assert Pays(L, s.sqrtP, v.sqrtP, down, v.amountIn) && Yields(L, s.sqrtP, v.sqrtP, down, v.amountOut);
    hide LessFee, Pays, Yields;
    PaysAdds(L, from, s.sqrtP, v.sqrtP, down, s.amountIn, v.amountIn);
    YieldsAdds(L, from, s.sqrtP, v.sqrtP, down, s.amountOut, v.amountOut);
    var both := s.amountIn + v.amountIn;
    PaysMore(L, from, v.sqrtP, down, both, LessFee(t, fee));
    assert NoFurther(v.sqrtP, u.sqrtP, down);
    YieldsNothing(L, v.sqrtP, u.sqrtP, down);
    YieldsAdds(L, from, v.sqrtP, u.sqrtP, down, s.amountOut + v.amountOut, 0);
    if v.sqrtP == target {
      assert u.amountIn <= both;
      CoversAdds(s.amountIn, v.amountIn, fee, s.feeAmount, v.feeAmount);
      CoversLess(u.amountIn, both, fee, s.feeAmount + v.feeAmount);
      assert u.feeAmount <= s.feeAmount + v.feeAmount;
    }
  }

  // ----- the next tick after stopping short of it -----

  lemma {:induction false} ScanDownStays(word: nat, c: int, d: int)
    requires ScanDown(word, c).0 <= d <= c
    ensures ScanDown(word, d) == ScanDown(word, c)
    decreases c % 256
  {
    hide Bit;
    if d != c {
      ScanDownNearest(word, c);
      ScanDownStays(word, c - 1, d);
    }
  }

  lemma {:induction false} ScanUpStays(word: nat, c: int, d: int)
    requires c <= d <= ScanUp(word, c).0
    ensures ScanUp(word, d) == ScanUp(word, c)
    decreases 256 - c % 256
  {
    hide Bit;
    if d != c {
      ScanUpNearest(word, c);
      ScanUpStays(word, c + 1, d);
    }
  }

  /** From any tick on the way to the next one, the next one is the same. */
  lemma {:induction false} NextTickStays(pool: Pool, spacing: nat, tick: int, stopped: int, reverse: bool)
    requires 0 < spacing && NextTick(pool, spacing, tick, reverse).Success?
    requires MIN_TICK <= stopped < MAX_TICK
    requires var next := NextTick(pool, spacing, tick, reverse).value.0;
             if reverse then tick <= stopped < next else next <= stopped <= tick
    ensures NextTick(pool, spacing, stopped, reverse) == NextTick(pool, spacing, tick, reverse)
  {
    hide Bit, ScanUp, ScanDown;
    var up := if reverse then 1 else 0;
    var c, d := tick / spacing + up, stopped / spacing + up;
    var word := pool.bitmap[c / 256];
    if reverse {
      var n := ScanUp(word, c).0;
      ScanUpNearest(word, c);
      TickIndex(stopped, spacing, c - 1);
      TickIndex(stopped, spacing, n);
      TickIndex(tick, spacing, c - 1);
      SameWord(c, d, n);
      ScanUpStays(word, c, d);
    } else {
      var n := ScanDown(word, c).0;
      ScanDownNearest(word, c);
      TickIndex(tick, spacing, d);
      TickIndex(stopped, spacing, d);
      TickIndex(stopped, spacing, n);
      SameWord(n, d, c);
      ScanDownStays(word, c, d);
    }
  }

  // ----- one step of each swap -----

  /** The step a swap takes: where it aims, and what the step is. */
  ghost predicate Steps(pool: Pool, s: SwapState, reverse: bool, next: int, found: bool, step: Step) {
    && TickSpacing(pool.fee).Success? && pool.fee < FEE_UNIT && 0 <= s.liquidity && 0 <= s.remaining
    && MIN_TICK <= s.tick < MAX_TICK && MIN_TICK <= next <= MAX_TICK && 0 < s.sqrtP
    && NextTick(pool, TickSpacing(pool.fee).value, s.tick, reverse) == Success((next, found))
    && 0 < SqrtRatioAtTick(next)
    && (if reverse then s.sqrtP <= SqrtRatioAtTick(next) else SqrtRatioAtTick(next) <= s.sqrtP)
    && Meets(s.liquidity, s.sqrtP, SqrtRatioAtTick(next), !reverse, s.remaining, pool.fee, step)
    && StepOnce(pool, s, reverse) == AfterStep(pool, s, reverse, next, found, SqrtRatioAtTick(next), step)
  }

  lemma StepParts(pool: Pool, s: SwapState, reverse: bool) returns (next: int, found: bool, step: Step)
    requires ValidPool(pool) && Inv(pool, s) && Active(s) && 0 <= s.liquidity
    requires StepOnce(pool, s, reverse).Success?
    ensures Steps(pool, s, reverse, next, found, step)
  {
    hide SqrtRatioAtTick, NetBelow, ValidPool, NextTick, ComputeSwapStep, TickAt, Pays, Yields, AfterStep, Meets;
    var spacing := TickSpacing(pool.fee).value;
    next, found := NextTick(pool, spacing, s.tick, reverse).value.0, NextTick(pool, spacing, s.tick, reverse).value.1;
    ActiveTick(pool, s);
    NextTickIsNearest(pool, spacing, s.tick, reverse);
    var target := SqrtRatioAtTick(next);
    TargetBounds(pool, s, next, reverse);
    step := ComputeSwapStep(s.sqrtP, target, s.liquidity, s.remaining, pool.fee).value;
    StepMeetsContract(s.sqrtP, target, s.liquidity, s.remaining, pool.fee);
    hide StepContract;
    ContractMeets(s.sqrtP, target, s.liquidity, !reverse, s.remaining, pool.fee, step);
  }

  ghost predicate SamePlace(x: SwapState, y: SwapState) {
    x.sqrtP == y.sqrtP && x.tick == y.tick && x.liquidity == y.liquidity
  }

  /** The two swaps are at the same place, and the second has at least as much left. */
  ghost predicate Ahead(x: SwapState, y: SwapState) {
    SamePlace(x, y) && x.remaining <= y.remaining
  }

  /** The output between two states of a swap. */
  ghost function Got(s: SwapState, t: SwapState): int {
    s.calculated - t.calculated
  }

  /** Where a step arrives, in terms of its parts. */
  lemma {:induction false} Arrives(pool: Pool, s: SwapState, reverse: bool, next: int, found: bool, step: Step)
    requires Steps(pool, s, reverse, next, found, step) && StepOnce(pool, s, reverse).Success?
    ensures var t := StepOnce(pool, s, reverse).value;
            && t.sqrtP == step.sqrtP && t.calculated == s.calculated - step.amountOut
            && t.remaining == s.remaining - (step.amountIn + step.feeAmount)
            && (t.sqrtP != SqrtRatioAtTick(next) ==> t.remaining == 0 && t.liquidity == s.liquidity)
  {
    hide SqrtRatioAtTick, NextTick, TickAt, Pays, Yields, CoversFee, LessFee, StepOnce;
  }

  /** The tick a swap aims for. */
  ghost function Aim(pool: Pool, s: SwapState, reverse: bool): int {
    var spacing := TickSpacing(pool.fee);
    if spacing.Success? && 0 < spacing.value && NextTick(pool, spacing.value, s.tick, reverse).Success?
    then NextTick(pool, spacing.value, s.tick, reverse).value.0
    else s.tick
  }

  /** The step reaches the price of the tick aimed for. */
  ghost predicate Reaches(pool: Pool, s: SwapState, t: SwapState, reverse: bool) {
    MIN_TICK <= Aim(pool, s, reverse) <= MAX_TICK && t.sqrtP == SqrtRatioAtTick(Aim(pool, s, reverse))
  }

  /** With more left: the same step if it reaches its tick, and at least as much output. */
  lemma StepAhead(pool: Pool, x: SwapState, y: SwapState, reverse: bool)
    requires ValidPool(pool) && Inv(pool, x) && Inv(pool, y) && Active(x) && Active(y) && Ahead(x, y)
    requires 0 <= x.liquidity && StepOnce(pool, x, reverse).Success? && StepOnce(pool, y, reverse).Success?
    ensures var m, n := StepOnce(pool, x, reverse).value, StepOnce(pool, y, reverse).value;
            && Got(x, m) <= Got(y, n)
            && (!Reaches(pool, x, m, reverse) ==> m.remaining == 0)
            && (Reaches(pool, x, m, reverse) ==>
                  Ahead(m, n) && n.remaining - m.remaining == y.remaining - x.remaining)
  {
    hide SqrtRatioAtTick, ValidPool, NextTick, ComputeSwapStep, TickAt, Active, Inv, StepOnce, AfterStep, Meets;
    var next, found, step := StepParts(pool, x, reverse);
    var next', found', other := StepParts(pool, y, reverse);
    Arrives(pool, x, reverse, next, found, step);
    Arrives(pool, y, reverse, next', found', other);
    assert next' == next == Aim(pool, x, reverse) && found' == found;
    MoreGoesFurther(x.liquidity, x.sqrtP, SqrtRatioAtTick(next), !reverse, x.remaining, y.remaining, pool.fee,
                    step, other);
    if step.sqrtP == SqrtRatioAtTick(next) { SameArrival(pool, x, y, reverse, next, found, step, other); }
  }

  /** Swaps at the same liquidity that reach the same tick arrive at the same place. */
  lemma SameArrival(pool: Pool, x: SwapState, y: SwapState, reverse: bool, next: int, found: bool,
                    step: Step, other: Step)
    requires x.liquidity == y.liquidity && MIN_TICK <= next <= MAX_TICK
    requires step.sqrtP == SqrtRatioAtTick(next) == other.sqrtP
    requires AfterStep(pool, x, reverse, next, found, SqrtRatioAtTick(next), step).Success?
    requires AfterStep(pool, y, reverse, next, found, SqrtRatioAtTick(next), other).Success?
    ensures SamePlace(AfterStep(pool, x, reverse, next, found, SqrtRatioAtTick(next), step).value,
                      AfterStep(pool, y, reverse, next, found, SqrtRatioAtTick(next), other).value)
  {
    hide SqrtRatioAtTick, TickAt;
  }

  /** The more goes in, the more comes out: a run with at least as much left from the same
      place yields at least as much. */
  lemma {:induction false} MoreYieldsMore(pool: Pool, x: SwapState, y: SwapState, reverse: bool)
    requires ValidPool(pool) && Inv(pool, x) && Inv(pool, y) && Ahead(x, y)
    requires Run(pool, x, reverse).Success? && Run(pool, y, reverse).Success?
    ensures Got(x, Run(pool, x, reverse).value) <= Got(y, Run(pool, y, reverse).value)
    decreases Distance(x, reverse), x.remaining
  {
    hide SqrtRatioAtTick, NetBelow, ValidPool, StepOnce, InRange, Reaches;
    if !Active(x) {
      RunKeeps(pool, y, reverse);
    } else {
      InvLiquidity(pool, x);
      StepAhead(pool, x, y, reverse);
      RunDecreases(pool, x, reverse);
      RunDecreases(pool, y, reverse);
      var m, n := StepOnce(pool, x, reverse).value, StepOnce(pool, y, reverse).value;
      if Reaches(pool, x, m, reverse) {
        MoreYieldsMore(pool, m, n, reverse);
      } else {
        RunKeeps(pool, n, reverse);
      }
    }
  }

  // ----- the second part against the whole -----

  /** A step that stopped short leaves the tick on its way to the one aimed for. */
  lemma StopsOnTheWay(pool: Pool, s: SwapState, m: SwapState, reverse: bool, next: int)
    requires Inv(pool, m) && Active(m) && MIN_TICK <= next <= MAX_TICK && m.sqrtP != SqrtRatioAtTick(next)
    requires if reverse then m.sqrtP <= SqrtRatioAtTick(next) else SqrtRatioAtTick(next) <= m.sqrtP
    requires if reverse then s.tick <= m.tick else m.tick <= s.tick
    ensures MIN_TICK <= m.tick < MAX_TICK
    ensures if reverse then s.tick <= m.tick < next else next <= m.tick <= s.tick
  {
    hide SqrtRatioAtTick, NetBelow;
    ActiveTick(pool, m);
    if reverse {
      if next < m.tick { SqrtRatioIncreases(next, m.tick); }
    } else {
      if m.tick + 1 < next { SqrtRatioIncreases(m.tick + 1, next); }
    }
  }

  /** z goes on from where the step of x stopped, and y has what the two have together. */
  ghost predicate GoesOn(pool: Pool, x: SwapState, z: SwapState, y: SwapState, reverse: bool)
    requires 0 <= x.liquidity && 0 <= x.remaining && StepOnce(pool, x, reverse).Success?
  {
    var m := StepOnce(pool, x, reverse).value;
    !Reaches(pool, x, m, reverse) && SamePlace(m, z) && SamePlace(x, y) && x.remaining + z.remaining <= y.remaining
  }

  /** The step after one that stopped short, against the step that had both at once. */
  lemma GoesOnAhead(pool: Pool, x: SwapState, z: SwapState, y: SwapState, reverse: bool)
    requires ValidPool(pool) && Inv(pool, x) && Inv(pool, y) && Inv(pool, z) && Active(x) && Active(y) && Active(z)
    requires 0 <= x.liquidity && 0 <= z.liquidity && StepOnce(pool, x, reverse).Success?
    requires StepOnce(pool, y, reverse).Success? && StepOnce(pool, z, reverse).Success?
    requires GoesOn(pool, x, z, y, reverse)
    ensures var m := StepOnce(pool, x, reverse).value;
            var w, n := StepOnce(pool, z, reverse).value, StepOnce(pool, y, reverse).value;
            Got(x, m) + Got(z, w) <= Got(y, n) && (w.remaining == 0 || Ahead(w, n))
  {
    hide SqrtRatioAtTick, ValidPool, NextTick, ComputeSwapStep, TickAt, StepOnce, AfterStep, Meets, FairMove;
    hide InRange, Active;
    var next, found, step := StepParts(pool, x, reverse);
    var next', found', then' := StepParts(pool, z, reverse);
    var _, _, both := StepParts(pool, y, reverse);
    Arrives(pool, x, reverse, next, found, step);
    StepKeeps(pool, x, reverse);
    MeetsBetween(pool, x, reverse, next, found, step);
    StopsOnTheWay(pool, x, z, reverse, next);
    NextTickStays(pool, TickSpacing(pool.fee).value, x.tick, z.tick, reverse);
    assert next' == next && found' == found;
    Arrives(pool, z, reverse, next, found, then');
    Arrives(pool, y, reverse, next, found, both);
    BothAtOnce(x.liquidity, x.sqrtP, SqrtRatioAtTick(next), !reverse, x.remaining, z.remaining, y.remaining, pool.fee,
               step, then', both);
    if then'.sqrtP == SqrtRatioAtTick(next) { SameArrival(pool, z, y, reverse, next, found, then', both); }
  }

  lemma MeetsBetween(pool: Pool, s: SwapState, reverse: bool, next: int, found: bool, step: Step)
    requires Steps(pool, s, reverse, next, found, step)
    ensures Between(s.sqrtP, step.sqrtP, SqrtRatioAtTick(next), !reverse)
  {
    hide SqrtRatioAtTick, NextTick, StepOnce, AfterStep;
  }

  /** x swaps a first part, z goes on from where x ended with a second part, and y swaps at
      least both parts together: the two parts never yield more than the whole. */
  lemma {:induction false} SplittingNeverGains(pool: Pool, x: SwapState, z: SwapState, y: SwapState, reverse: bool)
    requires ValidPool(pool) && Inv(pool, x) && Inv(pool, y) && Inv(pool, z)
    requires Run(pool, x, reverse).Success? && Run(pool, z, reverse).Success? && Run(pool, y, reverse).Success?
    requires SamePlace(Run(pool, x, reverse).value, z) && SamePlace(x, y) && x.remaining + z.remaining <= y.remaining
    ensures Got(x, Run(pool, x, reverse).value) + Got(z, Run(pool, z, reverse).value)
         <= Got(y, Run(pool, y, reverse).value)
    decreases Distance(x, reverse), x.remaining
  {
    hide SqrtRatioAtTick, NetBelow, ValidPool, StepOnce, InRange, Reaches;
    if !Active(x) {
      MoreYieldsMore(pool, z, y, reverse);
    } else {
      InvLiquidity(pool, x);
      InvLiquidity(pool, z);
      StepAhead(pool, x, y, reverse);
      RunDecreases(pool, x, reverse);
      RunDecreases(pool, y, reverse);
      var m, n := StepOnce(pool, x, reverse).value, StepOnce(pool, y, reverse).value;
      if Reaches(pool, x, m, reverse) {
        SplittingNeverGains(pool, m, z, n, reverse);
      } else {
        NothingLeft(pool, m, reverse);
        if Active(z) { TheRest(pool, x, z, y, reverse); } else { RunKeeps(pool, n, reverse); }
      }
    }
  }

  lemma TheRest(pool: Pool, x: SwapState, z: SwapState, y: SwapState, reverse: bool)
    requires ValidPool(pool) && Inv(pool, x) && Inv(pool, y) && Inv(pool, z) && Active(x) && Active(y) && Active(z)
    requires 0 <= x.liquidity && StepOnce(pool, x, reverse).Success?
    requires Run(pool, z, reverse).Success? && Run(pool, y, reverse).Success?
    requires GoesOn(pool, x, z, y, reverse)
    ensures Got(x, StepOnce(pool, x, reverse).value) + Got(z, Run(pool, z, reverse).value)
         <= Got(y, Run(pool, y, reverse).value)
  {
    hide SqrtRatioAtTick, NetBelow, ValidPool, StepOnce, InRange, Active, GoesOn;
    InvLiquidity(pool, z);
    InvLiquidity(pool, y);
    GoesOnAhead(pool, x, z, y, reverse);
    RunDecreases(pool, z, reverse);
    RunDecreases(pool, y, reverse);
    var w, n := StepOnce(pool, z, reverse).value, StepOnce(pool, y, reverse).value;
    if w.remaining == 0 {
      RunKeeps(pool, n, reverse);
      NothingLeft(pool, w, reverse);
    } else {
      MoreYieldsMore(pool, w, n, reverse);
    }
  }

  lemma NothingLeft(pool: Pool, s: SwapState, reverse: bool)
    requires ValidPool(pool) && Inv(pool, s) && s.remaining == 0
    ensures Run(pool, s, reverse) == Success(s)
  {
    hide ValidPool, InRange;
  }
}
