/** The pool object: its stored state, and the quote that walks it and, on request,
    leaves the state where the swap ended. */
module UniswapV3Pool {
  import opened Arithmetic
  import opened Results
  import opened TickMath
  import opened TickLog
  import opened TickBitmap
  import opened SwapMath
  import opened SwapEngine
  import opened RoundTrip
  import opened Splitting

  class PoolInfo {
    const fee: nat
    var sqrtPriceX96: nat
    var tick: int
    var liquidity: int
    var bitmap: map<int, nat>
    var net: map<int, int>

    constructor (fee: nat, sqrtPriceX96: nat, tick: int, liquidity: int, bitmap: map<int, nat>, net: map<int, int>)
      ensures this.fee == fee && this.sqrtPriceX96 == sqrtPriceX96 && this.tick == tick
      ensures this.liquidity == liquidity && this.bitmap == bitmap && this.net == net
    {
      this.fee, this.sqrtPriceX96, this.tick, this.liquidity := fee, sqrtPriceX96, tick, liquidity;
      this.bitmap, this.net := bitmap, net;
    }

    function Data(): Pool
      reads this
    {
      Pool(fee, bitmap, net)
    }

    ghost predicate Valid()
      reads this
    {
      ValidPool(Data()) && InRange(Data(), sqrtPriceX96, tick, liquidity)
    }

    /** A swap of the whole input about to start. */
    ghost function Start(amountIn: nat): SwapState
      reads this
    {
      SwapState(sqrtPriceX96, tick, liquidity, amountIn, 0, 0, 0)
    }

    /** The bitmap search of the source finds the next tick the scan finds. */
    method FindNextTick(spacing: nat, tick: int, reverse: bool) returns (r: Result<(int, bool)>)
      requires Valid() && 0 < spacing
      ensures r == NextTick(Data(), spacing, tick, reverse)
    {
      hide NetBelow, SqrtRatioAtTick, ScanUp, ScanDown, InRange;
      var compressed := Compress(tick, spacing);
      CompressIsFloor(tick, spacing);
      var next, initialised;
      if reverse {
        var (wordPosition, _) := Position(compressed + 1);
        if wordPosition !in bitmap { return Failure(MissingWord); }
        next, initialised := NextUp(bitmap[wordPosition], compressed + 1);
      } else {
        var (wordPosition, _) := Position(compressed);
        if wordPosition !in bitmap { return Failure(MissingWord); }
        next, initialised := NextDown(bitmap[wordPosition], compressed);
      }
      var nextTick := next * spacing;
      if nextTick < MIN_TICK { nextTick := MIN_TICK; }
      if nextTick > MAX_TICK { nextTick := MAX_TICK; }
      r := Success((nextTick, initialised));
    }

    /** The output for an input, by the loop over tick ranges. The result and the
        state it leaves are those of the run; on an error, or without reflect,
        nothing changes. */
    method CalculateAmountOut(amountIn: nat, reverse: bool, reflect: bool) returns (r: Result<int>)
      requires Valid()
      modifies this`sqrtPriceX96, this`tick, this`liquidity
      ensures Valid()
      ensures var run := Run(Data(), old(Start(amountIn)), reverse);
              && r == (if run.Failure? then Failure(run.error) else Success(-run.value.calculated))
              && (r.Success? && reflect ==>
                    sqrtPriceX96 == run.value.sqrtP && tick == run.value.tick && liquidity == run.value.liquidity)
      ensures Loaded(Data()) ==> r.Success?
      ensures r.Success? ==> SwappedOut(Data(), old(Start(amountIn)), reverse, r.value)
      ensures r.Success? ==> 0 <= r.value
      ensures r.Success? && !reverse ==> r.value * P192 <= amountIn * old(sqrtPriceX96 * sqrtPriceX96)
      ensures r.Success? && reverse ==> r.value * old(sqrtPriceX96 * sqrtPriceX96) <= amountIn * P192
      ensures !(r.Success? && reflect) ==>
                sqrtPriceX96 == old(sqrtPriceX96) && tick == old(tick) && liquidity == old(liquidity)
    {
      hide NetBelow, SqrtRatioAtTick, ValidPool, InRange, NextTick, ComputeSwapStep, TickAt, Run, Distance, Loaded,
           SwappedOut;
      ghost var pool, start := Data(), Start(amountIn);
      var sqrtP: nat, tickNow: int, liquidityNow: int := sqrtPriceX96, tick, liquidity;
      var remaining: int, calculated: int := amountIn, 0;
      ghost var netIn: int, fees: int := 0, 0;
      assert InRange(pool, start.sqrtP, start.tick, start.liquidity);
      while remaining != 0 && MIN_SQRT_RATIO < sqrtP < MAX_SQRT_RATIO
        invariant ValidPool(pool) && pool == Data() && old(Start(amountIn)) == start == Start(amountIn)
        invariant Inv(pool, start)
        invariant Inv(pool, SwapState(sqrtP, tickNow, liquidityNow, remaining, calculated, netIn, fees))
        invariant Run(pool, start, reverse)
               == Run(pool, SwapState(sqrtP, tickNow, liquidityNow, remaining, calculated, netIn, fees), reverse)
        decreases Distance(SwapState(sqrtP, tickNow, liquidityNow, remaining, calculated, netIn, fees), reverse),
                  remaining
      {
        ghost var s := SwapState(sqrtP, tickNow, liquidityNow, remaining, calculated, netIn, fees);
        RunUnfolds(pool, s, reverse);
        InvLiquidity(pool, s);
        var spacing := KnownSpacing();
        var found := FindNextTick(spacing, tickNow, reverse);
        if found.Failure? {
          LoadedNeverFails(pool, start, reverse);
          return Failure(found.error);
        }
        var (nextTick, initialised) := found.value;
        StepSetting(pool, s, spacing, reverse);
        var sqrtPriceNext := SqrtRatioAtTick(nextTick);
        var target := sqrtPriceNext;
        if reverse {
          if sqrtPriceNext > MAX_SQRT_RATIO { target := MAX_SQRT_RATIO - 1; }
        } else {
          if sqrtPriceNext < MIN_SQRT_RATIO { target := MIN_SQRT_RATIO; }
        }
        var computed := ComputeSwapStep(sqrtP, target, liquidityNow, remaining, fee);
        if computed.Failure? {
          LoadedNeverFails(pool, start, reverse);
          return Failure(computed.error);
        }
        var step := computed.value;
        StepStops(pool, s, nextTick, reverse, step);
        var before := sqrtP;
        sqrtP := step.sqrtP;
        remaining := remaining - (step.amountIn + step.feeAmount);
        calculated := calculated - step.amountOut;
        netIn, fees := netIn + step.amountIn, fees + step.feeAmount;
        if sqrtP == sqrtPriceNext {
          if initialised {
            if nextTick !in net {
              LoadedNeverFails(pool, start, reverse);
              return Failure(MissingTick);
            }
            var liquidityNet := net[nextTick];
            if !reverse { liquidityNet := -liquidityNet; }
            liquidityNow := liquidityNow + liquidityNet;
          }
          tickNow := if reverse then nextTick else nextTick - 1;
        } else if sqrtP != before {
          tickNow := GetTickAtSqrtRatio(sqrtP);
        }
        assert StepOnce(pool, s, reverse)
            == Success(SwapState(sqrtP, tickNow, liquidityNow, remaining, calculated, netIn, fees));
        RunDecreases(pool, s, reverse);
      }
      RunStops(pool, SwapState(sqrtP, tickNow, liquidityNow, remaining, calculated, netIn, fees), reverse);
      if reflect {
        sqrtPriceX96, tick, liquidity := sqrtP, tickNow, liquidityNow;
      }
      r := Success(-calculated);
      QuoteBounds(pool, start, reverse, amountIn);
      QuoteIsSwappedOut(pool, start, reverse);
    }

    /** Two quotes with reflect, the second one sending some of the first one's output back:
        the second never returns more than the first took. */
    method SwapThereAndBack(amountIn: nat, kept: nat, reverse: bool) returns (back: Result<int>)
      requires Valid()
      modifies this`sqrtPriceX96, this`tick, this`liquidity
      ensures Valid()
      ensures Loaded(Data()) ==> back.Success?
      ensures back.Success? ==> 0 <= back.value <= amountIn
    {
      hide NetBelow, SqrtRatioAtTick, ValidPool, InRange, Run, Loaded;
      ghost var pool, start := Data(), Start(amountIn);
      var out := CalculateAmountOut(amountIn, reverse, true);
      if out.Failure? { return out; }
      var sent: nat := if kept < out.value then out.value - kept else 0;
      ghost var again := Start(sent);
      back := CalculateAmountOut(sent, !reverse, true);
      if back.Success? {
        RoundTripNeverProfits(pool, start, again, reverse);
        RunKeeps(pool, start, reverse);
      }
    }

    /** Two quotes with reflect in the same direction yield no more together than one quote
        of the whole would have. */
    method SwapInTwoParts(first: nat, second: nat, reverse: bool) returns (total: Result<int>)
      requires Valid()
      modifies this`sqrtPriceX96, this`tick, this`liquidity
      ensures Valid()
      ensures Loaded(Data()) ==> total.Success?
      ensures var whole := Run(Data(), old(Start(first + second)), reverse);
              total.Success? && whole.Success? ==> 0 <= total.value <= -whole.value.calculated
    {
      hide NetBelow, SqrtRatioAtTick, ValidPool, InRange, Run, Loaded;
      ghost var pool, start, both := Data(), Start(first), Start(first + second);
      var one := CalculateAmountOut(first, reverse, true);
      if one.Failure? { return one; }
      ghost var rest := Start(second);
      var two := CalculateAmountOut(second, reverse, true);
      if two.Failure? { return two; }
      total := Success(one.value + two.value);
      if Run(pool, both, reverse).Success? { SplittingNeverGains(pool, start, rest, both, reverse); }
    }

    /** The spacing of the pool's fee; a valid pool has one. */
    method KnownSpacing() returns (spacing: nat)
      requires ValidPool(Data())
      ensures TickSpacing(fee) == Success(spacing) && 0 < spacing && fee < FEE_UNIT
    {
      hide NetBelow;
      spacing := TickSpacing(fee).value;
    }
  }

  lemma LoadedNeverFails(pool: Pool, s: SwapState, reverse: bool)
    requires ValidPool(pool) && Inv(pool, s)
    ensures Loaded(pool) ==> Run(pool, s, reverse).Success?
  {
    hide NetBelow, SqrtRatioAtTick, InRange, Run, Loaded;
    if Loaded(pool) { RunCompletes(pool, s, reverse); }
  }

  /** What a quote can be worth at the price before the swap. */
  lemma QuoteBounds(pool: Pool, s: SwapState, reverse: bool, amountIn: nat)
    requires ValidPool(pool) && Inv(pool, s) && Run(pool, s, reverse).Success?
    requires s.remaining == amountIn && s.calculated == 0 && s.netIn == 0 && s.fees == 0
    ensures var out, p := -Run(pool, s, reverse).value.calculated, s.sqrtP * s.sqrtP;
            0 <= out && (if reverse then out * p <= amountIn * P192 else out * P192 <= amountIn * p)
  {
    hide NetBelow, SqrtRatioAtTick, ValidPool, InRange, Run;
    RunKeeps(pool, s, reverse);
    var t, p := Run(pool, s, reverse).value, s.sqrtP * s.sqrtP;
    assert t.netIn <= amountIn;
    if reverse {
      RunValueUp(pool, s);
      MulMono(t.netIn, amountIn, P192);
    } else {
      RunValueDown(pool, s);
      MulMono(t.netIn, amountIn, p);
    }
  }

  /** The input of a swap is used up, or the price is at one of the two outermost ones; and
      the output is what the pool's weights at the two prices differ by, less at most a unit
      a step. */
  ghost predicate SwappedOut(pool: Pool, s: SwapState, reverse: bool, out: int)
    requires ValidPool(pool) && Inv(pool, s) && Run(pool, s, reverse).Success?
  {
    var t := Run(pool, s, reverse).value;
    && (t.remaining == 0 || t.sqrtP == MIN_SQRT_RATIO || t.sqrtP == MAX_SQRT_RATIO)
    && MIN_SQRT_RATIO <= s.sqrtP <= MAX_SQRT_RATIO && MIN_SQRT_RATIO <= t.sqrtP <= MAX_SQRT_RATIO
    && Weighed(pool, s.sqrtP, t.sqrtP, reverse, t.netIn, out, Passes(pool, s, reverse))
  }

  lemma QuoteIsSwappedOut(pool: Pool, s: SwapState, reverse: bool)
    requires ValidPool(pool) && Inv(pool, s) && Run(pool, s, reverse).Success? && s.calculated == 0 && s.netIn == 0
    ensures SwappedOut(pool, s, reverse, -Run(pool, s, reverse).value.calculated)
  {
    hide NetBelow, SqrtRatioAtTick, ValidPool, InRange, Run, Weighed, Passes, RunEffect;
    RunWeighed(pool, s, reverse);
    RunKeeps(pool, s, reverse);
    PriceInRange(pool, s.sqrtP, s.tick, s.liquidity);
  }

  lemma RunUnfolds(pool: Pool, s: SwapState, reverse: bool)
    requires ValidPool(pool) && Inv(pool, s) && Active(s)
    ensures 0 <= s.liquidity && MIN_TICK <= s.tick < MAX_TICK
    ensures var t := StepOnce(pool, s, reverse);
            && (t.Failure? ==> Run(pool, s, reverse) == Failure(t.error))
            && (t.Success? ==> Inv(pool, t.value) && Run(pool, s, reverse) == Run(pool, t.value, reverse))
  {
    hide NetBelow, SqrtRatioAtTick, ValidPool, StepOnce, InRange, Distance;
    InvLiquidity(pool, s);
    ActiveTick(pool, s);
    if StepOnce(pool, s, reverse).Success? { RunDecreases(pool, s, reverse); }
  }

  lemma RunStops(pool: Pool, s: SwapState, reverse: bool)
    requires ValidPool(pool) && Inv(pool, s) && !Active(s)
    ensures Run(pool, s, reverse) == Success(s)
  {
  }

  lemma StepSetting(pool: Pool, s: SwapState, spacing: nat, reverse: bool)
    requires ValidPool(pool) && TickSpacing(pool.fee) == Success(spacing) && Inv(pool, s) && Active(s)
    requires NextTick(pool, spacing, s.tick, reverse).Success?
    ensures var next := NextTick(pool, spacing, s.tick, reverse).value.0;
            && MIN_TICK <= next <= MAX_TICK && MIN_SQRT_RATIO <= SqrtRatioAtTick(next) <= MAX_SQRT_RATIO
            && (if reverse then s.sqrtP <= SqrtRatioAtTick(next) else SqrtRatioAtTick(next) <= s.sqrtP)
  {
    hide NetBelow, SqrtRatioAtTick, ValidPool, NextTick;
    ActiveTick(pool, s);
    NextTickIsNearest(pool, spacing, s.tick, reverse);
    TargetBounds(pool, s, NextTick(pool, spacing, s.tick, reverse).value.0, reverse);
  }

  /** A step that stops short leaves a price that has a tick. */
  lemma StepStops(pool: Pool, s: SwapState, next: int, reverse: bool, step: Step)
    requires Inv(pool, s) && Active(s) && 0 <= s.liquidity && pool.fee < FEE_UNIT
    requires MIN_TICK <= next <= MAX_TICK && MIN_SQRT_RATIO <= SqrtRatioAtTick(next) <= MAX_SQRT_RATIO
    requires if reverse then s.sqrtP <= SqrtRatioAtTick(next) else SqrtRatioAtTick(next) <= s.sqrtP
    requires ComputeSwapStep(s.sqrtP, SqrtRatioAtTick(next), s.liquidity, s.remaining, pool.fee) == Success(step)
    ensures step.sqrtP != SqrtRatioAtTick(next) ==> MIN_SQRT_RATIO <= step.sqrtP < MAX_SQRT_RATIO
  {
    hide NetBelow, SqrtRatioAtTick, ComputeSwapStep, StepContract, FairMove, InRange;
    StepMeetsContract(s.sqrtP, SqrtRatioAtTick(next), s.liquidity, s.remaining, pool.fee);
    ContractIsFair(s.sqrtP, SqrtRatioAtTick(next), s.liquidity, s.remaining, pool.fee, step, reverse);
  }
}
