/** The swap of a whole input through a pool: price, tick and liquidity move
    together, one tick range after another. The ranges are found by a linear scan
    here; the pool's own method finds them in the bitmap words. */
module SwapEngine {
  import opened Arithmetic
  import opened Results
  import opened Bits
  import opened TickMath
  import opened TickBitmap
  import opened SwapMath

  /** What a pool has stored: a bitmap word per 256 compressed ticks, and the
      liquidity each initialised tick adds when crossed upwards. */
  datatype Pool = Pool(fee: nat, bitmap: map<int, nat>, net: map<int, int>)

  /** The swap under way. netIn and fees only record what the steps took. */
  datatype SwapState = SwapState(
    sqrtP: nat, tick: int, liquidity: int, remaining: int, calculated: int, netIn: int, fees: int)

  function TickSpacing(fee: nat): Result<nat> {
    if fee == 100 then Success(1)
    else if fee == 500 then Success(10)
    else if fee == 3000 then Success(60)
    else if fee == 10000 then Success(200)
    else Failure(UnknownFee)
  }

  /** The known fees; but for the lowest one the spacing is a fiftieth of the fee. */
  lemma KnownSpacings(fee: nat)
    ensures TickSpacing(fee).Success? <==> fee == 100 || fee == 500 || fee == 3000 || fee == 10000
    ensures TickSpacing(fee).Success? ==> TickSpacing(fee).value == if fee == 100 then 1 else fee / 50
  {
  }

  predicate Active(s: SwapState) {
    s.remaining != 0 && MIN_SQRT_RATIO < s.sqrtP < MAX_SQRT_RATIO
  }

  function ClampTick(t: int): int {
    if t < MIN_TICK then MIN_TICK else if t > MAX_TICK then MAX_TICK else t
  }

  /** The next tick to aim for, and whether it is initialised. */
  function NextTick(pool: Pool, spacing: nat, tick: int, reverse: bool): Result<(int, bool)>
    requires 0 < spacing
  {
    var c := tick / spacing + (if reverse then 1 else 0);
    if c / 256 !in pool.bitmap then Failure(MissingWord)
    else
      var (n, found) := if reverse then ScanUp(pool.bitmap[c / 256], c) else ScanDown(pool.bitmap[c / 256], c);
      Success((ClampTick(n * spacing), found))
  }

  /** Where the swap stands once its step reached the next tick, or stopped short of it. */
  ghost function AfterStep(pool: Pool, s: SwapState, reverse: bool, next: int, found: bool, target: nat, step: Step)
    : Result<SwapState>
  {
    var moved := s.(sqrtP := step.sqrtP,
                    remaining := s.remaining - (step.amountIn + step.feeAmount),
                    calculated := s.calculated - step.amountOut,
                    netIn := s.netIn + step.amountIn,
                    fees := s.fees + step.feeAmount);
    if step.sqrtP == target then
      if found && next !in pool.net then Failure(MissingTick)
      else
        var crossed := if !found then 0 else if reverse then pool.net[next] else -pool.net[next];
        Success(moved.(liquidity := s.liquidity + crossed, tick := if reverse then next else next - 1))
    else if step.sqrtP != s.sqrtP && MIN_SQRT_RATIO <= step.sqrtP < MAX_SQRT_RATIO then
      Success(moved.(tick := TickAt(step.sqrtP)))
    else
      Success(moved)
  }

  ghost function StepOnce(pool: Pool, s: SwapState, reverse: bool): Result<SwapState>
    requires 0 <= s.liquidity && 0 <= s.remaining
  {
    var spacing :- TickSpacing(pool.fee);
    var (next, found) :- NextTick(pool, spacing, s.tick, reverse);
    var target := SqrtRatioAtTick(next);
    var step :- ComputeSwapStep(s.sqrtP, target, s.liquidity, s.remaining, pool.fee);
    AfterStep(pool, s, reverse, next, found, target, step)
  }

  // ----- pools and their invariant -----

  /** Sum of the liquidity of the initialised ticks at or below t. */
  ghost function NetBelow(net: map<int, int>, t: int): int
    decreases t - MIN_TICK
  {
    if t < MIN_TICK then 0 else NetBelow(net, t - 1) + (if t in net then net[t] else 0)
  }

  predicate Initialised(bitmap: map<int, nat>, c: int) {
    c / 256 in bitmap && Bit(bitmap[c / 256], c % 256)
  }

  /** The stored words and ticks agree, and no range holds negative or over-wide liquidity. */
  ghost predicate ValidPool(pool: Pool) {
    && TickSpacing(pool.fee).Success?
    && var spacing := TickSpacing(pool.fee).value;
    && (forall w | w in pool.bitmap :: pool.bitmap[w] < P256)
    && (forall t | t in pool.net ::
          MIN_TICK <= t <= MAX_TICK && t % spacing == 0 && Initialised(pool.bitmap, t / spacing))
    && (forall c: int | Initialised(pool.bitmap, c) :: c * spacing in pool.net)
    && (forall t: int :: 0 <= NetBelow(pool.net, t) < P128)
  }

  /** The price is in the range of its tick, and the liquidity is that of the range. */
  ghost predicate InRange(pool: Pool, sqrtP: nat, tick: int, liquidity: int) {
    && MIN_TICK - 1 <= tick <= MAX_TICK
    && MIN_SQRT_RATIO <= sqrtP <= MAX_SQRT_RATIO
    && (MIN_TICK <= tick ==> SqrtRatioAtTick(tick) <= sqrtP)
    && (tick < MAX_TICK ==> sqrtP <= SqrtRatioAtTick(tick + 1))
    && liquidity == NetBelow(pool.net, tick)
  }

  ghost predicate Inv(pool: Pool, s: SwapState) {
    InRange(pool, s.sqrtP, s.tick, s.liquidity) && 0 <= s.remaining
  }

  ghost function Distance(s: SwapState, reverse: bool): int {
    if reverse then MAX_TICK - s.tick else s.tick - MIN_TICK + 1
  }

  // ----- the next tick -----

  /** No initialised tick lies strictly between the tick and the next one aimed for. */
  ghost predicate NothingSkipped(pool: Pool, tick: int, next: int, reverse: bool) {
    forall t | t in pool.net :: !(if reverse then tick < t < next else next < t <= tick)
  }

  lemma TickIndex(tick: int, spacing: nat, c: int)
    requires 0 < spacing
    ensures c <= tick / spacing <==> c * spacing <= tick
    ensures tick < (tick / spacing + 1) * spacing && tick / spacing * spacing <= tick
  {
    FloorGalois(tick, spacing, c);
    FloorBounds(tick, spacing);
  }

  /** Multiples order as their indices. */
  lemma IndexOrder(c: int, n: int, spacing: nat)
    requires 0 < spacing
    ensures c < n <==> c * spacing < n * spacing
  {
    if c < n { MulStrict(c, n, spacing); } else { MulMono(n, c, spacing); }
  }

  lemma MultipleIndex(t: int, spacing: nat)
    requires 0 < spacing && t % spacing == 0
    ensures t / spacing * spacing == t
  {
    assert t == t / spacing * spacing + t % spacing;
  }

  lemma SameWord(a: int, b: int, c: int)
    ensures a <= b <= c && a / 256 == c / 256 ==> b / 256 == a / 256
  {
  }

  lemma NextTickUp(pool: Pool, spacing: nat, tick: int)
    requires ValidPool(pool) && TickSpacing(pool.fee) == Success(spacing) && MIN_TICK <= tick < MAX_TICK
    requires NextTick(pool, spacing, tick, true).Success?
    ensures var (next, found) := NextTick(pool, spacing, tick, true).value;
            tick < next <= MAX_TICK && NothingSkipped(pool, tick, next, true) && (found <==> next in pool.net)
  {
    hide Bit, ScanUp, ScanDown;
    var c := tick / spacing + 1;
    var word := pool.bitmap[c / 256];
    var (n, found) := ScanUp(word, c);
    ScanUpNearest(word, c);
    TickIndex(tick, spacing, c);
    IndexOrder(n, c, spacing);
    var next := ClampTick(n * spacing);
    assert tick < c * spacing <= n * spacing;
    if found { assert Initialised(pool.bitmap, n); }
    forall t | t in pool.net ensures !(tick < t < n * spacing) {
      MultipleIndex(t, spacing);
      TickIndex(tick, spacing, t / spacing);
      IndexOrder(t / spacing, n, spacing);
      SameWord(c, t / spacing, n);
    }
    if !found && next in pool.net {
      MultipleIndex(next, spacing);
      IndexOrder(next / spacing, n, spacing);
      IndexOrder(n, next / spacing, spacing);
    }
  }

  lemma NextTickDown(pool: Pool, spacing: nat, tick: int)
    requires ValidPool(pool) && TickSpacing(pool.fee) == Success(spacing) && MIN_TICK <= tick < MAX_TICK
    requires NextTick(pool, spacing, tick, false).Success?
    ensures var (next, found) := NextTick(pool, spacing, tick, false).value;
            MIN_TICK <= next <= tick && NothingSkipped(pool, tick, next, false) && (found <==> next in pool.net)
  {
    hide Bit, ScanUp, ScanDown;
    var c := tick / spacing;
    var word := pool.bitmap[c / 256];
    var (n, found) := ScanDown(word, c);
    ScanDownNearest(word, c);
    TickIndex(tick, spacing, c);
    IndexOrder(c, n, spacing);
    var next := ClampTick(n * spacing);
    assert n * spacing <= c * spacing <= tick;
    if found { assert Initialised(pool.bitmap, n); }
    forall t | t in pool.net ensures !(n * spacing < t <= tick) {
      MultipleIndex(t, spacing);
      TickIndex(tick, spacing, t / spacing);
      IndexOrder(n, t / spacing, spacing);
      SameWord(n, t / spacing, c);
    }
    if !found && next in pool.net {
      MultipleIndex(next, spacing);
      IndexOrder(next / spacing, n, spacing);
      IndexOrder(n, next / spacing, spacing);
    }
  }

  lemma NextTickIsNearest(pool: Pool, spacing: nat, tick: int, reverse: bool)
    requires ValidPool(pool) && TickSpacing(pool.fee) == Success(spacing) && MIN_TICK <= tick < MAX_TICK
    requires NextTick(pool, spacing, tick, reverse).Success?
    ensures var (next, found) := NextTick(pool, spacing, tick, reverse).value;
            && MIN_TICK <= next <= MAX_TICK && (if reverse then tick < next else next <= tick)
            && NothingSkipped(pool, tick, next, reverse) && (found <==> next in pool.net)
  {
    hide NextTick, ValidPool;
    if reverse { NextTickUp(pool, spacing, tick); } else { NextTickDown(pool, spacing, tick); }
  }

  /** Liquidity is the same at both ends of a stretch without initialised ticks. */
  lemma {:induction false} NetBelowFlat(net: map<int, int>, a: int, b: int)
    requires a <= b && forall t | t in net :: !(a < t <= b)
    ensures NetBelow(net, a) == NetBelow(net, b)
    decreases b - a
  {
    if a < b { NetBelowFlat(net, a, b - 1); }
  }

  /** The liquidity on the far side of the next tick, from the liquidity on this side. */
  lemma CrossedLiquidity(net: map<int, int>, tick: int, next: int, reverse: bool)
    requires MIN_TICK <= next && (if reverse then tick < next else next <= tick)
    requires forall t | t in net :: !(if reverse then tick < t < next else next < t <= tick)
    ensures var crossed := if next !in net then 0 else if reverse then net[next] else -net[next];
            NetBelow(net, tick) + crossed == NetBelow(net, if reverse then next else next - 1)
  {
    if reverse { NetBelowFlat(net, tick, next - 1); } else { NetBelowFlat(net, next, tick); }
  }

  // ----- one step -----

  /** What one step does to the swap, whichever way it goes. */
  ghost predicate StepEffect(pool: Pool, s: SwapState, t: SwapState, reverse: bool) {
    && Inv(pool, t)
    && (if reverse then s.sqrtP <= t.sqrtP else t.sqrtP <= s.sqrtP)
    && (t.netIn - s.netIn) + (t.fees - s.fees) == s.remaining - t.remaining
    && s.netIn <= t.netIn && s.fees <= t.fees && t.calculated <= s.calculated
    && (if reverse then s.tick <= t.tick else t.tick <= s.tick)
    && (t.tick != s.tick || t.remaining == 0)
    && FairMove(s.liquidity, s.sqrtP, t.sqrtP, reverse, t.netIn - s.netIn, s.calculated - t.calculated)
    && FairFee(pool.fee, t.netIn - s.netIn, t.fees - s.fees, t.remaining)
  }

  /** The trader pays the least, and gets the most, that moving the price at liquidity L takes and gives. */
  ghost predicate FairMove(L: int, from: nat, to: nat, reverse: bool, paid: int, got: int) {
    0 <= L && 0 <= paid && 0 <= got && LeastPaid(L, from, to, !reverse, paid) && MostGot(L, from, to, !reverse, got)
  }

  ghost predicate LeastPaid(L: nat, from: nat, to: nat, down: bool, paid: nat) {
    forall a: nat :: paid <= a <==> Pays(L, from, to, down, a)
  }

  ghost predicate MostGot(L: nat, from: nat, to: nat, down: bool, got: nat) {
    forall o: nat :: o <= got <==> Yields(L, from, to, down, o)
  }

  lemma FairBounds(L: nat, from: nat, to: nat, reverse: bool, paid: nat, got: nat)
    requires FairMove(L, from, to, reverse, paid, got)
    ensures Pays(L, from, to, !reverse, paid) && (0 < paid ==> !Pays(L, from, to, !reverse, paid - 1))
    ensures Yields(L, from, to, !reverse, got) && !Yields(L, from, to, !reverse, got + 1)
  {
    hide Pays, Yields;
  }

  /** The fee covers the input, and is the least that does as long as some input is left. */
  ghost predicate FairFee(fee: nat, paid: int, taken: int, left: int) {
    && fee < FEE_UNIT && 0 <= paid && 0 <= taken && CoversFee(paid, fee, taken)
    && (left != 0 ==> forall f: nat :: taken <= f <==> CoversFee(paid, fee, f))
  }

  /** The range of prices at constant liquidity the next step can use. */
  lemma TargetBounds(pool: Pool, s: SwapState, next: int, reverse: bool)
    requires Inv(pool, s) && Active(s) && MIN_TICK <= next <= MAX_TICK
    requires if reverse then s.tick < next else next <= s.tick
    ensures MIN_TICK <= s.tick < MAX_TICK
    ensures if reverse then s.sqrtP <= SqrtRatioAtTick(next) else SqrtRatioAtTick(next) <= s.sqrtP
    ensures MIN_SQRT_RATIO <= SqrtRatioAtTick(next) <= MAX_SQRT_RATIO
  {
    hide SqrtRatioAtTick, NetBelow;
    SqrtRatioRange(MIN_TICK);
    SqrtRatioRange(MAX_TICK);
    SqrtRatioRange(next);
    ActiveTick(pool, s);
    if reverse {
      if s.tick + 1 < next { SqrtRatioIncreases(s.tick + 1, next); }
    } else {
      if next < s.tick { SqrtRatioIncreases(next, s.tick); }
    }
  }

  lemma ActiveTick(pool: Pool, s: SwapState)
    requires Inv(pool, s) && Active(s)
    ensures MIN_TICK <= s.tick < MAX_TICK
  {
    hide SqrtRatioAtTick, NetBelow;
    SqrtRatioRange(MIN_TICK);
    SqrtRatioRange(MAX_TICK);
  }

  /** The step that reached the next tick. */
  lemma ReachedEffect(pool: Pool, s: SwapState, reverse: bool, next: int, found: bool, step: Step)
    requires ValidPool(pool) && Inv(pool, s) && Active(s)
    requires MIN_TICK <= next <= MAX_TICK && (if reverse then s.tick < next else next <= s.tick)
    requires NothingSkipped(pool, s.tick, next, reverse) && (found <==> next in pool.net)
    requires step.sqrtP == SqrtRatioAtTick(next)
    ensures AfterStep(pool, s, reverse, next, found, step.sqrtP, step).Success?
    ensures var t := AfterStep(pool, s, reverse, next, found, step.sqrtP, step).value;
            InRange(pool, t.sqrtP, t.tick, t.liquidity)
  {
    hide SqrtRatioAtTick, NetBelow, ValidPool, InRange, Inv, Active;
    CrossedLiquidity(pool.net, s.tick, next, reverse);
    LiquidityOf(pool, s);
    AtTick(pool, next, reverse);
  }

  lemma LiquidityOf(pool: Pool, s: SwapState)
    requires Inv(pool, s)
    ensures s.liquidity == NetBelow(pool.net, s.tick)
  {
    hide SqrtRatioAtTick, NetBelow;
  }

  /** A price exactly at a tick is in the range above it and in the range below it. */
  lemma AtTick(pool: Pool, next: int, above: bool)
    requires MIN_TICK <= next <= MAX_TICK
    ensures var tick := if above then next else next - 1;
            InRange(pool, SqrtRatioAtTick(next), tick, NetBelow(pool.net, tick))
  {
    hide SqrtRatioAtTick, NetBelow;
    SqrtRatioRange(next);
    if above {
      if next < MAX_TICK { SqrtRatioIncreases(next, next + 1); }
    } else {
      if MIN_TICK <= next - 1 { SqrtRatioIncreases(next - 1, next); }
    }
  }

  /** The step that stopped short of the next tick. */
  lemma ShortEffect(pool: Pool, s: SwapState, reverse: bool, next: int, found: bool, target: nat, step: Step)
    requires ValidPool(pool) && Inv(pool, s) && Active(s)
    requires MIN_TICK <= next <= MAX_TICK && (if reverse then s.tick < next else next <= s.tick)
    requires NothingSkipped(pool, s.tick, next, reverse)
    requires target == SqrtRatioAtTick(next) && step.sqrtP != target
    requires Between(s.sqrtP, step.sqrtP, target, !reverse)
    ensures AfterStep(pool, s, reverse, next, found, target, step).Success?
    ensures var t := AfterStep(pool, s, reverse, next, found, target, step).value;
            InRange(pool, t.sqrtP, t.tick, t.liquidity) && (if reverse then s.tick <= t.tick else t.tick <= s.tick)
  {
    hide SqrtRatioAtTick, NetBelow, TickAt;
    TargetBounds(pool, s, next, reverse);
    var p := step.sqrtP;
    assert MIN_SQRT_RATIO <= p < MAX_SQRT_RATIO;
    if p != s.sqrtP {
      TickAtGalois(p, s.tick);
      TickAtGalois(p, s.tick + 1);
      TickAtGalois(p, next);
      if reverse { NetBelowFlat(pool.net, s.tick, TickAt(p)); } else { NetBelowFlat(pool.net, TickAt(p), s.tick); }
    }
  }

  /** A step that meets its contract is fair to the pool, in the direction of the swap. */
  lemma ContractIsFair(current: nat, target: nat, L: nat, remaining: nat, fee: nat, step: Step, reverse: bool)
    requires fee < FEE_UNIT && StepContract(current, target, L, remaining, fee, step)
    requires 0 < current && if reverse then current <= target else target <= current
    ensures FairMove(L, current, step.sqrtP, reverse, step.amountIn, step.amountOut)
    ensures FairFee(fee, step.amountIn, step.feeAmount, remaining - step.amountIn - step.feeAmount)
    ensures Between(current, step.sqrtP, target, !reverse)
  {
    LessFeeIsMost(remaining, fee, step.amountIn);
    hide Pays, Yields, LessFee;
    if current == target { StandingMove(L, current); }
    if step.sqrtP == target { assert CoversFee(step.amountIn, fee, step.feeAmount); }
  }

  /** Standing still takes nothing and gives nothing, in either direction. */
  lemma StandingMove(L: nat, p: nat)
    requires 0 < p
    ensures forall a: nat :: Pays(L, p, p, true, a) && Pays(L, p, p, false, a)
    ensures forall o: nat :: Yields(L, p, p, true, o) <==> Yields(L, p, p, false, o)
  {
    forall a: nat
      ensures Pays(L, p, p, true, a) && Pays(L, p, p, false, a)
      ensures Yields(L, p, p, true, a) <==> Yields(L, p, p, false, a)
    {
      assert L * P96 * (p - p) == 0 && L * (p - p) == 0;
      MulPositive(p, p);
      if 0 < a { MulPositive(a, p * p); }
    }
  }

  /** Every step keeps the invariant, moves the price the right way, accounts for
      what it takes, and either moves the tick or uses the input up. */
  lemma StepKeeps(pool: Pool, s: SwapState, reverse: bool)
    requires ValidPool(pool) && Inv(pool, s) && Active(s) && 0 <= s.liquidity
    requires StepOnce(pool, s, reverse).Success?
    ensures StepEffect(pool, s, StepOnce(pool, s, reverse).value, reverse)
  {
    hide SqrtRatioAtTick, NetBelow, ValidPool, NextTick, ComputeSwapStep, TickAt, Pays, Yields;
    var spacing := TickSpacing(pool.fee).value;
    var (next, found) := NextTick(pool, spacing, s.tick, reverse).value;
    ActiveTick(pool, s);
    NextTickIsNearest(pool, spacing, s.tick, reverse);
    var target := SqrtRatioAtTick(next);
    TargetBounds(pool, s, next, reverse);
    var step := ComputeSwapStep(s.sqrtP, target, s.liquidity, s.remaining, pool.fee).value;
    StepMeetsContract(s.sqrtP, target, s.liquidity, s.remaining, pool.fee);
    ContractIsFair(s.sqrtP, target, s.liquidity, s.remaining, pool.fee, step, reverse);
    hide FairMove, NothingSkipped, InRange, Active;
    if step.sqrtP == target {
      ReachedEffect(pool, s, reverse, next, found, step);
    } else {
      ShortEffect(pool, s, reverse, next, found, target, step);
    }
  }

  // ----- whole swaps -----

  /** Steps until the input is used up or the price reaches an end of its range. */
  ghost function Run(pool: Pool, s: SwapState, reverse: bool): Result<SwapState>
    requires ValidPool(pool) && Inv(pool, s)
    decreases Distance(s, reverse), s.remaining
  {
    if !Active(s) then Success(s)
    else
      InvLiquidity(pool, s);
      var t :- StepOnce(pool, s, reverse);
      RunDecreases(pool, s, reverse);
      Run(pool, t, reverse)
  }

  lemma InvLiquidity(pool: Pool, s: SwapState)
    requires ValidPool(pool) && Inv(pool, s)
    ensures 0 <= s.liquidity < P128
  {
    hide SqrtRatioAtTick, NetBelow;
  }

  /** The swap loop terminates: the tick moves strictly towards its end, or the input is gone. */
  lemma RunDecreases(pool: Pool, s: SwapState, reverse: bool)
    requires ValidPool(pool) && Inv(pool, s) && Active(s) && 0 <= s.liquidity
    requires StepOnce(pool, s, reverse).Success?
    ensures var t := StepOnce(pool, s, reverse).value;
            && Inv(pool, t) && 0 <= Distance(t, reverse) && 0 <= t.remaining
            && (Distance(t, reverse) < Distance(s, reverse)
                || (Distance(t, reverse) == Distance(s, reverse) && t.remaining < s.remaining))
  {
    hide SqrtRatioAtTick, NetBelow, ValidPool, StepOnce, FairMove;
    StepKeeps(pool, s, reverse);
  }

  /** What a whole swap does, whichever way it goes. */
  ghost predicate RunEffect(pool: Pool, s: SwapState, t: SwapState, reverse: bool) {
    && Inv(pool, t)
    && (if reverse then s.sqrtP <= t.sqrtP else t.sqrtP <= s.sqrtP)
    && (t.netIn - s.netIn) + (t.fees - s.fees) == s.remaining - t.remaining
    && s.netIn <= t.netIn && s.fees <= t.fees && t.calculated <= s.calculated
    && pool.fee < FEE_UNIT && CoversFee(t.netIn - s.netIn, pool.fee, t.fees - s.fees)
  }

  /** A whole swap ends with its input used up or at one of the two outermost prices, and
      for no other reason. */
  lemma {:induction false} RunKeeps(pool: Pool, s: SwapState, reverse: bool)
    requires ValidPool(pool) && Inv(pool, s) && Run(pool, s, reverse).Success?
    ensures RunEffect(pool, s, Run(pool, s, reverse).value, reverse)
    ensures var t := Run(pool, s, reverse).value;
            t.remaining == 0 || t.sqrtP == MIN_SQRT_RATIO || t.sqrtP == MAX_SQRT_RATIO
    decreases Distance(s, reverse), s.remaining
  {
    KnownFee(pool);
    if !Active(s) { EndsThere(pool, s, reverse); }
    hide SqrtRatioAtTick, NetBelow, ValidPool, StepOnce, FairMove, FairFee, CoversFee, Active, InRange, RunEffect;
    if Active(s) {
      InvLiquidity(pool, s);
      StepKeeps(pool, s, reverse);
      RunDecreases(pool, s, reverse);
      var m := StepOnce(pool, s, reverse).value;
      RunKeeps(pool, m, reverse);
      EffectsAdd(pool, s, m, Run(pool, m, reverse).value, reverse);
    }
  }

  lemma EffectsAdd(pool: Pool, s: SwapState, m: SwapState, t: SwapState, reverse: bool)
    requires StepEffect(pool, s, m, reverse) && RunEffect(pool, m, t, reverse)
    ensures RunEffect(pool, s, t, reverse)
  {
    hide Inv, FairMove, CoversFee;
    CoversAdds(m.netIn - s.netIn, t.netIn - m.netIn, pool.fee, m.fees - s.fees, t.fees - m.fees);
  }

  lemma KnownFee(pool: Pool)
    requires ValidPool(pool)
    ensures pool.fee < FEE_UNIT
  {
    hide NetBelow;
  }

  lemma EndsThere(pool: Pool, s: SwapState, reverse: bool)
    requires Inv(pool, s) && !Active(s) && pool.fee < FEE_UNIT
    ensures RunEffect(pool, s, s, reverse)
    ensures s.remaining == 0 || s.sqrtP == MIN_SQRT_RATIO || s.sqrtP == MAX_SQRT_RATIO
  {
    hide SqrtRatioAtTick, NetBelow;
  }

  // ----- swaps of a pool whose words are all loaded complete -----

  ghost predicate Loaded(pool: Pool)
    requires TickSpacing(pool.fee).Success?
  {
    forall t: int | MIN_TICK <= t < MAX_TICK ::
      var c := t / TickSpacing(pool.fee).value; c / 256 in pool.bitmap && (c + 1) / 256 in pool.bitmap
  }

  lemma StepRuns(pool: Pool, s: SwapState, reverse: bool)
    requires ValidPool(pool) && Loaded(pool) && Inv(pool, s) && Active(s) && 0 <= s.liquidity
    ensures StepOnce(pool, s, reverse).Success?
  {
    hide SqrtRatioAtTick, NetBelow, ComputeSwapStep, TickAt, Bit, ScanUp, ScanDown, StepContract;
    var spacing := TickSpacing(pool.fee).value;
    ActiveTick(pool, s);
    InvLiquidity(pool, s);
    hide ValidPool;
    assert NextTick(pool, spacing, s.tick, reverse).Success?;
    var (next, found) := NextTick(pool, spacing, s.tick, reverse).value;
    NextTickIsNearest(pool, spacing, s.tick, reverse);
    hide NextTick, Loaded;
    TargetBounds(pool, s, next, reverse);
    StepCompletes(s.sqrtP, SqrtRatioAtTick(next), s.liquidity, s.remaining, pool.fee);
  }

  lemma {:induction false} RunCompletes(pool: Pool, s: SwapState, reverse: bool)
    requires ValidPool(pool) && Loaded(pool) && Inv(pool, s)
    ensures Run(pool, s, reverse).Success?
    decreases Distance(s, reverse), s.remaining
  {
    hide SqrtRatioAtTick, NetBelow, ValidPool, Loaded, StepOnce, Active, InRange;
    if Active(s) {
      InvLiquidity(pool, s);
      StepRuns(pool, s, reverse);
      RunDecreases(pool, s, reverse);
      RunCompletes(pool, StepOnce(pool, s, reverse).value, reverse);
    }
  }

  // ----- rounding never favours the trader -----

  lemma FairStepDown(L: nat, from: nat, to: nat, paid: nat, got: nat)
    requires to <= from && 0 < to && FairMove(L, from, to, false, paid, got)
    ensures got * P192 <= paid * (from * to)
  {
    FairBounds(L, from, to, false, paid, got);
    assert got * P96 * P96 <= L * (from - to) * P96;
    assert L * (from - to) * P96 == L * P96 * (from - to);
  }

  lemma FairStepUp(L: nat, from: nat, to: nat, paid: nat, got: nat)
    requires from <= to && 0 < from && FairMove(L, from, to, true, paid, got)
    ensures got * (to * from) <= paid * P192
  {
    FairBounds(L, from, to, true, paid, got);
    assert L * (to - from) * P96 <= paid * P96 * P96;
    assert L * (to - from) * P96 == L * P96 * (to - from);
  }

  /** Bounds at a later price carry back to an earlier one. */
  lemma DownBoundExtends(a: nat, b: nat, x: nat, y: nat, p: nat, q: nat)
    requires q <= p && a * P192 <= x * (p * q) && b * P192 <= y * (q * q)
    ensures (a + b) * P192 <= (x + y) * (p * p)
  {
    MulMono(q, p, p);
    MulBoth(q, p, q, p);
    MulMono(p * q, p * p, x);
    MulMono(q * q, p * p, y);
    assert (x + y) * (p * p) == x * (p * p) + y * (p * p);
    assert x * (p * q) == p * q * x && x * (p * p) == p * p * x;
    assert y * (q * q) == q * q * y && y * (p * p) == p * p * y;
  }

  lemma UpBoundExtends(a: nat, b: nat, x: nat, y: nat, p: nat, q: nat)
    requires p <= q && a * (q * p) <= x * P192 && b * (q * q) <= y * P192
    ensures (a + b) * (p * p) <= (x + y) * P192
  {
    MulMono(p, q, p);
    MulBoth(p, q, p, q);
    MulMono(p * p, q * p, a);
    MulMono(p * p, q * q, b);
    assert (a + b) * (p * p) == a * (p * p) + b * (p * p);
    assert a * (p * p) == p * p * a && a * (q * p) == q * p * a;
    assert b * (p * p) == p * p * b && b * (q * q) == q * q * b;
  }

  /** Token 0 in: the output is worth at most the net input at the starting price. */
  lemma {:induction false} RunValueDown(pool: Pool, s: SwapState)
    requires ValidPool(pool) && Inv(pool, s) && Run(pool, s, false).Success?
    ensures var t := Run(pool, s, false).value;
            (s.calculated - t.calculated) * P192 <= (t.netIn - s.netIn) * (s.sqrtP * s.sqrtP)
    decreases Distance(s, false), s.remaining
  {
    hide SqrtRatioAtTick, NetBelow, ValidPool, StepOnce, FairMove, Active;
    if Active(s) {
      InvLiquidity(pool, s);
      StepKeeps(pool, s, false);
      RunDecreases(pool, s, false);
      var m := StepOnce(pool, s, false).value;
      RunValueDown(pool, m);
      RunKeeps(pool, m, false);
      var t := Run(pool, m, false).value;
      FairStepDown(s.liquidity, s.sqrtP, m.sqrtP, m.netIn - s.netIn, s.calculated - m.calculated);
      DownBoundExtends(s.calculated - m.calculated, m.calculated - t.calculated,
                       m.netIn - s.netIn, t.netIn - m.netIn, s.sqrtP, m.sqrtP);
    }
  }

  /** Token 1 in: the same, with the price the other way up. */
  lemma {:induction false} RunValueUp(pool: Pool, s: SwapState)
    requires ValidPool(pool) && Inv(pool, s) && Run(pool, s, true).Success?
    ensures var t := Run(pool, s, true).value;
            (s.calculated - t.calculated) * (s.sqrtP * s.sqrtP) <= (t.netIn - s.netIn) * P192
    decreases Distance(s, true), s.remaining
  {
    hide SqrtRatioAtTick, NetBelow, ValidPool, StepOnce, FairMove, Active;
    if Active(s) {
      InvLiquidity(pool, s);
      StepKeeps(pool, s, true);
      RunDecreases(pool, s, true);
      var m := StepOnce(pool, s, true).value;
      RunValueUp(pool, m);
      RunKeeps(pool, m, true);
      var t := Run(pool, m, true).value;
      FairStepUp(s.liquidity, s.sqrtP, m.sqrtP, m.netIn - s.netIn, s.calculated - m.calculated);
      UpBoundExtends(s.calculated - m.calculated, m.calculated - t.calculated,
                     m.netIn - s.netIn, t.netIn - m.netIn, s.sqrtP, m.sqrtP);
    }
  }
}
