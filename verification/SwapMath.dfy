/** One step of a swap inside a price range of constant liquidity: amounts for a
    price move, the price an amount can buy, and the fee. */
module SwapMath {
  import opened Arithmetic
  import opened Results

  const FEE_UNIT: nat := 1000000

  datatype Step = Step(sqrtP: nat, amountIn: nat, amountOut: nat, feeAmount: int)

  // ----- the formulas of the source -----

  function MulDivRoundingUp(a: nat, b: nat, denominator: nat): Result<nat>
    requires 0 < denominator
  {
    var product: nat := a * b;
    var result := product / denominator;
    if product % denominator > 0 && !(0 <= result < P256 - 1) then Failure(AssertionFailed)
    else Success(CeilDiv(product, denominator))
  }

  function Lower(p: nat, q: nat): nat { if p > q then q else p }
  function Higher(p: nat, q: nat): nat { if p > q then p else q }

  function GetAmount0Delta(p0: nat, p1: nat, liquidity: nat, roundUp: bool): Result<nat> {
    var lo, hi := Lower(p0, p1), Higher(p0, p1);
    var numerator1: nat := liquidity * P96;
    var numerator2 := hi - lo;
    if lo == 0 then Failure(AssertionFailed)
    else if roundUp then
      var rounded :- MulDivRoundingUp(numerator1, numerator2, hi);
      Success(CeilDiv(rounded, lo))
    else
      Success(Quotient(Quotient(numerator1 * numerator2, hi), lo))
  }

  function GetAmount1Delta(p0: nat, p1: nat, liquidity: nat, roundUp: bool): Result<nat> {
    var diff := Higher(p0, p1) - Lower(p0, p1);
    if roundUp then MulDivRoundingUp(liquidity, diff, P96)
    else Success(Quotient(liquidity * diff, P96))
  }

  function NextPriceFromAmount0(sqrtP: nat, liquidity: nat, amount: nat): Result<nat> {
    var numerator1: nat := liquidity * P96;
    if amount == 0 then Success(sqrtP)
    else
      var product: nat := amount * sqrtP;
      if product / amount == sqrtP && numerator1 + product >= numerator1 then
        if numerator1 + product == 0 then Failure(ZeroDivision)
        else MulDivRoundingUp(numerator1, sqrtP, numerator1 + product)
      else if sqrtP == 0 then Failure(ZeroDivision)
      else Success(CeilDiv(numerator1, Quotient(numerator1, sqrtP) + amount))
  }

  function NextPriceFromAmount1(sqrtP: nat, liquidity: nat, amount: nat): Result<nat> {
    if liquidity == 0 then Failure(ZeroDivision)
    else Success(sqrtP + Quotient(amount * P96, liquidity))
  }

  function NextPrice(sqrtP: nat, liquidity: nat, amount: nat, zeroForOne: bool): Result<nat> {
    if zeroForOne then NextPriceFromAmount0(sqrtP, liquidity, amount)
    else NextPriceFromAmount1(sqrtP, liquidity, amount)
  }

  function AmountIn(current: nat, next: nat, liquidity: nat, zeroForOne: bool): Result<nat> {
    if zeroForOne then GetAmount0Delta(next, current, liquidity, true)
    else GetAmount1Delta(current, next, liquidity, true)
  }

  function AmountOut(current: nat, next: nat, liquidity: nat, zeroForOne: bool): Result<nat> {
    if zeroForOne then GetAmount1Delta(next, current, liquidity, false)
    else GetAmount0Delta(current, next, liquidity, false)
  }

  /** The input left to move the price once the fee is set aside. */
  function LessFee(remaining: nat, fee: nat): nat
    requires fee < FEE_UNIT
  {
    Quotient(remaining * (FEE_UNIT - fee), FEE_UNIT)
  }

  function ComputeSwapStep(current: nat, target: nat, liquidity: nat, remaining: nat, fee: nat): Result<Step>
    requires fee < FEE_UNIT
  {
    var zeroForOne := current >= target;
    var lessFee := LessFee(remaining, fee);
    var toTarget :- AmountIn(current, target, liquidity, zeroForOne);
    var next :- if lessFee >= toTarget then Success(target) else NextPrice(current, liquidity, lessFee, zeroForOne);
    var amountIn :- if target == next then Success(toTarget) else AmountIn(current, next, liquidity, zeroForOne);
    var amountOut :- AmountOut(current, next, liquidity, zeroForOne);
    var feeAmount :- if next != target then Success(remaining - amountIn)
                     else MulDivRoundingUp(amountIn, fee, FEE_UNIT - fee);
    Success(Step(next, amountIn, amountOut, feeAmount))
  }

  // ----- what the amounts mean -----

  /** a of token 0 is at least what liquidity L takes in when the price falls from hi to lo. */
  ghost predicate Pays0(L: nat, hi: nat, lo: nat, a: nat) {
    L * P96 * (hi - lo) <= a * (hi * lo)
  }

  /** o of token 0 is at most what L gives out when the price rises from lo to hi. */
  ghost predicate Yields0(L: nat, hi: nat, lo: nat, o: nat) {
    o * (hi * lo) <= L * P96 * (hi - lo)
  }

  /** a of token 1 is at least what L takes in when the price rises from lo to hi. */
  ghost predicate Pays1(L: nat, hi: nat, lo: nat, a: nat) {
    L * (hi - lo) <= a * P96
  }

  /** o of token 1 is at most what L gives out when the price falls from hi to lo. */
  ghost predicate Yields1(L: nat, hi: nat, lo: nat, o: nat) {
    o * P96 <= L * (hi - lo)
  }

  ghost predicate Pays(L: nat, from: nat, to: nat, zeroForOne: bool, a: nat) {
    if zeroForOne then Pays0(L, from, to, a) else Pays1(L, to, from, a)
  }

  ghost predicate Yields(L: nat, from: nat, to: nat, zeroForOne: bool, o: nat) {
    if zeroForOne then Yields1(L, from, to, o) else Yields0(L, to, from, o)
  }

  /** f is at least the fee on an input a that is already net of it. */
  ghost predicate CoversFee(a: nat, fee: nat, f: nat)
    requires fee < FEE_UNIT
  {
    a * fee <= f * (FEE_UNIT - fee)
  }

  /** p is on the way from one price to the other, ends included. */
  ghost predicate Between(from: nat, p: nat, to: nat, zeroForOne: bool) {
    if zeroForOne then to <= p <= from else from <= p <= to
  }

  /** p lies no further along than q. */
  ghost predicate NoFurther(p: nat, q: nat, zeroForOne: bool) {
    if zeroForOne then q <= p else p <= q
  }

  /** The whole contract of a step, without any of its formulas: the input is the
      least that pays for the move, the output the most the move yields, the price
      the furthest the input net of fee pays for, and the fee what is due. */
  ghost predicate StepContract(current: nat, target: nat, L: nat, remaining: nat, fee: nat, s: Step)
    requires fee < FEE_UNIT
  {
    var down := current >= target;
    var net := LessFee(remaining, fee);
    && Between(current, s.sqrtP, target, down)
    && (forall a: nat :: s.amountIn <= a <==> Pays(L, current, s.sqrtP, down, a))
    && (forall o: nat :: o <= s.amountOut <==> Yields(L, current, s.sqrtP, down, o))
    && s.amountIn <= net
    && 0 <= s.feeAmount && s.amountIn + s.feeAmount <= remaining
    && (s.sqrtP == target <==> Pays(L, current, target, down, net))
    && (s.sqrtP == target ==>
          forall f: nat :: s.feeAmount <= f <==> CoversFee(s.amountIn, fee, f))
    && (s.sqrtP != target ==>
          && s.amountIn + s.feeAmount == remaining
          && forall p: nat | Between(current, p, target, down) ::
               NoFurther(p, s.sqrtP, down) <==> Pays(L, current, p, down, net))
  }

  // ----- proofs -----

  lemma QuotientGalois(a: nat, d: nat, q: nat)
    requires 0 < d
    ensures q <= Quotient(a, d) <==> q * d <= a
  {
    FloorGalois(a, d, q);
  }

  lemma Amount0UpIsLeast(hi: nat, lo: nat, L: nat, a: nat)
    requires lo <= hi && GetAmount0Delta(lo, hi, L, true).Success?
    ensures GetAmount0Delta(lo, hi, L, true).value <= a <==> Pays0(L, hi, lo, a)
    ensures GetAmount0Delta(hi, lo, L, true) == GetAmount0Delta(lo, hi, L, true)
  {
    var n := L * P96 * (hi - lo);
    CeilGalois(n, hi, a * lo);
    CeilGalois(CeilDiv(n, hi), lo, a);
    MulSwap(a, lo, hi);
  }

  lemma MulSwap(a: nat, lo: nat, hi: nat)
    ensures a * lo * hi == a * (hi * lo)
  {
  }

  lemma Amount0DownIsMost(hi: nat, lo: nat, L: nat, o: nat)
    requires 0 < lo <= hi
    ensures GetAmount0Delta(lo, hi, L, false).Success?
    ensures o <= GetAmount0Delta(lo, hi, L, false).value <==> Yields0(L, hi, lo, o)
  {
    var n := L * P96 * (hi - lo);
    QuotientGalois(n, hi, o * lo);
    QuotientGalois(Quotient(n, hi), lo, o);
    MulSwap(o, lo, hi);
  }

  lemma Amount1UpIsLeast(hi: nat, lo: nat, L: nat, a: nat)
    requires lo <= hi && GetAmount1Delta(lo, hi, L, true).Success?
    ensures GetAmount1Delta(lo, hi, L, true).value <= a <==> Pays1(L, hi, lo, a)
    ensures GetAmount1Delta(hi, lo, L, true) == GetAmount1Delta(lo, hi, L, true)
  {
    CeilGalois(L * (hi - lo), P96, a);
  }

  lemma Amount1DownIsMost(hi: nat, lo: nat, L: nat, o: nat)
    requires lo <= hi
    ensures GetAmount1Delta(lo, hi, L, false).Success?
    ensures o <= GetAmount1Delta(lo, hi, L, false).value <==> Yields1(L, hi, lo, o)
  {
    QuotientGalois(L * (hi - lo), P96, o);
  }

  lemma AmountInIsLeast(from: nat, to: nat, L: nat, down: bool, a: nat)
    requires Between(from, to, to, down) && AmountIn(from, to, L, down).Success?
    ensures AmountIn(from, to, L, down).value <= a <==> Pays(L, from, to, down, a)
  {
    if down { Amount0UpIsLeast(from, to, L, a); } else { Amount1UpIsLeast(to, from, L, a); }
  }

  lemma AmountOutIsMost(from: nat, to: nat, L: nat, down: bool, o: nat)
    requires Between(from, to, to, down) && 0 < from && 0 < to
    ensures AmountOut(from, to, L, down).Success?
    ensures o <= AmountOut(from, to, L, down).value <==> Yields(L, from, to, down, o)
  {
    if down { Amount1DownIsMost(from, to, L, o); } else { Amount0DownIsMost(to, from, L, o); }
  }

  lemma ProductQuotient(a: nat, p: nat)
    requires 0 < a
    ensures a * p / a == p
  {
    assert p * a == a * p;
    assert (p + 1) * a == a * p + a;
    FloorUnique(a * p, a, p);
  }

  /** Rearranging n * P <= p * (n + a * P) into n * (P - p) <= a * P * p. */
  lemma PriceRearranged(n: nat, P: nat, p: nat, a: nat)
    requires p <= P
    ensures n * P <= p * (n + a * P) <==> n * (P - p) <= a * (P * p)
  {
    assert p * (n + a * P) == n * p + a * (P * p) by {
      assert p * (a * P) == a * (P * p);
    }
    assert n * (P - p) == n * P - n * p;
  }

  /** The price an input of token 0 reaches is the lowest it pays for. */
  lemma NextPrice0IsFurthest(P: nat, L: nat, a: nat, p: nat)
    requires 0 < P && 0 < L && p <= P && NextPriceFromAmount0(P, L, a).Success?
    ensures NextPriceFromAmount0(P, L, a).value <= p <==> Pays0(L, P, p, a)
  {
    var n: nat := L * P96;
    if a == 0 {
      if p < P { MulStrict(0, P - p, n); assert n * (P - p) == (P - p) * n; }
    } else {
      ProductQuotient(a, P);
      CeilGalois(n * P, n + a * P, p);
      PriceRearranged(n, P, p, a);
    }
  }

  /** The price an input of token 1 reaches is the highest it pays for. */
  lemma NextPrice1IsFurthest(P: nat, L: nat, a: nat, p: nat)
    requires 0 < L && P <= p && NextPriceFromAmount1(P, L, a).Success?
    ensures p <= NextPriceFromAmount1(P, L, a).value <==> Pays1(L, p, P, a)
  {
    QuotientGalois(a * P96, L, p - P);
    assert (p - P) * L == L * (p - P);
  }

  lemma NextPriceIsFurthest(P: nat, L: nat, a: nat, down: bool, p: nat)
    requires 0 < P && 0 < L && NextPrice(P, L, a, down).Success?
    requires if down then p <= P else P <= p
    ensures NoFurther(p, NextPrice(P, L, a, down).value, down) <==> Pays(L, P, p, down, a)
  {
    if down { NextPrice0IsFurthest(P, L, a, p); } else { NextPrice1IsFurthest(P, L, a, p); }
  }

  /** Less its fee, an amount is the most that with the fee on it stays within the amount. */
  lemma LessFeeIsMost(remaining: nat, fee: nat, a: nat)
    requires fee < FEE_UNIT
    ensures a <= LessFee(remaining, fee) <==> a <= remaining && CoversFee(a, fee, remaining - a)
  {
    QuotientGalois(remaining * (FEE_UNIT - fee), FEE_UNIT, a);
    assert remaining * (FEE_UNIT - fee) == remaining * FEE_UNIT - remaining * fee;
    MulMono(0, remaining, fee);
    assert (remaining - a) * (FEE_UNIT - fee) == remaining * (FEE_UNIT - fee) - a * FEE_UNIT + a * fee;
  }

  /** Fees on two amounts cover the fee on their sum. */
  lemma {:induction false} CoversAdds(a: nat, b: nat, fee: nat, f: nat, g: nat)
    requires fee < FEE_UNIT && CoversFee(a, fee, f) && CoversFee(b, fee, g)
    ensures CoversFee(a + b, fee, f + g)
  {
  }

  /** Standing still costs nothing. */
  lemma StayingIsFree(L: nat, p: nat, down: bool, a: nat)
    ensures Pays(L, p, p, down, a)
  {
  }

  /** What a step that reached its target satisfies. */
  lemma ReachedStep(current: nat, target: nat, L: nat, remaining: nat, fee: nat)
    requires fee < FEE_UNIT && 0 < current && 0 < target
    requires ComputeSwapStep(current, target, L, remaining, fee).Success?
    requires Pays(L, current, target, current >= target, LessFee(remaining, fee))
    ensures StepContract(current, target, L, remaining, fee, ComputeSwapStep(current, target, L, remaining, fee).value)
  {
    hide AmountIn, AmountOut, LessFee, Pays, Yields, NextPrice;
    var down, net := current >= target, LessFee(remaining, fee);
    var s := ComputeSwapStep(current, target, L, remaining, fee).value;
    AmountInIsLeast(current, target, L, down, net);
    assert s.sqrtP == target;
    forall a: nat ensures s.amountIn <= a <==> Pays(L, current, target, down, a) {
      AmountInIsLeast(current, target, L, down, a);
    }
    forall o: nat ensures o <= s.amountOut <==> Yields(L, current, target, down, o) {
      AmountOutIsMost(current, target, L, down, o);
    }
    forall f: nat ensures s.feeAmount <= f <==> CoversFee(s.amountIn, fee, f) {
      CeilGalois(s.amountIn * fee, FEE_UNIT - fee, f);
    }
    LessFeeIsMost(remaining, fee, s.amountIn);
    assert CoversFee(s.amountIn, fee, remaining - s.amountIn);
  }

  /** What a step that ran out of input satisfies. */
  lemma PartialStep(current: nat, target: nat, L: nat, remaining: nat, fee: nat)
    requires fee < FEE_UNIT && 0 < current && 0 < target
    requires ComputeSwapStep(current, target, L, remaining, fee).Success?
    requires !Pays(L, current, target, current >= target, LessFee(remaining, fee))
    ensures StepContract(current, target, L, remaining, fee, ComputeSwapStep(current, target, L, remaining, fee).value)
  {
    hide AmountIn, AmountOut, LessFee, NextPrice;
    var down, net := current >= target, LessFee(remaining, fee);
    var s := ComputeSwapStep(current, target, L, remaining, fee).value;
    if L == 0 { FreeMove(current, target, down, net); }
    hide Pays, Yields;
    AmountInIsLeast(current, target, L, down, net);
    var next := NextPrice(current, L, net, down).value;
    NextPriceIsFurthest(current, L, net, down, current);
    StayingIsFree(L, current, down, net);
    NextPriceIsFurthest(current, L, net, down, target);
    assert s.sqrtP == next && next != target && Between(current, next, target, down);
    NextPriceIsFurthest(current, L, net, down, next);
    AmountInIsLeast(current, next, L, down, net);
    LessFeeIsMost(remaining, fee, s.amountIn);
    forall a: nat ensures s.amountIn <= a <==> Pays(L, current, next, down, a) {
      AmountInIsLeast(current, next, L, down, a);
    }
    forall o: nat ensures o <= s.amountOut <==> Yields(L, current, next, down, o) {
      AmountOutIsMost(current, next, L, down, o);
    }
    forall p: nat | Between(current, p, target, down)
      ensures NoFurther(p, next, down) <==> Pays(L, current, p, down, net)
    {
      NextPriceIsFurthest(current, L, net, down, p);
    }
  }

  lemma FreeMove(from: nat, to: nat, down: bool, a: nat)
    requires Between(from, to, to, down)
    ensures Pays(0, from, to, down, a)
  {
    assert 0 * P96 * (from - to) == 0;
    MulMono(0, from * to, a);
    MulMono(0, from, to);
    assert a * (from * to) == from * to * a;
  }

  /** Every step the source completes meets its contract. */
  lemma StepMeetsContract(current: nat, target: nat, L: nat, remaining: nat, fee: nat)
    requires fee < FEE_UNIT && 0 < current && 0 < target
    requires ComputeSwapStep(current, target, L, remaining, fee).Success?
    ensures StepContract(current, target, L, remaining, fee, ComputeSwapStep(current, target, L, remaining, fee).value)
  {
    hide ComputeSwapStep, StepContract, Pays, LessFee;
    if Pays(L, current, target, current >= target, LessFee(remaining, fee)) {
      ReachedStep(current, target, L, remaining, fee);
    } else {
      PartialStep(current, target, L, remaining, fee);
    }
  }

  /** The contract leaves no choice: two steps that meet it are the same step. */
  lemma StepContractUnique(current: nat, target: nat, L: nat, remaining: nat, fee: nat, s: Step, t: Step)
    requires fee < FEE_UNIT
    requires StepContract(current, target, L, remaining, fee, s) && StepContract(current, target, L, remaining, fee, t)
    ensures s == t
  {
    hide Pays, Yields, LessFee, CoversFee;
    var down, net := current >= target, LessFee(remaining, fee);
    if s.sqrtP != target {
      assert NoFurther(s.sqrtP, t.sqrtP, down) && NoFurther(t.sqrtP, s.sqrtP, down) by {
        assert NoFurther(s.sqrtP, s.sqrtP, down) && NoFurther(t.sqrtP, t.sqrtP, down);
      }
    }
    assert s.sqrtP == t.sqrtP;
    var p := s.sqrtP;
    assert Pays(L, current, p, down, s.amountIn) && Pays(L, current, p, down, t.amountIn);
    assert Yields(L, current, p, down, s.amountOut) && Yields(L, current, p, down, t.amountOut);
    if p == target {
      assert CoversFee(s.amountIn, fee, s.feeAmount) && CoversFee(s.amountIn, fee, t.feeAmount);
    }
  }

  // ----- steps of a real pool always complete -----

  lemma MulDivFits(a: nat, b: nat, d: nat, q: nat)
    requires 0 < d && a * b <= q * d && q < P256 - 1
    ensures MulDivRoundingUp(a, b, d) == Success(CeilDiv(a * b, d)) && CeilDiv(a * b, d) <= q
  {
    CeilGalois(a * b, d, q);
    FloorBounds(a * b, d);
    MulCancel(a * b / d, q, d);
  }

  lemma Amount0Fits(p: nat, q: nat, L: nat)
    requires 0 < p && 0 < q && L < P128
    ensures GetAmount0Delta(p, q, L, true).Success? && GetAmount0Delta(p, q, L, true).value < P192 * P32
  {
    var lo, hi := Lower(p, q), Higher(p, q);
    var n := L * P96;
    MulMono(hi - lo, hi, n);
    assert n * (hi - lo) == (hi - lo) * n && n * hi == hi * n;
    MulDivFits(n, hi - lo, hi, n);
    var r := CeilDiv(n * (hi - lo), hi);
    MulMono(1, lo, n);
    assert n * lo == lo * n;
    CeilGalois(r, lo, n);
  }

  lemma Amount1Fits(p: nat, q: nat, L: nat)
    requires p < P160 && q < P160 && L < P128
    ensures GetAmount1Delta(p, q, L, true).Success? && GetAmount1Delta(p, q, L, true).value < P192 * P32
  {
    var d := Higher(p, q) - Lower(p, q);
    MulBoth(L, P128, d, P160);
    MulDivFits(L, d, P96, P192);
  }

  lemma AmountInFits(from: nat, to: nat, L: nat, down: bool)
    requires 0 < from < P160 && 0 < to < P160 && L < P128
    ensures AmountIn(from, to, L, down).Success? && AmountIn(from, to, L, down).value < P192 * P32
  {
    hide GetAmount0Delta, GetAmount1Delta;
    if down { Amount0Fits(to, from, L); } else { Amount1Fits(from, to, L); }
  }

  lemma NextPriceFits(P: nat, L: nat, a: nat, down: bool)
    requires 0 < P < P160 && 0 < L
    ensures NextPrice(P, L, a, down).Success?
  {
    if down && a != 0 {
      ProductQuotient(a, P);
      var n: nat := L * P96;
      MulMono(0, a, P);
      assert P * (n + a * P) == n * P + a * P * P;
      MulMono(0, a * P, P);
      MulDivFits(n, P, n + a * P, P);
    }
  }

  /** With liquidity below 2^128 and prices below 2^160 no assertion of the source can fail. */
  lemma StepCompletes(current: nat, target: nat, L: nat, remaining: nat, fee: nat)
    requires fee < FEE_UNIT && 0 < current < P160 && 0 < target < P160 && L < P128
    ensures ComputeSwapStep(current, target, L, remaining, fee).Success?
  {
    hide AmountIn, AmountOut, NextPrice, LessFee, MulDivRoundingUp;
    var down, net := current >= target, LessFee(remaining, fee);
    AmountInFits(current, target, L, down);
    var toTarget := AmountIn(current, target, L, down).value;
    var next := target;
    if net < toTarget {
      AmountInIsLeast(current, target, L, down, net);
      if L == 0 { FreeMove(current, target, down, net); }
      NextPriceFits(current, L, net, down);
      next := NextPrice(current, L, net, down).value;
      NextPriceIsFurthest(current, L, net, down, current);
      StayingIsFree(L, current, down, net);
      NextPriceIsFurthest(current, L, net, down, target);
      AmountInFits(current, next, L, down);
    } else {
      FeeFits(toTarget, fee);
    }
    AmountOutIsMost(current, next, L, down, 0);
  }

  lemma FeeFits(a: nat, fee: nat)
    requires a < P192 * P32 && fee < FEE_UNIT
    ensures MulDivRoundingUp(a, fee, FEE_UNIT - fee).Success?
  {
    MulBoth(a, P192 * P32, fee, FEE_UNIT);
    var m := a * fee;
    MulMono(1, FEE_UNIT - fee, m);
    assert m * (FEE_UNIT - fee) == (FEE_UNIT - fee) * m;
    MulDivFits(a, fee, FEE_UNIT - fee, m);
  }
}
