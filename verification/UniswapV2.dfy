/** The constant-product pair: the quote, the stored reserves it moves, and the check
    the pair itself makes on every swap. */
module UniswapV2 {
  import opened Arithmetic
  import opened Results
  import Formula

  // ----- the quote -----

  /** What a pair pays for amountIn: 997 parts of a thousand are swapped. */
  function AmountOut(amountIn: nat, reserveIn: nat, reserveOut: nat): (r: nat)
    requires 0 < reserveIn + amountIn
    ensures r <= reserveOut
  {
    QuoteRange(amountIn, reserveIn, reserveOut);
    amountIn * 997 * reserveOut / (reserveIn * 1000 + amountIn * 997)
  }

  lemma {:induction false} QuoteRange(x: nat, rin: nat, rout: nat)
    requires 0 < rin + x
    ensures 0 <= x * 997 * rout / (rin * 1000 + x * 997) <= rout
    ensures 0 < rin && 0 < rout ==> x * 997 * rout / (rin * 1000 + x * 997) < rout
  {
    var top, d := x * 997 * rout, rin * 1000 + x * 997;
    MulMono(0, x * 997, rout);
    MulMono(0, rin * 1000, rout);
    assert rout * d == rin * 1000 * rout + top;
    FloorGalois(top, d, 0);
    FloorGalois(top, d, rout + 1);
    FloorGalois(top, d, rout);
    assert (rout + 1) * d == rout * d + d;
    if 0 < rin && 0 < rout { MulStrict(0, rin * 1000, rout); }
  }

  /** The pair's own rule: the product of the balances, with 3 parts of a thousand of
      the input taken off, is not below the product of the reserves. */
  ghost predicate KeepsK(amountIn: nat, reserveIn: nat, reserveOut: nat, amountOut: int) {
    reserveIn * reserveOut * 1000000
    <= ((reserveIn + amountIn) * 1000 - amountIn * 3) * ((reserveOut - amountOut) * 1000)
  }

  /** The quote is the largest output the rule lets through. */
  lemma {:induction false} QuoteIsLargest(x: nat, rin: nat, rout: nat, out: int)
    requires 0 < rin + x
    ensures KeepsK(x, rin, rout, out) <==> out <= AmountOut(x, rin, rout)
  {
    var d, p := rin * 1000 + x * 997, x * 997;
    FloorGalois(p * rout, d, out);
    KTerms(x, rin, rout, out);
  }

  /** out is the largest output the pair's rule lets through. */
  ghost predicate LargestKept(out: int, amountIn: nat, reserveIn: nat, reserveOut: nat) {
    forall o: int :: KeepsK(amountIn, reserveIn, reserveOut, o) <==> o <= out
  }

  lemma {:induction false} QuoteIsLargestKept(x: nat, rin: nat, rout: nat)
    requires 0 < rin + x
    ensures LargestKept(AmountOut(x, rin, rout), x, rin, rout)
  {
    hide KeepsK, AmountOut;
    forall o: int ensures KeepsK(x, rin, rout, o) <==> o <= AmountOut(x, rin, rout) {
      QuoteIsLargest(x, rin, rout, o);
    }
  }

  lemma {:induction false} KTerms(x: int, rin: int, rout: int, out: int)
    ensures ((rin + x) * 1000 - x * 3) * ((rout - out) * 1000) - rin * rout * 1000000
         == 1000 * (x * 997 * rout - out * (rin * 1000 + x * 997))
  {
    var d := rin * 1000 + x * 997;
    assert d * ((rout - out) * 1000) == 1000 * (d * rout - out * d);
    assert d * rout == 1000 * (rin * rout) + x * 997 * rout;
    assert rin * rout * 1000000 == 1000 * (1000 * (rin * rout));
  }

  /** The formula module's quote for a pair is the same quotient rounded up: never
      more than one above the pair's, equal exactly when the division is exact, and
      exactly then accepted by the pair. */
  lemma {:induction false} FormulaAgainstPair(x: nat, rin: nat, rout: nat)
    requires 0 < rin + x
    ensures var up, down := Formula.OptimalAmountOut(x, 1000, 3, rin, rout), AmountOut(x, rin, rout);
            && up == CeilDiv(x * 997 * rout, rin * 1000 + x * 997)
            && down <= up <= down + 1
            && (up == down <==> x * 997 * rout % (rin * 1000 + x * 997) == 0)
            && (up == down <==> KeepsK(x, rin, rout, up))
  {
    Formula.OptimalIsCeiling(x, 1000, 3, rin, rout);
    assert (1000 - 3) * x == x * 997 && 1000 * rin == rin * 1000;
    QuoteIsLargest(x, rin, rout, Formula.OptimalAmountOut(x, 1000, 3, rin, rout));
  }

  // ----- the check written after the quote's return -----

  /** What the code past the quote's return statement would give: the quote if the
      balances pass the rule, zero if they do not. */
  function CheckedAmountOut(reserve0: nat, reserve1: nat, amountIn: nat, reverse: bool, amountOut: nat): Result<int> {
    var out0, out1 := if reverse then amountOut else 0, if reverse then 0 else amountOut;
    var balance0 := if reverse then reserve0 - out0 else reserve0 + amountIn;
    var balance1 := if reverse then reserve1 + amountIn else reserve1 - out1;
    if !(out0 < reserve0 && out1 < reserve1) then Failure(AssertionFailed)
    else
      var in0 := if balance0 > reserve0 - out0 then balance0 - (reserve0 - out0) else 0;
      var in1 := if balance1 > reserve1 - out1 then balance1 - (reserve1 - out1) else 0;
      var adjusted0, adjusted1 := balance0 * 1000 - in0 * 3, balance1 * 1000 - in1 * 3;
      if adjusted0 * adjusted1 < reserve0 * reserve1 * (1000 * 1000) then Success(0)
      else Success(if out0 > out1 then out0 else out1)
  }

  /** The check would never overrule the quote, and would refuse anything above it. */
  lemma {:induction false} CheckAcceptsQuote(reserve0: nat, reserve1: nat, amountIn: nat, reverse: bool, amountOut: nat)
    requires 0 < reserve0 && 0 < reserve1
    ensures var rin, rout := if reverse then reserve1 else reserve0, if reverse then reserve0 else reserve1;
            CheckedAmountOut(reserve0, reserve1, amountIn, reverse, amountOut)
              == if rout <= amountOut then Failure(AssertionFailed)
                 else if amountOut <= AmountOut(amountIn, rin, rout) then Success(amountOut)
                 else Success(0)
  {
    var rin, rout := if reverse then reserve1 else reserve0, if reverse then reserve0 else reserve1;
    if amountOut < rout {
      QuoteIsLargest(amountIn, rin, rout, amountOut);
      assert reserve0 * reserve1 == rin * rout;
      var a, b := (rin + amountIn) * 1000 - amountIn * 3, (rout - amountOut) * 1000;
      assert a * b == b * a;
    }
  }

  // ----- swaps that move the reserves -----

  datatype Reserves = Reserves(r0: nat, r1: nat) {
    ghost predicate Positive() {
      0 < r0 && 0 < r1
    }
  }

  datatype Trade = Trade(amountIn: nat, reverse: bool)

  function Quote(r: Reserves, t: Trade): nat
    requires 0 < (if t.reverse then r.r1 else r.r0) + t.amountIn
  {
    if t.reverse then AmountOut(t.amountIn, r.r1, r.r0) else AmountOut(t.amountIn, r.r0, r.r1)
  }

  function Swap(r: Reserves, t: Trade): Reserves
    requires 0 < (if t.reverse then r.r1 else r.r0) + t.amountIn
  {
    if t.reverse then Reserves(r.r0 - Quote(r, t), r.r1 + t.amountIn)
    else Reserves(r.r0 + t.amountIn, r.r1 - Quote(r, t))
  }

  class PoolInfo {
    var reserveInfo: Reserves

    constructor (reserves: Reserves)
      ensures reserveInfo == reserves
    {
      reserveInfo := reserves;
    }

    /** The quote; with reflect the reserves move as if the swap had been made. */
    method CalculateAmountOut(amountIn: nat, reverse: bool, reflect: bool) returns (r: Result<nat>)
      modifies this
      ensures var t := Trade(amountIn, reverse);
              if (if reverse then old(reserveInfo).r1 else old(reserveInfo).r0) + amountIn == 0
              then r == Failure(ZeroDivision) && reserveInfo == old(reserveInfo)
              else
                && r == Success(Quote(old(reserveInfo), t))
                && reserveInfo == (if reflect then Swap(old(reserveInfo), t) else old(reserveInfo))
      ensures r.Success? ==>
                var was := old(reserveInfo);
                && LargestKept(r.value, amountIn, if reverse then was.r1 else was.r0,
                               if reverse then was.r0 else was.r1)
                && (!reflect ==> reserveInfo == was)
                && (reflect && reverse ==> reserveInfo.r0 + r.value == was.r0 && reserveInfo.r1 == was.r1 + amountIn)
                && (reflect && !reverse ==> reserveInfo.r0 == was.r0 + amountIn && reserveInfo.r1 + r.value == was.r1)
      ensures old(reserveInfo).Positive() ==>
                r.Success? && reserveInfo.Positive()
                && old(reserveInfo.r0 * reserveInfo.r1) <= reserveInfo.r0 * reserveInfo.r1
    {
      hide AmountOut;
      var (reserveIn, reserveOut) :=
        if reverse then (reserveInfo.r1, reserveInfo.r0) else (reserveInfo.r0, reserveInfo.r1);
      var amountInWithFee := amountIn * 997;
      var numerator, denominator := amountInWithFee * reserveOut, reserveIn * 1000 + amountInWithFee;
      if denominator == 0 { return Failure(ZeroDivision); }
      QuoteIs(amountIn, reserveIn, reserveOut);
      var amountOut := numerator / denominator;
      QuoteIsLargestKept(amountIn, reserveIn, reserveOut);
      if reserveInfo.Positive() { SwapKeepsProduct(reserveInfo, Trade(amountIn, reverse)); }
      if reflect {
        reserveInfo := Reserves(reserveInfo.r0 + (if reverse then -amountOut else amountIn),
                                reserveInfo.r1 + (if reverse then amountIn else -amountOut));
      }
      r := Success(amountOut);
    }
  }

  lemma {:induction false} QuoteIs(x: nat, rin: nat, rout: nat)
    requires 0 < rin + x
    ensures AmountOut(x, rin, rout) == x * 997 * rout / (rin * 1000 + x * 997) <= rout
  {
  }

  /** One swap keeps both reserves positive and leaves at least the fee in the product. */
  lemma {:induction false} SwapKeepsProduct(r: Reserves, t: Trade)
    requires r.Positive()
    ensures var s := Swap(r, t);
            && s.Positive()
            && 1000 * (r.r0 * r.r1) + 3 * t.amountIn * (if t.reverse then s.r0 else s.r1) <= 1000 * (s.r0 * s.r1)
    ensures r.r0 * r.r1 <= Swap(r, t).r0 * Swap(r, t).r1
  {
    var rin, rout := if t.reverse then r.r1 else r.r0, if t.reverse then r.r0 else r.r1;
    QuoteRange(t.amountIn, rin, rout);
    var left := rout - Quote(r, t);
    QuoteIsLargest(t.amountIn, rin, rout, Quote(r, t));
    FeeStays(t.amountIn, rin, rout, left);
    assert r.r0 * r.r1 == rin * rout;
    assert (rin + t.amountIn) * left == left * (rin + t.amountIn);
  }

  lemma {:induction false} FeeStays(x: nat, rin: nat, rout: nat, left: nat)
    requires rin * rout * 1000000 <= ((rin + x) * 1000 - x * 3) * (left * 1000)
    ensures 1000 * (rin * rout) + 3 * x * left <= 1000 * ((rin + x) * left)
    ensures rin * rout <= (rin + x) * left
  {
    var k := (rin + x) * left;
    MulMono(0, x, left);
    assert ((rin + x) * 1000 - x * 3) * (left * 1000) == 1000 * (1000 * k - 3 * (x * left));
    assert 3 * x * left == 3 * (x * left);
  }

  function SwapAll(r: Reserves, trades: seq<Trade>): Reserves
    requires r.Positive()
    decreases |trades|
  {
    if trades == [] then r
    else
      SwapKeepsProduct(r, trades[0]);
      SwapAll(Swap(r, trades[0]), trades[1..])
  }

  /** Any run of swaps in either direction keeps the reserves positive, and never
      lowers their product. */
  lemma {:induction false} RunKeepsProduct(r: Reserves, trades: seq<Trade>)
    requires r.Positive()
    ensures var s := SwapAll(r, trades); s.Positive() && r.r0 * r.r1 <= s.r0 * s.r1
    decreases |trades|
  {
    if trades != [] {
      SwapKeepsProduct(r, trades[0]);
      RunKeepsProduct(Swap(r, trades[0]), trades[1..]);
    }
  }

  /** So no run of swaps profits: what leaves the pair on one side is paid for on the
      other. In particular, swapping out and back never returns more than was put in. */
  lemma {:induction false} NoRunProfits(r: Reserves, trades: seq<Trade>)
    requires r.Positive()
    ensures var s := SwapAll(r, trades);
            && (s.r1 <= r.r1 ==> r.r0 <= s.r0)
            && (s.r0 <= r.r0 ==> r.r1 <= s.r1)
  {
    RunKeepsProduct(r, trades);
    var s := SwapAll(r, trades);
    hide SwapAll;
    NotBothShrink(r.r0, r.r1, s.r0, s.r1);
  }

  lemma {:induction false} NotBothShrink(a: nat, b: nat, c: nat, d: nat)
    requires 0 < a && 0 < b && a * b <= c * d
    ensures (d <= b ==> a <= c) && (c <= a ==> b <= d)
  {
    if d <= b && c < a { Shrunk(c, a, d, b); }
    if c <= a && d < b { Shrunk(d, b, c, a); }
  }

  lemma {:induction false} Shrunk(a: nat, b: nat, c: nat, d: nat)
    requires a < b && c <= d && 0 < d
    ensures a * c < b * d
  {
    MulMono(c, d, a);
    MulStrict(a, b, d);
  }

  lemma {:induction false} OutAndBack(r: Reserves, amountIn: nat, reverse: bool)
    requires r.Positive()
    ensures var out := Quote(r, Trade(amountIn, reverse));
            var s := Swap(r, Trade(amountIn, reverse));
            0 < (if reverse then s.r0 else s.r1) && Quote(s, Trade(out, !reverse)) <= amountIn
  {
    hide AmountOut;
    var first := Trade(amountIn, reverse);
    var s := Swap(r, first);
    SwapKeepsProduct(r, first);
    var second := Trade(Quote(r, first), !reverse);
    NoRunProfits(r, [first, second]);
    SwapAllTwo(r, first, second);
  }

  lemma {:induction false} SwapAllTwo(r: Reserves, t: Trade, u: Trade)
    requires r.Positive()
    ensures Swap(r, t).Positive() && SwapAll(r, [t, u]) == Swap(Swap(r, t), u)
  {
    SwapKeepsProduct(r, t);
    SwapKeepsProduct(Swap(r, t), u);
    assert [t, u][1..] == [u] && [u][1..] == [];
    assert SwapAll(Swap(r, t), [u]) == SwapAll(Swap(Swap(r, t), u), []);
  }

  // ----- splitting a swap -----

  ghost function SumIn(amounts: seq<nat>): nat {
    if amounts == [] then 0 else amounts[0] + SumIn(amounts[1..])
  }

  /** The outputs of a run of swaps on one side, added up. */
  ghost function SumOut(rin: nat, rout: nat, amounts: seq<nat>): nat
    requires 0 < rin
    decreases |amounts|
  {
    if amounts == [] then 0
    else
      var out := AmountOut(amounts[0], rin, rout);
      out + SumOut(rin + amounts[0], rout - out, amounts[1..])
  }

  /** Swapping in pieces on one side never yields more than swapping at once. */
  lemma {:induction false} SplittingNeverGains(rin: nat, rout: nat, amounts: seq<nat>)
    requires 0 < rin
    ensures SumOut(rin, rout, amounts) <= AmountOut(SumIn(amounts), rin, rout)
    decreases |amounts|
  {
    if amounts != [] {
      var a, rest := amounts[0], amounts[1..];
      var out := AmountOut(a, rin, rout);
      SplittingNeverGains(rin + a, rout - out, rest);
      TwoPieces(rin, rout, a, SumIn(rest));
    }
  }

  lemma {:induction false} TwoPieces(rin: nat, rout: nat, a: nat, b: nat)
    requires 0 < rin
    ensures var first := AmountOut(a, rin, rout);
            first + AmountOut(b, rin + a, rout - first) <= AmountOut(a + b, rin, rout)
  {
    var o1 := AmountOut(a, rin, rout);
    var o2 := AmountOut(b, rin + a, rout - o1);
    FloorGalois(a * 997 * rout, rin * 1000 + a * 997, o1);
    FloorGalois(b * 997 * (rout - o1), (rin + a) * 1000 + b * 997, o2);
    assert 0 <= rout - o1 - o2;
    Pieces(rin, rout, a, b, o1, o2);
    FloorGalois((a + b) * 997 * rout, rin * 1000 + (a + b) * 997, o1 + o2);
  }

  lemma {:induction false} Pieces(rin: nat, rout: nat, a: nat, b: nat, o1: nat, o2: nat)
    requires o1 * (rin * 1000 + a * 997) <= a * 997 * rout
    requires o2 * ((rin + a) * 1000 + b * 997) <= b * 997 * (rout - o1)
    ensures (o1 + o2) * (rin * 1000 + (a + b) * 997) <= (a + b) * 997 * rout
  {
    MulMono(0, a, o2);
    assert o2 * ((rin + a) * 1000 + b * 997) == o2 * (rin * 1000 + (a + b) * 997) + 3 * (a * o2);
    assert o1 * (rin * 1000 + (a + b) * 997) == o1 * (rin * 1000 + a * 997) + b * 997 * o1;
    assert b * 997 * (rout - o1) == b * 997 * rout - b * 997 * o1;
    assert (a + b) * 997 * rout == a * 997 * rout + b * 997 * rout;
  }
}
