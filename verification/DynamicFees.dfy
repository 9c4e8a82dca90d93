/** The fees that grow with the imbalance of a pool, and the inequality of the means
    that keeps them in range. */
module DynamicFees {
  import opened Arithmetic
  import opened Means
  import opened Results

  const FEE_DENOMINATOR: nat := 10_000_000_000
  const UNIT: nat := 1_000_000_000_000_000_000

  // ----- the off-peg fee of the stable pools -----

  function OffPeg(scale: nat, a: nat, b: nat): int
    requires a + b != 0
  {
    SquareSum(a, b);
    scale * 4 * a * b / ((a + b) * (a + b))
  }

  lemma {:induction false} SquareSum(a: nat, b: nat)
    requires a + b != 0
    ensures 0 < (a + b) * (a + b)
  {
  }

  lemma {:induction false} OffPegRange(scale: nat, a: nat, b: nat)
    requires a + b != 0
    ensures 0 <= OffPeg(scale, a, b) <= scale
    ensures a == b ==> OffPeg(scale, a, b) == scale
    ensures a == 0 || b == 0 ==> OffPeg(scale, a, b) == 0
  {
    var top, d := scale * 4 * a * b, (a + b) * (a + b);
    SquareSum(a, b);
    assert top == scale * (4 * a * b) by { Regroup(scale, a, b); }
    assert d - 4 * a * b == (a - b) * (a - b) && 0 <= (a - b) * (a - b) && 0 <= 4 * a * b by { Binomial(a, b); }
    MulMono(4 * a * b, d, scale);
    MulMono(0, 4 * a * b, scale);
    FloorGalois(top, d, 0);
    FloorGalois(top, d, scale + 1);
    assert (scale + 1) * d == scale * d + d;
    FloorGalois(top, d, scale);
    FloorGalois(top, d, 1);
  }

  lemma {:induction false} Regroup(scale: int, a: int, b: int)
    ensures scale * 4 * a * b == scale * (4 * a * b)
  {
    assert scale * 4 * a == scale * (4 * a);
    MulAssoc(scale, 4 * a, b);
  }

  lemma {:induction false} Binomial(a: nat, b: nat)
    ensures (a + b) * (a + b) - 4 * a * b == (a - b) * (a - b) && 0 <= (a - b) * (a - b) && 0 <= 4 * a * b
  {
    MulMono(0, a, b);
    assert 4 * a * b == 4 * (a * b);
  }

  function DynamicFee(xpi: nat, xpj: nat, fee: nat, multiplier: nat): Result<int> {
    if multiplier <= FEE_DENOMINATOR then Success(fee)
    else if xpi + xpj == 0 then Failure(ZeroDivision)
    else
      OffPegRange(multiplier - FEE_DENOMINATOR, xpi, xpj);
      Success(multiplier * fee / (OffPeg(multiplier - FEE_DENOMINATOR, xpi, xpj) + FEE_DENOMINATOR))
  }

  /** With a multiplier above one the fee lies between the base fee and the multiplied
      fee: the base fee at balance, the multiplied fee when one balance is empty. */
  lemma {:induction false} DynamicFeeInRange(xpi: nat, xpj: nat, fee: nat, multiplier: nat)
    ensures var r := DynamicFee(xpi, xpj, fee, multiplier);
            && (r.Failure? <==> FEE_DENOMINATOR < multiplier && xpi == 0 && xpj == 0)
            && (r.Success? && multiplier <= FEE_DENOMINATOR ==> r.value == fee)
            && (r.Success? && FEE_DENOMINATOR < multiplier ==>
                  && fee <= r.value && r.value * FEE_DENOMINATOR <= multiplier * fee
                  && (xpi == xpj ==> r.value == fee)
                  && (xpi == 0 || xpj == 0 ==> r.value == multiplier * fee / FEE_DENOMINATOR))
  {
    if FEE_DENOMINATOR < multiplier && xpi + xpj != 0 {
      var scale := multiplier - FEE_DENOMINATOR;
      OffPegRange(scale, xpi, xpj);
      var den := OffPeg(scale, xpi, xpj) + FEE_DENOMINATOR;
      hide OffPeg;
      DividedFee(multiplier, fee, den, FEE_DENOMINATOR);
    }
  }

  /** q is the greatest number that times d is at most top. */
  ghost predicate IsQuotient(q: int, top: int, d: int) {
    forall p: int :: p <= q <==> p * d <= top
  }

  lemma {:induction false} FloorIsQuotient(top: int, d: int)
    requires 0 < d
    ensures IsQuotient(top / d, top, d)
  {
    forall p: int ensures p <= top / d <==> p * d <= top {
      FloorGalois(top, d, p);
    }
  }

  /** part is scale times four times the product of the balances over the square of their sum. */
  ghost predicate IsBalanced(part: nat, scale: nat, a: nat, b: nat) {
    IsQuotient(part, scale * (4 * (a * b)), (a + b) * (a + b))
  }

  /** The multiplied fee over one plus as much of the scale as the pool is balanced. */
  ghost predicate IsOffPegFee(r: int, multiplied: nat, scale: nat, a: nat, b: nat) {
    exists part: nat :: IsBalanced(part, scale, a, b) && IsQuotient(r, multiplied, part + FEE_DENOMINATOR)
  }

  lemma {:induction false} DynamicFeeIs(xpi: nat, xpj: nat, fee: nat, multiplier: nat)
    requires FEE_DENOMINATOR < multiplier && xpi + xpj != 0
    ensures DynamicFee(xpi, xpj, fee, multiplier).Success?
    ensures IsOffPegFee(DynamicFee(xpi, xpj, fee, multiplier).value, multiplier * fee, multiplier - FEE_DENOMINATOR,
                        xpi, xpj)
  {
    var scale := multiplier - FEE_DENOMINATOR;
    OffPegRange(scale, xpi, xpj);
    OffPegIs(scale, xpi, xpj);
    hide OffPeg, IsQuotient, IsBalanced;
    FloorIsQuotient(multiplier * fee, OffPeg(scale, xpi, xpj) + FEE_DENOMINATOR);
  }

  lemma {:induction false} OffPegIs(scale: nat, a: nat, b: nat)
    requires a + b != 0
    ensures 0 <= OffPeg(scale, a, b) && IsBalanced(OffPeg(scale, a, b), scale, a, b)
  {
    OffPegRange(scale, a, b);
    SquareSum(a, b);
    Regroup(scale, a, b);
    assert 4 * a * b == 4 * (a * b);
    var top, d := scale * 4 * a * b, (a + b) * (a + b);
    hide IsQuotient;
    FloorIsQuotient(top, d);
  }

  lemma {:induction false} DividedFee(multiplier: nat, fee: nat, den: int, least: nat)
    requires 0 < least <= den <= multiplier
    ensures var r := multiplier * fee / den;
            && fee <= r && r * least <= multiplier * fee
            && (den == multiplier ==> r == fee)
  {
    var r := multiplier * fee / den;
    FloorGalois(multiplier * fee, den, fee);
    MulMono(den, multiplier, fee);
    assert fee * den == den * fee;
    FloorGalois(multiplier * fee, den, r);
    MulMono(least, den, r);
    assert r * least == least * r && r * den == den * r;
    if den == multiplier { FloorGalois(multiplier * fee, den, fee + 1); }
  }

  /** The more unequal the balances, the higher the fee. */
  lemma {:induction false} DynamicFeeGrows(a: nat, b: nat, c: nat, d: nat, fee: nat, multiplier: nat)
    requires a + b != 0 && c + d != 0
    requires 4 * a * b * ((c + d) * (c + d)) <= 4 * c * d * ((a + b) * (a + b))
    ensures var r, s := DynamicFee(a, b, fee, multiplier), DynamicFee(c, d, fee, multiplier);
            r.Success? && s.Success? && s.value <= r.value
  {
    if FEE_DENOMINATOR < multiplier {
      var scale := multiplier - FEE_DENOMINATOR;
      OffPegRange(scale, a, b);
      OffPegRange(scale, c, d);
      OffPegGrows(scale, a, b, c, d);
      hide OffPeg;
      MulMono(0, multiplier, fee);
      DividedLess(multiplier * fee, OffPeg(scale, a, b) + FEE_DENOMINATOR, OffPeg(scale, c, d) + FEE_DENOMINATOR);
    }
  }

  lemma {:induction false} DividedLess(top: nat, p: int, q: int)
    requires 0 < p <= q
    ensures top / q <= top / p
  {
    var t := top / q;
    FloorGalois(top, q, t);
    FloorGalois(top, q, 0);
    MulMono(p, q, t);
    FloorGalois(top, p, t);
  }

  lemma {:induction false} OffPegGrows(scale: nat, a: nat, b: nat, c: nat, d: nat)
    requires a + b != 0 && c + d != 0
    requires 4 * a * b * ((c + d) * (c + d)) <= 4 * c * d * ((a + b) * (a + b))
    ensures OffPeg(scale, a, b) <= OffPeg(scale, c, d)
  {
    SquareSum(a, b);
    SquareSum(c, d);
    Regroup(scale, a, b);
    Regroup(scale, c, d);
    FloorCross(scale, 4 * a * b, (a + b) * (a + b), 4 * c * d, (c + d) * (c + d));
  }

  lemma {:induction false} FloorCross(scale: nat, p: int, q: int, u: int, v: int)
    requires 0 < q && 0 < v && p * v <= u * q
    ensures scale * p / q <= scale * u / v
  {
    var t := scale * p / q;
    FloorGalois(scale * p, q, t);
    FloorGalois(scale * u, v, t);
    MulMono(t * q, scale * p, v);
    MulMono(p * v, u * q, scale);
    assert scale * p * v == p * v * scale && u * q * scale == scale * u * q && t * q * v == t * v * q;
    MulCancel(t * v, scale * u, q);
  }

  // ----- the fee of the crypto pools -----

  /** The concentration of the balances: their product over the power of their mean,
      with a unit of 10^18, rounded down at each factor. */
  ghost function Concentration(xs: seq<nat>, n: nat, s: nat): nat
    requires 0 < s
  {
    if xs == [] then UNIT
    else
      var top := Concentration(xs[..|xs| - 1], n, s) * n * xs[|xs| - 1];
      DivMod(top, s);
      top / s
  }

  lemma {:induction false} ConcentrationBound(xs: seq<nat>, n: nat, s: nat)
    requires 0 < s
    ensures Concentration(xs, n, s) * Power(s, |xs|) <= UNIT * (Power(n, |xs|) * Product(xs))
  {
    if xs != [] {
      var init, x := xs[..|xs| - 1], xs[|xs| - 1];
      ConcentrationBound(init, n, s);
      var k := Concentration(init, n, s);
      FloorBounds(k * n * x, s);
      BoundStep(Concentration(xs, n, s), k, n, x, s, Power(s, |init|), Power(n, |init|), Product(init));
    }
  }

  lemma {:induction false} BoundStep(next: nat, k: nat, n: nat, x: nat, s: nat, ps: nat, pn: nat, product: nat)
    requires next * s <= k * n * x && k * ps <= UNIT * (pn * product)
    ensures next * (s * ps) <= UNIT * (n * pn * (product * x))
  {
    MulMono(next * s, k * n * x, ps);
    MulMono(k * ps, UNIT * (pn * product), n * x);
    assert next * (s * ps) == next * s * ps;
    assert k * n * x * ps == k * ps * (n * x) by {
      Exchange4(k, n, x, ps);
      Exchange(ps, n, k, x);
      Exchange(k, ps, n, x);
    }
    assert UNIT * (pn * product) * (n * x) == UNIT * (n * pn * (product * x)) by {
      MulAssoc(UNIT, pn * product, n * x);
      Exchange(pn, product, n, x);
    }
  }

  /** The concentration never exceeds one unit, by the inequality of the means. */
  lemma {:induction false} ConcentrationAtMostUnit(xs: seq<nat>)
    requires 0 < Sum(xs)
    ensures Concentration(xs, |xs|, Sum(xs)) <= UNIT
  {
    var s, n := Sum(xs), |xs|;
    ConcentrationBound(xs, n, s);
    MeansInequality(xs);
    MulMono(Power(n, n) * Product(xs), Power(s, n), UNIT);
    MulCancel(Concentration(xs, n, s), UNIT, Power(s, n));
  }

  /** k is the product of the balances over the power of their mean, in units, up to what
      the divisions lose; it is at most one unit. */
  ghost predicate IsConcentration(k: nat, xs: seq<nat>) {
    var n, power := |xs|, Power(Sum(xs), |xs|);
    && k <= UNIT
    && k * power <= UNIT * (Power(n, n) * Product(xs)) <= (k + Noise(n, n)) * power
  }

  lemma {:induction false} ConcentrationIs(xs: seq<nat>)
    requires 0 < Sum(xs)
    ensures IsConcentration(Concentration(xs, |xs|, Sum(xs)), xs)
  {
    ConcentrationBound(xs, |xs|, Sum(xs));
    ConcentrationAtMostUnit(xs);
    PartsOfSum(xs);
    ConcentrationLoses(xs, |xs|, Sum(xs));
  }

  lemma {:induction false} PartsOfSum(xs: seq<nat>)
    ensures forall k :: 0 <= k < |xs| ==> xs[k] <= Sum(xs)
  {
    if xs != [] { PartsOfSum(xs[..|xs| - 1]); }
  }

  /** Each division loses less than one, and each later factor is at most n. */
  lemma {:induction false} ConcentrationLoses(xs: seq<nat>, n: nat, s: nat)
    requires 0 < s && forall k :: 0 <= k < |xs| ==> xs[k] <= s
    ensures UNIT * (Power(n, |xs|) * Product(xs)) <= (Concentration(xs, n, s) + Noise(n, |xs|)) * Power(s, |xs|)
  {
    if xs != [] {
      var init, x := xs[..|xs| - 1], xs[|xs| - 1];
      ConcentrationLoses(init, n, s);
      var k := Concentration(init, n, s);
      FloorBounds(k * n * x, s);
      assert Concentration(xs, n, s) == k * n * x / s;
      assert Noise(n, |xs|) == n * Noise(n, |init|) + 1;
      assert Power(s, |xs|) == s * Power(s, |init|) && Power(n, |xs|) == n * Power(n, |init|);
      assert Product(xs) == Product(init) * x;
      hide Concentration, Noise, Power, Product;
      LossStep(Concentration(xs, n, s), k, n, x, s, Power(s, |init|), Power(n, |init|), Product(init),
               Noise(n, |init|));
    }
  }

  lemma {:induction false} LossStep(next: nat, k: nat, n: nat, x: nat, s: nat, ps: nat, pn: nat, product: nat, e: nat)
    requires k * n * x < (next + 1) * s && x <= s && UNIT * (pn * product) <= (k + e) * ps
    ensures UNIT * (n * pn * (product * x)) <= (next + (n * e + 1)) * (s * ps)
  {
    var nx := n * x;
    MulMono(0, n, x);
    MulMono(UNIT * (pn * product), (k + e) * ps, nx);
    assert UNIT * (pn * product) * nx == UNIT * (n * pn * (product * x)) by {
      MulAssoc(UNIT, pn * product, nx);
      Exchange(pn, product, n, x);
    }
    assert (k + e) * ps * nx == (k * nx + e * nx) * ps by { MulAssoc(k + e, ps, nx); Distribute(k, e, ps, nx); }
    assert k * nx == k * n * x by { MulAssoc(k, n, x); }
    MulMono(x, s, e * n);
    assert e * nx == x * (e * n) && s * (e * n) == n * e * s by { LossTerms(e, n, x, s); }
    assert (next + (n * e + 1)) * s == (next + 1) * s + n * e * s;
    MulMono(k * nx + e * nx, (next + (n * e + 1)) * s, ps);
    MulAssoc(next + (n * e + 1), s, ps);
  }

  lemma {:induction false} Distribute(k: int, e: int, p: int, m: int)
    ensures (k + e) * (p * m) == (k * m + e * m) * p
  {
  }

  lemma {:induction false} LossTerms(e: int, n: int, x: int, s: int)
    ensures e * (n * x) == x * (e * n) && s * (e * n) == n * e * s
  {
  }

  /** Equal balances have a concentration of exactly one unit. */
  lemma {:induction false} ConcentrationOfEqual(xs: seq<nat>, n: nat, x: nat)
    requires 0 < n * x && forall k :: 0 <= k < |xs| ==> xs[k] == x
    ensures Concentration(xs, n, n * x) == UNIT
  {
    if xs != [] {
      ConcentrationOfEqual(xs[..|xs| - 1], n, x);
      MulAssoc(UNIT, n, x);
      FloorUnique(UNIT * n * x, n * x, UNIT);
      assert (UNIT + 1) * (n * x) == UNIT * (n * x) + n * x;
    }
  }

  lemma {:induction false} SumOfEqual(xs: seq<nat>, x: nat)
    requires forall k :: 0 <= k < |xs| ==> xs[k] == x
    ensures Sum(xs) == |xs| * x
  {
    if xs != [] { SumOfEqual(xs[..|xs| - 1], x); }
  }

  /** How far the fee leans to the mid fee, out of one unit. */
  function Lean(k: int, feeGamma: nat): Result<int> {
    if feeGamma == 0 then Success(k)
    else if feeGamma + UNIT - k == 0 then Failure(ZeroDivision)
    else Success(FloorDiv(feeGamma * UNIT, feeGamma + UNIT - k))
  }

  /** f is the lean to the mid fee at concentration k: fee gamma over fee gamma and what k is
      short of one unit; without a fee gamma it is k itself. */
  ghost predicate LeansAt(f: nat, k: nat, feeGamma: nat) {
    if feeGamma == 0 then f == k else IsLean(f, k, feeGamma)
  }

  ghost predicate IsLean(f: nat, k: nat, feeGamma: nat) {
    IsQuotient(f, feeGamma * UNIT, feeGamma + UNIT - k)
  }

  /** The fee that is f parts in one unit mid fee, and out fee for the rest. */
  ghost predicate Blended(fee: int, f: nat, midFee: nat, outFee: nat) {
    IsQuotient(fee, midFee * f + outFee * (UNIT - f), UNIT)
  }

  lemma {:induction false} LeanIs(k: nat, feeGamma: nat)
    requires k <= UNIT
    ensures Lean(k, feeGamma).Success? && 0 <= Lean(k, feeGamma).value
    ensures LeansAt(Lean(k, feeGamma).value, k, feeGamma)
  {
    LeanInRange(k, feeGamma);
    if feeGamma != 0 { FloorIsQuotient(feeGamma * UNIT, feeGamma + UNIT - k); }
  }

  function Blend(f: int, midFee: int, outFee: int): int {
    (midFee * f + outFee * (UNIT - f)) / UNIT
  }

  /** The dynamic fee of a pool with any number of coins. */
  ghost function CryptoFee(xp: seq<nat>, feeGamma: nat, midFee: nat, outFee: nat, n: nat): Result<int> {
    if Sum(xp) == 0 && xp != [] then Failure(ZeroDivision)
    else
      var lean := Lean(if xp == [] then UNIT else Concentration(xp, n, Sum(xp)), feeGamma);
      if lean.Failure? then lean else Success(Blend(lean.value, midFee, outFee))
  }

  lemma {:induction false} LeanInRange(k: nat, feeGamma: nat)
    requires k <= UNIT
    ensures var f := Lean(k, feeGamma); f.Success? && 0 <= f.value <= UNIT && (k == UNIT ==> f.value == UNIT)
  {
    if feeGamma != 0 {
      var d := feeGamma + UNIT - k;
      FloorGalois(feeGamma * UNIT, d, 0);
      FloorGalois(feeGamma * UNIT, d, UNIT + 1);
      FloorGalois(feeGamma * UNIT, d, UNIT);
      MulMono(feeGamma, d, UNIT);
    }
  }

  lemma {:induction false} BlendInRange(f: int, low: nat, high: nat)
    requires 0 <= f <= UNIT && low <= high
    ensures low <= Blend(f, low, high) <= high && low <= Blend(f, high, low) <= high
    ensures f == UNIT ==> Blend(f, low, high) == low && Blend(f, high, low) == high
  {
    MulMono(low, high, f);
    MulMono(low, high, UNIT - f);
    assert low * (UNIT - f) == low * UNIT - low * f;
    assert high * (UNIT - f) == high * UNIT - high * f;
  }

  /** For every pool that holds anything, the fee lies between the mid fee and the out
      fee, whichever is larger, and it is the mid fee when the balances are equal. */
  lemma {:induction false} CryptoFeeInRange(xp: seq<nat>, feeGamma: nat, midFee: nat, outFee: nat)
    requires xp != []
    ensures var r := CryptoFee(xp, feeGamma, midFee, outFee, |xp|);
            && (r.Failure? <==> Sum(xp) == 0)
            && (r.Success? && midFee <= outFee ==> midFee <= r.value <= outFee)
            && (r.Success? && outFee <= midFee ==> outFee <= r.value <= midFee)
            && (r.Success? && (forall k :: 0 <= k < |xp| ==> xp[k] == xp[0]) ==> r.value == midFee)
  {
    if Sum(xp) != 0 {
      ConcentrationAtMostUnit(xp);
      var k := Concentration(xp, |xp|, Sum(xp));
      if forall k :: 0 <= k < |xp| ==> xp[k] == xp[0] {
        SumOfEqual(xp, xp[0]);
        ConcentrationOfEqual(xp, |xp|, xp[0]);
      }
      hide Concentration, Sum;
      LeanInRange(k, feeGamma);
      var f := Lean(k, feeGamma).value;
      if midFee <= outFee { BlendInRange(f, midFee, outFee); } else { BlendInRange(f, outFee, midFee); }
    }
  }

  method ReductionCoefficient(x: seq<nat>, feeGamma: nat, n: nat) returns (r: Result<int>)
    ensures r == if Sum(x) == 0 && x != [] then Failure(ZeroDivision)
                 else Lean(if x == [] then UNIT else Concentration(x, n, Sum(x)), feeGamma)
    ensures n == |x| != 0 ==> (r.Failure? <==> Sum(x) == 0)
    ensures n == |x| != 0 && r.Success? ==>
              0 <= r.value && exists k: nat :: IsConcentration(k, x) && LeansAt(r.value, k, feeGamma)
  {
    hide Lean, IsConcentration, LeansAt;
    var k: nat, s: nat := UNIT, 0;
    for i := 0 to |x|
      invariant s == Sum(x[..i])
    {
      assert x[..i + 1][..i] == x[..i];
      s := s + x[i];
    }
    assert x[..|x|] == x;
    for i := 0 to |x|
      invariant 0 < i ==> 0 < s
      invariant k == if i == 0 then UNIT else Concentration(x[..i], n, s)
    {
      if s == 0 { return Failure(ZeroDivision); }
      assert x[..i + 1][..i] == x[..i] && (i == 0 ==> x[..i] == []);
      assert Concentration(x[..i + 1], n, s) == Concentration(x[..i], n, s) * n * x[i] / s;
      DivMod(k * n * x[i], s);
      k := k * n * x[i] / s;
    }
    r := Lean(k, feeGamma);
    if n == |x| != 0 { CoefficientIs(x, feeGamma); }
  }

  lemma {:induction false} CoefficientIs(x: seq<nat>, feeGamma: nat)
    requires 0 < Sum(x)
    ensures var f := Lean(Concentration(x, |x|, Sum(x)), feeGamma);
            && f.Success? && 0 <= f.value
            && exists k: nat :: IsConcentration(k, x) && LeansAt(f.value, k, feeGamma)
  {
    ConcentrationIs(x);
    var k := Concentration(x, |x|, Sum(x));
    assert k <= UNIT;
    hide IsConcentration, LeansAt, Lean;
    LeanIs(k, feeGamma);
  }

  /** With as many coins as balances, the fee lies between the mid fee and the out fee, is the
      mid fee at balance, and fails for an empty pool only; it blends the two by the lean at
      the concentration of the balances. */
  method Fee(xp: seq<nat>, feeGamma: nat, midFee: nat, outFee: nat, n: nat) returns (r: Result<int>)
    ensures r == CryptoFee(xp, feeGamma, midFee, outFee, n)
    ensures n == |xp| != 0 ==> (r.Failure? <==> Sum(xp) == 0)
    ensures n == |xp| != 0 && r.Success? && midFee <= outFee ==> midFee <= r.value <= outFee
    ensures n == |xp| != 0 && r.Success? && outFee <= midFee ==> outFee <= r.value <= midFee
    ensures n == |xp| != 0 && r.Success? && (forall k :: 0 <= k < |xp| ==> xp[k] == xp[0]) ==> r.value == midFee
    ensures n == |xp| != 0 && r.Success? ==>
              exists k: nat, f: nat ::
                IsConcentration(k, xp) && LeansAt(f, k, feeGamma) && Blended(r.value, f, midFee, outFee)
  {
    hide Lean, Blend, Concentration, Sum, IsConcentration, LeansAt, Blended;
    if n == |xp| != 0 { CryptoFeeInRange(xp, feeGamma, midFee, outFee); }
    var f := ReductionCoefficient(xp, feeGamma, n);
    if f.Failure? { return f; }
    r := Success(Blend(f.value, midFee, outFee));
    BlendIs(f.value, midFee, outFee);
  }

  lemma {:induction false} BlendIs(f: int, midFee: nat, outFee: nat)
    ensures 0 <= f ==> Blended(Blend(f, midFee, outFee), f, midFee, outFee)
  {
    FloorIsQuotient(midFee * f + outFee * (UNIT - f), UNIT);
  }

  // ----- the fee of the two-coin pools, in one expression -----

  function TwoCoinConcentration(a: nat, b: nat): int
    requires a + b != 0
  {
    UNIT * 4 * a / (a + b) * b / (a + b)
  }

  /** The means of two numbers, strictly: the concentration is one unit exactly at balance. */
  lemma {:induction false} TwoCoinConcentrationRange(a: nat, b: nat)
    requires a + b != 0
    ensures 0 <= TwoCoinConcentration(a, b) <= UNIT
    ensures TwoCoinConcentration(a, b) == UNIT <==> a == b
  {
    var s, k := a + b, TwoCoinConcentration(a, b);
    TwoCoinProduct(a, b, UNIT * 4 * a, s);
    MulAssoc(UNIT, 4 * a, b);
    Binomial(a, b);
    if a == b { BalancedPair(a); }
    hide TwoCoinConcentration;
    TwoCoinSquare(k, s, 4 * a * b, (a - b) * (a - b));
    if a < b { MulStrict(0, b - a, b - a); } else if b < a { MulStrict(0, a - b, a - b); }
  }

  lemma {:induction false} TwoCoinProduct(a: nat, b: nat, top: nat, s: nat)
    requires 0 < s
    ensures var k := top / s * b / s; 0 <= k && k * s * s <= top * b
  {
    var h := top / s;
    FloorBounds(top, s);
    FloorGalois(top, s, 0);
    MulMono(0, h, b);
    FloorGalois(h * b, s, 0);
    FloorBounds(h * b, s);
    MulMono(h * b / s * s, h * b, s);
    MulMono(h * s, top, b);
    assert h * b * s == h * s * b;
  }

  /** k is four times the product of the balances over the square of their sum, in units, less
      at most two; it is at most one unit. */
  ghost predicate IsTwoCoinConcentration(k: nat, a: nat, b: nat) {
    var square := (a + b) * (a + b);
    k <= UNIT && k * square <= UNIT * (4 * (a * b)) <= (k + 2) * square
  }

  lemma {:induction false} TwoCoinConcentrationIs(a: nat, b: nat)
    requires a + b != 0
    ensures 0 <= TwoCoinConcentration(a, b) && IsTwoCoinConcentration(TwoCoinConcentration(a, b), a, b)
  {
    var s := a + b;
    TwoCoinConcentrationRange(a, b);
    TwoCoinProduct(a, b, UNIT * 4 * a, s);
    TwoCoinLoss(UNIT * 4 * a, b, s);
    assert UNIT * 4 * a * b == UNIT * (4 * (a * b));
    hide TwoCoinConcentration;
    MulAssoc(TwoCoinConcentration(a, b), s, s);
    MulAssoc(TwoCoinConcentration(a, b) + 2, s, s);
  }

  lemma {:induction false} TwoCoinLoss(top: nat, b: nat, s: nat)
    requires 0 < s && b <= s
    ensures top * b <= (top / s * b / s + 2) * s * s
  {
    var h := top / s;
    var k := h * b / s;
    FloorBounds(top, s);
    FloorBounds(h * b, s);
    MulMono(top, (h + 1) * s, b);
    assert (h + 1) * s * b == (h * b + b) * s by { Spread(h, s, b); }
    assert (k + 1) * s + s == (k + 2) * s;
    MulMono(h * b + b, (k + 2) * s, s);
  }

  lemma {:induction false} Spread(h: int, s: int, b: int)
    ensures (h + 1) * s * b == (h * b + b) * s
  {
  }

  lemma {:induction false} TwoCoinSquare(k: nat, s: nat, p: int, gap: int)
    requires 0 < s && k * s * s <= UNIT * p && s * s - p == gap && 0 <= gap
    ensures k <= UNIT && (k == UNIT ==> gap == 0)
  {
    MulStrict(0, s, s);
    assert k * s * s == k * (s * s);
    MulMono(p, s * s, UNIT);
    assert UNIT * p == p * UNIT && UNIT * (s * s) == s * s * UNIT;
    MulCancel(k, UNIT, s * s);
    if k == UNIT && p < s * s { MulStrict(p, s * s, UNIT); }
  }

  lemma {:induction false} BalancedPair(a: nat)
    requires 0 < a
    ensures TwoCoinConcentration(a, a) == UNIT
  {
    var s := a + a;
    FloorUnique(UNIT * 4 * a, s, UNIT * 2);
    assert (UNIT * 2 + 1) * s == UNIT * 4 * a + s;
    FloorUnique(UNIT * 2 * a, s, UNIT);
    assert (UNIT + 1) * s == UNIT * 2 * a + s;
  }

  function TwoCoinFee(xp0: nat, xp1: nat, feeGamma: nat, midFee: nat, outFee: nat): Result<int> {
    if xp0 + xp1 == 0 then Failure(ZeroDivision)
    else
      var divisor := feeGamma + UNIT - TwoCoinConcentration(xp0, xp1);
      if divisor == 0 then Failure(ZeroDivision)
      else Success(Blend(FloorDiv(feeGamma * UNIT, divisor), midFee, outFee))
  }

  /** The fee blends the mid and the out fee by the lean at the concentration of the balances. */
  ghost predicate TwoCoinBlended(fee: int, a: nat, b: nat, feeGamma: nat, midFee: nat, outFee: nat) {
    exists k: nat, f: nat ::
      IsTwoCoinConcentration(k, a, b) && IsLean(f, k, feeGamma) && Blended(fee, f, midFee, outFee)
  }

  lemma {:induction false} TwoCoinFeeIs(a: nat, b: nat, k: nat, feeGamma: nat, midFee: nat, outFee: nat)
    requires a + b != 0 && k == TwoCoinConcentration(a, b) && k <= UNIT
    requires feeGamma + UNIT - k != 0
    ensures TwoCoinBlended(Blend(FloorDiv(feeGamma * UNIT, feeGamma + UNIT - k), midFee, outFee), a, b, feeGamma,
                           midFee, outFee)
  {
    TwoCoinConcentrationIs(a, b);
    var d := feeGamma + UNIT - k;
    hide IsQuotient, Blended, TwoCoinConcentration, Blend, IsTwoCoinConcentration;
    FloorGalois(feeGamma * UNIT, d, 0);
    FloorIsQuotient(feeGamma * UNIT, d);
    var f: nat := FloorDiv(feeGamma * UNIT, d);
    hide FloorDiv;
    BlendIs(f, midFee, outFee);
  }

  /** The two-coin fee divides by zero exactly for an empty pool, or for a balanced one
      without a fee gamma; otherwise it stays between the two fees. */
  lemma {:induction false} TwoCoinFeeInRange(xp0: nat, xp1: nat, feeGamma: nat, midFee: nat, outFee: nat)
    ensures var r := TwoCoinFee(xp0, xp1, feeGamma, midFee, outFee);
            && (r.Failure? <==> xp0 + xp1 == 0 || (feeGamma == 0 && xp0 == xp1))
            && (r.Success? && midFee <= outFee ==> midFee <= r.value <= outFee)
            && (r.Success? && outFee <= midFee ==> outFee <= r.value <= midFee)
            && (r.Success? && xp0 == xp1 ==> r.value == midFee)
            && (r.Success? && feeGamma == 0 ==> r.value == outFee)
            && (r.Success? ==> TwoCoinBlended(r.value, xp0, xp1, feeGamma, midFee, outFee))
  {
    if xp0 + xp1 != 0 {
      TwoCoinConcentrationRange(xp0, xp1);
      hide TwoCoinConcentration, Blend;
      var k := TwoCoinConcentration(xp0, xp1);
      if feeGamma + UNIT - k != 0 {
        FeeOfConcentration(k, feeGamma, midFee, outFee);
        TwoCoinFeeIs(xp0, xp1, k, feeGamma, midFee, outFee);
      }
    }
  }

  lemma {:induction false} FeeOfConcentration(k: nat, feeGamma: nat, midFee: nat, outFee: nat)
    requires k <= UNIT && feeGamma + UNIT - k != 0
    ensures var r := Blend(FloorDiv(feeGamma * UNIT, feeGamma + UNIT - k), midFee, outFee);
            && (midFee <= outFee ==> midFee <= r <= outFee)
            && (outFee <= midFee ==> outFee <= r <= midFee)
            && (k == UNIT ==> r == midFee)
            && (feeGamma == 0 ==> r == outFee)
  {
    if feeGamma == 0 {
      BlendOfNothing(UNIT - k, midFee, outFee);
    } else {
      LeanInRange(k, feeGamma);
      hide Blend, FloorDiv;
      var f := FloorDiv(feeGamma * UNIT, feeGamma + UNIT - k);
      if midFee <= outFee { BlendInRange(f, midFee, outFee); } else { BlendInRange(f, outFee, midFee); }
    }
  }

  lemma {:induction false} BlendOfNothing(d: nat, midFee: nat, outFee: nat)
    requires 0 < d
    ensures Blend(FloorDiv(0 * UNIT, d), midFee, outFee) == outFee
  {
    FloorUnique(0, d, 0);
    FloorUnique(outFee * UNIT, UNIT, outFee);
  }
}
