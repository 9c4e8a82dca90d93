/** The constant-product formula, chains of pools, and the input that earns most. */
module Formula {
  import opened Arithmetic

  /** A pool seen from one side: the fee takes s parts of every n that come in. */
  datatype Hop = Hop(n: nat, s: nat, reserveIn: nat, reserveOut: nat)

  ghost predicate Priced(h: Hop) {
    h.s < h.n
  }

  // ----- one pool -----

  function OptimalAmountOut(amountIn: int, n: nat, s: nat, reserveIn: nat, reserveOut: nat): int {
    var d := n * (reserveIn + amountIn) - s * amountIn;
    if d == 0 then 0 else reserveOut - FloorDiv(reserveIn * reserveOut * n, d)
  }

  /** The same quotient rounded down instead, as the pools themselves pay out. */
  function FloorAmountOut(amountIn: nat, n: nat, s: nat, reserveIn: nat, reserveOut: nat): int
    requires s <= n
  {
    var d := n * reserveIn + (n - s) * amountIn;
    if d == 0 then 0 else (n - s) * amountIn * reserveOut / d
  }

  lemma {:induction false} DivisorSplit(x: int, n: int, s: int, r: int)
    ensures n * (r + x) - s * x == n * r + (n - s) * x
  {
  }

  /** Taking the rounded-down remainder from the reserve is rounding the output up:
      the formula is the ceiling of the quotient whose floor the pools pay, so the two
      differ by at most one and agree exactly when the division is exact. */
  lemma {:induction false} OptimalIsCeiling(x: nat, n: nat, s: nat, rin: nat, rout: nat)
    requires s <= n
    ensures var d := n * rin + (n - s) * x; var top := (n - s) * x * rout;
            var up, down := OptimalAmountOut(x, n, s, rin, rout), FloorAmountOut(x, n, s, rin, rout);
            && 0 <= top && 0 <= d
            && (d == 0 ==> up == 0 && down == 0)
            && (0 < d ==> up == CeilDiv(top, d) && down == top / d)
            && down <= up <= down + 1
            && 0 <= up <= rout
            && (up == down <==> d == 0 || top % d == 0)
  {
    var m := n - s;
    MulMono(0, m, x);
    MulMono(0, n, rin);
    MulMono(0, m * x, rout);
    DivisorSplit(x, n, s, rin);
    var d, top := n * rin + m * x, m * x * rout;
    if 0 < d { CeilingOfRest(rin * rout * n, d, top, rout, n * rin, m * x); }
  }

  lemma {:induction false} CeilingOfRest(kept: int, d: nat, top: nat, rout: nat, a: nat, b: nat)
    requires 0 < d == a + b && kept == a * rout && top == b * rout
    ensures rout - kept / d == CeilDiv(top, d) && 0 <= kept / d
  {
    FloorBounds(kept, d);
    MulMono(0, a, rout);
    FloorGalois(kept, d, 0);
    var up := rout - kept / d;
    assert rout * d == kept + top;
    assert up * d == rout * d - kept / d * d;
    assert (up - 1) * d == up * d - d;
    CeilUnique(top, d, up);
  }

  lemma {:induction false} CeilUnique(a: nat, d: nat, q: int)
    requires 0 < d && (q - 1) * d < a <= q * d
    ensures CeilDiv(a, d) == q
  {
    FloorGalois(a, d, q);
    if a % d == 0 {
      DivMod(a, d);
      MulCancelStrict(q - 1, a / d, d);
      MulCancel(a / d, q, d);
    } else {
      DivMod(a, d);
      MulCancelStrict(a / d, q, d);
      MulCancelStrict(q - 1, a / d + 1, d);
    }
  }

  // ----- a chain of pools -----

  ghost predicate AllPriced(hops: seq<Hop>) {
    forall k :: 0 <= k < |hops| ==> Priced(hops[k])
  }

  function MultiHopAmountOut(amountIn: int, hops: seq<Hop>): int {
    if hops == [] then amountIn
    else
      var h := hops[|hops| - 1];
      OptimalAmountOut(MultiHopAmountOut(amountIn, hops[..|hops| - 1]), h.n, h.s, h.reserveIn, h.reserveOut)
  }

  method GetMultiHopAmountOut(amountIn: int, data: seq<Hop>) returns (r: int)
    ensures r == MultiHopAmountOut(amountIn, data)
  {
    r := amountIn;
    for i := 0 to |data|
      invariant r == MultiHopAmountOut(amountIn, data[..i])
    {
      assert data[..i + 1][..i] == data[..i];
      r := OptimalAmountOut(r, data[i].n, data[i].s, data[i].reserveIn, data[i].reserveOut);
    }
    assert data[..|data|] == data;
  }

  /** The chain as the pools pay it, rounding down at each hop. */
  ghost function FloorChain(amountIn: nat, hops: seq<Hop>): nat
    requires AllPriced(hops)
  {
    if hops == [] then amountIn
    else
      var h, x := hops[|hops| - 1], FloorChain(amountIn, hops[..|hops| - 1]);
      OptimalIsCeiling(x, h.n, h.s, h.reserveIn, h.reserveOut);
      FloorIsNat(x, h.n, h.s, h.reserveIn, h.reserveOut);
      FloorAmountOut(x, h.n, h.s, h.reserveIn, h.reserveOut)
  }

  lemma {:induction false} FloorIsNat(x: nat, n: nat, s: nat, rin: nat, rout: nat)
    requires s <= n
    ensures 0 <= FloorAmountOut(x, n, s, rin, rout)
  {
    MulMono(0, n - s, x);
    MulMono(0, n, rin);
    MulMono(0, (n - s) * x, rout);
    var d := n * rin + (n - s) * x;
    if 0 < d { FloorGalois((n - s) * x * rout, d, 0); }
  }

  /** The exact chain is x -> a * x / (b + k * x). */
  datatype Moebius = Moebius(a: nat, b: nat, k: nat)

  /** The coefficients after one more pool. */
  ghost function Then(f: Moebius, h: Hop): Moebius
    requires Priced(h)
  {
    var m := h.n - h.s;
    MulMono(0, m * h.reserveOut, f.a);
    MulMono(0, m, h.reserveOut);
    MulMono(0, h.n, h.reserveIn);
    MulMono(0, h.n * h.reserveIn, f.b);
    MulMono(0, h.n * h.reserveIn, f.k);
    MulMono(0, m, f.a);
    Moebius(m * h.reserveOut * f.a, h.n * h.reserveIn * f.b, h.n * h.reserveIn * f.k + m * f.a)
  }

  ghost function ClosedForm(hops: seq<Hop>): Moebius
    requires AllPriced(hops)
  {
    if hops == [] then Moebius(1, 1, 0) else Then(ClosedForm(hops[..|hops| - 1]), hops[|hops| - 1])
  }

  /** For every chain of priced pools the coded chain is at least the exact closed form,
      and the chain that rounds down is at most it. */
  lemma {:induction false} ClosedFormBetweenChains(x: nat, hops: seq<Hop>)
    requires AllPriced(hops)
    ensures var f := ClosedForm(hops);
            && 0 <= MultiHopAmountOut(x, hops)
            && FloorChain(x, hops) * (f.b + f.k * x) <= f.a * x <= MultiHopAmountOut(x, hops) * (f.b + f.k * x)
  {
    if hops != [] {
      var init, h := hops[..|hops| - 1], hops[|hops| - 1];
      ClosedFormBetweenChains(x, init);
      var f, y, z := ClosedForm(init), MultiHopAmountOut(x, init), FloorChain(x, init);
      hide MultiHopAmountOut, FloorChain, ClosedForm;
      OptimalIsCeiling(y, h.n, h.s, h.reserveIn, h.reserveOut);
      OptimalIsCeiling(z, h.n, h.s, h.reserveIn, h.reserveOut);
      HopBounds(y, h);
      HopBounds(z, h);
      var up := OptimalAmountOut(y, h.n, h.s, h.reserveIn, h.reserveOut);
      var down := FloorAmountOut(z, h.n, h.s, h.reserveIn, h.reserveOut);
      FloorIsNat(z, h.n, h.s, h.reserveIn, h.reserveOut);
      ChainUp(f, h, x, y, up);
      ChainDown(f, h, x, z, down);
    }
  }

  /** The two roundings of one hop, cross-multiplied. */
  lemma {:induction false} HopBounds(x: nat, h: Hop)
    requires Priced(h)
    ensures var m := h.n - h.s;
            var up := OptimalAmountOut(x, h.n, h.s, h.reserveIn, h.reserveOut);
            var down := FloorAmountOut(x, h.n, h.s, h.reserveIn, h.reserveOut);
            && down * (h.n * h.reserveIn) <= m * x * (h.reserveOut - down)
            && m * x * (h.reserveOut - up) <= up * (h.n * h.reserveIn)
  {
    var m := h.n - h.s;
    MulMono(0, m, x);
    MulMono(0, h.n, h.reserveIn);
    MulMono(0, m * x, h.reserveOut);
    var a, b, rout := h.n * h.reserveIn, m * x, h.reserveOut;
    var up := OptimalAmountOut(x, h.n, h.s, h.reserveIn, h.reserveOut);
    var down := FloorAmountOut(x, h.n, h.s, h.reserveIn, h.reserveOut);
    OptimalIsCeiling(x, h.n, h.s, h.reserveIn, h.reserveOut);
    if 0 < a + b {
      CeilBounds(b * rout, a + b);
      FloorBounds(b * rout, a + b);
    }
    CrossTerms(down, a, b, rout);
    CrossTerms(up, a, b, rout);
  }

  lemma {:induction false} CrossTerms(o: int, a: int, b: int, rout: int)
    ensures o * (a + b) <= b * rout <==> o * a <= b * (rout - o)
    ensures b * rout <= o * (a + b) <==> b * (rout - o) <= o * a
  {
    assert o * (a + b) == o * a + b * o;
  }

  lemma {:induction false} ChainUp(f: Moebius, h: Hop, x: nat, y: nat, up: int)
    requires Priced(h) && 0 <= up <= h.reserveOut
    requires f.a * x <= y * (f.b + f.k * x)
    requires (h.n - h.s) * y * (h.reserveOut - up) <= up * (h.n * h.reserveIn)
    ensures var g := Then(f, h); g.a * x <= up * (g.b + g.k * x)
  {
    var m, d, ax, nr := h.n - h.s, f.b + f.k * x, f.a * x, h.n * h.reserveIn;
    var rest := h.reserveOut - up;
    MulMono(0, f.k, x);
    MulMono(0, m, rest);
    MulMono(ax, y * d, m * rest);
    MulMono(m * y * rest, up * nr, d);
    assert y * d * (m * rest) == m * y * rest * d by { Shuffle(y, d, m, rest); }
    assert ax * (m * rest) <= up * nr * d;
    ThenTerms(f, h, x, up);
  }

  lemma {:induction false} ChainDown(f: Moebius, h: Hop, x: nat, z: nat, down: int)
    requires Priced(h) && 0 <= down <= h.reserveOut
    requires z * (f.b + f.k * x) <= f.a * x
    requires down * (h.n * h.reserveIn) <= (h.n - h.s) * z * (h.reserveOut - down)
    ensures var g := Then(f, h); down * (g.b + g.k * x) <= g.a * x
  {
    var m, d, ax, nr := h.n - h.s, f.b + f.k * x, f.a * x, h.n * h.reserveIn;
    var rest := h.reserveOut - down;
    MulMono(0, f.k, x);
    MulMono(0, m, rest);
    MulMono(z * d, ax, m * rest);
    MulMono(down * nr, m * z * rest, d);
    assert z * d * (m * rest) == m * z * rest * d by { Shuffle(z, d, m, rest); }
    assert down * nr * d <= ax * (m * rest);
    ThenTerms(f, h, x, down);
  }

  lemma {:induction false} Shuffle(y: int, d: int, m: int, r: int)
    ensures y * d * (m * r) == m * y * r * d
  {
    assert y * d * (m * r) == y * m * (d * r);
    assert m * y * r * d == m * y * (r * d);
  }

  lemma {:induction false} ThenTerms(f: Moebius, h: Hop, x: nat, o: int)
    requires Priced(h)
    ensures Then(f, h).b * o + Then(f, h).k * x * o - Then(f, h).a * x
         == o * (h.n * h.reserveIn) * (f.b + f.k * x) - f.a * x * ((h.n - h.s) * (h.reserveOut - o))
  {
    var m, nr := h.n - h.s, h.n * h.reserveIn;
    ThenExpansion(f.a, f.b, f.k, nr, m, h.reserveOut, x, o);
  }

  lemma {:induction false} ThenExpansion(a: int, b: int, k: int, nr: int, m: int, rout: int, x: int, o: int)
    ensures o * (nr * b + (nr * k + m * a) * x) - m * rout * a * x == o * nr * (b + k * x) - a * x * (m * (rout - o))
  {
    var kx, ax := k * x, a * x;
    assert (nr * k + m * a) * x == nr * kx + m * ax;
    assert m * rout * a * x == m * rout * ax;
    assert o * (nr * b + nr * kx + m * ax) == o * nr * b + o * nr * kx + o * m * ax;
    assert ax * (m * (rout - o)) == m * rout * ax - o * m * ax;
  }

  // ----- the input that earns most -----

  ghost predicate Trading(hops: seq<Hop>) {
    forall k :: 0 <= k < |hops| ==> Priced(hops[k]) && 0 < hops[k].reserveIn && 0 < hops[k].reserveOut
  }

  /** One pool without rounding. */
  ghost function ExactHop(y: real, h: Hop): (r: real)
    requires Priced(h) && 0 < h.reserveIn && 0.0 <= y
    ensures 0.0 <= r
    ensures var m, nr := (h.n - h.s) as real, h.n as real * h.reserveIn as real;
            0.0 < nr + m * y && r * (nr + m * y) == m * h.reserveOut as real * y
  {
    var m, nr := (h.n - h.s) as real, h.n as real * h.reserveIn as real;
    RealMulPositive(h.n as real, h.reserveIn as real);
    RealNonNegative(m, y);
    RealNonNegative(m, h.reserveOut as real);
    RealNonNegative(m * h.reserveOut as real, y);
    RealRatio(m * h.reserveOut as real * y, nr + m * y);
    m * h.reserveOut as real * y / (nr + m * y)
  }

  /** The chain without rounding. */
  ghost function ExactOut(x: real, hops: seq<Hop>): (r: real)
    requires 0.0 <= x && Trading(hops)
    ensures 0.0 <= r
  {
    if hops == [] then x else ExactHop(ExactOut(x, hops[..|hops| - 1]), hops[|hops| - 1])
  }

  /** The steepest a pool gets: what the first unit of input brings, not rounded. */
  ghost function Steepness(h: Hop): (r: real)
    requires Priced(h) && 0 < h.reserveIn
    ensures 0.0 <= r
  {
    RealMulPositive(h.n as real, h.reserveIn as real);
    RealNonNegative((h.n - h.s) as real, h.reserveOut as real);
    RealRatio((h.n - h.s) as real * h.reserveOut as real, h.n as real * h.reserveIn as real);
    (h.n - h.s) as real * h.reserveOut as real / (h.n as real * h.reserveIn as real)
  }

  /** What rounding at every pool can add up to: one unit each, carried through the rest. */
  ghost function Carried(hops: seq<Hop>): (r: real)
    requires Trading(hops)
    ensures 0.0 <= r
  {
    if hops == [] then 0.0 else CarriedOn(Carried(hops[..|hops| - 1]), hops[|hops| - 1])
  }

  /** What was carried up to a pool, through it, and one unit more. */
  ghost function CarriedOn(c: real, h: Hop): (r: real)
    requires Priced(h) && 0 < h.reserveIn && 0.0 <= c
    ensures 0.0 <= r
  {
    RealNonNegative(c, Steepness(h));
    c * Steepness(h) + 1.0
  }

  /** up is at most c above, and down at most c below. */
  ghost predicate Encloses(down: int, exact: real, up: int, c: real) {
    exact <= up as real <= exact + c && exact - c <= down as real <= exact
  }

  /** The coded chain is at most the carried roundings above the chain without rounding, and
      the chain that rounds down at most as much below it. */
  lemma {:induction false} ChainsNearExact(x: nat, hops: seq<Hop>)
    requires Trading(hops)
    ensures AllPriced(hops)
    ensures Encloses(FloorChain(x, hops), ExactOut(x as real, hops), MultiHopAmountOut(x, hops), Carried(hops))
  {
    if hops != [] {
      hide MultiHopAmountOut, FloorChain, ExactOut, Carried, ExactHop, Steepness, OptimalAmountOut, FloorAmountOut;
      hide Encloses, CarriedOn;
      var init, h := hops[..|hops| - 1], hops[|hops| - 1];
      ChainsNearExact(x, init);
      ChainSnoc(x, hops);
      HopEncloses(FloorChain(x, init), ExactOut(x as real, init), MultiHopAmountOut(x, init), Carried(init), h);
    }
  }

  lemma {:induction false} HopEncloses(z: nat, exact: real, y: int, c: real, h: Hop)
    requires Priced(h) && 0 < h.reserveIn && 0.0 <= exact && 0.0 <= c && Encloses(z, exact, y, c)
    ensures 0 <= y
    ensures Encloses(FloorAmountOut(z, h.n, h.s, h.reserveIn, h.reserveOut), ExactHop(exact, h),
                     OptimalAmountOut(y, h.n, h.s, h.reserveIn, h.reserveOut), CarriedOn(c, h))
  {
    assert 0 <= y;
    hide ExactHop, Steepness, OptimalAmountOut, FloorAmountOut, CarriedOn;
    HopRounded(y, h);
    HopRounded(z, h);
    NotFurther(exact, y as real, c, h);
    NotFurther(z as real, exact, c, h);
  }

  lemma {:induction false} NotFurther(y: real, z: real, c: real, h: Hop)
    requires Priced(h) && 0 < h.reserveIn && 0.0 <= y <= z <= y + c
    ensures ExactHop(y, h) <= ExactHop(z, h) && ExactHop(z, h) + 1.0 <= ExactHop(y, h) + CarriedOn(c, h)
  {
    hide ExactHop, Steepness;
    HopSpread(y, z, h);
    RealMono(z - y, c, Steepness(h));
  }

  lemma {:induction false} ChainSnoc(x: nat, hops: seq<Hop>)
    requires Trading(hops) && hops != [] && AllPriced(hops)
    ensures var init, h := hops[..|hops| - 1], hops[|hops| - 1];
            && Trading(init) && AllPriced(init)
            && MultiHopAmountOut(x, hops)
                 == OptimalAmountOut(MultiHopAmountOut(x, init), h.n, h.s, h.reserveIn, h.reserveOut)
            && h.s <= h.n
            && FloorChain(x, hops) == FloorAmountOut(FloorChain(x, init), h.n, h.s, h.reserveIn, h.reserveOut)
            && ExactOut(x as real, hops) == ExactHop(ExactOut(x as real, init), h)
            && Carried(hops) == CarriedOn(Carried(init), h)
  {
  }

  /** The two roundings of one pool, against the pool without rounding. */
  lemma {:induction false} HopRounded(y: int, h: Hop)
    requires Priced(h) && 0 < h.reserveIn && 0 <= y
    ensures var up := OptimalAmountOut(y, h.n, h.s, h.reserveIn, h.reserveOut) as real;
            var down := FloorAmountOut(y, h.n, h.s, h.reserveIn, h.reserveOut) as real;
            var exact := ExactHop(y as real, h);
            exact <= up <= exact + 1.0 && exact - 1.0 <= down <= exact
  {
    var m := h.n - h.s;
    var d, top := h.n * h.reserveIn + m * y, m * y * h.reserveOut;
    OptimalIsCeiling(y, h.n, h.s, h.reserveIn, h.reserveOut);
    MulPositive(h.n, h.reserveIn);
    MulMono(0, m, y);
    CeilBounds(top, d);
    FloorBounds(top, d);
    CastMul(h.n, h.reserveIn);
    CastMul(m, y);
    CastMul(m * y, h.reserveOut);
    var up: nat, down := CeilDiv(top, d), top / d;
    assert OptimalAmountOut(y, h.n, h.s, h.reserveIn, h.reserveOut) == up;
    assert FloorAmountOut(y, h.n, h.s, h.reserveIn, h.reserveOut) == down;
    var exact := ExactHop(y as real, h);
    assert exact * d as real == top as real;
    hide ExactHop, OptimalAmountOut, FloorAmountOut, CeilDiv;
    QuotientsNear(top, d, up, down, exact);
  }

  lemma {:induction false} QuotientsNear(top: int, d: int, up: int, down: int, exact: real)
    requires 0 < d && exact * d as real == top as real
    requires top <= up * d && (up == 0 || (up - 1) * d <= top) && down * d <= top <= (down + 1) * d && 0 <= top
    ensures exact <= up as real <= exact + 1.0 && exact - 1.0 <= down as real <= exact
  {
    RealCancel(0.0, exact, d as real);
    BelowQuotient(top, d, down, exact);
    BelowQuotient(top, d, up - 1, exact);
    AboveQuotient(top, d, up, exact);
    AboveQuotient(top, d, down + 1, exact);
  }

  lemma {:induction false} BelowQuotient(top: int, d: int, q: int, exact: real)
    requires 0 < d && exact * d as real == top as real
    ensures q * d <= top ==> q as real <= exact
  {
    if q * d <= top {
      CastMul(q, d);
      RealCancel(q as real, exact, d as real);
    }
  }

  lemma {:induction false} AboveQuotient(top: int, d: int, q: int, exact: real)
    requires 0 < d && exact * d as real == top as real
    ensures top <= q * d ==> exact <= q as real
  {
    if top <= q * d {
      CastMul(q, d);
      RealCancel(exact, q as real, d as real);
    }
  }

  /** A pool without rounding rises, by no more than its steepness. */
  lemma {:induction false} HopSpread(y: real, z: real, h: Hop)
    requires Priced(h) && 0 < h.reserveIn && 0.0 <= y <= z
    ensures 0.0 <= ExactHop(z, h) - ExactHop(y, h) <= Steepness(h) * (z - y)
  {
    var m, nr, o := (h.n - h.s) as real, h.n as real * h.reserveIn as real, h.reserveOut as real;
    RealMulPositive(h.n as real, h.reserveIn as real);
    RealRatio(m * o, nr);
    var p, q, t := ExactHop(y, h), ExactHop(z, h), Steepness(h);
    assert t * nr == m * o;
    hide ExactHop, Steepness;
    RealMono(y, z, m);
    RealNonNegative(m, y);
    SpreadOf(p, q, nr, m * y, m * z, o);
    assert m * z - m * y == m * (z - y);
    Steepest(q - p, t, nr, m, o, z - y);
  }

  lemma {:induction false} SpreadOf(p: real, q: real, nr: real, a: real, b: real, o: real)
    requires 0.0 < nr && 0.0 <= a <= b && 0.0 <= o && 0.0 <= p && p * (nr + a) == a * o && q * (nr + b) == b * o
    ensures 0.0 <= q - p && (q - p) * nr <= (b - a) * o
  {
    RealNonNegative(p, nr);
    assert p * a <= o * a;
    if o < p {
      RealMonoStrict(o, p, nr + a);
      RealNonNegative(o, nr);
    }
    assert (q - p) * (nr + b) == (b - a) * (o - p);
    RealNonNegative(b - a, o - p);
    RealCancel(0.0, q - p, nr + b);
    RealMono(nr, nr + b, q - p);
    RealMono(o - p, o, b - a);
  }

  lemma {:induction false} Steepest(rise: real, t: real, nr: real, m: real, o: real, way: real)
    requires 0.0 < nr && 0.0 <= way && t * nr == m * o && rise * nr <= m * way * o
    ensures rise <= t * way
  {
    assert nr * (t * way) == t * nr * way && m * way * o == m * o * way;
    assert nr * rise == rise * nr;
    RealCancel(rise, t * way, nr);
  }

  /** y is the height of the curve x -> a * x / (b + k * x). */
  ghost predicate OnCurve(f: Moebius, x: real, y: real) {
    0.0 < f.b as real + f.k as real * x && y * (f.b as real + f.k as real * x) == f.a as real * x
  }

  ghost predicate Proper(f: Moebius) {
    0 < f.a && 0 < f.b
  }

  /** The closed form is the chain without rounding. */
  lemma {:induction false} ExactIsClosedForm(x: real, hops: seq<Hop>)
    requires 0.0 <= x && Trading(hops)
    ensures AllPriced(hops) && Proper(ClosedForm(hops)) && (hops != [] ==> 0 < ClosedForm(hops).k)
    ensures OnCurve(ClosedForm(hops), x, ExactOut(x, hops))
  {
    if hops != [] {
      var init, h := hops[..|hops| - 1], hops[|hops| - 1];
      ExactIsClosedForm(x, init);
      HopOnCurve(ClosedForm(init), h, x, ExactOut(x, init));
    }
  }

  lemma {:induction false} HopOnCurve(f: Moebius, h: Hop, x: real, y: real)
    requires Priced(h) && 0 < h.reserveIn && 0 < h.reserveOut && 0.0 <= x && 0.0 <= y
    requires Proper(f) && OnCurve(f, x, y)
    ensures Proper(Then(f, h)) && 0 < Then(f, h).k && OnCurve(Then(f, h), x, ExactHop(y, h))
  {
    ThenReals(f, h);
    ThenProper(f, h);
    MulPositive(h.n, h.reserveIn);
    hide Then, OnCurve, Follows, ExactHop;
    ExactStep(f, Then(f, h), (h.n * h.reserveIn) as real, (h.n - h.s) as real, h.reserveOut as real,
              x, y, ExactHop(y, h));
  }

  /** g continues f through a pool with the given reserves and fee. */
  ghost predicate Follows(f: Moebius, g: Moebius, nr: real, m: real, rout: real) {
    && g.a as real == m * rout * f.a as real
    && g.b as real == nr * f.b as real
    && g.k as real == nr * f.k as real + m * f.a as real
  }

  lemma {:induction false} ThenProper(f: Moebius, h: Hop)
    requires Priced(h) && 0 < h.reserveIn && 0 < h.reserveOut && Proper(f)
    ensures Proper(Then(f, h)) && 0 < Then(f, h).k
  {
    var m, nr := h.n - h.s, h.n * h.reserveIn;
    MulPositive(h.n, h.reserveIn);
    MulPositive(nr, f.b);
    MulPositive(m, f.a);
    MulPositive(m, h.reserveOut);
    MulPositive(m * h.reserveOut, f.a);
    MulMono(0, nr, f.k);
  }

  lemma {:induction false} ThenReals(f: Moebius, h: Hop)
    requires Priced(h)
    ensures Follows(f, Then(f, h), (h.n * h.reserveIn) as real, (h.n - h.s) as real, h.reserveOut as real)
    ensures (h.n * h.reserveIn) as real == h.n as real * h.reserveIn as real
  {
    var m, nr := h.n - h.s, h.n * h.reserveIn;
    CastMul(m, h.reserveOut);
    CastMul(m * h.reserveOut, f.a);
    CastMul(nr, f.b);
    CastMul(nr, f.k);
    CastMul(m, f.a);
    CastMul(h.n, h.reserveIn);
  }

  lemma {:induction false} ExactStep(f: Moebius, g: Moebius, nr: real, m: real, rout: real, x: real, y: real, o: real)
    requires 0.0 <= x && Proper(f) && 0.0 < nr && 0.0 < m && Follows(f, g, nr, m, rout)
    requires OnCurve(f, x, y) && o * (nr + m * y) == m * rout * y
    ensures OnCurve(g, x, o)
  {
    var a, b, k, ga, gb, gk := f.a as real, f.b as real, f.k as real, g.a as real, g.b as real, g.k as real;
    var d, ax := b + k * x, a * x;
    RealMulPositive(nr, b);
    RealNonNegative(nr, k);
    RealMulPositive(m, a);
    RealNonNegative(gk, x);
    assert gb + gk * x == (nr + m * y) * d by {
      assert (nr + m * y) * d == nr * d + m * (y * d);
      assert nr * d == nr * b + nr * k * x;
      assert m * ax == m * a * x;
      assert gk * x == nr * k * x + m * a * x;
    }
    assert o * ((nr + m * y) * d) == o * (nr + m * y) * d;
    assert m * rout * y * d == m * rout * (y * d);
    assert m * rout * ax == ga * x;
  }

  ghost function Profit(x: real, hops: seq<Hop>): real
    requires 0.0 <= x && Trading(hops)
  {
    ExactOut(x, hops) - x
  }

  /** No input earns more. */
  ghost predicate Best(x: real, hops: seq<Hop>)
    requires 0.0 <= x && Trading(hops)
  {
    forall z: real :: 0.0 <= z ==> Profit(z, hops) <= Profit(x, hops)
  }

  /** A root of the quadratic k^2 x^2 + 2 b k x + (b^2 - a b). */
  ghost predicate IsPeak(f: Moebius, root: real) {
    var a, b, k := f.a as real, f.b as real, f.k as real;
    k * k * root * root + 2.0 * b * k * root + (b * b - a * b) == 0.0
  }

  /** The divisor of the curve at x. */
  ghost function Divisor(f: Moebius, x: real): real {
    f.b as real + f.k as real * x
  }

  /** An input earns the most exactly when it is a root of the quadratic, or is nothing at
      all while the closed form does not start out steeper than one. */
  lemma {:induction false} BestInput(x: real, hops: seq<Hop>)
    requires Trading(hops) && hops != [] && AllPriced(hops) && 0.0 <= x
    ensures Best(x, hops) <==>
            IsPeak(ClosedForm(hops), x) || (x == 0.0 && ClosedForm(hops).a <= ClosedForm(hops).b)
  {
    var f := ClosedForm(hops);
    ExactIsClosedForm(x, hops);
    hide ClosedForm, ExactOut, Trading, AllPriced, IsPeak, OnCurve, Top, Further, Divisor;
    TopIsPeak(f, x);
    if Top(f.a as real, f.b as real, Divisor(f, x)) {
      forall z: real | 0.0 <= z ensures Profit(z, hops) <= Profit(x, hops) {
        ExactIsClosedForm(z, hops);
        CurveOrder(f, x, z, ExactOut(x, hops), ExactOut(z, hops));
        TopOrders(f, x, z);
      }
    } else {
      var z := SomeHigher(f, x);
      ExactIsClosedForm(z, hops);
      CurveOrder(f, x, z, ExactOut(x, hops), ExactOut(z, hops));
      assert Profit(x, hops) < Profit(z, hops);
    }
  }

  /** The divisor at which the curve is furthest above the diagonal. */
  ghost predicate Top(a: real, b: real, u: real) {
    u * u == a * b || (u == b && a <= b)
  }

  lemma {:induction false} TopIsPeak(f: Moebius, x: real)
    requires Proper(f) && 0 < f.k && 0.0 <= x
    ensures Top(f.a as real, f.b as real, Divisor(f, x)) <==> IsPeak(f, x) || (x == 0.0 && f.a <= f.b)
  {
    PeakSquare(f.a as real, f.b as real, f.k as real, x);
    NoZeroDivisors(x, f.k as real);
  }

  lemma {:induction false} PeakSquare(a: real, b: real, k: real, x: real)
    ensures (b + k * x) * (b + k * x) == a * b <==> k * k * x * x + 2.0 * b * k * x + (b * b - a * b) == 0.0
  {
    assert (k * x) * (k * x) == k * k * x * x;
  }

  /** Of two points of the curve, given by their divisors, the first is as far above the
      diagonal. */
  ghost predicate Further(a: real, b: real, u: real, v: real) {
    0.0 <= (v - u) * (u * v - a * b)
  }

  lemma {:induction false} CurveOrder(f: Moebius, x: real, z: real, atX: real, atZ: real)
    requires Proper(f) && 0 < f.k && OnCurve(f, x, atX) && OnCurve(f, z, atZ)
    ensures atZ - z <= atX - x <==> Further(f.a as real, f.b as real, Divisor(f, x), Divisor(f, z))
  {
    hide Further, OnCurve, Divisor;
    var p := Height(f, x, atX);
    var q := Height(f, z, atZ);
    HeightOrder(f.a as real, f.b as real, Divisor(f, x), Divisor(f, z), p, q);
    ValueOrder(f.k as real, atX - x, atZ - z, f.a as real + f.b as real, p + Divisor(f, x), q + Divisor(f, z));
  }

  /** Times k, a point's height above the diagonal is a + b less p and its divisor. */
  lemma {:induction false} Height(f: Moebius, x: real, y: real) returns (p: real)
    requires OnCurve(f, x, y)
    ensures 0.0 < Divisor(f, x) && p * Divisor(f, x) == f.a as real * f.b as real
    ensures f.k as real * (y - x) == f.a as real + f.b as real - (p + Divisor(f, x))
  {
    p := f.a as real * f.b as real / Divisor(f, x);
    RealRatio(f.a as real * f.b as real, Divisor(f, x));
    CurveValue(f.a as real, f.b as real, f.k as real, x, Divisor(f, x), y, p);
  }

  lemma {:induction false} CurveValue(a: real, b: real, k: real, x: real, u: real, y: real, p: real)
    requires 0.0 < u == b + k * x && y * u == a * x && p * u == a * b
    ensures k * (y - x) == a + b - (p + u)
  {
    assert (k * y - (a - p)) * u == 0.0 by {
      assert k * y * u == k * (a * x);
      assert (a - p) * u == a * (b + k * x) - a * b;
    }
    NoZeroDivisors(k * y - (a - p), u);
  }

  lemma {:induction false} ValueOrder(k: real, x: real, z: real, top: real, p: real, q: real)
    requires 0.0 < k && k * x == top - p && k * z == top - q
    ensures z <= x <==> p <= q
  {
    if z <= x { RealMono(z, x, k); }
    if p <= q { RealCancel(z, x, k); }
  }

  lemma {:induction false} HeightOrder(a: real, b: real, u: real, v: real, p: real, q: real)
    requires 0.0 < u && 0.0 < v && p * u == a * b && q * v == a * b
    ensures p + u <= q + v <==> Further(a, b, u, v)
  {
    RealMulPositive(u, v);
    GapTimes(a * b, u, v, p, q);
    SignOfProduct(q + v - (p + u), u * v);
  }

  lemma {:induction false} GapTimes(ab: real, u: real, v: real, p: real, q: real)
    requires p * u == ab && q * v == ab
    ensures (q + v - (p + u)) * (u * v) == (v - u) * (u * v - ab)
  {
    assert q * (u * v) == ab * u;
    assert p * (u * v) == ab * v;
  }

  lemma {:induction false} SignOfProduct(a: real, b: real)
    requires 0.0 < b
    ensures 0.0 <= a <==> 0.0 <= a * b
  {
    if 0.0 <= a { RealNonNegative(a, b); } else { RealMonoStrict(a, 0.0, b); }
  }

  lemma {:induction false} TopOrders(f: Moebius, x: real, z: real)
    requires Proper(f) && 0 < f.k && 0.0 <= x && 0.0 <= z && Top(f.a as real, f.b as real, Divisor(f, x))
    ensures Further(f.a as real, f.b as real, Divisor(f, x), Divisor(f, z))
  {
    RealNonNegative(f.k as real, x);
    RealNonNegative(f.k as real, z);
    FurtherFromTop(f.a as real, f.b as real, Divisor(f, x), Divisor(f, z));
  }

  lemma {:induction false} FurtherFromTop(a: real, b: real, u: real, v: real)
    requires 0.0 < a && 0.0 < b && b <= u && b <= v && Top(a, b, u)
    ensures Further(a, b, u, v)
  {
    if u * u == a * b {
      RealSquare(v - u);
      RealNonNegative(u, (v - u) * (v - u));
      assert (v - u) * (u * v - u * u) == u * ((v - u) * (v - u));
    } else {
      RealNonNegative(v - b, v - a);
      RealNonNegative(b, (v - b) * (v - a));
      assert (v - b) * (b * v - a * b) == b * ((v - b) * (v - a));
    }
  }

  /** Away from the top some other input is higher on the curve. */
  lemma {:induction false} SomeHigher(f: Moebius, x: real) returns (z: real)
    requires Proper(f) && 0 < f.k && 0.0 <= x && !Top(f.a as real, f.b as real, Divisor(f, x))
    ensures 0.0 <= z && !Further(f.a as real, f.b as real, Divisor(f, x), Divisor(f, z))
  {
    RealNonNegative(f.k as real, x);
    hide Top, Further;
    var v := SomeCloser(f.a as real, f.b as real, Divisor(f, x));
    z := (v - f.b as real) / f.k as real;
    RealRatio(v - f.b as real, f.k as real);
    assert Divisor(f, z) == v;
  }

  /** Halfway towards a * b / u, though not below b. */
  lemma {:induction false} SomeCloser(a: real, b: real, u: real) returns (v: real)
    requires 0.0 < a && 0.0 < b <= u && !Top(a, b, u)
    ensures b <= v && !Further(a, b, u, v)
  {
    RealRatio(a * b, u);
    var p := a * b / u;
    SideOfTop(p, u, a * b);
    if u == b { SideOfBase(a, b, p); }
    v := (u + if p < b then b else p) / 2.0;
    if u < p { ClosesUp(p, u, v, a * b); } else { ClosesDown(p, u, v, a * b); }
  }

  lemma {:induction false} ClosesUp(p: real, u: real, v: real, ab: real)
    requires 0.0 < u < v < p && p * u == ab
    ensures (v - u) * (u * v - ab) < 0.0
  {
    RealMonoStrict(v, p, u);
    RealMonoStrict(u * v - ab, 0.0, v - u);
  }

  lemma {:induction false} ClosesDown(p: real, u: real, v: real, ab: real)
    requires 0.0 < u && p < v < u && p * u == ab
    ensures (v - u) * (u * v - ab) < 0.0
  {
    RealMonoStrict(p, v, u);
    RealMulPositive(u - v, u * v - ab);
    assert (u - v) * (u * v - ab) == -((v - u) * (u * v - ab));
  }

  lemma {:induction false} SideOfTop(p: real, u: real, ab: real)
    requires 0.0 < u && p * u == ab && u * u != ab
    ensures p != u
  {
  }

  lemma {:induction false} SideOfBase(a: real, b: real, p: real)
    requires 0.0 < b && p * b == a * b
    ensures p == a
  {
    NoZeroDivisors(p - a, b);
  }

  lemma {:induction false} RealSquare(a: real)
    ensures 0.0 <= a * a
  {
  }

  ghost predicate Earns(hops: seq<Hop>, x: real)
    requires Trading(hops)
  {
    0.0 <= x && x < ExactOut(x, hops)
  }

  /** Some input earns something exactly when the closed form starts out steeper than one. */
  lemma {:induction false} EarnsSomewhere(hops: seq<Hop>)
    requires Trading(hops) && hops != [] && AllPriced(hops)
    ensures ClosedForm(hops).b < ClosedForm(hops).a <==> exists x: real :: Earns(hops, x)
  {
    var f := ClosedForm(hops);
    ExactIsClosedForm(0.0, hops);
    hide ClosedForm, ExactOut, Trading, AllPriced, OnCurve;
    if f.b < f.a {
      var z := SomeShallow(f);
      ExactIsClosedForm(z, hops);
      AboveDiagonal(f, z, ExactOut(z, hops));
      assert Earns(hops, z);
    } else {
      forall x: real | 0.0 <= x ensures !Earns(hops, x) {
        ExactIsClosedForm(x, hops);
        BelowDiagonal(f, x, ExactOut(x, hops));
      }
    }
  }

  lemma {:induction false} SomeShallow(f: Moebius) returns (z: real)
    requires 0 < f.k && f.b < f.a
    ensures 0.0 < z && f.k as real * z < (f.a - f.b) as real
  {
    var k, gap := f.k as real, (f.a - f.b) as real;
    z := gap / (2.0 * k);
    RealRatio(gap, 2.0 * k);
    assert k * z * 2.0 == gap;
  }

  lemma {:induction false} BelowDiagonal(f: Moebius, x: real, y: real)
    requires Proper(f) && f.a <= f.b && 0.0 <= x && OnCurve(f, x, y)
    ensures y <= x
  {
    var a, b, k := f.a as real, f.b as real, f.k as real;
    var d := b + k * x;
    RealNonNegative(x, b - a);
    RealSquare(x);
    RealNonNegative(k, x * x);
    assert d * x == x * (b - a) + k * (x * x) + a * x;
    RealCancel(y, x, d);
  }

  lemma {:induction false} AboveDiagonal(f: Moebius, x: real, y: real)
    requires Proper(f) && 0.0 < x && f.k as real * x < (f.a - f.b) as real && OnCurve(f, x, y)
    ensures x < y
  {
    var a, b, k := f.a as real, f.b as real, f.k as real;
    var d := b + k * x;
    Higher(x, y, d, a - d);
  }

  lemma {:induction false} Higher(x: real, y: real, d: real, e: real)
    requires 0.0 < x && 0.0 < d && 0.0 < e && y * d == (d + e) * x
    ensures x < y
  {
    RealMulPositive(x, e);
    assert y * d == x * d + x * e;
    if y <= x { RealMono(y, x, d); }
  }
}
