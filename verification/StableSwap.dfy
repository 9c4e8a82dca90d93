/** The StableSwap solvers: the invariant of a set of balances, and the balance of
    one coin that keeps the invariant when the others are given. */
module StableSwap {
  import opened Arithmetic
  import opened Means
  import opened Results

  /** Both solvers give up after this many steps. */
  const MAX_STEPS: nat := 255

  // ----- the quadratic y * y + lin * y = c and its integer root -----

  /** r is where y * y + lin * y passes c for good. */
  ghost predicate IsRoot(lin: int, c: int, r: int) {
    0 <= r && r * r + lin * r <= c < (r + 1) * (r + 1) + lin * (r + 1)
  }

  /** The greatest value not above y whose left side is at most c, one step at a time. */
  ghost function RootBelow(lin: int, c: nat, y: nat): (r: nat)
    ensures r <= y && r * r + lin * r <= c
    ensures forall z :: r < z <= y ==> c < z * z + lin * z
  {
    if y * y + lin * y <= c then y else RootBelow(lin, c, y - 1)
  }

  /** The integer root. */
  ghost function Root(lin: int, c: nat): nat {
    RootBelow(lin, c, c + (if lin < 0 then -lin else 0))
  }

  lemma {:induction false} RootIsRoot(lin: int, c: nat)
    ensures IsRoot(lin, c, Root(lin, c))
  {
    var r, top := Root(lin, c), c + (if lin < 0 then -lin else 0);
    if r == top {
      MulMono(c + 1, r + 1 + lin, r + 1);
      MulMono(1, r + 1, c + 1);
      Factored(lin, r + 1);
    }
  }

  lemma {:induction false} Factored(lin: int, y: int)
    ensures (y + lin) * y == y * y + lin * y
  {
  }

  /** Above the root the left side is above c, so the root is unique. */
  lemma {:induction false} RootIsGreatest(lin: int, c: nat, r: nat, y: nat)
    requires IsRoot(lin, c, r)
    ensures y * y + lin * y <= c ==> y <= r
    ensures y == r || !IsRoot(lin, c, y)
  {
    if r < y { AboveRoot(lin, c, r, y); }
    if y < r && IsRoot(lin, c, y) { AboveRoot(lin, c, y, r); }
  }

  lemma {:induction false} AboveRoot(lin: int, c: nat, r: nat, y: nat)
    requires IsRoot(lin, c, r) && r < y
    ensures c < y * y + lin * y
  {
    var q := r + 1;
    RootSlope(lin, c, r);
    Factored(lin, q);
    Factored(lin, y);
    MulBoth(q + lin, y + lin, q, y);
  }

  /** Past the root the left side climbs. */
  lemma {:induction false} RootSlope(lin: int, c: nat, r: nat)
    requires IsRoot(lin, c, r)
    ensures 0 < r + 1 + lin
  {
    Factored(lin, r + 1);
    if r + 1 + lin <= 0 { MulMono(r + 1 + lin, 0, r + 1); }
  }

  // ----- one step of the iteration -----

  ghost function NextY(lin: int, c: int, y: int): int
    requires 0 < 2 * y + lin
  {
    (y * y + c) / (2 * y + lin)
  }

  /** A step never lands below the root, at least halves the distance above it, and
      from the root itself moves by at most one. */
  lemma {:induction false} StepTowardsRoot(lin: int, c: nat, r: nat, y: int)
    requires IsRoot(lin, c, r) && 0 < 2 * y + lin
    ensures r <= NextY(lin, c, y)
    ensures r < y ==> 2 * (NextY(lin, c, y) - r) <= y - r
    ensures y == r ==> NextY(lin, c, y) <= r + 1
  {
    var n, den := NextY(lin, c, y), 2 * y + lin;
    FloorGalois(y * y + c, den, r);
    assert r * den <= y * y + c by { StepAbove(lin, c, r, y); }
    if r <= y {
      RootSlope(lin, c, r);
      StepExcess(lin, c, r, y);
      FloorGalois(y * y + c, den, n);
      assert n * den <= y * y + c;
      var e, g := y - r, n - r - 1;
      assert den == 2 * (e - 1) + (2 * (r + 1) + lin);
      assert g * den < (e - 1) * (e - 1) by { Shifted(n, r + 1, den); }
      if 0 < g { HalvedExcess(e, g, den); }
    }
  }

  lemma {:induction false} Shifted(n: int, q: int, den: int)
    ensures n * den == q * den + (n - q) * den
  {
  }

  lemma {:induction false} StepAbove(lin: int, c: int, r: int, y: int)
    requires r * r + lin * r <= c
    ensures r * (2 * y + lin) <= y * y + c
  {
    assert 0 <= (y - r) * (y - r) == y * y - 2 * (r * y) + r * r;
    assert r * (2 * y + lin) == 2 * (r * y) + lin * r;
  }

  lemma {:induction false} StepExcess(lin: int, c: int, r: int, y: int)
    requires c < (r + 1) * (r + 1) + lin * (r + 1)
    ensures y * y + c < (r + 1) * (2 * y + lin) + (y - r - 1) * (y - r - 1)
  {
    var q := r + 1;
    assert (y - q) * (y - q) == y * y - 2 * (q * y) + q * q;
    assert q * (2 * y + lin) == 2 * (q * y) + lin * q;
  }

  lemma {:induction false} HalvedExcess(e: int, g: int, den: int)
    requires 0 <= e && 0 < g && 0 < den && g * den < (e - 1) * (e - 1) && 2 * e <= den
    ensures 2 * (g + 1) <= e
  {
    MulMono(2 * e, den, g);
    assert g * den == den * g;
    if e < 2 * (g + 1) { MulMono(e - 1, 2 * g, e); }
  }

  /** Steps that differ by at most one have reached the root or its successor. */
  lemma {:induction false} CloseStepsAreRoot(lin: int, c: nat, r: nat, y: int)
    requires IsRoot(lin, c, r) && 0 < 2 * y + lin && -1 <= NextY(lin, c, y) - y <= 1
    ensures r <= NextY(lin, c, y) <= r + 1
  {
    hide NextY, IsRoot;
    StepTowardsRoot(lin, c, r, y);
  }

  /** Otherwise the next step divides by something positive. */
  lemma {:induction false} FarStepsDivide(lin: int, c: nat, r: nat, y: int)
    requires IsRoot(lin, c, r) && 0 < 2 * y + lin && !(-1 <= NextY(lin, c, y) - y <= 1)
    ensures 0 < 2 * NextY(lin, c, y) + lin
  {
    StepTowardsRoot(lin, c, r, y);
    RootSlope(lin, c, r);
    var n := NextY(lin, c, y);
  }

  // ----- the iteration -----

  /** What i steps without settling say: the distance above the root has been halved
      since the first step, which must have been that far above. */
  ghost predicate Trail(first: int, r: nat, y: int, i: nat) {
    && 0 < i && r <= y
    && (y - r) * Pow2(i - 1) <= first - r
    && (2 <= i ==> Pow2(i - 1) <= first - r)
  }

  lemma {:induction false} TrailStep(lin: int, c: nat, r: nat, first: int, y: int, i: nat)
    requires IsRoot(lin, c, r) && 0 < 2 * y + lin && !(-1 <= NextY(lin, c, y) - y <= 1)
    requires if i == 0 then first == NextY(lin, c, y) else Trail(first, r, y, i)
    ensures Trail(first, r, NextY(lin, c, y), i + 1)
  {
    hide NextY, IsRoot;
    StepTowardsRoot(lin, c, r, y);
    var n := NextY(lin, c, y);
    if i != 0 { Halved(n - r, y - r, Pow2(i - 1), first - r); }
  }

  lemma {:induction false} Halved(half: nat, whole: nat, p: nat, most: int)
    requires 2 * half <= whole && 2 <= whole && whole * p <= most
    ensures half * (2 * p) <= most && 2 * p <= most
  {
    MulMono(2 * half, whole, p);
    MulMono(2, whole, p);
    assert half * (2 * p) == 2 * half * p;
  }

  /** The y iteration. Started where its divisor is positive it never divides by
      zero; when it stops by itself the result is the integer root or one more;
      and it does stop by itself whenever the first step gives less than 2^254. */
  method NewtonY(b: int, c: int, d: int, start: int) returns (r: Result<int>, ghost settled: bool)
    ensures 2 * start + b - d == 0 ==> r == Failure(ZeroDivision)
    ensures 0 <= c && 0 < 2 * start + b - d ==>
              && r.Success?
              && Root(b - d, c) <= r.value
              && (settled ==> r.value <= Root(b - d, c) + 1)
              && (NextY(b - d, c, start) < Pow2(MAX_STEPS - 1) ==> settled)
  {
    hide Root, IsRoot, Pow2, NextY, Trail;
    var y := start;
    settled := false;
    ghost var lin, good := b - d, 0 <= c && 0 < 2 * start + b - d;
    ghost var root: nat := if good then Root(lin, c) else 0;
    ghost var first := if good then NextY(lin, c, start) else 0;
    if good { RootIsRoot(lin, c); }
    for i := 0 to MAX_STEPS
      invariant !settled
      invariant if i == 0 then y == start else 2 * start + b - d != 0
      invariant good ==> 0 < 2 * y + lin
      invariant good && 0 < i ==> Trail(first, root, y, i)
    {
      var previous := y;
      var divisor := 2 * y + b - d;
      if divisor == 0 { return Failure(ZeroDivision), false; }
      y := FloorDiv(y * y + c, divisor);
      if good { StepIs(lin, c, root, first, previous, y, i); }
      if y > previous {
        if y - previous <= 1 { settled := true; break; }
      } else {
        if previous - y <= 1 { settled := true; break; }
      }
    }
    if good && !settled { TrailEnds(first, root, y); }
    r := Success(y);
  }

  lemma {:induction false} StepIs(lin: int, c: nat, r: nat, first: int, y: int, n: int, i: nat)
    requires IsRoot(lin, c, r) && 0 < 2 * y + lin && n == FloorDiv(y * y + c, 2 * y + lin)
    requires if i == 0 then first == NextY(lin, c, y) else Trail(first, r, y, i)
    ensures r <= n
    ensures if -1 <= n - y <= 1 then n <= r + 1 else 0 < 2 * n + lin && Trail(first, r, n, i + 1)
  {
    hide IsRoot, Trail;
    assert n == NextY(lin, c, y);
    hide NextY;
    StepTowardsRoot(lin, c, r, y);
    if -1 <= n - y <= 1 {
      CloseStepsAreRoot(lin, c, r, y);
    } else {
      FarStepsDivide(lin, c, r, y);
      TrailStep(lin, c, r, first, y, i);
    }
  }

  lemma {:induction false} TrailEnds(first: int, r: nat, y: int)
    requires Trail(first, r, y, MAX_STEPS)
    ensures r <= y && Pow2(MAX_STEPS - 1) <= first
  {
    hide Pow2;
  }

  // ----- the coefficients -----

  /** A precision that is absent or zero counts as one. */
  function Unit(aPrecision: nat): (u: nat)
    ensures 0 < u
  {
    if aPrecision == 0 then 1 else aPrecision
  }

  ghost predicate Divisible(xs: seq<nat>, n: nat, extra: nat) {
    forall k :: 0 <= k < |xs| ==> xs[k] * n + extra != 0
  }

  /** d times the product of d / (x * n + extra) over the balances, rounded down at each factor. */
  ghost function Chain(d: int, n: nat, extra: nat, xs: seq<nat>): (p: int)
    requires Divisible(xs, n, extra)
    ensures 0 <= d ==> 0 <= p
  {
    if xs == [] then d
    else
      var before, x := Chain(d, n, extra, xs[..|xs| - 1]), xs[|xs| - 1];
      RatioSign(before, d, x * n + extra);
      before * d / (x * n + extra)
  }

  lemma {:induction false} RatioSign(a: int, d: int, e: nat)
    requires 0 < e
    ensures 0 <= a && 0 <= d ==> 0 <= a * d / e
  {
    if 0 <= a && 0 <= d {
      MulMono(0, a, d);
      FloorGalois(a * d, e, 0);
    }
  }

  /** The balances of the first k coins without coin j, with x standing for coin i. */
  ghost function Others(xp: seq<nat>, x: nat, i: int, j: int, k: nat): seq<nat>
    requires k <= |xp|
  {
    if k == 0 then []
    else Others(xp, x, i, j, k - 1) + (if k - 1 == i then [x] else if k - 1 == j then [] else [xp[k - 1]])
  }

  /** They are the first n balances with x put in for coin i, and coin j taken out. */
  lemma {:induction false} OthersAre(xp: seq<nat>, x: nat, i: int, j: int, n: nat)
    requires n <= |xp| && i < n
    ensures var ys := if 0 <= i then xp[..n][i := x] else xp[..n];
            Others(xp, x, i, j, n) == if 0 <= j < n && j != i then ys[..j] + ys[j + 1..] else ys
  {
    var ys := if 0 <= i then xp[..n][i := x] else xp[..n];
    OthersUpTo(xp, x, i, j, n, n, ys);
    if 0 <= j < n { assert ys[j + 1..n] == ys[j + 1..]; }
    assert ys[..n] == ys;
  }

  lemma {:induction false} OthersUpTo(xp: seq<nat>, x: nat, i: int, j: int, n: nat, k: nat, ys: seq<nat>)
    requires n <= |xp| && i < n && k <= n && ys == if 0 <= i then xp[..n][i := x] else xp[..n]
    ensures Others(xp, x, i, j, k) == if 0 <= j < k && j != i then ys[..j] + ys[j + 1..k] else ys[..k]
  {
    if k != 0 {
      OthersUpTo(xp, x, i, j, n, k - 1, ys);
      assert ys[..k] == ys[..k - 1] + [ys[k - 1]];
      if 0 <= j < k - 1 { assert ys[j + 1..k] == ys[j + 1..k - 1] + [ys[k - 1]]; }
    }
  }

  lemma {:induction false} BeforeAny(d: int, n: nat)
    ensures Sum([]) == 0 && Divisible([], n, 0) && Chain(d, n, 0, []) == d
  {
  }

  lemma {:induction false} ChainSnoc(d: int, n: nat, extra: nat, xs: seq<nat>, x: nat)
    requires Divisible(xs, n, extra)
    ensures Sum(xs + [x]) == Sum(xs) + x
    ensures Divisible(xs + [x], n, extra) <==> x * n + extra != 0
    ensures x * n + extra != 0 ==>
              Chain(d, n, extra, xs + [x]) == Chain(d, n, extra, xs) * d / (x * n + extra)
  {
    var all := xs + [x];
    assert all[..|all| - 1] == xs;
    if x * n + extra == 0 { assert all[|xs|] == x; }
  }

  lemma {:induction false} ZeroStays(xs: seq<nat>, ys: seq<nat>, n: nat, extra: nat)
    requires !Divisible(xs, n, extra)
    ensures !Divisible(xs + ys, n, extra)
  {
    var k :| 0 <= k < |xs| && xs[k] * n + extra == 0;
    assert (xs + ys)[k] == xs[k];
  }

  lemma {:induction false} OthersPrefix(xp: seq<nat>, x: nat, i: int, j: int, k: nat, m: nat, n: nat)
    requires k <= m <= |xp| && !Divisible(Others(xp, x, i, j, k), n, 0)
    ensures !Divisible(Others(xp, x, i, j, m), n, 0)
    decreases m
  {
    if k < m {
      OthersPrefix(xp, x, i, j, k, m - 1, n);
      ZeroStays(Others(xp, x, i, j, m - 1),
                if m - 1 == i then [x] else if m - 1 == j then [] else [xp[m - 1]], n, 0);
    }
  }

  /** One pass over the balances, for the sum and the product of the others. */
  method Reduce(xp: seq<nat>, x: nat, i: int, j: int, d: int, n: nat) returns (r: Result<(nat, int)>)
    requires n <= |xp|
    ensures var xs := Others(xp, x, i, j, n);
            r == if Divisible(xs, n, 0) then Success((Sum(xs), Chain(d, n, 0, xs))) else Failure(ZeroDivision)
  {
    hide Chain, Sum, Divisible;
    var c, s: nat := d, 0;
    ghost var xs := [];
    assert Sum(xs) == 0 && Divisible(xs, n, 0) && Chain(d, n, 0, xs) == d by { BeforeAny(d, n); }
    for k := 0 to n
      invariant xs == Others(xp, x, i, j, k) && Divisible(xs, n, 0)
      invariant s == Sum(xs) && c == Chain(d, n, 0, xs)
    {
      var balance: nat;
      if k == i {
        balance := x;
      } else if k != j {
        balance := xp[k];
      } else {
        assert xs + [] == xs;
        continue;
      }
      ChainSnoc(d, n, 0, xs, balance);
      s := s + balance;
      xs := xs + [balance];
      if balance * n == 0 {
        OthersPrefix(xp, x, i, j, k + 1, n, n);
        return Failure(ZeroDivision);
      }
      c := c * d / (balance * n);
    }
    r := Success((s, c));
  }

  // ----- what the quadratic means -----

  ghost function RealSum(xs: seq<real>): real {
    if xs == [] then 0.0 else RealSum(xs[..|xs| - 1]) + xs[|xs| - 1]
  }

  ghost predicate AllPositive(xs: seq<real>) {
    forall k :: 0 <= k < |xs| ==> 0.0 < xs[k]
  }

  /** d times the product of d / (x * n), not rounded. */
  ghost function RealChain(d: real, n: real, xs: seq<real>): real
    requires 0.0 < n && AllPositive(xs)
  {
    if xs == [] then d
    else
      var x := xs[|xs| - 1];
      RealMulPositive(x, n);
      RealChain(d, n, xs[..|xs| - 1]) * d / (x * n)
  }

  /** The StableSwap invariant: ann * sum + d == ann * d + d^(n+1) / (n^n * product). */
  ghost predicate KeepsInvariant(d: real, n: real, ann: real, xs: seq<real>)
    requires 0.0 < n && AllPositive(xs)
  {
    SidesAgree(ann, RealSum(xs), d, RealChain(d, n, xs))
  }

  ghost predicate SidesAgree(ann: real, sum: real, d: real, product: real) {
    ann * sum + d == ann * d + product
  }

  ghost predicate OnQuadratic(y: real, lin: real, c: real) {
    y * y + lin * y == c
  }

  lemma {:induction false} RealSnoc(d: real, n: real, xs: seq<real>, y: real)
    requires 0.0 < n && 0.0 < y && AllPositive(xs)
    ensures AllPositive(xs + [y]) && RealSum(xs + [y]) == RealSum(xs) + y
    ensures RealChain(d, n, xs + [y]) * (y * n) == RealChain(d, n, xs) * d
  {
    RealMulPositive(y, n);
    var all := xs + [y];
    assert all[..|all| - 1] == xs;
    RealRatio(RealChain(d, n, xs) * d, y * n);
  }

  /** Without rounding, solving the quadratic, with c = product * d / (ann * n) on its
      right, is completing the balances to the invariant. */
  lemma {:induction false} QuadraticIsInvariant(d: real, n: real, ann: real, xs: seq<real>, y: real, c: real)
    requires 0.0 < n && 0.0 < ann && 0.0 < y && AllPositive(xs)
    requires c * (ann * n) == RealChain(d, n, xs) * d
    ensures AllPositive(xs + [y])
    ensures KeepsInvariant(d, n, ann, xs + [y]) <==> OnQuadratic(y, RealSum(xs) + d / ann - d, c)
  {
    RealSnoc(d, n, xs, y);
    hide RealSum, RealChain, AllPositive, SidesAgree, OnQuadratic;
    Balance(y, ann, RealSum(xs), d, n, c, RealChain(d, n, xs + [y]));
  }

  lemma {:induction false} Balance(y: real, ann: real, s: real, d: real, n: real, c: real, p: real)
    requires 0.0 < y && 0.0 < ann && 0.0 < n && p * (y * n) == c * (ann * n)
    ensures OnQuadratic(y, s + d / ann - d, c) <==> SidesAgree(ann, s + y, d, p)
  {
    var left, right := y * y + (s + d / ann - d) * y - c, ann * (s + y) + d - ann * d - p;
    var e := d / ann;
    assert d == e * ann;
    assert p * y == c * ann by { CancelFactor(p * y, c * ann, n, p, y, c, ann); }
    assert left * ann == right * y by {
      assert left * ann == y * y * ann + s * y * ann + e * ann * y - d * y * ann - c * ann;
      assert right * y == ann * s * y + ann * y * y + d * y - ann * d * y - p * y;
    }
    NoZeroDivisors(left, ann);
    NoZeroDivisors(right, y);
  }

  lemma {:induction false} CancelFactor(a: real, b: real, n: real, p: real, y: real, c: real, ann: real)
    requires 0.0 < n && p * (y * n) == c * (ann * n) && a == p * y && b == c * ann
    ensures a == b
  {
    assert a * n == p * (y * n);
    assert b * n == c * (ann * n);
    NoZeroDivisors(a - b, n);
  }

  ghost function Reals(xs: seq<nat>): (rs: seq<real>)
    ensures |rs| == |xs| && forall k :: 0 <= k < |xs| ==> rs[k] == xs[k] as real
  {
    seq(|xs|, k requires 0 <= k < |xs| => xs[k] as real)
  }

  /** Rounding at each factor only lowers the product the solvers use. */
  lemma {:induction false} ChainRoundsDown(d: nat, n: nat, xs: seq<nat>)
    requires 0 < n && forall k :: 0 <= k < |xs| ==> 0 < xs[k]
    ensures Divisible(xs, n, 0) && AllPositive(Reals(xs))
    ensures Chain(d, n, 0, xs) as real <= RealChain(d as real, n as real, Reals(xs))
  {
    if xs == [] {
      assert Reals(xs) == [];
    } else {
      var init, x := xs[..|xs| - 1], xs[|xs| - 1];
      ChainRoundsDown(d, n, init);
      assert Reals(xs) == Reals(init) + [x as real] && xs == init + [x];
      RoundsDownOnce(d, n, init, x);
    }
  }

  lemma {:induction false} RoundsDownOnce(d: nat, n: nat, init: seq<nat>, x: nat)
    requires 0 < n && 0 < x && Divisible(init, n, 0) && AllPositive(Reals(init))
    requires Chain(d, n, 0, init) as real <= RealChain(d as real, n as real, Reals(init))
    ensures Divisible(init + [x], n, 0) && AllPositive(Reals(init) + [x as real])
    ensures Chain(d, n, 0, init + [x]) as real <= RealChain(d as real, n as real, Reals(init) + [x as real])
  {
    hide RealChain, Chain, AllPositive, Divisible, Reals;
    RealSnoc(d as real, n as real, Reals(init), x as real);
    var a, exact := Chain(d, n, 0, init), RealChain(d as real, n as real, Reals(init));
    var next := RealChain(d as real, n as real, Reals(init) + [x as real]);
    FloorStep(a, d, x, n, exact, next);
    ChainSnoc(d, n, 0, init, x);
  }

  lemma {:induction false} FloorStep(a: nat, d: nat, x: nat, n: nat, exact: real, next: real)
    requires 0 < x && 0 < n && a as real <= exact
    requires next * (x as real * n as real) == exact * d as real
    ensures x * n + 0 != 0 && (a * d / (x * n + 0)) as real <= next
  {
    MulPositive(x, n);
    FloorBounds(a * d, x * n);
    var q, e, er, dr := a * d / (x * n), x * n, x as real * n as real, d as real;
    assert e as real == er;
    assert (q * e) as real == q as real * er;
    assert (a * d) as real == a as real * dr;
    assert a as real * dr <= exact * dr;
    RealCancel(q as real, next, er);
  }
}
