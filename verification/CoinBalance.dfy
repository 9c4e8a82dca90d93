/** The balance of one coin when the others and the invariant are given: what the solvers
    return, and how near it is to keeping the invariant exactly. */
module CoinBalance {
  import opened Arithmetic
  import opened Means
  import opened Results
  import opened StableSwap

  // ----- the coefficients as coded -----

  lemma {:induction false} PositiveFactors(a: nat, b: nat)
    requires a * b != 0
    ensures 0 < a && 0 < b && 0 < a * b
  {
  }

  /** The two coefficients of the quadratic, from the other balances and the invariant. */
  ghost function LinearPart(xs: seq<nat>, d: int, ann: nat, unit: nat): (b: int)
    requires 0 < ann
    ensures 0 <= d ==> 0 <= b
  {
    RatioSign(d, unit, ann);
    Sum(xs) + d * unit / ann
  }

  ghost function RightSide(xs: seq<nat>, d: int, ann: nat, n: nat, unit: nat): (c: int)
    requires Divisible(xs, n, 0) && 0 < ann * n
    ensures 0 <= d ==> 0 <= c
  {
    var p := Chain(d, n, 0, xs);
    if 0 <= d then MulMono(0, p, d); RatioSign(p * d, unit, ann * n); p * d * unit / (ann * n)
    else p * d * unit / (ann * n)
  }

  /** The root of the quadratic, or one more, as long as the first step stays below 2^254. */
  ghost predicate AtRoot(b: int, c: int, d: int, r: Result<int>) {
    && (d + b == 0 ==> r == Failure(ZeroDivision))
    && (0 <= c && 0 < d + b ==>
          && r.Success?
          && Root(b - d, c) <= r.value
          && (NextY(b - d, c, d) < Pow2(MAX_STEPS - 1) ==> r.value <= Root(b - d, c) + 1))
  }

  /** What solving for a balance promises: the division error for an empty balance, and
      otherwise the root of the quadratic of the other balances. */
  ghost predicate Solved(xs: seq<nat>, d: int, ann: nat, n: nat, unit: nat, r: Result<int>) {
    if !Divisible(xs, n, 0) || ann * n == 0 then r == Failure(ZeroDivision)
    else
      PositiveFactors(ann, n);
      AtRoot(LinearPart(xs, d, ann, unit), RightSide(xs, d, ann, n, unit), d, r)
  }

  // ----- the exact coefficients -----

  /** What the rounding of the product can lose, division by division: less than one each,
      and each loss is carried through the later ones. */
  ghost function Lost(d: real, n: real, xs: seq<real>): (e: real)
    requires 0.0 < n && 0.0 <= d && AllPositive(xs)
    ensures 0.0 <= e
  {
    if xs == [] then 0.0
    else
      var x := xs[|xs| - 1];
      RealMulPositive(x, n);
      RealNonNegative(Lost(d, n, xs[..|xs| - 1]), d);
      RealRatio(Lost(d, n, xs[..|xs| - 1]) * d, x * n);
      Lost(d, n, xs[..|xs| - 1]) * d / (x * n) + 1.0
  }

  /** The linear coefficient of the exact quadratic; a is the amplification times n. */
  ghost function ExactLinear(d: real, a: real, xs: seq<real>): real
    requires 0.0 < a
  {
    RealSum(xs) + d / a - d
  }

  /** The right side of the exact quadratic. */
  ghost function ExactRight(d: real, n: real, a: real, xs: seq<real>): real
    requires 0.0 < n && 0.0 < a && AllPositive(xs)
  {
    RealMulPositive(a, n);
    RealChain(d, n, xs) * d / (a * n)
  }

  ghost function RightError(d: real, n: real, a: real, xs: seq<real>): real
    requires 0.0 < n && 0.0 < a && 0.0 <= d && AllPositive(xs)
  {
    RealMulPositive(a, n);
    Lost(d, n, xs) * d / (a * n)
  }

  /** The amplification over its unit. */
  ghost function Amplification(ann: nat, unit: nat): (a: real)
    requires 0 < ann && 0 < unit
    ensures 0.0 < a
  {
    RealRatio(ann as real, unit as real);
    ann as real / unit as real
  }

  lemma {:induction false} ChainLoses(d: nat, n: nat, xs: seq<nat>)
    requires 0 < n && forall k :: 0 <= k < |xs| ==> 0 < xs[k]
    ensures Divisible(xs, n, 0) && AllPositive(Reals(xs))
    ensures var exact := RealChain(d as real, n as real, Reals(xs));
            Chain(d, n, 0, xs) as real <= exact <= Chain(d, n, 0, xs) as real + Lost(d as real, n as real, Reals(xs))
  {
    if xs == [] {
      assert Reals(xs) == [];
    } else {
      var init, x := xs[..|xs| - 1], xs[|xs| - 1];
      ChainLoses(d, n, init);
      ChainRoundsDown(d, n, xs);
      assert Reals(xs) == Reals(init) + [x as real] && xs == init + [x];
      LosesOnce(d, n, init, x);
    }
  }

  lemma {:induction false} LosesOnce(d: nat, n: nat, init: seq<nat>, x: nat)
    requires 0 < n && 0 < x && Divisible(init, n, 0) && AllPositive(Reals(init))
    requires RealChain(d as real, n as real, Reals(init))
          <= Chain(d, n, 0, init) as real + Lost(d as real, n as real, Reals(init))
    ensures Divisible(init + [x], n, 0) && AllPositive(Reals(init) + [x as real])
    ensures RealChain(d as real, n as real, Reals(init) + [x as real])
         <= Chain(d, n, 0, init + [x]) as real + Lost(d as real, n as real, Reals(init) + [x as real])
  {
    hide RealChain, Chain, AllPositive, Divisible, Reals, Lost, RealSum;
    LostSnoc(d as real, n as real, Reals(init), x as real);
    RealSnoc(d as real, n as real, Reals(init), x as real);
    MulPositive(x, n);
    ChainSnoc(d, n, 0, init, x);
    CastMul(x, n);
    FloorLoses(Chain(d, n, 0, init), d, x * n, RealChain(d as real, n as real, Reals(init)),
               RealChain(d as real, n as real, Reals(init) + [x as real]), Lost(d as real, n as real, Reals(init)),
               Lost(d as real, n as real, Reals(init) + [x as real]));
  }

  lemma {:induction false} LostSnoc(d: real, n: real, xs: seq<real>, x: real)
    requires 0.0 < n && 0.0 <= d && 0.0 < x && AllPositive(xs)
    ensures AllPositive(xs + [x])
    ensures (Lost(d, n, xs + [x]) - 1.0) * (x * n) == Lost(d, n, xs) * d
  {
    RealMulPositive(x, n);
    var all := xs + [x];
    assert all[..|all| - 1] == xs;
    RealRatio(Lost(d, n, xs) * d, x * n);
  }

  lemma {:induction false} FloorLoses(a: int, d: nat, e: nat, exact: real, next: real, lost: real, more: real)
    requires 0 < e && exact <= a as real + lost
    requires next * e as real == exact * d as real && (more - 1.0) * e as real == lost * d as real
    ensures next <= (a * d / e) as real + more
  {
    var q := a * d / e;
    FloorBounds(a * d, e);
    CastMul(a, d);
    CastMul(q + 1, e);
    RealMono(exact, a as real + lost, d as real);
    assert exact * d as real <= a as real * d as real + lost * d as real;
    assert ((q + 1) as real + (more - 1.0)) * e as real == (q + 1) as real * e as real + (more - 1.0) * e as real;
    RealCancel(next, (q + 1) as real + (more - 1.0), e as real);
  }

  /** The coded linear coefficient is the exact one less a fraction. */
  lemma {:induction false} LinearPartNear(xs: seq<nat>, d: nat, ann: nat, unit: nat)
    requires 0 < ann && 0 < unit
    ensures var lin := ExactLinear(d as real, Amplification(ann, unit), Reals(xs));
            (LinearPart(xs, d, ann, unit) - d) as real <= lin < (LinearPart(xs, d, ann, unit) - d + 1) as real
  {
    SumIsReal(xs);
    FloorIsNear(d * unit, ann);
    CastMul(d, unit);
    ShareOfShare(d as real, ann as real, unit as real);
    var q, share := d * unit / ann, d as real / Amplification(ann, unit);
    assert q as real <= share < (q + 1) as real;
    hide RealSum, Sum, Amplification;
    assert LinearPart(xs, d, ann, unit) == Sum(xs) + q;
    assert ExactLinear(d as real, Amplification(ann, unit), Reals(xs)) == Sum(xs) as real + share - d as real;
  }

  lemma {:induction false} SumIsReal(xs: seq<nat>)
    ensures RealSum(Reals(xs)) == Sum(xs) as real
  {
    if xs != [] {
      SumIsReal(xs[..|xs| - 1]);
      assert Reals(xs)[..|xs| - 1] == Reals(xs[..|xs| - 1]);
    }
  }

  lemma {:induction false} FloorIsNear(t: nat, m: nat)
    requires 0 < m
    ensures (t / m) as real <= t as real / m as real < (t / m + 1) as real
  {
    FloorBounds(t, m);
    var q, x := t / m, t as real / m as real;
    RealRatio(t as real, m as real);
    CastMul(q, m);
    CastMul(q + 1, m);
    RealCancel(q as real, x, m as real);
    if (q + 1) as real <= x { RealMono((q + 1) as real, x, m as real); }
  }

  lemma {:induction false} ShareOfShare(d: real, a: real, u: real)
    requires 0.0 < a && 0.0 < u
    ensures 0.0 < a / u && d / (a / u) == d * u / a
  {
    RealRatio(a, u);
    RealRatio(d, a / u);
    RealRatio(d * u, a);
    var x, y := d / (a / u), d * u / a;
    assert x * a == x * (a / u) * u;
    NoZeroDivisors(x - y, a);
  }

  /** The coded right side is the exact one less a fraction and less what the rounding of
      the product loses. */
  lemma {:induction false} RightSideNear(xs: seq<nat>, d: nat, ann: nat, n: nat, unit: nat)
    requires 0 < ann && 0 < n && 0 < unit && forall k :: 0 <= k < |xs| ==> 0 < xs[k]
    ensures Divisible(xs, n, 0) && AllPositive(Reals(xs)) && 0 < ann * n
    ensures var a := Amplification(ann, unit);
            var c := ExactRight(d as real, n as real, a, Reals(xs));
            var coded := RightSide(xs, d, ann, n, unit);
            coded as real <= c < coded as real + 1.0 + RightError(d as real, n as real, a, Reals(xs))
  {
    ChainLoses(d, n, xs);
    MulPositive(ann, n);
    hide Chain, RealChain, Lost, Divisible, AllPositive, Reals, RightSide, ExactRight, RightError, Amplification;
    CodedShare(xs, d, ann, n, unit);
    ExactShare(xs, d, ann, n, unit);
  }

  /** The coded right side before the last rounding. */
  ghost function Share(p: real, d: real, ann: real, n: real, unit: real): real
    requires 0.0 < ann && 0.0 < n
  {
    RealMulPositive(ann, n);
    p * d * unit / (ann * n)
  }

  lemma {:induction false} CodedShare(xs: seq<nat>, d: nat, ann: nat, n: nat, unit: nat)
    requires Divisible(xs, n, 0) && 0 < ann && 0 < n && 0 < ann * n
    ensures var coded, p := RightSide(xs, d, ann, n, unit), Chain(d, n, 0, xs);
            coded as real <= Share(p as real, d as real, ann as real, n as real, unit as real) < coded as real + 1.0
  {
    var p := Chain(d, n, 0, xs);
    hide Chain;
    MulMono(0, p, d);
    MulMono(0, p * d, unit);
    var top: nat, m: nat := p * d * unit, ann * n;
    CodedRight(xs, d, ann, n, unit);
    ShareIs(p, d, ann, n, unit, top, m);
    hide RightSide, Share;
    FloorIsNear(top, m);
  }

  lemma {:induction false} CodedRight(xs: seq<nat>, d: nat, ann: nat, n: nat, unit: nat)
    requires Divisible(xs, n, 0) && 0 < ann * n
    ensures RightSide(xs, d, ann, n, unit) == Chain(d, n, 0, xs) * d * unit / (ann * n)
  {
  }

  lemma {:induction false} ShareIs(p: int, d: nat, ann: nat, n: nat, unit: nat, top: nat, m: nat)
    requires 0 < ann && 0 < n && top == p * d * unit && m == ann * n
    ensures 0 < m && top as real / m as real == Share(p as real, d as real, ann as real, n as real, unit as real)
  {
    MulPositive(ann, n);
    CastMul(p * d, unit);
    CastMul(p, d);
    CastMul(ann, n);
  }

  lemma {:induction false} ExactShare(xs: seq<nat>, d: nat, ann: nat, n: nat, unit: nat)
    requires Divisible(xs, n, 0) && AllPositive(Reals(xs)) && 0 < ann && 0 < n && 0 < unit
    requires var exact := RealChain(d as real, n as real, Reals(xs));
             Chain(d, n, 0, xs) as real <= exact <= Chain(d, n, 0, xs) as real + Lost(d as real, n as real, Reals(xs))
    ensures var a := Amplification(ann, unit);
            var share := Share(Chain(d, n, 0, xs) as real, d as real, ann as real, n as real, unit as real);
            share <= ExactRight(d as real, n as real, a, Reals(xs))
                  <= share + RightError(d as real, n as real, a, Reals(xs))
  {
    hide Chain, RealChain, Lost, Divisible, AllPositive, Reals, Share;
    RealRatio(ann as real, unit as real);
    var a := Amplification(ann, unit);
    assert a * unit as real == ann as real;
    hide Amplification;
    SidesNear(Chain(d, n, 0, xs) as real, RealChain(d as real, n as real, Reals(xs)),
              Lost(d as real, n as real, Reals(xs)), d as real, ann as real, n as real, unit as real, a);
  }

  /** Dividing by the amplification times n keeps the order and scales the loss. */
  lemma {:induction false} SidesNear(p: real, exact: real, lost: real, d: real, ann: real, n: real, unit: real, a: real)
    requires 0.0 < ann && 0.0 < n && 0.0 < unit && 0.0 < a && a * unit == ann
    requires 0.0 <= d && p <= exact <= p + lost
    ensures 0.0 < a * n
    ensures Share(p, d, ann, n, unit) <= exact * d / (a * n) <= Share(p, d, ann, n, unit) + lost * d / (a * n)
  {
    RealMulPositive(a, n);
    RealMulPositive(ann, n);
    assert a * n * unit == ann * n;
    RealMono(p, exact, d);
    RealMono(exact, p + lost, d);
    Sandwich(p * d, exact * d, lost * d, unit, a * n, ann * n);
  }

  lemma {:induction false} Sandwich(p: real, c: real, e: real, u: real, m: real, k: real)
    requires 0.0 < m && 0.0 < u && 0.0 < k && m * u == k && p <= c <= p + e
    ensures p * u / k <= c / m <= p * u / k + e / m
  {
    RealRatio(p * u, k);
    RealRatio(c, m);
    RealRatio(e, m);
    var x, y, z := p * u / k, c / m, e / m;
    assert x * m == p by { assert x * m * u == p * u; NoZeroDivisors(x * m - p, u); }
    Between(x, y, z, m, p, c, e);
  }

  lemma {:induction false} Between(x: real, y: real, z: real, m: real, p: real, c: real, e: real)
    requires 0.0 < m && x * m == p && y * m == c && z * m == e && p <= c <= p + e
    ensures x <= y <= x + z
  {
    if y < x { RealMonoStrict(y, x, m); }
    if x + z < y { RealMonoStrict(x + z, y, m); }
  }

  // ----- how near the balance is -----

  /** y overshoots or undershoots the exact quadratic by at most its slope and the stated
      error e; twice y plus lin is that slope. */
  ghost predicate NotTooLow(y: real, lin: real, c: real, e: real) {
    0.0 < 2.0 * y + lin + 1.0 && -(2.0 * y + lin + 2.0 + e) <= y * y + lin * y - c
  }

  ghost predicate NotTooHigh(y: real, lin: real, c: real) {
    y * y + lin * y - c <= 3.0 * y + lin + 1.0
  }

  lemma {:induction false} RootNotTooLow(b: int, rhs: nat, y: nat, lin: real, c: real, e: real)
    requires Root(b, rhs) <= y && b as real <= lin < (b + 1) as real && c < rhs as real + 1.0 + e
    ensures NotTooLow(y as real, lin, c, e)
  {
    hide Root, NotTooLow, Square;
    PastRoot(b, rhs, y);
    SquareAsReal(b, y);
    RealMono(b as real, lin, y as real);
    LowEnough(y as real, y as real * y as real, b as real * y as real, y as real * lin, b as real, lin, rhs as real, c,
              e);
  }

  lemma {:induction false} PastRoot(b: int, rhs: nat, y: nat)
    requires Root(b, rhs) <= y
    ensures rhs < Square(b, y) + 2 * y + b + 1 && 0 < 2 * y + b + 1
  {
    RootIsRoot(b, rhs);
    RootSlope(b, rhs, Root(b, rhs));
    AboveRoot(b, rhs, Root(b, rhs), y + 1);
    assert (y + 1) * (y + 1) + b * (y + 1) == y * y + b * y + 2 * y + b + 1;
  }

  ghost function Square(b: int, y: int): int {
    y * y + b * y
  }

  lemma {:induction false} SquareAsReal(b: int, y: int)
    ensures Square(b, y) as real == y as real * y as real + b as real * y as real
  {
    CastMul(y, y);
    CastMul(b, y);
  }

  lemma {:induction false} LowEnough(y: real, yy: real, part: real, ly: real, b: real, lin: real, rhs: real, c: real,
                                     e: real)
    requires yy == y * y && ly == y * lin && part <= ly && b <= lin && c < rhs + 1.0 + e
    requires rhs < yy + part + 2.0 * y + b + 1.0 && 0.0 < 2.0 * y + b + 1.0
    ensures NotTooLow(y, lin, c, e)
  {
  }

  lemma {:induction false} RootNotTooHigh(b: int, rhs: nat, y: nat, lin: real, c: real)
    requires Root(b, rhs) <= y <= Root(b, rhs) + 1 && b as real <= lin < (b + 1) as real && rhs as real <= c
    ensures NotTooHigh(y as real, lin, c)
  {
    hide Root, NotTooHigh, Square;
    NearRoot(b, rhs, y);
    SquareAsReal(b, y);
    OneMore(lin, b as real, y as real);
    HighEnough(y as real, y as real * y as real, b as real * y as real, y as real * lin, b as real, lin, rhs as real,
               c);
  }

  lemma {:induction false} OneMore(lin: real, b: real, y: real)
    requires lin < b + 1.0 && 0.0 <= y
    ensures y * lin <= b * y + y
  {
    RealMono(lin, b + 1.0, y);
  }

  lemma {:induction false} NearRoot(b: int, rhs: nat, y: nat)
    requires Root(b, rhs) <= y <= Root(b, rhs) + 1
    ensures Square(b, y) <= rhs + 2 * y + b + 1
  {
    var r := Root(b, rhs);
    RootIsRoot(b, rhs);
    RootSlope(b, rhs, r);
    assert (r + 1) * (r + 1) + b * (r + 1) == r * r + b * r + 2 * r + b + 1;
  }

  lemma {:induction false} HighEnough(y: real, yy: real, part: real, ly: real, b: real, lin: real, rhs: real, c: real)
    requires yy == y * y && ly == y * lin && ly <= part + y && b <= lin && rhs <= c
    requires yy + part <= rhs + 2.0 * y + b + 1.0
    ensures NotTooHigh(y, lin, c)
  {
  }

  ghost predicate AllHeld(xs: seq<nat>) {
    forall k :: 0 <= k < |xs| ==> 0 < xs[k]
  }

  /** The first step of the iteration stays below 2^254. */
  ghost predicate FirstStepFits(d: real, c: real, sum: real) {
    d * d + c < Pow2(MAX_STEPS - 1) as real * (d + sum)
  }

  /** What solving for a balance promises in terms of the exact invariant: the division error
      exactly when something is empty, and otherwise a balance that solves the exact
      quadratic up to its slope and the stated error. */
  ghost predicate KeepsNearly(xs: seq<nat>, d: int, ann: nat, n: nat, unit: nat, r: Result<int>)
    requires 0 < unit
  {
    if ann == 0 || n == 0 || !AllHeld(xs) || (d == 0 && xs == []) then r == Failure(ZeroDivision)
    else 0 <= d ==> r.Success? && 0 <= r.value && NearlyBalanced(xs, d, ann, n, unit, r.value)
  }

  ghost predicate NearlyBalanced(xs: seq<nat>, d: nat, ann: nat, n: nat, unit: nat, y: int)
    requires 0 < ann && 0 < n && 0 < unit && AllHeld(xs)
  {
    var a, rs := Amplification(ann, unit), Reals(xs);
    var lin, c := ExactLinear(d as real, a, rs), ExactRight(d as real, n as real, a, rs);
    && NotTooLow(y as real, lin, c, RightError(d as real, n as real, a, rs))
    && (FirstStepFits(d as real, c, RealSum(rs)) ==> NotTooHigh(y as real, lin, c))
  }

  lemma {:induction false} SolvedKeepsNearly(xs: seq<nat>, d: int, ann: nat, n: nat, unit: nat, r: Result<int>)
    requires 0 < unit && Solved(xs, d, ann, n, unit, r)
    ensures KeepsNearly(xs, d, ann, n, unit, r)
  {
    HeldIsDivisible(xs, n);
    if 0 < ann && 0 < n && AllHeld(xs) && 0 <= d {
      MulPositive(ann, n);
      NothingHeld(xs);
      var b, c := LinearPart(xs, d, ann, unit), RightSide(xs, d, ann, n, unit);
      LinearAtLeast(xs, d, ann, unit);
      hide LinearPart, RightSide, Divisible, NextY, Root, Sum, Pow2, NearlyBalanced;
      if 0 < d + b { RootIsNearly(xs, d, ann, n, unit, r); }
    } else if ann == 0 || n == 0 {
      assert ann * n == 0;
    }
  }

  lemma {:induction false} HeldIsDivisible(xs: seq<nat>, n: nat)
    ensures 0 < n ==> (Divisible(xs, n, 0) <==> AllHeld(xs))
  {
    if 0 < n {
      forall k | 0 <= k < |xs| ensures xs[k] * n + 0 != 0 <==> 0 < xs[k] {
        if 0 < xs[k] { MulPositive(xs[k], n); }
      }
    }
  }

  lemma {:induction false} NothingHeld(xs: seq<nat>)
    requires AllHeld(xs)
    ensures Sum(xs) == 0 <==> xs == []
  {
  }

  lemma {:induction false} LinearAtLeast(xs: seq<nat>, d: nat, ann: nat, unit: nat)
    requires 0 < ann
    ensures Sum(xs) <= LinearPart(xs, d, ann, unit)
    ensures d == 0 ==> LinearPart(xs, d, ann, unit) == Sum(xs)
  {
    RatioSign(d, unit, ann);
    if d == 0 { FloorUnique(0, ann, 0); }
  }

  lemma {:induction false} RootIsNearly(xs: seq<nat>, d: nat, ann: nat, n: nat, unit: nat, r: Result<int>)
    requires 0 < ann && 0 < n && 0 < unit && AllHeld(xs) && Solved(xs, d, ann, n, unit, r)
    requires 0 < d + LinearPart(xs, d, ann, unit)
    ensures r.Success? && 0 <= r.value && NearlyBalanced(xs, d, ann, n, unit, r.value)
  {
    HeldIsDivisible(xs, n);
    MulPositive(ann, n);
    LinearPartNear(xs, d, ann, unit);
    RightSideNear(xs, d, ann, n, unit);
    LinearAtLeast(xs, d, ann, unit);
    SumIsReal(xs);
    var a, rs := Amplification(ann, unit), Reals(xs);
    var b, rhs := LinearPart(xs, d, ann, unit) - d, RightSide(xs, d, ann, n, unit);
    var lin, c := ExactLinear(d as real, a, rs), ExactRight(d as real, n as real, a, rs);
    hide LinearPart, RightSide, Divisible, NextY, Root, Sum, Pow2, RealSum, Reals, ExactLinear, ExactRight, RightError;
    hide NotTooLow, NotTooHigh, FirstStepFits;
    RootNotTooLow(b, rhs, r.value, lin, c, RightError(d as real, n as real, a, rs));
    if FirstStepFits(d as real, c, RealSum(rs)) {
      FirstStep(b, rhs, d, Sum(xs), c);
      RootNotTooHigh(b, rhs, r.value, lin, c);
    }
  }

  lemma {:induction false} FirstStep(b: int, rhs: nat, d: nat, sum: nat, c: real)
    requires sum <= b + d && 0 < 2 * d + b && rhs as real <= c && FirstStepFits(d as real, c, sum as real)
    ensures NextY(b, rhs, d) < Pow2(MAX_STEPS - 1)
  {
    var p := Pow2(MAX_STEPS - 1);
    hide Pow2;
    CastMul(d, d);
    CastMul(p, d + sum);
    assert d * d + rhs < p * (d + sum);
    MulMono(d + sum, 2 * d + b, p);
    FloorGalois(d * d + rhs, 2 * d + b, p);
  }

  // ----- the methods -----

  method SolveY(xp: seq<nat>, x: nat, i: int, j: int, d: int, ann: nat, n: nat, unit: nat) returns (r: Result<int>)
    requires n <= |xp| && 0 < unit
    ensures Solved(Others(xp, x, i, j, n), d, ann, n, unit, r)
    ensures KeepsNearly(Others(xp, x, i, j, n), d, ann, n, unit, r)
  {
    hide Chain, Sum, Divisible, Others, Root, Pow2, NextY, KeepsNearly;
    ghost var xs := Others(xp, x, i, j, n);
    var reduced := Reduce(xp, x, i, j, d, n);
    if reduced.Failure? {
      r := Failure(reduced.error);
    } else if ann * n == 0 {
      r := Failure(ZeroDivision);
    } else {
      var (s, product) := reduced.value;
      PositiveFactors(ann, n);
      var c := product * d * unit / (ann * n);
      var b := s + d * unit / ann;
      ghost var settled;
      r, settled := NewtonY(b, c, d, d);
    }
    SolvedKeepsNearly(xs, d, ann, n, unit, r);
  }

  const A_PRECISION: nat := 100

  /** The balance of coin j after coin i has become x, at invariant d. */
  method GetY(i: int, j: int, x: nat, xp: seq<nat>, amp: nat, d: int, n: nat) returns (r: Result<int>)
    requires n <= |xp|
    ensures if i == j || !(0 <= j < n) || !(0 <= i < n) then r == Failure(AssertionFailed)
            else
              var ys := xp[..n][i := x];
              && Solved(ys[..j] + ys[j + 1..], d, amp * n, n, 100, r)
              && KeepsNearly(ys[..j] + ys[j + 1..], d, amp * n, n, 100, r)
  {
    if i == j || !(0 <= j < n) || !(0 <= i < n) { return Failure(AssertionFailed); }
    hide Solved, KeepsNearly;
    OthersAre(xp, x, i, j, n);
    r := SolveY(xp, x, i, j, d, amp * n, n, A_PRECISION);
  }

  /** The balance of coin i at a lowered invariant d, the others staying as they are. */
  method GetYD(amp: nat, i: int, xp: seq<nat>, d: int, n: nat) returns (r: Result<int>)
    requires n <= |xp|
    ensures if !(0 <= i < n) then r == Failure(AssertionFailed)
            else
              var ys := xp[..n];
              && Solved(ys[..i] + ys[i + 1..], d, amp * n, n, 1, r)
              && KeepsNearly(ys[..i] + ys[i + 1..], d, amp * n, n, 1, r)
  {
    if !(0 <= i < n) { return Failure(AssertionFailed); }
    hide Solved, KeepsNearly;
    OthersAre(xp, 0, -1, i, n);
    r := SolveY(xp, 0, -1, i, d, amp * n, n, 1);
  }

  // ----- how far from the exact balance -----

  /** A balance found is at most three above the one that keeps the invariant exactly; below
      it by more than one only as far as the rounding of the product explains. */
  lemma {:induction false} BalanceNearExact(xs: seq<nat>, d: nat, ann: nat, n: nat, unit: nat, y: nat, z: real)
    requires 0 < ann && 0 < n && 0 < unit && AllHeld(xs) && NearlyBalanced(xs, d, ann, n, unit, y)
    requires 1.0 <= z && AllPositive(Reals(xs) + [z])
    requires KeepsInvariant(d as real, n as real, Amplification(ann, unit), Reals(xs) + [z])
    ensures var a, rs := Amplification(ann, unit), Reals(xs);
            var lin, c := ExactLinear(d as real, a, rs), ExactRight(d as real, n as real, a, rs);
            && (FirstStepFits(d as real, c, RealSum(rs)) ==> y as real <= z + 3.0)
            && (z - y as real - 1.0) * (y as real + z + lin) <= 2.0 + RightError(d as real, n as real, a, rs)
  {
    var a, rs := Amplification(ann, unit), Reals(xs);
    var lin, c := ExactLinear(d as real, a, rs), ExactRight(d as real, n as real, a, rs);
    assert AllPositive(rs) by { Shorter(rs, z); }
    hide KeepsInvariant, ExactRight, ExactLinear, RightError, RealSum, Reals, RealChain, Amplification, OnQuadratic;
    hide NotTooLow, NotTooHigh, FirstStepFits, AllPositive;
    RightIs(d as real, n as real, a, rs);
    ExactOnQuadratic(d as real, n as real, a, rs, z);
    NearExact(y as real, z, lin, c, RightError(d as real, n as real, a, rs));
  }

  lemma {:induction false} Shorter(xs: seq<real>, z: real)
    requires AllPositive(xs + [z])
    ensures AllPositive(xs)
  {
    assert forall k :: 0 <= k < |xs| ==> (xs + [z])[k] == xs[k];
  }

  lemma {:induction false} ExactOnQuadratic(d: real, n: real, a: real, xs: seq<real>, z: real)
    requires 0.0 < n && 0.0 < a && 0.0 <= d && 0.0 < z && AllPositive(xs) && AllPositive(xs + [z])
    requires KeepsInvariant(d, n, a, xs + [z])
    ensures OnQuadratic(z, ExactLinear(d, a, xs), ExactRight(d, n, a, xs))
  {
    RightIs(d, n, a, xs);
    hide ExactRight, RealChain, RealSum, KeepsInvariant, OnQuadratic;
    QuadraticIsInvariant(d, n, a, xs, z, ExactRight(d, n, a, xs));
  }

  lemma {:induction false} RightIs(d: real, n: real, a: real, xs: seq<real>)
    requires 0.0 < n && 0.0 < a && 0.0 <= d && AllPositive(xs)
    ensures ExactRight(d, n, a, xs) * (a * n) == RealChain(d, n, xs) * d && 0.0 <= ExactRight(d, n, a, xs)
    ensures 0.0 <= RightError(d, n, a, xs)
  {
    RealMulPositive(a, n);
    RealChainSign(d, n, xs);
    RealNonNegative(RealChain(d, n, xs), d);
    RealRatio(RealChain(d, n, xs) * d, a * n);
    RealNonNegative(Lost(d, n, xs), d);
    RealRatio(Lost(d, n, xs) * d, a * n);
  }

  lemma {:induction false} RealChainSign(d: real, n: real, xs: seq<real>)
    requires 0.0 < n && 0.0 <= d && AllPositive(xs)
    ensures 0.0 <= RealChain(d, n, xs)
  {
    if xs != [] {
      var init, x := xs[..|xs| - 1], xs[|xs| - 1];
      RealChainSign(d, n, init);
      RealMulPositive(x, n);
      RealNonNegative(RealChain(d, n, init), d);
      RealRatio(RealChain(d, n, init) * d, x * n);
    }
  }

  lemma {:induction false} NearExact(y: real, z: real, lin: real, c: real, e: real)
    requires 0.0 <= y && 1.0 <= z && 0.0 <= c && 0.0 <= e && OnQuadratic(z, lin, c) && NotTooLow(y, lin, c, e)
    ensures NotTooHigh(y, lin, c) ==> y <= z + 3.0
    ensures (z - y - 1.0) * (y + z + lin) <= 2.0 + e
  {
    var w := y + z + lin;
    NonNegativeShare(z, z + lin, c);
    assert y * y + lin * y - c == (y - z) * w;
    if y < z {
      assert (z - y - 1.0) * w == -((y - z) * w) - w;
    } else {
      RealNonNegative(y - z + 1.0, w);
      assert (z - y - 1.0) * w == -((y - z + 1.0) * w);
    }
    NotFarAbove(y, z, lin, w, (y - z) * w);
  }

  lemma {:induction false} NonNegativeShare(z: real, s: real, c: real)
    requires 0.0 < z && 0.0 <= c && z * s == c
    ensures 0.0 <= s
  {
    RealCancel(0.0, s, z);
  }

  lemma {:induction false} NotFarAbove(y: real, z: real, lin: real, w: real, q: real)
    requires 1.0 <= z && 0.0 <= y && 0.0 <= z + lin && w == y + z + lin && q == (y - z) * w
    ensures q <= 3.0 * y + lin + 1.0 ==> y <= z + 3.0
  {
    if z + 3.0 < y { RealMonoStrict(3.0, y - z, w); }
  }
}
