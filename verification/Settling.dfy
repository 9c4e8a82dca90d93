/** When the search for the StableSwap invariant settles: for balances that are not too
    unequal for their amplification it always does, within the steps it is allowed.
    The proof follows the search on the convex function the exact invariant is the
    root of; the roundings of the code enter as bounded noise. */
module Settling {
  import opened Arithmetic
  import opened Means
  import opened Results
  import opened StableSwap
  import opened InvariantSearch

  // ----- powers of two nearby numbers -----

  /** Bernoulli's inequality: (v / u)^n is at least 1 - n (u - v) / u. */
  lemma {:induction false} PowerBernoulli(u: nat, v: nat, n: nat)
    requires v <= u
    ensures Power(u, n) * (u - n * (u - v)) <= Power(v, n) * u
  {
    if n != 0 {
      Tangent(u, v, n - 1);
      var p, q := Power(u, n - 1), Power(v, n);
      assert Power(u, n) == u * p;
      hide Power;
      BernoulliStep(u, v, n, p, q);
    }
  }

  lemma {:induction false} BernoulliStep(u: nat, v: nat, n: nat, p: nat, q: nat)
    requires u * p + n * p * (v - u) <= q
    ensures u * p * (u - n * (u - v)) <= q * u
  {
    var m := u - v;
    assert n * p * (v - u) == -(n * p * m);
    MulMono(u * p - n * p * m, q, u);
    assert n * p * m * u == u * p * (n * m);
    assert u * p * (u - n * m) == u * p * u - u * p * (n * m);
    assert (u * p - n * p * m) * u == u * p * u - n * p * m * u;
  }

  lemma {:induction false} HalfPower(u: nat, v: nat, n: nat)
    requires v <= u && 2 * n * (u - v) <= u && 0 < u
    ensures Power(u, n) <= 2 * Power(v, n)
  {
    PowerBernoulli(u, v, n);
    hide Power;
    Halves(Power(u, n), Power(v, n), u, u - n * (u - v));
  }

  lemma {:induction false} Halves(a: nat, b: nat, u: nat, t: int)
    requires a * t <= b * u && u <= 2 * t && 0 < u
    ensures a <= 2 * b
  {
    MulMono(u, 2 * t, a);
    assert 2 * t * a == 2 * (a * t) && u * a == a * u && 2 * b * u == 2 * (b * u);
    MulCancel(a, 2 * b, u);
  }

  /** Going down by less than one part in n + 1 keeps a quarter of the n-th power. */
  lemma {:induction false} QuarterPower(u: nat, v: nat, n: nat)
    requires v <= u && (n + 1) * (u - v) < u
    ensures Power(u, n) <= 4 * Power(v, n)
  {
    var h, k := n / 2, n - n / 2;
    MulMono(2 * h, n + 1, u - v);
    MulMono(2 * k, n + 1, u - v);
    HalfPower(u, v, h);
    HalfPower(u, v, k);
    PowerAdd(u, h, k);
    PowerAdd(v, h, k);
    hide Power;
    BothHalves(Power(u, h), Power(v, h), Power(u, k), Power(v, k));
  }

  lemma {:induction false} BothHalves(a: nat, b: nat, c: nat, d: nat)
    requires a <= 2 * b && c <= 2 * d
    ensures a * c <= 4 * (b * d)
  {
    MulBoth(a, 2 * b, c, 2 * d);
    assert 2 * b * (2 * d) == 4 * (b * d);
  }

  /** One unit less keeps four fifths of the n-th power of a number of at least 5 n. */
  lemma {:induction false} UnitLess(v: nat, n: nat)
    requires 5 * n <= v && 0 < v
    ensures 4 * Power(v, n) <= 5 * Power(v - 1, n)
  {
    PowerBernoulli(v, v - 1, n);
    hide Power;
    FourFifths(Power(v, n), Power(v - 1, n), v, v - n);
  }

  lemma {:induction false} FourFifths(a: nat, b: nat, v: nat, t: int)
    requires a * t <= b * v && 4 * v <= 5 * t && 0 < v
    ensures 4 * a <= 5 * b
  {
    MulMono(4 * v, 5 * t, a);
    assert 5 * t * a == 5 * (a * t) && 4 * v * a == 4 * a * v && 5 * b * v == 5 * (b * v);
    MulCancel(4 * a, 5 * b, v);
  }

  // ----- the exact curve -----

  /** The curve whose root is the invariant: slope * d + d^(n+1) / product - target. */
  datatype Curve = Curve(n: nat, product: real, slope: real, target: int)

  ghost predicate Rising(c: Curve) {
    0.0 < c.product && 0.0 <= c.slope
  }

  /** d^n over the product. */
  ghost function Weight(c: Curve, d: nat): (w: real)
    requires Rising(c)
    ensures 0.0 <= w
  {
    RealRatio(Power(d, c.n) as real, c.product);
    Power(d, c.n) as real / c.product
  }

  ghost function Height(c: Curve, d: nat): real
    requires Rising(c)
  {
    Line(c.slope, d as real, Weight(c, d), c.target as real)
  }

  ghost function Steepness(c: Curve, d: nat): real
    requires Rising(c)
  {
    c.slope + (c.n + 1) as real * Weight(c, d)
  }

  /** v^(n+1) is above the tangent at u, shared by the product: y at v, x at u. */
  ghost predicate Tangential(u: real, x: real, m: real, v: real, y: real) {
    u * x + m * x * (v - u) <= v * y
  }

  /** The height above the line of the slope. */
  ghost function Line(s: real, d: real, w: real, t: real): real {
    s * d + d * w - t
  }

  /** The curve lies above its tangents. */
  lemma {:induction false} AboveTangent(c: Curve, u: nat, v: nat)
    requires Rising(c)
    ensures Height(c, u) + Steepness(c, u) * (v as real - u as real) <= Height(c, v)
  {
    SharedTangent(c, u, v);
    hide Tangential, Weight, Line;
    TangentSum(c.slope, u as real, v as real, (c.n + 1) as real, Weight(c, u), Weight(c, v), c.target as real);
  }

  lemma {:induction false} SharedTangent(c: Curve, u: nat, v: nat)
    requires Rising(c)
    ensures Tangential(u as real, Weight(c, u), (c.n + 1) as real, v as real, Weight(c, v))
  {
    Tangent(u, v, c.n);
    hide Tangential;
    CastTangent(u, Power(u, c.n), c.n + 1, v, Power(v, c.n));
    hide Power;
    TangentShare(u as real, Power(u, c.n) as real, (c.n + 1) as real, v as real, Power(v, c.n) as real, c.product);
  }

  lemma {:induction false} CastTangent(u: nat, a: nat, m: nat, v: nat, b: nat)
    requires u * a + m * a * (v - u) <= v * b
    ensures Tangential(u as real, a as real, m as real, v as real, b as real)
  {
    CastMul(u, a);
    CastMul(v, b);
    CastMul(m, a);
    CastMul(m * a, v - u);
  }

  lemma {:induction false} TangentShare(u: real, a: real, m: real, v: real, b: real, q: real)
    requires 0.0 < q && Tangential(u, a, m, v, b)
    ensures Tangential(u, a / q, m, v, b / q)
  {
    var x, y, d := a / q, b / q, v - u;
    assert a == x * q && b == y * q;
    assert (u * x + m * x * d) * q == u * a + m * a * d;
    assert v * y * q == v * b;
    RealCancel(u * x + m * x * d, v * y, q);
  }

  lemma {:induction false} TangentSum(s: real, u: real, v: real, m: real, x: real, y: real, t: real)
    requires Tangential(u, x, m, v, y)
    ensures Line(s, u, x, t) + (s + m * x) * (v - u) <= Line(s, v, y, t)
  {
    assert (s + m * x) * (v - u) == s * v - s * u + m * x * (v - u);
  }

  // ----- one step of the search against the curve -----

  /** The two rounded parts the code uses at d: a slope part that misses less than one,
      and a product that misses at most the noise. */
  ghost predicate Rounded(c: Curve, d: nat, part: nat, p: nat, noise: nat)
    requires Rising(c)
  {
    && part as real <= c.slope * d as real < part as real + 1.0
    && p as real <= d as real * Weight(c, d) <= p as real + noise as real
  }

  /** next is where the code's step from d leads, the divisor being positive. */
  ghost predicate Moves(c: Curve, d: nat, part: nat, p: nat, next: nat) {
    var divisor, over := part + (c.n + 1) * p, part + p - c.target;
    0 < divisor && (next - d) * divisor <= -(d * over) < (next - d + 1) * divisor
  }

  /** A step down never passes the root by a whole unit, and goes down by less than one
      part in n + 1 before the last unit. */
  lemma {:induction false} NotPast(c: Curve, d: nat, part: nat, p: nat, noise: nat, next: nat)
    requires Rising(c) && Rounded(c, d, part, p, noise) && Moves(c, d, part, p, next)
    requires 0 < d && c.target < part + p && part + d <= c.target
    ensures next < d && (c.n + 1) * (d - next - 1) < d && 0.0 <= Height(c, next + 1)
  {
    hide Weight, Height, Power, Moves, Rounded, AtTangent, Falls, Under;
    var m := d - next - 1;
    MovesDown(c, d, part, p, next);
    TangentBelow(c, d, m);
    RoundedBelow(c, d, part, p, noise);
    TangentAtEnd(d as real, m as real, c.slope, (c.n + 1) as real, Weight(c, d), part as real, p as real,
                 c.target as real, Height(c, next + 1));
  }

  /** Going down m units is at most what the code's divisor and excess allow. */
  ghost predicate Falls(d: real, m: real, k: real, part: real, p: real, t: real) {
    0.0 <= m <= d && k * m <= d && m * (part + k * p) <= d * (part + p - t)
  }

  ghost predicate Under(d: real, s: real, w: real, part: real, p: real) {
    part <= s * d && p <= d * w
  }

  lemma {:induction false} MovesDown(c: Curve, d: nat, part: nat, p: nat, next: nat)
    requires 0 < d && Moves(c, d, part, p, next) && c.target < part + p && part + d <= c.target
    ensures next < d && (c.n + 1) * (d - next - 1) < d
    ensures Falls(d as real, (d - next - 1) as real, (c.n + 1) as real, part as real, p as real, c.target as real)
  {
    var k := c.n + 1;
    Descends(d, next, part + k * p, part + p - c.target, k, p);
    CastDescent(d, d - next - 1, k, part, p, c.target);
  }

  lemma {:induction false} RoundedBelow(c: Curve, d: nat, part: nat, p: nat, noise: nat)
    requires Rising(c) && Rounded(c, d, part, p, noise)
    ensures Under(d as real, c.slope, Weight(c, d), part as real, p as real)
  {
    hide Weight;
  }

  lemma {:induction false} TangentBelow(c: Curve, d: nat, m: nat)
    requires Rising(c) && m <= d
    ensures AtTangent(c.slope, d as real, Weight(c, d), c.target as real, (c.n + 1) as real, m as real)
         <= Height(c, d - m)
  {
    AboveTangent(c, d, d - m);
    assert (d - m) as real - d as real == -(m as real);
  }

  /** The tangent at d, taken m further down. */
  ghost function AtTangent(s: real, d: real, w: real, t: real, k: real, m: real): real {
    s * d + d * w - t + (s + k * w) * -m
  }

  lemma {:induction false} CastDescent(d: nat, m: nat, k: nat, part: nat, p: nat, t: int)
    requires m * (part + k * p) <= d * (part + p - t) && k * m <= d && m <= d
    ensures k as real * m as real <= d as real
    ensures m as real * (part as real + k as real * p as real) <= d as real * (part as real + p as real - t as real)
  {
    CastMul(k, p);
    CastMul(m, part + k * p);
    CastMul(d, part + p - t);
    CastMul(k, m);
  }

  lemma {:induction false} Descends(d: nat, next: nat, divisor: nat, over: nat, k: nat, p: nat)
    requires 0 < over < p && k * p <= divisor && (next - d) * divisor <= -(d * over) < (next - d + 1) * divisor
    requires 0 < d && 0 < divisor
    ensures next < d
    ensures var m := d - next - 1; m * divisor < d * over && k * m < d
  {
    MulStrict(0, over, d);
    assert over * d == d * over;
    if d <= next { MulMono(0, next - d, divisor); }
    var m := d - next - 1;
    assert (next - d + 1) * divisor == -(m * divisor);
    MulMono(k * p, divisor, m);
    MulMono(over, p, d);
    assert k * p * m == k * m * p && over * d == d * over && divisor * m == m * divisor && p * d == d * p;
    MulCancelStrict(k * m, d, p);
  }

  lemma {:induction false} TangentAtEnd(d: real, m: real, s: real, k: real, w: real, part: real, p: real, t: real,
                                        h: real)
    requires 0.0 < d && Falls(d, m, k, part, p, t) && Under(d, s, w, part, p)
    requires AtTangent(s, d, w, t, k, m) <= h
    ensures 0.0 <= h
  {
    var x, y := s * d, d * w;
    var tangent := x + y - t + (s + k * w) * -m;
    assert d * (s + k * w) == x + k * y;
    assert d * ((s + k * w) * -m) == -(m * (x + k * y));
    Slack(d, m, k, x - part, y - p);
    assert d * (x + y - t) == d * (part + p - t) + d * (x - part) + d * (y - p);
    assert m * (x + k * y) == m * (part + k * p) + m * (x - part) + k * m * (y - p);
    assert d * tangent == d * (x + y - t) - m * (x + k * y);
    NonNegativeProduct(d, tangent);
  }

  lemma {:induction false} Slack(d: real, m: real, k: real, a: real, e: real)
    requires m <= d && k * m <= d && 0.0 <= a && 0.0 <= e
    ensures m * a <= d * a && k * m * e <= d * e
  {
  }

  lemma {:induction false} NonNegativeProduct(d: real, x: real)
    requires 0.0 < d && 0.0 <= d * x
    ensures 0.0 <= x
  {
  }

  /** Just below the root a step up is at most one: the search settles there. */
  lemma {:induction false} SettlesBelow(c: Curve, d: nat, part: nat, p: nat, noise: nat, next: nat)
    requires Rising(c) && Rounded(c, d, part, p, noise) && Moves(c, d, part, p, next)
    requires part + p <= c.target && 0.0 <= Height(c, d + 1)
    requires noise as real + 2.0 <= c.slope && 2 + 2 * (c.n + 1) * noise <= d && 2 * c.n <= d
    ensures 0 <= next - d <= 1
  {
    hide Weight, Height, Power, Moves, Rounded, NearTangent, Within;
    TangentUp(c, d);
    DoubledWeight(c, d);
    CastNoise(d, c.n + 1, noise);
    RoundedWithin(c, d, part, p, noise);
    Ascends(d as real, c.slope, (c.n + 1) as real, Weight(c, d), Weight(c, d + 1), part as real, p as real,
            noise as real, c.target as real);
    MovesUp(c, d, part, p, next);
  }

  ghost predicate Within(d: real, s: real, w: real, part: real, p: real, e: real) {
    part <= s * d < part + 1.0 && p <= d * w <= p + e
  }

  lemma {:induction false} RoundedWithin(c: Curve, d: nat, part: nat, p: nat, noise: nat)
    requires Rising(c) && Rounded(c, d, part, p, noise)
    ensures Within(d as real, c.slope, Weight(c, d), part as real, p as real, noise as real)
  {
    hide Weight;
  }

  /** d times the shortfall is less than twice the divisor. */
  ghost predicate Small(d: real, k: real, part: real, p: real, t: real) {
    d * (t - part - p) < 2.0 * (part + k * p)
  }

  lemma {:induction false} MovesUp(c: Curve, d: nat, part: nat, p: nat, next: nat)
    requires Moves(c, d, part, p, next) && part + p <= c.target
    requires Small(d as real, (c.n + 1) as real, part as real, p as real, c.target as real)
    ensures 0 <= next - d <= 1
  {
    var k := c.n + 1;
    CastAscent(d, k, part, p, c.target);
    MulMono(0, c.target - part - p, d);
    AtMostOne(d, next, part + k * p, c.target - part - p);
  }

  lemma {:induction false} TangentUp(c: Curve, d: nat)
    requires Rising(c) && 0.0 <= Height(c, d + 1)
    ensures NearTangent(c.slope, d as real, Weight(c, d), Weight(c, d + 1), c.target as real, (c.n + 1) as real)
  {
    AboveTangent(c, d + 1, d);
    hide Weight, Power;
    OneBack(c.slope, d as real, Weight(c, d), Weight(c, d + 1), c.target as real, (c.n + 1) as real, Height(c, d + 1));
  }

  lemma {:induction false} OneBack(s: real, d: real, w: real, v: real, t: real, k: real, h: real)
    requires 0.0 <= h && h + (s + k * v) * (d - (d + 1.0)) <= Line(s, d, w, t)
    ensures NearTangent(s, d, w, v, t, k)
  {
    assert d - (d + 1.0) == -1.0;
    assert (s + k * v) * -1.0 == -(s + k * v);
  }

  /** The height at d is at least what the tangent at d + 1 leaves of a height of zero there. */
  ghost predicate NearTangent(s: real, d: real, w: real, v: real, t: real, k: real) {
    -(s + k * v) <= s * d + d * w - t
  }

  lemma {:induction false} CastNoise(d: nat, k: nat, noise: nat)
    requires 2 + 2 * k * noise <= d
    ensures 2.0 + 2.0 * k as real * noise as real <= d as real
  {
    CastMul(2 * k, noise);
  }

  lemma {:induction false} CastAscent(d: nat, k: nat, part: nat, p: nat, t: int)
    requires Small(d as real, k as real, part as real, p as real, t as real)
    ensures d * (t - part - p) < 2 * (part + k * p)
  {
    CastMul(k, p);
    CastMul(d, t - part - p);
  }

  lemma {:induction false} DoubledWeight(c: Curve, d: nat)
    requires Rising(c) && 2 * c.n <= d
    ensures Weight(c, d + 1) <= 2.0 * Weight(c, d)
  {
    HalfPower(d + 1, d, c.n);
    ShareOrder(Power(d + 1, c.n) as real, 2.0 * Power(d, c.n) as real, c.product);
    ShareScale(Power(d, c.n) as real, c.product);
  }

  lemma {:induction false} ShareOrder(a: real, b: real, q: real)
    requires 0.0 < q && a <= b
    ensures a / q <= b / q
  {
    assert a / q * q == a && b / q * q == b;
    RealCancel(a / q, b / q, q);
  }

  lemma {:induction false} ShareScale(a: real, q: real)
    requires 0.0 < q
    ensures 2.0 * a / q == 2.0 * (a / q)
  {
  }

  lemma {:induction false} Ascends(d: real, s: real, k: real, w: real, v: real, part: real, p: real, e: real, t: real)
    requires 0.0 < d && 0.0 <= k && 0.0 <= w && v <= 2.0 * w && 0.0 <= e
    requires Within(d, s, w, part, p, e) && NearTangent(s, d, w, v, t, k)
    requires e + 2.0 <= s && 2.0 + 2.0 * k * e <= d
    ensures Small(d, k, part, p, t)
  {
    var under := t - part - p;
    RealMono(v, 2.0 * w, k);
    assert under < 1.0 + e + s + 2.0 * (k * w);
    hide NearTangent, AddsUp, Within;
    Shortfall(d, s, k, w, under, e);
    SmallAtLast(d, s, k, w, part, p, e, under);
  }

  lemma {:induction false} SmallAtLast(d: real, s: real, k: real, w: real, part: real, p: real, e: real, under: real)
    requires 0.0 < d && 0.0 <= k && Within(d, s, w, part, p, e) && e + 2.0 <= s && 2.0 + 2.0 * k * e <= d
    requires AddsUp(d * under, d * (e + 1.0), s * d, k * (d * w))
    ensures d * under < 2.0 * (part + k * p)
  {
    RealMono(d * w, p + e, k);
    RealMono(e + 2.0, s, d);
    Expands(d, e, k, p);
    hide AddsUp;
    Collects(d * under, d * (e + 1.0), s * d, k * (d * w), k * p, k * e, d, part);
  }

  ghost predicate AddsUp(u: real, a: real, x: real, y: real) {
    u < a + x + 2.0 * y
  }

  lemma {:induction false} Collects(u: real, a: real, x: real, y: real, z: real, v: real, d: real, part: real)
    requires AddsUp(u, a, x, y) && y <= z + v && a + d <= x && 2.0 + 2.0 * v <= d && x < part + 1.0
    ensures u < 2.0 * (part + z)
  {
  }

  lemma {:induction false} Expands(d: real, e: real, k: real, p: real)
    ensures d * (e + 2.0) == d * (e + 1.0) + d && k * (p + e) == k * p + k * e && 2.0 * k * e == 2.0 * (k * e)
  {
  }

  lemma {:induction false} Shortfall(d: real, s: real, k: real, w: real, under: real, e: real)
    requires 0.0 < d && under < 1.0 + e + s + 2.0 * (k * w)
    ensures AddsUp(d * under, d * (e + 1.0), s * d, k * (d * w))
  {
    RealMonoStrict(under, 1.0 + e + s + 2.0 * (k * w), d);
    assert d * (2.0 * (k * w)) == 2.0 * (k * (d * w));
  }

  lemma {:induction false} AtMostOne(d: nat, next: nat, divisor: nat, under: nat)
    requires 0 < divisor && d * under < 2 * divisor && 0 <= d * under
    requires (next - d) * divisor <= d * under < (next - d + 1) * divisor
    ensures 0 <= next - d <= 1
  {
    if 2 <= next - d { MulMono(2, next - d, divisor); }
    if next - d <= -1 { MulMono(next - d + 1, 0, divisor); }
  }

  /** A step down takes the height down by the share r of it, but for the noise, when
      the weight keeps the share r. */
  lemma {:induction false} Lowers(c: Curve, d: nat, part: nat, p: nat, noise: nat, next: nat, r: real)
    requires Rising(c) && Rounded(c, d, part, p, noise) && Moves(c, d, part, p, next)
    requires 0 < d && c.target < part + p && next < d
    requires 0.0 <= r <= 1.0 && r * Weight(c, d) <= Weight(c, next)
    ensures Height(c, next) <= (1.0 - r) * Height(c, d) + (1.0 + noise as real)
  {
    hide Weight, Power, Moves, Rounded, Within, Line, Lasts;
    MovesFar(c, d, part, p, next);
    RoundedWithin(c, d, part, p, noise);
    AboveTangent(c, next, d);
    LowersBy(d as real, (d - next) as real, c.slope, (c.n + 1) as real, Weight(c, d), Weight(c, next),
             part as real, p as real, noise as real, c.target as real, Height(c, next), r);
  }

  /** The way down is at least what the code's divisor and excess ask for. */
  ghost predicate Lasts(d: real, way: real, k: real, part: real, p: real, t: real) {
    d * (part + p - t) <= way * (part + k * p)
  }

  lemma {:induction false} MovesFar(c: Curve, d: nat, part: nat, p: nat, next: nat)
    requires Moves(c, d, part, p, next)
    ensures Lasts(d as real, (d - next) as real, (c.n + 1) as real, part as real, p as real, c.target as real)
  {
    var k := c.n + 1;
    assert (next - d) * (part + k * p) == -((d - next) * (part + k * p));
    CastMul(k, p);
    CastMul(d - next, part + k * p);
    CastMul(d, part + p - c.target);
  }

  lemma {:induction false} LowersBy(d: real, way: real, s: real, k: real, w: real, v: real, part: real, p: real,
                                    e: real, t: real, low: real, r: real)
    requires 0.0 < d && 0.0 < way && 0.0 <= s && 0.0 <= k && 0.0 <= w && 0.0 <= p && 0.0 <= e
    requires 0.0 <= r <= 1.0 && r * w <= v && Within(d, s, w, part, p, e) && Lasts(d, way, k, part, p, t)
    requires low + (s + k * v) * way <= Line(s, d, w, t) && t < part + p
    ensures low <= (1.0 - r) * Line(s, d, w, t) + (1.0 + e)
  {
    var over := part + p - t;
    Reaches(d, way, s, k, w, part, p, over);
    Shares(s, k, w, v, r);
    Excess(d, s, w, part, p, e, t);
    hide Within, Lasts, Line;
    ShareOfOver(r, over, way, s + k * w, s + k * v);
    LowAtLast(low, Line(s, d, w, t), over, e, r, (s + k * v) * way);
  }

  lemma {:induction false} Excess(d: real, s: real, w: real, part: real, p: real, e: real, t: real)
    requires Within(d, s, w, part, p, e)
    ensures Line(s, d, w, t) < part + p - t + 1.0 + e
  {
  }

  lemma {:induction false} ShareOfOver(r: real, over: real, way: real, a: real, b: real)
    requires 0.0 <= r && 0.0 < way && over <= way * a && r * a <= b
    ensures r * over <= b * way
  {
    RealMono(over, way * a, r);
    RealMono(r * a, b, way);
    assert r * (way * a) == way * (r * a);
  }

  lemma {:induction false} LowAtLast(low: real, h: real, over: real, e: real, r: real, fall: real)
    requires low + fall <= h && r * over <= fall && h < over + 1.0 + e && 0.0 <= r <= 1.0 && 0.0 <= e
    ensures low <= (1.0 - r) * h + (1.0 + e)
  {
    var y := 1.0 + e;
    RealMono(h - y, over, r);
    RealMono(r, 1.0, y);
    Distributes(r, h, y);
    Adds(low, h, fall, r * over, r * h, y * r, y);
  }

  lemma {:induction false} Adds(low: real, h: real, fall: real, ro: real, rh: real, yr: real, y: real)
    requires low + fall <= h && ro <= fall && rh - yr <= ro && yr <= y
    ensures low <= h - rh + y
  {
  }

  lemma {:induction false} Distributes(r: real, h: real, y: real)
    ensures r * (h - y) == r * h - y * r && (1.0 - r) * h == h - r * h
  {
  }

  lemma {:induction false} Reaches(d: real, way: real, s: real, k: real, w: real, part: real, p: real, over: real)
    requires 0.0 < d && 0.0 < way && 0.0 <= k && Under(d, s, w, part, p) && d * over <= way * (part + k * p)
    ensures over <= way * (s + k * w)
  {
    RealMono(p, d * w, k);
    RealMono(part + k * p, d * (s + k * w), way);
    assert d * (s + k * w) == s * d + k * (d * w);
    assert way * (d * (s + k * w)) == d * (way * (s + k * w));
    RealCancel(over, way * (s + k * w), d);
  }

  lemma {:induction false} Shares(s: real, k: real, w: real, v: real, r: real)
    requires 0.0 <= s && 0.0 <= k && r <= 1.0 && r * w <= v
    ensures r * (s + k * w) <= s + k * v
  {
    RealMono(r, 1.0, s);
    RealMono(r * w, v, k);
    assert r * (s + k * w) == s * r + k * (r * w);
  }

  /** A step down by more than one only happens at a height above the slope. */
  lemma {:induction false} FarIsHigh(c: Curve, d: nat, part: nat, p: nat, noise: nat, next: nat)
    requires Rising(c) && Rounded(c, d, part, p, noise) && Moves(c, d, part, p, next)
    requires 2 <= d && c.target < part + p && next <= d - 2
    ensures c.slope - 0.5 < (part + p - c.target) as real <= Height(c, d)
  {
    var over := part + p - c.target;
    MulMono(0, c.n + 1, p);
    MulMono(next - d + 1, -1, part + (c.n + 1) * p);
    assert part < d * over;
    CastMul(d, over);
    RoundedWithin(c, d, part, p, noise);
    hide Weight, Moves, Rounded;
    if over as real <= c.slope - 0.5 {
      RealMono(over as real, c.slope - 0.5, d as real);
    }
  }

  // ----- how much the product of the code can miss -----

  /** The divisors of the product. */
  ghost function Scaled(xs: seq<nat>, n: nat, extra: nat): (ys: seq<nat>)
    ensures |ys| == |xs| && forall k :: 0 <= k < |xs| ==> ys[k] == xs[k] * n + extra
  {
    seq(|xs|, k requires 0 <= k < |xs| => xs[k] * n + extra)
  }

  lemma {:induction false} ScaledSnoc(xs: seq<nat>, x: nat, n: nat, extra: nat)
    ensures Scaled(xs + [x], n, extra) == Scaled(xs, n, extra) + [x * n + extra]
    ensures Product(Scaled(xs + [x], n, extra)) == Product(Scaled(xs, n, extra)) * (x * n + extra)
    ensures Sum(Scaled(xs + [x], n, extra)) == Sum(Scaled(xs, n, extra)) + (x * n + extra)
  {
    var ys, y := Scaled(xs, n, extra), x * n + extra;
    assert Scaled(xs + [x], n, extra) == ys + [y];
    assert (ys + [y])[..|ys|] == ys;
  }

  /** p, times the divisors, misses the power by at most the noise, times the divisors. */
  ghost predicate Misses(p: int, q: int, power: int, noise: int) {
    0 < q && p * q <= power <= (p + noise) * q
  }

  /** Each division loses less than one, and each later one multiplies the loss by at
      most the ratio. */
  lemma {:induction false} ChainNoise(d: nat, n: nat, extra: nat, xs: seq<nat>, ratio: nat)
    requires Divisible(xs, n, extra) && forall k :: 0 <= k < |xs| ==> d <= ratio * (xs[k] * n + extra)
    ensures Misses(Chain(d, n, extra, xs), Product(Scaled(xs, n, extra)), Power(d, |xs| + 1), Noise(ratio, |xs|))
  {
    if xs == [] {
      assert Scaled(xs, n, extra) == [] && Power(d, 0) == 1;
    } else {
      hide Misses;
      var init, x := xs[..|xs| - 1], xs[|xs| - 1];
      assert xs == init + [x];
      ChainNoise(d, n, extra, init, ratio);
      ChainSnoc(d, n, extra, init, x);
      ScaledSnoc(init, x, n, extra);
      assert Power(d, |xs| + 1) == d * Power(d, |xs|);
      hide Chain, Product, Scaled, Power, Divisible;
      NoiseStep(d, Chain(d, n, extra, init), Product(Scaled(init, n, extra)), x * n + extra,
                Noise(ratio, |init|), ratio, Power(d, |xs|));
    }
  }

  lemma {:induction false} NoiseStep(d: nat, p: nat, q: nat, y: nat, noise: nat, ratio: nat, power: nat)
    requires 0 < y && d <= ratio * y && Misses(p, q, power, noise)
    ensures Misses(p * d / y, q * y, d * power, ratio * noise + 1)
  {
    MulPositive(q, y);
    NoiseBelow(d, p, q, y, power);
    NoiseAbove(d, p, q, y, noise, ratio, power);
  }

  lemma {:induction false} NoiseBelow(d: nat, p: nat, q: nat, y: nat, power: nat)
    requires 0 < y && p * q <= power
    ensures p * d / y * (q * y) <= d * power
  {
    var r := p * d / y;
    FloorBounds(p * d, y);
    MulMono(r * y, p * d, q);
    MulMono(p * q, power, d);
    assert r * (q * y) == r * y * q && p * d * q == p * q * d;
  }

  lemma {:induction false} NoiseAbove(d: nat, p: nat, q: nat, y: nat, noise: nat, ratio: nat, power: nat)
    requires 0 < y && d <= ratio * y && power <= (p + noise) * q
    ensures d * power <= (p * d / y + (ratio * noise + 1)) * (q * y)
  {
    var r := p * d / y;
    var z := (r + (ratio * noise + 1)) * y;
    FloorBounds(p * d, y);
    MulMono(d, ratio * y, noise);
    NoiseTerms(r, ratio, noise, y);
    assert (p + noise) * d <= z by { assert (p + noise) * d == p * d + d * noise; }
    ScaleAbove(d, power, p + noise, q, y, z, r + (ratio * noise + 1));
  }

  lemma {:induction false} ScaleAbove(d: nat, power: nat, m: nat, q: nat, y: nat, z: nat, t: int)
    requires power <= m * q && m * d <= z && z == t * y
    ensures d * power <= t * (q * y)
  {
    MulMono(power, m * q, d);
    MulMono(m * d, z, q);
    assert m * q * d == m * d * q;
    assert t * y * q == t * (q * y);
  }

  lemma {:induction false} NoiseTerms(r: int, ratio: int, noise: int, y: int)
    ensures (r + (ratio * noise + 1)) * y == (r + 1) * y + ratio * y * noise
  {
    assert ratio * y * noise == ratio * noise * y;
  }

  lemma {:induction false} SumScaled(xs: seq<nat>, n: nat, extra: nat)
    ensures Sum(Scaled(xs, n, extra)) == Sum(xs) * n + |xs| * extra
  {
    if xs == [] {
      assert Scaled(xs, n, extra) == [];
    } else {
      var init, x := xs[..|xs| - 1], xs[|xs| - 1];
      assert xs == init + [x];
      SumScaled(init, n, extra);
      ScaledSnoc(init, x, n, extra);
      hide Scaled;
      OneMoreScaled(Sum(init), x, n, |init|, extra);
    }
  }

  lemma {:induction false} OneMoreScaled(s: int, x: int, n: int, k: int, extra: int)
    ensures s * n + k * extra + (x * n + extra) == (s + x) * n + (k + 1) * extra
  {
  }

  /** By the inequality of the means the divisors multiply to at most the n-th power of
      one more than the sum. */
  lemma {:induction false} DivisorsBelowSum(xs: seq<nat>, extra: nat)
    requires xs != [] && extra <= 1
    ensures Product(Scaled(xs, |xs|, extra)) <= Power(Sum(xs) + 1, |xs|)
  {
    var n, ys, s := |xs|, Scaled(xs, |xs|, extra), Sum(xs);
    MeansInequality(ys);
    SumScaled(xs, n, extra);
    AtMostOneMore(s, n, extra);
    PowerMono(Sum(ys), n * (s + 1), n);
    PowerMul(n, s + 1, n);
    assert 0 < Power(n, n);
    hide Power, Product, Scaled, Sum;
    CancelPower(Power(n, n), Product(ys), Power(s + 1, n));
  }

  lemma {:induction false} AtMostOneMore(s: nat, n: nat, extra: nat)
    requires extra <= 1
    ensures s * n + n * extra <= n * (s + 1)
  {
    MulMono(extra, 1, n);
    assert extra * n == n * extra && n * (s + 1) == s * n + n;
  }

  lemma {:induction false} CancelPower(a: nat, x: int, b: int)
    requires 0 < a && a * x <= a * b
    ensures x <= b
  {
    assert a * x == x * a && a * b == b * a;
    MulCancel(x, b, a);
  }

  lemma {:induction false} PowerMono(x: nat, y: nat, k: nat)
    requires x <= y
    ensures Power(x, k) <= Power(y, k)
  {
    if k != 0 {
      PowerMono(x, y, k - 1);
      MulBoth(x, y, Power(x, k - 1), Power(y, k - 1));
    }
  }

  // ----- balances the search settles on -----

  /** No balance is below one part in ratio of the mean, and the amplification outweighs
      the noise this allows; the sum is a 256-bit number that is large against both. */
  ghost predicate Tame(xp: seq<nat>, ann: nat, extra: nat, unit: nat, ratio: nat) {
    var n, noise := |xp|, Noise(ratio, |xp|);
    && xp != [] && extra <= 1 && 0 < unit && 0 < ratio
    && (forall k :: 0 <= k < |xp| ==> Sum(xp) <= ratio * (n * xp[k]))
    && 4 * (noise + 3) * unit <= 3 * ann
    && 1500 * ratio * ((n + 1) * (noise + 1)) <= Sum(xp) < P256
    && 20 * Power(ratio, n + 1) <= P32
  }

  /** The exact invariant of the balances as a curve. */
  ghost function CurveOf(xp: seq<nat>, ann: nat, extra: nat, unit: nat): Curve
    requires 0 < unit
  {
    Curve(|xp|, Product(Scaled(xp, |xp|, extra)) as real, (ann - unit) as real / unit as real, ann * Sum(xp) / unit)
  }

  lemma {:induction false} TameFacts(xp: seq<nat>, ann: nat, extra: nat, unit: nat, ratio: nat)
    requires Tame(xp, ann, extra, unit, ratio)
    ensures Divisible(xp, |xp|, extra) && Rising(CurveOf(xp, ann, extra, unit))
    ensures unit <= ann && 3.0 * CurveOf(xp, ann, extra, unit).slope >= 4.0 * Noise(ratio, |xp|) as real + 9.0
  {
    var n, noise, c := |xp|, Noise(ratio, |xp|), CurveOf(xp, ann, extra, unit);
    hide Noise, Power, Product;
    MulPositive(n + 1, noise + 1);
    PositiveSum(ratio, (n + 1) * (noise + 1), Sum(xp));
    forall k | 0 <= k < |xp| ensures xp[k] * n + extra != 0 {
      DivisorPositive(ratio, n, xp[k], extra, Sum(xp));
    }
    ProductPositive(xp, n, extra);
    SlopeAtLeast(ann, unit, noise);
  }

  lemma {:induction false} PositiveSum(ratio: nat, m: nat, s: nat)
    requires 0 < ratio && 0 < m && 1500 * ratio * m <= s
    ensures 0 < s
  {
    MulPositive(ratio, m);
    assert 1500 * ratio * m == 1500 * (ratio * m);
  }

  lemma {:induction false} DivisorPositive(ratio: nat, n: nat, x: nat, extra: nat, s: nat)
    requires 0 < s <= ratio * (n * x)
    ensures x * n + extra != 0
  {
    assert n * x == x * n;
    MulMono(0, x, n);
    if x * n <= 0 { MulMono(n * x, 0, ratio); }
  }

  lemma {:induction false} ProductPositive(xs: seq<nat>, n: nat, extra: nat)
    requires Divisible(xs, n, extra)
    ensures 0 < Product(Scaled(xs, n, extra))
  {
    if xs == [] {
      assert Scaled(xs, n, extra) == [];
    } else {
      var init, x := xs[..|xs| - 1], xs[|xs| - 1];
      assert xs == init + [x];
      ProductPositive(init, n, extra);
      ScaledSnoc(init, x, n, extra);
      hide Product, Scaled;
      MulPositive(Product(Scaled(init, n, extra)), x * n + extra);
    }
  }

  lemma {:induction false} SlopeAtLeast(ann: nat, unit: nat, noise: nat)
    requires 0 < unit && 4 * (noise + 3) * unit <= 3 * ann
    ensures unit <= ann && 3.0 * ((ann - unit) as real / unit as real) >= 4.0 * noise as real + 9.0
  {
    MulMono(12, 4 * (noise + 3), unit);
    var a, b := ann - unit, 4 * noise + 9;
    assert b * unit <= 3 * a by { assert 4 * (noise + 3) * unit == b * unit + 3 * unit; }
    CastMul(b, unit);
    CastMul(3, a);
    ShareAtLeast(b as real, 3.0 * a as real, unit as real);
    ShareTimes(3.0, a as real, unit as real);
  }

  lemma {:induction false} ShareAtLeast(a: real, b: real, q: real)
    requires 0.0 < q && a * q <= b
    ensures a <= b / q
  {
    var x := b / q;
    assert x * q == b;
    RealCancel(a, x, q);
  }

  lemma {:induction false} ShareAtMost(a: real, b: real, q: real)
    requires 0.0 < q && b <= a * q
    ensures b / q <= a
  {
    var x := b / q;
    assert x * q == b;
    RealCancel(x, a, q);
  }

  lemma {:induction false} ShareBelow(a: real, b: real, q: real)
    requires 0.0 < q && b < a * q
    ensures b / q < a
  {
    var x := b / q;
    assert x * q == b;
    if a <= x { RealMono(a, x, q); }
  }

  lemma {:induction false} ShareTimes(d: real, b: real, q: real)
    requires 0.0 < q
    ensures d * (b / q) == d * b / q
  {
    var x := b / q;
    assert x * q == b;
    assert d * x * q == d * b;
  }

  /** What the code rounds at d, compared with the curve. */
  lemma {:induction false} RoundedAt(xp: seq<nat>, ann: nat, extra: nat, unit: nat, ratio: nat, d: nat)
    requires Tame(xp, ann, extra, unit, ratio) && d <= Sum(xp)
    ensures Divisible(xp, |xp|, extra) && Rising(CurveOf(xp, ann, extra, unit)) && unit <= ann
    ensures var part := (ann - unit) * d / unit;
            && 0 <= part && part + d <= ann * Sum(xp) / unit
            && Rounded(CurveOf(xp, ann, extra, unit), d, part, Chain(d, |xp|, extra, xp), Noise(ratio, |xp|))
  {
    TameFacts(xp, ann, extra, unit, ratio);
    PartFits(ann, unit, d, Sum(xp));
    var n := |xp|;
    var p, q, noise := Chain(d, n, extra, xp), Product(Scaled(xp, n, extra)), Noise(ratio, n);
    assert Misses(p, q, d * Power(d, n), noise) by {
      RatioCovers(xp, ratio, extra, d);
      ChainNoise(d, n, extra, xp, ratio);
    }
    RoundsTo(CurveOf(xp, ann, extra, unit), ann, unit, d, p, q, noise);
  }

  lemma {:induction false} RoundsTo(c: Curve, ann: nat, unit: nat, d: nat, p: nat, q: nat, noise: nat)
    requires 0 < unit <= ann && Misses(p, q, d * Power(d, c.n), noise)
    requires Rising(c) && c.product == q as real && c.slope == (ann - unit) as real / unit as real
    requires 0 <= (ann - unit) * d / unit
    ensures Rounded(c, d, (ann - unit) * d / unit, p, noise)
  {
    PartRounded(ann, unit, d);
    MissesAsReal(p, q, d, Power(d, c.n), noise);
    hide Power, Misses;
  }

  lemma {:induction false} RatioCovers(xp: seq<nat>, ratio: nat, extra: nat, d: nat)
    requires d <= Sum(xp) && forall k :: 0 <= k < |xp| ==> Sum(xp) <= ratio * (|xp| * xp[k])
    ensures forall k :: 0 <= k < |xp| ==> d <= ratio * (xp[k] * |xp| + extra)
  {
    forall k | 0 <= k < |xp| ensures d <= ratio * (xp[k] * |xp| + extra) {
      MulMono(|xp| * xp[k], xp[k] * |xp| + extra, ratio);
    }
  }

  lemma {:induction false} PartFits(ann: nat, unit: nat, d: nat, s: nat)
    requires 0 < unit <= ann && d <= s
    ensures 0 <= (ann - unit) * d / unit && (ann - unit) * d / unit + d <= ann * s / unit
  {
    var part := (ann - unit) * d / unit;
    RatioSign(ann - unit, d, unit);
    FloorBounds((ann - unit) * d, unit);
    assert (ann - unit) * d == ann * d - d * unit;
    assert (part + d) * unit == part * unit + d * unit;
    MulMono(d, s, ann);
    FloorGalois(ann * s, unit, part + d);
  }

  lemma {:induction false} PartRounded(ann: nat, unit: nat, d: nat)
    requires 0 < unit <= ann
    ensures var part, s := (ann - unit) * d / unit, (ann - unit) as real / unit as real;
            part as real <= s * d as real < part as real + 1.0
  {
    FloorBounds((ann - unit) * d, unit);
    FloorShare((ann - unit) * d / unit, ann - unit, d, unit);
    CeilShare((ann - unit) * d / unit + 1, ann - unit, d, unit);
  }

  lemma {:induction false} FloorShare(part: int, a: nat, d: nat, u: nat)
    requires 0 < u && part * u <= a * d
    ensures part as real <= a as real / u as real * d as real
  {
    CastMul(part, u);
    CastMul(a, d);
    ShareAtLeast(part as real, d as real * a as real, u as real);
    ShareTimes(d as real, a as real, u as real);
  }

  lemma {:induction false} CeilShare(part: int, a: nat, d: nat, u: nat)
    requires 0 < u && a * d < part * u
    ensures a as real / u as real * d as real < part as real
  {
    CastMul(part, u);
    CastMul(a, d);
    ShareBelow(part as real, d as real * a as real, u as real);
    ShareTimes(d as real, a as real, u as real);
  }

  lemma {:induction false} MissesAsReal(p: nat, q: nat, d: nat, w: nat, noise: nat)
    requires Misses(p, q, d * w, noise)
    ensures p as real <= d as real * (w as real / q as real) <= p as real + noise as real
  {
    CastMul(p, q);
    CastMul(p + noise, q);
    CastMul(d, w);
    ShareTimes(d as real, w as real, q as real);
    ShareAtLeast(p as real, d as real * w as real, q as real);
    ShareAtMost(p as real + noise as real, d as real * w as real, q as real);
  }

  // ----- where the search is -----

  /** A third of the smallest divisor the ratio allows. */
  ghost function Least(xp: seq<nat>, ratio: nat): nat
    requires 0 < ratio
  {
    DivMod(Sum(xp), 3 * ratio);
    Sum(xp) / (3 * ratio)
  }

  lemma {:induction false} LeastIsLarge(xp: seq<nat>, ann: nat, extra: nat, unit: nat, ratio: nat)
    requires Tame(xp, ann, extra, unit, ratio)
    ensures var l, n, noise := Least(xp, ratio), |xp|, Noise(ratio, |xp|);
            && 500 * ((n + 1) * (noise + 1)) <= l && n <= noise
            && l * (3 * ratio) <= Sum(xp) < (l + 1) * (3 * ratio)
            && 2 + 2 * (n + 1) * noise <= l && 20 * n <= l && 500 * (noise + 1) <= l
  {
    NoiseAtLeast(ratio, |xp|);
    hide Noise, Power;
    LargeShare(Sum(xp), ratio, |xp|, Noise(ratio, |xp|));
  }

  lemma {:induction false} LargeShare(s: nat, ratio: nat, n: nat, noise: nat)
    requires 0 < ratio && 1500 * ratio * ((n + 1) * (noise + 1)) <= s
    ensures var l := s / (3 * ratio);
            && l * (3 * ratio) <= s < (l + 1) * (3 * ratio)
            && 500 * ((n + 1) * (noise + 1)) <= l
            && 2 + 2 * (n + 1) * noise <= l && 20 * n <= l && 500 * (noise + 1) <= l
  {
    var l, m := s / (3 * ratio), (n + 1) * (noise + 1);
    FloorBounds(s, 3 * ratio);
    assert 1500 * ratio * m == 500 * m * (3 * ratio);
    FloorGalois(s, 3 * ratio, 500 * m);
    MulMono(1, n + 1, noise + 1);
    MulMono(1, noise + 1, n + 1);
    LargeEnough(n, noise, m);
  }

  lemma {:induction false} LargeEnough(n: nat, noise: nat, m: nat)
    requires m == (n + 1) * (noise + 1)
    ensures 2 + 2 * (n + 1) * noise <= 500 * m && 20 * n <= 500 * m && 500 * (noise + 1) <= 500 * m
  {
    MulMono(0, n, noise);
    assert m == n * noise + n + noise + 1 && 2 * (n + 1) * noise == 2 * (n * noise) + 2 * noise;
  }

  lemma {:induction false} NoiseAtLeast(ratio: nat, divisions: nat)
    requires 0 < ratio
    ensures divisions <= Noise(ratio, divisions)
  {
    if divisions != 0 {
      NoiseAtLeast(ratio, divisions - 1);
      MulMono(1, ratio, Noise(ratio, divisions - 1));
    }
  }

  /** The code's rounded target t, against the sum s. */
  ghost predicate TargetNear(slope: real, s: real, t: real) {
    slope * s + s - 1.0 < t <= slope * s + s
  }

  lemma {:induction false} TargetBounds(ann: nat, unit: nat, s: nat)
    requires 0 < unit <= ann
    ensures TargetNear((ann - unit) as real / unit as real, s as real, (ann * s / unit) as real)
  {
    var t := ann * s / unit;
    FloorBounds(ann * s, unit);
    FloorShare(t, ann, s, unit);
    CeilShare(t + 1, ann, s, unit);
    OneMoreUnit(ann as real, unit as real, s as real);
    assert (ann - unit) as real == ann as real - unit as real;
  }

  lemma {:induction false} OneMoreUnit(a: real, u: real, s: real)
    requires 0.0 < u
    ensures a / u * s == (a - u) / u * s + s
  {
    var x, y := a / u, (a - u) / u;
    assert x * u == a && y * u == a - u;
    NoZeroDivisors(x - (y + 1.0), u);
  }

  /** The search is not past the root by a whole unit. */
  ghost predicate Above(xp: seq<nat>, ann: nat, extra: nat, unit: nat, d: int)
    requires 0 < unit && Rising(CurveOf(xp, ann, extra, unit))
  {
    0 < d <= Sum(xp) && 0.0 <= Height(CurveOf(xp, ann, extra, unit), d + 1)
  }

  lemma {:induction false} StartsAbove(xp: seq<nat>, ann: nat, extra: nat, unit: nat, ratio: nat)
    requires Tame(xp, ann, extra, unit, ratio)
    ensures Rising(CurveOf(xp, ann, extra, unit)) && Above(xp, ann, extra, unit, Sum(xp))
  {
    TameFacts(xp, ann, extra, unit, ratio);
    LeastIsLarge(xp, ann, extra, unit, ratio);
    HeavyAtSum(xp, ann, extra, unit);
    TargetBounds(ann, unit, Sum(xp));
    SumPositive(Sum(xp), Least(xp, ratio), ratio);
    hide Tame, Power, Product, Scaled, Noise, Least, Weight, TargetNear, Line;
    var c := CurveOf(xp, ann, extra, unit);
    HighStart(c.slope, Sum(xp) as real, Weight(c, Sum(xp) + 1), c.target as real);
  }

  lemma {:induction false} SumPositive(s: nat, l: nat, ratio: nat)
    requires 0 < ratio && l * (3 * ratio) <= s && 500 <= l
    ensures 0 < s
  {
    MulPositive(l, 3 * ratio);
  }

  lemma {:induction false} HeavyAtSum(xp: seq<nat>, ann: nat, extra: nat, unit: nat)
    requires xp != [] && extra <= 1 && 0 < unit && Rising(CurveOf(xp, ann, extra, unit))
    ensures 1.0 <= Weight(CurveOf(xp, ann, extra, unit), Sum(xp) + 1)
  {
    DivisorsBelowSum(xp, extra);
    ShareAtLeast(1.0, Power(Sum(xp) + 1, |xp|) as real, Product(Scaled(xp, |xp|, extra)) as real);
  }

  lemma {:induction false} HighStart(slope: real, s: real, w: real, t: real)
    requires 0.0 <= slope && 0.0 <= s && 1.0 <= w && TargetNear(slope, s, t)
    ensures 0.0 <= Line(slope, s + 1.0, w, t)
  {
    RealMono(1.0, w, s + 1.0);
    assert slope * (s + 1.0) == slope * s + slope;
  }

  lemma {:induction false} ProductAbove(ys: seq<nat>, m: nat)
    requires ys != [] && forall k :: 0 <= k < |ys| ==> 2 * m <= ys[k]
    ensures 2 * Power(m, |ys|) <= Product(ys)
  {
    var init, y := ys[..|ys| - 1], ys[|ys| - 1];
    if init == [] {
      assert Product(init) == 1 && Power(m, 0) == 1;
    } else {
      ProductAbove(init, m);
      assert Power(m, |ys|) == m * Power(m, |init|);
      MulBoth(2 * Power(m, |init|), Product(init), m, y);
      assert 2 * Power(m, |init|) * m == 2 * (m * Power(m, |init|));
    }
  }

  /** So it is never below a third of the smallest divisor. */
  lemma {:induction false} NeverLow(xp: seq<nat>, ann: nat, extra: nat, unit: nat, ratio: nat, d: nat)
    requires Tame(xp, ann, extra, unit, ratio) && Rising(CurveOf(xp, ann, extra, unit))
    requires d <= Sum(xp) && 0.0 <= Height(CurveOf(xp, ann, extra, unit), d + 1)
    ensures Least(xp, ratio) <= d
  {
    var c, s := CurveOf(xp, ann, extra, unit), Sum(xp);
    if d < Least(xp, ratio) {
      TameFacts(xp, ann, extra, unit, ratio);
      LeastIsLarge(xp, ann, extra, unit, ratio);
      LightWhenLow(xp, ann, extra, unit, ratio, d);
      TargetBounds(ann, unit, s);
      ThriceLeast(s, Least(xp, ratio), ratio);
      hide Tame, Power, Product, Scaled, Noise, Least, Weight, TargetNear, Line;
      LowHeight(c.slope, s as real, (d + 1) as real, Weight(c, d + 1), c.target as real);
    }
  }

  lemma {:induction false} ThriceLeast(s: nat, l: nat, ratio: nat)
    requires 0 < ratio && l * (3 * ratio) <= s
    ensures 3 * l <= s
  {
    MulMono(1, ratio, 3 * l);
    assert l * (3 * ratio) == ratio * (3 * l);
  }

  lemma {:induction false} LightWhenLow(xp: seq<nat>, ann: nat, extra: nat, unit: nat, ratio: nat, d: nat)
    requires xp != [] && 0 < unit && 0 < ratio && Rising(CurveOf(xp, ann, extra, unit))
    requires forall k :: 0 <= k < |xp| ==> Sum(xp) <= ratio * (|xp| * xp[k])
    requires Least(xp, ratio) * (3 * ratio) <= Sum(xp) && 2 * (d + 1) <= 3 * Least(xp, ratio)
    ensures Weight(CurveOf(xp, ann, extra, unit), d + 1) <= 0.5
  {
    var n, ys := |xp|, Scaled(xp, |xp|, extra);
    forall k | 0 <= k < n ensures 2 * (d + 1) <= ys[k] {
      LargeDivisor(Least(xp, ratio), ratio, n, xp[k], extra, Sum(xp));
    }
    ProductAbove(ys, d + 1);
    ShareAtMost(0.5, Power(d + 1, n) as real, Product(ys) as real);
  }

  lemma {:induction false} LargeDivisor(l: nat, ratio: nat, n: nat, x: nat, extra: nat, s: nat)
    requires 0 < ratio && l * (3 * ratio) <= s <= ratio * (n * x)
    ensures 3 * l <= x * n + extra
  {
    assert l * (3 * ratio) == 3 * l * ratio && ratio * (n * x) == n * x * ratio;
    MulCancel(3 * l, n * x, ratio);
  }

  lemma {:induction false} LowHeight(slope: real, s: real, d: real, w: real, t: real)
    requires 0.0 <= slope && 1.0 <= d && 3.0 * d <= s && w <= 0.5 && TargetNear(slope, s, t)
    ensures Line(slope, d, w, t) < 0.0
  {
    RealMono(w, 0.5, d);
    RealMono(d, s, slope);
    SumsBelow(slope * d, d * w, t, slope * s, s, d);
  }

  lemma {:induction false} SumsBelow(a: real, b: real, t: real, c: real, s: real, d: real)
    requires a <= c && b <= 0.5 * d && c + s - 1.0 < t && 1.0 <= d && 3.0 * d <= s
    ensures a + b - t < 0.0
  {
  }

  // ----- one step of the search -----

  /** The step of the search from d. */
  ghost function StepFrom(xp: seq<nat>, ann: nat, extra: nat, unit: nat, d: int): Result<int>
    requires 0 < unit && Divisible(xp, |xp|, extra)
  {
    NextD(Sum(xp), ann, unit, |xp|, Chain(d, |xp|, extra, xp), d)
  }

  /** An unsettled step goes down, stays above, and takes the height at d down to at most
      four fifths, or to a quarter once it is small, but for the noise. */
  ghost predicate GoesDown(xp: seq<nat>, ann: nat, extra: nat, unit: nat, ratio: nat, d: int, next: int)
    requires 0 < unit && 0 < ratio && Rising(CurveOf(xp, ann, extra, unit)) && 0 <= d
  {
    var c, noise := CurveOf(xp, ann, extra, unit), Noise(ratio, |xp|) as real;
    && next < d && Above(xp, ann, extra, unit, next)
    && c.slope - 0.5 < Height(c, d)
    && Height(c, next) <= 0.8 * Height(c, d) + (1.0 + noise)
    && (5.0 * Height(c, d) <= Least(xp, ratio) as real ==> Height(c, next) <= 0.25 * Height(c, d) + (1.0 + noise))
  }

  lemma {:induction false} OneStep(xp: seq<nat>, ann: nat, extra: nat, unit: nat, ratio: nat, d: nat)
    requires Tame(xp, ann, extra, unit, ratio) && Divisible(xp, |xp|, extra)
    requires Rising(CurveOf(xp, ann, extra, unit)) && Above(xp, ann, extra, unit, d)
    ensures var r := StepFrom(xp, ann, extra, unit, d);
            && r.Success? && 0 <= r.value
            && (-1 <= r.value - d <= 1 || GoesDown(xp, ann, extra, unit, ratio, d, r.value))
  {
    TameFacts(xp, ann, extra, unit, ratio);
    LeastIsLarge(xp, ann, extra, unit, ratio);
    NeverLow(xp, ann, extra, unit, ratio, d);
    RoundedAt(xp, ann, extra, unit, ratio, d);
    var n, c, noise := |xp|, CurveOf(xp, ann, extra, unit), Noise(ratio, |xp|);
    var part, p := (ann - unit) * d / unit, Chain(d, n, extra, xp);
    hide Tame, Noise, Chain, Divisible, Least, Weight, Height, Product, Scaled, Rounded, Moves;
    StepMoves(Sum(xp), ann, unit, c, d, part, p, noise);
    var next := StepFrom(xp, ann, extra, unit, d).value;
    if part + p <= c.target {
      SettlesBelow(c, d, part, p, noise, next);
    } else {
      NotPast(c, d, part, p, noise, next);
      NeverLow(xp, ann, extra, unit, ratio, next);
      if next <= d - 2 { DownStep(c, d, part, p, noise, next, Least(xp, ratio)); }
    }
  }

  lemma {:induction false} DownStep(c: Curve, d: nat, part: nat, p: nat, noise: nat, next: nat, l: nat)
    requires Rising(c) && Rounded(c, d, part, p, noise) && Moves(c, d, part, p, next) && 20 * c.n <= l <= next <= d - 2
    requires c.target < part + p && part + d <= c.target && (c.n + 1) * (d - next - 1) < d
    ensures c.slope - 0.5 < Height(c, d)
    ensures Height(c, next) <= 0.8 * Height(c, d) + (1.0 + noise as real)
    ensures 5.0 * Height(c, d) <= l as real ==> Height(c, next) <= 0.25 * Height(c, d) + (1.0 + noise as real)
  {
    hide Rounded, Moves, Weight, Height;
    FarIsHigh(c, d, part, p, noise, next);
    KeepsFifth(c, d, next);
    Lowers(c, d, part, p, noise, next, 0.2);
    if 5.0 * Height(c, d) <= l as real {
      KeepsThreeQuarters(c, d, part, p, next);
      Lowers(c, d, part, p, noise, next, 0.75);
    }
  }

  /** The code's step exists, and is what the curve lemmas speak about. */
  lemma {:induction false} StepMoves(s: nat, ann: nat, unit: nat, c: Curve, d: nat, part: nat, p: nat, noise: nat)
    requires 0 < unit <= ann && Rising(c) && Rounded(c, d, part, p, noise) && 2 <= d && 1.0 <= c.slope
    requires part == (ann - unit) * d / unit && c.target == ann * s / unit
    ensures var r := NextD(s, ann, unit, c.n, p, d);
            r.Success? && 0 <= r.value && Moves(c, d, part, p, r.value)
  {
    RealMono(1.0, c.slope, d as real);
    MulMono(0, c.n + 1, p);
    assert 0 < part;
    RatioSign(ann, s, unit);
    NewtonBracket(c.target, part, c.n, p, d);
    MovesFromGap(d, c.target, part, p, NextD(s, ann, unit, c.n, p, d).value, part + (c.n + 1) * p);
  }

  lemma {:induction false} MovesFromGap(d: nat, t: int, part: nat, p: nat, next: int, den: nat)
    requires (next - d) * den <= d * (t - part - p) < (next - d + 1) * den
    ensures (next - d) * den <= -(d * (part + p - t)) < (next - d + 1) * den
  {
    assert d * (t - part - p) == -(d * (part + p - t));
  }

  lemma {:induction false} KeepsFifth(c: Curve, d: nat, next: nat)
    requires Rising(c) && next < d && (c.n + 1) * (d - next - 1) < d && 5 * c.n <= next
    ensures 0.2 * Weight(c, d) <= Weight(c, next)
  {
    var n := c.n;
    QuarterPower(d, next + 1, n);
    UnitLess(next + 1, n);
    WeightShare(c, d, next, 1, 5);
  }

  lemma {:induction false} WeightShare(c: Curve, d: nat, next: nat, a: nat, b: nat)
    requires Rising(c) && 0 < b && a * Power(d, c.n) <= b * Power(next, c.n)
    ensures a as real / b as real * Weight(c, d) <= Weight(c, next)
  {
    FractionBelow(a, b, Power(d, c.n), Power(next, c.n));
    var r := a as real / b as real;
    hide Power;
    FractionShared(r, Power(d, c.n) as real, Power(next, c.n) as real, c.product);
  }

  lemma {:induction false} FractionBelow(a: nat, b: nat, x: nat, y: nat)
    requires 0 < b && a * x <= b * y
    ensures a as real / b as real * x as real <= y as real
  {
    CastMul(a, x);
    CastMul(b, y);
    var r := a as real / b as real;
    assert r * b as real == a as real;
    assert r * x as real * b as real == a as real * x as real;
    RealCancel(r * x as real, y as real, b as real);
  }

  lemma {:induction false} FractionShared(r: real, x: real, y: real, q: real)
    requires 0.0 < q && r * x <= y
    ensures r * (x / q) <= y / q
  {
    ShareOrder(r * x, y, q);
    ShareTimes(r, x, q);
  }

  lemma {:induction false} KeepsThreeQuarters(c: Curve, d: nat, part: nat, p: nat, next: nat)
    requires Rising(c) && Moves(c, d, part, p, next) && 0 < d && next < d
    requires c.target < part + p && part + d <= c.target && 20 * c.n <= d && 5 * (part + p - c.target) <= d
    ensures 0.75 * Weight(c, d) <= Weight(c, next)
  {
    var n, m := c.n, d - next - 1;
    ShortWay(d, m, n + 1, part, p, c.target);
    PowerBernoulli(d, next, n);
    assert 4 * (n * (d - next)) <= d by { FourWays(n, m, d, part + p - c.target); }
    hide Power;
    ThreeQuarters(Power(d, n), Power(next, n), d, n * (d - next));
    WeightShare(c, d, next, 3, 4);
  }

  lemma {:induction false} ShortWay(d: nat, m: nat, k: nat, part: nat, p: nat, t: int)
    requires 0 < d < p && t < part + p && m * (part + k * p) < d * (part + p - t)
    ensures k * m < part + p - t
  {
    var over := part + p - t;
    MulMono(d, p, k);
    MulMono(k * d, part + k * p, m);
    assert p * k == k * p && d * k == k * d && k * d * m == k * m * d && (part + k * p) * m == m * (part + k * p);
    assert d * over == over * d;
    MulCancelStrict(k * m, over, d);
  }

  lemma {:induction false} FourWays(n: nat, m: nat, d: nat, over: nat)
    requires (n + 1) * m < over && 5 * over <= d && 20 * n <= d
    ensures 4 * (n * (m + 1)) <= d
  {
    assert (n + 1) * m == n * m + m && n * (m + 1) == n * m + n;
  }

  lemma {:induction false} ThreeQuarters(a: nat, b: nat, d: nat, way: nat)
    requires 0 < d && a * (d - way) <= b * d && 4 * way <= d
    ensures 3 * a <= 4 * b
  {
    MulMono(3 * d, 4 * (d - way), a);
    assert 4 * (d - way) * a == 4 * (a * (d - way)) && 3 * d * a == 3 * a * d && 4 * b * d == 4 * (b * d);
    MulCancel(3 * a, 4 * b, d);
  }

  // ----- the whole search -----

  ghost predicate Settles(xp: seq<nat>, ann: nat, extra: nat, unit: nat, d: int, steps: nat)
    requires 0 < unit
  {
    var f := SearchD(xp, ann, |xp|, extra, unit, d, steps);
    f.Success? && f.value.settled
  }

  /** Settling at d is settling by the step from d, or after it. */
  lemma {:induction false} SettlesNext(xp: seq<nat>, ann: nat, extra: nat, unit: nat, d: int, next: int, steps: nat)
    requires 0 < unit && Divisible(xp, |xp|, extra) && 0 < steps && StepFrom(xp, ann, extra, unit, d) == Success(next)
    requires -1 <= next - d <= 1 || Settles(xp, ann, extra, unit, next, steps - 1)
    ensures Settles(xp, ann, extra, unit, d, steps)
  {
    hide Divisible, NextD, Chain, Sum;
  }

  /** The setting of the search at d. */
  ghost predicate Searching(xp: seq<nat>, ann: nat, extra: nat, unit: nat, ratio: nat, d: int) {
    && Tame(xp, ann, extra, unit, ratio) && Divisible(xp, |xp|, extra)
    && Rising(CurveOf(xp, ann, extra, unit)) && Above(xp, ann, extra, unit, d)
  }

  ghost function HeightOf(xp: seq<nat>, ann: nat, extra: nat, unit: nat, ratio: nat, d: int): real
    requires Searching(xp, ann, extra, unit, ratio, d)
  {
    Height(CurveOf(xp, ann, extra, unit), d)
  }

  ghost function LeastOf(xp: seq<nat>, ann: nat, extra: nat, unit: nat, ratio: nat, d: int): real
    requires Searching(xp, ann, extra, unit, ratio, d)
  {
    Least(xp, ratio) as real
  }

  /** The noise, as a real number, and the one unit a step rounds down. */
  ghost function Blur(xp: seq<nat>, ratio: nat): real {
    1.0 + Noise(ratio, |xp|) as real
  }

  /** Unless it settles there, the step leads to a lower place in the search. */
  lemma {:induction false} Onward(xp: seq<nat>, ann: nat, extra: nat, unit: nat, ratio: nat, d: nat) returns (next: nat)
    requires Searching(xp, ann, extra, unit, ratio, d)
    ensures 0 < unit && Divisible(xp, |xp|, extra) && StepFrom(xp, ann, extra, unit, d) == Success(next)
    ensures !(-1 <= next - d <= 1) ==>
              && Searching(xp, ann, extra, unit, ratio, next)
              && var h, low := HeightOf(xp, ann, extra, unit, ratio, d), HeightOf(xp, ann, extra, unit, ratio, next);
                 var l, blur := LeastOf(xp, ann, extra, unit, ratio, d), Blur(xp, ratio);
                 && 8.0 * blur + 7.0 < 6.0 * h && low <= 0.8 * h + blur && (5.0 * h <= l ==> low <= 0.25 * h + blur)
    ensures 500.0 * Blur(xp, ratio) <= LeastOf(xp, ann, extra, unit, ratio, d)
  {
    TameFacts(xp, ann, extra, unit, ratio);
    LeastIsLarge(xp, ann, extra, unit, ratio);
    OneStep(xp, ann, extra, unit, ratio, d);
    next := StepFrom(xp, ann, extra, unit, d).value;
    hide Tame, Divisible, Least, Height, Noise, NextD, Chain;
  }

  /** Close to the root every step takes three quarters off: the height, over what the
      noise sustains, fits a power of four with one exponent less at each step. */
  lemma {:induction false} LastPhase(xp: seq<nat>, ann: nat, extra: nat, unit: nat, ratio: nat, d: nat, steps: nat,
                                     j: nat)
    requires Searching(xp, ann, extra, unit, ratio, d) && j < steps
    requires 5.0 * HeightOf(xp, ann, extra, unit, ratio, d) <= LeastOf(xp, ann, extra, unit, ratio, d)
    requires 3.0 * HeightOf(xp, ann, extra, unit, ratio, d) <= 4.0 * Blur(xp, ratio) + 3.0 * Power(4, j) as real
    ensures 0 < unit && Settles(xp, ann, extra, unit, d, steps)
    decreases j
  {
    var next := Onward(xp, ann, extra, unit, ratio, d);
    assert Power(4, 0) == 1 && (0 < j ==> Power(4, j) == 4 * Power(4, j - 1));
    hide Searching, Settles, StepFrom, HeightOf, Blur, Power, Divisible;
    if !(-1 <= next - d <= 1) { LastPhase(xp, ann, extra, unit, ratio, next, steps - 1, j - 1); }
    SettlesNext(xp, ann, extra, unit, d, next, steps);
  }

  /** 1 / 0.81 to the power i. */
  ghost function Climb(i: nat): (c: real)
    ensures 1.0 <= c
  {
    if i == 0 then 1.0 else Climb(i - 1) / 0.81
  }

  ghost predicate Climbed(h: real, climb: real, l: real) {
    5.0 * h <= climb * l
  }

  /** Before that every step takes nineteen hundredths off. */
  lemma {:induction false} FirstPhase(xp: seq<nat>, ann: nat, extra: nat, unit: nat, ratio: nat, d: nat, steps: nat,
                                      i: nat)
    requires Searching(xp, ann, extra, unit, ratio, d) && i + 128 < steps
    requires Climbed(HeightOf(xp, ann, extra, unit, ratio, d), Climb(i), LeastOf(xp, ann, extra, unit, ratio, d))
    ensures 0 < unit && Settles(xp, ann, extra, unit, d, steps)
    decreases i
  {
    var next := Onward(xp, ann, extra, unit, ratio, d);
    var h, l := HeightOf(xp, ann, extra, unit, ratio, d), LeastOf(xp, ann, extra, unit, ratio, d);
    LeastFits(xp, ann, extra, unit, ratio, d);
    ClimbsDown(h, Climb(i), l);
    if 5.0 * h <= l {
      hide Searching, Settles, StepFrom, HeightOf, Power, Divisible, Climb, Climbed;
      LastPhase(xp, ann, extra, unit, ratio, d, steps, 128);
    } else {
      assert 0 < i && Climb(i - 1) == 0.81 * Climb(i);
      hide Searching, Settles, StepFrom, HeightOf, Power, Divisible, Climb, Climbed;
      if !(-1 <= next - d <= 1) {
        ClimbsOn(h, HeightOf(xp, ann, extra, unit, ratio, next), Climb(i), Climb(i - 1), l, Blur(xp, ratio));
        assert LeastOf(xp, ann, extra, unit, ratio, next) == l;
        FirstPhase(xp, ann, extra, unit, ratio, next, steps - 1, i - 1);
      }
      SettlesNext(xp, ann, extra, unit, d, next, steps);
    }
  }

  lemma {:induction false} ClimbsDown(h: real, climb: real, l: real)
    requires Climbed(h, climb, l)
    ensures climb == 1.0 ==> 5.0 * h <= l
  {
  }

  lemma {:induction false} ClimbsOn(h: real, low: real, climb: real, next: real, l: real, blur: real)
    requires Climbed(h, climb, l) && next == 0.81 * climb
    requires l < 5.0 * h && low <= 0.8 * h + blur && 500.0 * blur <= l
    ensures Climbed(low, next, l)
  {
    assert next * l == 0.81 * (climb * l);
  }

  lemma {:induction false} LeastFits(xp: seq<nat>, ann: nat, extra: nat, unit: nat, ratio: nat, d: int)
    requires Searching(xp, ann, extra, unit, ratio, d)
    ensures LeastOf(xp, ann, extra, unit, ratio, d) <= Power(4, 128) as real && 0.0 <= Blur(xp, ratio)
  {
    LeastIsLarge(xp, ann, extra, unit, ratio);
    ThriceLeast(Sum(xp), Least(xp, ratio), ratio);
    FourPowers(128);
    Pow2Wide();
  }

  lemma {:induction false} FourPowers(j: nat)
    ensures Power(4, j) == Pow2(2 * j)
  {
    if j != 0 {
      FourPowers(j - 1);
      assert Pow2(2 * j) == 2 * Pow2(2 * j - 1) && Pow2(2 * j - 1) == 2 * Pow2(2 * (j - 1));
    }
  }

  lemma {:induction false} ClimbAdd(a: nat, b: nat)
    ensures Climb(a + b) == Climb(a) * Climb(b)
  {
    if a != 0 {
      ClimbAdd(a - 1, b);
      assert a + b - 1 == a - 1 + b;
    }
  }

  lemma {:induction false} ClimbTwice(a: nat, x: real)
    requires 0.0 <= x <= Climb(a)
    ensures x * x <= Climb(a + a)
  {
    ClimbAdd(a, a);
    SquareMono(x, Climb(a));
  }

  lemma {:induction false} SquareMono(x: real, y: real)
    requires 0.0 <= x <= y
    ensures x * x <= y * y
  {
    RealMono(x, y, x);
    RealMono(x, y, y);
  }

  lemma {:induction false} ClimbFar()
    ensures P32 as real <= Climb(112)
  {
    assert Climb(0) == 1.0 && Climb(1) == Climb(0) / 0.81 && Climb(2) == Climb(1) / 0.81 && Climb(3) == Climb(2) / 0.81;
    assert Climb(4) == Climb(3) / 0.81 && Climb(5) == Climb(4) / 0.81 && Climb(6) == Climb(5) / 0.81;
    assert 4.0 <= Climb(7);
    hide Climb;
    ClimbTwice(7, 4.0);
    ClimbTwice(14, 16.0);
    ClimbTwice(28, 256.0);
    ClimbTwice(56, 65536.0);
  }

  /** The height at the sum is at most the ratio's (n + 1)-th power, in the least divisor. */
  lemma {:induction false} StartHeight(xp: seq<nat>, ann: nat, extra: nat, unit: nat, ratio: nat)
    requires Tame(xp, ann, extra, unit, ratio) && Rising(CurveOf(xp, ann, extra, unit))
    ensures Climbed(Height(CurveOf(xp, ann, extra, unit), Sum(xp)), P32 as real, Least(xp, ratio) as real)
  {
    StartNumbers(xp, ann, extra, unit, ratio);
    var c, s, r := CurveOf(xp, ann, extra, unit), Sum(xp), Power(ratio, |xp|);
    hide Tame, Power, Noise, Least, Weight, TargetNear, Height, Product, Scaled, Climbed;
    HeightAtSum(c, s, r);
    ClimbedAtSum(Height(c, s), s * r, Least(xp, ratio));
  }

  lemma {:induction false} StartNumbers(xp: seq<nat>, ann: nat, extra: nat, unit: nat, ratio: nat)
    requires Tame(xp, ann, extra, unit, ratio) && Rising(CurveOf(xp, ann, extra, unit))
    ensures var c, s, r := CurveOf(xp, ann, extra, unit), Sum(xp), Power(ratio, |xp|);
            && 0 < s && 5 * (s * r) <= P32 * Least(xp, ratio)
            && Weight(c, s) <= r as real && TargetNear(c.slope, s as real, c.target as real)
  {
    hide Weight, TargetNear, Noise, Product, Scaled, Sum;
    TameFacts(xp, ann, extra, unit, ratio);
    LeastIsLarge(xp, ann, extra, unit, ratio);
    TargetBounds(ann, unit, Sum(xp));
    LightAtSum(xp, ann, extra, unit, ratio);
    var l, r := Least(xp, ratio), Power(ratio, |xp|);
    assert Power(ratio, |xp| + 1) == ratio * r;
    hide Power, Least;
    SumByLeast(Sum(xp), l, ratio, r);
    SumPositive(Sum(xp), l, ratio);
  }

  lemma {:induction false} ClimbedAtSum(h: real, m: int, l: nat)
    requires h <= m as real && 5 * m <= P32 * l
    ensures Climbed(h, P32 as real, l as real)
  {
    CastMul(P32, l);
  }

  lemma {:induction false} HeightAtSum(c: Curve, s: nat, r: nat)
    requires Rising(c) && 0 < s && Weight(c, s) <= r as real && TargetNear(c.slope, s as real, c.target as real)
    ensures Height(c, s) <= (s * r) as real
  {
    hide Weight;
    CastMul(s, r);
    RealMono(Weight(c, s), r as real, s as real);
    LineAtSum(c.slope, s as real, Weight(c, s), c.target as real);
  }

  lemma {:induction false} LineAtSum(slope: real, s: real, w: real, t: real)
    requires TargetNear(slope, s, t) && 1.0 <= s
    ensures Line(slope, s, w, t) <= s * w
  {
  }

  lemma {:induction false} SumByLeast(s: nat, l: nat, ratio: nat, r: nat)
    requires s < (l + 1) * (3 * ratio) && 500 <= l && 20 * (ratio * r) <= P32
    ensures 5 * (s * r) <= P32 * l
  {
    MulMono(3 * (l + 1), 4 * l, ratio);
    assert (l + 1) * (3 * ratio) == 3 * (l + 1) * ratio;
    MulMono(s, 4 * l * ratio, r);
    MulMono(20 * (ratio * r), P32, l);
    assert 4 * l * ratio * r == 4 * (ratio * r * l) && 20 * (ratio * r) * l == 20 * (ratio * r * l);
  }

  lemma {:induction false} LightAtSum(xp: seq<nat>, ann: nat, extra: nat, unit: nat, ratio: nat)
    requires 0 < unit && Rising(CurveOf(xp, ann, extra, unit))
    requires forall k :: 0 <= k < |xp| ==> Sum(xp) <= ratio * (|xp| * xp[k])
    ensures Weight(CurveOf(xp, ann, extra, unit), Sum(xp)) <= Power(ratio, |xp|) as real
  {
    var n, ys := |xp|, Scaled(xp, |xp|, extra);
    RatioCovers(xp, ratio, extra, Sum(xp));
    ProductCovers(ys, Sum(xp), ratio);
    CastMul(Power(ratio, n), Product(ys));
    ShareAtMost(Power(ratio, n) as real, Power(Sum(xp), n) as real, Product(ys) as real);
  }

  lemma {:induction false} ProductCovers(ys: seq<nat>, s: nat, ratio: nat)
    requires forall k :: 0 <= k < |ys| ==> s <= ratio * ys[k]
    ensures Power(s, |ys|) <= Power(ratio, |ys|) * Product(ys)
  {
    if ys != [] {
      var init, y := ys[..|ys| - 1], ys[|ys| - 1];
      ProductCovers(init, s, ratio);
      var a, r, q := Power(s, |init|), Power(ratio, |init|), Product(init);
      MulBoth(s, ratio * y, a, r * q);
      assert ratio * y * (r * q) == ratio * r * (q * y) by { Exchange(ratio, y, r, q); assert y * q == q * y; }
    }
  }

  /** The search for the invariant settles, within its 255 steps, for all balances that
      are not too unequal for their amplification, and ends next to the invariant. */
  lemma {:induction false} TameBalancesSettle(xp: seq<nat>, ann: nat, extra: nat, unit: nat, ratio: nat)
    requires Tame(xp, ann, extra, unit, ratio)
    ensures var f := InvariantOf(xp, ann, |xp|, extra, unit);
            && f.Success? && f.value.settled
            && Divisible(xp, |xp|, extra)
            && NearInvariant(xp, ann, |xp|, extra, unit, f.value.d, f.value.previous)
  {
    TameFacts(xp, ann, extra, unit, ratio);
    LeastIsLarge(xp, ann, extra, unit, ratio);
    SumPositive(Sum(xp), Least(xp, ratio), ratio);
    StartsAbove(xp, ann, extra, unit, ratio);
    StartHeight(xp, ann, extra, unit, ratio);
    ClimbFar();
    assert Searching(xp, ann, extra, unit, ratio, Sum(xp));
    hide Tame, Divisible, Height, Chain, Climb, Power, Noise, Climbed, NearInvariant;
    HigherClimb(Height(CurveOf(xp, ann, extra, unit), Sum(xp)), P32 as real, Climb(112), Least(xp, ratio) as real);
    hide Searching, Least;
    FirstPhase(xp, ann, extra, unit, ratio, Sum(xp), MAX_STEPS, 112);
    SettledInvariant(xp, ann, |xp|, extra, unit, Sum(xp), MAX_STEPS);
  }

  lemma {:induction false} HigherClimb(h: real, a: real, b: real, l: real)
    requires Climbed(h, a, l) && a <= b && 0.0 <= l
    ensures Climbed(h, b, l)
  {
    RealMono(a, b, l);
  }

  /** Two balances within a factor of nine of each other, a sum of at least 157500 and an
      amplification of at least six: such a pool always settles. */
  lemma {:induction false} PairSettles(a: nat, b: nat, ann: nat, extra: nat, unit: nat)
    requires a <= 9 * b && b <= 9 * a && 157500 <= a + b < P256
    requires 0 < unit && 12 * unit <= ann && extra <= 1
    ensures var f := InvariantOf([a, b], ann, 2, extra, unit); f.Success? && f.value.settled
  {
    assert [a, b][..1] == [a] && [a][..0] == [];
    assert Sum([a]) == a && Sum([a, b]) == a + b;
    assert Noise(5, 0) == 0 && Noise(5, 1) == 1 && Noise(5, 2) == 6;
    assert Power(5, 1) == 5 && Power(5, 2) == 25 && Power(5, 3) == 125;
    TameBalancesSettle([a, b], ann, extra, unit, 5);
  }
}
