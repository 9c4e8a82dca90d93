/** The EVM's wrapping arithmetic, and the cube root of a 256-bit number by a
    power-of-two guess and exactly seven Newton steps. */
module CubeRoot {
  import opened Arithmetic
  import opened Bits

  // ----- wrapping arithmetic -----

  /** x brought into the range of an integer type of the given width by whole turns. */
  ghost predicate Wraps(x: int, unsigned: bool, bits: nat, r: int)
    requires 0 < bits
  {
    && (if unsigned then 0 <= r < Pow2(bits) else 0 <= r + Pow2(bits - 1) < Pow2(bits))
    && exists k: int :: r == x + k * Pow2(bits)
  }

  /** There is only one such value. */
  lemma {:induction false} WrapsUnique(x: int, unsigned: bool, bits: nat, r: int, q: int)
    requires 0 < bits && Wraps(x, unsigned, bits, r) && Wraps(x, unsigned, bits, q)
    ensures r == q
  {
    var n := Pow2(bits);
    var i: int :| r == x + i * n;
    var j: int :| q == x + j * n;
    assert n == 2 * Pow2(bits - 1);
    assert r - q == (i - j) * n;
    if i < j { MulMono(i - j, -1, n); }
    if j < i { MulMono(1, i - j, n); }
  }

  method UnsafeOverflow(x: int, unsigned: bool, bits: nat) returns (r: int)
    requires bits == 8 || bits == 256
    ensures Wraps(x, unsigned, bits, r)
  {
    var value: int := Pow2(bits);
    var maxValue := if unsigned then value else Pow2(bits - 1);
    var minValue := if !unsigned then -maxValue else 0;
    assert value == 2 * Pow2(bits - 1);
    r := x;
    ghost var k := 0;
    while !(minValue <= r < maxValue)
      invariant r == x + k * value
      invariant minValue <= x ==> minValue <= r
      invariant x < maxValue ==> r < maxValue
      decreases if r < minValue then minValue - r else if r < maxValue then 0 else r - maxValue + 1
    {
      hide Pow2;
      ghost var before := r;
      r := r - (if r > 0 then value else -value);
      assert (k - 1) * value == k * value - value && (k + 1) * value == k * value + value;
      k := if before > 0 then k - 1 else k + 1;
    }
  }

  function Wrap256(x: int): nat { x % P256 }

  /** The unsigned 256-bit case in closed form. */
  lemma {:induction false} Wrap256IsWraps(x: int)
    ensures Wraps(x, true, 256, Wrap256(x))
  {
    Pow2Wide();
    var q := x / P256;
    assert x == q * P256 + x % P256;
    assert Wrap256(x) == x + (-q) * P256;
  }

  function UnsafeAdd(x: nat, y: nat): nat { Wrap256(x + y) }
  function UnsafeMul(x: nat, y: nat): nat { Wrap256(x * y) }
  function UnsafeDiv(x: nat, y: nat): nat {
    if y == 0 then 0 else
      DivMod(x, y);
      Wrap256(x / y)
  }
  function PowMod256(a: nat, b: nat): nat { Wrap256(Power(a, b)) }

  lemma {:induction false} InRange256(x: nat)
    requires x < P256
    ensures Wrap256(x) == x
  {
  }

  // ----- cubes and the integer cube root -----

  function Cube(x: int): int { x * x * x }

  lemma {:induction false} CubeMono(x: int, y: int)
    requires 0 <= x <= y
    ensures 0 <= Cube(x) <= Cube(y)
  {
    MulBoth(x, y, x, y);
    MulBoth(x * x, y * y, x, y);
  }

  lemma {:induction false} CubeScale(c: int, x: int)
    ensures Cube(c * x) == Cube(c) * Cube(x)
  {
    var y := c * x;
    assert y * y == c * c * (x * x);
    assert c * c * (x * x) * y == c * c * c * (x * x * x) by {
      assert c * c * (x * x) * (c * x) == c * c * c * (x * x * x);
    }
  }

  ghost function FloorCbrt(x: nat): (s: nat)
    ensures Cube(s) <= x < Cube(s + 1)
  {
    if x == 0 then 0
    else
      var r := FloorCbrt(x - 1);
      assert Cube(r + 1) < Cube(r + 2) by { CubeStep(r + 1); }
      if Cube(r + 1) <= x then r + 1 else r
  }

  lemma {:induction false} CubeStep(n: nat)
    ensures Cube(n) < Cube(n + 1)
  {
    assert (n + 1) * (n + 1) == n * n + 2 * n + 1;
    assert (n * n + 2 * n + 1) * (n + 1) == n * n * n + 3 * (n * n) + 3 * n + 1;
    MulMono(0, n, n);
  }

  // ----- one Newton step -----

  /** The step without wrapping: (2 a + x / a^2) / 3. */
  function Newton(x: nat, a: nat): nat
    requires 0 < a
  {
    DivMod(x, a * a);
    (2 * a + x / (a * a)) / 3
  }

  /** From any guess a step lands no lower than the root. */
  lemma {:induction false} NewtonAboveRoot(x: nat, a: nat, s: nat)
    requires 0 < a && Cube(s) <= x
    ensures s <= Newton(x, a)
  {
    var v := 3 * s - 2 * a;
    TangentBelowCube(a, s);
    FloorGalois(x, a * a, v);
  }

  /** (3 s - 2 a) a^2 <= s^3, as the difference is (a - s)^2 (2 a + s). */
  lemma {:induction false} TangentBelowCube(a: nat, s: nat)
    ensures (3 * s - 2 * a) * (a * a) <= Cube(s)
  {
    TangentIdentity(a, s);
    var d := a - s;
    assert 0 <= d * d by { if d < 0 { assert d * d == -d * -d; } }
    MulMono(0, d * d, 2 * a + s);
  }

  lemma {:induction false} TangentIdentity(a: int, s: int)
    ensures Cube(s) - (3 * s - 2 * a) * (a * a) == (a - s) * (a - s) * (2 * a + s)
  {
    var aa, sa, ss := a * a, s * a, s * s;
    assert (a - s) * (a - s) == aa - 2 * sa + ss by { assert a * s == sa; }
    assert (aa - 2 * sa + ss) * (2 * a + s)
        == 2 * (aa * a) - 4 * (sa * a) + 2 * (ss * a) + aa * s - 2 * (sa * s) + ss * s;
    assert sa * a == aa * s && sa * s == ss * a;
    assert (3 * s - 2 * a) * aa == 3 * (aa * s) - 2 * (aa * a);
  }

  /** Above the root the distance is squared, relative to the root. */
  lemma {:induction false} NewtonContracts(x: nat, a: nat, q: nat, K: nat)
    requires 0 < q <= a && x <= Cube(q) && K * (a - q) <= q
    ensures K * K * (Newton(x, a) - q) <= q
  {
    var b := Newton(x, a);
    if q < b {
      NewtonGap(x, a, q);
      var e, d := b - q, a - q;
      MulMono(q, a, e);
      ContractScaled(K, d, e, q);
    } else {
      MulMono(b - q, 0, K * K);
    }
  }

  /** The next distance times a is at most the square of this one. */
  lemma {:induction false} NewtonGap(x: nat, a: nat, q: nat)
    requires 0 < q <= a && x <= Cube(q)
    ensures (Newton(x, a) - q) * a <= (a - q) * (a - q)
  {
    hide Newton, Cube;
    var e, dd := Newton(x, a) - q, (a - q) * (a - q);
    NewtonExcess(x, a, q);
    SquareNonNegative(a - q);
    MulMono(2 * a + q, 3 * a, dd);
    assert dd * (2 * a + q) == (2 * a + q) * dd && dd * (3 * a) == 3 * a * dd;
    assert e * a * (3 * a) == 3 * (a * a) * e;
    MulCancel(e * a, dd, 3 * a);
  }

  /** How far a step from any guess lands above the root. */
  lemma {:induction false} NewtonExcess(x: nat, a: nat, q: nat)
    requires 0 < a && x <= Cube(q)
    ensures 3 * (a * a) * (Newton(x, a) - q) <= (a - q) * (a - q) * (2 * a + q)
  {
    var b, aa := Newton(x, a), a * a;
    NewtonBelow(x, a);
    TangentIdentity(a, q);
    Expand2(q, a, aa);
    assert a * aa == Cube(a);
    assert 3 * b * aa == 3 * (b * aa);
    assert 3 * aa * (b - q) == 3 * (b * aa) - 3 * (q * aa);
  }

  lemma {:induction false} NewtonBelow(x: nat, a: nat)
    requires 0 < a
    ensures 3 * Newton(x, a) * (a * a) <= 2 * Cube(a) + x
  {
    var v := x / (a * a);
    FloorBounds(x, a * a);
    MulMono(3 * Newton(x, a), 2 * a + v, a * a);
    assert (2 * a + v) * (a * a) == 2 * Cube(a) + v * (a * a);
  }

  lemma {:induction false} SquareNonNegative(d: int)
    ensures 0 <= d * d
  {
  }

  lemma {:induction false} Expand2(q: int, a: int, m: int)
    ensures (3 * q - 2 * a) * m == 3 * (q * m) - 2 * (a * m)
  {
  }

  lemma {:induction false} ContractScaled(K: nat, d: nat, e: nat, q: nat)
    requires 0 < q && K * d <= q && q * e <= d * d
    ensures K * K * e <= q
  {
    MulBoth(K * d, q, K * d, q);
    assert K * d * (K * d) == K * K * (d * d);
    MulMono(q * e, d * d, K * K);
    assert q * e * (K * K) == K * K * e * q && d * d * (K * K) == K * K * (d * d);
    MulCancel(K * K * e, q, q);
  }

  ghost predicate IsFloorCbrt(x: nat, s: nat) {
    Cube(s) <= x < Cube(s + 1)
  }

  /** s <= a, and a exceeds s + 1 by at most one part in K. */
  ghost predicate Near(s: nat, a: nat, K: nat) {
    s <= a && K * (a - (s + 1)) <= s + 1
  }

  /** From the root itself a step goes up by one at most. */
  lemma {:induction false} NewtonAtRoot(x: nat, s: nat)
    requires IsFloorCbrt(x, s) && 4 <= s
    ensures Newton(x, s) <= s + 1
  {
    var v := x / (s * s);
    if s + 4 <= v {
      FloorGalois(x, s * s, s + 4);
      assert (s + 4) * (s * s) == Cube(s) + 4 * (s * s);
      CubeNext(s);
      MulMono(4, s, s);
    }
  }

  lemma {:induction false} CubeNext(s: nat)
    ensures Cube(s + 1) == Cube(s) + 3 * (s * s) + 3 * s + 1
  {
    assert (s + 1) * (s + 1) == s * s + 2 * s + 1;
    assert (s * s + 2 * s + 1) * (s + 1) == s * s * s + 3 * (s * s) + 3 * s + 1;
  }

  /** Every step squares the closeness, and a settled guess stays settled. */
  lemma {:induction false} NewtonNear(x: nat, s: nat, a: nat, K: nat)
    requires IsFloorCbrt(x, s) && 4 <= s && Near(s, a, K)
    ensures Near(s, Newton(x, a), K * K)
  {
    hide Newton, Cube;
    NewtonAboveRoot(x, a, s);
    if a == s {
      NewtonAtRoot(x, s);
      MulMono(Newton(x, a) - (s + 1), 0, K * K);
    } else {
      NewtonContracts(x, a, s + 1, K);
    }
  }

  // ----- the initial guess -----

  /** The guess is a little below or above the root: its cube is between x / 2.001 and x / 0.999. */
  ghost predicate GoodGuess(x: nat, g: nat) {
    999 * Cube(g) <= 1000 * x <= 2001 * Cube(g)
  }

  /** One step brings a good guess to within a twelfth above the root. */
  lemma {:induction false} FirstStep(x: nat, g: nat, s: nat)
    requires GoodGuess(x, g) && 0 < g && IsFloorCbrt(x, s) && 1000 <= s
    ensures Near(s, Newton(x, g), 12)
  {
    var q := s + 1;
    NewtonAboveRoot(x, g, s);
    GuessRange(x, g, s);
    NewtonExcess(x, g, q);
    hide Newton, Cube;
    if q < Newton(x, g) { ExcessBound(Newton(x, g) - q, g, q); }
  }

  /** A good guess is at least 0.79 and at most 1.001 of the root. */
  lemma {:induction false} GuessRange(x: nat, g: nat, s: nat)
    requires GoodGuess(x, g) && IsFloorCbrt(x, s) && 1000 <= s
    ensures 79 * (s + 1) <= 100 * g && 1000 * g <= 1001 * (s + 1)
  {
    var q := s + 1;
    CubeMono(999 * q, 1000 * s);
    CubeScale(999, q);
    CubeScale(1000, s);
    CubePositive(q);
    if 100 * g < 79 * q {
      CubeMono(100 * g, 79 * q);
      CubeScale(100, g);
      CubeScale(79, q);
    }
    if 1001 * q < 1000 * g {
      CubeMono(1001 * q, 1000 * g);
      CubeScale(1001, q);
      CubeScale(1000, g);
    }
  }

  lemma {:induction false} CubePositive(q: nat)
    requires 0 < q
    ensures 0 < Cube(q)
  {
    CubeMono(1, q);
  }

  /** With the guess in that range the excess is at most a twelfth. */
  lemma {:induction false} ExcessBound(e: nat, g: nat, q: nat)
    requires 0 < q && 79 * q <= 100 * g && 1000 * g <= 1001 * q
    requires 3 * (g * g) * e <= (g - q) * (g - q) * (2 * g + q)
    ensures 12 * e <= q
  {
    SquareRange(g, q);
    ExcessProducts(e, g, q, q * q, g * g, (g - q) * (g - q), 2 * g + q);
  }

  lemma {:induction false} ExcessProducts(e: nat, g: nat, q: nat, qq: nat, gg: nat, dd: nat, m: nat)
    requires qq == q * q && 0 < q && 1000 * m <= 3002 * q
    requires 3 * gg * e <= dd * m && 10000 * dd <= 441 * qq && 6241 * qq <= 10000 * gg
    ensures 12 * e <= q
  {
    ScaledMono(1000, m, 3002, q, dd);
    ScaledMono(10000, dd, 441, qq, q);
    ScaledMono(6241, qq, 10000, gg, e);
    assert q * dd == dd * q && dd * m == m * dd && 3 * gg * e == 3 * (gg * e);
    ExcessChain(e, q, qq, gg * e, m * dd, dd * q);
  }

  lemma {:induction false} ScaledMono(c: nat, x: nat, d: nat, y: nat, m: nat)
    requires c * x <= d * y
    ensures c * (x * m) <= d * (y * m)
  {
    MulMono(c * x, d * y, m);
    MulAssoc(c, x, m);
    MulAssoc(d, y, m);
  }

  lemma {:induction false} SquareRange(g: nat, q: nat)
    requires 79 * q <= 100 * g && 1000 * g <= 1001 * q
    ensures 6241 * (q * q) <= 10000 * (g * g) && 10000 * ((g - q) * (g - q)) <= 441 * (q * q)
    ensures 0 <= (g - q) * (g - q)
  {
    SquareScaled(79, q, 100, g);
    var d := if g <= q then q - g else g - q;
    assert d * d == (g - q) * (g - q) by { if g <= q { NegatedSquare(g - q); } }
    SquareScaled(100, d, 21, q);
    SquareNonNegative(g - q);
  }

  lemma {:induction false} SquareScaled(c: nat, x: nat, d: nat, y: nat)
    requires c * x <= d * y
    ensures c * c * (x * x) <= d * d * (y * y)
  {
    MulMono(0, c, x);
    MulBoth(c * x, d * y, c * x, d * y);
    SquareOfProduct(c, x);
    SquareOfProduct(d, y);
  }

  lemma {:induction false} SquareOfProduct(c: int, x: int)
    ensures c * x * (c * x) == c * c * (x * x)
  {
  }

  lemma {:induction false} NegatedSquare(d: int)
    ensures -d * -d == d * d
  {
  }

  lemma {:induction false} ExcessChain(e: nat, q: nat, qq: nat, gge: nat, ddm: int, ddq: int)
    requires qq == q * q && 0 < q
    requires 3 * gge <= ddm && 1000 * ddm <= 3002 * ddq
    requires 10000 * ddq <= 441 * (qq * q) && 6241 * (qq * e) <= 10000 * gge
    ensures 12 * e <= q
  {
    assert qq * (12 * e) <= qq * q;
    MulCancel(12 * e, q, qq);
  }

  function InitialGuess(m: nat): nat {
    Quotient(Pow2(m / 3) * Power(1260, m % 3), Power(1000, m % 3))
  }

  /** 2^(m/3) times 1.26 for each unit of m mod 3 is a good guess when m is the highest bit. */
  lemma {:induction false} GuessIsGood(x: nat, m: nat, g: nat)
    requires FloorLog2(x, m) && E36 <= x < P256
    requires g == InitialGuess(m)
    ensures GoodGuess(x, g) && 2 <= g < P128
  {
    var t, r := Pow2(m / 3), m % 3;
    ThirdPower(m);
    var c := Cube(t);
    assert Pow2(r) * c <= x < 2 * (Pow2(r) * c);
    assert Pow2(r) == (if r == 0 then 1 else if r == 1 then 2 else 4);
    ThirdIsLarge(x, t);
    SmallPowers(r);
    hide Pow2, Power;
    if r == 1 {
      GuessOnce(x, t, g);
    } else if r == 2 {
      GuessTwice(x, t, g);
    } else {
      CubeMono(0, t);
      hide Cube;
    }
  }

  lemma {:induction false} ThirdPower(m: nat)
    ensures Pow2(m) == Pow2(m % 3) * Cube(Pow2(m / 3)) && Pow2(m + 1) == 2 * Pow2(m)
  {
    var p := m / 3;
    Pow2Add(p, p);
    Pow2Add(p + p, p);
    Pow2Add(m % 3, p + p + p);
    assert m == m % 3 + (p + p + p);
  }

  lemma {:induction false} ThirdIsLarge(x: nat, t: nat)
    requires Cube(t) <= x < 8 * Cube(t) && E36 <= x < P256
    ensures 10000 <= t < E26
  {
    if t < 10000 { CubeMono(t, 10000); }
    if E26 <= t { CubeMono(E26, t); }
  }

  const E18: nat := 1000000000000000000
  const E26: nat := 100000000000000000000000000
  const E36: nat := 1000000000000000000000000000000000000

  lemma {:induction false} GuessOnce(x: nat, t: nat, g: nat)
    requires 2 * Cube(t) <= x < 4 * Cube(t) && 10000 <= t < E26 && g == t * 1260 / 1000
    ensures GoodGuess(x, g) && 2 <= g < P128
  {
    CubeMono(1000 * g, 1260 * t);
    CubeMono(12599 * t, 10000 * g);
    CubeScale(1000, g);
    CubeScale(1260, t);
    CubeScale(12599, t);
    CubeScale(10000, g);
  }

  lemma {:induction false} GuessTwice(x: nat, t: nat, g: nat)
    requires 4 * Cube(t) <= x < 8 * Cube(t) && 10000 <= t < E26 && g == t * 1587600 / 1000000
    ensures GoodGuess(x, g) && 2 <= g < P128
  {
    CubeMono(1000000 * g, 1587600 * t);
    CubeMono(15875 * t, 10000 * g);
    CubeScale(1000000, g);
    CubeScale(1587600, t);
    CubeScale(15875, t);
    CubeScale(10000, g);
  }

  lemma {:induction false} PowerOfTwo(n: nat)
    ensures Power(2, n) == Pow2(n)
  {
    if n != 0 { PowerOfTwo(n - 1); }
  }

  // ----- the method of the source -----

  /** The step of the source, which a zero guess leaves at zero. */
  function NewtonOrZero(x: nat, a: nat): nat {
    if a == 0 then 0 else Newton(x, a)
  }

  /** One line of the seven, in wrapping arithmetic; nothing wraps. */
  method NewtonLine(x: nat, a: nat) returns (b: nat)
    requires x < P256 && a < P128 && (x != 0 ==> 2 <= a)
    ensures b == NewtonOrZero(x, a)
  {
    hide Wrap256;
    var m := a * a;
    MulBoth(a, P128 - 1, a, P128 - 1);
    InRange256(2 * a);
    InRange256(m);
    if a != 0 {
      QuotientFits(x, a);
      InRange256(x / m);
      InRange256(2 * a + x / m);
      InRange256((2 * a + x / m) / 3);
    } else {
      InRange256(0);
    }
    b := UnsafeDiv(UnsafeAdd(UnsafeMul(2, a), UnsafeDiv(x, UnsafeMul(a, a))), 3);
  }

  lemma {:induction false} QuotientFits(x: nat, a: nat)
    requires x < P256 && 0 < a < P128 && (x != 0 ==> 2 <= a)
    ensures 0 < a * a && 0 <= x / (a * a) && 2 * a + x / (a * a) < P256
  {
    var m := a * a;
    MulBoth(1, a, 1, a);
    DivMod(x, m);
    if x != 0 {
      MulBoth(2, a, 2, a);
      MulMono(4, m, x / m);
      assert x / m * m == m * (x / m);
      assert 4 * (x / m) <= x;
    } else {
      FloorUnique(0, m, 0);
    }
  }

  /** The initial guess in wrapping arithmetic; nothing wraps. */
  method WrappedGuess(log2x: nat) returns (a: nat)
    requires log2x < 256
    ensures a == InitialGuess(log2x)
  {
    var remainder := log2x % 3;
    var p := log2x / 3;
    ghost var t, n, d := Pow2(p), Power(1260, remainder), Power(1000, remainder);
    assert t <= P128 by { Pow2Mono(p, 128); Pow2HalfWord(); }
    PowerOfTwo(p);
    SmallPowers(remainder);
    hide Pow2, Power, Wrap256;
    InRange256(p);
    InRange256(t);
    InRange256(n);
    InRange256(d);
    MulBoth(t, P128, n, 1587600);
    InRange256(t * n);
    DivMod(t * n, d);
    MulMono(1, d, t * n / d);
    InRange256(t * n / d);
    a := UnsafeDiv(UnsafeMul(PowMod256(2, UnsafeDiv(log2x, 3)), PowMod256(1260, remainder)),
                   PowMod256(1000, remainder));
  }

  lemma {:induction false} MsbBelow256(x: nat, m: nat)
    requires x < P256 && FloorLog2(x, m)
    ensures m < 256
  {
    hide Pow2;
    Pow2Wide();
    if 256 <= m { Pow2Mono(256, m); }
  }

  lemma {:induction false} SmallPowers(r: nat)
    requires r < 3
    ensures Power(1260, r) == (if r == 0 then 1 else if r == 1 then 1260 else 1587600)
    ensures Power(1000, r) == (if r == 0 then 1 else if r == 1 then 1000 else 1000000)
  {
    assert Power(1260, 0) == 1 && Power(1260, 1) == 1260 && Power(1260, 2) == 1587600;
    assert Power(1000, 0) == 1 && Power(1000, 1) == 1000 && Power(1000, 2) == 1000000;
  }

  lemma {:induction false} RootRange(x: nat, s: nat)
    requires IsFloorCbrt(x, s) && E36 <= x < P256
    ensures 1000 <= s < E26
  {
    if s < 1000 { CubeMono(s + 1, 1000); }
    if E26 <= s { CubeMono(E26, s); }
  }

  /** Where the guess stands: near the root of a large number, or at zero for zero. */
  ghost predicate OnTrack(x: nat, s: nat, a: nat, K: nat) {
    if x == 0 then a == 0 else 1000 <= s < E26 && IsFloorCbrt(x, s) && Near(s, a, K)
  }

  lemma {:induction false} OnTrackFits(x: nat, s: nat, a: nat, K: nat)
    requires OnTrack(x, s, a, K) && 1 <= K
    ensures a < P128 && (x != 0 ==> 2 <= a)
  {
    hide IsFloorCbrt;
    if x != 0 && s + 1 < a { MulMono(1, K, a - (s + 1)); }
  }

  lemma {:induction false} OnTrackStep(x: nat, s: nat, a: nat, K: nat, b: nat)
    requires OnTrack(x, s, a, K) && 1 <= K && b == NewtonOrZero(x, a)
    ensures OnTrack(x, s, b, K * K)
  {
    OnTrackFits(x, s, a, K);
    hide Newton, IsFloorCbrt, Near;
    if x != 0 { NewtonNear(x, s, a, K); }
  }

  /** One line of the seven: twice as many digits are right after it. */
  method OneOfSeven(x: nat, a: nat, ghost s: nat, ghost K: nat) returns (b: nat)
    requires x < P256 && OnTrack(x, s, a, K) && 1 <= K
    ensures OnTrack(x, s, b, K * K)
  {
    hide OnTrack, NewtonOrZero;
    OnTrackFits(x, s, a, K);
    b := NewtonLine(x, a);
    OnTrackStep(x, s, a, K, b);
  }

  /** x without the rescaling for small numbers would lose digits; where x is small it is scaled up. */
  const THRESHOLD: nat := 115792089237316195423570985008687907853269

  /** What the result counts in, so that its cube compares with x times 10^36. */
  function ResultUnit(x: nat): nat {
    if x >= THRESHOLD * E18 then 1000000000000 else if x >= THRESHOLD then 1000000 else 1
  }

  /** The cube root of x in 18 digits, to within one unit; no operation wraps. */
  method Cbrt(x: nat) returns (r: nat)
    requires x < P256
    ensures Cube(r - ResultUnit(x)) <= x * E36 < Cube(r + ResultUnit(x))
    ensures x == 0 ==> r == 0
  {
    hide Cube, Pow2, Power, Wrap256, FloorLog2, InitialGuess, OnTrack, NewtonOrZero;
    var xx;
    if x >= THRESHOLD * E18 {
      xx := x;
    } else if x >= THRESHOLD {
      xx := UnsafeMul(x, E18);
      InRange256(x * E18);
    } else {
      xx := UnsafeMul(x, E36);
      InRange256(x * E36);
    }
    var log2x := SnekmateLog2(xx, false);
    if xx != 0 { MsbBelow256(xx, log2x); }
    var a := WrappedGuess(log2x);
    ghost var s := FloorCbrt(xx);
    GuessOnTrack(xx, log2x, a, s);
    a := NewtonLine(xx, a);
    a := OneOfSeven(xx, a, s, 12);
    a := OneOfSeven(xx, a, s, 144);
    a := OneOfSeven(xx, a, s, 20736);
    a := OneOfSeven(xx, a, s, 429981696);
    a := OneOfSeven(xx, a, s, 184884258895036416);
    a := OneOfSeven(xx, a, s, 34182189187166852111368841966125056);
    SevenSettle(xx, s, a);
    Rescaled(x, xx, a);
    if x >= THRESHOLD * E18 {
      InRange256(a * 1000000000000);
      a := UnsafeMul(a, 1000000000000);
    } else if x >= THRESHOLD {
      InRange256(a * 1000000);
      a := UnsafeMul(a, 1000000);
    }
    r := a;
  }

  /** The first line puts the guess on track. */
  lemma {:induction false} GuessOnTrack(x: nat, m: nat, a: nat, s: nat)
    requires x < P256 && (x == 0 || E36 <= x) && (if x == 0 then m == 0 else FloorLog2(x, m))
    requires a == InitialGuess(m) && IsFloorCbrt(x, s)
    ensures a < P128 && (x != 0 ==> 2 <= a) && OnTrack(x, s, NewtonOrZero(x, a), 12)
  {
    if x == 0 {
      assert Pow2(0) == 1 && Power(1260, 0) == 1 && Power(1000, 0) == 1;
    } else {
      hide Cube, FloorLog2, InitialGuess, Newton, GoodGuess, IsFloorCbrt, Near;
      GuessIsGood(x, m, a);
      RootRange(x, s);
      FirstStep(x, a, s);
    }
  }

  /** Twelve squared six times. */
  const SETTLED: nat := 1168422057627266461843148138873451659428421700563161428957815831003136

  ghost predicate Settled(x: nat, a: nat) {
    Cube(a - 1) <= x < Cube(a + 1)
  }

  /** When less than one part in the root is left, the guess is the root or one above. */
  lemma {:induction false} SevenSettle(x: nat, s: nat, a: nat)
    requires OnTrack(x, s, a, SETTLED)
    ensures Settled(x, a) && a < P128 && (x == 0 ==> a == 0)
  {
    if x != 0 {
      if s + 1 < a { MulMono(1, a - (s + 1), SETTLED); }
      CubeMono(a - 1, s);
      CubeMono(s + 1, a + 1);
    }
  }

  lemma {:induction false} Rescaled(x: nat, xx: nat, a: nat)
    requires x < P256 && a < P128 && Settled(xx, a)
    requires xx == if x >= THRESHOLD * E18 then x else if x >= THRESHOLD then x * E18 else x * E36
    ensures var u := ResultUnit(x); Cube(a * u - u) <= x * E36 < Cube(a * u + u) && a * u < P256
  {
    var u := ResultUnit(x);
    CubeScale(u, a - 1);
    CubeScale(u, a + 1);
    assert u * (a - 1) == a * u - u && u * (a + 1) == a * u + u;
    assert xx * Cube(u) == x * E36;
    MulMono(Cube(a - 1), xx, Cube(u));
    MulStrict(xx, Cube(a + 1), Cube(u));
  }
}
