/** Integer arithmetic shared by the engines: powers, directed division, and
    repeated squaring, which lets a fractional power of two be compared with an
    integer without leaving the integers. */
module Arithmetic {

  // ----- products and quotients -----

  lemma {:induction false} MulMono(a: int, b: int, c: int)
    requires a <= b && 0 <= c
    ensures a * c <= b * c
  {
  }

  lemma {:induction false} MulStrict(a: int, b: int, c: int)
    requires a < b && 0 < c
    ensures a * c < b * c
  {
  }

  lemma {:induction false} MulCancel(a: int, b: int, c: int)
    requires a * c <= b * c && 0 < c
    ensures a <= b
  {
    if b < a { MulStrict(b, a, c); }
  }

  lemma {:induction false} MulCancelStrict(a: int, b: int, c: int)
    requires a * c < b * c && 0 < c
    ensures a < b
  {
    if b <= a { MulMono(b, a, c); }
  }

  lemma {:induction false} MulBoth(a: int, b: int, c: int, d: int)
    requires 0 <= a <= b && 0 <= c <= d
    ensures 0 <= a * c <= b * d
  {
    MulMono(a, b, c);
    MulMono(c, d, b);
  }

  lemma {:induction false} MulPositive(a: nat, b: nat)
    requires 0 < a && 0 < b
    ensures 0 < a * b
  {
  }

  lemma {:induction false} RealMulPositive(a: real, b: real)
    requires 0.0 < a && 0.0 < b
    ensures 0.0 < a * b
  {
  }

  lemma {:induction false} RealNonNegative(a: real, b: real)
    requires 0.0 <= a && 0.0 <= b
    ensures 0.0 <= a * b
  {
  }

  lemma {:induction false} RealMono(a: real, b: real, c: real)
    requires a <= b && 0.0 <= c
    ensures c * a <= c * b
  {
  }

  lemma {:induction false} RealMonoStrict(a: real, b: real, c: real)
    requires a < b && 0.0 < c
    ensures c * a < c * b
  {
  }

  lemma {:induction false} RealCancel(a: real, b: real, c: real)
    requires 0.0 < c && c * a <= c * b
    ensures a <= b
  {
  }

  lemma {:induction false} NoZeroDivisors(a: real, b: real)
    requires 0.0 < b
    ensures a * b == 0.0 <==> a == 0.0
  {
  }

  lemma {:induction false} RealRatio(a: real, b: real)
    requires 0.0 < b
    ensures a / b * b == a
    ensures 0.0 <= a ==> 0.0 <= a / b
  {
  }

  lemma {:induction false} CastMul(a: int, b: int)
    ensures (a * b) as real == a as real * b as real
  {
  }

  /** The floor quotient, bracketed. */
  lemma {:induction false} FloorBounds(a: int, d: int)
    requires 0 < d
    ensures a / d * d <= a < (a / d + 1) * d
  {
    assert a == a / d * d + a % d;
    assert (a / d + 1) * d == a / d * d + d;
  }

  lemma {:induction false} DivMod(n: nat, d: nat)
    requires 0 < d
    ensures n == n / d * d + n % d && n % d < d && n % d <= n && 0 <= n / d
  {
    FloorBounds(n, d);
    FloorGalois(n, d, 0);
    MulMono(0, n / d, d);
  }

  /** A quotient and a remainder in range are the quotient and the remainder. */
  lemma {:induction false} ModUnique(n: nat, d: nat, q: nat, m: nat)
    requires n == q * d + m && m < d
    ensures n / d == q && n % d == m
  {
    assert (q + 1) * d == q * d + d;
    FloorUnique(n, d, q);
    DivMod(n, d);
  }

  /** The floor quotient is the only integer with its bracket. */
  lemma {:induction false} FloorUnique(a: int, d: int, q: int)
    requires 0 < d && q * d <= a < (q + 1) * d
    ensures a / d == q
  {
    FloorBounds(a, d);
    MulCancelStrict(q, a / d + 1, d);
    MulCancelStrict(a / d, q + 1, d);
  }

  /** q <= a / d says exactly q * d <= a. */
  lemma {:induction false} FloorGalois(a: int, d: int, q: int)
    requires 0 < d
    ensures q <= a / d <==> q * d <= a
  {
    FloorBounds(a, d);
    if q <= a / d { MulMono(q, a / d, d); }
    if a / d < q { MulMono(a / d + 1, q, d); }
  }

  /** Dividing twice is dividing by the product. */
  lemma {:induction false} FloorFloor(a: int, d: int, e: int)
    requires 0 < d && 0 < e
    ensures 0 < d * e && a / d / e == a / (d * e)
  {
    var q := a / d / e;
    FloorBounds(a, d);
    FloorBounds(a / d, e);
    assert 0 < d * e;
    assert q * (d * e) <= a by {
      MulMono(q * e, a / d, d);
      assert q * e * d == q * (d * e);
    }
    assert a < (q + 1) * (d * e) by {
      MulMono(a / d + 1, (q + 1) * e, d);
      assert (q + 1) * e * d == (q + 1) * (d * e);
    }
    FloorUnique(a, d * e, q);
  }

  /** The quotient of naturals, rounded down. */
  function Quotient(a: nat, d: nat): nat
    requires 0 < d
  {
    DivMod(a, d);
    a / d
  }

  /** The quotient rounded down, for a divisor of either sign. */
  function FloorDiv(a: int, d: int): int
    requires d != 0
  {
    if 0 < d then a / d else -a / -d
  }

  /** Quotient rounded towards plus infinity. */
  function CeilDiv(a: nat, d: nat): nat
    requires 0 < d
  {
    a / d + (if a % d == 0 then 0 else 1)
  }

  lemma {:induction false} CeilBounds(a: nat, d: nat)
    requires 0 < d
    ensures a <= CeilDiv(a, d) * d
    ensures 0 < CeilDiv(a, d) ==> (CeilDiv(a, d) - 1) * d < a
  {
    var q, m := a / d, a % d;
    assert a == q * d + m;
    assert (q + 1) * d == q * d + d;
    assert (q - 1) * d == q * d - d;
  }

  /** CeilDiv(a, d) <= q says exactly a <= q * d. */
  lemma {:induction false} CeilGalois(a: nat, d: nat, q: nat)
    requires 0 < d
    ensures CeilDiv(a, d) <= q <==> a <= q * d
  {
    var c := CeilDiv(a, d);
    CeilBounds(a, d);
    if c <= q { MulMono(c, q, d); }
    if q < c { MulMono(q, c - 1, d); }
  }

  // ----- powers -----

  function Power(x: int, k: nat): (p: int)
    ensures 0 < x ==> 0 < p
    ensures 0 <= x ==> 0 <= p
  {
    if k == 0 then 1 else x * Power(x, k - 1)
  }

  lemma {:induction false} PowerMul(x: int, y: int, k: nat)
    ensures Power(x * y, k) == Power(x, k) * Power(y, k)
  {
    if k != 0 {
      PowerMul(x, y, k - 1);
      Exchange(x, y, Power(x, k - 1), Power(y, k - 1));
    }
  }

  lemma {:induction false} PowerAdd(x: int, a: nat, b: nat)
    ensures Power(x, a + b) == Power(x, a) * Power(x, b)
  {
    if a != 0 {
      PowerAdd(x, a - 1, b);
      assert a + b - 1 == a - 1 + b;
      MulAssoc(x, Power(x, a - 1), Power(x, b));
    }
  }

  lemma {:induction false} Exchange(x: int, y: int, p: int, q: int)
    ensures x * y * (p * q) == x * p * (y * q)
  {
    MulAssoc(x, y, p * q);
    MulAssoc(x, p, y * q);
    assert y * (p * q) == p * (y * q);
  }

  // ----- powers of two -----

  function Pow2(n: nat): (p: nat)
    ensures 0 < p
  {
    if n == 0 then 1 else 2 * Pow2(n - 1)
  }

  lemma {:induction false} Pow2Add(a: nat, b: nat)
    ensures Pow2(a + b) == Pow2(a) * Pow2(b)
  {
    if a != 0 {
      Pow2Add(a - 1, b);
      assert a + b - 1 == a - 1 + b;
      assert 2 * Pow2(a - 1) * Pow2(b) == 2 * (Pow2(a - 1) * Pow2(b));
    }
  }

  lemma {:induction false} Pow2Mono(a: nat, b: nat)
    requires a <= b
    ensures Pow2(a) <= Pow2(b)
  {
    Pow2Add(a, b - a);
    MulMono(1, Pow2(b - a), Pow2(a));
  }

  lemma {:induction false} Pow2Strict(a: nat, b: nat)
    requires a < b
    ensures 2 * Pow2(a) <= Pow2(b)
  {
    Pow2Mono(a + 1, b);
  }

  /** Powers of two order as their exponents. */
  lemma {:induction false} Pow2Inverse(a: nat, b: nat)
    requires Pow2(a) <= Pow2(b)
    ensures a <= b
  {
    if b < a { Pow2Strict(b, a); }
  }

  const P32: nat := 0x1_0000_0000
  const P64: nat := 0x1_0000_0000_0000_0000
  const P96: nat := 0x1_0000_0000_0000_0000_0000_0000
  const P127: nat := 0x8000_0000_0000_0000_0000_0000_0000_0000
  const P128: nat := 0x1_0000_0000_0000_0000_0000_0000_0000_0000
  const P160: nat := 0x1_0000_0000_0000_0000_0000_0000_0000_0000_0000_0000
  const P192: nat := 0x1_0000_0000_0000_0000_0000_0000_0000_0000_0000_0000_0000_0000
  const P256: nat := 0x1_0000_0000_0000_0000_0000_0000_0000_0000_0000_0000_0000_0000_0000_0000_0000_0000

  lemma {:induction false} Pow2Small()
    ensures Pow2(0) == 1 && Pow2(1) == 2 && Pow2(2) == 4 && Pow2(3) == 8 && Pow2(4) == 0x10
    ensures Pow2(8) == 0x100 && Pow2(16) == 0x1_0000 && Pow2(32) == P32
  {
    Pow2Double(4, 8);
    Pow2Double(8, 16);
    Pow2Double(16, 32);
  }

  lemma {:induction false} Pow2Double(a: nat, b: nat)
    requires b == 2 * a
    ensures Pow2(b) == Pow2(a) * Pow2(a)
  {
    Pow2Add(a, a);
  }

  lemma {:induction false} Pow2Words()
    ensures Pow2(32) == P32 && Pow2(64) == P64 && Pow2(96) == P96 && Pow2(128) == P128
  {
    Pow2Small();
    Pow2Double(32, 64);
    Pow2Add(64, 32);
    Pow2Double(64, 128);
  }

  lemma {:induction false} Pow2HalfWord()
    ensures Pow2(127) == P127 && Pow2(128) == P128
  {
    Pow2Words();
    assert Pow2(128) == 2 * Pow2(127);
  }

  lemma {:induction false} Pow2Wide()
    ensures Pow2(160) == P160 && Pow2(192) == P192 && Pow2(256) == P256
  {
    Pow2Words();
    Pow2Add(128, 32);
    Pow2Add(128, 64);
    Pow2Add(128, 128);
  }

  // ----- repeated squaring: Tower(x, k) is x raised to 2^k -----

  ghost function Tower(x: nat, k: nat): nat
    decreases k
  {
    if k == 0 then x else Tower(x * x, k - 1)
  }

  lemma {:induction false} TowerMul(x: nat, y: nat, k: nat)
    ensures Tower(x * y, k) == Tower(x, k) * Tower(y, k)
    decreases k
  {
    if k != 0 {
      assert (x * y) * (x * y) == (x * x) * (y * y);
      TowerMul(x * x, y * y, k - 1);
    }
  }

  /** The square can also be taken last. */
  lemma {:induction false} TowerSquare(x: nat, k: nat)
    ensures Tower(x, k + 1) == Tower(x, k) * Tower(x, k)
  {
    TowerMul(x, x, k);
  }

  lemma {:induction false} TowerMono(x: nat, y: nat, k: nat)
    requires x <= y
    ensures Tower(x, k) <= Tower(y, k)
    decreases k
  {
    if k != 0 {
      MulBoth(x, y, x, y);
      TowerMono(x * x, y * y, k - 1);
    }
  }

  lemma {:induction false} TowerStrict(x: nat, y: nat, k: nat)
    requires x < y
    ensures Tower(x, k) < Tower(y, k)
    decreases k
  {
    if k != 0 {
      MulMono(x, y, x);
      MulStrict(x, y, y);
      TowerStrict(x * x, y * y, k - 1);
    }
  }

  lemma {:induction false} TowerInverse(x: nat, y: nat, k: nat)
    requires Tower(x, k) <= Tower(y, k)
    ensures x <= y
  {
    if y < x { TowerStrict(y, x, k); }
  }

  lemma {:induction false} TowerPow2(a: nat, k: nat)
    ensures Tower(Pow2(a), k) == Pow2(a * Pow2(k))
    decreases k
  {
    if k != 0 {
      Pow2Add(a, a);
      assert Pow2(a) * Pow2(a) == Pow2(2 * a);
      TowerPow2(2 * a, k - 1);
      assert 2 * a * Pow2(k - 1) == a * Pow2(k);
    }
  }

  /** Bernoulli's inequality for x + 1 against x at the power 2^k. */
  lemma {:induction false} TowerBernoulli(x: nat, k: nat)
    requires Pow2(k) <= x
    ensures Tower(x + 1, k) * (x - Pow2(k)) <= Tower(x, k) * x
  {
    if k == 0 {
      assert (x + 1) * (x - 1) == x * x - 1;
    } else {
      var h := Pow2(k - 1);
      TowerBernoulli(x, k - 1);
      TowerSquare(x + 1, k - 1);
      TowerSquare(x, k - 1);
      var u, v := Tower(x + 1, k - 1), Tower(x, k - 1);
      BernoulliSquare(u, v, x, h);
    }
  }

  lemma {:induction false} BernoulliSquare(u: nat, v: nat, x: nat, h: nat)
    requires 0 < h && 2 * h <= x && u * (x - h) <= v * x
    ensures u * u * (x - 2 * h) <= v * v * x
  {
    var p, q := u * (x - h), v * x;
    MulBoth(p, q, p, q);
    assert p * p == u * u * ((x - h) * (x - h));
    assert q * q == v * v * x * x by { SquareProduct(v, x); }
    assert (x - h) * (x - h) == (x - 2 * h) * x + h * h;
    assert (x - 2 * h) * x <= (x - h) * (x - h);
    MulMono((x - 2 * h) * x, (x - h) * (x - h), u * u);
    assert u * u * ((x - 2 * h) * x) == u * u * (x - 2 * h) * x by { MulAssoc(u * u, x - 2 * h, x); }
    MulCancel(u * u * (x - 2 * h), v * v * x, x);
  }

  lemma {:induction false} SquareProduct(v: int, x: int)
    ensures (v * x) * (v * x) == v * v * x * x
  {
  }

  lemma {:induction false} MulAssoc(a: int, b: int, c: int)
    ensures a * (b * c) == a * b * c
  {
  }

  lemma {:induction false} HalfBound(u: nat, v: nat, x: nat, h: nat)
    requires 0 < h && 2 * h <= x && u * (x - h) <= v * x
    ensures u <= 2 * v
  {
    var y := x - h;
    MulMono(x, 2 * y, v);
    assert v * x == x * v && 2 * y * v == 2 * v * y;
    MulCancel(u, 2 * v, y);
  }

  /** One unit in a number of at least 2^(k+1) costs at most one factor of two at the power 2^k. */
  lemma {:induction false} TowerUnit(x: nat, k: nat)
    requires 2 * Pow2(k) <= x
    ensures Tower(x + 1, k) <= 2 * Tower(x, k)
  {
    TowerBernoulli(x, k);
    HalfBound(Tower(x + 1, k), Tower(x, k), x, Pow2(k));
  }
}
