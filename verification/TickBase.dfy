/** The base of the ticks: the constants of the source and the prices it computes are
    powers of 1.0001, stated with whole numbers as powers of 10001 over 10000. */
module TickBase {
  import opened Arithmetic
  import opened Bits
  import opened TickMath

  /** The logarithm of b / a lies between lo and hi. */
  ghost predicate RatioIn(a: nat, b: nat, k: nat, lo: nat, hi: nat) {
    Pow2(lo) * Tower(a, k) <= Tower(b, k) <= Pow2(hi) * Tower(a, k)
  }

  /** A fixed-point number that is a / b up to one unit has the logarithm of b / a, negated. */
  lemma {:induction false} RatioOfFixed(a: nat, b: nat, f: nat, k: nat, e: int, w: int)
    requires Pow2(k) == UNIT && LogNear(f, k, e, w) && 51 * UNIT <= e - w && e + w + 1 <= 128 * UNIT && 0 < f
    requires (f - 1) * b <= a * P128 <= (f + 1) * b
    ensures RatioIn(a, b, k, 128 * UNIT - e - w - 1, 128 * UNIT - e + w + 1)
  {
    hide Tower, Pow2;
    var s := 128 * UNIT;
    TowerAtLeast(f, k, 51, e - w);
    assert 2 * UNIT <= f by { FiftyOne(); }
    TowerUnit(f, k);
    DropUnit(f - 1, k, e - w);
    Pow2Is127or128(128, P128);
    TowerPower(P128, 128, k, s);
    TowerMul(a, P128, k);
    TowerMul(f + 1, b, k);
    TowerMul(f - 1, b, k);
    TowerMono(a * P128, (f + 1) * b, k);
    TowerMono((f - 1) * b, a * P128, k);
    assert Tower(f + 1, k) <= Pow2(e + w + 1) by { Pow2Step(e + w); }
    FixedBelow(Tower(a, k), Tower(b, k), Tower(f + 1, k), s - e - w - 1, e + w + 1);
    FixedAbove(Tower(a, k), Tower(b, k), Tower(f - 1, k), s - e + w + 1, e - w - 1);
  }

  lemma {:induction false} FiftyOne()
    ensures 2 * UNIT <= Pow2(51)
  {
    UnitIsPow2();
    assert Pow2(51) == 2 * Pow2(50);
  }

  lemma {:induction false} FixedBelow(a: nat, b: nat, f: nat, lo: nat, e: nat)
    requires a * Pow2(lo + e) <= f * b && f <= Pow2(e)
    ensures Pow2(lo) * a <= b
  {
    hide Pow2;
    Pow2Add(lo, e);
    MulMono(f, Pow2(e), b);
    assert a * (Pow2(lo) * Pow2(e)) == Pow2(lo) * a * Pow2(e);
    assert Pow2(e) * b == b * Pow2(e);
    MulCancel(Pow2(lo) * a, b, Pow2(e));
  }

  lemma {:induction false} FixedAbove(a: nat, b: nat, f: nat, hi: nat, e: nat)
    requires f * b <= a * Pow2(hi + e) && Pow2(e) <= f
    ensures b <= Pow2(hi) * a
  {
    hide Pow2;
    Pow2Add(hi, e);
    MulMono(Pow2(e), f, b);
    assert a * (Pow2(hi) * Pow2(e)) == Pow2(hi) * a * Pow2(e);
    assert Pow2(e) * b == b * Pow2(e);
    MulCancel(b, Pow2(hi) * a, Pow2(e));
  }

  /** How far, in units, log2 of 1.0001 may be from twice TICK_LOG. */
  const BASE_SLACK: nat := 67

  /** TICK_LOG is half the logarithm of 1.0001. */
  lemma {:induction false} BaseLog(k: nat)
    requires Pow2(k) == UNIT
    ensures RatioIn(10000, 10001, k, 2 * TICK_LOG - BASE_SLACK, 2 * TICK_LOG + BASE_SLACK)
  {
    FactorLogs(1, k);
    assert FactorLog(1) == 128 * UNIT - 2 * TICK_LOG && Slack(1) == 66 by { SecondPower(); }
    hide Tower, Pow2, LogNear;
    RatioOfFixed(10000, 10001, Factor(1), k, 128 * UNIT - 2 * TICK_LOG, 66);
  }

  lemma {:induction false} SecondPower()
    ensures Pow2(1) == 2
  {
    assert Pow2(0) == 1;
  }

  // ----- numbers that agree to within parts in s -----

  /** x is y to within e parts in s. */
  ghost predicate Within(x: int, y: int, s: nat, e: nat) {
    y * (s - e) <= x * s <= y * (s + e)
  }

  lemma {:induction false} WithinScaled(x: int, y: int, s: nat, e: nat, c: nat)
    requires Within(x, y, s, e)
    ensures Within(x * c, y * c, s, e)
  {
    MulMono(y * (s - e), x * s, c);
    MulMono(x * s, y * (s + e), c);
    Turn(y, s - e, c);
    Turn(x, s, c);
    Turn(y, s + e, c);
  }

  lemma {:induction false} Turn(a: int, b: int, c: int)
    ensures a * b * c == a * c * b
  {
  }

  lemma {:induction false} WithinUnscaled(x: int, y: int, s: nat, e: nat, c: nat)
    requires 0 < c && Within(x * c, y * c, s, e)
    ensures Within(x, y, s, e)
  {
    Turn(y, s - e, c);
    Turn(x, s, c);
    Turn(y, s + e, c);
    MulCancel(y * (s - e), x * s, c);
    MulCancel(x * s, y * (s + e), c);
  }

  lemma {:induction false} WithinWider(x: nat, y: nat, s: nat, e: nat, f: nat)
    requires Within(x, y, s, e) && e <= f
    ensures Within(x, y, s, f)
  {
    MulMono(s - f, s - e, y);
    MulMono(s + e, s + f, y);
  }

  /** Errors add up, and one part more covers their product. */
  lemma {:induction false} WithinTrans(x: int, y: int, z: nat, s: nat, e: nat, f: nat)
    requires 0 < s && e <= s && f <= s && e * f <= s && Within(x, y, s, e) && Within(y, z, s, f)
    ensures Within(x, z, s, e + f + 1)
  {
    ErrorProduct(s, e, f);
    Above(x, y, z, s, e, f);
    Below(x, y, z, s, e, f);
  }

  lemma {:induction false} ErrorProduct(s: nat, e: nat, f: nat)
    requires e <= s && f <= s && e * f <= s
    ensures (s + e) * (s + f) <= s * (s + (e + f + 1)) && s * (s - (e + f + 1)) <= (s - e) * (s - f)
  {
    MulMono(0, e, f);
    assert (s + e) * (s + f) == s * s + s * e + s * f + e * f;
    assert (s - e) * (s - f) == s * s - s * e - s * f + e * f;
    assert s * (s + (e + f + 1)) == s * s + s * e + s * f + s;
    assert s * (s - (e + f + 1)) == s * s - s * e - s * f - s;
  }

  lemma {:induction false} Above(x: int, y: int, z: nat, s: nat, e: nat, f: nat)
    requires 0 < s && x * s <= y * (s + e) && y * s <= z * (s + f)
    requires (s + e) * (s + f) <= s * (s + (e + f + 1))
    ensures x * s <= z * (s + (e + f + 1))
  {
    MulMono(x * s, y * (s + e), s);
    MulMono(y * s, z * (s + f), s + e);
    MulMono((s + e) * (s + f), s * (s + (e + f + 1)), z);
    Turn(y, s + e, s);
    Turned(z, s + f, s + e);
    Turned(z, s, s + (e + f + 1));
    Turn(z, s, s + (e + f + 1));
    MulCancel(x * s, z * (s + (e + f + 1)), s);
  }

  lemma {:induction false} Turned(a: int, b: int, c: int)
    ensures a * b * c == c * b * a && c * b * a == b * c * a
  {
  }

  lemma {:induction false} Below(x: int, y: int, z: nat, s: nat, e: nat, f: nat)
    requires 0 < s && e <= s && y * (s - e) <= x * s && z * (s - f) <= y * s
    requires s * (s - (e + f + 1)) <= (s - e) * (s - f)
    ensures z * (s - (e + f + 1)) <= x * s
  {
    MulMono(y * (s - e), x * s, s);
    MulMono(z * (s - f), y * s, s - e);
    MulMono(s * (s - (e + f + 1)), (s - e) * (s - f), z);
    Turn(y, s - e, s);
    Turned(z, s - f, s - e);
    Turned(z, s, s - (e + f + 1));
    Turn(z, s, s - (e + f + 1));
    MulCancel(z * (s - (e + f + 1)), x * s, s);
  }

  lemma {:induction false} WithinMul(x: nat, y: nat, u: nat, v: nat, s: nat, e: nat, f: nat)
    requires 0 < s && e <= s && f <= s && e * f <= s && Within(x, y, s, e) && Within(u, v, s, f)
    ensures Within(x * u, y * v, s, e + f + 1)
  {
    MulMono(0, y, v);
    WithinScaled(x, y, s, e, u);
    WithinScaled(u, v, s, f, y);
    assert u * y == y * u && v * y == y * v;
    hide Within;
    WithinTrans(x * u, y * u, y * v, s, e, f);
  }

  lemma {:induction false} WithinSwapped(x: nat, y: nat, s: nat, e: nat)
    requires 0 < s && e * (e + 1) <= s && e + 1 <= s && Within(x, y, s, e)
    ensures Within(y, x, s, e + 1)
  {
    assert (s - e) * (s + (e + 1)) == s * s + s - e * (e + 1);
    assert (s + e) * (s - (e + 1)) == s * s - s - e * (e + 1);
    MulMono(0, e, e + 1);
    MulMono(y * (s - e), x * s, s + (e + 1));
    MulMono(x * s, y * (s + e), s - (e + 1));
    MulMono(s * s, (s - e) * (s + (e + 1)), y);
    MulMono((s + e) * (s - (e + 1)), s * s, y);
    Swaps(x, y, s, s - e, s + (e + 1));
    Swaps(x, y, s, s + e, s - (e + 1));
    MulCancel(y * s, x * (s + (e + 1)), s);
    MulCancel(x * (s - (e + 1)), y * s, s);
  }

  lemma {:induction false} Swaps(x: int, y: int, s: int, p: int, q: int)
    ensures y * p * q == p * q * y && x * s * q == x * q * s && s * s * y == y * s * s
  {
    assert y * p * q == y * (p * q);
  }

  /** Cutting a product off after division by m costs the square twice as many parts as one
      unit is of the quotient. */
  lemma {:induction false} CutSquare(z: nat, t: nat, m: nat, s: nat, e: nat)
    requires e <= s && 2 * s <= e * (z + 1) && z * m <= t <= (z + 1) * m
    ensures Within(z * z * (m * m), t * t, s, e)
  {
    SmallStep(z, s, e);
    MulMono(s, s + e, z * z);
    SquareUnder(z, z, t, m, s, s + e);
    SquareOver(z, z + 1, t, m, s, s - e);
  }

  lemma {:induction false} SquareUnder(z: nat, y: nat, t: nat, m: nat, s: nat, f: nat)
    requires y * m <= t && z * z * s <= y * y * f
    ensures z * z * (m * m) * s <= t * t * f
  {
    MulBoth(y * m, t, y * m, t);
    Exchange(y, m, y, m);
    var mm := m * m;
    assert 0 <= mm;
    MulMono(y * y * mm, t * t, f);
    MulMono(z * z * s, y * y * f, mm);
    Turn(y * y, mm, f);
    Turn(z * z, mm, s);
  }

  lemma {:induction false} SquareOver(z: nat, y: nat, t: nat, m: nat, s: nat, f: nat)
    requires t <= y * m && y * y * f <= z * z * s
    ensures t * t * f <= z * z * (m * m) * s
  {
    MulBoth(t, y * m, t, y * m);
    Exchange(y, m, y, m);
    var mm := m * m;
    assert 0 <= mm;
    MulMono(t * t, y * y * mm, f);
    MulMono(y * y * f, z * z * s, mm);
    Turn(y * y, mm, f);
    Turn(z * z, mm, s);
  }

  lemma {:induction false} SmallStep(z: nat, s: nat, e: nat)
    requires 2 * s <= e * (z + 1)
    ensures (z + 1) * (z + 1) * (s - e) <= z * z * s
  {
    MulMono(2 * s, e * (z + 1), z + 1);
    assert e * (z + 1) * (z + 1) == (z + 1) * (z + 1) * e;
    assert (z + 1) * (z + 1) * (s - e) == (z + 1) * (z + 1) * s - (z + 1) * (z + 1) * e;
    assert (z + 1) * (z + 1) * s == z * z * s + 2 * s * z + s;
    assert 2 * s * (z + 1) == 2 * s * z + 2 * s;
  }

  /** A square known to within two units after division by m. */
  lemma {:induction false} NextSquare(y: nat, t: nat, m: nat, s: nat, e: nat)
    requires e <= s && 3 <= y && 8 * s <= e * (y - 2) && (y - 2) * m <= t <= (y + 2) * m
    ensures Within(y * y * (m * m), t * t, s, e)
  {
    TwoUnits(y, s, e);
    SquareUnder(y, y - 2, t, m, s, s + e);
    SquareOver(y, y + 2, t, m, s, s - e);
  }

  lemma {:induction false} TwoUnits(y: nat, s: nat, e: nat)
    requires 3 <= y && 8 * s <= e * (y - 2)
    ensures (y + 2) * (y + 2) * (s - e) <= y * y * s <= (y - 2) * (y - 2) * (s + e)
  {
    MulMono(8 * s, e * (y - 2), y - 2);
    var low, high := (y - 2) * (y - 2), (y + 2) * (y + 2);
    assert e * (y - 2) * (y - 2) == low * e;
    assert low * (s + e) == low * s + low * e && high * (s - e) == high * s - high * e;
    assert low * s == y * y * s - 4 * s * y + 4 * s && high * s == y * y * s + 4 * s * y + 4 * s;
    assert 8 * s * (y - 2) == 8 * s * y - 16 * s;
    MulMono(s * 3, s * y, 1);
    MulMono(3, y, s);
    assert low <= high;
    MulMono(low, high, e);
    assert high * e >= low * e + 8 * e * y by { assert high == low + 8 * y; assert 8 * y * e == 8 * e * y; }
    assert 8 * s <= e * y - 2 * e;
    assert e * y == y * e;
  }

  // ----- the constants and the products are powers of 1.0001 -----

  /** 2^100: errors are counted in these parts. */
  const GRAIN: nat := 0x10_0000_0000_0000_0000_0000_0000

  /** x squared is 2^256 times (a / b)^n, to within e parts in 2^100. */
  ghost predicate SquareIsPower(x: nat, a: nat, b: nat, n: nat, e: nat) {
    Within(x * x * Power(b, n), P256 * Power(a, n), GRAIN, e)
  }

  /** How far, in parts in 2^100, the square of a factor is from its power. */
  function FactorError(i: nat): nat {
    if i < 19 then 4 * Pow2(i) - 3 else 0x40_0000
  }

  /** Each constant squared is 1.0001 to the power of minus its bit, with 256 binary places. */
  lemma {:induction false} FactorIsPower(i: nat)
    requires i < 20
    ensures SquareIsPower(Factor(i), 10000, 10001, Pow2(i), FactorError(i))
  {
    if i == 0 {
      FirstFactor();
    } else {
      FactorIsPower(i - 1);
      hide Power, Within, Factor;
      NextFactor(i - 1);
    }
  }

  lemma {:induction false} FirstFactor()
    ensures SquareIsPower(Factor(0), 10000, 10001, Pow2(0), FactorError(0))
  {
    assert Pow2(0) == 1;
    assert Power(10000, 1) == 10000 && Power(10001, 1) == 10001;
  }

  lemma {:induction false} NextFactor(i: nat)
    requires i < 19 && SquareIsPower(Factor(i), 10000, 10001, Pow2(i), FactorError(i))
    ensures SquareIsPower(Factor(i + 1), 10000, 10001, Pow2(i + 1), FactorError(i + 1))
  {
    hide Power, Within, Factor, FactorError, SquareIsPower;
    FactorSquares(i);
    FactorSize(i + 1);
    ErrorSize(i);
    NextPower(Factor(i), Factor(i + 1), Pow2(i), FactorError(i), if i + 1 < 19 then 1 else 0x2000, FactorError(i + 1));
  }

  lemma {:induction false} NextPower(x: nat, y: nat, n: nat, g: nat, e: nat, h: nat)
    requires g <= 0x20_0000 && e <= 0x2000 && 2 * g + 2 + e <= h && 3 <= y && 8 * GRAIN <= e * (y - 2)
    requires (y - 2) * P128 <= x * x <= (y + 2) * P128
    requires SquareIsPower(x, 10000, 10001, n, g)
    ensures SquareIsPower(y, 10000, 10001, 2 * n, h)
  {
    hide Power, Within;
    PowerAdd(10000, n, n);
    PowerAdd(10001, n, n);
    SquaredFactor(x, y, Power(10000, n), Power(10001, n), g, e, h);
  }

  lemma {:induction false} FactorSize(i: nat)
    requires 0 < i < 20
    ensures 3 <= Factor(i) && 8 * GRAIN <= (if i < 19 then 1 else 0x2000) * (Factor(i) - 2)
  {
  }

  lemma {:induction false} ErrorSize(i: nat)
    requires i < 19
    ensures FactorError(i) <= 0x20_0000 && FactorError(i + 1) <= 0x40_0000
    ensures 2 * FactorError(i) + 2 + (if i + 1 < 19 then 1 else 0x2000) <= FactorError(i + 1)
  {
    Pow2Mono(i, 18);
    Pow2Seven();
    assert Pow2(i + 1) == 2 * Pow2(i);
  }

  lemma {:induction false} SquaredFactor(x: nat, y: nat, a: nat, b: nat, g: nat, e: nat, h: nat)
    requires g <= 0x20_0000 && e <= 0x2000 && 2 * g + 2 + e <= h && 3 <= y && 8 * GRAIN <= e * (y - 2)
    requires (y - 2) * P128 <= x * x <= (y + 2) * P128
    requires Within(x * x * b, P256 * a, GRAIN, g)
    ensures Within(y * y * (b * b), P256 * (a * a), GRAIN, h)
  {
    hide Within;
    NextSquare(y, x * x, P128, GRAIN, e);
    WithinScaled(y * y * (P128 * P128), x * x * (x * x), GRAIN, e, b * b);
    SmallProduct(g, g);
    WithinMul(x * x * b, P256 * a, x * x * b, P256 * a, GRAIN, g, g);
    Exchange(x * x, b, x * x, b);
    Exchange(P256, a, P256, a);
    SmallProduct(e, 2 * g + 1);
    WithinTrans(y * y * (P128 * P128) * (b * b), x * x * (x * x) * (b * b), P256 * P256 * (a * a), GRAIN, e, 2 * g + 1);
    assert P128 * P128 == P256;
    Turn(y * y, P256, b * b);
    Turn(P256, P256, a * a);
    WithinUnscaled(y * y * (b * b), P256 * (a * a), GRAIN, 2 * g + 2 + e, P256);
    WithinWider(y * y * (b * b), P256 * (a * a), GRAIN, 2 * g + 2 + e, h);
  }

  lemma {:induction false} SmallProduct(e: nat, f: nat)
    requires e <= 0x1000_0000_0000 && f <= 0x1000_0000_0000
    ensures e * f <= GRAIN && e <= GRAIN && f <= GRAIN
  {
    MulBoth(e, 0x1000_0000_0000, f, 0x1000_0000_0000);
  }

  /** How far the square of a product of j of the constants can be. */
  function DecayError(j: nat): nat { 0x80_0000_0000 * j }

  /** The truncated product over the bits of n squares to 1.0001^-n, to within one part in 2^56. */
  lemma {:induction false} DecayIsPower(n: nat, j: nat)
    requires n <= 887272 && j <= 20
    ensures SquareIsPower(Decay(n, j), 10000, 10001, Low(n, j), DecayError(j))
  {
    if j == 0 {
      NoFactor(n);
    } else {
      DecayIsPower(n, j - 1);
      hide Factor, Pow2, FactorError, Scale, Low, SquareIsPower, Bit;
      LowStep(n, j - 1);
      DecayLarge(n, j);
      FactorIsPower(j - 1);
      FactorErrors(j - 1);
      ScaleBounds(Decay(n, j - 1), Factor(j - 1));
      if Bit(n, j - 1) {
        OneMoreFactor(Decay(n, j - 1), Factor(j - 1), Decay(n, j), Low(n, j - 1), Pow2(j - 1), DecayError(j - 1),
                      FactorError(j - 1), DecayError(j));
      } else {
        Wider(Decay(n, j), Low(n, j), DecayError(j - 1), DecayError(j));
      }
    }
  }

  lemma {:induction false} Wider(x: nat, n: nat, e: nat, f: nat)
    requires e <= f && SquareIsPower(x, 10000, 10001, n, e)
    ensures SquareIsPower(x, 10000, 10001, n, f)
  {
    hide Power, Within;
    WithinWider(x * x * Power(10001, n), P256 * Power(10000, n), GRAIN, e, f);
  }

  lemma {:induction false} NoFactor(n: nat)
    ensures SquareIsPower(Decay(n, 0), 10000, 10001, Low(n, 0), 0)
  {
    assert Pow2(0) == 1 && Low(n, 0) == 0;
    assert P128 * P128 == P256;
  }

  lemma {:induction false} FactorErrors(i: nat)
    requires i < 20
    ensures FactorError(i) <= 0x40_0000
  {
    if i < 19 { ErrorSize(i); }
  }

  lemma {:induction false} DecayLarge(n: nat, j: nat)
    requires n <= 887272 && j <= 20
    ensures 0x8000_0000_0000_0000 <= Decay(n, j)
  {
    UnitIsPow2();
    var k: nat :| Pow2(k) == UNIT;
    hide Decay, Tower, LogNear, Low;
    DecayNear(n, j, k);
    LowAtMost(n, j);
    LargeLog(Decay(n, j), Low(n, j), j, k);
  }

  lemma {:induction false} LargeLog(x: nat, m: nat, j: nat, k: nat)
    requires Pow2(k) == UNIT && LogNear(x, k, DecayLog(m), 32 * m + 3 * j) && m <= 887272 && j <= 20
    ensures 0x8000_0000_0000_0000 <= x
  {
    TowerAtLeast(x, k, 63, DecayLog(m) - (32 * m + 3 * j));
    assert Pow2(63) == 0x8000_0000_0000_0000 by { Pow2Words(); assert Pow2(64) == 2 * Pow2(63); }
  }

  lemma {:induction false} LowAtMost(n: nat, j: nat)
    ensures Low(n, j) <= n
  {
    DivMod(n, Pow2(j));
  }

  lemma {:induction false} OneMoreFactor(x: nat, f: nat, z: nat, n: nat, m: nat, e: nat, g: nat, h: nat)
    requires e <= 0xA00_0000_0000 && g <= 0x40_0000 && e + 0x80_0000_0000 <= h && 0x8000_0000_0000_0000 <= z
    requires z * P128 <= x * f <= (z + 1) * P128
    requires SquareIsPower(x, 10000, 10001, n, e) && SquareIsPower(f, 10000, 10001, m, g)
    ensures SquareIsPower(z, 10000, 10001, n + m, h)
  {
    hide Power, Within;
    PowerAdd(10000, n, m);
    PowerAdd(10001, n, m);
    ProductCut(x, f, z, Power(10000, n), Power(10001, n), Power(10000, m), Power(10001, m), e, g, h);
  }

  lemma {:induction false} ProductCut(x: nat, f: nat, z: nat, a: nat, b: nat, c: nat, d: nat, e: nat, g: nat, h: nat)
    requires e <= 0xA00_0000_0000 && g <= 0x40_0000 && e + 0x80_0000_0000 <= h && 0x8000_0000_0000_0000 <= z
    requires z * P128 <= x * f <= (z + 1) * P128
    requires Within(x * x * b, P256 * a, GRAIN, e) && Within(f * f * d, P256 * c, GRAIN, g)
    ensures Within(z * z * (b * d), P256 * (a * c), GRAIN, h)
  {
    hide Within;
    var cut := 0x40_0000_0000;
    CutSquare(z, x * f, P128, GRAIN, cut);
    WithinScaled(z * z * (P128 * P128), x * f * (x * f), GRAIN, cut, b * d);
    SmallProduct(e, g);
    WithinMul(x * x * b, P256 * a, f * f * d, P256 * c, GRAIN, e, g);
    FourFactors(x, f, b, d);
    Exchange(P256, a, P256, c);
    SmallProduct(cut, e + g + 1);
    WithinTrans(z * z * (P128 * P128) * (b * d), x * f * (x * f) * (b * d), P256 * P256 * (a * c), GRAIN, cut,
                e + g + 1);
    assert P128 * P128 == P256;
    Turn(z * z, P256, b * d);
    Turn(P256, P256, a * c);
    WithinUnscaled(z * z * (b * d), P256 * (a * c), GRAIN, e + g + 2 + cut, P256);
    WithinWider(z * z * (b * d), P256 * (a * c), GRAIN, e + g + 2 + cut, h);
  }

  lemma {:induction false} FourFactors(x: int, f: int, b: int, d: int)
    ensures x * x * b * (f * f * d) == x * f * (x * f) * (b * d)
  {
    Exchange(x * x, b, f * f, d);
    Exchange(x, f, x, f);
  }

  // ----- the price at a tick -----

  lemma {:induction false} InverseIsPower(r: nat, n: nat, e: nat)
    requires e <= 0xA00_0000_0000 && 0 < r <= P128 && SquareIsPower(r, 10000, 10001, n, e)
    ensures SquareIsPower(Inverse(r), 10001, 10000, n, e + 3)
  {
    hide Power, Within;
    InverseIsMost(r);
    LargeInverse(r, Inverse(r), P128, P256, GRAIN);
    SmallProduct(e, e + 1);
    CutInverse(r, Inverse(r), P256, GRAIN, Power(10000, n), Power(10001, n), e);
  }

  /** The inverse is the most that times r stays below 2^256. */
  lemma {:induction false} InverseIsMost(r: nat)
    requires 0 < r
    ensures forall q: nat :: q <= Inverse(r) <==> q * r < P256
  {
    forall q: nat ensures q <= Inverse(r) <==> q * r < P256 {
      FloorGalois(P256 - 1, r, q);
    }
  }

  lemma {:induction false} LargeInverse(r: nat, z: nat, m: nat, p: nat, s: nat)
    requires 0 < r <= m && p == m * m && 2 * s <= m && p <= (z + 1) * r
    ensures 2 * s <= z + 1
  {
    MulMono(r, m, z + 1);
    MulCancel(m, z + 1, m);
  }

  lemma {:induction false} CutInverse(r: nat, z: nat, m: nat, s: nat, a: nat, b: nat, e: nat)
    requires 0 < s && 0 < r && 2 * s <= z + 1 && z * r <= m <= (z + 1) * r
    requires e * (e + 1) <= s && e + 2 <= s && Within(r * r * b, m * a, s, e)
    ensures Within(z * z * a, m * b, s, e + 3)
  {
    hide Within;
    CutSquare(z, m, r, s, 1);
    WithinScaled(z * z * (r * r), m * m, s, 1, a);
    WithinSwapped(r * r * b, m * a, s, e);
    WithinScaled(m * a, r * r * b, s, e + 1, m);
    assert m * m * a == m * a * m;
    WithinTrans(z * z * (r * r) * a, m * m * a, r * r * b * m, s, 1, e + 1);
    Turn(z * z, r * r, a);
    assert r * r * b * m == m * b * (r * r) by { Turn(r * r, b, m); Turned(r * r, m, b); }
    MulPositive(r, r);
    WithinUnscaled(z * z * a, m * b, s, e + 3, r * r);
  }

  /** The Q128 number a price is rounded up from: 2^128 times the square root of 1.0001^tick. */
  ghost predicate IsPowerOfTick(x: nat, tick: int) {
    if tick <= 0 then SquareIsPower(x, 10000, 10001, -tick, PRICE_ERROR)
    else SquareIsPower(x, 10001, 10000, tick, PRICE_ERROR)
  }

  /** In parts in 2^100; in all one part in 2^56. */
  const PRICE_ERROR: nat := 0x1000_0000_0000

  /** The price at a tick is the least one that is not below a number whose square is
      2^256 times 1.0001^tick to within one part in 2^56; at tick zero it is one. */
  lemma {:induction false} SqrtRatioIsPower(tick: int)
    requires MIN_TICK <= tick <= MAX_TICK
    ensures exists x: nat :: IsPowerOfTick(x, tick) && forall p: nat :: SqrtRatioAtTick(tick) <= p <==> x <= p * P32
    ensures tick == 0 ==> SqrtRatioAtTick(tick) == P96
  {
    var n, b := Magnitude(tick), Width(Magnitude(tick));
    TickWidth(tick);
    if tick == 0 { TickZero(); }
    hide Power, Within, Decay, Inverse, Low, Width, RoundUp32, SquareIsPower;
    DecayIsPower(n, b);
    DecayLarge(n, b);
    DecayBelow(n, b);
    InverseIsPower(Decay(n, b), n, DecayError(b));
    var x := if tick > 0 then Inverse(Decay(n, b)) else Decay(n, b);
    if tick > 0 {
      WidenPower(x, 10001, 10000, n, DecayError(b) + 3);
    } else {
      WidenPower(x, 10000, 10001, n, DecayError(b));
    }
    assert IsPowerOfTick(x, tick);
    forall p: nat ensures SqrtRatioAtTick(tick) <= p <==> x <= p * P32 {
      RoundUpIsLeast(x, p);
    }
  }

  lemma {:induction false} TickZero()
    ensures SqrtRatioAtTick(0) == P96
  {
    assert Width(0) == 0;
    assert P128 == P96 * P32 && P128 % P32 == 0;
  }

  lemma {:induction false} WidenPower(x: nat, a: nat, b: nat, n: nat, e: nat)
    requires e <= PRICE_ERROR && SquareIsPower(x, a, b, n, e)
    ensures SquareIsPower(x, a, b, n, PRICE_ERROR)
  {
    hide Power, Within;
    WithinWider(x * x * Power(b, n), P256 * Power(a, n), GRAIN, e, PRICE_ERROR);
  }

  /** Rounding up to Q64.96 finds the least p that is not below. */
  lemma {:induction false} RoundUpIsLeast(x: nat, p: nat)
    ensures RoundUp32(x) <= p <==> x <= p * P32
  {
    CeilGalois(x, P32, p);
  }

  lemma {:induction false} DecayBelow(n: nat, j: nat)
    requires j <= 20
    ensures Decay(n, j) <= P128
  {
    if j != 0 {
      DecayBelow(n, j - 1);
      FactorBelow(j - 1);
      hide Factor;
      ScaleBelow(Decay(n, j - 1), Factor(j - 1), P128);
    }
  }

  lemma {:induction false} FactorBelow(i: nat)
    requires i < 20
    ensures Factor(i) <= P128
  {
  }

  lemma {:induction false} ScaleBelow(x: nat, f: nat, m: nat)
    requires f <= m && 0 < m
    ensures x * f / m <= x
  {
    MulMono(f, m, x);
    FloorGalois(x * f, m, x * f / m);
    MulCancel(x * f / m, x, m);
  }
}
