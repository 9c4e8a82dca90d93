/** The tick/price relation of a pool: price square roots in Q64.96 at every tick.
    The source only ever multiplies rounded constants; this module proves how far
    each square root can be from a power of two with exponent linear in the tick,
    and from that that the square roots increase strictly with the tick. */
module TickMath {
  import opened Arithmetic
  import opened Bits

  const MIN_TICK: int := -887272
  const MAX_TICK: int := 887272
  const MIN_SQRT_RATIO: nat := 4295128739
  const MAX_SQRT_RATIO: nat := 1461446703485210103287273052203988822378723970342

  /** 2^128 / sqrt(1.0001)^(2^i), as the source rounds it. */
  function Factor(i: nat): nat
    requires i < 20
  {
    if i == 0 then 0xFFFCB933_BD6FAD37_AA2D162D_1A594001
    else if i == 1 then 0xFFF97272_373D4132_59A46990_580E213A
    else if i == 2 then 0xFFF2E50F_5F656932_EF12357C_F3C7FDCC
    else if i == 3 then 0xFFE5CACA_7E10E4E6_1C3624EA_A0941CD0
    else if i == 4 then 0xFFCB9843_D60F6159_C9DB5883_5C926644
    else if i == 5 then 0xFF973B41_FA98C081_472E6896_DFB254C0
    else if i == 6 then 0xFF2EA164_66C96A38_43EC78B3_26B52861
    else if i == 7 then 0xFE5DEE04_6A99A2A8_11C461F1_969C3053
    else if i == 8 then 0xFCBE86C7_900A88AE_DCFFC83B_479AA3A4
    else if i == 9 then 0xF987A725_3AC41317_6F2B074C_F7815E54
    else if i == 10 then 0xF3392B08_22B70005_940C7A39_8E4B70F3
    else if i == 11 then 0xE7159475_A2C29B74_43B29C7F_A6E889D9
    else if i == 12 then 0xD097F3BD_FD2022B8_845AD8F7_92AA5825
    else if i == 13 then 0xA9F74646_2D870FDF_8A65DC1F_90E061E5
    else if i == 14 then 0x70D869A1_56D2A1B8_90BB3DF6_2BAF32F7
    else if i == 15 then 0x31BE135F_97D08FD9_81231505_542FCFA6
    else if i == 16 then 0x9AA508B_5B7A84E1_C677DE54_F3E99BC9
    else if i == 17 then 0x5D6AF8_DEDB8119_6699C329_225EE604
    else if i == 18 then 0x2216_E584F5FA_1EA92604_1BEDFE98
    else 0x48A1703_91F7DC42_444E8FA2
  }

  /** The product of the factors selected by the low k bits of n, truncated to
      Q128 after each factor, lowest bit first. */
  function Decay(n: nat, k: nat): nat
    requires k <= 20
  {
    if k == 0 then P128
    else if Bit(n, k - 1) then Scale(Decay(n, k - 1), Factor(k - 1))
    else Decay(n, k - 1)
  }

  function Scale(ratio: nat, factor: nat): nat {
    ratio * factor / P128
  }

  /** Q128.128 to Q64.96, rounding up. */
  function RoundUp32(ratio: nat): nat {
    ratio / P32 + (if ratio % P32 == 0 then 0 else 1)
  }

  /** The inverse in Q128.128. The product is never zero. */
  function Inverse(ratio: nat): nat {
    if ratio == 0 then 0 else
      DivMod(P256 - 1, ratio);
      (P256 - 1) / ratio
  }

  function Magnitude(tick: int): nat {
    if tick < 0 then -tick else tick
  }

  /** How many low bits of n hold all its set bits. */
  function Width(n: nat): nat {
    if n == 0 then 0 else 1 + Width(n / 2)
  }

  lemma {:induction false} WidthBounds(n: nat, k: nat)
    ensures n < Pow2(Width(n))
    ensures n < Pow2(k) ==> Width(n) <= k
    decreases n
  {
    if n != 0 { WidthBounds(n / 2, if k == 0 then 0 else k - 1); }
  }

  /** The source tests all twenty bits; those above the highest set one multiply nothing in. */
  lemma {:induction false} DecayAllBits(n: nat, k: nat)
    requires Width(n) <= k <= 20
    ensures Decay(n, k) == Decay(n, Width(n))
    decreases k
  {
    if Width(n) < k {
      DecayAllBits(n, k - 1);
      WidthBounds(n, 0);
      Pow2Mono(Width(n), k - 1);
      ModUnique(n, Pow2(k - 1), 0, n);
    }
  }

  function SqrtRatioAtTick(tick: int): nat
    requires MIN_TICK <= tick <= MAX_TICK
  {
    TickWidth(tick);
    var ratio := Decay(Magnitude(tick), Width(Magnitude(tick)));
    RoundUp32(if tick > 0 then Inverse(ratio) else ratio)
  }

  lemma {:induction false} TickWidth(tick: int)
    requires MIN_TICK <= tick <= MAX_TICK
    ensures Width(Magnitude(tick)) <= 20 && Low(Magnitude(tick), Width(Magnitude(tick))) == Magnitude(tick)
  {
    var n := Magnitude(tick);
    assert Pow2(20) == 0x10_0000 by { Pow2Small(); Pow2Double(8, 16); Pow2Add(16, 4); }
    WidthBounds(n, 20);
    ModUnique(n, Pow2(Width(n)), 0, n);
  }

  // ----- logarithms in units of 2^-48 -----

  const UNIT: nat := 0x1_0000_0000_0000
  /** log2 of sqrt(1.0001), in units, rounded; module TickBase shows how close it is. */
  const TICK_LOG: nat := 20303112513

  /** |log2 x - e| <= w in units of 2^-k; every use has Pow2(k) == UNIT. */
  ghost predicate LogNear(x: nat, k: nat, e: int, w: int) {
    0 <= w <= e && Pow2(e - w) <= Tower(x, k) <= Pow2(e + w)
  }

  lemma {:induction false} LogWiden(x: nat, k: nat, e: int, w: int, v: int)
    requires LogNear(x, k, e, w) && w <= v <= e
    ensures LogNear(x, k, e, v)
  {
    Pow2Mono(e - v, e - w);
    Pow2Mono(e + w, e + v);
  }

  /** Logarithms of x and y give the order of x and y. */
  lemma {:induction false} LogOrder(x: nat, y: nat, k: nat, e: int, w: int, g: int, v: int)
    requires LogNear(x, k, e, w) && LogNear(y, k, g, v) && e + w < g - v
    ensures x < y
  {
    Pow2Strict(e + w, g - v);
    if y <= x { TowerMono(y, x, k); }
  }

  lemma {:induction false} Pow2Cancel(x: nat, a: nat, b: nat)
    requires x * Pow2(a) <= Pow2(a + b)
    ensures x <= Pow2(b)
  {
    Pow2Add(b, a);
    MulCancel(x, Pow2(b), Pow2(a));
  }

  lemma {:induction false} Pow2CancelLower(x: nat, a: nat, b: nat)
    requires Pow2(a + b) <= x * Pow2(a)
    ensures Pow2(b) <= x
  {
    Pow2Add(b, a);
    MulCancel(Pow2(b), x, Pow2(a));
  }

  /** Removing a factor of 2^c from a number whose logarithm is bracketed. */
  lemma {:induction false} UnscaleBounds(x: nat, c: nat, k: nat, lo: nat, hi: nat)
    requires Pow2(lo + c * Pow2(k)) <= Tower(x * Pow2(c), k) <= Pow2(hi + c * Pow2(k))
    ensures Pow2(lo) <= Tower(x, k) <= Pow2(hi)
  {
    TowerMul(x, Pow2(c), k);
    TowerPow2(c, k);
    Pow2CancelLower(Tower(x, k), c * Pow2(k), lo);
    Pow2Cancel(Tower(x, k), c * Pow2(k), hi);
  }

  // ----- one squaring round -----

  ghost function LowExponent(z: nat, j: nat, d: nat): nat { 127 * Pow2(z + j) + d * Pow2(z) }
  ghost function HighExponent(z: nat, j: nat, d: nat): nat { 127 * Pow2(z + j) + (d + 1) * Pow2(z) + j }

  /** log2(r / 2^127) lies between d and d + 1 parts in 2^j, but for j units of 2^-(z+j). */
  ghost predicate Bracket(r: nat, z: nat, j: nat, d: nat) {
    Pow2(LowExponent(z, j, d)) <= Tower(r, z + j) <= Pow2(HighExponent(z, j, d))
  }

  lemma {:induction false} BracketBase(r: nat, z: nat)
    requires P127 <= r < P128
    ensures Bracket(r, z, 0, 0)
  {
    Pow2HalfWord();
    TowerPow2(127, z);
    TowerPow2(128, z);
    TowerMono(Pow2(127), r, z);
    TowerMono(r, Pow2(128), z);
  }

  /** If s is r * r scaled back to 128 bits, one digit goes in front of the digits of s. */
  lemma {:induction false} Round(r: nat, s: nat, f: bool, z: nat, j: nat, d: nat)
    requires z + j < 126 && P127 <= s && Bracket(s, z, j, d)
    requires f ==> s * P128 <= r * r < (s + 1) * P128
    requires !f ==> s * P127 <= r * r < (s + 1) * P127
    ensures Bracket(r, z, j + 1, (if f then Pow2(j) else 0) + d)
  {
    Pow2Below127(z + j + 1);
    if f {
      RoundExponents(128, Pow2(j), z, j, d);
      RoundBracket(r, s, 128, P128, z, j, d, Pow2(j));
    } else {
      RoundExponents(127, 0, z, j, d);
      RoundBracket(r, s, 127, P127, z, j, d, 0);
    }
  }

  lemma {:induction false} RoundBracket(r: nat, s: nat, c: nat, m: nat, z: nat, j: nat, d: nat, x: nat)
    requires (c == 127 && m == P127) || (c == 128 && m == P128)
    requires s * m <= r * r < (s + 1) * m && 2 * Pow2(z + j) <= s && Bracket(s, z, j, d)
    requires ExponentsStep(c, x, z, j, d)
    ensures Bracket(r, z, j + 1, x + d)
  {
    Pow2Is127or128(c, m);
    RoundLower(r, s, c, z + j, LowExponent(z, j, d));
    RoundUpper(r, s, c, z + j, HighExponent(z, j, d));
  }

  lemma {:induction false} Pow2Is127or128(c: nat, m: nat)
    requires (c == 127 && m == P127) || (c == 128 && m == P128)
    ensures Pow2(c) == m
  {
    Pow2HalfWord();
  }

  lemma {:induction false} Pow2Below127(k: nat)
    requires k < 127
    ensures Pow2(k) <= P127
  {
    Pow2HalfWord();
    Pow2Mono(k, 127);
  }

  ghost predicate ExponentsStep(c: nat, x: nat, z: nat, j: nat, d: nat) {
    && z + (j + 1) == z + j + 1
    && LowExponent(z, j + 1, x + d) == LowExponent(z, j, d) + c * Pow2(z + j)
    && HighExponent(z, j + 1, x + d) == HighExponent(z, j, d) + 1 + c * Pow2(z + j)
  }

  lemma {:induction false} RoundExponents(c: nat, x: nat, z: nat, j: nat, d: nat)
    requires (c == 127 && x == 0) || (c == 128 && x == Pow2(j))
    ensures ExponentsStep(c, x, z, j, d)
  {
    assert z + (j + 1) == z + j + 1;
    if c == 128 {
      Pow2Add(z, j);
      var p := Pow2(z);
      assert (Pow2(j) + d) * p == Pow2(j) * p + d * p;
      assert (Pow2(j) + d + 1) * p == Pow2(j) * p + (d + 1) * p;
    }
  }

  lemma {:induction false} RoundLower(r: nat, s: nat, c: nat, k: nat, lo: nat)
    requires s * Pow2(c) <= r * r && Pow2(lo) <= Tower(s, k)
    ensures Pow2(lo + c * Pow2(k)) <= Tower(r, k + 1)
  {
    TowerPow2(c, k);
    TowerMono(s * Pow2(c), r * r, k);
    TowerMul(s, Pow2(c), k);
    Pow2Add(lo, c * Pow2(k));
    MulMono(Pow2(lo), Tower(s, k), Pow2(c * Pow2(k)));
  }

  lemma {:induction false} RoundUpper(r: nat, s: nat, c: nat, k: nat, hi: nat)
    requires r * r <= (s + 1) * Pow2(c) && Tower(s, k) <= Pow2(hi) && 2 * Pow2(k) <= s
    ensures Tower(r, k + 1) <= Pow2(hi + 1 + c * Pow2(k))
  {
    TowerPow2(c, k);
    TowerMono(r * r, (s + 1) * Pow2(c), k);
    TowerMul(s + 1, Pow2(c), k);
    TowerUnit(s, k);
    Pow2Add(hi + 1, c * Pow2(k));
    MulMono(Tower(s + 1, k), Pow2(hi + 1), Pow2(c * Pow2(k)));
  }

  // ----- the logarithm of the last factor, by 29 rounds -----

  /** The last factor scaled to 128 bits is Mantissa(29); each mantissa squares to the one before it. */
  function Mantissa(j: nat): nat
    requires j <= 29
  {
    if j == 0 then 0xFA40BF42_6E9B19F3_4F871BE5_EB0BE81C
    else if j == 1 then 0xB2F9D4B9_52006923_1D18DCF8_3D0ABE95
    else if j == 2 then 0xD60D0E63_CD3158FC_9C27C341_82B8EE39
    else if j == 3 then 0xEA167432_1E8B4A26_1ED326D2_8B5CFB85
    else if j == 4 then 0xF4CC7E58_6673DD6F_814CE03E_721852DA
    else if j == 5 then 0xFA5635EB_95EB6389_82F050CA_E72E86A3
    else if j == 6 then 0xFD270D22_B26D863E_89010C59_166E25A0
    else if j == 7 then 0xB40281CE_FA6C840E_1EFDFA8B_09686783
    else if j == 8 then 0xD6AB19FD_286C50D0_329918D7_ADF3B814
    else if j == 9 then 0xA5C37745_8DB77C4C_60368EEF_4338091F
    else if j == 10 then 0xCDFFAB0A_D6B182BD_6061751C_735271AC
    else if j == 11 then 0xE5A4797F_F7A7AD2D_75A5F840_A1EA6455
    else if j == 12 then 0xAB728DD7_17B534AB_B323C1BB_F7365A21
    else if j == 13 then 0xD1802F8F_0124E4BA_E2051104_E4E127BD
    else if j == 14 then 0xA3C1964B_073B5076_DDDCDEC6_B19739B1
    else if j == 15 then 0x90C74721_A4EDD5D6_54E99D3D_7BFF5E9C
    else if j == 16 then 0x882186C0_C1BAEDE8_7161DEE1_985BA622
    else if j == 17 then 0xBAAE26BB_3D7B576C_CD76BB7C_1A4BB376
    else if j == 18 then 0xDA9C0DDB_CCD4578D_2D66425E_8C78E778
    else if j == 19 then 0xEC9135F6_0914BFE7_FE5620C9_CE84A84F
    else if j == 20 then 0xAE036343_57271ED5_8A6C11B8_9181DA0F
    else if j == 21 then 0xD310015F_58199D61_C455221B_0D40BF6E
    else if j == 22 then 0xA45D8E6F_82F35454_F434DB6A_4EDEFD2B
    else if j == 23 then 0xCD20CE31_85ED5617_0E57E0CF_BE6769BC
    else if j == 24 then 0xE5281F3F_93B34479_F8487BFC_D55586C8
    else if j == 25 then 0xF234EF3C_0A711E1E_7AD2CA42_646ACA4D
    else if j == 26 then 0xB0133EAB_633A729A_54B0842E_237A8855
    else if j == 27 then 0xD44F2F33_74636DFB_6364B35E_A9D8F08E
    else if j == 28 then 0xA4D9A773_D6131691_8F140BC8_89F54801
    else 0x9142E072_3EFB8848_89D1F440_00000000
  }

  /** Squaring Mantissa(j + 1) yields the digit 1. */
  predicate Digit(j: nat)
    requires j < 29
  {
    j == 1 || j == 2 || j == 3 || j == 4 || j == 5 || j == 7 || j == 9 || j == 10 || j == 12 || j == 16 ||
    j == 17 || j == 18 || j == 20 || j == 22 || j == 23 || j == 24 || j == 26
  }

  function Digits(j: nat): nat
    requires j <= 29
  {
    if j == 0 then 0 else (if Digit(j - 1) then Pow2(j - 1) else 0) + Digits(j - 1)
  }

  lemma {:induction false} MantissaSquares(j: nat)
    requires j < 29
    ensures P127 <= Mantissa(j) < P128
    ensures Digit(j) ==> Mantissa(j) * P128 <= Mantissa(j + 1) * Mantissa(j + 1) < (Mantissa(j) + 1) * P128
    ensures !Digit(j) ==> Mantissa(j) * P127 <= Mantissa(j + 1) * Mantissa(j + 1) < (Mantissa(j) + 1) * P127
  {
  }

  lemma {:induction false} MantissaBracket(z: nat, j: nat)
    requires j <= 29 && 2 < z < 97
    ensures Bracket(Mantissa(j), z, j, Digits(j))
    decreases j
  {
    if j == 0 {
      BracketBase(Mantissa(0), z);
    } else {
      MantissaBracket(z, j - 1);
      MantissaSquares(j - 1);
      Round(Mantissa(j), Mantissa(j - 1), Digit(j - 1), z, j - 1, Digits(j - 1));
    }
  }

  // ----- the logarithms of all twenty factors -----

  lemma {:induction false} NextDigit(j: nat, p: nat, d: nat, e: nat)
    requires j < 29 && Pow2(j) == p && Digits(j) == d && e == d + (if Digit(j) then p else 0)
    ensures Digits(j + 1) == e && Pow2(j + 1) == 2 * p
  {
  }

  lemma {:induction false} DigitsValue()
    ensures Digits(29) == 97982142
  {
    NextDigit(0, 1, 0, 0);
    hide Digits, Pow2;
    NextDigit(1, 0x2, 0, 2);
    NextDigit(2, 0x4, 2, 6);
    NextDigit(3, 0x8, 6, 14);
    NextDigit(4, 0x10, 14, 30);
    NextDigit(5, 0x20, 30, 62);
    NextDigit(6, 0x40, 62, 62);
    NextDigit(7, 0x80, 62, 190);
    NextDigit(8, 0x100, 190, 190);
    NextDigit(9, 0x200, 190, 702);
    NextDigit(10, 0x400, 702, 1726);
    NextDigit(11, 0x800, 1726, 1726);
    NextDigit(12, 0x1000, 1726, 5822);
    NextDigit(13, 0x2000, 5822, 5822);
    NextDigit(14, 0x4000, 5822, 5822);
    NextDigit(15, 0x8000, 5822, 5822);
    NextDigit(16, 0x10000, 5822, 71358);
    NextDigit(17, 0x20000, 71358, 202430);
    NextDigit(18, 0x40000, 202430, 464574);
    NextDigit(19, 0x80000, 464574, 464574);
    NextDigit(20, 0x100000, 464574, 1513150);
    NextDigit(21, 0x200000, 1513150, 1513150);
    NextDigit(22, 0x400000, 1513150, 5707454);
    NextDigit(23, 0x800000, 5707454, 14096062);
    NextDigit(24, 0x1000000, 14096062, 30873278);
    NextDigit(25, 0x2000000, 30873278, 30873278);
    NextDigit(26, 0x4000000, 30873278, 97982142);
    NextDigit(27, 0x8000000, 97982142, 97982142);
    NextDigit(28, 0x10000000, 97982142, 97982142);
  }

  /** log2 of Factor(i) in units, but for the rounding. */
  ghost function FactorLog(i: nat): int { 128 * UNIT - Pow2(i) * TICK_LOG }

  /** How far log2 of Factor(i) may be from FactorLog(i). */
  function Slack(i: nat): nat { 32 * Pow2(i) + 2 }

  ghost predicate FactorNear(i: nat, k: nat)
    requires i < 20
  {
    LogNear(Factor(i), k, FactorLog(i), Slack(i))
  }

  lemma {:induction false} LastFactorNear(z: nat)
    requires Pow2(z) == 0x8_0000 && Pow2(z + 29) == UNIT && 2 < z < 97
    ensures FactorNear(19, z + 29)
  {
    hide Tower, Pow2, Digits, Mantissa;
    MantissaBracket(z, 29);
    DigitsValue();
    ScaledLastFactor();
    var lo := 90 * UNIT + 97982142 * 0x8_0000;
    LastFactorBounds(Factor(19), z, lo);
    LastFactorWindow(Tower(Factor(19), z + 29), lo, lo + 0x8_0000 + 29);
  }

  lemma {:induction false} LastFactorBounds(x: nat, z: nat, lo: nat)
    requires Pow2(z) == 0x8_0000 && Pow2(z + 29) == UNIT && lo == 90 * UNIT + 97982142 * 0x8_0000
    requires Bracket(x * Pow2(37), z, 29, 97982142)
    ensures Pow2(lo) <= Tower(x, z + 29) <= Pow2(lo + 0x8_0000 + 29)
  {
    hide Tower, Pow2;
    assert LowExponent(z, 29, 97982142) == lo + 37 * UNIT;
    assert HighExponent(z, 29, 97982142) == lo + 0x8_0000 + 29 + 37 * UNIT;
    UnscaleBounds(x, 37, z + 29, lo, lo + 0x8_0000 + 29);
  }

  lemma {:induction false} ScaledLastFactor()
    ensures Mantissa(29) == Factor(19) * Pow2(37)
  {
    Pow2Small();
    Pow2Add(32, 4);
    assert Pow2(37) == 2 * Pow2(36);
  }

  lemma {:induction false} LastFactorWindow(t: nat, lo: nat, hi: nat)
    requires lo == 90 * UNIT + 97982142 * 0x8_0000 && hi == lo + 0x8_0000 + 29
    requires Pow2(lo) <= t <= Pow2(hi)
    ensures var e, w := FactorLog(19), Slack(19);
            0 <= w <= e && Pow2(e - w) <= t <= Pow2(e + w)
  {
    assert Pow2(19) == 0x8_0000 by { Pow2Small(); Pow2Add(16, 3); }
    var e, w := FactorLog(19), Slack(19);
    Pow2Mono(e - w, lo);
    Pow2Mono(hi, e + w);
  }

  /** Each factor squared is the next one, to within two parts in Q128. */
  lemma {:induction false} FactorSquares(i: nat)
    requires i < 19
    ensures 2 * UNIT + 2 <= Factor(i + 1) <= P128
    ensures (Factor(i + 1) - 2) * P128 <= Factor(i) * Factor(i) <= (Factor(i + 1) + 2) * P128
  {
  }

  lemma {:induction false} FactorExponents(i: nat)
    requires i < 19
    ensures FactorLog(i + 1) + 128 * UNIT == 2 * FactorLog(i) && Slack(i + 1) + 2 == 2 * Slack(i)
    ensures Slack(i + 1) + 2 <= FactorLog(i + 1) && Slack(i) <= FactorLog(i)
  {
    Pow2Mono(i + 1, 19);
    assert Pow2(19) == 0x8_0000 by { Pow2Small(); Pow2Add(16, 3); }
    assert Pow2(i + 1) == 2 * Pow2(i);
  }

  lemma {:induction false} FactorsNear(i: nat, z: nat)
    requires i < 20 && Pow2(z) == 0x8_0000 && Pow2(z + 29) == UNIT && 2 < z < 97
    ensures FactorNear(i, z + 29)
    decreases 20 - i
  {
    if i == 19 {
      LastFactorNear(z);
    } else {
      hide Tower, Pow2, Factor, Slack, FactorLog;
      FactorsNear(i + 1, z);
      FactorSquares(i);
      FactorExponents(i);
      FactorFromSquare(Factor(i), Factor(i + 1), z + 29, FactorLog(i + 1), Slack(i + 1), FactorLog(i), Slack(i));
    }
  }

  lemma {:induction false} FactorFromSquare(x: nat, y: nat, k: nat, g: int, v: int, e: int, w: int)
    requires Pow2(k) == UNIT && LogNear(y, k, g, v) && g + 128 * UNIT == 2 * e && v + 2 == 2 * w && w <= e && v + 2 <= g
    requires 2 * UNIT + 2 <= y && (y - 2) * P128 <= x * x <= (y + 2) * P128
    ensures LogNear(x, k, e, w)
  {
    hide Tower, Pow2;
    Pow2Is127or128(128, P128);
    TowerPower(P128, 128, k, 128 * UNIT);
    UpperFromSquare(x, y, P128, k, g + v, 128 * UNIT);
    LowerFromSquare(x, y, P128, k, g - v, 128 * UNIT);
    RootBounds(x, k, e, w, g + v + 2 + 128 * UNIT, g - v - 2 + 128 * UNIT);
  }

  lemma {:induction false} RootBounds(x: nat, k: nat, e: int, w: int, hi: nat, lo: nat)
    requires 0 <= w <= e && hi == 2 * (e + w) && lo == 2 * (e - w)
    requires Pow2(lo) <= Tower(x * x, k) <= Pow2(hi)
    ensures LogNear(x, k, e, w)
  {
    hide Tower, Pow2;
    TowerMul(x, x, k);
    assert hi == (e + w) + (e + w) && lo == (e - w) + (e - w);
    SquareBelow(Tower(x, k), e + w);
    SquareAbove(Tower(x, k), e - w);
  }

  lemma {:induction false} TowerPower(m: nat, c: nat, k: nat, s: nat)
    requires m == Pow2(c) && s == c * Pow2(k)
    ensures Tower(m, k) == Pow2(s)
  {
    TowerPow2(c, k);
  }

  lemma {:induction false} UpperFromSquare(x: nat, y: nat, m: nat, k: nat, hi: nat, s: nat)
    requires x * x <= (y + 2) * m && 2 * Pow2(k) <= y
    requires Tower(y, k) <= Pow2(hi) && Tower(m, k) == Pow2(s)
    ensures Tower(x * x, k) <= Pow2(hi + 2 + s)
  {
    hide Tower;
    TowerMono(x * x, (y + 2) * m, k);
    TowerMul(y + 2, m, k);
    TowerUnit(y, k);
    TowerUnit(y + 1, k);
    assert Pow2(hi + 2) == 4 * Pow2(hi);
    MulMono(Tower(y + 2, k), Pow2(hi + 2), Pow2(s));
    Pow2Add(hi + 2, s);
  }

  lemma {:induction false} LowerFromSquare(x: nat, y: nat, m: nat, k: nat, lo: nat, s: nat)
    requires 2 <= y && (y - 2) * m <= x * x && 2 * Pow2(k) <= y - 2 && 2 <= lo
    requires Pow2(lo) <= Tower(y, k) && Tower(m, k) == Pow2(s)
    ensures Pow2(lo - 2 + s) <= Tower(x * x, k)
  {
    hide Tower;
    TowerMono((y - 2) * m, x * x, k);
    TowerMul(y - 2, m, k);
    TowerUnit(y - 2, k);
    TowerUnit(y - 1, k);
    assert Pow2(lo) == 4 * Pow2(lo - 2);
    MulMono(Pow2(lo - 2), Tower(y - 2, k), Pow2(s));
    Pow2Add(lo - 2, s);
  }

  lemma {:induction false} SquareBelow(u: nat, a: nat)
    requires u * u <= Pow2(a + a)
    ensures u <= Pow2(a)
  {
    Pow2Add(a, a);
    if Pow2(a) < u {
      MulStrict(Pow2(a), u, Pow2(a));
      MulMono(Pow2(a), u, u);
    }
  }

  lemma {:induction false} SquareAbove(u: nat, a: nat)
    requires Pow2(a + a) <= u * u
    ensures Pow2(a) <= u
  {
    Pow2Add(a, a);
    if u < Pow2(a) {
      MulStrict(u, Pow2(a), Pow2(a));
      MulMono(u, Pow2(a), u);
    }
  }

  // ----- the truncated product and the price square root at a tick -----

  lemma {:induction false} FactorLogs(i: nat, k: nat)
    requires i < 20 && Pow2(k) == UNIT
    ensures FactorNear(i, k)
  {
    hide Tower, Factor, Slack, FactorLog;
    Pow2Seven();
    Resolution(k, 19, 0x8_0000, 29, 0x2000_0000);
    if 97 <= k - 29 { Pow2Mono(97, k - 29); }
    if k - 29 <= 2 { Pow2Mono(k - 29, 2); Pow2Small(); }
    FactorsNear(i, k - 29);
  }

  lemma {:induction false} UnitIsPow2()
    ensures Pow2(48) == UNIT && Pow2(50) == 4 * UNIT
  {
    Pow2Small();
    Pow2Add(32, 16);
    assert Pow2(50) == 2 * Pow2(49);
  }

  lemma {:induction false} Pow2Seven()
    ensures Pow2(19) == 0x8_0000 && Pow2(29) == 0x2000_0000 && Pow2(18) == 0x4_0000 && Pow2(30) == 0x4000_0000
    ensures Pow2(97) == 2 * P96
  {
    Pow2Small();
    Pow2Words();
    Pow2Add(16, 2);
    Pow2Add(18, 1);
    Pow2Add(16, 14);
    Pow2Add(8, 6);
    Pow2Add(4, 2);
    assert Pow2(30) == 2 * Pow2(29);
    assert Pow2(97) == 2 * Pow2(96);
  }

  /** The power 2^48 splits as 2^a times 2^b. */
  lemma {:induction false} Resolution(k: nat, a: nat, p: nat, b: nat, q: nat)
    requires Pow2(k) == UNIT && p * q == UNIT && 1 < p && 0 < q && Pow2(b) == q
    ensures b <= k && Pow2(k - b) == p && k - b + b == k
  {
    if k < b {
      Pow2Mono(k, b);
      MulStrict(1, p, q);
    }
    Pow2Add(k - b, b);
    var r := Pow2(k - b);
    if r < p { MulStrict(r, p, q); }
    if p < r { MulStrict(p, r, q); }
  }

  lemma {:induction false} TowerAtLeast(x: nat, k: nat, a: nat, lo: nat)
    requires Pow2(lo) <= Tower(x, k) && a * Pow2(k) <= lo
    ensures Pow2(a) <= x
  {
    hide Tower, Pow2;
    var b := a * Pow2(k);
    TowerPow2(a, k);
    Pow2Mono(b, lo);
    TowerInverse(Pow2(a), x, k);
  }

  /** Dropping one unit from a large number widens the lower bound by one. */
  lemma {:induction false} DropUnit(x: nat, k: nat, lo: nat)
    requires Pow2(k) == UNIT && 50 * UNIT <= lo && Pow2(lo) <= Tower(x + 1, k)
    ensures Pow2(lo - 1) <= Tower(x, k)
  {
    hide Tower;
    TowerAtLeast(x + 1, k, 50, lo);
    UnitIsPow2();
    TowerUnit(x, k);
    assert Pow2(lo) == 2 * Pow2(lo - 1);
  }

  /** Multiplying and truncating adds logarithms, at the cost of one unit. */
  lemma {:induction false} ScaleNear(x: nat, c: nat, k: nat, e: int, w: int, g: int, v: int)
    requires Pow2(k) == UNIT && LogNear(x, k, e, w) && LogNear(c, k, g, v)
    requires 50 * UNIT <= e + g - 128 * UNIT - w - v
    ensures LogNear(Scale(x, c), k, e + g - 128 * UNIT, w + v + 1)
  {
    hide Tower, Pow2, Scale;
    var q, s := Scale(x, c), 128 * UNIT;
    ScaleBounds(x, c);
    Pow2Is127or128(128, P128);
    TowerPower(P128, 128, k, s);
    TowerMul(x, c, k);
    TowerMul(q, P128, k);
    TowerMul(q + 1, P128, k);
    TowerMono(q * P128, x * c, k);
    TowerMono(x * c, (q + 1) * P128, k);
    ProductBounds(Tower(x, k), Tower(c, k), e - w, e + w, g - v, g + v);
    var hi, lo := e + w + (g + v) - s, e - w + (g - v) - s;
    assert s + hi == e + w + (g + v) && s + lo == e - w + (g - v);
    Pow2Cancel(Tower(q, k), s, hi);
    Pow2CancelLower(Tower(q + 1, k), s, lo);
    DropUnit(q, k, lo);
    Pow2Mono(hi, hi + 1);
  }

  lemma {:induction false} ScaleBounds(x: nat, c: nat)
    ensures Scale(x, c) * P128 <= x * c <= (Scale(x, c) + 1) * P128
  {
    FloorBounds(x * c, P128);
  }

  lemma {:induction false} ProductBounds(t: nat, u: nat, a: nat, b: nat, c: nat, d: nat)
    requires Pow2(a) <= t <= Pow2(b) && Pow2(c) <= u <= Pow2(d)
    ensures Pow2(a + c) <= t * u <= Pow2(b + d)
  {
    hide Pow2;
    Pow2Add(a, c);
    Pow2Add(b, d);
    MulBoth(Pow2(a), t, Pow2(c), u);
    MulBoth(t, Pow2(b), u, Pow2(d));
  }

  /** log2 of the product over the bits of n, in units. */
  ghost function DecayLog(n: nat): int { 128 * UNIT - n * TICK_LOG }

  lemma {:induction false} DecayStart(n: nat, k: nat)
    requires Pow2(k) == UNIT
    ensures LogNear(Decay(n, 0), k, DecayLog(Low(n, 0)), 32 * Low(n, 0))
  {
    hide Tower;
    Pow2Is127or128(128, P128);
    TowerPower(P128, 128, k, 128 * UNIT);
  }

  lemma {:induction false} DecayNear(n: nat, j: nat, k: nat)
    requires j <= 20 && Pow2(k) == UNIT
    ensures LogNear(Decay(n, j), k, DecayLog(Low(n, j)), 32 * Low(n, j) + 3 * j)
  {
    hide Tower, Factor, Pow2, LogNear, DecayLog, Scale, Low, Bit, Slack, FactorLog;
    if j == 0 {
      DecayStart(n, k);
    } else {
      DecayNear(n, j - 1, k);
      LowStep(n, j - 1);
      DecayStep(Decay(n, j - 1), Low(n, j - 1), j - 1, k);
    }
  }

  lemma {:induction false} DecayStep(x: nat, m: nat, j: nat, k: nat)
    requires j < 20 && m < Pow2(j) && Pow2(k) == UNIT && LogNear(x, k, DecayLog(m), 32 * m + 3 * j)
    ensures LogNear(x, k, DecayLog(m), 32 * m + 3 * (j + 1))
    ensures LogNear(Scale(x, Factor(j)), k, DecayLog(m + Pow2(j)), 32 * (m + Pow2(j)) + 3 * (j + 1))
  {
    hide Tower, Factor, Pow2, LogNear, DecayLog, FactorLog, Scale;
    DecayRoom(m, j);
    LogWiden(x, k, DecayLog(m), 32 * m + 3 * j, 32 * m + 3 * (j + 1));
    FactorLogs(j, k);
    ScaleNear(x, Factor(j), k, DecayLog(m), 32 * m + 3 * j, FactorLog(j), Slack(j));
  }

  lemma {:induction false} DecayRoom(m: nat, j: nat)
    requires j < 20 && m < Pow2(j)
    ensures DecayLog(m) + FactorLog(j) - 128 * UNIT == DecayLog(m + Pow2(j))
    ensures 50 * UNIT <= DecayLog(m + Pow2(j)) - (32 * m + 3 * j) - Slack(j)
    ensures 32 * m + 3 * (j + 1) <= DecayLog(m)
  {
    hide Pow2;
    Pow2Mono(j, 19);
    Pow2Seven();
  }

  /** A unit in 2^(a+1), at the power 2^(a+z), costs at most 2^z doublings. */
  lemma {:induction false} TowerSmallUnit(y: nat, a: nat, z: nat)
    requires y == 2 * Pow2(a)
    ensures Tower(y + 1, a + z) <= Pow2(Pow2(z)) * Tower(y, a + z)
  {
    TowerTower(y + 1, a, z);
    TowerTower(y, a, z);
    TowerUnit(y, a);
    TowerMono(Tower(y + 1, a), 2 * Tower(y, a), z);
    TowerMul(2, Tower(y, a), z);
    TowerPow2(1, z);
    assert Pow2(1) == 2;
  }

  lemma {:induction false} TowerTower(x: nat, a: nat, b: nat)
    ensures Tower(x, a + b) == Tower(Tower(x, a), b)
    decreases a
  {
    if a != 0 {
      TowerTower(x * x, a - 1, b);
      assert a + b - 1 == a - 1 + b;
    }
  }

  /** Rounding a large Q128.128 up to Q64.96 moves its logarithm by less than 2^18 units. */
  lemma {:induction false} RoundUpNear(x: nat, k: nat, e: int, w: int)
    requires Pow2(k) == UNIT && LogNear(x, k, e, w) && 63 * UNIT <= e - w
    ensures LogNear(RoundUp32(x), k, e - 32 * UNIT, w + 0x4_0000)
  {
    hide Tower, Pow2, RoundUp32;
    var r, s := RoundUp32(x), 32 * UNIT;
    assert Pow2(63) <= x by { TowerAtLeast(x, k, 63, e - w); }
    RoundUpBounds(x);
    assert Pow2(32) == P32 by { Pow2Small(); }
    TowerPower(P32, 32, k, s);
    TowerMul(r, P32, k);
    TowerMono(x, r * P32, k);
    assert s + (e - w - s) == e - w && s + (e + w + 0x4_0000 - s) == e + w + 0x4_0000;
    Pow2CancelLower(Tower(r, k), s, e - w - s);
    RoundUpCost(x, r * P32, k);
    var h := Pow2(0x4_0000);
    MulMono(Tower(x, k), Pow2(e + w), h);
    Pow2Add(e + w, 0x4_0000);
    Pow2Cancel(Tower(r, k), s, e + w + 0x4_0000 - s);
    Pow2Mono(e - s - w - 0x4_0000, e - w - s);
  }

  lemma {:induction false} RoundUpBounds(x: nat)
    requires Pow2(63) <= x
    ensures x <= RoundUp32(x) * P32 && RoundUp32(x) * P32 * 0x8000_0000 <= x * 0x8000_0001
  {
    assert Pow2(63) == 0x8000_0000_0000_0000 by { Pow2Words(); assert Pow2(64) == 2 * Pow2(63); }
    assert x == x / P32 * P32 + x % P32;
  }

  lemma {:induction false} RoundUpCost(x: nat, y: nat, k: nat)
    requires Pow2(k) == UNIT && y * 0x8000_0000 <= x * 0x8000_0001
    ensures Tower(y, k) <= Tower(x, k) * Pow2(0x4_0000)
  {
    hide Tower, Pow2;
    Pow2Seven();
    Resolution(k, 30, 0x4000_0000, 18, 0x4_0000);
    var u := 0x8000_0000;
    TowerSmallUnit(u, k - 18, 18);
    TowerMono(y * u, x * (u + 1), k);
    TowerMul(y, u, k);
    TowerMul(x, u + 1, k);
    TowerPositive(u, k);
    CancelCost(Tower(y, k), Tower(x, k), Tower(u, k), Tower(u + 1, k), Pow2(0x4_0000));
  }

  lemma {:induction false} TowerPositive(x: nat, k: nat)
    requires 0 < x
    ensures 0 < Tower(x, k)
  {
    TowerMono(1, x, k);
    TowerPow2(0, k);
    assert Pow2(0) == 1;
  }

  lemma {:induction false} CancelCost(y: nat, x: nat, u: nat, v: nat, h: nat)
    requires y * u <= x * v && v <= h * u && 0 < u
    ensures y <= x * h
  {
    MulMono(v, h * u, x);
    assert x * v <= x * h * u by { MulAssoc(x, h, u); }
    MulCancel(y, x * h, u);
  }

  /** Inverting in Q128 negates the logarithm. */
  lemma {:induction false} InverseNear(d: nat, k: nat, e: int, w: int)
    requires Pow2(k) == UNIT && LogNear(d, k, e, w) && e + w <= 200 * UNIT
    ensures d != 0 && LogNear(Inverse(d), k, 256 * UNIT - e, w + 1)
  {
    hide Tower, Pow2;
    if d == 0 { TowerZero(k); }
    var q, s := Inverse(d), 256 * UNIT;
    FloorBounds(P256 - 1, d);
    assert Pow2(256) == P256 by { Pow2Wide(); }
    TowerPower(P256, 256, k, s);
    InverseUpper(q, d, P256, k, e - w, s);
    InverseLower(q, d, P256, k, e + w, s);
    DropUnit(q, k, s - (e + w));
    Pow2Mono(s - (e - w), s - e + (w + 1));
  }

  lemma {:induction false} InverseUpper(q: nat, d: nat, m: nat, k: nat, lo: nat, s: nat)
    requires q * d <= m && Tower(m, k) == Pow2(s) && Pow2(lo) <= Tower(d, k) && lo <= s
    ensures Tower(q, k) <= Pow2(s - lo)
  {
    hide Tower, Pow2;
    TowerMono(q * d, m, k);
    TowerMul(q, d, k);
    MulMono(Pow2(lo), Tower(d, k), Tower(q, k));
    assert lo + (s - lo) == s;
    Pow2Cancel(Tower(q, k), lo, s - lo);
  }

  lemma {:induction false} InverseLower(q: nat, d: nat, m: nat, k: nat, hi: nat, s: nat)
    requires m <= (q + 1) * d && Tower(m, k) == Pow2(s) && Tower(d, k) <= Pow2(hi) && hi <= s
    ensures Pow2(s - hi) <= Tower(q + 1, k)
  {
    hide Tower, Pow2;
    TowerMono(m, (q + 1) * d, k);
    TowerMul(q + 1, d, k);
    MulMono(Tower(d, k), Pow2(hi), Tower(q + 1, k));
    assert hi + (s - hi) == s;
    Pow2CancelLower(Tower(q + 1, k), hi, s - hi);
  }

  lemma {:induction false} TowerZero(k: nat)
    ensures Tower(0, k) == 0
  {
    if k != 0 { TowerZero(k - 1); }
  }

  /** How far, in units, the logarithm of a price square root may be from the tick's. */
  const RATIO_SLACK: nat := 0x200_0000

  /** log2 of the price square root at a tick is the tick times TICK_LOG, but for the slack. */
  lemma {:induction false} SqrtRatioLog(tick: int, p: nat, k: nat)
    requires MIN_TICK <= tick <= MAX_TICK && Pow2(k) == UNIT && p == SqrtRatioAtTick(tick)
    ensures LogNear(p, k, 96 * UNIT + tick * TICK_LOG, RATIO_SLACK)
  {
    hide Tower, Pow2, Decay, RoundUp32, Low, Width;
    var n, b := Magnitude(tick), Width(Magnitude(tick));
    TickWidth(tick);
    DecayNear(n, b, k);
    var d, w := Decay(n, b), 32 * n + 3 * b;
    InverseNear(d, k, DecayLog(n), w);
    if tick > 0 {
      RoundUpNear(Inverse(d), k, 256 * UNIT - DecayLog(n), w + 1);
      LogWiden(p, k, 96 * UNIT + tick * TICK_LOG, w + 1 + 0x4_0000, RATIO_SLACK);
    } else {
      RoundUpNear(d, k, DecayLog(n), w);
      LogWiden(p, k, 96 * UNIT + tick * TICK_LOG, w + 0x4_0000, RATIO_SLACK);
    }
  }

  /** A higher tick has a strictly higher price. */
  lemma {:induction false} SqrtRatioIncreases(t: int, u: int)
    requires MIN_TICK <= t < u <= MAX_TICK
    ensures SqrtRatioAtTick(t) < SqrtRatioAtTick(u)
  {
    hide Tower, Pow2, Decay, RoundUp32, SqrtRatioAtTick;
    UnitIsPow2();
    var k: nat :| Pow2(k) == UNIT;
    SqrtRatioLog(t, SqrtRatioAtTick(t), k);
    SqrtRatioLog(u, SqrtRatioAtTick(u), k);
    LogOrder(SqrtRatioAtTick(t), SqrtRatioAtTick(u), k, 96 * UNIT + t * TICK_LOG, RATIO_SLACK,
             96 * UNIT + u * TICK_LOG, RATIO_SLACK);
  }

  // ----- the two ends of the price range -----

  lemma {:induction false} LastDecay(n: nat)
    requires n == 887272
    ensures Decay(n, 20) == 0x1_000276A2_21A17501
  {
    assert Decay(n, 0) == P128 && Pow2(0) == 1;
    hide Decay, Pow2;
    DecayBit(n, 0, 0x1, 887272, 0x1_00000000_00000000_00000000_00000000, 0x1_00000000_00000000_00000000_00000000);
    DecayBit(n, 1, 0x2, 443636, 0x1_00000000_00000000_00000000_00000000, 0x1_00000000_00000000_00000000_00000000);
    DecayBit(n, 2, 0x4, 221818, 0x1_00000000_00000000_00000000_00000000, 0x1_00000000_00000000_00000000_00000000);
    DecayBit(n, 3, 0x8, 110909, 0x1_00000000_00000000_00000000_00000000, 0xFFE5CACA_7E10E4E6_1C3624EA_A0941CD0);
    DecayBit(n, 4, 0x10, 55454, 0xFFE5CACA_7E10E4E6_1C3624EA_A0941CD0, 0xFFE5CACA_7E10E4E6_1C3624EA_A0941CD0);
    DecayBit(n, 5, 0x20, 27727, 0xFFE5CACA_7E10E4E6_1C3624EA_A0941CD0, 0xFF7D10C6_3A977157_DA4140DE_B6F31A7B);
    DecayBit(n, 6, 0x40, 13863, 0xFF7D10C6_3A977157_DA4140DE_B6F31A7B, 0xFEAC1D40_52F77148_18B490C1_138EA058);
    DecayBit(n, 7, 0x80, 6931, 0xFEAC1D40_52F77148_18B490C1_138EA058, 0xFD0C3654_DA9E0337_41D1A9F9_3707F6F6);
    DecayBit(n, 8, 0x100, 3465, 0xFD0C3654_DA9E0337_41D1A9F9_3707F6F6, 0xF9D459C5_817DBAFA_9E376AE8_4DCFEB8B);
    DecayBit(n, 9, 0x200, 1732, 0xF9D459C5_817DBAFA_9E376AE8_4DCFEB8B, 0xF9D459C5_817DBAFA_9E376AE8_4DCFEB8B);
    DecayBit(n, 10, 0x400, 866, 0xF9D459C5_817DBAFA_9E376AE8_4DCFEB8B, 0xF9D459C5_817DBAFA_9E376AE8_4DCFEB8B);
    DecayBit(n, 11, 0x800, 433, 0xF9D459C5_817DBAFA_9E376AE8_4DCFEB8B, 0xE183AC4E_25D59499_66242A64_E9C80E2F);
    DecayBit(n, 12, 0x1000, 216, 0xE183AC4E_25D59499_66242A64_E9C80E2F, 0xE183AC4E_25D59499_66242A64_E9C80E2F);
    DecayBit(n, 13, 0x2000, 108, 0xE183AC4E_25D59499_66242A64_E9C80E2F, 0xE183AC4E_25D59499_66242A64_E9C80E2F);
    DecayBit(n, 14, 0x4000, 54, 0xE183AC4E_25D59499_66242A64_E9C80E2F, 0xE183AC4E_25D59499_66242A64_E9C80E2F);
    DecayBit(n, 15, 0x8000, 27, 0xE183AC4E_25D59499_66242A64_E9C80E2F, 0x2BD1A4C5_D2A1181A_CA1EF15E_64C2E3CF);
    DecayBit(n, 16, 0x10000, 13, 0x2BD1A4C5_D2A1181A_CA1EF15E_64C2E3CF, 0x1A785CB_BDC05048_3E3BE581_2760BE73);
    DecayBit(n, 17, 0x20000, 6, 0x1A785CB_BDC05048_3E3BE581_2760BE73, 0x1A785CB_BDC05048_3E3BE581_2760BE73);
    DecayBit(n, 18, 0x40000, 3, 0x1A785CB_BDC05048_3E3BE581_2760BE73, 0x38_65A6455D_07D2BC87_C5956D2E);
    DecayBit(n, 19, 0x80000, 1, 0x38_65A6455D_07D2BC87_C5956D2E, 0x1_000276A2_21A17501);
  }

  lemma {:induction false} DecayBit(n: nat, k: nat, p: nat, q: nat, x: nat, y: nat)
    requires k < 20 && Pow2(k) == p && n / p == q && Decay(n, k) == x
    requires y == (if q % 2 != 0 then Scale(x, Factor(k)) else x)
    ensures Decay(n, k + 1) == y && Pow2(k + 1) == 2 * p
  {
  }

  /** Rounded to Q64.96, the last product and its inverse are the two constants of the source. */
  lemma {:induction false} EndRounding()
    ensures RoundUp32(0x1_0002_76A2_21A1_7501) == MIN_SQRT_RATIO
    ensures RoundUp32(Inverse(0x1_0002_76A2_21A1_7501)) == MAX_SQRT_RATIO
  {
  }

  /** Every price square root lies between the two constants of the source, which
      are the price square roots at the two end ticks. */
  lemma {:induction false} SqrtRatioRange(tick: int)
    requires MIN_TICK <= tick <= MAX_TICK
    ensures MIN_SQRT_RATIO <= SqrtRatioAtTick(tick) <= MAX_SQRT_RATIO
    ensures tick == MIN_TICK ==> SqrtRatioAtTick(tick) == MIN_SQRT_RATIO
    ensures tick == MAX_TICK ==> SqrtRatioAtTick(tick) == MAX_SQRT_RATIO
  {
    assert SqrtRatioAtTick(MIN_TICK) == MIN_SQRT_RATIO && SqrtRatioAtTick(MAX_TICK) == MAX_SQRT_RATIO by {
      hide Decay, RoundUp32;
      LastDecay(887272);
      TickWidth(MIN_TICK);
      DecayAllBits(887272, 20);
      EndRounding();
    }
    hide SqrtRatioAtTick;
    if MIN_TICK < tick { SqrtRatioIncreases(MIN_TICK, tick); }
    if tick < MAX_TICK { SqrtRatioIncreases(tick, MAX_TICK); }
  }

  // ----- the tick of a price -----

  /** The greatest tick at or below u whose price is at most p, found by walking down. */
  ghost function WalkDown(p: nat, u: int): (t: int)
    requires MIN_SQRT_RATIO <= p && MIN_TICK <= u < MAX_TICK && p < SqrtRatioAtTick(u + 1)
    ensures MIN_TICK <= t <= u && SqrtRatioAtTick(t) <= p < SqrtRatioAtTick(t + 1)
    decreases u - MIN_TICK
  {
    hide SqrtRatioAtTick;
    SqrtRatioRange(u);
    if SqrtRatioAtTick(u) <= p then u else WalkDown(p, u - 1)
  }

  /** The tick of a price: the greatest tick whose price is at most p. */
  ghost function TickAt(p: nat): (t: int)
    requires MIN_SQRT_RATIO <= p < MAX_SQRT_RATIO
    ensures MIN_TICK <= t < MAX_TICK && SqrtRatioAtTick(t) <= p < SqrtRatioAtTick(t + 1)
  {
    hide SqrtRatioAtTick;
    SqrtRatioRange(MAX_TICK);
    WalkDown(p, MAX_TICK - 1)
  }

  /** Comparing a price with the price at a tick is comparing its tick with the tick. */
  lemma {:induction false} TickAtGalois(p: nat, u: int)
    requires MIN_SQRT_RATIO <= p < MAX_SQRT_RATIO && MIN_TICK <= u <= MAX_TICK
    ensures SqrtRatioAtTick(u) <= p <==> u <= TickAt(p)
  {
    hide SqrtRatioAtTick, TickAt;
    var t := TickAt(p);
    if u < t { SqrtRatioIncreases(u, t); }
    if t + 1 < u { SqrtRatioIncreases(t + 1, u); }
  }
}
