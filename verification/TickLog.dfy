/** The tick of a price, by a fixed-point logarithm: highest bit, then fourteen
    squarings, then a choice between the two ticks the error bounds leave open. */
module TickLog {
  import opened Arithmetic
  import opened Bits
  import opened TickMath

  // ----- the digits of the logarithm -----

  /** r * r scaled back to 128 bits. */
  function Squared(r: nat): nat { r * r / P127 }

  function Halved(s: nat): nat { if P128 <= s then s / 2 else s }

  lemma {:induction false} SquaredRange(r: nat)
    requires P127 <= r < P128
    ensures P127 <= Squared(r) < 2 * P128 && P127 <= Halved(Squared(r)) < P128
    ensures Squared(r) * P127 <= r * r < (Squared(r) + 1) * P127
  {
    FloorBounds(r * r, P127);
    MulMono(P127, r, r);
    MulStrict(r, P128, r);
    FloorGalois(r * r, P127, P127);
    FloorGalois(r * r, P127, 2 * P128);
  }

  /** The first j binary digits of log2(r / 2^127), each from one squaring. */
  ghost function LogDigits(r: nat, j: nat): nat
    requires P127 <= r < P128
    decreases j
  {
    if j == 0 then 0
    else
      SquaredRange(r);
      (if P128 <= Squared(r) then Pow2(j - 1) else 0) + LogDigits(Halved(Squared(r)), j - 1)
  }

  /** The digits bracket the logarithm. */
  lemma {:induction false} LogDigitsBracket(r: nat, z: nat, j: nat)
    requires P127 <= r < P128 && z + j < 126
    ensures Bracket(r, z, j, LogDigits(r, j))
    decreases j
  {
    if j == 0 {
      BracketBase(r, z);
    } else {
      SquaredRange(r);
      var s := Halved(Squared(r));
      LogDigitsBracket(s, z, j - 1);
      hide Bracket, Pow2, Squared;
      Round(r, s, P128 <= Squared(r), z, j - 1, LogDigits(s, j - 1));
    }
  }

  // ----- the normalised ratio -----

  /** The ratio scaled to 128 bits. */
  function Normalised(ratio: nat, msb: nat): nat {
    if msb >= 128 then Shr(ratio, msb - 127) else ratio * Pow2(127 - msb)
  }

  lemma {:induction false} NormalisedRange(ratio: nat, msb: nat)
    requires FloorLog2(ratio, msb)
    ensures P127 <= Normalised(ratio, msb) < P128
  {
    Pow2HalfWord();
    if msb >= 128 {
      var h := msb - 127;
      Pow2Add(h, 127);
      Pow2Add(h, 128);
      hide Pow2;
      FloorGalois(ratio, Pow2(h), P127);
      FloorGalois(ratio, Pow2(h), P128);
    } else {
      var h := 127 - msb;
      Pow2Add(msb, h);
      Pow2Add(msb + 1, h);
      hide Pow2;
      MulMono(Pow2(msb), ratio, Pow2(h));
      MulStrict(ratio, Pow2(msb + 1), Pow2(h));
    }
  }

  /** log2 of the ratio in units, from its highest bit and fourteen digits. */
  ghost function RatioLog(ratio: nat, msb: nat): int
    requires FloorLog2(ratio, msb)
  {
    NormalisedRange(ratio, msb);
    msb * UNIT + LogDigits(Normalised(ratio, msb), 14) * 0x4_0000_0000
  }

  /** The fourteen-digit logarithm never exceeds the true one, and misses less than one digit and fifteen units. */
  lemma {:induction false} RatioLogNear(ratio: nat, msb: nat, k: nat)
    requires FloorLog2(ratio, msb) && Pow2(k) == UNIT
    ensures 0 <= RatioLog(ratio, msb)
    ensures Pow2(RatioLog(ratio, msb)) <= Tower(ratio, k)
    ensures Tower(ratio, k) <= Pow2(RatioLog(ratio, msb) + 0x4_0000_0000 + 15)
  {
    hide Tower, Pow2, LogDigits, Normalised, FloorLog2;
    NormalisedRange(ratio, msb);
    var r := Normalised(ratio, msb);
    var d := LogDigits(r, 14);
    FourteenDigits(k);
    LogDigitsBracket(r, k - 14, 14);
    NormalisedLog(ratio, msb, r, k, 127 * UNIT + d * 0x4_0000_0000, 127 * UNIT + (d + 1) * 0x4_0000_0000 + 14);
  }

  lemma {:induction false} FourteenDigits(k: nat)
    requires Pow2(k) == UNIT
    ensures 14 <= k < 126 && Pow2(k - 14) == 0x4_0000_0000
  {
    hide Pow2;
    assert Pow2(14) == 0x4000 by { Pow2Small(); Pow2Add(8, 4); Pow2Add(12, 2); }
    Resolution(k, 34, 0x4_0000_0000, 14, 0x4000);
    if 126 <= k { Pow2Mono(97, k); Pow2Seven(); }
  }

  /** Undoing the normalisation shifts the exponent by the position of the highest bit. */
  lemma {:induction false} NormalisedLog(ratio: nat, msb: nat, r: nat, k: nat, lo: nat, hi: nat)
    requires Pow2(k) == UNIT && FloorLog2(ratio, msb) && r == Normalised(ratio, msb)
    requires 127 * UNIT <= lo && Pow2(lo) <= Tower(r, k) <= Pow2(hi)
    ensures var s := msb * UNIT - 127 * UNIT;
            0 <= lo + s && 0 <= hi + s && Pow2(lo + s) <= Tower(ratio, k) <= Pow2(hi + s + 1)
  {
    hide Tower, Pow2, FloorLog2;
    NormalisedRange(ratio, msb);
    assert lo <= hi by { if hi < lo { Pow2Strict(hi, lo); } }
    if msb >= 128 {
      var h := msb - 127;
      FloorBounds(ratio, Pow2(h));
      ScaleUpLower(ratio, r, h, k, lo);
      ScaleUpUpper(ratio, r, h, k, hi);
    } else {
      var h := 127 - msb;
      assert h * UNIT + (lo - h * UNIT) == lo;
      UnscaleBounds(ratio, h, k, lo - h * UNIT, hi - h * UNIT);
      Pow2Mono(hi - h * UNIT, hi - h * UNIT + 1);
    }
  }

  lemma {:induction false} ScaleUpLower(x: nat, r: nat, h: nat, k: nat, lo: nat)
    requires r * Pow2(h) <= x && Pow2(lo) <= Tower(r, k)
    ensures Pow2(lo + h * Pow2(k)) <= Tower(x, k)
  {
    hide Tower, Pow2;
    TowerMono(r * Pow2(h), x, k);
    TowerMul(r, Pow2(h), k);
    TowerPow2(h, k);
    Pow2Add(lo, h * Pow2(k));
    MulMono(Pow2(lo), Tower(r, k), Pow2(h * Pow2(k)));
  }

  lemma {:induction false} ScaleUpUpper(x: nat, r: nat, h: nat, k: nat, hi: nat)
    requires x <= (r + 1) * Pow2(h) && Tower(r, k) <= Pow2(hi) && 2 * Pow2(k) <= r
    ensures Tower(x, k) <= Pow2(hi + h * Pow2(k) + 1)
  {
    hide Tower, Pow2;
    TowerMono(x, (r + 1) * Pow2(h), k);
    TowerMul(r + 1, Pow2(h), k);
    TowerPow2(h, k);
    TowerUnit(r, k);
    var e := h * Pow2(k);
    assert Tower(r + 1, k) <= Pow2(hi + 1) by { Pow2Step(hi); }
    Pow2Add(hi + 1, e);
    MulMono(Tower(r + 1, k), Pow2(hi + 1), Pow2(e));
  }

  // ----- from the logarithm to the tick -----

  /** 2^64 / log2(sqrt(1.0001)) and the two error offsets, as the source gives them. */
  const LOG_TO_TICK: nat := 255738958999603826347141
  const LOW_OFFSET: nat := 3402992956809132418596140100660247210
  const HIGH_OFFSET: nat := 291339464771989622907027621153398088495

  function TickLow(log2: int): int { (log2 * LOG_TO_TICK - LOW_OFFSET) / P128 }
  function TickHigh(log2: int): int { (log2 * LOG_TO_TICK + HIGH_OFFSET) / P128 }

  /** The tick of p lies between the two candidates, and they are at most one apart. */
  lemma {:induction false} CandidatesBracket(p: nat, ratio: nat, msb: nat, log2: int)
    requires MIN_SQRT_RATIO <= p < MAX_SQRT_RATIO && ratio == p * P32 && FloorLog2(ratio, msb)
    requires log2 == (RatioLog(ratio, msb) - 128 * UNIT) * 0x1_0000
    ensures TickLow(log2) <= TickAt(p) <= TickHigh(log2) <= TickLow(log2) + 1
  {
    hide Tower, Pow2, RatioLog, FloorLog2, SqrtRatioAtTick, TickAt;
    var t := TickAt(p);
    assert exists k: nat :: Pow2(k) == UNIT by { UnitIsPow2(); }
    var k: nat :| Pow2(k) == UNIT;
    var l := RatioLog(ratio, msb);
    RatioLogNear(ratio, msb, k);
    PriceLog(p, ratio, k, l);
    SqrtRatioLog(t, SqrtRatioAtTick(t), k);
    SqrtRatioLog(t + 1, SqrtRatioAtTick(t + 1), k);
    TowerMono(SqrtRatioAtTick(t), p, k);
    TowerMono(p, SqrtRatioAtTick(t + 1), k);
    Pow2Inverse(96 * UNIT + t * TICK_LOG - RATIO_SLACK, l - 32 * UNIT + 0x4_0000_0000 + 15);
    Pow2Inverse(l - 32 * UNIT, 96 * UNIT + (t + 1) * TICK_LOG + RATIO_SLACK);
    LogToTick(t, l - 128 * UNIT, log2);
  }

  lemma {:induction false} PriceLog(p: nat, ratio: nat, k: nat, l: int)
    requires ratio == p * P32 && Pow2(k) == UNIT && MIN_SQRT_RATIO <= p
    requires 0 <= l && Pow2(l) <= Tower(ratio, k) <= Pow2(l + 0x4_0000_0000 + 15)
    ensures 32 * UNIT <= l && Pow2(l - 32 * UNIT) <= Tower(p, k) <= Pow2(l - 32 * UNIT + 0x4_0000_0000 + 15)
  {
    hide Tower, Pow2;
    assert Pow2(63) <= ratio by { Pow2Words(); Pow2Add(63, 1); Pow2Small(); }
    TowerMono(Pow2(63), ratio, k);
    TowerPow2(63, k);
    Pow2Inverse(63 * UNIT, l + 0x4_0000_0000 + 15);
    assert Pow2(32) == P32 by { Pow2Small(); }
    UnscaleBounds(p, 32, k, l - 32 * UNIT, l - 32 * UNIT + 0x4_0000_0000 + 15);
  }

  /** The arithmetic of the two offsets. */
  lemma {:induction false} LogToTick(t: int, l: int, log2: int)
    requires MIN_TICK <= t < MAX_TICK && log2 == l * 0x1_0000
    requires t * TICK_LOG <= l + 0x4_0000_0000 + 15 + RATIO_SLACK
    requires l <= (t + 1) * TICK_LOG + RATIO_SLACK
    ensures TickLow(log2) <= t <= TickHigh(log2) <= TickLow(log2) + 1
  {
    var n := log2 * LOG_TO_TICK;
    assert n - LOW_OFFSET < (t + 1) * P128;
    assert t * P128 <= n + HIGH_OFFSET;
    FloorGalois(n - LOW_OFFSET, P128, t + 1);
    FloorGalois(n + HIGH_OFFSET, P128, t);
    FloorBounds(n - LOW_OFFSET, P128);
    FloorGalois(n + HIGH_OFFSET, P128, TickLow(log2) + 2);
  }

  // ----- the method of the source -----

  /** One squaring round: the digit it yields is or-ed into a position that is still clear. */
  method LogRound(r: nat, log2: int, bit: nat, w: nat) returns (s: nat, log2': int)
    requires P127 <= r < P128 && 50 <= bit < 64 && w == Pow2(bit) && log2 % (2 * w) == 0
    ensures P127 <= s < P128 && log2' % w == 0
    ensures log2' + LogDigits(s, bit - 50) * 0x4_0000_0000_0000 == log2 + LogDigits(r, bit - 49) * 0x4_0000_0000_0000
  {
    SquaredRange(r);
    s := r * r / P127;
    var f := s / P128;
    assert f == if P128 <= s then 1 else 0;
    log2' := log2 + f * w;
    s := if f == 0 then s else s / 2;
    RoundDigit(bit, w);
    DigitPosition(log2, w);
  }

  lemma {:induction false} RoundDigit(bit: nat, w: nat)
    requires 50 <= bit < 64 && w == Pow2(bit)
    ensures w == Pow2(bit - 50) * 0x4_0000_0000_0000
  {
    hide Pow2;
    Pow2Add(bit - 50, 50);
    UnitIsPow2();
  }

  lemma {:induction false} DigitPosition(log2: int, w: nat)
    requires 0 < w && log2 % (2 * w) == 0
    ensures log2 % w == 0 && (log2 + w) % w == 0
  {
    var q := log2 / (2 * w);
    assert log2 == q * (2 * w);
    assert q * (2 * w) == 2 * q * w;
    FloorUnique(2 * q * w, w, 2 * q);
    FloorUnique(2 * q * w + w, w, 2 * q + 1);
    assert log2 == log2 / w * w + log2 % w;
    assert log2 + w == (log2 + w) / w * w + (log2 + w) % w;
  }

  lemma {:induction false} BitWeights()
    ensures Pow2(50) == 0x4_0000_0000_0000 && Pow2(51) == 0x8_0000_0000_0000 && Pow2(52) == 0x10_0000_0000_0000
    ensures Pow2(53) == 0x20_0000_0000_0000 && Pow2(54) == 0x40_0000_0000_0000 && Pow2(55) == 0x80_0000_0000_0000
    ensures Pow2(56) == 0x100_0000_0000_0000 && Pow2(57) == 0x200_0000_0000_0000
    ensures Pow2(58) == 0x400_0000_0000_0000 && Pow2(59) == 0x800_0000_0000_0000
    ensures Pow2(60) == 0x1000_0000_0000_0000 && Pow2(61) == 0x2000_0000_0000_0000
    ensures Pow2(62) == 0x4000_0000_0000_0000 && Pow2(63) == 0x8000_0000_0000_0000
  {
    UnitIsPow2();
  }

  /** The highest bit of a ratio below 2^192; the source tests for 128 bits twice. */
  method RatioMsb(ratio: nat) returns (msb: nat)
    requires 0 < ratio < P192
    ensures FloorLog2(ratio, msb)
  {
    hide Window, Pow2, FloorLog2;
    Pow2Small();
    Pow2Words();
    WindowStart(ratio);
    var r;
    r, msb := ShiftHigh(ratio, ratio, 0, 128, P128);
    WindowWiden(ratio, r, msb);
    r, msb := ShiftHigh(ratio, r, msb, 128, P128);
    r, msb := ShiftHigh(ratio, r, msb, 64, P64);
    r, msb := ShiftHigh(ratio, r, msb, 32, P32);
    r, msb := ShiftHigh(ratio, r, msb, 16, 0x1_0000);
    r, msb := ShiftHigh(ratio, r, msb, 8, 0x100);
    r, msb := ShiftHigh(ratio, r, msb, 4, 0x10);
    r, msb := ShiftHigh(ratio, r, msb, 2, 4);
    r, msb := ShiftHigh(ratio, r, msb, 1, 2);
    WindowEnd(ratio, r, msb);
  }

  lemma {:induction false} NoDigits(r: nat)
    requires P127 <= r < P128
    ensures LogDigits(r, 0) == 0
  {
  }

  lemma {:induction false} WindowWiden(x: nat, y: nat, r: nat)
    requires x < P256 && Window(x, y, r, 128)
    ensures Window(x, y, r, 128 + 128)
  {
    Pow2Mono(128, 256);
  }

  /** The tick found through the logarithm is the greatest tick whose price is at most p. */
  method GetTickAtSqrtRatio(p: nat) returns (tick: int)
    requires MIN_SQRT_RATIO <= p < MAX_SQRT_RATIO
    ensures tick == TickAt(p)
  {
    hide Pow2, FloorLog2, LogDigits, Normalised, SqrtRatioAtTick, TickAt, TickLow, TickHigh;
    var ratio := p * P32;
    var msb := RatioMsb(ratio);
    var r := Normalised(ratio, msb);
    NormalisedRange(ratio, msb);
    BitWeights();
    var log2 := (msb - 128) * P64;
    r, log2 := LogRound(r, log2, 63, 0x8000000000000000);
    r, log2 := LogRound(r, log2, 62, 0x4000000000000000);
    r, log2 := LogRound(r, log2, 61, 0x2000000000000000);
    r, log2 := LogRound(r, log2, 60, 0x1000000000000000);
    r, log2 := LogRound(r, log2, 59, 0x800000000000000);
    r, log2 := LogRound(r, log2, 58, 0x400000000000000);
    r, log2 := LogRound(r, log2, 57, 0x200000000000000);
    r, log2 := LogRound(r, log2, 56, 0x100000000000000);
    r, log2 := LogRound(r, log2, 55, 0x80000000000000);
    r, log2 := LogRound(r, log2, 54, 0x40000000000000);
    r, log2 := LogRound(r, log2, 53, 0x20000000000000);
    r, log2 := LogRound(r, log2, 52, 0x10000000000000);
    r, log2 := LogRound(r, log2, 51, 0x8000000000000);
    r, log2 := LogRound(r, log2, 50, 0x4000000000000);
    NoDigits(r);
    var tickLow, tickHigh := TickLow(log2), TickHigh(log2);
    CandidatesBracket(p, ratio, msb, log2);
    TickAtGalois(p, tickHigh);
    tick := if tickLow == tickHigh then tickLow
            else if SqrtRatioAtTick(tickHigh) <= p then tickHigh else tickLow;
  }
}
