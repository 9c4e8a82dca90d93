/** Bits of naturals, and the position of the highest and lowest set bit. */
module Bits {
  import opened Arithmetic

  /** x >> i. */
  function Shr(x: nat, i: nat): nat {
    DivMod(x, Pow2(i));
    x / Pow2(i)
  }

  /** Bit i of x is set. */
  predicate Bit(x: nat, i: nat) {
    Shr(x, i) % 2 != 0
  }

  /** x & (2^i - 1). */
  function Low(x: nat, i: nat): nat {
    x % Pow2(i)
  }

  /** x & ~(2^i - 1). */
  function High(x: nat, i: nat): nat {
    DivMod(x, Pow2(i));
    x - Low(x, i)
  }

  lemma {:induction false} HalfSplit(n: nat, p: nat, d: nat)
    requires 0 < p && d == 2 * p
    ensures n % d == n % p + (if n / p % 2 != 0 then p else 0)
    ensures n / d == n / p / 2 && n % p < p
  {
    var q, m := n / p, n % p;
    var h := q / 2;
    DivMod(n, p);
    assert 2 * h * p == h * d;
    if q % 2 == 0 {
      ModUnique(n, d, h, m);
    } else {
      assert q * p == 2 * h * p + p by { assert q == 2 * h + 1; }
      ModUnique(n, d, h, p + m);
    }
  }

  /** The low i + 1 bits are the low i bits and bit i. */
  lemma {:induction false} LowStep(x: nat, i: nat)
    ensures Low(x, i + 1) == Low(x, i) + (if Bit(x, i) then Pow2(i) else 0)
    ensures Low(x, i) < Pow2(i)
  {
    HalfSplit(x, Pow2(i), Pow2(i + 1));
  }

  /** The low i + j bits are the low i bits and, above them, the low j bits of the rest. */
  lemma {:induction false} LowSplit(x: nat, i: nat, j: nat)
    ensures Low(x, i + j) == Low(x, i) + Low(Shr(x, i), j) * Pow2(i)
    ensures Shr(x, i + j) == Shr(Shr(x, i), j)
  {
    hide Pow2;
    Pow2Add(i, j);
    DivModTwice(x, Pow2(i), Pow2(j), Pow2(i + j));
  }

  lemma {:induction false} DivModTwice(x: nat, p: nat, q: nat, d: nat)
    requires 0 < p && 0 < q && d == p * q
    ensures x % d == x % p + x / p % q * p && x / d == x / p / q
  {
    DivMod(x, p);
    DivMod(x / p, q);
    var h, m, l := x / p / q, x / p % q, x % p;
    assert (h * q + m) * p == h * d + m * p by { MulAssoc(h, q, p); assert q * p == d; }
    MulMono(m + 1, q, p);
    MulMono(0, m, p);
    assert (m + 1) * p == m * p + p;
    ModUnique(x, d, h, m * p + l);
  }

  // ----- the highest set bit -----

  ghost predicate FloorLog2(x: nat, m: nat) {
    Pow2(m) <= x < Pow2(m + 1)
  }

  lemma {:induction false} FloorLog2Unique(x: nat, m: nat, n: nat)
    requires FloorLog2(x, m) && FloorLog2(x, n)
    ensures m == n
  {
    hide Pow2;
    if m < n { Pow2Mono(m + 1, n); }
    if n < m { Pow2Mono(n + 1, m); }
  }

  /** y is x shifted right by r, and has at most w bits, at least one of them set. */
  ghost predicate Shifted(x: nat, y: nat, r: nat, w: nat) {
    y == Shr(x, r) && 0 < y < Pow2(w)
  }

  /** Halving the window: shift by w when y has more than w bits. */
  lemma {:induction false} HalveWindow(x: nat, y: nat, r: nat, w: nat)
    requires Shifted(x, y, r, w + w)
    ensures Pow2(w) <= y ==> Shifted(x, y / Pow2(w), r + w, w)
    ensures y < Pow2(w) ==> Shifted(x, y, r, w)
  {
    if Pow2(w) <= y {
      LowSplit(x, r, w);
      Pow2Add(w, w);
      FloorGalois(y, Pow2(w), 1);
      FloorGalois(y, Pow2(w), Pow2(w));
    }
  }

  /** A window of one bit is the answer. */
  lemma {:induction false} LastWindow(x: nat, y: nat, r: nat)
    requires Shifted(x, y, r, 1)
    ensures FloorLog2(x, r)
  {
    assert Pow2(1) == 2;
    FloorBounds(x, Pow2(r));
  }

  /** A number too wide for the window stays too wide. */
  lemma {:induction false} StaysWide(y: nat, w: nat)
    requires Pow2(w + w) <= y
    ensures Pow2(w) <= y && Pow2(w) <= y / Pow2(w)
  {
    Pow2Add(w, w);
    Pow2Mono(w, w + w);
    FloorGalois(y, Pow2(w), Pow2(w));
  }

  ghost predicate Window(x: nat, y: nat, r: nat, w: nat) {
    if x < P256 then Shifted(x, y, r, w) else Pow2(w) <= y && r + w == 256
  }

  /** One shift of the search for the highest bit: over-wide numbers saturate at bit 255. */
  lemma {:induction false} WindowStep(x: nat, y: nat, r: nat, w: nat, p: nat)
    requires Window(x, y, r, w + w) && p == Pow2(w)
    ensures if p <= y then Window(x, y / p, r + w, w) else Window(x, y, r, w)
  {
    hide Shifted;
    if x < P256 { HalveWindow(x, y, r, w); } else { StaysWide(y, w); }
  }

  lemma {:induction false} WindowStart(x: nat)
    requires 0 < x
    ensures Window(x, x, 0, 256)
  {
    Pow2Wide();
  }

  lemma {:induction false} WindowEnd(x: nat, y: nat, r: nat)
    requires Window(x, y, r, 1)
    ensures if x < P256 then FloorLog2(x, r) else r == 255
  {
    if x < P256 { LastWindow(x, y, r); }
  }

  /** One conditional shift of the search: `if y >= p { y >>= w; r += w }`. */
  method ShiftHigh(ghost x: nat, y: nat, r: nat, w: nat, p: nat) returns (z: nat, q: nat)
    requires Window(x, y, r, w + w) && p == Pow2(w)
    ensures Window(x, z, q, w)
  {
    WindowStep(x, y, r, w, p);
    z, q := y, r;
    if y >= p { z, q := y / p, r + w; }
  }

  /** Highest set bit; numbers of more than 256 bits report 255. */
  method MostSignificantBit(x: nat) returns (r: nat)
    requires x > 0
    ensures if x < P256 then FloorLog2(x, r) else r == 255
  {
    hide Window, Pow2, FloorLog2;
    Pow2Small();
    Pow2Words();
    WindowStart(x);
    var y;
    y, r := ShiftHigh(x, x, 0, 128, P128);
    y, r := ShiftHigh(x, y, r, 64, P64);
    y, r := ShiftHigh(x, y, r, 32, P32);
    y, r := ShiftHigh(x, y, r, 16, 0x1_0000);
    y, r := ShiftHigh(x, y, r, 8, 0x100);
    y, r := ShiftHigh(x, y, r, 4, 0x10);
    y, r := ShiftHigh(x, y, r, 2, 4);
    y, r := ShiftHigh(x, y, r, 1, 2);
    WindowEnd(x, y, r);
  }

  /** `if y >> w != 0 { y >>= w; r += w }`, which also passes zero through. */
  method ShiftNonzero(ghost x: nat, y: nat, r: nat, w: nat, p: nat) returns (z: nat, q: nat)
    requires (if x == 0 then y == 0 && r == 0 else Window(x, y, r, w + w)) && p == Pow2(w)
    ensures if x == 0 then z == 0 && q == 0 else Window(x, z, q, w)
  {
    ShiftedOut(y, p);
    if x != 0 { WindowStep(x, y, r, w, p); }
    z, q := y, r;
    if y / p != 0 { z, q := y / p, r + w; }
  }

  /** log2 rounded down, or up on request; 0 for 0, and 255 before rounding for more than 256 bits. */
  method SnekmateLog2(x: nat, roundup: bool) returns (result: nat)
    ensures !roundup && 0 < x < P256 ==> FloorLog2(x, result)
    ensures roundup && 0 < x < P256 ==> x <= Pow2(result) && (0 < result ==> Pow2(result - 1) < x)
    ensures x == 0 ==> result == 0
    ensures P256 <= x ==> result == (if roundup && P256 / 2 < x then 256 else 255)
  {
    hide Window, Pow2;
    Pow2Small();
    Pow2Words();
    if x != 0 { WindowStart(x); }
    var value;
    value, result := ShiftNonzero(x, x, 0, 128, P128);
    value, result := ShiftNonzero(x, value, result, 64, P64);
    value, result := ShiftNonzero(x, value, result, 32, P32);
    value, result := ShiftNonzero(x, value, result, 16, 0x1_0000);
    value, result := ShiftNonzero(x, value, result, 8, 0x100);
    value, result := ShiftNonzero(x, value, result, 4, 0x10);
    value, result := ShiftNonzero(x, value, result, 2, 4);
    value, result := ShiftNonzero(x, value, result, 1, 2);
    if x != 0 { WindowEnd(x, value, result); }
    Pow2Step(result);
    if P256 <= x { Pow2Top(result); }
    if roundup && Pow2(result) < x { result := result + 1; }
  }

  lemma {:induction false} Pow2Top(n: nat)
    requires n == 255
    ensures 2 * Pow2(n) == P256
  {
    Pow2Wide();
    assert Pow2(n + 1) == 2 * Pow2(n);
  }

  lemma {:induction false} Pow2Step(n: nat)
    ensures Pow2(n + 1) == 2 * Pow2(n) && Pow2(0) == 1 && (0 < n ==> Pow2(n - 1) < Pow2(n))
  {
  }

  /** A shifted number is nonzero exactly when the number reaches the shift. */
  lemma {:induction false} ShiftedOut(y: nat, p: nat)
    requires 0 < p
    ensures y / p != 0 <==> p <= y
  {
    FloorGalois(y, p, 1);
    FloorGalois(y, p, 0);
  }

  // ----- the lowest set bit -----

  /** y is x shifted right by b, nothing was lost, and one of its low w bits is set. */
  ghost predicate Trimmed(x: nat, y: nat, b: nat, w: nat) {
    y == Shr(x, b) && Low(x, b) == 0 && (Low(x, 256) != 0 ==> Low(y, w) != 0)
  }

  lemma {:induction false} TrimStep(x: nat, y: nat, b: nat, w: nat, p: nat)
    requires Trimmed(x, y, b, w + w) && p == Pow2(w)
    ensures if y % p > 0 then Trimmed(x, y, b, w) else Trimmed(x, y / p, b + w, w)
  {
    LowSplit(y, 0, w);
    if y % p == 0 {
      LowSplit(x, b, w);
      LowSplit(y, w, w);
    }
  }

  lemma {:induction false} TrimStart(x: nat)
    ensures Trimmed(x, x, 0, 256)
  {
    assert Pow2(0) == 1;
  }

  /** `if y & (p - 1) > 0 { r -= w } else { y >>= w }`; the lowest bit is r - (w - 1) at least. */
  method ShiftLow(ghost x: nat, y: nat, r: nat, w: nat, p: nat) returns (z: nat, q: nat)
    requires w + w <= r + 1 <= 256 && Trimmed(x, y, r + 1 - (w + w), w + w) && p == Pow2(w)
    ensures w <= q + 1 <= 256 && Trimmed(x, z, q + 1 - w, w)
  {
    TrimStep(x, y, r + 1 - (w + w), w, p);
    if y % p > 0 { z, q := y, r - w; } else { z, q := y / p, r; }
  }

  /** Lowest set bit of the low 256 bits; 255 if they are all clear. */
  method LeastSignificantBit(x: nat) returns (r: nat)
    requires x > 0
    ensures r <= 255 && (Low(x, 256) != 0 ==> Bit(x, r) && Low(x, r) == 0)
  {
    hide Trimmed, Pow2, Low, Bit;
    Pow2Small();
    Pow2Words();
    TrimStart(x);
    var y;
    y, r := ShiftLow(x, x, 255, 128, P128);
    y, r := ShiftLow(x, y, r, 64, P64);
    y, r := ShiftLow(x, y, r, 32, P32);
    y, r := ShiftLow(x, y, r, 16, 0x1_0000);
    y, r := ShiftLow(x, y, r, 8, 0x100);
    y, r := ShiftLow(x, y, r, 4, 0x10);
    y, r := ShiftLow(x, y, r, 2, 4);
    y, r := ShiftLow(x, y, r, 1, 2);
    TrimEnd(x, y, r);
  }

  lemma {:induction false} TrimEnd(x: nat, y: nat, b: nat)
    requires Trimmed(x, y, b, 1)
    ensures Low(x, 256) != 0 ==> Bit(x, b) && Low(x, b) == 0
  {
    assert Pow2(1) == 2;
  }
}
