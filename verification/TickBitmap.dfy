/** The bitmap of initialised ticks, one bit per multiple of the tick spacing,
    in words of 256, and the search for the next initialised tick in a word. */
module TickBitmap {
  import opened Arithmetic
  import opened Bits

  // ----- compression -----

  /** Integer quotient of a decimal: truncation towards zero. */
  function Truncate(a: int, b: nat): int
    requires 0 < b
  {
    if a >= 0 then a / b else -(-a / b)
  }

  /** The index of the tick in units of the spacing. */
  function Compress(tick: int, spacing: nat): int
    requires 0 < spacing
  {
    Truncate(tick, spacing) - (if tick < 0 && tick % spacing != 0 then 1 else 0)
  }

  /** The correction for negative ticks turns truncation into the floor. */
  lemma CompressIsFloor(tick: int, spacing: nat)
    requires 0 < spacing
    ensures Compress(tick, spacing) == tick / spacing
  {
    if tick < 0 {
      var q, m := tick / spacing, tick % spacing;
      assert tick == q * spacing + m && 0 <= m < spacing;
      if m == 0 {
        NegatedFloor(-tick, spacing, -q, 0);
      } else {
        assert (-q - 1) * spacing == -(q * spacing) - spacing;
        NegatedFloor(-tick, spacing, -q - 1, spacing - m);
      }
    }
  }

  lemma NegatedFloor(n: nat, d: nat, q: int, m: nat)
    requires m < d && n == q * d + m
    ensures n / d == q
  {
    assert (q + 1) * d == q * d + d;
    FloorUnique(n, d, q);
  }

  /** Word and bit of a compressed tick. */
  function Position(c: int): (int, nat) {
    (c / 256, c % 256)
  }

  // ----- the linear scan the search must agree with -----

  /** From c down: the first set bit of the word, or the bottom of the word. */
  function ScanDown(word: nat, c: int): (int, bool)
    decreases c % 256
  {
    if Bit(word, c % 256) then (c, true)
    else if c % 256 == 0 then (c, false)
    else ScanDown(word, c - 1)
  }

  /** From c up: the first set bit of the word, or the top of the word. */
  function ScanUp(word: nat, c: int): (int, bool)
    decreases 256 - c % 256
  {
    if Bit(word, c % 256) then (c, true)
    else if c % 256 == 255 then (c, false)
    else ScanUp(word, c + 1)
  }

  /** The scan stays in its word, skips only clear bits, and stops short of the word's end only at a set bit. */
  lemma {:induction false} ScanDownNearest(word: nat, c: int)
    ensures var (n, found) := ScanDown(word, c);
            && n <= c && n / 256 == c / 256 && found == Bit(word, n % 256)
            && (found || n % 256 == 0)
            && (forall i | n < i <= c :: !Bit(word, i % 256))
    decreases c % 256
  {
    hide Bit;
    if !Bit(word, c % 256) && c % 256 != 0 { ScanDownNearest(word, c - 1); }
  }

  lemma {:induction false} ScanUpNearest(word: nat, c: int)
    ensures var (n, found) := ScanUp(word, c);
            && c <= n && n / 256 == c / 256 && found == Bit(word, n % 256)
            && (found || n % 256 == 255)
            && (forall i | c <= i < n :: !Bit(word, i % 256))
    decreases 256 - c % 256
  {
    hide Bit;
    if !Bit(word, c % 256) && c % 256 != 255 { ScanUpNearest(word, c + 1); }
  }

  // ----- masking and the highest bit find what the downward scan finds -----

  lemma {:induction false} ScanDownHighest(word: nat, c: int, m: nat)
    requires FloorLog2(Low(word, c % 256 + 1), m)
    ensures ScanDown(word, c) == (c - (c % 256 - m), true)
    decreases c % 256
  {
    hide FloorLog2, Bit, Low;
    var b := c % 256;
    LowStep(word, b);
    if Bit(word, b) {
      TopBit(Low(word, b + 1), b);
      FloorLog2Unique(Low(word, b + 1), m, b);
    } else if b == 0 {
      LowZero(word);
      NoTopBit(m);
    } else {
      ScanDownHighest(word, c - 1, m);
    }
  }

  lemma TopBit(x: nat, b: nat)
    requires Pow2(b) <= x < 2 * Pow2(b)
    ensures FloorLog2(x, b)
  {
  }

  lemma NoTopBit(m: nat)
    ensures !FloorLog2(0, m)
  {
  }

  lemma LowZero(x: nat)
    ensures Low(x, 0) == 0
  {
  }

  lemma {:induction false} ScanDownEmpty(word: nat, c: int)
    requires Low(word, c % 256 + 1) == 0
    ensures ScanDown(word, c) == (c - c % 256, false)
    decreases c % 256
  {
    hide Bit, Low;
    LowStep(word, c % 256);
    if c % 256 != 0 { ScanDownEmpty(word, c - 1); }
  }

  /** The search downwards, as the source masks it. */
  method NextDown(word: nat, compressed: int) returns (next: int, initialised: bool)
    ensures (next, initialised) == ScanDown(word, compressed)
  {
    hide FloorLog2, ScanDown, Low;
    var (_, bitPosition) := Position(compressed);
    var masked := Low(word, bitPosition + 1);
    initialised := masked != 0;
    if initialised {
      var msb := MostSignificantBit(masked);
      MaskedIsWord(word, bitPosition + 1);
      next := compressed - (bitPosition - msb);
      ScanDownHighest(word, compressed, msb);
    } else {
      next := compressed - bitPosition;
      ScanDownEmpty(word, compressed);
    }
  }

  lemma MaskedIsWord(word: nat, n: nat)
    requires n <= 256
    ensures Low(word, n) < P256
  {
    DivMod(word, Pow2(n));
    Pow2Mono(n, 256);
    Pow2Wide();
  }

  // ----- masking and the lowest bit find what the upward scan finds -----

  ghost predicate LowestBit(x: nat, r: nat) {
    Bit(x, r) && Low(x, r) == 0
  }

  lemma LowestBitUnique(x: nat, r: nat, q: nat)
    requires LowestBit(x, r) && LowestBit(x, q)
    ensures r == q
  {
    if r < q { NoBitBelow(x, r, q); }
    if q < r { NoBitBelow(x, q, r); }
  }

  lemma NoBitBelow(x: nat, r: nat, q: nat)
    requires r < q && Low(x, q) == 0
    ensures !Bit(x, r)
  {
    hide Bit, Low, Pow2;
    LowStep(x, r);
    LowPart(x, r + 1, q);
  }

  lemma LowPart(x: nat, n: nat, q: nat)
    requires n <= q && Low(x, q) == 0
    ensures Low(x, n) == 0
  {
    LowSplit(x, n, q - n);
    hide Low, Shr;
    var h := Low(Shr(x, n), q - n);
    MulMono(0, h, Pow2(n));
  }

  /** Clearing the low b bits keeps the bits from b up. */
  lemma HighBits(word: nat, b: nat)
    ensures Low(High(word, b), b) == 0
    ensures Shr(High(word, b), b) == Shr(word, b)
    ensures Bit(word, b) ==> LowestBit(High(word, b), b)
    ensures !Bit(word, b) ==> High(word, b + 1) == High(word, b)
  {
    var p, q := Pow2(b), Shr(word, b);
    DivMod(word, p);
    ModUnique(High(word, b), p, q, 0);
    LowStep(word, b);
  }

  lemma {:induction false} ScanUpLowest(word: nat, c: int, r: nat)
    requires word < P256 && LowestBit(High(word, c % 256), r)
    ensures ScanUp(word, c) == (c + (r - c % 256), true)
    decreases 256 - c % 256
  {
    hide Bit, High, Low;
    var b := c % 256;
    HighBits(word, b);
    if Bit(word, b) {
      LowestBitUnique(High(word, b), r, b);
    } else if b == 255 {
      HighEmpty(word);
      NoLowestBit(r);
    } else {
      ScanUpLowest(word, c + 1, r);
    }
  }

  lemma NoLowestBit(r: nat)
    ensures !LowestBit(0, r)
  {
    DivMod(0, Pow2(r));
    FloorUnique(0, Pow2(r), 0);
  }

  lemma HighEmpty(word: nat)
    requires word < P256
    ensures High(word, 256) == 0
  {
    Pow2Wide();
    ModUnique(word, Pow2(256), 0, word);
  }

  lemma {:induction false} ScanUpEmpty(word: nat, c: int)
    requires High(word, c % 256) == 0
    ensures ScanUp(word, c) == (c + (255 - c % 256), false)
    decreases 256 - c % 256
  {
    hide Bit, High, Low;
    HighBits(word, c % 256);
    NoLowestBit(c % 256);
    if c % 256 != 255 { ScanUpEmpty(word, c + 1); }
  }

  /** The search upwards, as the source masks it. */
  method NextUp(word: nat, compressed: int) returns (next: int, initialised: bool)
    requires word < P256
    ensures (next, initialised) == ScanUp(word, compressed)
  {
    hide ScanUp, High, Low, Bit;
    var (_, bitPosition) := Position(compressed);
    var masked := High(word, bitPosition);
    initialised := masked != 0;
    if initialised {
      var lsb := LeastSignificantBit(masked);
      HighIsWord(word, bitPosition);
      next := compressed + (lsb - bitPosition);
      ScanUpLowest(word, compressed, lsb);
    } else {
      next := compressed + (255 - bitPosition);
      ScanUpEmpty(word, compressed);
    }
  }

  lemma HighIsWord(word: nat, b: nat)
    requires word < P256
    ensures Low(High(word, b), 256) == High(word, b)
  {
    Pow2Wide();
    DivMod(word, Pow2(b));
    ModUnique(High(word, b), Pow2(256), 0, High(word, b));
  }
}
