/** The StableSwap invariant of a set of balances, searched for from their sum. */
module InvariantSearch {
  import opened Arithmetic
  import opened Means
  import opened Results
  import opened StableSwap
  import opened CoinBalance

  /** How far the two sides of the invariant are apart at d, given the product p there. */
  ghost function Gap(s: nat, d: int, ann: nat, unit: nat, p: int): int
    requires 0 < unit
  {
    ann * s / unit - (ann - unit) * d / unit - p
  }

  ghost function Slope(d: int, ann: nat, unit: nat, n: nat, p: int): int
    requires 0 < unit
  {
    (ann - unit) * d / unit + (n + 1) * p
  }

  /** d is at most one step of at most one away from a value where the two sides of
      the invariant differ by less than two units of d. */
  ghost predicate NearInvariant(xp: seq<nat>, ann: nat, n: nat, extra: nat, unit: nat, d: int, previous: int)
    requires 0 < unit && Divisible(xp, n, extra)
  {
    && 0 <= previous && -1 <= d - previous <= 1
    && var p := Chain(previous, n, extra, xp);
       -Slope(previous, ann, unit, n, p) <= previous * Gap(Sum(xp), previous, ann, unit, p)
         < 2 * Slope(previous, ann, unit, n, p)
  }

  /** The product over the balances, one division at a time. */
  method ChainLoop(d: int, n: nat, extra: nat, xp: seq<nat>) returns (r: Result<int>)
    ensures r == if Divisible(xp, n, extra) then Success(Chain(d, n, extra, xp)) else Failure(ZeroDivision)
  {
    hide Sum, Divisible, Chain;
    var p := d;
    BeforeFirst(xp, d, n, extra);
    for k := 0 to |xp|
      invariant Divisible(xp[..k], n, extra) && p == Chain(d, n, extra, xp[..k])
    {
      ChainSnoc(d, n, extra, xp[..k], xp[k]);
      assert xp[..k] + [xp[k]] == xp[..k + 1];
      if xp[k] * n + extra == 0 {
        ZeroStays(xp[..k + 1], xp[k + 1..], n, extra);
        assert xp[..k + 1] + xp[k + 1..] == xp;
        return Failure(ZeroDivision);
      }
      p := p * d / (xp[k] * n + extra);
    }
    assert xp[..|xp|] == xp;
    r := Success(p);
  }

  lemma {:induction false} BeforeFirst(xp: seq<nat>, d: int, n: nat, extra: nat)
    ensures Divisible(xp[..0], n, extra) && Chain(d, n, extra, xp[..0]) == d
  {
  }

  /** One step of the invariant's iteration. */
  function NextD(s: nat, ann: nat, unit: nat, n: nat, p: int, d: int): Result<int>
    requires 0 < unit
  {
    NewtonD(ann * s / unit, (ann - unit) * d / unit, n, p, d)
  }

  function NewtonD(target: int, slope: int, n: nat, p: int, d: int): Result<int> {
    var divisor := slope + (n + 1) * p;
    if divisor == 0 then Failure(ZeroDivision) else Success(FloorDiv((target + p * n) * d, divisor))
  }

  /** With an amplification of at least one nothing turns negative, and how far a step
      goes measures the gap. */
  lemma {:induction false} StepMeasuresGap(s: nat, ann: nat, unit: nat, n: nat, p: nat, d: nat)
    requires 0 < unit <= ann && NextD(s, ann, unit, n, p, d).Success?
    ensures var next, slope := NextD(s, ann, unit, n, p, d).value, Slope(d, ann, unit, n, p);
            && 0 <= next && 0 < slope
            && (next - d) * slope <= d * Gap(s, d, ann, unit, p) < (next - d + 1) * slope
  {
    RatioSign(ann - unit, d, unit);
    RatioSign(ann, s, unit);
    NewtonBracket(ann * s / unit, (ann - unit) * d / unit, n, p, d);
  }

  lemma {:induction false} NewtonBracket(target: nat, slope: nat, n: nat, p: nat, d: nat)
    requires NewtonD(target, slope, n, p, d).Success?
    ensures var next, den := NewtonD(target, slope, n, p, d).value, slope + (n + 1) * p;
            && 0 <= next && 0 < den
            && (next - d) * den <= d * (target - slope - p) < (next - d + 1) * den
  {
    MulMono(0, n + 1, p);
    MulMono(0, p, n);
    MulMono(0, target + p * n, d);
    var den := slope + (n + 1) * p;
    FloorGalois((target + p * n) * d, den, 0);
    GapBracket(target, slope, p, n, d, (target + p * n) * d / den);
  }

  lemma {:induction false} SettledNear(xp: seq<nat>, ann: nat, n: nat, extra: nat, unit: nat, d: nat, previous: nat)
    requires 0 < unit <= ann && Divisible(xp, n, extra) && -1 <= d - previous <= 1
    requires NextD(Sum(xp), ann, unit, n, Chain(previous, n, extra, xp), previous) == Success(d)
    ensures NearInvariant(xp, ann, n, extra, unit, d, previous)
  {
    var p := Chain(previous, n, extra, xp);
    StepMeasuresGap(Sum(xp), ann, unit, n, p, previous);
    hide Gap, Slope, Chain, Sum, Divisible, NextD;
    var slope := Slope(previous, ann, unit, n, p);
    MulMono(-1, d - previous, slope);
    MulMono(d - previous + 1, 2, slope);
  }

  /** Where the search for the invariant ended, from where, and whether by itself. */
  datatype Found = Found(d: int, previous: int, settled: bool)

  /** The search from d with so many steps left. */
  ghost function SearchD(xp: seq<nat>, ann: nat, n: nat, extra: nat, unit: nat, d: int, steps: nat): Result<Found>
    requires 0 < unit
    decreases steps
  {
    if steps == 0 then Success(Found(d, d, false))
    else if !Divisible(xp, n, extra) then Failure(ZeroDivision)
    else
      var next :- NextD(Sum(xp), ann, unit, n, Chain(d, n, extra, xp), d);
      if -1 <= next - d <= 1 then Success(Found(next, d, true))
      else SearchD(xp, ann, n, extra, unit, next, steps - 1)
  }

  /** The invariant of the balances: the search starts from their sum. */
  ghost function InvariantOf(xp: seq<nat>, ann: nat, n: nat, extra: nat, unit: nat): Result<Found>
    requires 0 < unit
  {
    if Sum(xp) == 0 then Success(Found(0, 0, true)) else SearchD(xp, ann, n, extra, unit, Sum(xp), MAX_STEPS)
  }

  /** When the search settles, the result is next to a point where the invariant holds
      up to rounding; it cannot start on an empty balance unless all are empty. */
  lemma {:induction false} SettledInvariant(xp: seq<nat>, ann: nat, n: nat, extra: nat, unit: nat, d: nat, steps: nat)
    requires 0 < unit <= ann && 0 < steps
    ensures !Divisible(xp, n, extra) ==> SearchD(xp, ann, n, extra, unit, d, steps) == Failure(ZeroDivision)
    ensures var f := SearchD(xp, ann, n, extra, unit, d, steps);
            f.Success? && f.value.settled ==>
              Divisible(xp, n, extra) && NearInvariant(xp, ann, n, extra, unit, f.value.d, f.value.previous)
    decreases steps
  {
    hide Divisible, Chain, Sum, NearInvariant, NextD;
    if Divisible(xp, n, extra) {
      var next := NextD(Sum(xp), ann, unit, n, Chain(d, n, extra, xp), d);
      if next.Success? {
        StepMeasuresGap(Sum(xp), ann, unit, n, Chain(d, n, extra, xp), d);
        if -1 <= next.value - d <= 1 {
          SettledNear(xp, ann, n, extra, unit, next.value, d);
        } else if 1 < steps {
          SettledInvariant(xp, ann, n, extra, unit, next.value, steps - 1);
        }
      }
    }
  }

  /** Equal balances: the search settles at once, on their sum. */
  lemma {:induction false} BalancedInvariant(xp: seq<nat>, x: nat, ann: nat, unit: nat)
    requires 0 < unit <= ann && xp != [] && 0 < x && forall k :: 0 <= k < |xp| ==> xp[k] == x
    ensures Sum(xp) == |xp| * x
    ensures InvariantOf(xp, ann, |xp|, 0, unit) == Success(Found(|xp| * x, |xp| * x, true))
  {
    var n := |xp|;
    MulPositive(n, x);
    BalancedChain(xp, x, n);
    hide Chain, Sum, Divisible;
    BalancedStep(n * x, ann, unit, n);
  }

  lemma {:induction false} BalancedChain(xp: seq<nat>, x: nat, n: nat)
    requires 0 < x * n && forall k :: 0 <= k < |xp| ==> xp[k] == x
    ensures Divisible(xp, n, 0) && Sum(xp) == |xp| * x && Chain(n * x, n, 0, xp) == n * x
  {
    hide Chain, Sum, Divisible;
    BeforeAny(n * x, n);
    if xp != [] {
      var init := xp[..|xp| - 1];
      assert xp == init + [x];
      BalancedChain(init, x, n);
      ChainSnoc(n * x, n, 0, init, x);
      SquareOver(n * x, x * n + 0);
      OneMoreTerm(|init|, x);
    }
  }

  // ----- against the exact invariant -----

  /** At d the two sides of the exact invariant differ, times d, by at most twice the slope
      and a few units of d; e is what the rounding of the product can lose. */
  ghost predicate SidesNear(d: real, a: real, n: real, sum: real, product: real, e: real) {
    GapSpans(d, a * sum, (a - 1.0) * d, product, Multiple(n, product), e)
  }

  ghost function Multiple(n: real, product: real): real {
    (n + 1.0) * product
  }

  /** The two sides of the exact invariant, but for the product. */
  ghost predicate AreSides(a: real, sum: real, d: real, left: real, part: real) {
    left == a * sum && part == (a - 1.0) * d
  }

  /** left, less part and product, is the gap; part and the multiple of the product are the slope. */
  ghost predicate GapSpans(d: real, left: real, part: real, product: real, multiple: real, e: real) {
    -(part + multiple) - (1.0 + e) * d <= d * (left - part - product) <= 2.0 * (part + multiple) + d
  }

  /** Next to where a search has settled, the exact invariant of the balances holds up to the
      stated error. */
  lemma {:induction false} NearInvariantIsExact(xp: seq<nat>, ann: nat, n: nat, unit: nat, d: int, previous: int)
    requires 0 < unit <= ann && 0 < n && AllHeld(xp)
    requires Divisible(xp, n, 0) && NearInvariant(xp, ann, n, 0, unit, d, previous)
    ensures AllPositive(Reals(xp)) && 0 <= previous
    ensures SidesNear(previous as real, Amplification(ann, unit), n as real, RealSum(Reals(xp)),
                      RealChain(previous as real, n as real, Reals(xp)),
                      Lost(previous as real, n as real, Reals(xp)))
  {
    hide Chain, Sum, RealChain, RealSum, Reals, AllPositive, Divisible, Lost, SidesNear, NearInvariant, Amplification;
    hide Brackets, CodedGapSpans;
    var target, slope := CodedSides(xp, ann, n, unit, d, previous);
    ChainLoses(previous, n, xp);
    SumIsReal(xp);
    var a, p := Amplification(ann, unit), Chain(previous, n, 0, xp);
    var exact, e := RealChain(previous as real, n as real, Reals(xp)), Lost(previous as real, n as real, Reals(xp));
    ExactSides(previous, target, slope, n, p, a, Sum(xp), exact, e);
  }

  ghost predicate CodedGapSpans(d: int, target: int, slope: int, n: nat, p: int) {
    -(slope + (n + 1) * p) <= d * (target - slope - p) < 2 * (slope + (n + 1) * p)
  }

  /** The two rounded sides of the coded invariant, and how they bracket the exact ones. */
  lemma {:induction false} CodedSides(xp: seq<nat>, ann: nat, n: nat, unit: nat, d: int, previous: int)
    returns (target: int, slope: int)
    requires 0 < unit <= ann && Divisible(xp, n, 0) && NearInvariant(xp, ann, n, 0, unit, d, previous)
    ensures var p := Chain(previous, n, 0, xp);
            && 0 <= previous && 0 <= p
            && CodedGapSpans(previous, target, slope, n, p)
    ensures Brackets(Amplification(ann, unit), Sum(xp), previous, target, slope)
  {
    hide Chain, Sum, Divisible, NearInvariant, Amplification, Brackets, CodedGapSpans;
    target, slope := ann * Sum(xp) / unit, (ann - unit) * previous / unit;
    GapIs(xp, ann, n, unit, d, previous, target, slope);
    ScalesNear(ann, unit, Sum(xp), previous, target, slope);
  }

  ghost predicate Brackets(a: real, sum: nat, d: int, target: int, slope: int) {
    && target as real <= a * sum as real < (target + 1) as real
    && slope as real <= (a - 1.0) * d as real < (slope + 1) as real
  }

  lemma {:induction false} ScalesNear(ann: nat, unit: nat, sum: nat, d: nat, target: int, slope: int)
    requires 0 < unit <= ann && target == ann * sum / unit && slope == (ann - unit) * d / unit
    ensures Brackets(Amplification(ann, unit), sum, d, target, slope)
  {
    AmplificationLessOne(ann, unit);
    Scales(ann, sum, unit);
    Scales(ann - unit, d, unit);
  }

  lemma {:induction false} ExactSides(d: nat, target: int, slope: int, n: nat, p: nat, a: real, sum: nat, exact: real,
                                      e: real)
    requires Brackets(a, sum, d, target, slope) && p as real <= exact <= p as real + e
    requires CodedGapSpans(d, target, slope, n, p)
    ensures SidesNear(d as real, a, n as real, sum as real, exact, e)
  {
    hide GapSpans, SidesNear, Brackets, CodedGapSpans, AreSides, Multiple;
    var left, part := BracketedSides(a, sum, d, target, slope);
    GapNear(d, target, slope, n, p, left, part, exact, e);
    SidesAre(d as real, a, n as real, sum as real, exact, e, left, part);
  }

  lemma {:induction false} BracketedSides(a: real, sum: nat, d: nat, target: int, slope: int)
    returns (left: real, part: real)
    requires Brackets(a, sum, d, target, slope)
    ensures AreSides(a, sum as real, d as real, left, part)
    ensures target as real <= left < (target + 1) as real && slope as real <= part < (slope + 1) as real
  {
    left, part := a * sum as real, (a - 1.0) * d as real;
  }

  lemma {:induction false} SidesAre(d: real, a: real, n: real, sum: real, product: real, e: real, left: real,
                                    part: real)
    requires AreSides(a, sum, d, left, part) && GapSpans(d, left, part, product, Multiple(n, product), e)
    ensures SidesNear(d, a, n, sum, product, e)
  {
  }

  lemma {:induction false} GapIs(xp: seq<nat>, ann: nat, n: nat, unit: nat, d: int, previous: int, target: int,
                                 slope: int)
    requires 0 < unit && Divisible(xp, n, 0) && NearInvariant(xp, ann, n, 0, unit, d, previous)
    requires target == ann * Sum(xp) / unit && slope == (ann - unit) * previous / unit
    ensures var p := Chain(previous, n, 0, xp);
            && 0 <= previous && 0 <= p
            && CodedGapSpans(previous, target, slope, n, p)
  {
    hide Chain, Sum, Divisible;
  }

  lemma {:induction false} AmplificationLessOne(ann: nat, unit: nat)
    requires 0 < unit <= ann
    ensures Amplification(ann, unit) == ann as real / unit as real
    ensures (ann - unit) as real / unit as real == Amplification(ann, unit) - 1.0
  {
    LessOne(ann as real, unit as real);
  }

  lemma {:induction false} LessOne(a: real, u: real)
    requires 0.0 < u
    ensures (a - u) / u == a / u - 1.0
  {
    RealRatio(a, u);
    RealRatio(a - u, u);
    NoZeroDivisors((a - u) / u - (a / u - 1.0), u);
  }

  lemma {:induction false} Scales(a: nat, x: nat, u: nat)
    requires 0 < u
    ensures (a * x / u) as real <= a as real / u as real * x as real < (a * x / u + 1) as real
  {
    FloorIsNear(a * x, u);
    CastMul(a, x);
    RealRatio(a as real, u as real);
    RealRatio((a * x) as real, u as real);
    NoZeroDivisors((a * x) as real / u as real - a as real / u as real * x as real, u as real);
  }

  lemma {:induction false} GapNear(d: nat, target: int, slope: int, n: nat, p: nat, left: real, part: real,
                                   exact: real, e: real)
    requires target as real <= left < (target + 1) as real && slope as real <= part < (slope + 1) as real
    requires p as real <= exact <= p as real + e
    requires CodedGapSpans(d, target, slope, n, p)
    ensures GapSpans(d as real, left, part, exact, Multiple(n as real, exact), e)
  {
    var g, m: int := target - slope - p, (n + 1) * p;
    assert m as real <= Multiple(n as real, exact) by { MultipleAtLeast(n, p, exact); }
    assert (d * g) as real == d as real * g as real by { CastMul(d, g); }
    assert -(slope + m) <= d * g < 2 * (slope + m);
    hide CodedGapSpans, Multiple, GapSpans;
    SpansReal(d as real, g as real, (d * g) as real, left, part, exact, Multiple(n as real, exact), e,
              (slope + m) as real, slope as real);
  }

  lemma {:induction false} MultipleAtLeast(n: nat, p: nat, exact: real)
    requires p as real <= exact
    ensures ((n + 1) * p) as real <= Multiple(n as real, exact)
  {
    CastMul(n + 1, p);
    RealMono(p as real, exact, (n + 1) as real);
  }

  lemma {:induction false} SpansReal(x: real, g: real, xg: real, left: real, part: real, exact: real, multiple: real,
                                     e: real, steep: real, slope: real)
    requires 0.0 <= x && xg == x * g && g - 1.0 - e <= left - part - exact <= g + 1.0
    requires slope <= part && -steep <= xg <= 2.0 * steep && steep - slope <= multiple
    ensures GapSpans(x, left, part, exact, multiple, e)
  {
    var gap := left - part - exact;
    RealMono(g - 1.0 - e, gap, x);
    RealMono(gap, g + 1.0, x);
    Spread(x, g, e);
    Bounds(xg, x * gap, (1.0 + e) * x, x, steep, part + multiple);
  }

  lemma {:induction false} Bounds(xg: real, xgap: real, ex: real, x: real, slope: real, exact: real)
    requires -slope <= xg <= 2.0 * slope && slope <= exact && xg - ex <= xgap <= xg + x
    ensures -exact - ex <= xgap <= 2.0 * exact + x
  {
  }

  lemma {:induction false} Spread(x: real, g: real, e: real)
    ensures x * (g - 1.0 - e) == x * g - (1.0 + e) * x && x * (g + 1.0) == x * g + x
  {
  }

  lemma {:induction false} SquareOver(d: nat, e: nat)
    requires 0 < d == e
    ensures d * d / e == d
  {
    FloorUnique(d * d, d, d);
    assert (d + 1) * d == d * d + d;
  }

  lemma {:induction false} OneMoreTerm(n: nat, x: nat)
    ensures (n + 1) * x == n * x + x
  {
  }

  lemma {:induction false} BalancedStep(d: nat, ann: nat, unit: nat, n: nat)
    requires 0 < unit <= ann && 0 < d && 0 < n
    ensures NextD(d, ann, unit, n, d, d) == Success(d)
  {
    MulMono(0, ann - unit, d);
    MulMono(0, ann, d);
    var target, slope := Quotient(ann * d, unit), Quotient((ann - unit) * d, unit);
    FloorBounds(ann * d, unit);
    assert (ann - unit) * d == ann * d - d * unit;
    FloorUnique((ann - unit) * d, unit, ann * d / unit - d);
    assert slope == target - d;
    MulPositive(d, n);
    assert slope + (n + 1) * d == target + d * n;
    var m := target + d * n;
    FloorUnique(m * d, m, d);
    assert (d + 1) * m == m * d + m;
  }

  /** The coin count given, or the number of balances. */
  function Coins(nCoins: nat, xp: seq<nat>): nat {
    if nCoins == 0 then |xp| else nCoins
  }

  method GetD(xp: seq<nat>, amp: nat, aPrecision: nat, nCoins: nat, plusOne: bool) returns (r: Result<int>)
    ensures var n := if nCoins == 0 then |xp| else nCoins;
            var unit := if aPrecision == 0 then 1 else aPrecision;
            var found := InvariantOf(xp, amp * n, n, if plusOne then 1 else 0, unit);
            r == if found.Failure? then Failure(found.error) else Success(found.value.d)
  {
    hide Sum, Divisible, Chain, NextD;
    var s := Total(xp);
    if s == 0 { return Success(0); }
    var n, extra, unit := Coins(nCoins, xp), if plusOne then 1 else 0, Unit(aPrecision);
    var d: int, ann: nat := s, amp * n;
    for i := 0 to MAX_STEPS
      invariant InvariantOf(xp, ann, n, extra, unit) == SearchD(xp, ann, n, extra, unit, d, MAX_STEPS - i)
    {
      var product := ChainLoop(d, n, extra, xp);
      if product.Failure? { return Failure(product.error); }
      var before := d;
      var step := NextD(s, ann, unit, n, product.value, before);
      if step.Failure? { return Failure(step.error); }
      d := step.value;
      if d > before {
        if d - before <= 1 { return Success(d); }
      } else {
        if before - d <= 1 { return Success(d); }
      }
    }
    r := Success(d);
  }

  /** How far a step goes tells how far apart the two sides of the invariant are. */
  lemma {:induction false} GapBracket(target: nat, slope: nat, p: nat, n: nat, before: nat, after: nat)
    requires 0 < slope + (n + 1) * p && after == (target + p * n) * before / (slope + (n + 1) * p)
    ensures var den := slope + (n + 1) * p;
            (after - before) * den <= before * (target - slope - p) < (after - before + 1) * den
  {
    var den, top := slope + (n + 1) * p, (target + p * n) * before;
    FloorBounds(top, den);
    assert top - before * den == before * (target - slope - p) by { GapIdentity(target, slope, p, n, before); }
    assert (after - before) * den == after * den - before * den;
    assert (after - before + 1) * den == (after + 1) * den - before * den;
  }

  lemma {:induction false} GapIdentity(target: int, slope: int, p: int, n: int, before: int)
    ensures (target + p * n) * before - before * (slope + (n + 1) * p) == before * (target - slope - p)
  {
    assert (n + 1) * p == p * n + p;
  }

  method Total(xp: seq<nat>) returns (s: nat)
    ensures s == Sum(xp)
  {
    s := 0;
    for k := 0 to |xp|
      invariant s == Sum(xp[..k])
    {
      assert xp[..k + 1][..k] == xp[..k];
      s := s + xp[k];
    }
    assert xp[..|xp|] == xp;
  }

  /** Solving from the balances alone: first their invariant, then the balance. */
  method GetYFromBalances(amp: nat, i: int, j: int, x: nat, xp: seq<nat>, aPrecision: nat, nCoins: nat, plusOne: bool)
    returns (r: Result<int>)
    requires nCoins <= |xp|
    ensures var n := if nCoins == 0 then |xp| else nCoins;
            if !(0 <= i < n) then r == Failure(AssertionFailed)
            else
              var unit, ys := if aPrecision == 0 then 1 else aPrecision, xp[..n][i := x];
              var xs := if 0 <= j < n && j != i then ys[..j] + ys[j + 1..] else ys;
              var d := InvariantOf(xp, amp * n, n, if plusOne then 1 else 0, unit);
              if d.Failure? then r == Failure(d.error)
              else Solved(xs, d.value.d, amp * n, n, unit, r) && KeepsNearly(xs, d.value.d, amp * n, n, unit, r)
  {
    hide Solved, KeepsNearly, InvariantOf;
    var n := Coins(nCoins, xp);
    if !(0 <= i < n) { return Failure(AssertionFailed); }
    var d := GetD(xp, amp, aPrecision, nCoins, plusOne);
    if d.Failure? { return Failure(d.error); }
    OthersAre(xp, x, i, j, n);
    r := SolveY(xp, x, i, j, d.value, amp * n, n, Unit(aPrecision));
  }
}
