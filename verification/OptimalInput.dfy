/** The input of the most profitable trade through a chain, as the code sets it up. */
module OptimalInput {
  import opened Arithmetic
  import opened Results
  import opened Formula

  // ----- the coefficients as coded -----

  function ReservesIn(hops: seq<Hop>): nat {
    if hops == [] then 1
    else
      MulMono(0, ReservesIn(hops[..|hops| - 1]), hops[|hops| - 1].reserveIn);
      ReservesIn(hops[..|hops| - 1]) * hops[|hops| - 1].reserveIn
  }

  function ReservesOut(hops: seq<Hop>): nat {
    if hops == [] then 1
    else
      MulMono(0, ReservesOut(hops[..|hops| - 1]), hops[|hops| - 1].reserveOut);
      ReservesOut(hops[..|hops| - 1]) * hops[|hops| - 1].reserveOut
  }

  /** The fee of the first pool with the highest fee share, or (0, 0) when none takes any. */
  function Dearest(hops: seq<Hop>): (nat, nat) {
    if hops == [] then (0, 0)
    else
      var before, h := Dearest(hops[..|hops| - 1]), hops[|hops| - 1];
      if h.s > before.1 then (h.n, h.s) else before
  }

  /** One summand of the code's k: every one of them uses all output reserves but the last. */
  ghost function Summand(hops: seq<Hop>, n: nat, m: int, j: nat): int
    requires j < |hops|
  {
    Power(m, j + 1) * Power(n, |hops| - j - 1) * ReservesOut(hops[..|hops| - 1]) * ReservesIn(hops[j + 1..])
  }

  ghost function Summands(hops: seq<Hop>, n: nat, m: int, j: nat): int
    requires j <= |hops|
  {
    if j <= 1 then 0 else Summands(hops, n, m, j - 1) + Summand(hops, n, m, j - 1)
  }

  ghost function CodedK(hops: seq<Hop>, n: nat, m: int): int
    requires hops != []
  {
    m * Power(n, |hops| - 1) * ReservesIn(hops[1..]) + Summands(hops, n, m, |hops|)
  }

  /** The coefficients of the code's quadratic, highest first. */
  ghost function CodedQuadratic(hops: seq<Hop>, n: nat, m: int): (int, int, int)
    requires hops != []
  {
    var k, b, a := CodedK(hops, n, m), Power(n, |hops|) * ReservesIn(hops), Power(m, |hops|) * ReservesOut(hops);
    (k * k, 2 * b * k, b * b - b * a)
  }

  /** The quadratic of the code. The product helper it calls for chains of two and more is
      not defined in the module; whether it is available is a parameter. */
  method OptimalCoefficients(data: seq<Hop>, prodDefined: bool) returns (r: Result<(int, int, int)>)
    ensures data == [] ==> r == Failure(ZeroDivision)
    ensures 2 <= |data| && !prodDefined ==> r == Failure(UndefinedName)
    ensures data != [] && (|data| == 1 || prodDefined) ==>
              r == Success(CodedQuadratic(data, Dearest(data).0, Dearest(data).0 - Dearest(data).1))
  {
    if data == [] { return Failure(ZeroDivision); }
    hide CodedK, Summand, Power;
    var h := |data|;
    var n: nat, s: nat := 0, 0;
    var inFromSecond, inAll, outAll := 1, 1, 1;
    for idx := 0 to h
      invariant (n, s) == Dearest(data[..idx])
      invariant inFromSecond == if idx == 0 then 1 else ReservesIn(data[1..idx])
      invariant inAll == ReservesIn(data[..idx]) && outAll == ReservesOut(data[..idx])
    {
      assert data[..idx + 1][..idx] == data[..idx];
      if data[idx].s > s { n, s := data[idx].n, data[idx].s; }
      if idx > 0 {
        assert data[1..idx + 1][..idx - 1] == data[1..idx];
        inFromSecond := inFromSecond * data[idx].reserveIn;
      } else {
        assert data[1..1] == [];
      }
      inAll := inAll * data[idx].reserveIn;
      outAll := outAll * data[idx].reserveOut;
    }
    assert data[..h] == data && data[1..h] == data[1..];
    if h >= 2 && !prodDefined { return Failure(UndefinedName); }
    var sum := CodedSum(data, n, n - s);
    var k := (n - s) * Power(n, h - 1) * inFromSecond + sum;
    assert k == CodedK(data, n, n - s) by { CodedKIs(data, n, n - s); }
    var b := Power(n, h) * inAll;
    CodedC(Power(n - s, h), Power(n, h), inAll, outAll);
    r := Success((k * k, 2 * Power(n, h) * inAll * k, b * b - Power(n - s, h) * Power(n, h) * inAll * outAll));
    CodedB(Power(n, h), inAll, k);
  }

  lemma {:induction false} CodedKIs(data: seq<Hop>, n: nat, m: int)
    requires data != []
    ensures CodedK(data, n, m) == m * Power(n, |data| - 1) * ReservesIn(data[1..]) + Summands(data, n, m, |data|)
  {
  }

  lemma {:induction false} CodedC(pm: int, pn: int, inAll: int, outAll: int)
    ensures pm * pn * inAll * outAll == pn * inAll * (pm * outAll)
  {
    assert pm * pn * inAll * outAll == pm * (pn * inAll) * outAll;
    assert pn * inAll * (pm * outAll) == pn * inAll * pm * outAll;
  }

  lemma {:induction false} CodedB(pn: int, inAll: int, k: int)
    ensures 2 * pn * inAll * k == 2 * (pn * inAll) * k
  {
  }

  /** The code's sum over the later pools. */
  method CodedSum(data: seq<Hop>, n: nat, m: int) returns (sum: int)
    requires data != []
    ensures sum == Summands(data, n, m, |data|)
  {
    hide Power, ReservesOut;
    var h := |data|;
    sum := 0;
    for j := 1 to h
      invariant sum == Summands(data, n, m, j)
    {
      var outWithoutLast := ReservesOut(data[..h - 1]);
      var reservesIn := 1;
      for i := 0 to h - j - 1
        invariant reservesIn == ReservesIn(data[j + 1..j + 1 + i])
      {
        assert data[j + 1..j + 2 + i][..i] == data[j + 1..j + 1 + i];
        reservesIn := reservesIn * data[i + j + 1].reserveIn;
      }
      assert data[j + 1..h] == data[j + 1..];
      sum := sum + Power(m, j + 1) * Power(n, h - j - 1) * outWithoutLast * reservesIn;
    }
  }

  // ----- coded against closed form, for chains with one fee -----

  ghost predicate OneFee(hops: seq<Hop>, n: nat, s: nat) {
    s < n && forall k :: 0 <= k < |hops| ==> hops[k].n == n && hops[k].s == s
  }

  /** With one fee, the two ends of the closed form are the products the code takes. */
  lemma {:induction false} ClosedFormProducts(hops: seq<Hop>, n: nat, s: nat)
    requires OneFee(hops, n, s)
    ensures AllPriced(hops)
    ensures ClosedForm(hops).a == Power(n - s, |hops|) * ReservesOut(hops)
    ensures ClosedForm(hops).b == Power(n, |hops|) * ReservesIn(hops)
  {
    if hops != [] {
      var init, h := hops[..|hops| - 1], hops[|hops| - 1];
      ClosedFormProducts(init, n, s);
      Regrouped(n - s, h.reserveOut, Power(n - s, |init|), ReservesOut(init));
      Regrouped(n, h.reserveIn, Power(n, |init|), ReservesIn(init));
    }
  }

  lemma {:induction false} Regrouped(m: int, r: int, p: int, q: int)
    ensures m * r * (p * q) == m * p * (q * r)
  {
    Exchange(m, r, p, q);
  }

  lemma {:induction false} DearestOfOneFee(hops: seq<Hop>, n: nat, s: nat)
    requires OneFee(hops, n, s)
    ensures Dearest(hops) == if hops != [] && 0 < s then (n, s) else (0, 0)
  {
    if hops != [] { DearestOfOneFee(hops[..|hops| - 1], n, s); }
  }

  // ----- the coded k -----

  /** What the code's k becomes when the chain grows by one pool. */
  lemma {:induction false} CodedKGrows(hops: seq<Hop>, n: nat, m: int)
    requires 2 <= |hops|
    ensures var init, l, o := hops[..|hops| - 1], hops[|hops| - 1], hops[|hops| - 2].reserveOut;
            CodedK(hops, n, m)
            == n * l.reserveIn * (CodedK(init, n, m) + (o - 1) * Summands(init, n, m, |init|))
             + m * (Power(m, |init|) * ReservesOut(init))
  {
    var init, l, o := hops[..|hops| - 1], hops[|hops| - 1], hops[|hops| - 2].reserveOut;
    var e := |init|;
    SummandsGrow(hops, n, m, e);
    assert hops[1..][..e - 1] == init[1..] && hops[e + 1..] == [];
    var p, q, sum := Power(n, e - 1), ReservesIn(init[1..]), Summands(init, n, m, e);
    assert Power(n, e) == n * p && Power(n, 0) == 1 && Power(m, e + 1) == m * Power(m, e);
    assert ReservesIn(hops[1..]) == q * l.reserveIn;
    hide Power, ReservesIn, ReservesOut, Summands;
    assert Summand(hops, n, m, e) == m * Power(m, e) * 1 * ReservesOut(init) * 1 by { NoReserves(); }
    LastSummand(hops, n, m, e);
    MulAssoc(m, Power(m, e), ReservesOut(init));
    GrownTerms(m, n, l.reserveIn, o, p, q, sum);
  }

  lemma {:induction false} NoReserves()
    ensures ReservesIn([]) == 1
  {
  }

  lemma {:induction false} LastSummand(hops: seq<Hop>, n: nat, m: int, j: nat)
    requires 1 <= j < |hops|
    ensures Summands(hops, n, m, j + 1) == Summands(hops, n, m, j) + Summand(hops, n, m, j)
  {
  }

  lemma {:induction false} GrownTerms(m: int, n: int, r: int, o: int, p: int, q: int, sum: int)
    ensures m * (n * p) * (q * r) + n * r * o * sum == n * r * (m * p * q + sum + (o - 1) * sum)
  {
    var c := n * r;
    assert m * (n * p) * (q * r) == c * (m * p * q) by { Regroup(m, n, p, q, r); }
    assert (o - 1) * sum == o * sum - sum;
    assert c * o * sum == c * (o * sum);
  }

  lemma {:induction false} Regroup(m: int, n: int, p: int, q: int, r: int)
    ensures m * (n * p) * (q * r) == n * r * (m * p * q)
  {
    assert m * (n * p) == n * (m * p);
    Exchange(n, m * p, r, q);
    assert n * (m * p) * (r * q) == n * r * (m * p * q);
  }

  lemma {:induction false} SummandsGrow(hops: seq<Hop>, n: nat, m: int, j: nat)
    requires 2 <= |hops| && j < |hops|
    ensures Summands(hops, n, m, j)
         == n * hops[|hops| - 1].reserveIn * hops[|hops| - 2].reserveOut * Summands(hops[..|hops| - 1], n, m, j)
  {
    if 1 < j {
      SummandsGrow(hops, n, m, j - 1);
      SummandGrows(hops, n, m, j - 1);
      var init := hops[..|hops| - 1];
      hide Summand;
      Distribute(n * hops[|hops| - 1].reserveIn * hops[|hops| - 2].reserveOut,
                 Summands(init, n, m, j - 1), Summand(init, n, m, j - 1));
    }
  }

  lemma {:induction false} Distribute(c: int, x: int, y: int)
    ensures c * (x + y) == c * x + c * y
  {
  }

  lemma {:induction false} SummandGrows(hops: seq<Hop>, n: nat, m: int, j: nat)
    requires 1 <= j < |hops| - 1
    ensures Summand(hops, n, m, j)
         == n * hops[|hops| - 1].reserveIn * hops[|hops| - 2].reserveOut * Summand(hops[..|hops| - 1], n, m, j)
  {
    var init, e := hops[..|hops| - 1], |hops| - 1;
    assert init[..e - 1] == hops[..e - 1] && hops[j + 1..][..e - j - 1] == init[j + 1..];
    assert Power(n, e - j) == n * Power(n, e - j - 1);
    var p, q, out, into := Power(m, j + 1), Power(n, e - j - 1), ReservesOut(init[..e - 1]), ReservesIn(init[j + 1..]);
    var o, r := hops[e - 1].reserveOut, hops[e].reserveIn;
    assert ReservesOut(init) == out * o && ReservesIn(hops[j + 1..]) == into * r;
    hide Power, ReservesOut, ReservesIn;
    Factors(p, n, q, out, o, into, r);
  }

  lemma {:induction false} Factors(p: int, n: int, q: int, out: int, o: int, into: int, r: int)
    ensures p * (n * q) * (out * o) * (into * r) == n * r * o * (p * q * out * into)
  {
    assert p * (n * q) == n * (p * q);
    Exchange(n, p * q, o, out);
    assert n * (p * q) * (out * o) == n * o * (p * q * out);
    Exchange(n * o, p * q * out, r, into);
    assert n * o * r == n * r * o;
  }

  ghost function Excess(c: int, before: int, o: int, sum: int): int {
    c * (before + (o - 1) * sum)
  }

  /** By how much more the code's k is too large after one more pool. */
  lemma {:induction false} CodedKExcess(hops: seq<Hop>, n: nat, s: nat)
    requires OneFee(hops, n, s) && 2 <= |hops|
    ensures AllPriced(hops)
    ensures var init, l, o := hops[..|hops| - 1], hops[|hops| - 1], hops[|hops| - 2].reserveOut;
            CodedK(hops, n, n - s) - ClosedForm(hops).k
            == Excess(n * l.reserveIn, CodedK(init, n, n - s) - ClosedForm(init).k, o,
                      Summands(init, n, n - s, |init|))
  {
    var init, l, o := hops[..|hops| - 1], hops[|hops| - 1], hops[|hops| - 2].reserveOut;
    CodedKGrows(hops, n, n - s);
    ClosedFormProducts(init, n, s);
    ClosedKGrows(hops, n, s);
    hide CodedK, ClosedForm, Summands, Power, ReservesOut;
    Difference(n * l.reserveIn, CodedK(init, n, n - s), (o - 1) * Summands(init, n, n - s, |init|), ClosedForm(init).k);
  }

  lemma {:induction false} ClosedKGrows(hops: seq<Hop>, n: nat, s: nat)
    requires OneFee(hops, n, s) && 2 <= |hops|
    ensures AllPriced(hops)
    ensures var init, l := hops[..|hops| - 1], hops[|hops| - 1];
            ClosedForm(hops).k == n * l.reserveIn * ClosedForm(init).k + (n - s) * ClosedForm(init).a
  {
  }

  lemma {:induction false} Difference(c: int, x: int, y: int, z: int)
    ensures c * (x + y) - c * z == c * (x - z + y)
  {
  }

  /** Every pool but the first and the last has an output reserve of one. */
  ghost predicate InnerOutsAreOne(hops: seq<Hop>) {
    forall i :: 1 <= i < |hops| - 1 ==> hops[i].reserveOut == 1
  }

  /** For every chain with one fee the code's k is never too small, and it is right exactly
      when the inner output reserves are all one, as they are when there are none. */
  lemma {:induction false} CodedKRightWhen(hops: seq<Hop>, n: nat, s: nat)
    requires OneFee(hops, n, s) && hops != []
    ensures AllPriced(hops)
    ensures InnerOutsAreOne(hops) ==> CodedK(hops, n, n - s) == ClosedForm(hops).k
    ensures Trading(hops) ==> ClosedForm(hops).k <= CodedK(hops, n, n - s)
    ensures Trading(hops) ==> (CodedK(hops, n, n - s) == ClosedForm(hops).k <==> InnerOutsAreOne(hops))
  {
    if |hops| == 1 {
      assert hops == [hops[0]];
      OnePool(hops[0], n, s);
    } else {
      hide CodedK, ClosedForm, Summands, Excess, InnerOutsAreOne;
      var init, l, o := hops[..|hops| - 1], hops[|hops| - 1], hops[|hops| - 2].reserveOut;
      CodedKRightWhen(init, n, s);
      CodedKExcess(hops, n, s);
      InnerOfInit(hops);
      NoSummands(init, n, n - s);
      var sum, before := Summands(init, n, n - s, |init|), CodedK(init, n, n - s) - ClosedForm(init).k;
      NoExcess(n * l.reserveIn, before, o, sum);
      if Trading(hops) {
        SummandsPositive(init, n, n - s, |init|);
        MulPositive(n, l.reserveIn);
        SomeExcess(n * l.reserveIn, before, o, sum);
      }
    }
  }

  lemma {:induction false} NoSummands(hops: seq<Hop>, n: nat, m: int)
    ensures |hops| <= 1 ==> Summands(hops, n, m, |hops|) == 0
  {
  }

  lemma {:induction false} InnerOfInit(hops: seq<Hop>)
    requires 2 <= |hops|
    ensures InnerOutsAreOne(hops)
       <==> InnerOutsAreOne(hops[..|hops| - 1]) && (|hops| == 2 || hops[|hops| - 2].reserveOut == 1)
  {
  }

  lemma {:induction false} NoExcess(c: int, before: int, o: int, sum: int)
    ensures before == 0 && (o == 1 || sum == 0) ==> Excess(c, before, o, sum) == 0
  {
  }

  lemma {:induction false} SomeExcess(c: int, before: int, o: int, sum: int)
    requires 0 < c && 0 <= before && 1 <= o && 0 <= sum
    ensures 0 <= Excess(c, before, o, sum)
    ensures Excess(c, before, o, sum) == 0 <==> before == 0 && (o == 1 || sum == 0)
  {
    MulMono(0, o - 1, sum);
    if 1 < o && 0 < sum { MulPositive(o - 1, sum); }
    var e := before + (o - 1) * sum;
    MulMono(0, e, c);
    if 0 < e { MulPositive(c, e); }
  }

  lemma {:induction false} SummandsPositive(hops: seq<Hop>, n: nat, m: nat, j: nat)
    requires Trading(hops) && 0 < n && 0 < m && j <= |hops|
    ensures 0 <= Summands(hops, n, m, j) && (1 < j ==> 0 < Summands(hops, n, m, j))
  {
    if 1 < j {
      SummandsPositive(hops, n, m, j - 1);
      SummandPositive(hops, n, m, j - 1);
    }
  }

  lemma {:induction false} SummandPositive(hops: seq<Hop>, n: nat, m: nat, j: nat)
    requires Trading(hops) && 0 < n && 0 < m && j < |hops|
    ensures 0 < Summand(hops, n, m, j)
  {
    var p, q := Power(m, j + 1), Power(n, |hops| - j - 1);
    ReservesPositive(hops[..|hops| - 1]);
    ReservesPositive(hops[j + 1..]);
    var out, into := ReservesOut(hops[..|hops| - 1]), ReservesIn(hops[j + 1..]);
    hide Power;
    MulPositive(p, q);
    MulPositive(p * q, out);
    MulPositive(p * q * out, into);
  }

  lemma {:induction false} OnePool(h: Hop, n: nat, s: nat)
    requires h.n == n && h.s == s && s < n
    ensures AllPriced([h]) && ClosedForm([h]) == Moebius((n - s) * h.reserveOut, n * h.reserveIn, n - s)
    ensures CodedK([h], n, n - s) == n - s
  {
    assert [h][..0] == [] && [h][1..] == [];
    assert ClosedForm([]) == Moebius(1, 1, 0);
  }

  ghost predicate IsRootOf(q: (int, int, int), x: real) {
    q.0 as real * x * x + q.1 as real * x + q.2 as real == 0.0
  }

  // ----- the root of the coded quadratic -----

  /** For a chain with one fee, a non-negative root of the quadratic the code sets up is
      an input that earns the most exactly when the inner output reserves are all one, or
      when the chain starts out as steep as one, so that both are zero. */
  lemma {:induction false} CodedRootIsBest(root: real, hops: seq<Hop>, n: nat, s: nat)
    requires Trading(hops) && OneFee(hops, n, s) && hops != []
    requires 0.0 <= root && IsRootOf(CodedQuadratic(hops, n, n - s), root)
    ensures AllPriced(hops)
    ensures Best(root, hops) <==> InnerOutsAreOne(hops) || ClosedForm(hops).a == ClosedForm(hops).b
  {
    CodedKRightWhen(hops, n, s);
    ClosedFormProducts(hops, n, s);
    var f, k := ClosedForm(hops), CodedK(hops, n, n - s);
    ExactIsClosedForm(root, hops);
    assert CodedQuadratic(hops, n, n - s) == (k * k, 2 * f.b * k, f.b * f.b - f.b * f.a);
    hide CodedQuadratic, CodedK, ClosedForm, Power, ReservesIn, ReservesOut, Best, IsRootOf, IsPeak, InnerOutsAreOne;
    BestInput(root, hops);
    var coded := Moebius(f.a, f.b, k);
    RootIsPeak(coded, root);
    PeaksApart(f, coded, root);
  }

  /** The code's root never exceeds the input that earns most. */
  lemma {:induction false} CodedRootFallsShort(root: real, best: real, hops: seq<Hop>, n: nat, s: nat)
    requires Trading(hops) && OneFee(hops, n, s) && hops != []
    requires 0.0 <= root && IsRootOf(CodedQuadratic(hops, n, n - s), root)
    requires 0.0 <= best && Best(best, hops)
    ensures root <= best
  {
    CodedKRightWhen(hops, n, s);
    ClosedFormProducts(hops, n, s);
    var f, k := ClosedForm(hops), CodedK(hops, n, n - s);
    ExactIsClosedForm(root, hops);
    assert CodedQuadratic(hops, n, n - s) == (k * k, 2 * f.b * k, f.b * f.b - f.b * f.a);
    hide CodedQuadratic, CodedK, ClosedForm, Power, ReservesIn, ReservesOut, Best, IsRootOf, IsPeak, InnerOutsAreOne;
    BestInput(best, hops);
    var coded := Moebius(f.a, f.b, k);
    RootIsPeak(coded, root);
    PeakFallsShort(f, coded, root, best);
  }

  lemma {:induction false} RootIsPeak(f: Moebius, x: real)
    requires IsRootOf((f.k * f.k, 2 * f.b * f.k, f.b * f.b - f.b * f.a), x)
    ensures IsPeak(f, x)
  {
    var a, b, k := f.a as real, f.b as real, f.k as real;
    CastMul(f.k, f.k);
    CastMul(2 * f.b, f.k);
    CastMul(f.b, f.b);
    CastMul(f.b, f.a);
    assert b * a == a * b;
  }

  /** Two curves with the same ends share a peak when they are the same, or when they start
      out as steep as one. */
  lemma {:induction false} PeaksApart(f: Moebius, g: Moebius, x: real)
    requires Proper(f) && 0 < f.k <= g.k && g.a == f.a && g.b == f.b && 0.0 <= x && IsPeak(g, x)
    ensures IsPeak(f, x) || (x == 0.0 && f.a <= f.b) <==> f.k == g.k || f.a == f.b
  {
    TopIsPeak(f, x);
    PeakSquare(g.a as real, g.b as real, g.k as real, x);
    DivisorGap(f, g, x, x);
    hide Divisor, IsPeak;
    var a, b, u, v := f.a as real, f.b as real, Divisor(f, x), Divisor(g, x);
    SquareAbove(a, b, v);
    if u * u == v * v { SameSquare(u, v); }
  }

  lemma {:induction false} PeakFallsShort(f: Moebius, g: Moebius, x: real, z: real)
    requires Proper(f) && 0 < f.k <= g.k && g.a == f.a && g.b == f.b && 0.0 <= x && IsPeak(g, x)
    requires 0.0 <= z && (IsPeak(f, z) || (z == 0.0 && f.a <= f.b))
    ensures x <= z
  {
    TopIsPeak(f, z);
    PeakSquare(g.a as real, g.b as real, g.k as real, x);
    DivisorGap(f, g, z, x);
    hide Divisor, IsPeak;
    var a, b, u, v := f.a as real, f.b as real, Divisor(f, z), Divisor(g, x);
    SquareAbove(a, b, v);
    if u * u == v * v { SameSquare(u, v); }
  }

  /** How the divisors of two curves with the same b compare. */
  lemma {:induction false} DivisorGap(f: Moebius, g: Moebius, z: real, x: real)
    requires 0 < f.k <= g.k && g.b == f.b && 0.0 <= x && 0.0 <= z
    ensures f.b as real <= Divisor(f, z) && g.b as real <= Divisor(g, x)
    ensures Divisor(f, z) == f.b as real <==> z == 0.0
    ensures Divisor(g, x) == g.b as real <==> x == 0.0
    ensures Divisor(f, z) == Divisor(g, x) ==> x <= z
    ensures z == x && Divisor(f, z) == Divisor(g, x) ==> f.k == g.k || x == 0.0
    ensures z == x && f.k == g.k ==> Divisor(f, z) == Divisor(g, x)
  {
    var k, l := f.k as real, g.k as real;
    RealNonNegative(k, z);
    RealNonNegative(l, x);
    NoZeroDivisors(z, k);
    NoZeroDivisors(x, l);
    if Divisor(f, z) == Divisor(g, x) {
      Reaches(k, l, z, x);
      if x != 0.0 { NoZeroDivisors(l - k, x); }
    }
  }

  lemma {:induction false} Reaches(k: real, l: real, z: real, x: real)
    requires 0.0 < k <= l && 0.0 <= x && k * z == l * x
    ensures x <= z
  {
    RealMono(k, l, x);
    RealCancel(x, z, k);
  }

  lemma {:induction false} SquareAbove(a: real, b: real, v: real)
    requires 0.0 < b <= v && v * v == a * b
    ensures b <= a && (a == b <==> v == b)
  {
    SquaresRise(b, v);
    ShareAtLeast(a, b, v * v);
    if a == b { SameSquare(v, b); }
    if v == b { NoZeroDivisors(a - b, b); }
  }

  lemma {:induction false} SquaresRise(b: real, v: real)
    requires 0.0 < b <= v
    ensures b * b <= v * v
  {
    RealMono(b, v, v);
    RealMono(b, v, b);
  }

  lemma {:induction false} ShareAtLeast(a: real, b: real, p: real)
    requires 0.0 < b && b * b <= p && p == a * b
    ensures b <= a
  {
    if a < b { RealMonoStrict(a, b, b); }
  }

  lemma {:induction false} SameSquare(u: real, v: real)
    requires 0.0 < u && 0.0 < v && u * u == v * v
    ensures u == v
  {
    NoZeroDivisors(u - v, u + v);
  }

  // ----- chains with different fees -----

  /** The chain with every pool's fee replaced. */
  ghost function AllAt(hops: seq<Hop>, n: nat, s: nat): seq<Hop> {
    seq(|hops|, i requires 0 <= i < |hops| => Hop(n, s, hops[i].reserveIn, hops[i].reserveOut))
  }

  /** The code's quadratic is that of the chain in which every pool takes the fee picked up,
      so it is for that chain that its root is judged by CodedRootIsBest. */
  lemma {:induction false} FeeForAll(hops: seq<Hop>)
    requires Trading(hops) && 0 < Dearest(hops).1
    ensures var (n, s) := Dearest(hops);
            && s < n && Trading(AllAt(hops, n, s)) && OneFee(AllAt(hops, n, s), n, s)
            && hops != [] && Dearest(AllAt(hops, n, s)) == (n, s)
            && CodedQuadratic(AllAt(hops, n, s), n, n - s) == CodedQuadratic(hops, n, n - s)
  {
    DearestIs(hops);
    var (n, s) := Dearest(hops);
    DearestOfOneFee(AllAt(hops, n, s), n, s);
    SameReserves(hops, AllAt(hops, n, s), n, n - s);
  }

  ghost predicate ReservesAgree(hops: seq<Hop>, others: seq<Hop>) {
    |hops| == |others| && forall k :: 0 <= k < |hops| ==>
      hops[k].reserveIn == others[k].reserveIn && hops[k].reserveOut == others[k].reserveOut
  }

  lemma {:induction false} SameProducts(hops: seq<Hop>, others: seq<Hop>)
    requires ReservesAgree(hops, others)
    ensures ReservesIn(hops) == ReservesIn(others) && ReservesOut(hops) == ReservesOut(others)
  {
    if hops != [] { SameProducts(hops[..|hops| - 1], others[..|others| - 1]); }
  }

  /** The coded quadratic depends on the reserves and the fee picked up, not on the fees. */
  lemma {:induction false} SameReserves(hops: seq<Hop>, others: seq<Hop>, n: nat, m: int)
    requires ReservesAgree(hops, others) && hops != []
    ensures CodedQuadratic(hops, n, m) == CodedQuadratic(others, n, m)
  {
    SameProducts(hops, others);
    SameProducts(hops[1..], others[1..]);
    SameSummands(hops, others, n, m, |hops|);
  }

  lemma {:induction false} SameSummands(hops: seq<Hop>, others: seq<Hop>, n: nat, m: int, j: nat)
    requires ReservesAgree(hops, others) && j <= |hops|
    ensures Summands(hops, n, m, j) == Summands(others, n, m, j)
  {
    if 1 < j {
      SameSummands(hops, others, n, m, j - 1);
      SameProducts(hops[..|hops| - 1], others[..|others| - 1]);
      SameProducts(hops[j..], others[j..]);
    }
  }

  /** With different fees the root can miss the best input: one pool here takes a tenth, the
      other nothing, and the root is 2000 / 63. */
  lemma {:induction false} DifferentFeesMiss()
    ensures var hops := [Hop(10, 1, 100, 200), Hop(10, 0, 100, 200)]; var root := 2000.0 / 63.0;
            && Trading(hops) && Dearest(hops) == (10, 1)
            && IsRootOf(CodedQuadratic(hops, 10, 9), root) && !Best(root, hops)
  {
    var g, h := Hop(10, 1, 100, 200), Hop(10, 0, 100, 200);
    var hops, root := [g, h], 2000.0 / 63.0;
    DearestOfTwo(g, h);
    CodedTwo(g, h, 10, 9);
    ClosedTwo(g, h);
    hide CodedQuadratic, ClosedForm, Dearest, Best;
    assert CodedQuadratic(hops, 10, 9) == (635040000, 50400000000, -2240000000000);
    assert ClosedForm(hops) == Moebius(3600000, 1000000, 27000);
    BestInput(root, hops);
  }

  lemma {:induction false} DearestOfTwo(g: Hop, h: Hop)
    requires h.s == 0 < g.s
    ensures Dearest([g, h]) == (g.n, g.s)
  {
    assert [g, h][..1] == [g] && [g][..0] == [];
    assert Dearest([g]) == (g.n, g.s);
  }

  lemma {:induction false} ClosedTwo(g: Hop, h: Hop)
    requires Priced(g) && Priced(h)
    ensures AllPriced([g, h])
    ensures ClosedForm([g, h]) == Then(Then(Moebius(1, 1, 0), g), h)
  {
    assert [g, h][..1] == [g] && [g][..0] == [];
    hide Then;
    assert ClosedForm([]) == Moebius(1, 1, 0);
    assert ClosedForm([g]) == Then(Moebius(1, 1, 0), g);
  }

  lemma {:induction false} CodedTwo(g: Hop, h: Hop, n: nat, m: int)
    ensures var k, b, a := m * n * h.reserveIn + m * m * g.reserveOut,
                           n * n * (g.reserveIn * h.reserveIn), m * m * (g.reserveOut * h.reserveOut);
            CodedQuadratic([g, h], n, m) == (k * k, 2 * b * k, b * b - b * a)
  {
    var hops := [g, h];
    assert hops[..1] == [g] && hops[1..] == [h] && hops[2..] == [] && [g][..0] == [] && [h][..0] == [];
    assert ReservesIn([g]) == g.reserveIn && ReservesOut([g]) == g.reserveOut && ReservesIn([h]) == h.reserveIn;
    assert ReservesIn(hops) == g.reserveIn * h.reserveIn && ReservesOut(hops) == g.reserveOut * h.reserveOut;
    SmallPowers(n);
    SmallPowers(m);
    assert Summands(hops, n, m, 2) == Summand(hops, n, m, 1);
    hide Power, Summands, ReservesIn, ReservesOut;
    assert Summand(hops, n, m, 1) == m * m * 1 * g.reserveOut * 1 by { NoReserves(); }
  }

  lemma {:induction false} SmallPowers(x: int)
    ensures Power(x, 0) == 1 && Power(x, 1) == x && Power(x, 2) == x * x
  {
  }

  /** The code divides by its leading coefficient, which is zero exactly when no pool of
      the chain takes a fee: then no (n, s) is ever picked up. */
  lemma {:induction false} LeadingCoefficient(hops: seq<Hop>)
    requires Trading(hops) && hops != []
    ensures var (n, s) := Dearest(hops);
            && s <= n
            && (CodedQuadratic(hops, n, n - s).0 == 0 <==> forall k :: 0 <= k < |hops| ==> hops[k].s == 0)
  {
    DearestIs(hops);
    var (n, s) := Dearest(hops);
    var m := n - s;
    if s == 0 {
      SummandsOfNothing(hops, |hops|);
    } else {
      ReservesPositive(hops[1..]);
      MulPositive(m, Power(n, |hops| - 1));
      MulPositive(m * Power(n, |hops| - 1), ReservesIn(hops[1..]));
      SummandsPositive(hops, n, m, |hops|);
      MulPositive(CodedK(hops, n, m), CodedK(hops, n, m));
    }
  }

  /** Pool k is the first one with the share s. */
  ghost predicate IsFirst(hops: seq<Hop>, k: int, s: nat) {
    0 <= k < |hops| && hops[k].s == s && forall j :: 0 <= j < k ==> hops[j].s != s
  }

  /** The fee picked up is that of the first pool with the highest share; nothing is picked up when all are zero. */
  lemma {:induction false} DearestIs(hops: seq<Hop>)
    requires AllPriced(hops)
    ensures var (n, s) := Dearest(hops);
            && (forall k :: 0 <= k < |hops| ==> hops[k].s <= s)
            && (if s == 0 then n == 0
                else s < n && exists k :: 0 <= k < |hops| && IsFirst(hops, k, s) && hops[k].n == n)
  {
    if hops != [] {
      var init, h := hops[..|hops| - 1], hops[|hops| - 1];
      DearestIs(init);
      var (n, s) := Dearest(init);
      if h.s > s {
        assert IsFirst(hops, |hops| - 1, h.s);
      } else if s != 0 {
        var k :| 0 <= k < |init| && IsFirst(init, k, s) && init[k].n == n;
        assert IsFirst(hops, k, s) && hops[k].n == n;
      }
      forall k | 0 <= k < |hops| ensures hops[k].s <= Dearest(hops).1 {
        if k < |init| { assert init[k] == hops[k]; }
      }
    }
  }

  lemma {:induction false} SummandsOfNothing(hops: seq<Hop>, j: nat)
    requires hops != [] && j <= |hops|
    ensures Summands(hops, 0, 0, j) == 0 && CodedK(hops, 0, 0) == Summands(hops, 0, 0, |hops|)
  {
    if 1 < j { SummandsOfNothing(hops, j - 1); }
  }

  lemma {:induction false} ReservesPositive(hops: seq<Hop>)
    requires Trading(hops)
    ensures 0 < ReservesIn(hops) && 0 < ReservesOut(hops)
  {
    if hops != [] {
      var init, h := hops[..|hops| - 1], hops[|hops| - 1];
      ReservesPositive(init);
      MulPositive(ReservesIn(init), h.reserveIn);
      MulPositive(ReservesOut(init), h.reserveOut);
    }
  }
}
