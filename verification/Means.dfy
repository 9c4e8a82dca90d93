/** Sums and products of balances, and the inequality of their means. */
module Means {
  import opened Arithmetic

  function Sum(xs: seq<nat>): nat {
    if xs == [] then 0 else Sum(xs[..|xs| - 1]) + xs[|xs| - 1]
  }

  ghost function Product(xs: seq<nat>): nat {
    if xs == [] then 1 else Product(xs[..|xs| - 1]) * xs[|xs| - 1]
  }

  /** A power lies above its tangent. */
  lemma {:induction false} Tangent(u: nat, v: nat, k: nat)
    ensures Power(u, k + 1) + (k + 1) * Power(u, k) * (v - u) <= Power(v, k + 1)
  {
    if k == 0 {
      assert Power(u, 0) == 1 && Power(v, 0) == 1;
    } else {
      Tangent(u, v, k - 1);
      TangentStep(u, v, k, Power(u, k - 1), Power(v, k));
    }
  }

  lemma {:induction false} TangentStep(u: nat, v: nat, k: nat, p: nat, q: nat)
    requires u * p + k * p * (v - u) <= q
    ensures u * (u * p) + (k + 1) * (u * p) * (v - u) <= v * q
  {
    var w, kp, up := v - u, k * p, u * p;
    MulMono(up + kp * w, q, v);
    MulMono(0, w * w, kp);
    TangentExpansion(k, p, u, w);
    assert v == u + w;
  }

  lemma {:induction false} TangentExpansion(k: int, p: int, u: int, w: int)
    ensures (u * p + k * p * w) * (u + w) == u * (u * p) + (k + 1) * (u * p) * w + k * p * (w * w)
  {
    SplitFactor(k * p, w, u);
    SuccessorTimes(k, p, u, w);
  }

  lemma {:induction false} SplitFactor(c: int, w: int, u: int)
    ensures c * w * (u + w) == c * w * u + c * (w * w)
  {
  }

  lemma {:induction false} SuccessorTimes(k: int, p: int, u: int, w: int)
    ensures (k + 1) * (u * p) * w == k * p * w * u + u * p * w
  {
  }

  /** The inequality of the arithmetic and geometric means, in integers. */
  lemma {:induction false} MeansInequality(xs: seq<nat>)
    ensures Power(|xs|, |xs|) * Product(xs) <= Power(Sum(xs), |xs|)
  {
    if xs != [] {
      var init, x, n := xs[..|xs| - 1], xs[|xs| - 1], |xs| - 1;
      MeansInequality(init);
      if n == 0 {
        assert init == [] && Product(init) == 1 && Sum(init) == 0;
        OnePower(x);
      } else {
        MeansStep(n, x, Sum(init), Product(init));
      }
    }
  }

  lemma {:induction false} OnePower(x: nat)
    ensures Power(x, 1) == x && Power(1, 1) == 1
  {
    assert Power(x, 0) == 1 && Power(1, 0) == 1;
  }

  lemma {:induction false} MeansStep(n: nat, x: nat, s: nat, p: nat)
    requires 0 < n && Power(n, n) * p <= Power(s, n)
    ensures Power(n + 1, n + 1) * (p * x) <= Power(s + x, n + 1)
  {
    var up, all := Power(n, n), Power(n + 1, n + 1);
    OneMore(n, x, s);
    assert all * (p * x) * up <= Power(s + x, n + 1) * up by {
      assert all * (p * x) * up == up * p * (all * x) by { Exchange4(all, p, x, up); }
      MulMono(up * p, Power(s, n), all * x);
    }
    MulCancel(all * (p * x), Power(s + x, n + 1), up);
  }

  lemma {:induction false} Exchange4(a: int, p: int, x: int, u: int)
    ensures a * (p * x) * u == u * p * (a * x)
  {
    MulAssoc(u, p, a * x);
    assert p * (a * x) == a * (p * x);
  }

  /** Adding one number: the tangent to the power n + 1 at the old mean. */
  lemma {:induction false} OneMore(n: nat, x: nat, s: nat)
    requires 0 < n
    ensures Power(s, n) * (Power(n + 1, n + 1) * x) <= Power(s + x, n + 1) * Power(n, n)
  {
    var a, b := n * (s + x), (n + 1) * s;
    MulMono(0, n, s + x);
    Tangent(b, a, n);
    var q := Power(b, n);
    assert Power(b, n + 1) == b * q;
    assert b * q + (n + 1) * q * (a - b) == q * ((n + 1) * x) * n by { TangentValue(n, x, s, q); }
    PowerMul(n, s + x, n + 1);
    PowerMul(n + 1, s, n);
    var t := Power(s + x, n + 1);
    assert Power(a, n + 1) == n * Power(n, n) * t;
    assert q * ((n + 1) * x) * n <= n * Power(n, n) * t;
    assert n * Power(n, n) * t == t * Power(n, n) * n by { Turn(n, Power(n, n), t); }
    MulCancel(q * ((n + 1) * x), t * Power(n, n), n);
    assert q * ((n + 1) * x) == Power(s, n) * (Power(n + 1, n + 1) * x) by {
      assert q == Power(n + 1, n) * Power(s, n);
      Gather(Power(n + 1, n), Power(s, n), n + 1, x);
    }
  }

  lemma {:induction false} Turn(a: int, b: int, c: int)
    ensures a * b * c == c * b * a
  {
  }

  lemma {:induction false} Gather(p: int, s: int, m: int, x: int)
    ensures p * s * (m * x) == s * (m * p * x)
  {
    assert m * p * x == p * (m * x);
    MulAssoc(s, p, m * x);
  }

  lemma {:induction false} TangentValue(n: nat, x: nat, s: nat, q: nat)
    ensures (n + 1) * s * q + (n + 1) * q * (n * (s + x) - (n + 1) * s) == q * ((n + 1) * x) * n
  {
    var m := n + 1;
    assert n * (s + x) - m * s == n * x - s;
    assert m * q * (n * x - s) == m * q * (n * x) - m * q * s;
    assert m * s * q == m * q * s;
    assert m * q * (n * x) == q * (m * x) * n;
  }

  /** 1 + ratio + ratio^2 + ..., one summand for each division. */
  function Noise(ratio: nat, divisions: nat): nat {
    if divisions == 0 then 0 else ratio * Noise(ratio, divisions - 1) + 1
  }
}
