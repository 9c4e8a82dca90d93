/** Helpers of the crypto pool solvers: sorting the balances, and the geometric mean. */
module CryptoSwap {
  import opened Arithmetic
  import opened Results
  import StableSwap

  /** The geometric mean is found once a step changes it by less than this share. */
  const SHARE: nat := 1_000_000_000_000_000_000

  ghost predicate HighToLow(s: seq<int>) {
    forall i, j :: 0 <= i < j < |s| ==> s[j] <= s[i]
  }

  /** One round of the sort: the balance at i is moved up to its place among those
      before it, in at most n moves. */
  method Insert(a: array<int>, i: nat, n: nat)
    requires 1 <= i < n <= a.Length && HighToLow(a[..i])
    modifies a
    ensures multiset(a[..]) == multiset(old(a[..]))
    ensures HighToLow(a[..i + 1]) && a[i + 1..] == old(a[i + 1..])
  {
    hide HighToLow, Holed;
    var x := a[i];
    var cur := i;
    ghost var was, before, after := a[..], a[..i], a[i + 1..];
    HoleOpens(was, before, x, after);
    for j := 0 to n
      invariant 0 < cur == i - j
      invariant Holed(a[..], before, cur, x, after)
    {
      var y := a[cur - 1];
      ghost var s := a[..];
      HoleMoves(s, before, cur, x, after);
      if y > x { break; }
      a[cur] := y;
      assert a[..] == s[cur := y];
      cur := cur - 1;
      if cur == 0 { break; }
    }
    ghost var s := a[..];
    HoleCloses(s, before, cur, x, after);
    a[cur] := x;
    assert a[..] == s[cur := x];
  }

  /** The sorted part with one more cell, holding v, at position cur. */
  ghost function WithAt(before: seq<int>, cur: nat, v: int): (s: seq<int>)
    requires cur <= |before|
    ensures |s| == |before| + 1
  {
    before[..cur] + [v] + before[cur..]
  }

  /** The array while x is being placed: a hole at cur, nothing below it larger than x. */
  ghost predicate Holed(s: seq<int>, before: seq<int>, cur: nat, x: int, after: seq<int>) {
    && cur <= |before| && cur < |s|
    && s == WithAt(before, cur, s[cur]) + after
    && forall k :: cur <= k < |before| ==> before[k] <= x
  }

  lemma {:induction false} HoleOpens(s: seq<int>, before: seq<int>, x: int, after: seq<int>)
    requires |before| < |s| && before == s[..|before|] && x == s[|before|] && after == s[|before| + 1..]
    ensures Holed(s, before, |before|, x, after) && s == before + [x] + after
  {
  }

  /** Copying the balance before the hole into it moves the hole one place. */
  lemma {:induction false} HoleMoves(s: seq<int>, before: seq<int>, cur: nat, x: int, after: seq<int>)
    requires Holed(s, before, cur, x, after) && 0 < cur
    ensures s[cur - 1] == before[cur - 1]
    ensures s[cur - 1] <= x ==> Holed(s[cur := s[cur - 1]], before, cur - 1, x, after)
  {
    assert s[cur - 1] == before[cur - 1];
    assert s[cur := s[cur - 1]] == WithAt(before, cur - 1, before[cur - 1]) + after;
  }

  lemma {:induction false} HoleCloses(s: seq<int>, before: seq<int>, cur: nat, x: int, after: seq<int>)
    requires Holed(s, before, cur, x, after) && HighToLow(before) && (cur == 0 || x < before[cur - 1])
    ensures var t := s[cur := x];
            && multiset(t) == multiset(before + [x] + after)
            && HighToLow(t[..|before| + 1]) && t[|before| + 1..] == after
  {
    var t := s[cur := x];
    assert t == WithAt(before, cur, x) + after;
    assert t[..|before| + 1] == WithAt(before, cur, x);
    assert before[..cur] + before[cur..] == before;
    InsertedOrder(before, cur, x);
  }

  /** A balance put between the larger and the smaller ones. */
  lemma {:induction false} InsertedOrder(before: seq<int>, cur: nat, x: int)
    requires HighToLow(before) && cur <= |before|
    requires forall k :: cur <= k < |before| ==> before[k] <= x
    requires 0 < cur ==> x < before[cur - 1]
    ensures HighToLow(WithAt(before, cur, x))
  {
    var s := WithAt(before, cur, x);
    forall i, j | 0 <= i < j < |s| ensures s[j] <= s[i] {
      if i < cur <= j { assert before[cur - 1] <= before[i] || i == cur - 1; }
    }
  }

  /** Insertion sort of the first n balances, from high to low, on a copy. */
  method Sort(a0: seq<int>, n: nat) returns (r: seq<int>)
    requires n <= |a0|
    ensures |r| == |a0| && r[n..] == a0[n..]
    ensures multiset(r) == multiset(a0)
    ensures HighToLow(r[..n])
  {
    var a := new int[|a0|](i requires 0 <= i < |a0| => a0[i]);
    assert a[..] == a0;
    if n == 0 { return a[..]; }
    for i := 1 to n
      invariant multiset(a[..]) == multiset(a0)
      invariant HighToLow(a[..i]) && a[n..] == a0[n..]
    {
      ghost var was := a[..];
      Insert(a, i, n);
      assert forall k :: n <= k < a.Length ==> a[k] == a[i + 1..][k - i - 1] == was[i + 1..][k - i - 1];
    }
    r := a[..];
  }

  // ----- the geometric mean of two balances -----

  /** The two roundings of the code's step are one rounding of the quadratic step. */
  lemma {:induction false} MeanStep(c: nat, d: nat)
    requires 0 < d
    ensures (d + c / d) / 2 == StableSwap.NextY(0, c, d) == FloorDiv(d * d + c, 2 * d + 0)
    ensures 0 <= (d + c / d) / 2
  {
    FloorBounds(c, d);
    FloorUnique(d * d + c, d, d + c / d);
    FloorFloor(d * d + c, d, 2);
    DivMod(c, d);
  }

  lemma {:induction false} FirstMean(x0: nat, x1: nat)
    requires 0 < x0
    ensures (x0 + x1) / 2 == StableSwap.NextY(0, x0 * x1, x0)
  {
    FloorUnique(x0 * x1, x0, x1);
    assert (x1 + 1) * x0 == x0 * x1 + x0;
    MulMono(0, x0, x1);
    MeanStep(x0 * x1, x0);
  }

  /** A step ends no further above the root than it moved. */
  lemma {:induction false} MovedAtLeast(c: nat, r: nat, y: nat, n: int)
    requires StableSwap.IsRoot(0, c, r) && 0 < y && n == StableSwap.NextY(0, c, y)
    ensures r <= n && (n <= r + 1 || (n - r <= y - n) || (n - r <= n - y))
  {
    StableSwap.StepTowardsRoot(0, c, r, y);
  }

  /** The result is the integer square root of the product, or above it by at most one
      or by less than its 10^18th part; an answer is found whenever the mean of the
      balances is below 2^254. */
  method GeometricMean(unsorted: (nat, nat), sort: bool) returns (r: Result<int>)
    ensures var (x0, x1) := if sort && unsorted.0 < unsorted.1 then (unsorted.1, unsorted.0) else unsorted;
            if x0 == 0 then r == Failure(ZeroDivision)
            else
              && ((x0 + x1) / 2 < Pow2(StableSwap.MAX_STEPS - 1) ==> r.Success?)
              && (r.Failure? ==> r == Failure(NoConvergence))
              && (r.Success? ==>
                    var over := r.value - StableSwap.Root(0, x0 * x1);
                    0 <= over && (over <= 1 || over * SHARE < r.value))
  {
    hide StableSwap.Root, StableSwap.IsRoot, StableSwap.NextY, StableSwap.Trail, Pow2, FloorDiv;
    var (x0, x1) := if sort && unsorted.0 < unsorted.1 then (unsorted.1, unsorted.0) else unsorted;
    var d: nat := x0;
    if d == 0 { return Failure(ZeroDivision); }
    MulMono(0, x0, x1);
    ghost var c: nat := x0 * x1;
    ghost var root, first := StableSwap.Root(0, c), (x0 + x1) / 2;
    StableSwap.RootIsRoot(0, c);
    FirstMean(x0, x1);
    for i := 0 to StableSwap.MAX_STEPS
      invariant 0 < d
      invariant if i == 0 then d == x0 else StableSwap.Trail(first, root, d, i)
    {
      var previous := d;
      MeanStep(c, previous);
      d := (d + x0 * x1 / d) / 2;
      StableSwap.StepIs(0, c, root, first, previous, d, i);
      MovedAtLeast(c, root, previous, d);
      var diff := if d > previous then d - previous else previous - d;
      if diff <= 1 || diff * SHARE < d { return Success(d); }
    }
    StableSwap.TrailEnds(first, root, d);
    r := Failure(NoConvergence);
  }
}
