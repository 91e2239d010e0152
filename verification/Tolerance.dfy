/** The comparison predicates of the suites and the rounding errors they are meant to absorb. */
module Tolerance {
  import opened Arithmetic
  import opened BigNumbers
  import opened Constants
  import opened FixedPoint
  import HalfUp

  // almostEqualAssertion
  predicate AlmostEqual(expected: int, actual: int) {
    || expected + 1 == actual
    || expected + 2 == actual
    || actual + 1 == expected
    || actual + 2 == expected
    || expected == actual
  }

  // the numeric comparison inside almostEqualOrEqual
  predicate AlmostEqualOrEqual(expected: int, actual: int) {
    || actual == expected
    || actual + 1 == expected
    || actual == expected + 1
    || actual + 2 == expected
    || actual == expected + 2
    || actual + 3 == expected
    || actual == expected + 3
  }

  /** The comparisons accept a difference of at most two, and of at most three. */
  lemma ComparisonsAre(expected: int, actual: int)
    ensures AlmostEqual(expected, actual) <==> Abs(expected - actual) <= 2
    ensures AlmostEqualOrEqual(expected, actual) <==> Abs(expected - actual) <= 3
  {
  }

  /** Repaying r out of a scaled debt s at index i leaves a debt whose distance from the subtraction a suite
      expects is at most 1 + i / 2u less the last place, and one place less again when the index is even. */
  lemma PartialRepayError(u: nat, s: nat, r: nat, i: nat)
    requires HalfUp.Unit(u) && i > 0
    requires HalfUp.Div(u, r, i) <= s
    ensures var left := HalfUp.Mul(u, s - HalfUp.Div(u, r, i), i);
            && 2 * u * Abs(left - (HalfUp.Mul(u, s, i) - r)) <= 2 * u + i - 2
            && (i % 2 == 0 ==> 2 * u * Abs(left - (HalfUp.Mul(u, s, i) - r)) <= 2 * u + i - 4)
  {
    var q := HalfUp.Div(u, r, i);
    var left, before := HalfUp.Mul(u, s - q, i), HalfUp.Mul(u, s, i);
    HalfUp.DivError(u, r, i);
    HalfUp.MulError(u, s - q, i);
    HalfUp.MulError(u, s, i);
    if i % 2 == 0 {
      EvenRounding(u, left, s - q, i);
      EvenRounding(u, before, s, i);
    }
    Regrouped(u, i, s, q, r, left, before);
    ErrorsAdd(u, i, left - (before - r), left * u - (s - q) * i, before * u - s * i, q * i - r * u);
  }

  // What an even unit and an even index round by is even.
  lemma EvenRounding(u: nat, y: int, x: int, i: nat)
    requires u % 2 == 0 && i % 2 == 0
    ensures (y * u - x * i) % 2 == 0
  {
    assert y * u == 2 * (y * (u / 2));
    assert x * i == 2 * (x * (i / 2));
  }

  // The error of a partial repay is made of three roundings: a and b of the debts, c of the repay.
  lemma ErrorsAdd(u: nat, i: nat, e: int, a: int, b: int, c: int)
    requires u % 2 == 0 && e * u == a - b - c
    requires 0 <= 2 * c + i <= 2 * i && 0 < 2 * a + u <= 2 * u && 0 < 2 * b + u <= 2 * u
    requires i % 2 == 0 ==> a % 2 == 0 && b % 2 == 0
    ensures 2 * u * Abs(e) <= 2 * u + i - 2
    ensures i % 2 == 0 ==> 2 * u * Abs(e) <= 2 * u + i - 4
  {
    DoubleDistance(e, u, a - b - c);
    RoundingsAdd(u, i, a, b, c);
  }

  lemma DoubleDistance(e: int, u: nat, d: int)
    requires e * u == d
    ensures 2 * u * Abs(e) == 2 * Abs(d)
  {
    ScaleAbs(e, u);
    assert 2 * u * Abs(e) == 2 * (u * Abs(e));
  }

  lemma Regrouped(u: int, i: int, s: int, q: int, r: int, left: int, before: int)
    ensures (left - (before - r)) * u == (left * u - (s - q) * i) - (before * u - s * i) - (q * i - r * u)
  {
  }

  lemma RoundingsAdd(u: nat, i: nat, a: int, b: int, c: int)
    requires u % 2 == 0 && 0 <= 2 * c + i <= 2 * i && 0 < 2 * a + u <= 2 * u && 0 < 2 * b + u <= 2 * u
    requires i % 2 == 0 ==> a % 2 == 0 && b % 2 == 0
    ensures 2 * Abs(a - b - c) <= 2 * u + i - 2
    ensures i % 2 == 0 ==> 2 * Abs(a - b - c) <= 2 * u + i - 4
  {
  }

  lemma ScaleAbs(e: int, u: nat)
    ensures u * Abs(e) == Abs(e * u)
  {
    MulOrder(0, Abs(e), u);
  }

  // A repay of r at index i out of a scaled debt s that covers it.
  predicate Repays(s: nat, r: nat, i: nat) {
    i > 0 && RayDiv(SUITE, r, i) <= s
  }

  function DebtLeft(s: nat, r: nat, i: nat): int
    requires Repays(s, r, i)
  {
    RayMul(SUITE, s - RayDiv(SUITE, r, i), i)
  }

  function DebtExpected(s: nat, r: nat, i: nat): int {
    RayMul(SUITE, s, i) - r
  }

  // Whether a comparison passes after every partial repay at an index up to n.
  ghost predicate PassesUpTo(compare: (int, int) -> bool, n: nat) {
    forall s: nat, r: nat, i: nat :: i <= n && Repays(s, r, i) ==> compare(DebtExpected(s, r, i), DebtLeft(s, r, i))
  }

  /** After partial repays at every index up to n the ±2 comparison of the suites always passes exactly when n
      exceeds four rays by at most two units of the last place, and the ±3 comparison exactly when it exceeds
      six rays by at most two. */
  lemma PartialRepayToleranceIff(n: nat)
    ensures PassesUpTo(AlmostEqual, n) <==> n <= 4 * RAY + 2
    ensures PassesUpTo(AlmostEqualOrEqual, n) <==> n <= 6 * RAY + 2
  {
    forall s: nat, r: nat, i: nat | i <= n && Repays(s, r, i)
      ensures n <= 4 * RAY + 2 ==> AlmostEqual(DebtExpected(s, r, i), DebtLeft(s, r, i))
      ensures n <= 6 * RAY + 2 ==> AlmostEqualOrEqual(DebtExpected(s, r, i), DebtLeft(s, r, i))
    {
      PartialRepayTolerance(s, r, i);
    }
    var s, r, t := RejectedRepays();
    if n >= 4 * RAY + 3 {
      assert !AlmostEqual(DebtExpected(s, r, 4 * RAY + 3), DebtLeft(s, r, 4 * RAY + 3));
    }
    if n >= 6 * RAY + 3 {
      assert !AlmostEqualOrEqual(DebtExpected(s, t, 6 * RAY + 3), DebtLeft(s, t, 6 * RAY + 3));
    }
  }

  lemma PartialRepayTolerance(s: nat, r: nat, i: nat)
    requires Repays(s, r, i)
    ensures i <= 4 * RAY + 2 ==> AlmostEqual(DebtExpected(s, r, i), DebtLeft(s, r, i))
    ensures i <= 6 * RAY + 2 ==> AlmostEqualOrEqual(DebtExpected(s, r, i), DebtLeft(s, r, i))
  {
    SuiteIsHalfUp(RAY, r, i);
    SuiteIsHalfUp(RAY, s - RayDiv(SUITE, r, i), i);
    SuiteIsHalfUp(RAY, s, i);
    PartialRepayError(RAY, s, r, i);
  }

  // A scaled debt and two repays of it, the first rejected three units above four rays and the second three
  // units above six.
  lemma RejectedRepays() returns (s: nat, r: nat, t: nat)
    ensures Repays(s, r, 4 * RAY + 3) && !AlmostEqual(DebtExpected(s, r, 4 * RAY + 3), DebtLeft(s, r, 4 * RAY + 3))
    ensures Repays(s, t, 6 * RAY + 3) &&
            !AlmostEqualOrEqual(DebtExpected(s, t, 6 * RAY + 3), DebtLeft(s, t, 6 * RAY + 3))
  {
    var q := (RAY - 1) / 3;
    s := (2 * RAY + HALF_RAY - 1) / 3;
    assert 3 * q == RAY - 1 && 3 * s == 2 * RAY + HALF_RAY - 1;
    r, t := 4 * q + 3, 6 * q + 4;
    RepayComputes(s, r, 4 * RAY + 3, q, 4 * (s - q) + 2, 4 * s + 2);
    RepayComputes(s, t, 6 * RAY + 3, q, 6 * (s - q) + 2, 6 * s + 2);
  }

  lemma RepayComputes(s: nat, r: nat, i: nat, q: nat, left: nat, before: nat)
    requires i > 0 && q <= s
    requires 0 < 2 * (q * i - r * RAY) + i < 2 * i
    requires 0 < 2 * (left * RAY - (s - q) * i) + RAY <= 2 * RAY
    requires 0 < 2 * (before * RAY - s * i) + RAY <= 2 * RAY
    ensures Repays(s, r, i) && DebtLeft(s, r, i) == left && DebtExpected(s, r, i) == before - r
  {
    SuiteIsHalfUp(RAY, r, i);
    SuiteIsHalfUp(RAY, s - q, i);
    SuiteIsHalfUp(RAY, s, i);
    HalfUp.DivNearest(RAY, r, i, q);
    HalfUp.MulNearest(RAY, s - q, i, left);
    HalfUp.MulNearest(RAY, s, i, before);
  }

  /** Converting a loan's debt back gives its scaled amount, at every index from one ray on. */
  lemma LoanDebtConvertsBack(l: nat, i: nat)
    requires i >= RAY
    ensures RayDiv(SUITE, RayMul(SUITE, l, i), i) == l
  {
    SuiteIsHalfUp(RAY, l, i);
    SuiteIsHalfUp(RAY, RayMul(SUITE, l, i), i);
    HalfUp.DivUndoesMul(RAY, l, i);
  }

  /** Removing one loan's scaled amount from a user's moves the debt by the loan's debt, give or take one. */
  lemma RemovingALoan(s: nat, l: nat, i: nat)
    requires l <= s
    ensures Abs(RayMul(SUITE, s, i) - RayMul(SUITE, l, i) - RayMul(SUITE, s - l, i)) <= 1
  {
    forall x | x in {s, l, s - l} ensures RayMul(SUITE, x, i) == HalfUp.Mul(RAY, x, i) { SuiteIsHalfUp(RAY, x, i); }
    forall x | x in {s, l, s - l} ensures 0 < 2 * (RayMul(SUITE, x, i) * RAY - x * i) + RAY <= 2 * RAY {
      HalfUp.MulError(RAY, x, i);
    }
    assert (s - l) * i == s * i - l * i;
  }

  function Sum(xs: seq<nat>): nat {
    if xs == [] then 0 else Sum(xs[..|xs| - 1]) + xs[|xs| - 1]
  }

  // The debts of scaled amounts at one index.
  function DebtsAt(u: nat, scaled: seq<nat>, i: nat): seq<nat>
    requires u > 0
  {
    seq(|scaled|, k requires 0 <= k < |scaled| => HalfUp.Mul(u, scaled[k], i))
  }

  /** Each loan's debt is rounded on its own; together they drift by at most half a unit a loan. */
  lemma {:induction false} SumOfDebtsError(u: nat, scaled: seq<nat>, i: nat)
    requires HalfUp.Unit(u)
    ensures 2 * Abs(Sum(DebtsAt(u, scaled, i)) * u - Sum(scaled) * i) <= |scaled| * u
  {
    if scaled == [] {
      assert DebtsAt(u, scaled, i) == [];
    } else {
      var n := |scaled| - 1;
      var debts := DebtsAt(u, scaled, i);
      SumOfDebtsError(u, scaled[..n], i);
      assert debts[..n] == DebtsAt(u, scaled[..n], i);
      HalfUp.MulError(u, scaled[n], i);
      SumStep(u, i, n, Sum(debts[..n]), Sum(scaled[..n]), debts[n], scaled[n]);
    }
  }

  lemma SumStep(u: nat, i: nat, n: nat, debts: int, scaled: int, debt: int, l: int)
    requires 2 * Abs(debts * u - scaled * i) <= n * u
    requires 0 < 2 * (debt * u - l * i) + u <= 2 * u
    ensures 2 * Abs((debts + debt) * u - (scaled + l) * i) <= (n + 1) * u
  {
    assert (debts + debt) * u == debts * u + debt * u;
    assert (scaled + l) * i == scaled * i + l * i;
    assert (n + 1) * u == n * u + u;
  }

  lemma SplitDebtError(u: nat, scaled: seq<nat>, i: nat)
    requires HalfUp.Unit(u)
    ensures 2 * Abs(Sum(DebtsAt(u, scaled, i)) - HalfUp.Mul(u, Sum(scaled), i)) <= |scaled| + 1
  {
    hide DebtsAt, Sum, HalfUp.Mul;
    SumOfDebtsError(u, scaled, i);
    HalfUp.MulError(u, Sum(scaled), i);
    DecompositionStep(u, |scaled|, Sum(DebtsAt(u, scaled, i)), HalfUp.Mul(u, Sum(scaled), i), Sum(scaled) * i);
  }

  /** Splitting a scaled debt over n loans changes the total debt by at most (n + 1) / 2. */
  lemma LoanDecomposition(scaled: seq<nat>, i: nat)
    ensures 2 * Abs(Sum(DebtsAt(RAY, scaled, i)) - RayMul(SUITE, Sum(scaled), i)) <= |scaled| + 1
  {
    SuiteIsHalfUp(RAY, Sum(scaled), i);
    SplitDebtError(RAY, scaled, i);
  }

  lemma DecompositionStep(u: nat, n: nat, parts: int, whole: int, exact: int)
    requires u > 0
    requires 2 * Abs(parts * u - exact) <= n * u
    requires 0 < 2 * (whole * u - exact) + u <= 2 * u
    ensures 2 * Abs(parts - whole) <= n + 1
  {
    var e := 2 * (parts - whole);
    assert e * u == 2 * (parts * u) - 2 * (whole * u);
    assert (n + 2) * u == n * u + 2 * u;
    MulCancel(e, n + 2, u);
    MulCancel(-e, n + 2, u);
  }

  function Product(fs: seq<nat>): nat {
    if fs == [] then 1 else Product(fs[..|fs| - 1]) * fs[|fs| - 1]
  }

  function Power(u: nat, n: nat): nat {
    if n == 0 then 1 else Power(u, n - 1) * u
  }

  // An index that each factor in turn has multiplied.
  function Compound(u: nat, x: nat, fs: seq<nat>): nat
    requires u > 0
  {
    if fs == [] then x else HalfUp.Mul(u, fs[|fs| - 1], Compound(u, x, fs[..|fs| - 1]))
  }

  /** Compounding by one run of factors and then another is compounding by both. */
  lemma {:induction false} CompoundAppend(u: nat, x: nat, fs: seq<nat>, gs: seq<nat>)
    requires u > 0
    ensures Compound(u, x, fs + gs) == Compound(u, Compound(u, x, fs), gs)
  {
    if gs == [] {
      assert fs + gs == fs;
    } else {
      var n := |gs| - 1;
      assert (fs + gs)[..|fs + gs| - 1] == fs + gs[..n];
      CompoundAppend(u, x, fs, gs[..n]);
    }
  }

  /** Compounding by factors of at least the unit never lowers the index, and the rounding error
      relative to the exact product grows at most linearly with the number of steps. */
  lemma {:induction false} CompoundingDrift(u: nat, x: nat, fs: seq<nat>)
    requires HalfUp.Unit(u)
    requires forall k :: 0 <= k < |fs| ==> fs[k] >= u
    ensures Compound(u, x, fs) >= x
    ensures Product(fs) >= Power(u, |fs|)
    ensures 2 * Abs(Compound(u, x, fs) * Power(u, |fs|) - x * Product(fs)) <= |fs| * Product(fs)
  {
    if fs != [] {
      var n := |fs| - 1;
      var f, rest := fs[n], fs[..n];
      CompoundingDrift(u, x, rest);
      var y, z := Compound(u, x, rest), Compound(u, x, fs);
      GrowsByUnit(u, y, f);
      HalfUp.MulError(u, f, y);
      PowersGrow(u, f, Power(u, n), Product(rest));
      DriftStep(u, f, y, z, Power(u, n), x, Product(rest), n);
    }
  }

  lemma GrowsByUnit(u: nat, y: nat, f: nat)
    requires HalfUp.Unit(u) && f >= u
    ensures HalfUp.Mul(u, f, y) >= y
  {
    HalfUp.MulMonotone(u, u, f, y);
    HalfUp.MulByUnit(u, y);
  }

  lemma PowersGrow(u: nat, f: nat, w: nat, p: nat)
    requires f >= u && p >= w
    ensures p * f >= w * u
  {
    MulOrder(w, p, u);
    MulOrder(u, f, p);
  }

  // z is y after one more factor f; w and p are the unit's power and the factors' product so far.
  lemma DriftStep(u: nat, f: nat, y: int, z: int, w: nat, x: int, p: int, n: nat)
    requires 0 < 2 * (z * u - f * y) + u <= 2 * u
    requires p * f >= w * u
    requires 2 * Abs(y * w - x * p) <= n * p
    ensures 2 * Abs(z * (w * u) - x * (p * f)) <= (n + 1) * (p * f)
  {
    ScaleBound(2 * (z * u - f * y), u, w);
    ScaleBound(2 * (y * w - x * p), n * p, f);
    Regroup(z, w, u, f, y, x, p, n);
  }

  lemma Regroup(z: int, w: int, u: int, f: int, y: int, x: int, p: int, n: int)
    ensures z * (w * u) - x * (p * f) == (z * u - f * y) * w + (y * w - x * p) * f
    ensures 2 * (z * u - f * y) * w == 2 * ((z * u - f * y) * w)
    ensures 2 * (y * w - x * p) * f == 2 * ((y * w - x * p) * f)
    ensures u * w == w * u
    ensures (n + 1) * (p * f) == n * p * f + p * f
  {
  }

  lemma ScaleBound(x: int, b: int, k: nat)
    requires Abs(x) <= b
    ensures Abs(x * k) <= b * k
  {
    MulOrder(x, b, k);
    MulOrder(-x, b, k);
  }
}
