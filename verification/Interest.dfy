/** How far the pool's compounded interest is from exact compounding: the four terms it keeps of the binomial
    expansion, the terms it drops, and what its roundings add or take away. */
module Interest {
  import opened Arithmetic
  import opened Constants
  import opened Loans
  import HalfUp
  import Tolerance

  // How many pairs, triples and quadruples there are among n things.
  function Pairs(n: nat): nat {
    if n == 0 then 0 else Pairs(n - 1) + (n - 1)
  }

  function Triples(n: nat): nat {
    if n == 0 then 0 else Triples(n - 1) + Pairs(n - 1)
  }

  // How many ways there are to choose k among n things, from triples on.
  function Choose(n: nat, k: nat): nat
    requires k >= 3
  {
    if k == 3 then Triples(n) else if n == 0 then 0 else Choose(n - 1, k) + Choose(n - 1, k - 1)
  }

  // The first four terms of (u + r)^n, over u^(n - 3).
  function FourTerms(u: nat, r: nat, n: nat): int {
    u * (u * (u + n * r) + Pairs(n) * (r * r)) + Triples(n) * (r * (r * r))
  }

  // The terms of (u + r)^n after the k-th power of r, times u^k.
  function Dropped(u: nat, r: nat, n: nat, k: nat): int
    requires k >= 3
  {
    if n == 0 then
      0
    else
      (u + r) * Dropped(u, r, n - 1, k) + Choose(n - 1, k) * Tolerance.Power(r, k + 1) * Tolerance.Power(u, n - 1)
  }

  // The first of them, over u^(n - k - 1).
  function FirstDropped(r: nat, n: nat, k: nat): nat
    requires k >= 3
  {
    MulOrder(0, Choose(n, k + 1), Tolerance.Power(r, k + 1));
    Choose(n, k + 1) * Tolerance.Power(r, k + 1)
  }

  // What the two rounded powers of the rate add to the four terms.
  function Rounding(u: nat, r: nat, n: nat): int
    requires u > 0
  {
    var two := HalfUp.Mul(u, r, r);
    var three := HalfUp.Mul(u, two, r);
    var e, f := two * u - r * r, three * u - two * r;
    Pairs(n) * (u * e) + Triples(n) * (r * e + u * f)
  }

  /** The four terms and the dropped ones are all of the exact compound. */
  lemma {:induction false} Expansion(u: nat, r: nat, n: nat)
    ensures Tolerance.Power(u + r, n) * (u * u * u) == FourTerms(u, r, n) * Tolerance.Power(u, n) + Dropped(u, r, n, 3)
  {
    if n == 0 {
      assert u * u * u == u * (u * u);
    } else {
      Expansion(u, r, n - 1);
      NextTerms(u, r, n - 1);
      assert r * (Triples(n - 1) * (r * (r * r))) == Triples(n - 1) * Tolerance.Power(r, 4) by {
        FourthPower(r);
        Swap(r, Triples(n - 1), r * (r * r));
      }
      Unroll(u, r, Tolerance.Power(u + r, n - 1), u * u * u, FourTerms(u, r, n - 1), FourTerms(u, r, n),
             Tolerance.Power(u, n - 1), Dropped(u, r, n - 1, 3), r * (Triples(n - 1) * (r * (r * r))));
    }
  }

  lemma FourthPower(r: nat)
    ensures Tolerance.Power(r, 4) == r * (r * (r * r))
  {
    assert Tolerance.Power(r, 0) == 1 && Tolerance.Power(r, 1) == r;
    assert Tolerance.Power(r, 2) == r * r && Tolerance.Power(r, 3) == r * (r * r);
  }

  lemma Swap(a: int, b: int, c: int)
    ensures a * (b * c) == b * (a * c)
  {
  }

  lemma NextTerms(u: nat, r: nat, n: nat)
    ensures (u + r) * FourTerms(u, r, n) == u * FourTerms(u, r, n + 1) + r * (Triples(n) * (r * (r * r)))
  {
    var p, t, square, cube := Pairs(n), Triples(n), r * r, r * (r * r);
    var a := u + n * r;
    var b := u * a + p * square;
    assert u * (u + (n + 1) * r) + (p + n) * square == b + r * a by { NextSquare(u, r, n, p); }
    assert (u + r) * (u * b + t * cube) == u * (u * (b + r * a) + (t + p) * cube) + r * (t * cube) by {
      NextCube(u, r, a, b, p, t, square, cube);
    }
  }

  lemma NextSquare(u: int, r: int, n: int, p: int)
    ensures u * (u + (n + 1) * r) + (p + n) * (r * r) == u * (u + n * r) + p * (r * r) + r * (u + n * r)
  {
    assert (n + 1) * r == n * r + r;
    assert u * (u + n * r + r) == u * (u + n * r) + u * r;
    assert (p + n) * (r * r) == p * (r * r) + n * (r * r);
    assert r * (u + n * r) == r * u + r * (n * r);
  }

  lemma NextCube(u: int, r: int, a: int, b: int, p: int, t: int, square: int, cube: int)
    requires b == u * a + p * square && cube == r * square
    ensures (u + r) * (u * b + t * cube) == u * (u * (b + r * a) + (t + p) * cube) + r * (t * cube)
  {
    var f := u * b + t * cube;
    assert r * b == r * (u * a) + r * (p * square);
    assert r * (u * a) == u * (r * a) && r * (p * square) == p * cube;
    assert r * f == r * (u * b) + r * (t * cube);
    assert r * (u * b) == u * (r * b);
    assert u * (b + r * a) == u * b + u * (r * a);
    assert (t + p) * cube == t * cube + p * cube;
    assert u * (b + r * a) + (t + p) * cube == f + r * b;
    assert u * (f + r * b) == u * f + u * (r * b);
    assert (u + r) * f == u * f + r * f;
  }

  lemma Unroll(u: int, r: int, power: int, cube: int, terms: int, terms': int, w: int, d: int, first: int)
    requires power * cube == terms * w + d && (u + r) * terms == u * terms' + first
    ensures power * (u + r) * cube == terms' * (w * u) + ((u + r) * d + first * w)
  {
    assert power * (u + r) * cube == (u + r) * (power * cube);
    assert (u + r) * (terms * w) == (u + r) * terms * w;
    assert (u * terms' + first) * w == terms' * (w * u) + first * w;
  }

  /** The factor the pool computes is the four terms plus the roundings. */
  lemma FactorIsFourTerms(rate: nat, n: nat)
    ensures CompoundedInterest(rate, n) * (RAY * RAY) ==
            FourTerms(RAY, rate / SECONDS_PER_YEAR, n) + Rounding(RAY, rate / SECONDS_PER_YEAR, n)
  {
    var r := rate / SECONDS_PER_YEAR;
    var two := HalfUp.Mul(RAY, r, r);
    var three := HalfUp.Mul(RAY, two, r);
    TermsCount(n, two, three);
    Collect(RAY, r, n, Pairs(n), Triples(n), two, three);
  }

  lemma TermsCount(n: nat, two: nat, three: nat)
    ensures n > 0 ==> SecondTerm(n, two) == Pairs(n) * two && ThirdTerm(n, three) == Triples(n) * three
    ensures n == 0 ==> Pairs(n) == 0 && Triples(n) == 0
  {
    Counts(n);
    if n > 0 {
      var less := if n > 2 then n - 2 else 0;
      assert n * (n - 1) * less == n * (n - 1) * (n - 2);
      Halve(n * (n - 1), Pairs(n), two, 2);
      Halve(n * (n - 1) * less, Triples(n), three, 6);
    }
  }

  lemma Halve(product: int, count: int, x: int, d: int)
    requires d > 0 && product == d * count
    ensures product * x / d == count * x
  {
    assert product * x == count * x * d;
    QuotientUnique(product * x, d, count * x);
  }

  lemma {:induction false} Counts(n: nat)
    ensures n * (n - 1) == 2 * Pairs(n)
    ensures n * (n - 1) * (n - 2) == 6 * Triples(n)
  {
    if n > 0 {
      Counts(n - 1);
      assert n * (n - 1) == (n - 1) * (n - 2) + 2 * (n - 1);
      assert n * (n - 1) * (n - 2) == (n - 1) * (n - 2) * (n - 3) + 3 * ((n - 1) * (n - 2));
    }
  }

  lemma Collect(u: int, r: int, n: int, p: int, t: int, two: int, three: int)
    ensures var e, f := two * u - r * r, three * u - two * r;
            (u + n * r + p * two + t * three) * (u * u) ==
            u * (u * (u + n * r) + p * (r * r)) + t * (r * (r * r)) + (p * (u * e) + t * (r * e + u * f))
  {
    var square, e, f := r * r, two * u - r * r, three * u - two * r;
    SecondPower(u, square, two);
    ThirdPower(u, r, square, two, three);
    Distribute(u + n * r, p, two, t, three, u * u);
    Gather(u, u + n * r, p, t, square, r * square, u * e, r * e + u * f);
  }

  lemma SecondPower(u: int, square: int, two: int)
    ensures two * (u * u) == u * square + u * (two * u - square)
  {
  }

  lemma ThirdPower(u: int, r: int, square: int, two: int, three: int)
    ensures three * (u * u) == r * square + (r * (two * u - square) + u * (three * u - two * r))
  {
    assert r * (two * u - square) == r * (two * u) - r * square;
    assert u * (three * u - two * r) == u * (three * u) - u * (two * r);
  }

  lemma Gather(u: int, a: int, p: int, t: int, square: int, cube: int, x: int, y: int)
    ensures a * (u * u) + p * (u * square + x) + t * (cube + y) == u * (u * a + p * square) + t * cube + (p * x + t * y)
  {
    assert u * (u * a + p * square) == u * (u * a) + u * (p * square);
    assert p * (u * square + x) == p * (u * square) + p * x;
  }

  lemma Distribute(a: int, p: int, two: int, t: int, three: int, uu: int)
    ensures (a + p * two + t * three) * uu == a * uu + p * (two * uu) + t * (three * uu)
  {
    assert (a + p * two + t * three) * uu == a * uu + p * two * uu + t * three * uu;
  }

  /** The pool's factor never exceeds exact compounding by more than its roundings, and falls short of it by
      exactly the dropped terms and them; the roundings are at most half a unit for each pair of seconds and
      1 + r / u halves for each triple. */
  lemma InterestError(rate: nat, n: nat)
    ensures var r := rate / SECONDS_PER_YEAR;
            && r >= 0
            && CompoundedInterest(rate, n) * (RAY * RAY) * Tolerance.Power(RAY, n) + Dropped(RAY, r, n, 3) ==
               Tolerance.Power(RAY + r, n) * (RAY * RAY * RAY) + Rounding(RAY, r, n) * Tolerance.Power(RAY, n)
            && 2 * Abs(Rounding(RAY, r, n)) <= Pairs(n) * (RAY * RAY) + Triples(n) * (r * RAY + RAY * RAY)
  {
    hide CompoundedInterest, FourTerms, Dropped, Rounding, Pairs, Triples, Tolerance.Power;
    QuotientNonnegative(rate, SECONDS_PER_YEAR);
    var r := rate / SECONDS_PER_YEAR;
    FactorIsFourTerms(rate, n);
    Expansion(RAY, r, n);
    RoundingBound(RAY, r, n);
    Spread(CompoundedInterest(rate, n) * (RAY * RAY), FourTerms(RAY, r, n), Rounding(RAY, r, n), Tolerance.Power(RAY,
           n));
  }

  lemma Spread(x: int, a: int, b: int, w: int)
    requires x == a + b
    ensures x * w == a * w + b * w
  {
  }

  lemma RoundingBound(u: nat, r: nat, n: nat)
    requires HalfUp.Unit(u)
    ensures 2 * Abs(Rounding(u, r, n)) <= Pairs(n) * (u * u) + Triples(n) * (r * u + u * u)
  {
    hide HalfUp.Mul, Pairs, Triples;
    var two := HalfUp.Mul(u, r, r);
    var three := HalfUp.Mul(u, two, r);
    HalfUp.MulError(u, r, r);
    HalfUp.MulError(u, two, r);
    ErrorsBound(u, r, two * u - r * r, three * u - two * r, Pairs(n), Triples(n));
  }

  lemma ErrorsBound(u: nat, r: nat, e: int, f: int, p: nat, t: nat)
    requires 2 * Abs(e) <= u && 2 * Abs(f) <= u
    ensures 2 * Abs(p * (u * e) + t * (r * e + u * f)) <= p * (u * u) + t * (r * u + u * u)
  {
    Scaled(e, u, u);
    Scaled(e, u, r);
    Scaled(f, u, u);
    Scaled(u * e, u * u, p);
    Scaled(r * e + u * f, r * u + u * u, t);
  }

  lemma Scaled(x: int, b: int, k: nat)
    requires 2 * Abs(x) <= b
    ensures 2 * Abs(k * x) <= k * b
  {
    Tolerance.ScaleBound(2 * x, b, k);
    assert 2 * x * k == 2 * (k * x) && b * k == k * b;
  }

  // What is dropped is never less than nothing, and nothing as long as there are at most k seconds.
  lemma {:induction false} DroppedBounds(u: nat, r: nat, n: nat, k: nat)
    requires k >= 3
    ensures Dropped(u, r, n, k) >= 0
    ensures n <= k ==> Dropped(u, r, n, k) == 0
  {
    if n > 0 {
      DroppedBounds(u, r, n - 1, k);
      MulOrder(0, Dropped(u, r, n - 1, k), u + r);
      MulOrder(0, Choose(n - 1, k), Tolerance.Power(r, k + 1));
      MulOrder(0, Choose(n - 1, k) * Tolerance.Power(r, k + 1), Tolerance.Power(u, n - 1));
      if n <= k {
        NoneToChoose(n - 1, k);
      }
    }
  }

  lemma {:induction false} NoneToChoose(n: nat, k: nat)
    requires k >= 3 && n < k
    ensures Choose(n, k) == 0
  {
    if k == 3 {
      assert Triples(0) == Pairs(0) == Pairs(1) == 0;
      assert Triples(1) == 0 && Triples(2) == Triples(1) + Pairs(1);
    } else if n > 0 {
      NoneToChoose(n - 1, k);
      NoneToChoose(n - 1, k - 1);
    }
  }

  // One more second adds this to the first dropped term and to all of them.
  lemma NextDropped(u: nat, r: nat, n: nat, k: nat)
    requires k >= 3
    ensures var t := Choose(n, k) * Tolerance.Power(r, k + 1);
            && t >= 0 && FirstDropped(r, n + 1, k) == FirstDropped(r, n, k) + t
            && Dropped(u, r, n + 1, k) == (u + r) * Dropped(u, r, n, k) + t * Tolerance.Power(u, n)
            && Choose(n, k + 1) * Tolerance.Power(r, k + 2) == FirstDropped(r, n, k) * r
  {
    hide Tolerance.Power, Choose;
    MulOrder(0, Choose(n, k), Tolerance.Power(r, k + 1));
    NextChoice(n, k);
    SumTimes(Choose(n, k + 1), Choose(n, k), Tolerance.Power(r, k + 1));
    OnePowerMore(Choose(n, k + 1), r, k + 1);
    assert FirstDropped(r, n, k) == Choose(n, k + 1) * Tolerance.Power(r, k + 1);
    assert FirstDropped(r, n + 1, k) == Choose(n + 1, k + 1) * Tolerance.Power(r, k + 1);
    var t := Choose(n, k) * Tolerance.Power(r, k + 1);
    assert Dropped(u, r, n + 1, k) == (u + r) * Dropped(u, r, n, k) + t * Tolerance.Power(u, n);
  }

  lemma NextChoice(n: nat, k: nat)
    requires k >= 3
    ensures Choose(n + 1, k + 1) == Choose(n, k + 1) + Choose(n, k)
  {
  }

  lemma OnePowerMore(count: nat, r: nat, k: nat)
    ensures count * Tolerance.Power(r, k + 1) == count * Tolerance.Power(r, k) * r
  {
    assert Tolerance.Power(r, k + 1) == Tolerance.Power(r, k) * r;
  }

  /** The dropped terms are the first of them and the others. */
  lemma {:induction false} Peel(u: nat, r: nat, n: nat, k: nat)
    requires k >= 3
    ensures Dropped(u, r, n, k) * u == FirstDropped(r, n, k) * Tolerance.Power(u, n) + Dropped(u, r, n, k + 1)
  {
    if n > 0 {
      hide FirstDropped, Dropped;
      Peel(u, r, n - 1, k);
      NextDropped(u, r, n - 1, k);
      NextDropped(u, r, n - 1, k + 1);
      PeelStep(u, r, Dropped(u, r, n - 1, k), Dropped(u, r, n - 1, k + 1), Tolerance.Power(u, n - 1),
               Choose(n - 1, k) * Tolerance.Power(r, k + 1), FirstDropped(r, n - 1, k));
    } else {
      assert Choose(0, k + 1) == 0;
    }
  }

  lemma PeelStep(u: int, r: int, d: int, rest: int, w: int, t: int, f: int)
    requires d * u == f * w + rest
    ensures ((u + r) * d + t * w) * u == (f + t) * (w * u) + ((u + r) * rest + f * r * w)
  {
    assert ((u + r) * d + t * w) * u == (u + r) * (d * u) + t * (w * u);
    assert (u + r) * (f * w + rest) == u * (f * w) + r * (f * w) + (u + r) * rest;
    SumTimes(f, t, w * u);
    assert u * (f * w) == f * (w * u) && r * (f * w) == f * r * w;
  }

  /** They are at most u / (u - n * r) times the first, as long as simple interest does not double the debt. */
  lemma {:induction false} DroppedAtMost(u: nat, r: nat, n: nat, k: nat)
    requires k >= 3 && n * r <= u
    ensures Dropped(u, r, n, k) * (u - n * r) <= FirstDropped(r, n, k) * Tolerance.Power(u, n)
  {
    if n > 0 {
      hide FirstDropped, Dropped;
      assert n * r == (n - 1) * r + r by { MulSuccessor(n - 1, r); }
      MulOrder(0, n - 1, r);
      DroppedAtMost(u, r, n - 1, k);
      DroppedBounds(u, r, n - 1, k);
      NextDropped(u, r, n - 1, k);
      var t, w := Choose(n - 1, k) * Tolerance.Power(r, k + 1), Tolerance.Power(u, n - 1);
      MulOrder(0, t, w);
      UpperStep(u, r, (n - 1) * r, Dropped(u, r, n - 1, k), w, t, FirstDropped(r, n - 1, k));
    }
  }

  // k is the simple interest of the steps before.
  lemma UpperStep(u: nat, r: nat, k: nat, d: nat, w: nat, t: nat, f: nat)
    requires k + r <= u && d * (u - k) <= f * w && t * w >= 0
    ensures ((u + r) * d + t * w) * (u - (k + r)) <= (f + t) * (w * u)
  {
    Shrinks(u, r, k);
    UpperSum(u, u + r, u - k, u - (k + r), d, t * w, f * w);
    SumTimes(f, t, w);
    assert (f + t) * (w * u) == (f + t) * w * u;
  }

  lemma Shrinks(u: int, r: nat, k: nat)
    ensures (u + r) * (u - (k + r)) <= u * (u - k)
  {
    MulOrder(0, r, k);
    MulOrder(0, r, r);
    assert (u + r) * (u - (k + r)) == u * (u - k) - r * k - r * r;
  }

  lemma UpperSum(u: nat, v: nat, x: nat, y: nat, d: nat, t: nat, f: int)
    requires v * y <= u * x && y <= u && d * x <= f
    ensures (v * d + t) * y <= (f + t) * u
  {
    SumTimes(v * d, t, y);
    SumTimes(f, t, u);
    assert v * d * y == v * y * d;
    MulOrder(v * y, u * x, d);
    assert u * x * d == d * x * u;
    MulOrder(d * x, f, u);
    MulOrder(y, u, t);
  }

  // The pool's factor is at most the exact compound of the floored rate a second.
  ghost predicate Undercharges(rate: nat, n: nat) {
    QuotientNonnegative(rate, SECONDS_PER_YEAR);
    CompoundedInterest(rate, n) * (RAY * RAY) * Tolerance.Power(RAY, n) <=
    Tolerance.Power(RAY + rate / SECONDS_PER_YEAR, n) * (RAY * RAY * RAY)
  }

  // Whether x, over u^k, is covered by what is dropped after the k-th power: one term at a time, stopping as
  // soon as x is used up, nothing is left to drop, or all that is left cannot cover x.
  predicate Covered(x: int, u: nat, r: nat, n: nat, k: nat)
    requires k >= 3
    decreases if n > k then n - k else 0
  {
    var first := FirstDropped(r, n, k);
    if x <= 0 then true
    else if n <= k || (n * r <= u && x * (u - n * r) > first) then false
    else Covered(x * u - first, u, r, n, k + 1)
  }

  lemma {:induction false} CoveredIff(x: int, u: nat, r: nat, n: nat, k: nat)
    requires k >= 3 && u > 0
    ensures Covered(x, u, r, n, k) <==> x * Tolerance.Power(u, n) <= Dropped(u, r, n, k)
    decreases if n > k then n - k else 0
  {
    hide FirstDropped, Dropped, Tolerance.Power;
    var w, first := Tolerance.Power(u, n), FirstDropped(r, n, k);
    PowerPositive(u, n);
    DroppedBounds(u, r, n, k);
    if x <= 0 || n <= k {
      SignKept(x, w);
    } else if n * r <= u && x * (u - n * r) > first {
      DroppedAtMost(u, r, n, k);
      AboveFirst(x, u - n * r, w, Dropped(u, r, n, k), first);
    } else {
      CoveredIff(x * u - first, u, r, n, k + 1);
      Peel(u, r, n, k);
      Peeled(x, u, w, Dropped(u, r, n, k), first, Dropped(u, r, n, k + 1));
    }
  }

  lemma Peeled(x: int, u: nat, w: nat, d: int, first: int, rest: int)
    requires u > 0 && d * u == first * w + rest
    ensures x * w <= d <==> (x * u - first) * w <= rest
  {
    SumTimes(x * u, -first, w);
    assert x * u * w == x * w * u && -first * w == -(first * w);
    if x * w <= d {
      MulOrder(x * w, d, u);
    } else {
      MulOrder(d + 1, x * w, u);
      MulSuccessor(d, u);
    }
  }

  /** Interest is undercharged, as documented, exactly when the dropped terms cover the roundings, which a few
      of them tell. */
  lemma UnderchargesIff(rate: nat, n: nat)
    ensures var r := rate / SECONDS_PER_YEAR;
            r >= 0 && (Undercharges(rate, n) <==> Covered(Rounding(RAY, r, n), RAY, r, n, 3))
  {
    hide CompoundedInterest, FourTerms, Dropped, Rounding, Pairs, Triples, Tolerance.Power, Covered;
    InterestError(rate, n);
    var r := rate / SECONDS_PER_YEAR;
    CoveredIff(Rounding(RAY, r, n), RAY, r, n, 3);
  }

  /** The first dropped term alone tells for up to three seconds, and past them but for the sliver between it
      and u / (u - n * r) times it. */
  lemma UnderchargesByFirstDropped(rate: nat, n: nat)
    ensures var r := rate / SECONDS_PER_YEAR;
            && r >= 0
            && var x, first := Rounding(RAY, r, n), FirstDropped(r, n, 3);
            && (n <= 3 ==> (Undercharges(rate, n) <==> x <= 0))
            && (x * RAY <= first ==> Undercharges(rate, n))
            && (n * r <= RAY && x * (RAY - n * r) > first ==> !Undercharges(rate, n))
  {
    hide Undercharges, Rounding, FirstDropped;
    UnderchargesIff(rate, n);
    var r := rate / SECONDS_PER_YEAR;
    var x, first := Rounding(RAY, r, n), FirstDropped(r, n, 3);
    if 0 < x && x * RAY <= first {
      MulOrder(0, n, r);
      MulOrder(RAY - n * r, RAY, x);
      NoneDropped(r, n);
    }
    if n * r <= RAY && x <= 0 {
      MulOrder(x, 0, RAY - n * r);
    }
  }

  lemma NoneDropped(r: nat, n: nat)
    ensures n <= 3 ==> FirstDropped(r, n, 3) == 0
  {
    if n <= 3 {
      NoneToChoose(n, 4);
    }
  }

  lemma {:induction false} PowerPositive(u: nat, n: nat)
    requires u > 0
    ensures Tolerance.Power(u, n) > 0
  {
    if n > 0 {
      PowerPositive(u, n - 1);
      MulOrder(1, Tolerance.Power(u, n - 1), u);
    }
  }

  lemma SignKept(k: int, w: nat)
    requires w > 0
    ensures k * w <= 0 <==> k <= 0
  {
    if k <= 0 {
      MulOrder(k, 0, w);
    } else {
      MulOrder(1, k, w);
    }
  }

  lemma AboveFirst(k: int, v: nat, w: nat, d: int, first: int)
    requires w > 0 && d * v <= first * w && k * v > first
    ensures k * w > d
  {
    MulOrder(first + 1, k * v, w);
    MulSuccessor(first, w);
    assert k * v * w == k * w * v;
    if k * w <= d {
      MulOrder(k * w, d, v);
    }
  }

  /** It can be overcharged: after two seconds exactly when the squared rate rounds up, as it does at a rate
      of 3e13 a second. */
  lemma TwoSecondsOverchargeIff(rate: nat)
    ensures var r := rate / SECONDS_PER_YEAR;
            && r >= 0
            && (CompoundedInterest(rate, 2) * RAY > (RAY + r) * (RAY + r) <==> r * r % RAY >= HALF_RAY)
            && (r == 30_000_000_000_000 ==> r * r % RAY >= HALF_RAY)
  {
    QuotientNonnegative(rate, SECONDS_PER_YEAR);
    var r := rate / SECONDS_PER_YEAR;
    TermsCount(2, HalfUp.Mul(RAY, r, r), HalfUp.Mul(RAY, HalfUp.Mul(RAY, r, r), r));
    assert Pairs(1) == 0 && Triples(1) == 0 && Pairs(2) == 1 && Triples(2) == 0;
    RoundsUpIff(r * r, HalfUp.Mul(RAY, r, r));
    TwoSeconds(RAY, r, CompoundedInterest(rate, 2), HalfUp.Mul(RAY, r, r));
  }

  lemma TwoSeconds(u: nat, r: nat, factor: nat, two: nat)
    requires u > 0
    requires factor == u + 2 * r + two
    ensures factor * u > (u + r) * (u + r) <==> two * u > r * r
  {
    assert factor * u == u * u + 2 * (r * u) + two * u;
    assert (u + r) * (u + r) == u * u + 2 * (r * u) + r * r;
  }

  lemma RoundsUpIff(x: nat, y: nat)
    requires y == (x + RAY / 2) / RAY
    ensures y * RAY > x <==> x % RAY >= HALF_RAY
  {
    QuotientBounds(x, RAY);
    QuotientUnique(x + RAY / 2, RAY, if x % RAY >= HALF_RAY then x / RAY + 1 else x / RAY);
  }
}
