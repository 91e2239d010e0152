/** The wad, ray and percent operations of test/helpers/utils/math.ts under a BigNumber configuration,
    and what switching the configuration changes. */
module FixedPoint {
  import opened Arithmetic
  import opened BigNumbers
  import opened Constants
  import HalfUp

  // half.plus(x.multipliedBy(a)).div(u).decimalPlaces(0, ROUND_DOWN)
  function MulIn(c: Config, u: nat, x: nat, a: nat): nat
    requires u > 0
  {
    Truncate(Div(c, u / 2 + x * a, u))
  }

  // halfA.plus(x.multipliedBy(u)).div(a).decimalPlaces(0, ROUND_DOWN), halfA being a.div(2) truncated
  function DivIn(c: Config, u: nat, x: nat, a: nat): nat
    requires a > 0
  {
    var halfA := Truncate(Div(c, a, 2));
    Truncate(Div(c, halfA + x * u, a))
  }

  function WadMul(c: Config, x: nat, b: nat): nat {
    MulIn(c, WAD, x, b)
  }

  function WadDiv(c: Config, x: nat, a: nat): nat
    requires a > 0
  {
    DivIn(c, WAD, x, a)
  }

  function RayMul(c: Config, x: nat, a: nat): nat {
    MulIn(c, RAY, x, a)
  }

  function RayDiv(c: Config, x: nat, a: nat): nat
    requires a > 0
  {
    DivIn(c, RAY, x, a)
  }

  function PercentMul(c: Config, x: nat, b: nat): nat {
    MulIn(c, PERCENTAGE_FACTOR, x, b)
  }

  function PercentDiv(c: Config, x: nat, a: nat): nat
    requires a > 0
  {
    DivIn(c, PERCENTAGE_FACTOR, x, a)
  }

  // The half ratio is itself a quotient; its fraction is zero in every configuration.
  function RayToWad(c: Config, x: nat): nat {
    var halfRatio := Truncate(Div(c, WAD_RAY_RATIO, 2));
    Truncate(Div(c, halfRatio + x, WAD_RAY_RATIO))
  }

  function WadToRay(x: nat): nat {
    x * WAD_RAY_RATIO
  }

  /** Under the suites' configuration every operation is the exact half-up operation. */
  lemma SuiteIsHalfUp(u: nat, x: nat, a: nat)
    requires u > 0
    ensures MulIn(SUITE, u, x, a) == HalfUp.Mul(u, x, a)
    ensures a > 0 ==> DivIn(SUITE, u, x, a) == HalfUp.Div(u, x, a)
  {
    TruncatedQuotient(SUITE, u / 2 + x * a, u);
    if a > 0 {
      TruncatedQuotient(SUITE, a, 2);
      TruncatedQuotient(SUITE, a / 2 + x * u, a);
    }
  }

  lemma ResetUnitOfLastPlace()
    ensures Pow10(RESET.places) == 100_000_000_000_000_000_000
  {
    Pow10Sum(10, 10);
  }

  /** The units are a wad of 18 decimals, a ray of 27 and a percentage of 4, half of each its half. */
  lemma UnitsAre()
    ensures WAD == Pow10(18) && RAY == Pow10(27) && PERCENTAGE_FACTOR == Pow10(4) && WAD_RAY_RATIO == Pow10(9)
    ensures 2 * HALF_WAD == WAD && 2 * HALF_RAY == RAY && 2 * HALF_PERCENTAGE == PERCENTAGE_FACTOR
    ensures var word := 0x1_0000_0000_0000_0000; MAX_UINT256 + 1 == word * word * word * word
  {
    assert Pow10(9) == 1_000_000_000;
    Pow10Sum(9, 9);
    Pow10Sum(18, 9);
  }

  /** Each operation, under the suites' configuration, is the half-up one in its own unit. */
  lemma NamedOperations(x: nat, a: nat)
    ensures WadMul(SUITE, x, a) == HalfUp.Mul(Pow10(18), x, a)
    ensures RayMul(SUITE, x, a) == HalfUp.Mul(Pow10(27), x, a)
    ensures PercentMul(SUITE, x, a) == HalfUp.Mul(Pow10(4), x, a)
    ensures a > 0 ==> WadDiv(SUITE, x, a) == HalfUp.Div(Pow10(18), x, a)
    ensures a > 0 ==> RayDiv(SUITE, x, a) == HalfUp.Div(Pow10(27), x, a)
    ensures a > 0 ==> PercentDiv(SUITE, x, a) == HalfUp.Div(Pow10(4), x, a)
    ensures RayToWad(SUITE, x) == HalfUp.Div(1, x, Pow10(9)) && WadToRay(x) == x * Pow10(9)
  {
    hide Pow10, MulIn, DivIn;
    UnitsAre();
    forall u | u in {WAD, RAY, PERCENTAGE_FACTOR}
      ensures MulIn(SUITE, u, x, a) == HalfUp.Mul(u, x, a)
      ensures a > 0 ==> DivIn(SUITE, u, x, a) == HalfUp.Div(u, x, a)
    {
      SuiteIsHalfUp(u, x, a);
    }
    ProductsIgnoreConfiguration(x, a);
  }

  /** Restoring the default configuration rounds every quotient twice; the second rounding carries
      exactly when the remainder lies within half a unit of the twentieth decimal of the divisor. */
  lemma ResetCarries(u: nat, x: nat, a: nat)
    requires u > 0
    ensures var r := (x * a + u / 2) % u;
            MulIn(RESET, u, x, a) ==
            HalfUp.Mul(u, x, a) + if 200_000_000_000_000_000_000 * (u - r) <= u then 1 else 0
    ensures a > 0 ==>
            var r := (x * u + a / 2) % a;
            DivIn(RESET, u, x, a) ==
            HalfUp.Div(u, x, a) + if 200_000_000_000_000_000_000 * (a - r) <= a then 1 else 0
  {
    hide Div, Pow10;
    ResetUnitOfLastPlace();
    TruncatedQuotient(RESET, u / 2 + x * a, u);
    if a > 0 {
      TruncatedQuotient(RESET, a, 2);
      TruncatedQuotient(RESET, a / 2 + x * u, a);
    }
  }

  /** Wad and percent products and the ray-to-wad cast do not depend on which configuration is set. */
  lemma ProductsIgnoreConfiguration(x: nat, b: nat)
    ensures WadMul(RESET, x, b) == WadMul(SUITE, x, b)
    ensures PercentMul(RESET, x, b) == PercentMul(SUITE, x, b)
    ensures RayToWad(RESET, x) == RayToWad(SUITE, x) == (x + WAD_RAY_RATIO / 2) / WAD_RAY_RATIO
  {
    SuiteIsHalfUp(WAD, x, b);
    ResetCarries(WAD, x, b);
    SuiteIsHalfUp(PERCENTAGE_FACTOR, x, b);
    ResetCarries(PERCENTAGE_FACTOR, x, b);
    ResetUnitOfLastPlace();
    forall c | c in {SUITE, RESET} ensures RayToWad(c, x) == (x + WAD_RAY_RATIO / 2) / WAD_RAY_RATIO {
      TruncatedQuotient(c, WAD_RAY_RATIO, 2);
      TruncatedQuotient(c, WAD_RAY_RATIO / 2 + x, WAD_RAY_RATIO);
    }
  }

  /** A ray product does depend on it: the default configuration adds five million to the half unit. */
  lemma RayMulUnderReset(x: nat, a: nat)
    ensures RayMul(RESET, x, a) == (x * a + HALF_RAY + 5_000_000) / RAY
    ensures RayMul(SUITE, x, a) <= RayMul(RESET, x, a) <= RayMul(SUITE, x, a) + 1
  {
    hide MulIn;
    SuiteIsHalfUp(RAY, x, a);
    ResetCarries(RAY, x, a);
    CarryIsShift(x * a + HALF_RAY);
  }

  lemma CarryIsShift(n: nat)
    ensures n / RAY + (if 200_000_000_000_000_000_000 * (RAY - n % RAY) <= RAY then 1 else 0) == (n + 5_000_000) / RAY
  {
    QuotientBounds(n, RAY);
    QuotientUnique(n + 5_000_000, RAY, if n % RAY >= RAY - 5_000_000 then n / RAY + 1 else n / RAY);
  }

  /** Quotients agree for every divisor below twice the unit of the twentieth decimal. */
  lemma QuotientsAgreeBelow(x: nat, a: nat)
    requires 0 < a < 200_000_000_000_000_000_000
    ensures WadDiv(RESET, x, a) == WadDiv(SUITE, x, a)
    ensures RayDiv(RESET, x, a) == RayDiv(SUITE, x, a)
    ensures PercentDiv(RESET, x, a) == PercentDiv(SUITE, x, a)
  {
    forall u | u in {WAD, RAY, PERCENTAGE_FACTOR} ensures DivIn(RESET, u, x, a) == DivIn(SUITE, u, x, a) {
      SuiteIsHalfUp(u, x, a);
      ResetCarries(u, x, a);
    }
  }

  /** For every other divisor the default configuration exceeds the suites' by at most one, and
      exactly when the truncated remainder is that close to the divisor. */
  lemma QuotientsDifferExactly(u: nat, x: nat, a: nat)
    requires u > 0 && a > 0
    ensures var r := (x * u + a / 2) % a;
            var carry := 200_000_000_000_000_000_000 * (a - r) <= a;
            DivIn(RESET, u, x, a) == DivIn(SUITE, u, x, a) + if carry then 1 else 0
  {
    SuiteIsHalfUp(u, x, a);
    ResetCarries(u, x, a);
  }
}
