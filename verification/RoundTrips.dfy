/** Which operations of test/helpers/utils/math.ts undo each other, and by how much the others miss. */
module RoundTrips {
  import opened Arithmetic
  import opened BigNumbers
  import opened Constants
  import opened FixedPoint
  import HalfUp

  /** In any unit, a division undoes the multiplication for every operand exactly when the factor is
      at least the unit, and a multiplication undoes the division exactly when it is at most the unit. */
  lemma InversesByUnit(u: nat, a: nat)
    requires HalfUp.Unit(u) && a > 0
    ensures (forall x: nat :: DivIn(SUITE, u, MulIn(SUITE, u, x, a), a) == x) <==> a >= u
    ensures (forall x: nat :: MulIn(SUITE, u, DivIn(SUITE, u, x, a), a) == x) <==> a <= u
  {
    forall x: nat
      ensures DivIn(SUITE, u, MulIn(SUITE, u, x, a), a) == HalfUp.Div(u, HalfUp.Mul(u, x, a), a)
      ensures MulIn(SUITE, u, DivIn(SUITE, u, x, a), a) == HalfUp.Mul(u, HalfUp.Div(u, x, a), a)
    {
      SuiteIsHalfUp(u, x, a);
      SuiteIsHalfUp(u, HalfUp.Mul(u, x, a), a);
      SuiteIsHalfUp(u, HalfUp.Div(u, x, a), a);
    }
    HalfUp.DivUndoesMulIff(u, a);
    HalfUp.MulUndoesDivIff(u, a);
  }

  /** On the wrong side of the unit both round trips err by at most half of the larger of the two ratios plus a half. */
  lemma InverseErrors(u: nat, x: nat, a: nat)
    requires HalfUp.Unit(u) && a > 0
    ensures 2 * u * Abs(MulIn(SUITE, u, DivIn(SUITE, u, x, a), a) - x) <= a + u
    ensures 2 * a * Abs(DivIn(SUITE, u, MulIn(SUITE, u, x, a), a) - x) <= a + u
  {
    SuiteIsHalfUp(u, x, a);
    SuiteIsHalfUp(u, HalfUp.Mul(u, x, a), a);
    SuiteIsHalfUp(u, HalfUp.Div(u, x, a), a);
    HalfUp.MulAfterDivError(u, x, a);
    HalfUp.DivAfterMulError(u, x, a);
  }

  // How near to the next unit the default configuration may still carry a quotient by a.
  function CarryReach(a: nat): nat {
    QuotientNonnegative(a, 200_000_000_000_000_000_000);
    a / 200_000_000_000_000_000_000
  }

  /** Under the default configuration dividing undoes multiplying by a ray or more, or gives one more: exactly
      when the product's remainder leaves the two carries room. */
  lemma RayTripUnderReset(x: nat, a: nat)
    requires a >= RAY
    ensures RayDiv(RESET, RayMul(RESET, x, a), a) ==
            x + if (x * a + HALF_RAY + 5_000_000) % RAY + (a - a / 2) <= HALF_RAY + 5_000_000 + CarryReach(a)
                then 1 else 0
  {
    hide MulIn, DivIn, CarryReach;
    var y, m := RayMul(RESET, x, a), (x * a + HALF_RAY + 5_000_000) % RAY;
    RayMulUnderReset(x, a);
    QuotientBounds(x * a + HALF_RAY + 5_000_000, RAY);
    ResetCarries(RAY, y, a);
    QuotientBounds(a, 200_000_000_000_000_000_000);
    TripRemainder(x, x * a, a, y * RAY, m);
    CarryIff(a, (y * RAY + a / 2) % a);
  }

  lemma CarryIff(a: nat, r: int)
    ensures 200_000_000_000_000_000_000 * (a - r) <= a <==> a - r <= CarryReach(a)
  {
    QuotientBounds(a, 200_000_000_000_000_000_000);
  }

  // Where dividing the product by a lands, its remainder by a ray being m.
  lemma TripRemainder(x: nat, product: int, a: nat, n: int, m: int)
    requires a >= RAY && product == x * a && 0 <= m < RAY && n == product + HALF_RAY + 5_000_000 - m
    ensures var rest := HALF_RAY + 5_000_000 - m + a / 2;
            if rest < a then (n + a / 2) / a == x && (n + a / 2) % a == rest
            else (n + a / 2) / a == x + 1 && (n + a / 2) % a == rest - a
  {
    var rest := HALF_RAY + 5_000_000 - m + a / 2;
    MulSuccessor(x, a);
    QuotientUnique(n + a / 2, a, if rest < a then x else x + 1);
    QuotientBounds(n + a / 2, a);
  }

  /** So the default configuration keeps the ray inverse for every operand and every factor from n units above
      one ray on exactly when n is at least twenty million. */
  lemma RayInverseUnderResetIff(n: nat)
    ensures (forall x: nat, a: nat :: a >= RAY + n ==> RayDiv(RESET, RayMul(RESET, x, a), a) == x) <==> n >= 20_000_000
  {
    if n >= 20_000_000 {
      forall x: nat, a: nat | a >= RAY + n ensures RayDiv(RESET, RayMul(RESET, x, a), a) == x {
        RayTripUnderReset(x, a);
        TripIsClear(x, a);
      }
    } else {
      var x, a := 500_002_000_000_100_000_005_000_000, RAY + 19_999_999;
      RayTripUnderReset(x, a);
      QuotientUnique(x * a + HALF_RAY + 5_000_000, RAY, 500_002_000_000_100_000_015_000_040);
      QuotientBounds(x * a + HALF_RAY + 5_000_000, RAY);
      QuotientUnique(a, 200_000_000_000_000_000_000, 5_000_000);
      assert RayDiv(RESET, RayMul(RESET, x, a), a) == x + 1;
    }
  }

  lemma TripIsClear(x: nat, a: nat)
    requires a >= RAY + 20_000_000
    ensures (x * a + HALF_RAY + 5_000_000) % RAY + (a - a / 2) > HALF_RAY + 5_000_000 + CarryReach(a)
  {
    QuotientBounds(x * a + HALF_RAY + 5_000_000, RAY);
    QuotientBounds(a, 200_000_000_000_000_000_000);
    if a == RAY + 20_000_000 {
      FiveMillionLeft(x, a);
    }
  }

  // Twenty million units above one ray only a remainder of zero could carry, which five million cannot leave.
  lemma FiveMillionLeft(x: nat, a: nat)
    requires a == RAY + 20_000_000
    ensures (x * a + HALF_RAY + 5_000_000) % RAY % 20_000_000 == 5_000_000
  {
    var n := x * a + HALF_RAY + 5_000_000;
    var k, m := n / RAY, n % RAY;
    QuotientBounds(n, RAY);
    var q := x * 50_000_000_000_000_000_001 + 25_000_000_000_000_000_000 - k * 50_000_000_000_000_000_000;
    assert m == q * 20_000_000 + 5_000_000;
    QuotientUnique(m, 20_000_000, q);
    QuotientBounds(m, 20_000_000);
  }

  lemma RayInverseLostUnderReset()
    ensures RayDiv(RESET, RayMul(RESET, HALF_RAY - 1, RAY + 1), RAY + 1) == HALF_RAY
    ensures RayDiv(SUITE, RayMul(SUITE, HALF_RAY - 1, RAY + 1), RAY + 1) == HALF_RAY - 1
  {
    var x, a := HALF_RAY - 1, RAY + 1;
    RayTripUnderReset(x, a);
    QuotientUnique(x * a + HALF_RAY + 5_000_000, RAY, HALF_RAY);
    QuotientBounds(x * a + HALF_RAY + 5_000_000, RAY);
    QuotientUnique(a, 200_000_000_000_000_000_000, 5_000_000);
    SuiteIsHalfUp(RAY, x, a);
    SuiteIsHalfUp(RAY, HalfUp.Mul(RAY, x, a), a);
    HalfUp.DivUndoesMul(RAY, x, a);
  }

  /** Casting a wad up and back is exact; casting a ray down and back moves it by at most half the ratio. */
  lemma CastsRoundTrip(c: Config, x: nat)
    requires c in {SUITE, RESET}
    ensures RayToWad(c, WadToRay(x)) == x
    ensures Abs(WadToRay(RayToWad(c, x)) - x) <= WAD_RAY_RATIO / 2
  {
    ProductsIgnoreConfiguration(WadToRay(x), 0);
    ProductsIgnoreConfiguration(x, 0);
  }

  /** Multiplying two wads through rays rounds twice, which adds half the ratio to the half unit;
      neither configuration changes that. */
  lemma WadProductThroughRays(c: Config, a: nat, b: nat)
    requires c in {SUITE, RESET}
    ensures RayToWad(c, RayMul(c, WadToRay(a), WadToRay(b))) == (a * b + HALF_WAD + WAD_RAY_RATIO / 2) / WAD
  {
    var x, y := WadToRay(a), WadToRay(b);
    var inner, carry := RayMul(c, x, y), if c == RESET then 5_000_000 else 0;
    RaysOfWads(a, b);
    RayMulEither(c, x, y);
    assert RayToWad(c, inner) == (inner + WAD_RAY_RATIO / 2) / WAD_RAY_RATIO by {
      ProductsIgnoreConfiguration(inner, 0);
    }
    NestedRounding(a * b, carry);
  }

  lemma RaysOfWads(a: nat, b: nat)
    ensures WadToRay(a) * WadToRay(b) == a * b * WAD
  {
  }

  lemma RayMulEither(c: Config, x: nat, a: nat)
    requires c in {SUITE, RESET}
    ensures RayMul(c, x, a) == (x * a + HALF_RAY + if c == RESET then 5_000_000 else 0) / RAY
  {
    SuiteIsHalfUp(RAY, x, a);
    RayMulUnderReset(x, a);
  }

  lemma NestedRounding(p: nat, carry: nat)
    requires carry <= 5_000_000
    ensures ((p * WAD + HALF_RAY + carry) / RAY + WAD_RAY_RATIO / 2) / WAD_RAY_RATIO ==
            (p + HALF_WAD + WAD_RAY_RATIO / 2) / WAD
  {
    var inner := (p * WAD + HALF_RAY + carry) / RAY;
    QuotientBounds(p * WAD + HALF_RAY + carry, RAY);
    QuotientBounds(inner + WAD_RAY_RATIO / 2, WAD_RAY_RATIO);
    QuotientUnique(p + HALF_WAD + WAD_RAY_RATIO / 2, WAD, (inner + WAD_RAY_RATIO / 2) / WAD_RAY_RATIO);
  }

  /** So the route through rays is the wad product or one more, and one more exactly when the
      product's remainder falls short of the next half by no more than half the ratio. */
  lemma RoutesDifferExactly(c: Config, a: nat, b: nat)
    requires c in {SUITE, RESET}
    ensures RayToWad(c, RayMul(c, WadToRay(a), WadToRay(b))) ==
            WadMul(c, a, b) + if HALF_WAD - WAD_RAY_RATIO / 2 <= a * b % WAD < HALF_WAD then 1 else 0
  {
    var p := a * b;
    assert WadMul(c, a, b) == (p + HALF_WAD) / WAD by {
      ProductsIgnoreConfiguration(a, b);
      SuiteIsHalfUp(WAD, a, b);
    }
    assert RayToWad(c, RayMul(c, WadToRay(a), WadToRay(b))) == (p + HALF_WAD + WAD_RAY_RATIO / 2) / WAD by {
      WadProductThroughRays(c, a, b);
    }
    NextHalf(p);
  }

  lemma NextHalf(p: nat)
    ensures (p + HALF_WAD + WAD_RAY_RATIO / 2) / WAD ==
            (p + HALF_WAD) / WAD + if HALF_WAD - WAD_RAY_RATIO / 2 <= p % WAD < HALF_WAD then 1 else 0
  {
    QuotientBounds(p, WAD);
    var q, r := p / WAD, p % WAD;
    QuotientUnique(p + HALF_WAD, WAD, if r < HALF_WAD then q else q + 1);
    QuotientUnique(p + HALF_WAD + WAD_RAY_RATIO / 2, WAD, if r < HALF_WAD - WAD_RAY_RATIO / 2 then q else q + 1);
  }
}
