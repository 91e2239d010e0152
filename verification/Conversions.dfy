/** Amounts with and without a token's decimals: convertToCurrencyUnits and convertToCurrencyDecimals. */
module Conversions {
  import opened Arithmetic
  import opened BigNumbers
  import opened Common

  /** convertToCurrencyUnits: the decimal string printed by toFixed() is the exact value of the quotient. */
  function ToUnits(c: Config, amount: nat, decimals: nat): Decimal {
    Div(c, amount, Pow10(decimals))
  }

  /** convertToCurrencyDecimals: parseUnits throws when the string has more fraction digits than the token. */
  function ToDecimals(units: Decimal, decimals: nat): Option<nat> {
    var scaled := units.coeff * Pow10(decimals);
    QuotientNonnegative(scaled, Pow10(units.places));
    if scaled % Pow10(units.places) == 0 then Some(scaled / Pow10(units.places)) else None
  }

  /** A string parses to the one amount that is worth as much, and to none exactly when no amount is. */
  lemma ParsesIff(units: Decimal, decimals: nat)
    ensures match ToDecimals(units, decimals)
            case Some(d) => d * Pow10(units.places) == units.coeff * Pow10(decimals)
            case None => forall d: nat :: d * Pow10(units.places) != units.coeff * Pow10(decimals)
  {
    var scaled, one := units.coeff * Pow10(decimals), Pow10(units.places);
    QuotientBounds(scaled, one);
    forall d: nat | d * one == scaled ensures scaled % one == 0 {
      MultipleOf(d, one);
    }
  }

  // Converting to units and back.
  function ThroughUnits(c: Config, amount: nat, decimals: nat): Option<nat> {
    ToDecimals(ToUnits(c, amount, decimals), decimals)
  }

  lemma MultipleOf(q: nat, d: nat)
    requires d > 0
    ensures q * d % d == 0 && q * d / d == q
  {
    QuotientUnique(q * d, d, q);
    QuotientBounds(q * d, d);
  }

  lemma CancelFactor(x: nat, d: nat, k: nat)
    requires d > 0 && k > 0
    ensures d * k > 0 && x * k / (d * k) == x / d
  {
    QuotientBounds(x, d);
    var q := x / d;
    MulOrder(1, d, k);
    MulOrder(q * d, x, k);
    MulOrder(x + 1, q * d + d, k);
    assert q * (d * k) == q * d * k && (q * d + d) * k == q * d * k + d * k && (x + 1) * k == x * k + k;
    QuotientUnique(x * k, d * k, q);
  }

  /** With at least as many decimal places as the token has decimals, nothing is lost. */
  lemma ExactWhenPlacesSuffice(c: Config, amount: nat, decimals: nat)
    requires decimals <= c.places
    ensures ThroughUnits(c, amount, decimals) == Some(amount)
  {
    var d, g, p := Pow10(decimals), Pow10(c.places - decimals), Pow10(c.places);
    Pow10Sum(decimals, c.places - decimals);
    assert amount * p == amount * g * d;
    MultipleOf(amount * g, d);
    HalfUpOfMultiple(amount * g, d);
    MultipleOf(amount, p);
  }

  lemma HalfUpOfMultiple(x: nat, d: nat)
    requires d > 0
    ensures (2 * (x * d) + d) / (2 * d) == x
  {
    assert 2 * (x * d) + d == x * (2 * d) + d;
    QuotientUnique(x * (2 * d) + d, 2 * d, x);
  }

  /** With fewer places the amount is rounded, in the configured mode, to a multiple of the unit the
      places can express; the string parses back in every case. */
  lemma RoundedWhenPlacesFallShort(c: Config, amount: nat, decimals: nat)
    requires c.places < decimals
    ensures var g := Pow10(decimals - c.places);
            ThroughUnits(c, amount, decimals) ==
            Some(g * match c.mode case RoundDown => amount / g case RoundHalfUp => (2 * amount + g) / (2 * g))
  {
    UnitsWhenShort(c, amount, decimals);
    ParsesBack(ToUnits(c, amount, decimals), decimals);
  }

  lemma UnitsWhenShort(c: Config, amount: nat, decimals: nat)
    requires c.places < decimals
    ensures var g := Pow10(decimals - c.places);
            ToUnits(c, amount, decimals).coeff ==
            match c.mode case RoundDown => amount / g case RoundHalfUp => (2 * amount + g) / (2 * g)
  {
    var p, g := Pow10(c.places), Pow10(decimals - c.places);
    Pow10Sum(decimals - c.places, c.places);
    if c.mode.RoundDown? {
      CancelFactor(amount, g, p);
    } else {
      CancelHalfUp(amount, g, p);
    }
  }

  lemma ParsesBack(units: Decimal, decimals: nat)
    requires units.places < decimals
    ensures ToDecimals(units, decimals) == Some(Pow10(decimals - units.places) * units.coeff)
  {
    var m, g, p := units.coeff, Pow10(decimals - units.places), Pow10(units.places);
    Pow10Sum(decimals - units.places, units.places);
    assert m * (g * p) == g * m * p;
    MultipleOf(g * m, p);
  }

  lemma CancelHalfUp(x: nat, g: nat, p: nat)
    requires g > 0 && p > 0
    ensures g * p > 0 && (2 * (x * p) + g * p) / (2 * (g * p)) == (2 * x + g) / (2 * g)
  {
    CancelFactor(2 * x + g, 2 * g, p);
    assert (2 * x + g) * p == 2 * (x * p) + g * p && 2 * g * p == 2 * (g * p);
  }

  /** The trip through units is exact for just the amounts the configured places can express. */
  lemma ExactIff(c: Config, amount: nat, decimals: nat)
    ensures ThroughUnits(c, amount, decimals) == Some(amount) <==>
            decimals <= c.places || amount % Pow10(decimals - c.places) == 0
  {
    if decimals <= c.places {
      ExactWhenPlacesSuffice(c, amount, decimals);
    } else {
      var g := Pow10(decimals - c.places);
      RoundedWhenPlacesFallShort(c, amount, decimals);
      RoundsToItselfIff(amount, g);
    }
  }

  lemma RoundsToItselfIff(x: nat, g: nat)
    requires g > 0
    ensures g * (x / g) == x <==> x % g == 0
    ensures g * ((2 * x + g) / (2 * g)) == x <==> x % g == 0
  {
    QuotientBounds(x, g);
    var k := (2 * x + g) / (2 * g);
    if x % g == 0 {
      assert 2 * x + g == x / g * (2 * g) + g;
      QuotientUnique(2 * x + g, 2 * g, x / g);
    } else if g * k == x {
      QuotientNonnegative(2 * x + g, 2 * g);
      MultipleOf(k, g);
    }
  }

  /** Under the suites' configuration the trip yields the largest multiple of a whole token not above the amount. */
  lemma SuiteKeepsWholeUnits(amount: nat, decimals: nat)
    ensures var whole := Pow10(decimals);
            var kept := ThroughUnits(SUITE, amount, decimals);
            kept.Some? && kept.value % whole == 0 && kept.value <= amount < kept.value + whole
  {
    var whole := Pow10(decimals);
    QuotientBounds(amount, whole);
    if decimals == 0 {
      ExactWhenPlacesSuffice(SUITE, amount, 0);
      MultipleOf(amount, 1);
    } else {
      RoundedWhenPlacesFallShort(SUITE, amount, decimals);
      QuotientNonnegative(amount, whole);
      MultipleOf(amount / whole, whole);
    }
  }
}
