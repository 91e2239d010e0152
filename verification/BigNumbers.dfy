/** Division and truncation of bignumber.js values under a configuration of decimal places and rounding mode. */
module BigNumbers {
  import opened Arithmetic

  datatype Mode = RoundDown | RoundHalfUp

  // BigNumber.config({ DECIMAL_PLACES, ROUNDING_MODE })
  datatype Config = Config(places: nat, mode: Mode)

  // What the suites set, and what they put back afterwards.
  const SUITE := Config(0, RoundDown)
  const RESET := Config(20, RoundHalfUp)

  // The value coeff / 10^places.
  datatype Decimal = Decimal(coeff: nat, places: nat)

  /** x.div(y): the quotient to c.places decimals; never off by a unit of the last place. */
  function Div(c: Config, n: nat, d: nat): (q: Decimal)
    requires d > 0
  {
    var scaled := n * Pow10(c.places);
    QuotientNonnegative(scaled, d);
    QuotientNonnegative(2 * scaled + d, 2 * d);
    Decimal(match c.mode
            case RoundDown => scaled / d
            case RoundHalfUp => (2 * scaled + d) / (2 * d),
            c.places)
  }

  /** x.decimalPlaces(0, ROUND_DOWN). */
  function Truncate(q: Decimal): nat {
    QuotientNonnegative(q.coeff, Pow10(q.places));
    q.coeff / Pow10(q.places)
  }

  /** x.toFixed(0), which rounds in the configured mode. */
  function ToFixed0(c: Config, q: Decimal): nat {
    match c.mode
    case RoundDown => Truncate(q)
    case RoundHalfUp =>
      QuotientNonnegative(2 * q.coeff + Pow10(q.places), 2 * Pow10(q.places));
      (2 * q.coeff + Pow10(q.places)) / (2 * Pow10(q.places))
  }

  /** A half-up division to p places followed by truncation carries into the integer part
      exactly when the remainder is within half a unit of the last place of the divisor. */
  predicate Carries(c: Config, n: nat, d: nat)
    requires d > 0
  {
    c.mode.RoundHalfUp? && 2 * Pow10(c.places) * (d - n % d) <= d
  }

  lemma TruncatedQuotient(c: Config, n: nat, d: nat)
    requires d > 0
    ensures Truncate(Div(c, n, d)) == n / d + if Carries(c, n, d) then 1 else 0
  {
    var p := Pow10(c.places);
    match c.mode
    case RoundDown => DownTwice(n, d, p);
    case RoundHalfUp => HalfUpThenDown(n, d, p);
  }

  lemma DownTwice(n: nat, d: nat, p: nat)
    requires d > 0 && p > 0
    ensures n * p / d / p == n / d
  {
    var q, r := n / d, n % d;
    var x := r * p;
    SplitScaled(n, d, p);
    QuotientAdd(q * p, x, d);
    ScaledRemainder(r, p, d);
    QuotientBelow(x, d, p);
    QuotientUnique(q * p + x / d, p, q);
  }

  lemma HalfUpThenDown(n: nat, d: nat, p: nat)
    requires d > 0 && p > 0
    ensures (2 * (n * p) + d) / (2 * d) / p == n / d + if 2 * p * (d - n % d) <= d then 1 else 0
  {
    var q, r := n / d, n % d;
    var x := 2 * (r * p) + d;
    var k := x / (2 * d);
    SplitScaled(n, d, p);
    assert 2 * (n * p) + d == q * p * (2 * d) + x;
    QuotientAdd(q * p, x, 2 * d);
    ScaledRemainder(r, p, d);
    QuotientBounds(x, 2 * d);
    QuotientNonnegative(x, 2 * d);
    assert p * (2 * d) == 2 * (d * p);
    assert 2 * p * (d - r) == 2 * (d * p) - 2 * (r * p);
    if 2 * p * (d - r) <= d {
      QuotientUnique(x, 2 * d, p);
      QuotientUnique(q * p + p, p, q + 1);
    } else {
      MulCancel(k, p, 2 * d);
      QuotientUnique(q * p + k, p, q);
    }
  }

  lemma SplitScaled(n: nat, d: nat, p: nat)
    requires d > 0
    ensures n * p == n / d * p * d + n % d * p
  {
    QuotientBounds(n, d);
    var q, r := n / d, n % d;
    assert n * p == (q * d + r) * p;
    assert q * d * p == q * p * d;
  }

  lemma ScaledRemainder(r: nat, p: nat, d: nat)
    requires r < d && p > 0
    ensures 0 <= r * p <= d * p - p
  {
    MulOrder(r, d - 1, p);
    MulOrder(0, r, p);
    assert (d - 1) * p == d * p - p;
  }
}
