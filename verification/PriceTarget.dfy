/** setNftAssetPriceForDebt: the NFT price that gives a debt a chosen health factor. `h` is the health
    percentage times one hundred, `lt` the liquidation threshold, both in units of a ten-thousandth. */
module PriceTarget {
  import opened Arithmetic
  import opened BigNumbers
  import opened Constants
  import opened Conversions
  import opened FixedPoint
  import HalfUp

  function EthAmount(c: Config, debt: nat, reservePrice: nat, decimals: nat): nat {
    ToFixed0(c, Div(c, debt * reservePrice, Pow10(decimals)))
  }

  // e is the debt's worth in ETH at the reserve's price: cut under the suites' configuration, and the nearest,
  // ties upward, under the default one, for a token of at most twenty decimals.
  ghost predicate WorthInEth(c: Config, e: nat, debt: nat, reservePrice: nat, decimals: nat) {
    var one, worth := Pow10(decimals), debt * reservePrice;
    && (c == SUITE ==> e * one <= worth < e * one + one)
    && (c == RESET && decimals <= 20 ==> 0 < 2 * (e * one - worth) + one <= 2 * one)
  }

  lemma EthAmountIsWorth(c: Config, debt: nat, reservePrice: nat, decimals: nat)
    ensures WorthInEth(c, EthAmount(c, debt, reservePrice, decimals), debt, reservePrice, decimals)
  {
    hide Pow10;
    var one, worth := Pow10(decimals), debt * reservePrice;
    if c == SUITE {
      TruncatedQuotient(SUITE, worth, one);
      QuotientBounds(worth, one);
    } else if c == RESET && decimals <= 20 {
      Pow10Sum(decimals, 20 - decimals);
      NearestWorth(worth, one, Pow10(20 - decimals), Pow10(20));
    }
  }

  // Rounding to twenty places first does nothing to a quotient by a power of ten they can express.
  lemma NearestWorth(worth: nat, one: nat, g: nat, p: nat)
    requires one > 0 && g > 0 && p == one * g
    ensures var coeff := (2 * (worth * p) + one) / (2 * one);
            var e := (2 * coeff + p) / (2 * p);
            0 < 2 * (e * one - worth) + one <= 2 * one
  {
    assert worth * p == worth * g * one;
    HalfUpOfMultiple(worth * g, one);
    CancelHalfUp(worth, one, g);
    QuotientBounds(2 * worth + one, 2 * one);
    HalfOf((2 * worth + one) / (2 * one), worth, one);
  }

  lemma HalfOf(e: int, worth: int, one: int)
    requires e * (2 * one) <= 2 * worth + one < e * (2 * one) + 2 * one
    ensures 0 < 2 * (e * one - worth) + one <= 2 * one
  {
    assert e * (2 * one) == 2 * (e * one);
  }

  function NftPrice(c: Config, eth: nat, h: nat, lt: nat): nat
    requires lt > 0
  {
    PercentDiv(c, PercentMul(c, eth, h), lt)
  }

  // What the derivation aims at: Price * LH = Debt * HF.
  predicate HitsTarget(c: Config, eth: nat, h: nat, lt: nat)
    requires lt > 0
  {
    PercentMul(c, NftPrice(c, eth, h, lt), lt) == PercentMul(c, eth, h)
  }

  /** A threshold of at most 100% never reaches a divisor the configurations disagree on. */
  lemma PriceIgnoresConfiguration(c: Config, eth: nat, h: nat, lt: nat)
    requires c in {SUITE, RESET} && 0 < lt <= PERCENTAGE_FACTOR
    ensures PercentMul(c, eth, h) == HalfUp.Mul(PERCENTAGE_FACTOR, eth, h)
    ensures NftPrice(c, eth, h, lt) == HalfUp.Div(PERCENTAGE_FACTOR, HalfUp.Mul(PERCENTAGE_FACTOR, eth, h), lt)
  {
    var t := HalfUp.Mul(PERCENTAGE_FACTOR, eth, h);
    ProductsIgnoreConfiguration(eth, h);
    SuiteIsHalfUp(PERCENTAGE_FACTOR, eth, h);
    QuotientsAgreeBelow(t, lt);
    SuiteIsHalfUp(PERCENTAGE_FACTOR, t, lt);
  }

  /** Every debt and health percentage is hit exactly, despite the two roundings. */
  lemma TargetIsHit(c: Config, eth: nat, h: nat, lt: nat)
    requires c in {SUITE, RESET} && 0 < lt <= PERCENTAGE_FACTOR
    ensures HitsTarget(c, eth, h, lt)
  {
    var t := HalfUp.Mul(PERCENTAGE_FACTOR, eth, h);
    PriceIgnoresConfiguration(c, eth, h, lt);
    PriceIgnoresConfiguration(c, NftPrice(c, eth, h, lt), lt, lt);
    HalfUp.MulUndoesDiv(PERCENTAGE_FACTOR, t, lt);
  }

  /** Past 100% some debt would be missed, so the bound on the threshold is the exact condition. */
  lemma TargetIsHitIff(lt: nat)
    requires lt > 0
    ensures (forall eth: nat, h: nat :: HitsTarget(SUITE, eth, h, lt)) <==> lt <= PERCENTAGE_FACTOR
  {
    if lt <= PERCENTAGE_FACTOR {
      forall eth: nat, h: nat ensures HitsTarget(SUITE, eth, h, lt) { TargetIsHit(SUITE, eth, h, lt); }
    } else if forall eth: nat, h: nat :: HitsTarget(SUITE, eth, h, lt) {
      forall x: nat ensures HalfUp.Mul(PERCENTAGE_FACTOR, HalfUp.Div(PERCENTAGE_FACTOR, x, lt), lt) == x {
        assert HitsTarget(SUITE, x, PERCENTAGE_FACTOR, lt);
        WholeHealth(x, lt);
      }
      HalfUp.MulUndoesDivIff(PERCENTAGE_FACTOR, lt);
    }
  }

  // At a health of 100% the target is the debt itself.
  lemma WholeHealth(x: nat, lt: nat)
    requires lt > 0
    ensures PercentMul(SUITE, x, PERCENTAGE_FACTOR) == x
    ensures PercentMul(SUITE, NftPrice(SUITE, x, PERCENTAGE_FACTOR, lt), lt) ==
            HalfUp.Mul(PERCENTAGE_FACTOR, HalfUp.Div(PERCENTAGE_FACTOR, x, lt), lt)
  {
    SuiteIsHalfUp(PERCENTAGE_FACTOR, x, PERCENTAGE_FACTOR);
    HalfUp.MulByUnit(PERCENTAGE_FACTOR, x);
    SuiteIsHalfUp(PERCENTAGE_FACTOR, x, lt);
    SuiteIsHalfUp(PERCENTAGE_FACTOR, HalfUp.Div(PERCENTAGE_FACTOR, x, lt), lt);
  }

  /** The collateral value falls short of the debt exactly when the missing share is worth over half a unit. */
  lemma BelowDebtIff(c: Config, eth: nat, h: nat, lt: nat)
    requires c in {SUITE, RESET} && 0 < lt <= PERCENTAGE_FACTOR && h < PERCENTAGE_FACTOR
    ensures PercentMul(c, NftPrice(c, eth, h, lt), lt) < eth <==> eth * (PERCENTAGE_FACTOR - h) > HALF_PERCENTAGE
  {
    TargetIsHit(c, eth, h, lt);
    PriceIgnoresConfiguration(c, eth, h, lt);
    HalfUp.MulError(PERCENTAGE_FACTOR, eth, h);
    assert eth * (PERCENTAGE_FACTOR - h) == eth * PERCENTAGE_FACTOR - eth * h;
  }

  /** The derived price is zero exactly when the target rounds to nothing. */
  lemma ZeroPriceIff(c: Config, eth: nat, h: nat, lt: nat)
    requires c in {SUITE, RESET} && 0 < lt <= PERCENTAGE_FACTOR
    ensures NftPrice(c, eth, h, lt) == 0 <==> eth * h < HALF_PERCENTAGE
  {
    var t := HalfUp.Mul(PERCENTAGE_FACTOR, eth, h);
    PriceIgnoresConfiguration(c, eth, h, lt);
    HalfUp.MulError(PERCENTAGE_FACTOR, eth, h);
    HalfUp.DivError(PERCENTAGE_FACTOR, t, lt);
    if t == 0 {
      QuotientUnique(lt / 2, lt, 0);
    }
  }

  lemma EthAmountMonotone(c: Config, debt: nat, more: nat, reservePrice: nat, decimals: nat)
    requires debt <= more
    ensures EthAmount(c, debt, reservePrice, decimals) <= EthAmount(c, more, reservePrice, decimals)
  {
    var d, p := Pow10(decimals), Pow10(c.places);
    MulOrder(debt, more, reservePrice);
    var m, n := debt * reservePrice, more * reservePrice;
    MulOrder(m, n, p);
    QuotientOrder(m * p, n * p, d);
    QuotientOrder(2 * (m * p) + d, 2 * (n * p) + d, 2 * d);
    var x, y := Div(c, m, d).coeff, Div(c, n, d).coeff;
    QuotientOrder(x, y, p);
    QuotientOrder(2 * x + p, 2 * y + p, 2 * p);
  }

  lemma PriceMonotone(eth: nat, more: nat, h: nat, lt: nat)
    requires 0 < lt && eth <= more
    ensures PercentMul(SUITE, eth, h) <= PercentMul(SUITE, more, h)
    ensures NftPrice(SUITE, eth, h, lt) <= NftPrice(SUITE, more, h, lt)
  {
    var s, t := HalfUp.Mul(PERCENTAGE_FACTOR, eth, h), HalfUp.Mul(PERCENTAGE_FACTOR, more, h);
    SuiteIsHalfUp(PERCENTAGE_FACTOR, eth, h);
    SuiteIsHalfUp(PERCENTAGE_FACTOR, more, h);
    HalfUp.MulMonotone(PERCENTAGE_FACTOR, eth, more, h);
    SuiteIsHalfUp(PERCENTAGE_FACTOR, s, lt);
    SuiteIsHalfUp(PERCENTAGE_FACTOR, t, lt);
    HalfUp.DivMonotone(PERCENTAGE_FACTOR, s, t, lt);
  }

  /** A suite that hands over the debt in whole units derives a price no higher than the debt itself
      would give, and one whose collateral value never exceeds the target share of the true debt. */
  lemma TruncationIsConservative(debt: nat, reservePrice: nat, decimals: nat, h: nat, lt: nat)
    requires 0 < lt <= PERCENTAGE_FACTOR
    ensures var kept := ThroughUnits(SUITE, debt, decimals);
            && kept.Some?
            && var eth, cut := EthAmount(SUITE, debt, reservePrice, decimals),
                 EthAmount(SUITE, kept.value, reservePrice, decimals);
            && NftPrice(SUITE, cut, h, lt) <= NftPrice(SUITE, eth, h, lt)
            && PercentMul(SUITE, NftPrice(SUITE, cut, h, lt), lt) <= PercentMul(SUITE, eth, h)
  {
    SuiteKeepsWholeUnits(debt, decimals);
    var kept := ThroughUnits(SUITE, debt, decimals).value;
    EthAmountMonotone(SUITE, kept, debt, reservePrice, decimals);
    var eth, cut := EthAmount(SUITE, debt, reservePrice, decimals), EthAmount(SUITE, kept, reservePrice, decimals);
    PriceMonotone(cut, eth, h, lt);
    TargetIsHit(SUITE, cut, h, lt);
  }

  // GenericLogic.calculateHealthFactorFromBalances, the collateral being the NFT's price in the reserve's token.
  function HealthFactor(price: nat, debt: nat, reservePrice: nat, decimals: nat, lt: nat): nat
    requires reservePrice > 0 && debt > 0
  {
    QuotientNonnegative(price * Pow10(decimals), reservePrice);
    HalfUp.Div(WAD, HalfUp.Mul(PERCENTAGE_FACTOR, price * Pow10(decimals) / reservePrice, lt), debt)
  }

  /** The health factor is three roundings: the price cut to the debt's token, its share at the threshold, and
      that over the debt. */
  lemma HealthFactorIs(price: nat, debt: nat, reservePrice: nat, decimals: nat, lt: nat, held: nat, share: nat)
    requires reservePrice > 0 && debt > 0
    requires held * reservePrice <= price * Pow10(decimals) < held * reservePrice + reservePrice
    requires 0 < 2 * (share * 10_000 - held * lt) + 10_000 <= 20_000
    ensures 0 < 2 * (HealthFactor(price, debt, reservePrice, decimals, lt) * debt - share * WAD) + debt <= 2 * debt
  {
    QuotientUnique(price * Pow10(decimals), reservePrice, held);
    HalfUp.MulNearest(PERCENTAGE_FACTOR, held, lt, share);
    HalfUp.DivNearest(WAD, share, debt, HealthFactor(price, debt, reservePrice, decimals, lt));
  }

  // The collateral's worth at the threshold, in the debt's token, after repricing for the debt cut to whole units.
  function CollateralAtTarget(debt: nat, reservePrice: nat, decimals: nat, h: nat, lt: nat): nat
    requires 0 < lt && reservePrice > 0
  {
    SuiteKeepsWholeUnits(debt, decimals);
    var kept := ThroughUnits(SUITE, debt, decimals).value;
    var price := NftPrice(SUITE, EthAmount(SUITE, kept, reservePrice, decimals), h, lt);
    QuotientNonnegative(price * Pow10(decimals), reservePrice);
    HalfUp.Mul(PERCENTAGE_FACTOR, price * Pow10(decimals) / reservePrice, lt)
  }

  /** The assertion the liquidation suites make after repricing: the on-chain health factor of the true debt is
      below one exactly when the debt exceeds the collateral's worth by more than it rounds away, whatever the
      token's price; and so it is for every debt whose shortfall is worth a token's base unit plus rounding. */
  lemma HealthFactorDropsBelowOneIff(debt: nat, reservePrice: nat, decimals: nat, h: nat, lt: nat)
    requires 0 < lt <= PERCENTAGE_FACTOR && h < PERCENTAGE_FACTOR && reservePrice > 0 && debt > 0
    ensures var kept := ThroughUnits(SUITE, debt, decimals);
            && kept.Some?
            && var cut := EthAmount(SUITE, kept.value, reservePrice, decimals);
            var below := HealthFactor(NftPrice(SUITE, cut, h, lt), debt, reservePrice, decimals, lt) < WAD;
            && (below <==> 2 * WAD * (debt - CollateralAtTarget(debt, reservePrice, decimals, h, lt)) > debt)
            && (debt * reservePrice * (PERCENTAGE_FACTOR - h) >= 10_000 * Pow10(decimals) + 5_001 * reservePrice ==>
                 below)
  {
    hide ThroughUnits, NftPrice, EthAmount;
    SuiteKeepsWholeUnits(debt, decimals);
    var kept := ThroughUnits(SUITE, debt, decimals).value;
    WorthBelowOneIff(CollateralAtTarget(debt, reservePrice, decimals, h, lt), debt);
    if debt * reservePrice * (PERCENTAGE_FACTOR - h) >= 10_000 * Pow10(decimals) + 5_001 * reservePrice {
      EthAmountBound(kept, reservePrice, decimals);
      MulOrder(kept, debt, reservePrice);
      LowPriceLowHealth(EthAmount(SUITE, kept, reservePrice, decimals), debt, reservePrice, decimals, h, lt);
    }
  }

  lemma WorthBelowOneIff(m: nat, debt: nat)
    requires debt > 0
    ensures HalfUp.Div(WAD, m, debt) < WAD <==> 2 * WAD * (debt - m) > debt
  {
    QuotientLess(m * WAD + debt / 2, debt, WAD);
  }

  lemma LowPriceLowHealth(eth: nat, debt: nat, reservePrice: nat, decimals: nat, h: nat, lt: nat)
    requires 0 < lt <= PERCENTAGE_FACTOR && h < PERCENTAGE_FACTOR && reservePrice > 0 && debt > 0
    requires eth * Pow10(decimals) <= debt * reservePrice
    requires debt * reservePrice * (PERCENTAGE_FACTOR - h) >= 10_000 * Pow10(decimals) + 5_001 * reservePrice
    ensures HealthFactor(NftPrice(SUITE, eth, h, lt), debt, reservePrice, decimals, lt) < WAD
  {
    var unit, price := Pow10(decimals), NftPrice(SUITE, eth, h, lt);
    QuotientNonnegative(price * unit, reservePrice);
    var held := price * unit / reservePrice;
    assert held * reservePrice <= price * unit by { QuotientBounds(price * unit, reservePrice); }
    PriceBound(eth, h, lt);
    CollateralBound(eth, debt, reservePrice, unit, h, lt, price, held);
    HeldBelowDebt(held, debt, reservePrice, unit, h, lt);
  }

  lemma HeldBelowDebt(held: nat, debt: nat, reservePrice: nat, unit: nat, h: nat, lt: nat)
    requires reservePrice > 0 && unit > 0 && h < PERCENTAGE_FACTOR && debt > 0
    requires held * lt * reservePrice <= debt * reservePrice * h + 9_999 * unit
    requires debt * reservePrice * (PERCENTAGE_FACTOR - h) >= 10_000 * unit + 5_001 * reservePrice
    ensures HalfUp.Div(WAD, HalfUp.Mul(PERCENTAGE_FACTOR, held, lt), debt) < WAD
  {
    HalfUp.MulError(PERCENTAGE_FACTOR, held, lt);
    Shortfall(HalfUp.Mul(PERCENTAGE_FACTOR, held, lt), held * lt, debt, reservePrice, unit, h);
    WorthBelowOneIff(HalfUp.Mul(PERCENTAGE_FACTOR, held, lt), debt);
  }

  lemma EthAmountBound(debt: nat, reservePrice: nat, decimals: nat)
    ensures EthAmount(SUITE, debt, reservePrice, decimals) * Pow10(decimals) <= debt * reservePrice
  {
    TruncatedQuotient(SUITE, debt * reservePrice, Pow10(decimals));
    QuotientBounds(debt * reservePrice, Pow10(decimals));
  }

  lemma PriceBound(eth: nat, h: nat, lt: nat)
    requires 0 < lt <= PERCENTAGE_FACTOR
    ensures NftPrice(SUITE, eth, h, lt) * lt < eth * h + PERCENTAGE_FACTOR
  {
    var price := NftPrice(SUITE, eth, h, lt);
    TargetIsHit(SUITE, eth, h, lt);
    PriceIgnoresConfiguration(SUITE, eth, h, lt);
    PriceIgnoresConfiguration(SUITE, price, lt, lt);
    HalfUp.MulError(PERCENTAGE_FACTOR, eth, h);
    HalfUp.MulError(PERCENTAGE_FACTOR, price, lt);
  }

  lemma CollateralBound(eth: nat, debt: nat, reservePrice: nat, unit: nat, h: nat, lt: nat, price: nat, held: nat)
    requires eth * unit <= debt * reservePrice
    requires price * lt <= eth * h + 9_999
    requires held * reservePrice <= price * unit
    ensures held * lt * reservePrice <= debt * reservePrice * h + 9_999 * unit
  {
    MulOrder(held * reservePrice, price * unit, lt);
    MulOrder(price * lt, eth * h + 9_999, unit);
    MulOrder(eth * unit, debt * reservePrice, h);
    assert held * lt * reservePrice == held * reservePrice * lt;
    assert price * unit * lt == price * lt * unit;
    assert (eth * h + 9_999) * unit == eth * unit * h + 9_999 * unit;
  }

  lemma Shortfall(m: nat, value: nat, debt: nat, reservePrice: nat, unit: nat, h: nat)
    requires reservePrice > 0 && unit > 0 && h < 10_000
    requires 10_000 * m <= value + 5_000
    requires value * reservePrice <= debt * reservePrice * h + 9_999 * unit
    requires debt * reservePrice * (10_000 - h) >= 10_000 * unit + 5_001 * reservePrice
    ensures 2 * WAD * (debt - m) > debt
  {
    var owed := debt * reservePrice;
    MulOrder(10_000 * m, value + 5_000, reservePrice);
    ShortfallInPrice(m * reservePrice, value * reservePrice, owed, reservePrice, unit, owed * h, owed * (10_000 - h));
    MulOrder(1, 10_000 - h, owed);
    assert 2 * WAD * (owed - m * reservePrice) == 2 * WAD * (debt - m) * reservePrice;
    MulCancel(debt, 2 * WAD * (debt - m), reservePrice);
  }

  lemma ShortfallInPrice(m: int, value: int, owed: int, reservePrice: int, unit: int, share: int, gap: int)
    requires reservePrice > 0 && unit > 0
    requires 10_000 * m <= value + 5_000 * reservePrice
    requires value <= share + 9_999 * unit
    requires share + gap == 10_000 * owed
    requires gap >= 10_000 * unit + 5_001 * reservePrice
    ensures 2 * WAD * (owed - m) > gap
  {
  }

  /** For a token whose price is one, as the suites' debts are in, the assertion holds exactly when the target
      share of the truncated debt rounds to less than the true debt. */
  lemma HealthFactorBelowOneIff(debt: nat, decimals: nat, h: nat, lt: nat)
    requires 0 < lt <= PERCENTAGE_FACTOR && h < PERCENTAGE_FACTOR && debt > 0
    ensures var one, kept := Pow10(decimals), ThroughUnits(SUITE, debt, decimals);
            && kept.Some?
            && var cut := EthAmount(SUITE, kept.value, one, decimals);
            HealthFactor(NftPrice(SUITE, cut, h, lt), debt, one, decimals, lt) < WAD <==>
            kept.value * h + HALF_PERCENTAGE < debt * PERCENTAGE_FACTOR
  {
    hide ThroughUnits, EthAmount, NftPrice, HalfUp.Div;
    SuiteKeepsWholeUnits(debt, decimals);
    var one, kept := Pow10(decimals), ThroughUnits(SUITE, debt, decimals).value;
    PricedAtOne(kept, decimals);
    var price := NftPrice(SUITE, kept, h, lt);
    QuotientUnique(price * one, one, price);
    TargetIsHit(SUITE, kept, h, lt);
    PriceIgnoresConfiguration(SUITE, kept, h, lt);
    PriceIgnoresConfiguration(SUITE, price, lt, lt);
    BelowOneIff(kept, debt, h);
  }

  lemma PricedAtOne(debt: nat, decimals: nat)
    ensures EthAmount(SUITE, debt, Pow10(decimals), decimals) == debt
  {
    TruncatedQuotient(SUITE, debt * Pow10(decimals), Pow10(decimals));
    QuotientUnique(debt * Pow10(decimals), Pow10(decimals), debt);
  }

  lemma BelowOneIff(kept: nat, debt: nat, h: nat)
    requires kept <= debt && debt > 0 && h < PERCENTAGE_FACTOR
    ensures HalfUp.Div(WAD, HalfUp.Mul(PERCENTAGE_FACTOR, kept, h), debt) < WAD <==>
            kept * h + HALF_PERCENTAGE < debt * PERCENTAGE_FACTOR
  {
    var m := HalfUp.Mul(PERCENTAGE_FACTOR, kept, h);
    QuotientLess(kept * h + HALF_PERCENTAGE, PERCENTAGE_FACTOR, debt);
    if m < debt {
      HalfUp.MulError(PERCENTAGE_FACTOR, kept, h);
      MulOrder(kept, debt, h);
      MulOrder(h, 9_999, debt);
      WorthBelowOneIff(m, debt);
    } else {
      HalfUp.DivMonotone(WAD, debt, m, debt);
      HalfUp.DivBySelf(WAD, debt);
    }
  }

  datatype Action = AdvanceTime(seconds: nat) | SetAssetData(nft: string, price: nat)

  datatype Repricing = Repriced(oldNftPrice: nat, newNftPrice: nat) | ZeroNftPrice | TooManyFractionDigits

  // The price is the nearest to the target over the threshold, the target the nearest to the worth's share.
  ghost predicate IsDerived(c: Config, price: nat, eth: nat, h: nat, lt: nat) {
    var target := PercentMul(c, eth, h);
    && 0 < 2 * (target * 10_000 - eth * h) + 10_000 <= 20_000
    && 0 < 2 * (price * lt - target * 10_000) + lt <= 2 * lt
  }

  /** The derived price is those two roundings, under either configuration. */
  lemma NftPriceIsDerived(c: Config, price: nat, eth: nat, h: nat, lt: nat)
    requires c in {SUITE, RESET} && 0 < lt <= PERCENTAGE_FACTOR
    ensures price == NftPrice(c, eth, h, lt) <==> IsDerived(c, price, eth, h, lt)
  {
    PriceIgnoresConfiguration(c, eth, h, lt);
    var target := PercentMul(c, eth, h);
    HalfUp.MulError(PERCENTAGE_FACTOR, eth, h);
    HalfUp.DivNearest(PERCENTAGE_FACTOR, target, lt, price);
  }

  // A debt worth too little is refused before anything is sent; otherwise the one price that was derived
  // meets the target and is submitted twice, with a time jump before each.
  ghost predicate Derives(c: Config, nft: string, oldNftPrice: nat, eth: nat, h: nat, lt: nat,
                          before: seq<Action>, after: seq<Action>, r: Repricing)
    requires lt > 0
  {
    if eth * h < HALF_PERCENTAGE then
      r == ZeroNftPrice && after == before
    else
      && r.Repriced? && r.oldNftPrice == oldNftPrice
      && r.newNftPrice > 0 && IsDerived(c, r.newNftPrice, eth, h, lt)
      && PercentMul(c, r.newNftPrice, lt) == PercentMul(c, eth, h)
      && after == before + [AdvanceTime(100), SetAssetData(nft, r.newNftPrice),
                            AdvanceTime(200), SetAssetData(nft, r.newNftPrice)]
  }

  // The part of the test environment the derivation writes to: the transactions and time jumps it performs.
  class TestEnv {
    var actions: seq<Action>

    constructor ()
      ensures actions == []
    {
      actions := [];
    }

    /** setNftAssetPriceForDebtDecimals, the values it fetches being parameters. */
    method SetNftAssetPriceForDebtDecimals(c: Config, nft: string, oldNftPrice: nat, debt: nat,
                                           reservePrice: nat, decimals: nat, h: nat, lt: nat)
      returns (r: Repricing, ghost eth: nat)
      requires c in {SUITE, RESET} && 0 < lt <= PERCENTAGE_FACTOR
      modifies this
      ensures WorthInEth(c, eth, debt, reservePrice, decimals)
      ensures Derives(c, nft, oldNftPrice, eth, h, lt, old(actions), actions, r)
    {
      var ethAmountDecimals := EthAmount(c, debt, reservePrice, decimals);
      var nftPrice := PercentDiv(c, PercentMul(c, ethAmountDecimals, h), lt);
      eth := ethAmountDecimals;
      EthAmountIsWorth(c, debt, reservePrice, decimals);
      TargetIsHit(c, eth, h, lt);
      ZeroPriceIff(c, eth, h, lt);
      NftPriceIsDerived(c, nftPrice, eth, h, lt);
      if nftPrice <= 0 {
        r := ZeroNftPrice;
        return;
      }
      actions := actions + [AdvanceTime(100)];
      actions := actions + [SetAssetData(nft, nftPrice)];
      actions := actions + [AdvanceTime(200)];
      actions := actions + [SetAssetData(nft, nftPrice)];
      r := Repriced(oldNftPrice, nftPrice);
    }

    /** setNftAssetPriceForDebt, called as the liquidation suites do with a debt converted to units. */
    method SetNftAssetPriceForDebt(c: Config, nft: string, oldNftPrice: nat, units: Decimal,
                                   reservePrice: nat, decimals: nat, h: nat, lt: nat)
      returns (r: Repricing, ghost debt: nat, ghost eth: nat)
      requires c in {SUITE, RESET} && 0 < lt <= PERCENTAGE_FACTOR
      modifies this
      ensures if r == TooManyFractionDigits then
                && actions == old(actions)
                && forall d: nat :: d * Pow10(units.places) != units.coeff * Pow10(decimals)
              else
                && debt * Pow10(units.places) == units.coeff * Pow10(decimals)
                && WorthInEth(c, eth, debt, reservePrice, decimals)
                && Derives(c, nft, oldNftPrice, eth, h, lt, old(actions), actions, r)
    {
      var parsed := ToDecimals(units, decimals);
      ParsesIff(units, decimals);
      if parsed.None? {
        r, debt, eth := TooManyFractionDigits, 0, 0;
        return;
      }
      debt := parsed.value;
      r, eth := SetNftAssetPriceForDebtDecimals(c, nft, oldNftPrice, parsed.value, reservePrice, decimals, h, lt);
    }
  }
}
