/** The rules the transactions check, as inequalities between what they read: when a window is open, what a fine
    and the auction prices come to, and when and how interest accrues. */
module LoanRules {
  import opened Arithmetic
  import opened Common
  import opened Constants
  import opened Loans
  import HalfUp

  // A window of some hours from the first bid is still open; a pause that began at or after the bid prolongs it.
  predicate StillOpen(bidStart: nat, t: Timing) {
    t.now - bidStart - (if bidStart <= t.pauseStart then t.pauseDuration else 0) <= 3_600 * t.hours
  }

  lemma WindowIff(loan: Loan, t: Timing)
    ensures t.now <= EndTime(loan, t) <==> StillOpen(loan.bidStartTimestamp, t)
  {
  }

  /** A percentage comes to at most m exactly when the product stays short of the next half. */
  lemma PercentAtMost(x: nat, y: nat, m: int)
    ensures PercentMul(x, y) <= m <==> x * y < 10_000 * m + 5_000
  {
    QuotientLess(x * y + 5_000, 10_000, m + 1);
  }

  lemma PercentAtLeast(x: nat, y: nat, m: int)
    ensures m <= PercentMul(x, y) <==> 10_000 * m <= x * y + 5_000
  {
    QuotientLess(x * y + 5_000, 10_000, m);
  }

  // An offer covers the fine: the least fine and the share of the debt, unless there is no bid to make up for.
  predicate CoversFine(bidPrice: nat, owed: nat, terms: Terms, offer: nat) {
    bidPrice == 0 || (terms.minBidFine <= offer && owed * terms.redeemFine < 10_000 * offer + 5_000)
  }

  /** The fine is the least offer that covers it. */
  lemma BidFineIff(loan: Loan, owed: nat, terms: Terms, offer: nat)
    ensures BidFine(loan, owed, terms) <= offer <==> CoversFine(loan.bidPrice, owed, terms, offer)
  {
    PercentAtMost(owed, terms.redeemFine, offer);
  }

  // A debt is beyond the liquidation threshold of the collateral.
  predicate BeyondThreshold(q: Quote, owed: nat) {
    q.nftPriceInReserve * q.liquidationThreshold + 5_000 < 10_000 * owed
  }

  lemma ThresholdIff(q: Quote, owed: nat)
    ensures owed > ThresholdPrice(q) <==> BeyondThreshold(q, owed)
  {
    PercentAtLeast(q.nftPriceInReserve, q.liquidationThreshold, owed);
    QuotientLess(q.nftPriceInReserve * q.liquidationThreshold + 5_000, 10_000, owed);
  }

  // A first bid reaches the debt and, at a bonus below the whole, the collateral's price less the bonus.
  predicate ReachesPrice(q: Quote, owed: nat, bid: nat) {
    && owed <= bid
    && (q.liquidationBonus < 10_000 ==>
          q.nftPriceInReserve * (10_000 - q.liquidationBonus) < 10_000 * bid + 5_000)
  }

  /** The liquidation price is the least bid that does. */
  lemma LiquidatePriceIff(q: Quote, owed: nat, bid: nat)
    ensures LiquidatePrice(q, owed) <= bid <==> ReachesPrice(q, owed, bid)
  {
    if q.liquidationBonus < 10_000 {
      PercentAtMost(q.nftPriceInReserve, 10_000 - q.liquidationBonus, bid);
    }
  }

  /** The rate a second, over the seconds of a year, is the yearly rate but for less than one a second. */
  lemma YearlyRate(rate: nat)
    ensures var simple := rate / SECONDS_PER_YEAR * (365 * 86_400);
            rate - 365 * 86_400 < simple <= rate
  {
    QuotientBounds(rate, SECONDS_PER_YEAR);
  }

  /** Accruing interest changes the index only where the reserve earns on some debt. It is then the index times
      the factor, rounded, and it is refused exactly from 2^128 on. */
  lemma UpdateStateIff(p: Pool, reserve: Address, accrual: Accrual)
    requires reserve in p.index
    ensures var r, earns := UpdateState(p, reserve, accrual), accrual.liquidityRate > 0 && Get(p.supply, reserve) != 0;
            var product := CompoundedInterest(accrual.borrowRate, accrual.elapsed) * p.index[reserve];
            && (r.Done? <==> (earns ==> product + HALF_RAY < 0x1_0000_0000_0000_0000 * 0x1_0000_0000_0000_0000 * RAY))
            && (r.Done? ==>
                  && r.value.(index := p.index) == p && reserve in r.value.index
                  && r.value.index == p.index[reserve := r.value.index[reserve]]
                  && if earns then 0 < 2 * (r.value.index[reserve] * RAY - product) + RAY <= 2 * RAY
                     else r.value.index[reserve] == p.index[reserve])
  {
    hide CompoundedInterest;
    var f, i := CompoundedInterest(accrual.borrowRate, accrual.elapsed), p.index[reserve];
    QuotientLess(f * i + HALF_RAY, RAY, MAX_UINT128 + 1);
    HalfUp.MulError(RAY, f, i);
    assert p.index[reserve := p.index[reserve]] == p.index;
  }
}
