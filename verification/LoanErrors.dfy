/** Which error a refused transaction gives if every other validation admits it: that of the first rule it breaks,
    in the order of the contracts' checks, and never one on the books themselves. */
module LoanErrors {
  import opened Common
  import opened Constants
  import opened Loans
  import opened LoanBooks
  import opened LoanRules
  import opened LoanEffects

  predicate CanAccrue(p: Pool, reserve: Address, accrual: Accrual)
    requires reserve in p.index
  {
    UpdateState(p, reserve, accrual).Done?
  }

  lemma AccrualError(p: Pool, reserve: Address, accrual: Accrual)
    requires reserve in p.index
    ensures !CanAccrue(p, reserve, accrual) ==>
              UpdateState(p, reserve, accrual) == Reverted(RL_VARIABLE_BORROW_INDEX_OVERFLOW)
  {
  }

  // What a loan owes once its reserve's index is up to date.
  function Owed(p: Pool, id: nat, accrual: Accrual): nat
    requires Readable(p) && 0 < id < |p.loans| && CanAccrue(p, p.loans[id].reserve, accrual)
  {
    RayMul(p.loans[id].scaledAmount, NewIndex(p, p.loans[id].reserve, accrual))
  }

  function BorrowError(p: Pool, user: Address, reserve: Address, amount: nat, nft: Nft,
                       accrual: Accrual): Error
    requires Readable(p)
  {
    var id := Get(p.loanIds, nft);
    if user == ZERO_ADDRESS then VL_INVALID_ONBEHALFOF_ADDRESS
    else if reserve !in p.index then VL_INVALID_RESERVE_ADDRESS
    else if !CanAccrue(p, reserve, accrual) then RL_VARIABLE_BORROW_INDEX_OVERFLOW
    else if amount == 0 then VL_INVALID_AMOUNT
    else if id != 0 && p.loans[id].state != Active then LPL_INVALID_LOAN_STATE
    else if id != 0 && p.loans[id].reserve != reserve then VL_SPECIFIED_RESERVE_NOT_BORROWED_BY_USER
    else if id != 0 && p.loans[id].borrower != user then VL_SPECIFIED_LOAN_NOT_BORROWED_BY_USER
    else if id != 0 then LPL_INVALID_LOAN_AMOUNT
    else CT_INVALID_MINT_AMOUNT
  }

  /** A refused borrow gives the error of the first rule it breaks; when it breaks none of the others, the amount
      converts to nothing. */
  lemma BorrowRefused(p: Pool, user: Address, reserve: Address, amount: nat, nft: Nft, accrual: Accrual)
    requires Inv(p)
    ensures var r := Borrow(p, user, reserve, amount, nft, accrual, true);
            r.Reverted? ==> r.error == BorrowError(p, user, reserve, amount, nft, accrual)
  {
    hide Balanced, BorrowLoan;
    var id := Get(p.loanIds, nft);
    if reserve in p.index {
      AccrualError(p, reserve, accrual);
      UpdateStateReadable(p, reserve, accrual);
      if CanAccrue(p, reserve, accrual) && amount > 0 {
        var p1 := UpdateState(p, reserve, accrual).value;
        if id == 0 {
          OpenError(p1, user, nft, reserve, amount);
        } else if p1.loans[id].state == Active && p1.loans[id].reserve == reserve {
          IncreaseError(p1, id, amount, nft);
        }
      }
    }
  }

  lemma OpenError(p: Pool, user: Address, nft: Nft, reserve: Address, amount: nat)
    requires reserve in p.index && p.index[reserve] > 0
    ensures var r := BorrowLoan(p, 0, user, reserve, amount, nft);
            r.Reverted? ==> r.error == CT_INVALID_MINT_AMOUNT
  {
  }

  lemma IncreaseError(p: Pool, id: nat, amount: nat, nft: Nft)
    requires HasLoan(p, id) && amount > 0 && p.loans[id].state == Active
    ensures var r := BorrowLoan(p, id, p.loans[id].borrower, p.loans[id].reserve, amount, nft);
            r.Reverted? ==> r.error == LPL_INVALID_LOAN_AMOUNT
  {
  }

  function RepayError(p: Pool, nft: Nft, amount: nat, accrual: Accrual): Error
    requires Readable(p)
  {
    var id := Get(p.loanIds, nft);
    if id == 0 then LP_NFT_IS_NOT_USED_AS_COLLATERAL
    else if !CanAccrue(p, p.loans[id].reserve, accrual) then RL_VARIABLE_BORROW_INDEX_OVERFLOW
    else if amount == 0 then VL_INVALID_AMOUNT
    else if p.loans[id].scaledAmount == 0 then VL_NO_DEBT_OF_SELECTED_TYPE
    else if p.loans[id].state != Active then LPL_INVALID_LOAN_STATE
    else LPL_INVALID_TAKEN_AMOUNT
  }

  /** A refused repay does likewise; when it breaks none of the other rules, the sum is less than the debt and
      converts to nothing. */
  lemma RepayRefused(p: Pool, nft: Nft, amount: nat, accrual: Accrual)
    requires Inv(p)
    ensures var r := Repay(p, nft, amount, accrual, true);
            r.Reverted? ==> r.error == RepayError(p, nft, amount, accrual)
  {
    hide Balanced, RepayLoan;
    var id := Get(p.loanIds, nft);
    if id != 0 {
      var loan := p.loans[id];
      UpdateStateSound(p, loan.reserve, accrual);
      AccruedInv(p, loan.reserve, accrual);
      AccrualError(p, loan.reserve, accrual);
      if CanAccrue(p, loan.reserve, accrual) && amount > 0 {
        var p1 := UpdateState(p, loan.reserve, accrual).value;
        DebtOfNothing(p1, id);
        WholeDebtBurnsScaled(p1, id);
        if loan.scaledAmount > 0 && loan.state == Active {
          RepaidLoan(p1, id, amount);
        }
      }
    }
  }

  function BidError(p: Pool, nft: Nft, user: Address, bidPrice: nat, accrual: Accrual, q: Quote,
                    t: Timing): Error
    requires Readable(p)
  {
    var id := Get(p.loanIds, nft);
    if user == ZERO_ADDRESS then VL_INVALID_ONBEHALFOF_ADDRESS
    else if id == 0 then LP_NFT_IS_NOT_USED_AS_COLLATERAL
    else if !p.loans[id].Live() then LPL_INVALID_LOAN_STATE
    else if bidPrice == 0 then VL_INVALID_AMOUNT
    else if !CanAccrue(p, p.loans[id].reserve, accrual) then RL_VARIABLE_BORROW_INDEX_OVERFLOW
    else HeightError(p.loans[id], bidPrice, Owed(p, id, accrual), q, t)
  }

  // A bid that is not high enough, or comes too late.
  function HeightError(loan: Loan, bidPrice: nat, owed: nat, q: Quote, t: Timing): Error {
    if loan.state == Active && !BeyondThreshold(q, owed) then LP_BORROW_NOT_EXCEED_LIQUIDATION_THRESHOLD
    else if bidPrice < owed then LPL_BID_PRICE_LESS_THAN_BORROW
    else if loan.state == Active then LPL_BID_PRICE_LESS_THAN_LIQUIDATION_PRICE
    else if !StillOpen(loan.bidStartTimestamp, t) then LPL_BID_AUCTION_DURATION_HAS_END
    else LPL_BID_PRICE_LESS_THAN_HIGHEST_PRICE
  }

  /** A refused bid gives the error of the first rule it breaks. */
  lemma BidRefused(p: Pool, nft: Nft, user: Address, bidPrice: nat, accrual: Accrual, q: Quote, t: Timing)
    requires Inv(p)
    ensures var r := Bid(p, nft, user, bidPrice, accrual, q, t, true);
            r.Reverted? ==> r.error == BidError(p, nft, user, bidPrice, accrual, q, t)
  {
    hide Balanced, AuctionLoan, Outbid, BidIsHighEnough;
    hide HeightError;
    var id := Get(p.loanIds, nft);
    if id != 0 && user != ZERO_ADDRESS {
      var loan := p.loans[id];
      UpdateStateSound(p, loan.reserve, accrual);
      AccruedInv(p, loan.reserve, accrual);
      AccrualError(p, loan.reserve, accrual);
      if CanAccrue(p, loan.reserve, accrual) && loan.Live() {
        var p1 := UpdateState(p, loan.reserve, accrual).value;
        DebtOfNothing(p1, id);
        WholeDebtBurnsScaled(p1, id);
        var owed := BorrowAmount(p1, id);
        CheckError(loan, bidPrice, owed, q, t);
        if owed > 0 {
          PlacedBid(p1, id, user, bidPrice, t.now);
          if loan.state == Active {
            FirstBidOpens(p1, id, user, bidPrice, owed, t.now);
          }
        }
      }
    }
  }

  // The error of the check on a bid's height, and what has passed it.
  lemma CheckError(loan: Loan, bidPrice: nat, owed: nat, q: Quote, t: Timing)
    ensures var check := BidIsHighEnough(loan, bidPrice, owed, q, t);
            if check.Fail? then
              check.error == HeightError(loan, bidPrice, owed, q, t)
            else if loan.state == Active then
              owed > 0
            else
              bidPrice >= owed && HeightError(loan, bidPrice, owed, q, t) == LPL_BID_PRICE_LESS_THAN_HIGHEST_PRICE
  {
    hide EndTime, StillOpen, ThresholdPrice, BeyondThreshold, LiquidatePrice, PercentMul;
    BidRules(loan, q, t, owed, bidPrice);
  }

  lemma FirstBidOpens(p: Pool, id: nat, user: Address, bidPrice: nat, owed: nat, now: Timestamp)
    requires Sound(p) && 0 < id < |p.loans| && HasLoan(p, id) && p.loans[id].state == Active
    ensures AuctionLoan(p, id, user, bidPrice, owed, now).Done?
  {
  }

  function RedeemError(p: Pool, nft: Nft, amount: nat, maxFine: nat, terms: Terms, accrual: Accrual,
                       t: Timing): Error
    requires Readable(p)
  {
    var id := Get(p.loanIds, nft);
    if id == 0 then LP_NFT_IS_NOT_USED_AS_COLLATERAL
    else if p.loans[id].state != Auction then LPL_INVALID_LOAN_STATE
    else if amount == 0 then VL_INVALID_AMOUNT
    else if !StillOpen(p.loans[id].bidStartTimestamp, t) then LPL_BID_REDEEM_DURATION_HAS_END
    else if !CanAccrue(p, p.loans[id].reserve, accrual) then RL_VARIABLE_BORROW_INDEX_OVERFLOW
    else if !CoversFine(p.loans[id].bidPrice, Owed(p, id, accrual), terms, maxFine) then LPL_INVALID_BID_FINE
    else if Owed(p, id, accrual) * terms.redeemThreshold >= 10_000 * amount + 5_000 then
      LP_AMOUNT_LESS_THAN_REDEEM_THRESHOLD
    else if 10_000 * amount > Owed(p, id, accrual) * 9_000 + 5_000 then LP_AMOUNT_GREATER_THAN_MAX_REPAY
    else LPL_INVALID_TAKEN_AMOUNT
  }

  /** A refused redeem does likewise; when it breaks none of the other rules, the sum converts to nothing. */
  lemma RedeemRefused(p: Pool, nft: Nft, amount: nat, maxFine: nat, terms: Terms, accrual: Accrual, t: Timing)
    requires Inv(p)
    ensures var r := Redeem(p, nft, amount, maxFine, terms, accrual, t, true);
            r.Reverted? ==> r.error == RedeemError(p, nft, amount, maxFine, terms, accrual, t)
  {
    hide Balanced, BurnDebt, Refund, BidFine, EndTime, StillOpen, CoversFine, PercentMul;
    var id := Get(p.loanIds, nft);
    if id != 0 && p.loans[id].state == Auction {
      var loan := p.loans[id];
      WindowIff(loan, t);
      UpdateStateSound(p, loan.reserve, accrual);
      AccruedInv(p, loan.reserve, accrual);
      AccrualError(p, loan.reserve, accrual);
      if CanAccrue(p, loan.reserve, accrual) {
        var p1 := UpdateState(p, loan.reserve, accrual).value;
        var owed := BorrowAmount(p1, id);
        DebtOfNothing(p1, id);
        RedeemRules(loan, t, owed, terms, amount, maxFine);
        if 0 < amount <= PercentMul(owed, 9_000) {
          MaxRepayBelowDebt(owed);
          RedeemedLoan(p1, id, amount, BidFine(loan, owed, terms));
        }
      }
    }
  }

  function LiquidateError(p: Pool, nft: Nft, amount: nat, accrual: Accrual, t: Timing): Error
    requires Readable(p)
  {
    var id := Get(p.loanIds, nft);
    if id == 0 then LP_NFT_IS_NOT_USED_AS_COLLATERAL
    else if p.loans[id].state != Auction then LPL_INVALID_LOAN_STATE
    else if StillOpen(p.loans[id].bidStartTimestamp, t) then LPL_BID_AUCTION_DURATION_NOT_END
    else if !CanAccrue(p, p.loans[id].reserve, accrual) then RL_VARIABLE_BORROW_INDEX_OVERFLOW
    else LP_AMOUNT_LESS_THAN_EXTRA_DEBT
  }

  /** A refused liquidation does likewise. */
  lemma LiquidateRefused(p: Pool, nft: Nft, amount: nat, accrual: Accrual, t: Timing)
    requires Inv(p)
    ensures var r := Liquidate(p, nft, amount, accrual, t, true);
            r.Reverted? ==> r.error == LiquidateError(p, nft, amount, accrual, t)
  {
    hide Balanced, LiquidateLoan;
    var id := Get(p.loanIds, nft);
    if id != 0 && p.loans[id].state == Auction {
      var loan := p.loans[id];
      UpdateStateSound(p, loan.reserve, accrual);
      AccruedInv(p, loan.reserve, accrual);
      AccrualError(p, loan.reserve, accrual);
      WindowIff(loan, t);
      if CanAccrue(p, loan.reserve, accrual) {
        LiquidatedLoan(UpdateState(p, loan.reserve, accrual).value, id);
      }
    }
  }
}
