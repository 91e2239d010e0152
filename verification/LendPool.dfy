/** The pool as the contracts keep it: storage that each transaction writes step by step, rolled back when a
    later step reverts. Each public method says when it completes, what it then did to the books, which
    error it gives otherwise, and that a reverted call leaves no trace. */
module LendPools {
  import opened Common
  import opened Constants
  import opened Loans
  import opened LoanEffects
  import opened LoanErrors
  import LoanBooks
  import LoanRuns

  // A step that may revert did what the specification says; where it reverts, only the error matters.
  ghost predicate Did(r: Result<()>, spec: Result<Pool>, after: Pool) {
    match spec
    case Done(p) => r == Done(()) && after == p
    case Reverted(error) => r == Reverted(error)
  }

  class LendPool {
    var loans: seq<Loan>
    var loanIds: map<Nft, nat>
    var totalCollateral: map<Address, nat>
    var userCollateral: map<(Address, Address), nat>
    var debts: map<(Address, Address), nat>
    var supply: map<Address, nat>
    var index: map<Address, nat>
    var escrow: map<Address, nat>

    function State(): Pool
      reads this
    {
      Pool(loans, loanIds, totalCollateral, userCollateral, debts, supply, index, escrow)
    }

    constructor ()
      ensures State() == EMPTY && LoanBooks.Inv(State())
    {
      loans, loanIds, totalCollateral, userCollateral := [NO_LOAN], map[], map[], map[];
      debts, supply, index, escrow := map[], map[], map[], map[];
      new;
      LoanRuns.EmptyBooks();
    }

    method Restore(p: Pool)
      modifies this
      ensures State() == p
    {
      loans, loanIds, totalCollateral, userCollateral := p.loans, p.loanIds, p.totalCollateral, p.userCollateral;
      debts, supply, index, escrow := p.debts, p.supply, p.index, p.escrow;
    }

    method AccrueIndex(reserve: Address, accrual: Accrual) returns (r: Result<()>)
      requires reserve in index
      modifies this`index
      ensures Did(r, UpdateState(old(State()), reserve, accrual), State())
    {
      if accrual.liquidityRate > 0 && Get(supply, reserve) != 0 {
        var cumulated := CompoundedInterest(accrual.borrowRate, accrual.elapsed);
        var newIndex := RayMul(cumulated, index[reserve]);
        :- Require(newIndex <= MAX_UINT128, RL_VARIABLE_BORROW_INDEX_OVERFLOW);
        index := index[reserve := newIndex];
      }
      return Done(());
    }

    method MintDebtToken(user: Address, reserve: Address, amount: nat) returns (r: Result<()>)
      requires reserve in index && index[reserve] > 0
      modifies this`debts, this`supply
      ensures Did(r, MintDebt(old(State()), user, reserve, amount), State())
    {
      var amountScaled := RayDiv(amount, index[reserve]);
      :- Require(amountScaled != 0, CT_INVALID_MINT_AMOUNT);
      debts := debts[(user, reserve) := Get(debts, (user, reserve)) + amountScaled];
      supply := supply[reserve := Get(supply, reserve) + amountScaled];
      return Done(());
    }

    method BurnDebtToken(user: Address, reserve: Address, amount: nat) returns (r: Result<()>)
      requires reserve in index && index[reserve] > 0
      modifies this`debts, this`supply
      ensures Did(r, BurnDebt(old(State()), user, reserve, amount), State())
    {
      var amountScaled := RayDiv(amount, index[reserve]);
      :- Require(amountScaled != 0, CT_INVALID_BURN_AMOUNT);
      :- Require(amountScaled <= Get(debts, (user, reserve)) && amountScaled <= Get(supply, reserve),
                 ERC20_BURN_EXCEEDS_BALANCE);
      debts := debts[(user, reserve) := Get(debts, (user, reserve)) - amountScaled];
      supply := supply[reserve := Get(supply, reserve) - amountScaled];
      return Done(());
    }

    method Send(reserve: Address, amount: nat) returns (r: Result<()>)
      modifies this`escrow
      ensures Did(r, PayOut(old(State()), reserve, amount), State())
    {
      var held := Get(escrow, reserve);
      :- Require(amount <= held, ERC20_TRANSFER_EXCEEDS_BALANCE);
      escrow := escrow[reserve := held - amount];
      return Done(());
    }

    method SendTo(reserve: Address, to: Address, amount: nat) returns (r: Result<()>)
      modifies this`escrow
      ensures Did(r, PayTo(old(State()), reserve, to, amount), State())
    {
      var held := Get(escrow, reserve);
      :- Require(amount <= held, ERC20_TRANSFER_EXCEEDS_BALANCE);
      if to != POOL {
        escrow := escrow[reserve := held - amount];
      }
      return Done(());
    }

    method Receive(reserve: Address, amount: nat)
      modifies this`escrow
      ensures State() == PayIn(old(State()), reserve, amount)
    {
      escrow := escrow[reserve := Get(escrow, reserve) + amount];
    }

    method OpenLoan(onBehalfOf: Address, nft: Nft, reserve: Address, amount: nat)
      requires reserve in index && index[reserve] > 0
      modifies this
      ensures State() == CreateLoan(old(State()), onBehalfOf, nft, reserve, amount)
    {
      var amountScaled := RayDiv(amount, index[reserve]);
      loanIds := loanIds[nft := |loans|];
      loans := loans + [NO_LOAN.(state := Active, borrower := onBehalfOf, nft := nft, reserve := reserve,
                                 scaledAmount := amountScaled)];
      userCollateral := userCollateral[(onBehalfOf, nft.asset) := Get(userCollateral, (onBehalfOf, nft.asset)) + 1];
      totalCollateral := totalCollateral[nft.asset := Get(totalCollateral, nft.asset) + 1];
    }

    method ChangeLoan(id: nat, amountAdded: nat, amountTaken: nat) returns (r: Result<()>)
      requires HasLoan(State(), id)
      modifies this`loans
      ensures Did(r, UpdateLoan(old(State()), id, amountAdded, amountTaken), State())
    {
      var borrowIndex := index[loans[id].reserve];
      :- Require(loans[id].state == Active, LPL_INVALID_LOAN_STATE);
      if amountAdded > 0 {
        var amountScaled := RayDiv(amountAdded, borrowIndex);
        :- Require(amountScaled != 0, LPL_INVALID_LOAN_AMOUNT);
        loans := loans[id := loans[id].(scaledAmount := loans[id].scaledAmount + amountScaled)];
      }
      if amountTaken > 0 {
        var amountScaled := RayDiv(amountTaken, borrowIndex);
        :- Require(amountScaled != 0, LPL_INVALID_TAKEN_AMOUNT);
        :- Require(loans[id].scaledAmount >= amountScaled, LPL_AMOUNT_OVERFLOW);
        loans := loans[id := loans[id].(scaledAmount := loans[id].scaledAmount - amountScaled)];
      }
      return Done(());
    }

    method ReleaseLoan(id: nat, closed: Loan) returns (r: Result<()>)
      requires HasLoan(State(), id)
      modifies this`loans, this`loanIds, this`userCollateral, this`totalCollateral
      ensures Did(r, CloseLoan(old(State()), id, closed), State())
    {
      var loan := loans[id];
      loans := loans[id := closed];
      loanIds := loanIds[loan.nft := 0];
      var user := (loan.borrower, loan.nft.asset);
      :- Require(Get(userCollateral, user) >= 1, LP_INVALIED_USER_NFT_AMOUNT);
      userCollateral := userCollateral[user := Get(userCollateral, user) - 1];
      :- Require(Get(totalCollateral, loan.nft.asset) >= 1, LP_INVALIED_NFT_AMOUNT);
      totalCollateral := totalCollateral[loan.nft.asset := Get(totalCollateral, loan.nft.asset) - 1];
      return Done(());
    }

    method AddReserve(reserve: Address) returns (r: Result<()>)
      requires LoanBooks.Inv(State())
      modifies this`index
      ensures r.Done? <==> reserve !in old(index)
      ensures r.Reverted? ==> r.error == RL_RESERVE_ALREADY_INITIALIZED
      ensures index == if r.Done? then old(index)[reserve := RAY] else old(index)
      ensures LoanBooks.Inv(State())
    {
      LoanRuns.InitKeepsInv(State(), reserve);
      :- Require(reserve !in index, RL_RESERVE_ALREADY_INITIALIZED);
      index := index[reserve := RAY];
      return Done(());
    }

    method TryBorrow(onBehalfOf: Address, reserve: Address, amount: nat, nft: Nft, accrual: Accrual,
                     admitted: bool)
      returns (r: Result<()>)
      requires Readable(State())
      modifies this
      ensures Did(r, Loans.Borrow(old(State()), onBehalfOf, reserve, amount, nft, accrual, admitted), State())
    {
      var loanId := Get(loanIds, nft);
      :- Require(onBehalfOf != ZERO_ADDRESS, VL_INVALID_ONBEHALFOF_ADDRESS);
      :- Require(reserve in index, VL_INVALID_RESERVE_ADDRESS);
      UpdateStateReadable(State(), reserve, accrual);
      var _ :- AccrueIndex(reserve, accrual);
      :- Require(amount > 0, VL_INVALID_AMOUNT);
      if loanId != 0 {
        :- Require(loans[loanId].state == Active, LPL_INVALID_LOAN_STATE);
        :- Require(loans[loanId].reserve == reserve, VL_SPECIFIED_RESERVE_NOT_BORROWED_BY_USER);
        :- Require(loans[loanId].borrower == onBehalfOf, VL_SPECIFIED_LOAN_NOT_BORROWED_BY_USER);
      }
      :- Require(admitted, VL_NOT_ADMITTED);
      if loanId == 0 {
        OpenLoan(onBehalfOf, nft, reserve, amount);
      } else {
        var _ :- ChangeLoan(loanId, amount, 0);
      }
      var _ :- MintDebtToken(onBehalfOf, reserve, amount);
      return Done(());
    }

    method Borrow(onBehalfOf: Address, reserve: Address, amount: nat, nft: Nft, accrual: Accrual,
                  admitted: bool)
      returns (r: Result<()>)
      requires LoanBooks.Inv(State())
      modifies this
      ensures r.Done? <==> admitted && MayBorrow(old(State()), onBehalfOf, reserve, amount, nft, accrual)
      ensures r.Reverted? ==> State() == old(State())
      ensures r.Reverted? && admitted ==>
                r.error == BorrowError(old(State()), onBehalfOf, reserve, amount, nft, accrual)
      ensures r.Done? ==> Borrowed(old(State()), State(), onBehalfOf, reserve, amount, nft)
      ensures r.Done? ==> Updated(old(State()), State(), reserve, accrual)
      ensures LoanBooks.Inv(State())
    {
      var before := State();
      LoanBooks.BorrowKeepsInv(before, onBehalfOf, reserve, amount, nft, accrual, admitted);
      BorrowIff(before, onBehalfOf, reserve, amount, nft, accrual, admitted);
      r := TryBorrow(onBehalfOf, reserve, amount, nft, accrual, admitted);
      if r.Reverted? {
        if admitted {
          BorrowRefused(before, onBehalfOf, reserve, amount, nft, accrual);
        }
        Restore(before);
      } else {
        BorrowEffect(before, onBehalfOf, reserve, amount, nft, accrual, admitted, State());
      }
    }

    method TryRepay(nft: Nft, amount: nat, accrual: Accrual, admitted: bool)
      returns (r: Result<()>)
      requires Readable(State())
      modifies this
      ensures Did(r, Loans.Repay(old(State()), nft, amount, accrual, admitted), State())
    {
      var loanId := Get(loanIds, nft);
      :- Require(loanId != 0, LP_NFT_IS_NOT_USED_AS_COLLATERAL);
      var loanData := loans[loanId];
      UpdateStateReadable(State(), loanData.reserve, accrual);
      var _ :- AccrueIndex(loanData.reserve, accrual);
      var borrowAmount := BorrowAmount(State(), loanId);
      :- Require(amount > 0, VL_INVALID_AMOUNT);
      :- Require(borrowAmount > 0, VL_NO_DEBT_OF_SELECTED_TYPE);
      :- Require(loanData.state == Active, LPL_INVALID_LOAN_STATE);
      :- Require(admitted, VL_NOT_ADMITTED);
      var repayAmount := borrowAmount;
      var isUpdate := false;
      if amount < repayAmount {
        isUpdate := true;
        repayAmount := amount;
      }
      if isUpdate {
        var _ :- ChangeLoan(loanId, 0, repayAmount);
      } else {
        var _ :- ReleaseLoan(loanId, loanData.(state := Repaid));
      }
      var _ :- BurnDebtToken(loanData.borrower, loanData.reserve, repayAmount);
      return Done(());
    }

    method Repay(nft: Nft, amount: nat, accrual: Accrual, admitted: bool)
      returns (r: Result<()>)
      requires LoanBooks.Inv(State())
      modifies this
      ensures r.Done? <==> admitted && MayRepay(old(State()), nft, amount, accrual)
      ensures r.Reverted? ==> State() == old(State())
      ensures r.Reverted? && admitted ==> r.error == RepayError(old(State()), nft, amount, accrual)
      ensures r.Done? ==> PaidBack(old(State()), State(), nft, amount)
      ensures r.Done? ==> Updated(old(State()), State(), old(loans[Get(loanIds, nft)].reserve), accrual)
      ensures LoanBooks.Inv(State())
    {
      var before := State();
      LoanBooks.RepayKeepsInv(before, nft, amount, accrual, admitted);
      RepayIff(before, nft, amount, accrual, admitted);
      r := TryRepay(nft, amount, accrual, admitted);
      if r.Reverted? {
        if admitted {
          RepayRefused(before, nft, amount, accrual);
        }
        Restore(before);
      } else {
        RepayEffect(before, nft, amount, accrual, admitted, State());
      }
    }

    method PlaceBid(id: nat, onBehalfOf: Address, bidPrice: nat, borrowAmount: nat,
                    now: Timestamp)
      returns (r: Result<()>)
      requires HasLoan(State(), id)
      modifies this`loans
      ensures Did(r, AuctionLoan(old(State()), id, onBehalfOf, bidPrice, borrowAmount, now), State())
    {
      if loans[id].bidStartTimestamp == 0 {
        :- Require(loans[id].state == Active, LPL_INVALID_LOAN_STATE);
        loans := loans[id := loans[id].(state := LoanState.Auction, bidStartTimestamp := now,
                                        firstBidder := onBehalfOf)];
      } else {
        :- Require(loans[id].state == LoanState.Auction, LPL_INVALID_LOAN_STATE);
        :- Require(bidPrice > loans[id].bidPrice, LPL_BID_PRICE_LESS_THAN_HIGHEST_PRICE);
      }
      loans := loans[id := loans[id].(bidBorrowAmount := borrowAmount, bidder := onBehalfOf, bidPrice := bidPrice)];
      return Done(());
    }

    method TryAuction(nft: Nft, onBehalfOf: Address, bidPrice: nat, accrual: Accrual, q: Quote, t: Timing,
                      admitted: bool)
      returns (r: Result<()>)
      requires Readable(State())
      modifies this
      ensures Did(r, Bid(old(State()), nft, onBehalfOf, bidPrice, accrual, q, t, admitted), State())
    {
      var loanId := Get(loanIds, nft);
      :- Require(onBehalfOf != ZERO_ADDRESS, VL_INVALID_ONBEHALFOF_ADDRESS);
      :- Require(loanId != 0, LP_NFT_IS_NOT_USED_AS_COLLATERAL);
      var loanData := loans[loanId];
      :- Require(loanData.Live(), LPL_INVALID_LOAN_STATE);
      :- Require(bidPrice > 0, VL_INVALID_AMOUNT);
      :- Require(admitted, VL_NOT_ADMITTED);
      UpdateStateReadable(State(), loanData.reserve, accrual);
      var _ :- AccrueIndex(loanData.reserve, accrual);
      var borrowAmount := BorrowAmount(State(), loanId);
      :- BidIsHighEnough(loanData, bidPrice, borrowAmount, q, t);
      var _ :- PlaceBid(loanId, onBehalfOf, bidPrice, borrowAmount, t.now);
      Receive(loanData.reserve, bidPrice);
      if loanData.bidder != ZERO_ADDRESS {
        var _ :- SendTo(loanData.reserve, loanData.bidder, loanData.bidPrice);
      }
      return Done(());
    }

    method Auction(nft: Nft, onBehalfOf: Address, bidPrice: nat, accrual: Accrual, q: Quote, t: Timing,
                   admitted: bool)
      returns (r: Result<()>)
      requires LoanBooks.Inv(State())
      modifies this
      ensures r.Done? <==> admitted && MayBid(old(State()), nft, onBehalfOf, bidPrice, accrual, q, t)
      ensures r.Reverted? ==> State() == old(State())
      ensures r.Reverted? && admitted ==> r.error == BidError(old(State()), nft, onBehalfOf, bidPrice, accrual, q, t)
      ensures r.Done? ==> BidOn(old(State()), State(), nft, onBehalfOf, bidPrice, t.now)
      ensures r.Done? ==> Updated(old(State()), State(), old(loans[Get(loanIds, nft)].reserve), accrual)
      ensures LoanBooks.Inv(State())
    {
      var before := State();
      LoanBooks.BidKeepsInv(before, nft, onBehalfOf, bidPrice, accrual, q, t, admitted);
      BidIff(before, nft, onBehalfOf, bidPrice, accrual, q, t, admitted);
      r := TryAuction(nft, onBehalfOf, bidPrice, accrual, q, t, admitted);
      if r.Reverted? {
        if admitted {
          BidRefused(before, nft, onBehalfOf, bidPrice, accrual, q, t);
        }
        Restore(before);
      } else {
        BidTakesTheLead(before, nft, onBehalfOf, bidPrice, accrual, q, t, admitted, State());
      }
    }

    method ReopenLoan(id: nat, amountTaken: nat) returns (r: Result<()>)
      requires HasLoan(State(), id)
      modifies this`loans
      ensures Did(r, RedeemLoan(old(State()), id, amountTaken), State())
    {
      var amountScaled := RayDiv(amountTaken, index[loans[id].reserve]);
      :- Require(loans[id].state == LoanState.Auction, LPL_INVALID_LOAN_STATE);
      :- Require(amountScaled != 0, LPL_INVALID_TAKEN_AMOUNT);
      :- Require(loans[id].scaledAmount >= amountScaled, LPL_AMOUNT_OVERFLOW);
      loans := loans[id := loans[id].(scaledAmount := loans[id].scaledAmount - amountScaled)];
      loans := loans[id := loans[id].(state := Active, bidStartTimestamp := 0, bidBorrowAmount := 0,
                                      bidder := ZERO_ADDRESS, bidPrice := 0, firstBidder := ZERO_ADDRESS)];
      return Done(());
    }

    method TryRedeem(nft: Nft, amount: nat, maxFine: nat, terms: Terms, accrual: Accrual, t: Timing,
                     admitted: bool)
      returns (r: Result<()>)
      requires Readable(State())
      modifies this
      ensures Did(r, Loans.Redeem(old(State()), nft, amount, maxFine, terms, accrual, t, admitted), State())
    {
      var loanId := Get(loanIds, nft);
      :- Require(loanId != 0, LP_NFT_IS_NOT_USED_AS_COLLATERAL);
      var loanData := loans[loanId];
      :- Require(loanData.state == LoanState.Auction, LPL_INVALID_LOAN_STATE);
      :- Require(loanData.bidder != ZERO_ADDRESS, LPL_INVALID_BIDDER_ADDRESS);
      :- Require(amount > 0, VL_INVALID_AMOUNT);
      :- Require(admitted, VL_NOT_ADMITTED);
      :- Require(t.now <= EndTime(loanData, t), LPL_BID_REDEEM_DURATION_HAS_END);
      UpdateStateReadable(State(), loanData.reserve, accrual);
      var _ :- AccrueIndex(loanData.reserve, accrual);
      var borrowAmount := BorrowAmount(State(), loanId);
      var bidFine := BidFine(loanData, borrowAmount, terms);
      :- CanRedeem(amount, maxFine, borrowAmount, bidFine, terms.redeemThreshold);
      var _ :- ReopenLoan(loanId, amount);
      var _ :- BurnDebtToken(loanData.borrower, loanData.reserve, amount);
      var _ :- SendTo(loanData.reserve, loanData.bidder, loanData.bidPrice);
      if loanData.firstBidder == POOL {
        Receive(loanData.reserve, bidFine);
      }
      return Done(());
    }

    method Redeem(nft: Nft, amount: nat, maxFine: nat, terms: Terms, accrual: Accrual, t: Timing,
                  admitted: bool)
      returns (r: Result<()>)
      requires LoanBooks.Inv(State())
      modifies this
      ensures r.Done? <==> admitted && MayRedeem(old(State()), nft, amount, maxFine, terms, accrual, t)
      ensures r.Reverted? ==> State() == old(State())
      ensures r.Reverted? && admitted ==> r.error == RedeemError(old(State()), nft, amount, maxFine, terms, accrual, t)
      ensures r.Done? ==> Redeemed(old(State()), State(), nft, amount, terms)
      ensures r.Done? ==> Updated(old(State()), State(), old(loans[Get(loanIds, nft)].reserve), accrual)
      ensures LoanBooks.Inv(State())
    {
      var before := State();
      LoanBooks.RedeemKeepsInv(before, nft, amount, maxFine, terms, accrual, t, admitted);
      RedeemIff(before, nft, amount, maxFine, terms, accrual, t, admitted);
      r := TryRedeem(nft, amount, maxFine, terms, accrual, t, admitted);
      if r.Reverted? {
        if admitted {
          RedeemRefused(before, nft, amount, maxFine, terms, accrual, t);
        }
        Restore(before);
      } else {
        RedeemEffect(before, nft, amount, maxFine, terms, accrual, t, admitted, State());
      }
    }

    method TryLiquidate(nft: Nft, amount: nat, accrual: Accrual, t: Timing, admitted: bool)
      returns (r: Result<()>)
      requires Readable(State())
      modifies this
      ensures Did(r, Loans.Liquidate(old(State()), nft, amount, accrual, t, admitted), State())
    {
      var loanId := Get(loanIds, nft);
      :- Require(loanId != 0, LP_NFT_IS_NOT_USED_AS_COLLATERAL);
      var loanData := loans[loanId];
      :- Require(loanData.state == LoanState.Auction, LPL_INVALID_LOAN_STATE);
      :- Require(loanData.bidder != ZERO_ADDRESS, LPL_INVALID_BIDDER_ADDRESS);
      :- Require(admitted, VL_NOT_ADMITTED);
      :- Require(t.now > EndTime(loanData, t), LPL_BID_AUCTION_DURATION_NOT_END);
      UpdateStateReadable(State(), loanData.reserve, accrual);
      var _ :- AccrueIndex(loanData.reserve, accrual);
      var borrowAmount := BorrowAmount(State(), loanId);
      if loanData.bidPrice < borrowAmount {
        :- Require(amount >= borrowAmount - loanData.bidPrice, LP_AMOUNT_LESS_THAN_EXTRA_DEBT);
      }
      var _ :- ReleaseLoan(loanId, loanData.(state := Defaulted, bidBorrowAmount := borrowAmount));
      var _ :- BurnDebtToken(loanData.borrower, loanData.reserve, borrowAmount);
      r := SettleBid(loanData.reserve, loanData.borrower, loanData.bidPrice, borrowAmount);
    }

    // The transfers at the end of a liquidation.
    method SettleBid(reserve: Address, borrower: Address, bidPrice: nat, borrowAmount: nat) returns (r: Result<()>)
      modifies this`escrow
      ensures Did(r, Settle(old(State()), reserve, borrower, bidPrice, borrowAmount), State())
    {
      var extraDebtAmount, remainAmount := 0, 0;
      if bidPrice < borrowAmount {
        extraDebtAmount := borrowAmount - bidPrice;
      }
      if bidPrice > borrowAmount {
        remainAmount := bidPrice - borrowAmount;
      }
      if extraDebtAmount > 0 {
        Receive(reserve, extraDebtAmount);
      }
      var _ :- Send(reserve, borrowAmount);
      if remainAmount > 0 {
        var _ :- SendTo(reserve, borrower, remainAmount);
      }
      return Done(());
    }

    method Liquidate(nft: Nft, amount: nat, accrual: Accrual, t: Timing, admitted: bool)
      returns (r: Result<()>)
      requires LoanBooks.Inv(State())
      modifies this
      ensures r.Done? <==> admitted && MayLiquidate(old(State()), nft, amount, accrual, t)
      ensures r.Reverted? ==> State() == old(State())
      ensures r.Reverted? && admitted ==> r.error == LiquidateError(old(State()), nft, amount, accrual, t)
      ensures r.Done? ==> Settled(old(State()), State(), nft)
      ensures r.Done? ==> Updated(old(State()), State(), old(loans[Get(loanIds, nft)].reserve), accrual)
      ensures LoanBooks.Inv(State())
    {
      var before := State();
      LoanBooks.LiquidateKeepsInv(before, nft, amount, accrual, t, admitted);
      LiquidateIff(before, nft, amount, accrual, t, admitted);
      r := TryLiquidate(nft, amount, accrual, t, admitted);
      if r.Reverted? {
        if admitted {
          LiquidateRefused(before, nft, amount, accrual, t);
        }
        Restore(before);
      } else {
        LiquidateEffect(before, nft, amount, accrual, t, admitted, State());
      }
    }
  }
}
