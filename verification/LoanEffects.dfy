/** Exactly when each transaction of the lending pool completes, and exactly what it then does. */
module LoanEffects {
  import opened Arithmetic
  import opened Common
  import opened Constants
  import opened Loans
  import opened LoanBooks
  import opened LoanRules

  // Only the reserve's index has moved, and not down.
  predicate Accrued(p: Pool, p': Pool, reserve: Address) {
    && reserve in p.index && reserve in p'.index && RAY <= p.index[reserve] <= p'.index[reserve]
    && p'.index == p.index[reserve := p'.index[reserve]]
  }

  // The indexes are those that updating the reserve's state leaves.
  predicate Updated(p: Pool, p': Pool, reserve: Address, accrual: Accrual) {
    && reserve in p.index
    && var r := UpdateState(p, reserve, accrual);
    r.Done? && p'.index == r.value.index
  }

  // The index a transaction works with, if the reserve's state can be updated.
  function NewIndex(p: Pool, reserve: Address, accrual: Accrual): (i: nat)
    requires Readable(p) && reserve in p.index && UpdateState(p, reserve, accrual).Done?
    ensures i >= RAY
  {
    UpdateStateReadable(p, reserve, accrual);
    UpdateState(p, reserve, accrual).value.index[reserve]
  }

  // ---------------------------------------------------------------- borrowing

  predicate Opened(p: Pool, p': Pool, user: Address, nft: Nft, reserve: Address, scaled: nat) {
    && p'.loans == p.loans +
         [NO_LOAN.(state := Active, borrower := user, nft := nft, reserve := reserve, scaledAmount := scaled)]
    && p'.loanIds == p.loanIds[nft := |p.loans|] && p'.escrow == p.escrow
    && p'.debts == p.debts[(user, reserve) := Get(p.debts, (user, reserve)) + scaled]
  }

  predicate Increased(p: Pool, p': Pool, id: nat, user: Address, reserve: Address, scaled: nat) {
    && id < |p.loans| && p.loans[id].state == Active && p.loans[id].borrower == user && p.loans[id].reserve == reserve
    && p'.loans == p.loans[id := p.loans[id].(scaledAmount := p.loans[id].scaledAmount + scaled)]
    && p'.loanIds == p.loanIds && p'.escrow == p.escrow
    && p'.debts == p.debts[(user, reserve) := Get(p.debts, (user, reserve)) + scaled]
  }

  predicate Borrowed(p: Pool, p': Pool, user: Address, reserve: Address, amount: nat, nft: Nft) {
    && Accrued(p, p', reserve)
    && var scaled, id := RayDiv(amount, p'.index[reserve]), Get(p.loanIds, nft);
    && scaled > 0
    && if id == 0 then Opened(p, p', user, nft, reserve, scaled) else Increased(p, p', id, user, reserve, scaled)
  }

  /** What a borrow does: a free NFT backs a new loan of what the amount converts to, and a borrower's own
      active loan grows by it; the debt token follows, and no token enters or leaves the pool's account. */
  lemma BorrowEffect(p: Pool, user: Address, reserve: Address, amount: nat, nft: Nft, accrual: Accrual,
                     admitted: bool, p': Pool)
    requires Inv(p) && Borrow(p, user, reserve, amount, nft, accrual, admitted) == Done(p')
    ensures Borrowed(p, p', user, reserve, amount, nft) && Updated(p, p', reserve, accrual)
  {
    hide Balanced, BorrowLoan;
    UpdateStateReadable(p, reserve, accrual);
    var p1, id := UpdateState(p, reserve, accrual).value, Get(p.loanIds, nft);
    if id == 0 {
      OpenEffect(p1, user, nft, reserve, amount);
    } else {
      IncreaseEffect(p1, id, amount, nft);
    }
  }

  lemma OpenEffect(p: Pool, user: Address, nft: Nft, reserve: Address, amount: nat)
    requires reserve in p.index && p.index[reserve] > 0
    ensures var r, scaled := BorrowLoan(p, 0, user, reserve, amount, nft), RayDiv(amount, p.index[reserve]);
            && (r.Done? <==> scaled > 0)
            && (r.Done? ==> r.value.index == p.index && Opened(p, r.value, user, nft, reserve, scaled))
  {
  }

  lemma IncreaseEffect(p: Pool, id: nat, amount: nat, nft: Nft)
    requires HasLoan(p, id) && amount > 0
    ensures var loan := p.loans[id];
            var r, scaled := BorrowLoan(p, id, loan.borrower, loan.reserve, amount, nft),
              RayDiv(amount, p.index[loan.reserve]);
            && (r.Done? <==> loan.state == Active && scaled > 0)
            && (r.Done? ==> r.value.index == p.index && Increased(p, r.value, id, loan.borrower, loan.reserve, scaled))
  {
  }

  // The amount converts to some debt, and the NFT is free or backs the borrower's own active loan in the reserve.
  predicate MayBorrow(p: Pool, user: Address, reserve: Address, amount: nat, nft: Nft, accrual: Accrual)
    requires Readable(p)
  {
    && user != ZERO_ADDRESS && reserve in p.index && UpdateState(p, reserve, accrual).Done?
    && amount * RAY + NewIndex(p, reserve, accrual) / 2 >= NewIndex(p, reserve, accrual)
    && var id := Get(p.loanIds, nft);
    id == 0 || (p.loans[id].state == Active && p.loans[id].reserve == reserve && p.loans[id].borrower == user)
  }

  /** A borrow completes exactly then, if every other validation admits it. */
  lemma BorrowIff(p: Pool, user: Address, reserve: Address, amount: nat, nft: Nft, accrual: Accrual, admitted: bool)
    requires Inv(p)
    ensures Borrow(p, user, reserve, amount, nft, accrual, admitted).Done? <==>
            admitted && MayBorrow(p, user, reserve, amount, nft, accrual)
  {
    hide Balanced, BorrowLoan;
    if reserve in p.index && UpdateState(p, reserve, accrual).Done? {
      UpdateStateReadable(p, reserve, accrual);
      var p1, id := UpdateState(p, reserve, accrual).value, Get(p.loanIds, nft);
      ConvertsIff(amount, p1.index[reserve]);
      if id == 0 {
        OpenEffect(p1, user, nft, reserve, amount);
      } else if amount > 0 {
        IncreaseEffect(p1, id, amount, nft);
      }
    }
  }

  // A sum is worth something at an index.
  lemma ConvertsIff(amount: nat, i: nat)
    requires i > 0
    ensures RayDiv(amount, i) > 0 <==> amount * RAY + i / 2 >= i
    ensures RayDiv(amount, i) > 0 ==> amount > 0
  {
    QuotientLess(amount * RAY + i / 2, i, 1);
    QuotientUnique(i / 2, i, 0);
  }

  // ---------------------------------------------------------------- repaying

  // A repay either lowers the loan's scaled amount by what the sum converts to at the new index, or closes the loan.
  predicate Reduced(p: Pool, p': Pool, id: nat, amount: nat)
    requires id < |p.loans|
  {
    var loan := p.loans[id];
    && loan.reserve in p'.index && p'.index[loan.reserve] > 0
    && var taken := RayDiv(amount, p'.index[loan.reserve]);
    && taken <= loan.scaledAmount && p'.loanIds == p.loanIds
    && p'.loans == p.loans[id := loan.(scaledAmount := loan.scaledAmount - taken)]
    && Get(p'.debts, (loan.borrower, loan.reserve)) == Get(p.debts, (loan.borrower, loan.reserve)) - taken
  }

  predicate ClosedRepaid(p: Pool, p': Pool, id: nat)
    requires id < |p.loans|
  {
    var loan := p.loans[id];
    && p'.loanIds == p.loanIds[loan.nft := 0] && p'.loans == p.loans[id := loan.(state := Repaid)]
    && Get(p'.debts, (loan.borrower, loan.reserve)) == Get(p.debts, (loan.borrower, loan.reserve)) - loan.scaledAmount
    && Get(p'.userCollateral, (loan.borrower, loan.nft.asset)) ==
         Get(p.userCollateral, (loan.borrower, loan.nft.asset)) - 1
  }

  predicate PaidBack(p: Pool, p': Pool, nft: Nft, amount: nat) {
    var id := Get(p.loanIds, nft);
    && 0 < id < |p.loans| && p.loans[id].state == Active && p.loans[id].nft == nft && p'.escrow == p.escrow
    && Accrued(p, p', p.loans[id].reserve)
    && if amount < RayMul(p.loans[id].scaledAmount, p'.index[p.loans[id].reserve])
       then Reduced(p, p', id, amount) else ClosedRepaid(p, p', id)
  }

  lemma PartRepaid(p: Pool, id: nat, amount: nat)
    requires HasLoan(p, id) && amount > 0
    ensures var loan, r := p.loans[id], UpdateLoan(p, id, 0, amount);
            r.Done? ==> var r2 := BurnDebt(r.value, loan.borrower, loan.reserve, amount);
                        r2.Done? ==>
                          && Reduced(p, r2.value, id, amount)
                          && r2.value.index == p.index && r2.value.escrow == p.escrow
  {
  }

  lemma WholeRepaid(p: Pool, id: nat, owed: nat)
    requires HasLoan(p, id) && RayDiv(owed, p.index[p.loans[id].reserve]) == p.loans[id].scaledAmount
    ensures var loan, r := p.loans[id], CloseLoan(p, id, p.loans[id].(state := Repaid));
            r.Done? ==> var r2 := BurnDebt(r.value, loan.borrower, loan.reserve, owed);
                        r2.Done? ==>
                          && ClosedRepaid(p, r2.value, id)
                          && r2.value.index == p.index && r2.value.escrow == p.escrow
  {
  }

  /** What a repay does: a sum below the debt lowers the loan by what it converts to, any other closes it. */
  lemma RepayEffect(p: Pool, nft: Nft, amount: nat, accrual: Accrual, admitted: bool, p': Pool)
    requires Inv(p) && Repay(p, nft, amount, accrual, admitted) == Done(p')
    ensures PaidBack(p, p', nft, amount) && Updated(p, p', p.loans[Get(p.loanIds, nft)].reserve, accrual)
  {
    hide Balanced, RepayLoan;
    var id := Get(p.loanIds, nft);
    UpdateStateSound(p, p.loans[id].reserve, accrual);
    var p1 := UpdateState(p, p.loans[id].reserve, accrual).value;
    DebtOfNothing(p1, id);
    WholeDebtBurnsScaled(p1, id);
    RepayLoanEffect(p1, id, amount);
  }

  lemma RepayLoanEffect(p: Pool, id: nat, amount: nat)
    requires HasLoan(p, id) && amount > 0
    requires RayDiv(BorrowAmount(p, id), p.index[p.loans[id].reserve]) == p.loans[id].scaledAmount
    ensures var r := RepayLoan(p, id, amount);
            r.Done? ==> && r.value.index == p.index && r.value.escrow == p.escrow
                        && if amount < BorrowAmount(p, id) then Reduced(p, r.value, id, amount)
                             else ClosedRepaid(p, r.value, id)
  {
    hide BurnDebt, BorrowAmount;
    PartRepaid(p, id, amount);
    WholeRepaid(p, id, BorrowAmount(p, id));
  }

  // The loan is active, something is owed, and the sum, if it is below the debt, converts to something.
  predicate MayRepay(p: Pool, nft: Nft, amount: nat, accrual: Accrual)
    requires Readable(p)
  {
    && var id := Get(p.loanIds, nft);
    && id != 0 && var loan := p.loans[id];
    && loan.state == Active && amount > 0 && loan.scaledAmount > 0 && UpdateState(p, loan.reserve, accrual).Done?
    && var i := NewIndex(p, loan.reserve, accrual);
    amount * RAY + i / 2 >= i || amount >= RayMul(loan.scaledAmount, i)
  }

  /** A repay completes exactly then. */
  lemma RepayIff(p: Pool, nft: Nft, amount: nat, accrual: Accrual, admitted: bool)
    requires Inv(p)
    ensures Repay(p, nft, amount, accrual, admitted).Done? <==> admitted && MayRepay(p, nft, amount, accrual)
  {
    if Get(p.loanIds, nft) != 0 {
      RepayOfLoanIff(p, nft, amount, accrual, admitted);
    }
  }

  lemma RepayOfLoanIff(p: Pool, nft: Nft, amount: nat, accrual: Accrual, admitted: bool)
    requires Inv(p) && Get(p.loanIds, nft) != 0
    ensures Repay(p, nft, amount, accrual, admitted).Done? <==> admitted && MayRepay(p, nft, amount, accrual)
  {
    hide Balanced, RepayLoan;
    var id := p.loanIds[nft];
    var loan := p.loans[id];
    UpdateStateSound(p, loan.reserve, accrual);
    AccruedInv(p, loan.reserve, accrual);
    var r := UpdateState(p, loan.reserve, accrual);
    if r.Done? && loan.state == Active && amount > 0 {
      DebtOfNothing(r.value, id);
      WholeDebtBurnsScaled(r.value, id);
      ConvertsIff(amount, r.value.index[loan.reserve]);
      if loan.scaledAmount > 0 {
        RepaidLoan(r.value, id, amount);
      }
    }
  }

  /** A borrower who sends at least what is owed always closes the loan: the NFT is free again and the debt
      token has burnt exactly the loan's scaled amount. */
  lemma FullRepayCloses(p: Pool, nft: Nft, amount: nat, accrual: Accrual)
    requires Inv(p) && Get(p.loanIds, nft) != 0
    requires var loan := p.loans[p.loanIds[nft]];
             && loan.state == Active && loan.scaledAmount > 0 && UpdateState(p, loan.reserve, accrual).Done?
             && amount >= RayMul(loan.scaledAmount, NewIndex(p, loan.reserve, accrual))
    ensures var r := Repay(p, nft, amount, accrual, true);
            r.Done? && ClosedRepaid(p, r.value, p.loanIds[nft]) && Get(r.value.loanIds, nft) == 0
  {
    var loan := p.loans[p.loanIds[nft]];
    UpdateStateSound(p, loan.reserve, accrual);
    WholeDebtBurnsScaled(UpdateState(p, loan.reserve, accrual).value, p.loanIds[nft]);
    DebtOfNothing(UpdateState(p, loan.reserve, accrual).value, p.loanIds[nft]);
    RepayIff(p, nft, amount, accrual, true);
    RepayEffect(p, nft, amount, accrual, true, Repay(p, nft, amount, accrual, true).value);
  }

  lemma NothingOwedNothingRepaid(p: Pool, nft: Nft, sum: nat, later: Accrual, admitted: bool)
    requires Inv(p) && Get(p.loanIds, nft) != 0 && p.loans[p.loanIds[nft]].scaledAmount == 0
    ensures Repay(p, nft, sum, later, admitted).Reverted?
  {
    hide Balanced;
    UpdateStateSound(p, p.loans[p.loanIds[nft]].reserve, later);
  }

  /** A partial repay that completes leaves debt exactly when the sum is worth less than the scaled debt at the
      new index; otherwise the loan stays open with nothing owed, and every later repay is refused. */
  lemma PartialRepayLeavesDebtIff(p: Pool, nft: Nft, amount: nat, accrual: Accrual)
    requires Inv(p) && Get(p.loanIds, nft) != 0
    requires var loan := p.loans[p.loanIds[nft]];
             && loan.state == Active && UpdateState(p, loan.reserve, accrual).Done?
             && var i := NewIndex(p, loan.reserve, accrual);
             0 < amount < RayMul(loan.scaledAmount, i) && amount * RAY + i / 2 >= i
    ensures var id, r := p.loanIds[nft], Repay(p, nft, amount, accrual, true);
            && r.Done? && Inv(r.value) && Get(r.value.loanIds, nft) == id && HasLoan(r.value, id)
            && r.value.loans[id].state == Active
            && var i := NewIndex(p, p.loans[id].reserve, accrual);
            && (BorrowAmount(r.value, id) > 0 <==> amount * RAY + i / 2 < p.loans[id].scaledAmount * i)
            && (BorrowAmount(r.value, id) == 0 ==>
                  forall sum, later, admitted :: Repay(r.value, nft, sum, later, admitted).Reverted?)
  {
    hide Balanced, Repay, BorrowAmount;
    var id := p.loanIds[nft];
    var i := NewIndex(p, p.loans[id].reserve, accrual);
    SomethingOwed(p.loans[id].scaledAmount, i, amount);
    RepayIff(p, nft, amount, accrual, true);
    RepayKeepsInv(p, nft, amount, accrual, true);
    var p' := Repay(p, nft, amount, accrual, true).value;
    RepayEffect(p, nft, amount, accrual, true, p');
    QuotientLess(amount * RAY + i / 2, i, p.loans[id].scaledAmount);
    WhatIsLeft(p', id, nft);
  }

  lemma SomethingOwed(s: nat, i: nat, amount: nat)
    requires amount < RayMul(s, i)
    ensures s > 0
  {
    QuotientUnique(HALF_RAY, RAY, 0);
  }

  lemma WhatIsLeft(p: Pool, id: nat, nft: Nft)
    requires Inv(p) && HasLoan(p, id) && Get(p.loanIds, nft) == id
    ensures BorrowAmount(p, id) > 0 <==> p.loans[id].scaledAmount > 0
    ensures p.loans[id].scaledAmount == 0 ==>
            forall sum, later, admitted :: Repay(p, nft, sum, later, admitted).Reverted?
  {
    hide Balanced, Repay;
    WholeDebtBurnsScaled(p, id);
    if p.loans[id].scaledAmount == 0 {
      forall sum, later, admitted ensures Repay(p, nft, sum, later, admitted).Reverted? {
        NothingOwedNothingRepaid(p, nft, sum, later, admitted);
      }
    }
  }

  /** Borrowing again makes such a loan repayable: what is owed then closes it. */
  lemma BorrowingAgainRevives(p: Pool, user: Address, reserve: Address, amount: nat, nft: Nft, accrual: Accrual,
                              p1: Pool, sum: nat, later: Accrual)
    requires Inv(p) && Get(p.loanIds, nft) != 0 && p.loans[p.loanIds[nft]].scaledAmount == 0
    requires Borrow(p, user, reserve, amount, nft, accrual, true) == Done(p1) && Inv(p1)
    requires reserve in p1.index && UpdateState(p1, reserve, later).Done?
    requires sum >= RayMul(RayDiv(amount, p1.index[reserve]), NewIndex(p1, reserve, later))
    ensures Repay(p1, nft, sum, later, true).Done? && Get(Repay(p1, nft, sum, later, true).value.loanIds, nft) == 0
  {
    hide Balanced, Borrow, Repay, UpdateState;
    BorrowEffect(p, user, reserve, amount, nft, accrual, true, p1);
    FullRepayCloses(p1, nft, sum, later);
  }

  /** Borrowing against a free NFT and repaying everything leaves every figure of the books as it was, whatever
      interest accrues in between. */
  lemma BorrowThenRepayBalances(p: Pool, user: Address, reserve: Address, amount: nat, nft: Nft, accrual: Accrual,
                                p1: Pool, sum: nat, later: Accrual, p2: Pool)
    requires Inv(p) && Get(p.loanIds, nft) == 0
    requires Borrow(p, user, reserve, amount, nft, accrual, true) == Done(p1) && Readable(p1)
    requires Repay(p1, nft, sum, later, true) == Done(p2) && Get(p2.loanIds, nft) == 0
    ensures forall m: Measure :: Recorded(p2, m) == Recorded(p, m)
  {
    hide Balanced, Borrow, Repay;
    BorrowKeepsInv(p, user, reserve, amount, nft, accrual, true);
    BorrowEffect(p, user, reserve, amount, nft, accrual, true, p1);
    RepayKeepsInv(p1, nft, sum, later, true);
    RepayEffect(p1, nft, sum, later, true, p2);
    assert p1.loans[..|p.loans|] == p.loans;
    SameFigures(p, p2);
  }

  // Books that differ by one dead loan show the same figures.
  lemma SameFigures(p: Pool, p': Pool)
    requires Inv(p) && Inv(p') && |p'.loans| == |p.loans| + 1 && p'.escrow == p.escrow
    requires p'.loans[..|p.loans|] == p.loans && !p'.loans[|p.loans|].Live()
    ensures forall m: Measure :: Recorded(p', m) == Recorded(p, m)
  {
    forall m: Measure ensures Recorded(p', m) == Recorded(p, m) {
      assert Total(m, p'.loans) == Total(m, p.loans) + Share(m, p'.loans[|p.loans|]);
    }
  }

  // ---------------------------------------------------------------- bidding

  // The bidder leads the auction of loan id, which the bid opened if it was not open, and the pool holds
  // the new bid in place of the old one, unless that was its own.
  predicate Overtakes(p: Pool, p': Pool, id: nat, user: Address, bidPrice: nat, now: Timestamp)
    requires id < |p.loans|
  {
    var loan := p.loans[id];
    && loan.Live() && bidPrice > loan.bidPrice && p'.debts == p.debts && p'.loanIds == p.loanIds && id < |p'.loans|
    && p'.loans == p.loans[id := loan.(state := Auction, bidder := user, bidPrice := bidPrice,
                                       bidBorrowAmount := p'.loans[id].bidBorrowAmount,
                                       firstBidder := if loan.state == Active then user else loan.firstBidder,
                                       bidStartTimestamp := if loan.state == Active then now
                                         else loan.bidStartTimestamp)]
    && Get(p'.escrow, loan.reserve) == Get(p.escrow, loan.reserve) + bidPrice - loan.bidPrice + KeptBid(loan)
  }

  // What a bid does; it always covers the debt at the new index.
  predicate BidOn(p: Pool, p': Pool, nft: Nft, user: Address, bidPrice: nat, now: Timestamp) {
    var id := Get(p.loanIds, nft);
    && 0 < id < |p.loans| && Accrued(p, p', p.loans[id].reserve) && Overtakes(p, p', id, user, bidPrice, now)
    && bidPrice >= p'.loans[id].bidBorrowAmount == RayMul(p.loans[id].scaledAmount, p'.index[p.loans[id].reserve])
  }

  lemma AuctionOvertakes(p: Pool, p': Pool, id: nat, user: Address, bidPrice: nat, owed: nat, now: Timestamp)
    requires Sound(p) && 0 < id < |p.loans| && p.loans[id].Live() && HasLoan(p, id) && bidPrice > 0
    requires p.loans[id].bidPrice <= Get(p.escrow, p.loans[id].reserve)
    requires var r := AuctionLoan(p, id, user, bidPrice, owed, now);
             r.Done? && Outbid(r.value, p.loans[id], bidPrice) == Done(p')
    ensures Overtakes(p, p', id, user, bidPrice, now) && p'.loans[id].bidBorrowAmount == owed && p'.index == p.index
  {
    hide Outbid;
    BidReplaces(AuctionLoan(p, id, user, bidPrice, owed, now).value, p.loans[id], bidPrice);
  }

  /** A bid is accepted only above the standing one and the debt; the bidder then leads, the escrow holds
      exactly the new bid in place of the old, and the first bidder is whoever opened the auction. */
  lemma BidTakesTheLead(p: Pool, nft: Nft, user: Address, bidPrice: nat, accrual: Accrual, q: Quote, t: Timing,
                        admitted: bool, p': Pool)
    requires Inv(p) && Bid(p, nft, user, bidPrice, accrual, q, t, admitted) == Done(p')
    ensures BidOn(p, p', nft, user, bidPrice, t.now) && Updated(p, p', p.loans[Get(p.loanIds, nft)].reserve, accrual)
  {
    hide Balanced, Outbid, AuctionLoan;
    var id := Get(p.loanIds, nft);
    var reserve := p.loans[id].reserve;
    UpdateStateSound(p, reserve, accrual);
    var p1 := UpdateState(p, reserve, accrual).value;
    BidRecorded(p, id);
    DebtOfNothing(p1, id);
    AuctionOvertakes(p1, p', id, user, bidPrice, BorrowAmount(p1, id), t.now);
  }

  lemma BidRecorded(p: Pool, id: nat)
    requires Inv(p) && 0 < id < |p.loans| && p.loans[id].Live()
    ensures p.loans[id].bidPrice <= Get(p.escrow, p.loans[id].reserve)
  {
    SharesRecorded(p, id);
    assert Share(Bids(p.loans[id].reserve), p.loans[id]) == p.loans[id].bidPrice;
  }

  // The first bid asks for a debt beyond the liquidation threshold and for the liquidation price. A later one
  // must come before the auction ends, cover the debt, and exceed the standing bid, by one per cent of the debt
  // if that is anything.
  predicate MayBid(p: Pool, nft: Nft, user: Address, bidPrice: nat, accrual: Accrual, q: Quote, t: Timing)
    requires Readable(p)
  {
    && user != ZERO_ADDRESS && var id := Get(p.loanIds, nft);
    && id != 0 && var loan := p.loans[id];
    && loan.Live() && UpdateState(p, loan.reserve, accrual).Done?
    && var owed := RayMul(loan.scaledAmount, NewIndex(p, loan.reserve, accrual));
    if loan.state == Active then
      BeyondThreshold(q, owed) && ReachesPrice(q, owed, bidPrice)
    else
      && StillOpen(loan.bidStartTimestamp, t) && bidPrice >= owed && bidPrice > loan.bidPrice
      && owed * 100 < 10_000 * (bidPrice - loan.bidPrice) + 5_000
  }

  /** A bid is accepted exactly then: a loan within its threshold is safe, one beyond it can always be auctioned,
      and an auction takes every higher bid until it ends. */
  lemma BidIff(p: Pool, nft: Nft, user: Address, bidPrice: nat, accrual: Accrual, q: Quote, t: Timing, admitted: bool)
    requires Inv(p)
    ensures Bid(p, nft, user, bidPrice, accrual, q, t, admitted).Done? <==>
            admitted && MayBid(p, nft, user, bidPrice, accrual, q, t)
  {
    hide Balanced, Outbid, PercentMul;
    hide ThresholdPrice, LiquidatePrice, EndTime, BeyondThreshold, ReachesPrice, StillOpen;
    var id := Get(p.loanIds, nft);
    if id != 0 && user != ZERO_ADDRESS && UpdateState(p, p.loans[id].reserve, accrual).Done? {
      var loan := p.loans[id];
      UpdateStateSound(p, loan.reserve, accrual);
      AccruedInv(p, loan.reserve, accrual);
      var p1 := UpdateState(p, loan.reserve, accrual).value;
      DebtOfNothing(p1, id);
      WholeDebtBurnsScaled(p1, id);
      var owed := BorrowAmount(p1, id);
      BidRules(loan, q, t, owed, bidPrice);
      if owed > 0 {
        PlacedBid(p1, id, user, bidPrice, t.now);
      }
    }
  }

  // The rules of a bid, for the prices and times they are computed from.
  lemma BidRules(loan: Loan, q: Quote, t: Timing, owed: nat, bidPrice: nat)
    ensures owed > ThresholdPrice(q) <==> BeyondThreshold(q, owed)
    ensures LiquidatePrice(q, owed) <= bidPrice <==> ReachesPrice(q, owed, bidPrice)
    ensures LiquidatePrice(q, owed) >= owed && (BeyondThreshold(q, owed) ==> owed > 0)
    ensures t.now <= EndTime(loan, t) <==> StillOpen(loan.bidStartTimestamp, t)
    ensures bidPrice >= loan.bidPrice + PercentMul(owed, ONE_PERCENT) <==>
            owed * 100 < 10_000 * (bidPrice - loan.bidPrice) + 5_000
  {
    ThresholdIff(q, owed);
    LiquidatePriceIff(q, owed, bidPrice);
    WindowIff(loan, t);
    PercentAtMost(owed, 100, bidPrice - loan.bidPrice);
  }

  // The last check of ValidationLogic.validateBorrow: the collateral covers the debt at the loan-to-value ratio.
  predicate CollateralCovers(p: Pool, i: nat, nft: Nft, amount: nat, price: nat, ltv: nat) {
    var id := Get(p.loanIds, nft);
    && ltv > 0 && id < |p.loans|
    && PercentDiv((if id == 0 then 0 else RayMul(p.loans[id].scaledAmount, i)) + amount, ltv) <= price
  }

  /** A loan just borrowed within its loan-to-value ratio cannot be auctioned in the same block, if the liquidation
      threshold exceeds that ratio by the roundings, or at all while the borrow index is one ray. */
  lemma BorrowedLoanIsSafe(p: Pool, user: Address, reserve: Address, amount: nat, nft: Nft, accrual: Accrual,
                           admitted: bool,
                           p': Pool, q: Quote, ltv: nat, bidder: Address, bidPrice: nat, later: Accrual, t: Timing)
    requires Inv(p) && Borrow(p, user, reserve, amount, nft, accrual, admitted) == Done(p') && Inv(p')
    requires reserve in p'.index && CollateralCovers(p, p'.index[reserve], nft, amount, q.nftPriceInReserve, ltv)
    requires var i := p'.index[reserve];
             || 2 * RAY * (q.nftPriceInReserve * (q.liquidationThreshold - ltv)) >= 10_000 * (RAY + i) + RAY * ltv
             || (i == RAY && ltv <= q.liquidationThreshold && ltv <= PERCENTAGE_FACTOR)
    requires later.elapsed == 0
    ensures !MayBid(p', nft, bidder, bidPrice, later, q, t)
  {
    hide Balanced, Borrow, ThresholdPrice, BeyondThreshold, UpdateState, RayMul, RayDiv, PercentDiv;
    BorrowEffect(p, user, reserve, amount, nft, accrual, admitted, p');
    var id, i := Get(p.loanIds, nft), p'.index[reserve];
    var before, place := if id == 0 then 0 else p.loans[id].scaledAmount, Get(p'.loanIds, nft);
    assert p'.loans[place].state == Active && p'.loans[place].reserve == reserve;
    assert p'.loans[place].scaledAmount == before + RayDiv(amount, i);
    SameBlock(p', reserve, later);
    RayMulNothing(i);
    StaysBelow(before, amount, i, q, ltv);
    ThresholdIff(q, RayMul(p'.loans[place].scaledAmount, i));
  }

  lemma SameBlock(p: Pool, reserve: Address, accrual: Accrual)
    requires Readable(p) && reserve in p.index && accrual.elapsed == 0
    ensures UpdateState(p, reserve, accrual).Done? ==> NewIndex(p, reserve, accrual) == p.index[reserve]
  {
    HalfUp.MulByUnit(RAY, p.index[reserve]);
  }

  lemma RayMulNothing(i: nat)
    ensures RayMul(0, i) == 0
  {
    QuotientUnique(HALF_RAY, RAY, 0);
  }

  // The debt after borrowing more on a scaled amount s stays within the liquidation threshold.
  lemma StaysBelow(s: nat, amount: nat, i: nat, q: Quote, ltv: nat)
    requires i >= RAY && ltv > 0 && PercentDiv(RayMul(s, i) + amount, ltv) <= q.nftPriceInReserve
    requires || 2 * RAY * (q.nftPriceInReserve * (q.liquidationThreshold - ltv)) >= 10_000 * (RAY + i) + RAY * ltv
             || (i == RAY && ltv <= q.liquidationThreshold && ltv <= PERCENTAGE_FACTOR)
    ensures RayMul(s + RayDiv(amount, i), i) <= ThresholdPrice(q)
  {
    if i == RAY && ltv <= q.liquidationThreshold && ltv <= PERCENTAGE_FACTOR {
      ExactAtOneRay(s, amount);
      CoveredExactly(s + amount, q.nftPriceInReserve, ltv, q.liquidationThreshold);
    } else {
      StaysBelowByMargin(s, amount, i, q.nftPriceInReserve, ltv, q.liquidationThreshold);
    }
  }

  lemma ExactAtOneRay(s: nat, amount: nat)
    ensures RayMul(s, RAY) == s && RayDiv(amount, RAY) == amount && RayMul(s + amount, RAY) == s + amount
  {
    HalfUp.MulByUnit(RAY, s);
    QuotientUnique(amount * RAY + RAY / 2, RAY, amount);
    HalfUp.MulByUnit(RAY, s + amount);
  }

  lemma CoveredExactly(debt: nat, c: nat, ltv: nat, lt: nat)
    requires 0 < ltv <= lt && ltv <= PERCENTAGE_FACTOR && PercentDiv(debt, ltv) <= c
    ensures debt <= PercentMul(c, lt)
  {
    HalfUp.MulUndoesDiv(PERCENTAGE_FACTOR, debt, ltv);
    HalfUp.MulMonotone(PERCENTAGE_FACTOR, PercentDiv(debt, ltv), c, ltv);
    MoreThreshold(c, ltv, lt);
  }

  lemma StaysBelowByMargin(s: nat, amount: nat, i: nat, c: nat, ltv: nat, lt: nat)
    requires i > 0 && ltv > 0 && PercentDiv(RayMul(s, i) + amount, ltv) <= c
    requires 2 * RAY * (c * (lt - ltv)) >= 10_000 * (RAY + i) + RAY * ltv
    ensures RayMul(s + RayDiv(amount, i), i) <= PercentMul(c, lt)
  {
    hide HalfUp.Mul, HalfUp.Div;
    var x, d := RayMul(s, i) + amount, RayDiv(amount, i);
    HalfUp.MulError(RAY, s, i);
    HalfUp.DivError(RAY, amount, i);
    HalfUp.MulError(RAY, s + d, i);
    SumTimes(s, d, i);
    HalfUp.DivError(PERCENTAGE_FACTOR, x, ltv);
    MulOrder(PercentDiv(x, ltv), c, ltv);
    HalfUp.MulError(PERCENTAGE_FACTOR, c, lt);
    assert c * (lt - ltv) == c * lt - c * ltv;
    Margin(RayMul(s + d, i), x, RayMul(s, i), amount, s * i, d * i, i, ltv, c * ltv, c * lt, PercentMul(c, lt));
  }

  lemma MoreThreshold(c: nat, ltv: nat, lt: nat)
    requires ltv <= lt
    ensures PercentMul(c, ltv) <= PercentMul(c, lt)
  {
    MulOrder(ltv, lt, c);
    assert ltv * c == c * ltv && lt * c == c * lt;
    QuotientOrder(c * ltv + PERCENTAGE_FACTOR / 2, c * lt + PERCENTAGE_FACTOR / 2, PERCENTAGE_FACTOR);
  }

  // The roundings add up to less than the margin.
  lemma Margin(debt: int, x: int, owed: int, amount: int, si: int, di: int, i: int, ltv: int, low: int, high: int,
               threshold: int)
    requires x == owed + amount
    requires 2 * (debt * RAY - (si + di)) <= RAY && 2 * (di - amount * RAY) <= i && 0 < 2 * (owed * RAY - si) + RAY
    requires 20_000 * x <= 2 * low + ltv && 20_000 * threshold > 2 * high - 10_000
    requires 2 * RAY * (high - low) >= 10_000 * (RAY + i) + RAY * ltv
    ensures debt <= threshold
  {
  }

  // ---------------------------------------------------------------- redeeming

  // The loan is active again without a bid and smaller by what was taken; the bid has left the pool, but for
  // what the pool owes itself.
  predicate Reopened(p: Pool, p': Pool, id: nat, taken: nat, fine: nat)
    requires id < |p.loans| && taken <= p.loans[id].scaledAmount
  {
    var loan := p.loans[id];
    && p'.loanIds == p.loanIds
    && p'.loans == p.loans[id := loan.(scaledAmount := loan.scaledAmount - taken, state := Active,
                                       bidStartTimestamp := 0,
                                       bidBorrowAmount := 0, bidder := ZERO_ADDRESS, bidPrice := 0,
                                         firstBidder := ZERO_ADDRESS)]
    && Get(p'.debts, (loan.borrower, loan.reserve)) == Get(p.debts, (loan.borrower, loan.reserve)) - taken
    && Get(p'.escrow, loan.reserve) == Get(p.escrow, loan.reserve) - loan.bidPrice + KeptByRedeem(loan, fine)
  }

  predicate Redeemed(p: Pool, p': Pool, nft: Nft, amount: nat, terms: Terms) {
    var id := Get(p.loanIds, nft);
    && 0 < id < |p.loans| && p.loans[id].state == Auction && Accrued(p, p', p.loans[id].reserve)
    && var loan, i := p.loans[id], p'.index[p.loans[id].reserve];
    var taken, fine := RayDiv(amount, i), BidFine(loan, RayMul(loan.scaledAmount, i), terms);
    0 < taken <= loan.scaledAmount && Reopened(p, p', id, taken, fine)
  }

  /** What a redeem does: the loan leaves its auction, smaller by what the sum converts to, and the bid goes back. */
  lemma RedeemEffect(p: Pool, nft: Nft, amount: nat, maxFine: nat, terms: Terms, accrual: Accrual, t: Timing,
                     admitted: bool, p': Pool)
    requires Inv(p) && Redeem(p, nft, amount, maxFine, terms, accrual, t, admitted) == Done(p')
    ensures Redeemed(p, p', nft, amount, terms) && Updated(p, p', p.loans[Get(p.loanIds, nft)].reserve, accrual)
  {
    hide Balanced, BurnDebt, Refund, BidFine;
    var id := Get(p.loanIds, nft);
    var loan := p.loans[id];
    UpdateStateSound(p, loan.reserve, accrual);
    var p1 := UpdateState(p, loan.reserve, accrual).value;
    DebtOfNothing(p1, id);
    BidRecorded(p, id);
    ReopenEffect(p1, id, amount, BidFine(loan, BorrowAmount(p1, id), terms));
  }

  /** Despite the cap of nine tenths a redeem, too, leaves debt exactly when the sum is worth less than the
      scaled debt at the index it was made at. */
  lemma RedeemLeavesDebtIff(p: Pool, nft: Nft, amount: nat, maxFine: nat, terms: Terms, accrual: Accrual, t: Timing,
                            admitted: bool, p': Pool)
    requires Inv(p) && Redeem(p, nft, amount, maxFine, terms, accrual, t, admitted) == Done(p')
    ensures var id := Get(p.loanIds, nft);
            && 0 < id < |p.loans| && id < |p'.loans| && p.loans[id].reserve in p'.index
            && var i := p'.index[p.loans[id].reserve];
            p'.loans[id].scaledAmount > 0 <==> amount * RAY + i / 2 < p.loans[id].scaledAmount * i
  {
    hide Balanced, Redeem, BidFine;
    RedeemEffect(p, nft, amount, maxFine, terms, accrual, t, admitted, p');
    var loan := p.loans[Get(p.loanIds, nft)];
    var i := p'.index[loan.reserve];
    QuotientLess(amount * RAY + i / 2, i, loan.scaledAmount);
  }

  lemma ReopenEffect(p: Pool, id: nat, amount: nat, fine: nat)
    requires HasLoan(p, id) && p.loans[id].bidPrice <= Get(p.escrow, p.loans[id].reserve)
    ensures var loan, r := p.loans[id], RedeemLoan(p, id, amount);
            r.Done? ==> var r2 := BurnDebt(r.value, loan.borrower, loan.reserve, amount);
                        r2.Done? ==> var r3 := Refund(r2.value, loan, fine);
                                     var taken := RayDiv(amount, p.index[loan.reserve]);
                                     && r3.Done? && r3.value.index == p.index
                                     && 0 < taken <= loan.scaledAmount && Reopened(p, r3.value, id, taken, fine)
  {
    hide Refund;
    var loan, r := p.loans[id], RedeemLoan(p, id, amount);
    if r.Done? && BurnDebt(r.value, loan.borrower, loan.reserve, amount).Done? {
      BidRefunded(BurnDebt(r.value, loan.borrower, loan.reserve, amount).value, loan, fine);
    }
  }

  // The loan is in its redeem window, the fine is offered, and the sum converts to something and lies between
  // the redeem threshold and nine tenths of the debt.
  predicate MayRedeem(p: Pool, nft: Nft, amount: nat, maxFine: nat, terms: Terms, accrual: Accrual, t: Timing)
    requires Readable(p)
  {
    && var id := Get(p.loanIds, nft);
    && id != 0 && var loan := p.loans[id];
    && loan.state == Auction && StillOpen(loan.bidStartTimestamp, t) && UpdateState(p, loan.reserve, accrual).Done?
    && var i := NewIndex(p, loan.reserve, accrual);
    var owed := RayMul(loan.scaledAmount, i);
    && CoversFine(loan.bidPrice, owed, terms, maxFine) && amount * RAY + i / 2 >= i
    && owed * terms.redeemThreshold < 10_000 * amount + 5_000 && 10_000 * amount <= owed * 9_000 + 5_000
  }

  /** A redeem completes exactly then. */
  lemma RedeemIff(p: Pool, nft: Nft, amount: nat, maxFine: nat, terms: Terms, accrual: Accrual, t: Timing,
                  admitted: bool)
    requires Inv(p)
    ensures Redeem(p, nft, amount, maxFine, terms, accrual, t, admitted).Done? <==>
            admitted && MayRedeem(p, nft, amount, maxFine, terms, accrual, t)
  {
    hide Balanced, BurnDebt, Refund, BidFine, EndTime, StillOpen, CoversFine, PercentMul;
    var id := Get(p.loanIds, nft);
    if id != 0 && p.loans[id].state == Auction && UpdateState(p, p.loans[id].reserve, accrual).Done? {
      var loan := p.loans[id];
      UpdateStateSound(p, loan.reserve, accrual);
      AccruedInv(p, loan.reserve, accrual);
      var p1 := UpdateState(p, loan.reserve, accrual).value;
      var owed := BorrowAmount(p1, id);
      DebtOfNothing(p1, id);
      ConvertsIff(amount, p1.index[loan.reserve]);
      RedeemRules(loan, t, owed, terms, amount, maxFine);
      if 0 < amount <= PercentMul(owed, 9_000) {
        MaxRepayBelowDebt(owed);
        RedeemedLoan(p1, id, amount, BidFine(loan, owed, terms));
      }
    }
  }

  // The rules of a redeem, for the sums and times they are computed from.
  lemma RedeemRules(loan: Loan, t: Timing, owed: nat, terms: Terms, amount: nat, maxFine: nat)
    ensures BidFine(loan, owed, terms) <= maxFine <==> CoversFine(loan.bidPrice, owed, terms, maxFine)
    ensures t.now <= EndTime(loan, t) <==> StillOpen(loan.bidStartTimestamp, t)
    ensures PercentMul(owed, terms.redeemThreshold) <= amount <==>
            owed * terms.redeemThreshold < 10_000 * amount + 5_000
    ensures amount <= PercentMul(owed, 9_000) <==> 10_000 * amount <= owed * 9_000 + 5_000
  {
    BidFineIff(loan, owed, terms, maxFine);
    WindowIff(loan, t);
    PercentAtMost(owed, terms.redeemThreshold, amount);
    PercentAtLeast(owed, 9_000, amount);
  }

  // ---------------------------------------------------------------- liquidating

  // The loan is in default, its NFT free and its debt burnt; the bid has left the pool, but for what the pool
  // owes itself.
  predicate Settled(p: Pool, p': Pool, nft: Nft) {
    var id := Get(p.loanIds, nft);
    && 0 < id < |p.loans| && p.loans[id].state == Auction && Accrued(p, p', p.loans[id].reserve)
    && var loan := p.loans[id];
    var owed := RayMul(loan.scaledAmount, p'.index[loan.reserve]);
    && p'.loans == p.loans[id := loan.(state := Defaulted, bidBorrowAmount := owed)]
    && p'.loanIds == p.loanIds[nft := 0]
    && Get(p'.debts, (loan.borrower, loan.reserve)) == Get(p.debts, (loan.borrower, loan.reserve)) - loan.scaledAmount
    && Get(p'.escrow, loan.reserve) == Get(p.escrow, loan.reserve) - loan.bidPrice + KeptBySettling(loan, owed)
  }

  /** What a liquidation does: the loan ends in default, its debt is burnt and the bid is spent. */
  lemma LiquidateEffect(p: Pool, nft: Nft, amount: nat, accrual: Accrual, t: Timing, admitted: bool, p': Pool)
    requires Inv(p) && Liquidate(p, nft, amount, accrual, t, admitted) == Done(p')
    ensures Settled(p, p', nft) && Updated(p, p', p.loans[Get(p.loanIds, nft)].reserve, accrual)
  {
    hide Balanced, LiquidateLoan;
    var id := Get(p.loanIds, nft);
    UpdateStateSound(p, p.loans[id].reserve, accrual);
    var p1 := UpdateState(p, p.loans[id].reserve, accrual).value;
    WholeDebtBurnsScaled(p1, id);
    DebtOfNothing(p1, id);
    BidRecorded(p, id);
    SettleEffect(p1, id);
  }

  lemma SettleEffect(p: Pool, id: nat)
    requires HasLoan(p, id) && p.loans[id].bidPrice <= Get(p.escrow, p.loans[id].reserve)
    requires RayDiv(BorrowAmount(p, id), p.index[p.loans[id].reserve]) == p.loans[id].scaledAmount
    ensures var loan, owed, r := p.loans[id], BorrowAmount(p, id), LiquidateLoan(p, id);
            r.Done? ==>
              && r.value.index == p.index && r.value.loanIds == p.loanIds[loan.nft := 0]
              && r.value.loans == p.loans[id := loan.(state := Defaulted, bidBorrowAmount := owed)]
              && var debtor := (loan.borrower, loan.reserve);
              && Get(r.value.debts, debtor) == Get(p.debts, debtor) - loan.scaledAmount
              && Get(r.value.escrow, loan.reserve) ==
                   Get(p.escrow, loan.reserve) - loan.bidPrice + KeptBySettling(loan, owed)
  {
    hide Settle, BorrowAmount;
    var loan, owed := p.loans[id], BorrowAmount(p, id);
    var r := CloseLoan(p, id, loan.(state := Defaulted, bidBorrowAmount := owed));
    if r.Done? && BurnDebt(r.value, loan.borrower, loan.reserve, owed).Done? {
      SettleTakesTheBid(BurnDebt(r.value, loan.borrower, loan.reserve, owed).value, loan, owed);
    }
  }

  // The auction is over and the sum covers the shortfall of the bid.
  predicate MayLiquidate(p: Pool, nft: Nft, amount: nat, accrual: Accrual, t: Timing)
    requires Readable(p)
  {
    && var id := Get(p.loanIds, nft);
    && id != 0 && var loan := p.loans[id];
    && loan.state == Auction && !StillOpen(loan.bidStartTimestamp, t) && UpdateState(p, loan.reserve, accrual).Done?
    && amount + loan.bidPrice >= RayMul(loan.scaledAmount, NewIndex(p, loan.reserve, accrual))
  }

  /** A liquidation completes exactly then. */
  lemma LiquidateIff(p: Pool, nft: Nft, amount: nat, accrual: Accrual, t: Timing, admitted: bool)
    requires Inv(p)
    ensures Liquidate(p, nft, amount, accrual, t, admitted).Done? <==>
            admitted && MayLiquidate(p, nft, amount, accrual, t)
  {
    hide Balanced, LiquidateLoan;
    var id := Get(p.loanIds, nft);
    if id != 0 && p.loans[id].state == Auction && UpdateState(p, p.loans[id].reserve, accrual).Done? {
      var loan := p.loans[id];
      UpdateStateSound(p, loan.reserve, accrual);
      AccruedInv(p, loan.reserve, accrual);
      var p1 := UpdateState(p, loan.reserve, accrual).value;
      DebtOfNothing(p1, id);
      WindowIff(loan, t);
      LiquidatedLoan(p1, id);
    }
  }
}
