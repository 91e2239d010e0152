/** What every transaction of the lending pool keeps, and what that means over whole runs. */
module LoanBooks {
  import opened Arithmetic
  import opened Common
  import opened Constants
  import opened Loans
  import HalfUp

  ghost predicate Inv(p: Pool) {
    Sound(p) && Balanced(p)
  }

  lemma {:induction false} TotalReplaced(m: Measure, loans: seq<Loan>, k: nat, l: Loan)
    requires k < |loans|
    ensures Total(m, loans[k := l]) + Share(m, loans[k]) == Total(m, loans) + Share(m, l)
    ensures Share(m, loans[k]) <= Total(m, loans)
  {
    var n := |loans| - 1;
    if k < n {
      TotalReplaced(m, loans[..n], k, l);
      assert loans[k := l][..n] == loans[..n][k := l];
    } else {
      assert loans[k := l][..n] == loans[..n];
    }
  }

  // The pool keeps a gain of a reserve's token beyond what the standing bids ask for.
  ghost predicate Gains(p: Pool, p': Pool, reserve: Address, gain: nat) {
    forall a :: Surplus(p', a) == Surplus(p, a) + if a == reserve then gain else 0
  }

  // One loan changes, and every recorded figure changes by as much as the loan's share, but for the gain.
  ghost predicate Moves(p: Pool, p': Pool, id: nat, l: Loan, gain: nat) {
    && id < |p.loans| && p'.loans == p.loans[id := l]
    && forall m: Measure :: Recorded(p', m) + Share(m, p.loans[id]) ==
                            Recorded(p, m) + Share(m, l) + if m == Bids(l.reserve) then gain else 0
  }

  lemma MovesKeepsBalance(p: Pool, p': Pool, id: nat, l: Loan, gain: nat)
    requires Balanced(p) && Moves(p, p', id, l, gain)
    ensures Balanced(p') && Gains(p, p', l.reserve, gain)
  {
    forall m: Measure
      ensures Recorded(p', m) - Total(m, p'.loans) ==
              Recorded(p, m) - Total(m, p.loans) + if m == Bids(l.reserve) then gain else 0
    {
      TotalReplaced(m, p.loans, id, l);
    }
    forall a ensures Surplus(p', a) == Surplus(p, a) + if a == l.reserve then gain else 0 {
      assert Surplus(p', a) == Recorded(p', Bids(a)) - Total(Bids(a), p'.loans);
    }
  }

  // A live loan is replaced by one for the same NFT and reserve; the directory lets go of it if it dies.
  lemma ReplacedSound(p: Pool, p': Pool, id: nat, l: Loan)
    requires Sound(p) && 0 < id < |p.loans| && p.loans[id].Live()
    requires l.nft == p.loans[id].nft && l.reserve == p.loans[id].reserve && FitsState(l)
    requires p'.loans == p.loans[id := l] && p'.index == p.index
    requires p'.loanIds == if l.Live() then p.loanIds else p.loanIds[l.nft := 0]
    ensures Sound(p')
  {
  }

  // A live loan's figures are in the books.
  lemma SharesRecorded(p: Pool, id: nat)
    requires Inv(p) && 0 < id < |p.loans|
    ensures forall m: Measure :: Share(m, p.loans[id]) <= Recorded(p, m)
  {
    forall m: Measure ensures Share(m, p.loans[id]) <= Recorded(p, m) {
      TotalReplaced(m, p.loans, id, p.loans[id]);
      if m.Bids? {
        assert Surplus(p, m.reserve) >= 0;
      }
    }
  }

  lemma AccruedInv(p: Pool, reserve: Address, accrual: Accrual)
    requires Inv(p) && reserve in p.index
    ensures var r := UpdateState(p, reserve, accrual);
            r.Done? ==> Inv(r.value) && r.value.(index := p.index) == p
  {
    UpdateStateSound(p, reserve, accrual);
    var r := UpdateState(p, reserve, accrual);
    if r.Done? {
      SameBooks(p, r.value);
    }
  }

  lemma SameBooks(p: Pool, p': Pool)
    requires Balanced(p) && p'.(index := p.index) == p
    ensures Balanced(p')
  {
    assert forall m: Measure :: Recorded(p', m) == Recorded(p, m);
    assert forall a :: Surplus(p', a) == Surplus(p, a);
  }

  // Accruing interest first makes no difference to what is gained.
  lemma GainsAfterAccrual(p: Pool, p1: Pool, q: Pool, reserve: Address, gain: nat)
    requires p1.(index := p.index) == p && Gains(p1, q, reserve, gain)
    ensures Gains(p, q, reserve, gain)
  {
    assert forall a :: Surplus(p1, a) == Surplus(p, a);
  }

  // At an index of a ray or more a live loan's whole debt burns exactly its scaled amount.
  lemma WholeDebtBurnsScaled(p: Pool, id: nat)
    requires Sound(p) && 0 < id < |p.loans|
    ensures HasLoan(p, id)
    ensures RayDiv(BorrowAmount(p, id), p.index[p.loans[id].reserve]) == p.loans[id].scaledAmount
    ensures BorrowAmount(p, id) > 0 <==> p.loans[id].scaledAmount > 0
  {
    DebtRoundTrip(p.loans[id].scaledAmount, p.index[p.loans[id].reserve]);
  }

  lemma DebtRoundTrip(s: nat, i: nat)
    requires i >= RAY
    ensures RayDiv(RayMul(s, i), i) == s
    ensures RayDiv(0, i) == 0
    ensures RayMul(s, i) > 0 <==> s > 0
  {
    HalfUp.DivUndoesMul(RAY, s, i);
    HalfUp.DivUndoesMul(RAY, 0, i);
    QuotientUnique(HALF_RAY, RAY, 0);
  }

  // A part of the debt burns no more than the scaled amount.
  lemma PartBurnsAtMostScaled(p: Pool, id: nat, amount: nat)
    requires Sound(p) && 0 < id < |p.loans|
    requires HasLoan(p, id) && amount <= BorrowAmount(p, id)
    ensures RayDiv(amount, p.index[p.loans[id].reserve]) <= p.loans[id].scaledAmount
  {
    WholeDebtBurnsScaled(p, id);
    HalfUp.DivMonotone(RAY, amount, BorrowAmount(p, id), p.index[p.loans[id].reserve]);
  }

  // ---------------------------------------------------------------- each transaction keeps the invariant

  lemma OpenedLoan(p: Pool, user: Address, nft: Nft, reserve: Address, amount: nat)
    requires Inv(p) && reserve in p.index && Get(p.loanIds, nft) == 0
    ensures var r := MintDebt(CreateLoan(p, user, nft, reserve, amount), user, reserve, amount);
            r.Done? ==> Inv(r.value) && Gains(p, r.value, reserve, 0)
  {
    var created := CreateLoan(p, user, nft, reserve, amount);
    var r := MintDebt(created, user, reserve, amount);
    if r.Done? {
      var l := created.loans[|p.loans|];
      OpenedFigures(p, r.value, l);
      AppendedBalanced(p, r.value, l);
      AppendedSound(p, r.value, l);
    }
  }

  lemma OpenedFigures(p: Pool, p': Pool, l: Loan)
    requires l.state == Active
    requires var user, debtor := (l.borrower, l.nft.asset), (l.borrower, l.reserve);
             && p'.userCollateral == p.userCollateral[user := Get(p.userCollateral, user) + 1]
             && p'.totalCollateral == p.totalCollateral[l.nft.asset := Get(p.totalCollateral, l.nft.asset) + 1]
             && p'.debts == p.debts[debtor := Get(p.debts, debtor) + l.scaledAmount]
             && p'.supply == p.supply[l.reserve := Get(p.supply, l.reserve) + l.scaledAmount]
             && p'.escrow == p.escrow
    ensures forall m: Measure :: Recorded(p', m) == Recorded(p, m) + Share(m, l)
  {
    forall m: Measure ensures Recorded(p', m) == Recorded(p, m) + Share(m, l) {
      match m
      case UserDebt(_, _) =>
      case TotalDebt(_) =>
      case UserNfts(_, _) =>
      case TotalNfts(_) =>
      case Bids(_) =>
    }
  }

  lemma AppendedBalanced(p: Pool, p': Pool, l: Loan)
    requires Balanced(p) && p'.loans == p.loans + [l]
    requires forall m: Measure :: Recorded(p', m) == Recorded(p, m) + Share(m, l)
    ensures Balanced(p') && Gains(p, p', l.reserve, 0)
  {
    assert p'.loans[..|p.loans|] == p.loans;
    forall a ensures Surplus(p', a) == Surplus(p, a) {
      assert Recorded(p', Bids(a)) == Recorded(p, Bids(a)) + Share(Bids(a), l);
    }
  }

  lemma AppendedSound(p: Pool, p': Pool, l: Loan)
    requires Sound(p) && Get(p.loanIds, l.nft) == 0
    requires l.state == Active && FitsState(l) && l.reserve in p.index
    requires p'.loans == p.loans + [l] && p'.index == p.index && p'.loanIds == p.loanIds[l.nft := |p.loans|]
    ensures Sound(p')
  {
  }

  // A live loan's scaled amount goes up or down by as much as its borrower's balance.
  lemma ResizedLoan(p: Pool, p': Pool, id: nat, l: Loan)
    requires Inv(p) && 0 < id < |p.loans| && p.loans[id].state == Active
    requires l == p.loans[id].(scaledAmount := l.scaledAmount)
    requires var user, reserve, change := (l.borrower, l.reserve), l.reserve, l.scaledAmount - p.loans[id].scaledAmount;
             && Get(p.debts, user) + change >= 0 && Get(p.supply, reserve) + change >= 0
             && p' == p.(loans := p.loans[id := l],
                         debts := p.debts[user := Get(p.debts, user) + change],
                         supply := p.supply[reserve := Get(p.supply, reserve) + change])
    ensures Inv(p') && Gains(p, p', l.reserve, 0)
  {
    assert Moves(p, p', id, l, 0);
    MovesKeepsBalance(p, p', id, l, 0);
    ReplacedSound(p, p', id, l);
  }

  lemma IncreasedLoan(p: Pool, id: nat, amount: nat)
    requires Inv(p) && HasLoan(p, id) && amount > 0
    ensures var loan, r := p.loans[id], UpdateLoan(p, id, amount, 0);
            && (r.Reverted? ==> r.error !in BOOKKEEPING_ERRORS)
            && (r.Done? ==> var r2 := MintDebt(r.value, loan.borrower, loan.reserve, amount);
                            r2.Done? ==> Inv(r2.value) && Gains(p, r2.value, loan.reserve, 0))
  {
    var loan, r := p.loans[id], UpdateLoan(p, id, amount, 0);
    if r.Done? {
      var r2 := MintDebt(r.value, loan.borrower, loan.reserve, amount);
      if r2.Done? {
        ResizedLoan(p, r2.value, id, r.value.loans[id]);
      }
    }
  }

  lemma BorrowKeepsInv(p: Pool, user: Address, reserve: Address, amount: nat, nft: Nft, accrual: Accrual,
                       admitted: bool)
    requires Inv(p)
    ensures var r := Borrow(p, user, reserve, amount, nft, accrual, admitted);
            if r.Done? then Inv(r.value) && Gains(p, r.value, reserve, 0) else r.error !in BOOKKEEPING_ERRORS
  {
    hide Balanced, Gains, BorrowLoan;
    if reserve in p.index {
      AccruedInv(p, reserve, accrual);
      UpdateStateSound(p, reserve, accrual);
      var r, id := UpdateState(p, reserve, accrual), Get(p.loanIds, nft);
      if r.Done? && amount > 0 && (id == 0 || (p.loans[id].reserve == reserve && p.loans[id].borrower == user)) {
        BorrowedLoan(r.value, user, reserve, amount, nft);
        var r2 := BorrowLoan(r.value, id, user, reserve, amount, nft);
        if r2.Done? {
          GainsAfterAccrual(p, r.value, r2.value, reserve, 0);
        }
      }
    }
  }

  lemma BorrowedLoan(p: Pool, user: Address, reserve: Address, amount: nat, nft: Nft)
    requires Inv(p) && reserve in p.index && amount > 0
    requires var id := Get(p.loanIds, nft); id != 0 ==> p.loans[id].reserve == reserve && p.loans[id].borrower == user
    ensures var r := BorrowLoan(p, Get(p.loanIds, nft), user, reserve, amount, nft);
            if r.Done? then Inv(r.value) && Gains(p, r.value, reserve, 0) else r.error !in BOOKKEEPING_ERRORS
  {
    var id := Get(p.loanIds, nft);
    if id == 0 {
      OpenedLoan(p, user, nft, reserve, amount);
    } else {
      IncreasedLoan(p, id, amount);
    }
  }

  // Checks that only a mistake in the books could fail.
  const BOOKKEEPING_ERRORS := {LP_INVALIED_USER_NFT_AMOUNT, LP_INVALIED_NFT_AMOUNT, LPL_AMOUNT_OVERFLOW,
                               LPL_INVALID_BIDDER_ADDRESS,
                               CT_INVALID_BURN_AMOUNT, ERC20_BURN_EXCEEDS_BALANCE, ERC20_TRANSFER_EXCEEDS_BALANCE}

  lemma RepaidInPart(p: Pool, id: nat, amount: nat)
    requires Inv(p) && 0 < id < |p.loans| && p.loans[id].state == Active
    requires HasLoan(p, id) && 0 < amount <= BorrowAmount(p, id)
    ensures var loan, r := p.loans[id], UpdateLoan(p, id, 0, amount);
            if RayDiv(amount, p.index[loan.reserve]) == 0 then
              r == Reverted(LPL_INVALID_TAKEN_AMOUNT)
            else
              && r.Done?
              && var r2 := BurnDebt(r.value, loan.borrower, loan.reserve, amount);
              r2.Done? && Inv(r2.value) && Gains(p, r2.value, loan.reserve, 0)
  {
    var loan, r := p.loans[id], UpdateLoan(p, id, 0, amount);
    var taken := RayDiv(amount, p.index[loan.reserve]);
    PartBurnsAtMostScaled(p, id, amount);
    SharesRecorded(p, id);
    assert Share(UserDebt(loan.borrower, loan.reserve), loan) == Share(TotalDebt(loan.reserve), loan) ==
      loan.scaledAmount;
    if taken != 0 {
      ResizedLoan(p, BurnDebt(r.value, loan.borrower, loan.reserve, amount).value, id, r.value.loans[id]);
    }
  }

  // A live loan closes: its NFT is let go, its scaled amount is burnt, and its bid must leave the escrow.
  lemma ClosedLoan(p: Pool, id: nat, l: Loan)
    requires Inv(p) && 0 < id < |p.loans| && p.loans[id].Live() && p.loans[id].scaledAmount > 0
    requires HasLoan(p, id) && l == p.loans[id].(state := l.state, bidBorrowAmount := l.bidBorrowAmount)
    requires l.state == Repaid || l.state == Defaulted
    ensures var loan, r := p.loans[id], CloseLoan(p, id, l);
            && r.Done?
            && var r2 := BurnDebt(r.value, loan.borrower, loan.reserve, BorrowAmount(p, id));
            && r2.Done?
            && ClosesBut(p, r2.value, id, l)
  {
    var loan, r := p.loans[id], CloseLoan(p, id, l);
    WholeDebtBurnsScaled(p, id);
    SharesRecorded(p, id);
    assert Share(UserNfts(loan.borrower, loan.nft.asset), loan) == Share(TotalNfts(loan.nft.asset), loan) == 1;
    assert Share(UserDebt(loan.borrower, loan.reserve), loan) == Share(TotalDebt(loan.reserve), loan) ==
      loan.scaledAmount;
  }

  // All of the books but the escrow have let go of the loan.
  ghost predicate ClosesBut(p: Pool, p': Pool, id: nat, l: Loan) {
    && 0 < id < |p.loans| && p'.loans == p.loans[id := l] && p'.index == p.index && p'.escrow == p.escrow
    && p'.loanIds == p.loanIds[l.nft := 0]
    && forall m: Measure :: m.Bids? || Recorded(p', m) + Share(m, p.loans[id]) == Recorded(p, m)
  }

  // Once the loan's bid has left the escrow as well, but for a gain, the books balance again.
  lemma ClosedInv(p: Pool, p': Pool, p'': Pool, id: nat, l: Loan, gain: nat)
    requires Inv(p) && ClosesBut(p, p', id, l) && p.loans[id].Live()
    requires l == p.loans[id].(state := l.state, bidBorrowAmount := l.bidBorrowAmount)
    requires l.state == Repaid || l.state == Defaulted
    requires p''.(escrow := p'.escrow) == p'
    requires forall a :: Get(p''.escrow, a) + Share(Bids(a), p.loans[id]) ==
                         Get(p.escrow, a) + if a == l.reserve then gain else 0
    ensures Inv(p'') && Gains(p, p'', l.reserve, gain)
  {
    forall m: Measure
      ensures Recorded(p'', m) + Share(m, p.loans[id]) ==
              Recorded(p, m) + Share(m, l) + if m == Bids(l.reserve) then gain else 0
    {
      assert Share(m, l) == 0;
      if !m.Bids? {
        assert Recorded(p'', m) == Recorded(p', m);
      }
    }
    assert Moves(p, p'', id, l, gain);
    MovesKeepsBalance(p, p'', id, l, gain);
    ReplacedSound(p, p'', id, l);
  }

  lemma RepayKeepsInv(p: Pool, nft: Nft, amount: nat, accrual: Accrual, admitted: bool)
    requires Inv(p)
    ensures var r := Repay(p, nft, amount, accrual, admitted);
            if r.Done? then && Inv(r.value) && Get(p.loanIds, nft) != 0
                            && Gains(p, r.value, p.loans[Get(p.loanIds, nft)].reserve, 0)
            else r.error !in BOOKKEEPING_ERRORS
  {
    hide Balanced, Gains, RepayLoan;
    var id := Get(p.loanIds, nft);
    if id != 0 {
      var loan := p.loans[id];
      AccruedInv(p, loan.reserve, accrual);
      UpdateStateSound(p, loan.reserve, accrual);
      var r := UpdateState(p, loan.reserve, accrual);
      if r.Done? && loan.state == Active && amount > 0 && BorrowAmount(r.value, id) > 0 {
        RepaidLoan(r.value, id, amount);
        var done := RepayLoan(r.value, id, amount);
        if done.Done? {
          GainsAfterAccrual(p, r.value, done.value, loan.reserve, 0);
        }
      }
    }
  }

  lemma RepaidLoan(p: Pool, id: nat, amount: nat)
    requires Inv(p) && 0 < id < |p.loans| && p.loans[id].state == Active
    requires HasLoan(p, id) && amount > 0 && BorrowAmount(p, id) > 0
    ensures var r := RepayLoan(p, id, amount);
            if r.Done? then Inv(r.value) && Gains(p, r.value, p.loans[id].reserve, 0)
            else r.error == LPL_INVALID_TAKEN_AMOUNT && amount < BorrowAmount(p, id)
    ensures RepayLoan(p, id, amount).Done? <==>
            RayDiv(amount, p.index[p.loans[id].reserve]) > 0 || amount >= BorrowAmount(p, id)
  {
    hide Balanced, Gains, BurnDebt;
    var loan, owed := p.loans[id], BorrowAmount(p, id);
    if amount < owed {
      RepaidInPart(p, id, amount);
    } else {
      WholeDebtBurnsScaled(p, id);
      var l := loan.(state := Repaid);
      ClosedLoan(p, id, l);
      var p3 := BurnDebt(CloseLoan(p, id, l).value, loan.borrower, loan.reserve, owed).value;
      ClosedInv(p, p3, p3, id, l, 0);
    }
  }

  // What the pool keeps of an outbid bid: all of it if it made that bid itself.
  function KeptBid(loan: Loan): nat {
    if loan.bidder == POOL then loan.bidPrice else 0
  }

  // The auction part of a bid that has passed every check.
  lemma PlacedBid(p: Pool, id: nat, onBehalfOf: Address, bidPrice: nat, now: Timestamp)
    requires Inv(p) && 0 < id < |p.loans| && p.loans[id].Live() && p.loans[id].scaledAmount > 0
    requires HasLoan(p, id) && onBehalfOf != ZERO_ADDRESS
    ensures var loan, r := p.loans[id], AuctionLoan(p, id, onBehalfOf, bidPrice, BorrowAmount(p, id), now);
            if r.Done? then
              var r4 := Outbid(r.value, loan, bidPrice);
              r4.Done? && Inv(r4.value) && Gains(p, r4.value, loan.reserve, KeptBid(loan))
            else
              r.error == LPL_BID_PRICE_LESS_THAN_HIGHEST_PRICE
  {
    hide Balanced, Gains, Outbid;
    var loan, r := p.loans[id], AuctionLoan(p, id, onBehalfOf, bidPrice, BorrowAmount(p, id), now);
    if r.Done? {
      SharesRecorded(p, id);
      assert Share(Bids(loan.reserve), loan) == loan.bidPrice;
      BidReplaces(r.value, loan, bidPrice);
      BidMoves(p, Outbid(r.value, loan, bidPrice).value, id, r.value.loans[id]);
    }
  }

  // The standing bid leaves the escrow as the new one enters, unless the pool made it.
  lemma BidReplaces(p: Pool, loan: Loan, bidPrice: nat)
    requires loan.bidPrice <= Get(p.escrow, loan.reserve)
    requires loan.bidder == ZERO_ADDRESS ==> loan.bidPrice == 0
    ensures var r := Outbid(p, loan, bidPrice);
            && r.Done? && r.value == p.(escrow := r.value.escrow)
            && forall a :: Get(r.value.escrow, a) ==
                           Get(p.escrow, a) + if a == loan.reserve then bidPrice - loan.bidPrice + KeptBid(loan) else 0
  {
    hide PayTo;
    PaidTo(PayIn(p, loan.reserve, bidPrice), loan.reserve, loan.bidder, loan.bidPrice);
  }

  // A transfer leaves the pool unless it goes to the pool itself, and a collection is the other way round.
  lemma PaidTo(p: Pool, reserve: Address, to: Address, amount: nat)
    requires amount <= Get(p.escrow, reserve)
    ensures var r := PayTo(p, reserve, to, amount);
            && r.Done? && r.value == p.(escrow := r.value.escrow)
            && forall a :: Get(r.value.escrow, a) == Get(p.escrow, a) - if a == reserve && to != POOL then amount else 0
  {
  }

  lemma CollectedFor(p: Pool, reserve: Address, to: Address, amount: nat)
    ensures var p' := CollectFor(p, reserve, to, amount);
            && p' == p.(escrow := p'.escrow)
            && forall a :: Get(p'.escrow, a) == Get(p.escrow, a) + if a == reserve && to == POOL then amount else 0
  {
  }

  lemma BidMoves(p: Pool, p': Pool, id: nat, l: Loan)
    requires Inv(p) && 0 < id < |p.loans| && p.loans[id].Live() && p.loans[id].scaledAmount > 0
    requires l == p.loans[id].(state := Auction, bidStartTimestamp := l.bidStartTimestamp, bidder := l.bidder,
                               bidPrice := l.bidPrice, bidBorrowAmount := l.bidBorrowAmount,
                               firstBidder := l.firstBidder)
    requires FitsState(l)
    requires p' == p.(loans := p.loans[id := l], escrow := p'.escrow)
    requires forall a :: Get(p'.escrow, a) ==
                         Get(p.escrow, a) +
                         if a == l.reserve then l.bidPrice - p.loans[id].bidPrice + KeptBid(p.loans[id]) else 0
    ensures Inv(p') && Gains(p, p', l.reserve, KeptBid(p.loans[id]))
  {
    var gain := KeptBid(p.loans[id]);
    forall m: Measure
      ensures Recorded(p', m) + Share(m, p.loans[id]) ==
              Recorded(p, m) + Share(m, l) + if m == Bids(l.reserve) then gain else 0
    {
      match m
      case UserDebt(_, _) =>
      case TotalDebt(_) =>
      case UserNfts(_, _) =>
      case TotalNfts(_) =>
      case Bids(_) =>
    }
    MovesKeepsBalance(p, p', id, l, gain);
    ReplacedSound(p, p', id, l);
  }

  lemma BidKeepsInv(p: Pool, nft: Nft, onBehalfOf: Address, bidPrice: nat, accrual: Accrual, q: Quote, t: Timing,
                    admitted: bool)
    requires Inv(p)
    ensures var r, loan := Bid(p, nft, onBehalfOf, bidPrice, accrual, q, t, admitted), p.loans[Get(p.loanIds, nft)];
            if r.Done? then Inv(r.value) && Get(p.loanIds, nft) != 0 && Gains(p, r.value, loan.reserve, KeptBid(loan))
            else r.error !in BOOKKEEPING_ERRORS
  {
    hide Balanced, Gains, AuctionLoan, Outbid;
    var id := Get(p.loanIds, nft);
    if id != 0 && onBehalfOf != ZERO_ADDRESS {
      var loan := p.loans[id];
      AccruedInv(p, loan.reserve, accrual);
      UpdateStateSound(p, loan.reserve, accrual);
      var r := UpdateState(p, loan.reserve, accrual);
      if r.Done? && BidIsHighEnough(loan, bidPrice, BorrowAmount(r.value, id), q, t).Pass? {
        WholeDebtBurnsScaled(r.value, id);
        PlacedBid(r.value, id, onBehalfOf, bidPrice, t.now);
        var done := Bid(p, nft, onBehalfOf, bidPrice, accrual, q, t, admitted);
        if done.Done? {
          GainsAfterAccrual(p, r.value, done.value, loan.reserve, KeptBid(loan));
        }
      }
    }
  }

  lemma MaxRepayBelowDebt(debt: nat)
    ensures PercentMul(debt, PERCENTAGE_FACTOR - TEN_PERCENT) <= debt
  {
    HalfUp.MulError(PERCENTAGE_FACTOR, debt, 9_000);
  }

  // What the pool keeps of a redeem's transfers.
  function KeptByRedeem(loan: Loan, fine: nat): nat {
    KeptBid(loan) + if loan.firstBidder == POOL then fine else 0
  }

  // The redeem part that changes the books.
  lemma RedeemedLoan(p: Pool, id: nat, amount: nat, fine: nat)
    requires Inv(p) && 0 < id < |p.loans| && p.loans[id].state == Auction
    requires HasLoan(p, id) && 0 < amount <= BorrowAmount(p, id)
    ensures var loan, r := p.loans[id], RedeemLoan(p, id, amount);
            if RayDiv(amount, p.index[loan.reserve]) == 0 then
              r == Reverted(LPL_INVALID_TAKEN_AMOUNT)
            else
              && r.Done?
              && var r2 := BurnDebt(r.value, loan.borrower, loan.reserve, amount);
              && r2.Done?
              && var r3 := Refund(r2.value, loan, fine);
              && r3.Done? && Inv(r3.value) && r3.value.index == p.index
              && Gains(p, r3.value, loan.reserve, KeptByRedeem(loan, fine))
  {
    var loan, r := p.loans[id], RedeemLoan(p, id, amount);
    var taken := RayDiv(amount, p.index[loan.reserve]);
    PartBurnsAtMostScaled(p, id, amount);
    SharesRecorded(p, id);
    assert Share(UserDebt(loan.borrower, loan.reserve), loan) == Share(TotalDebt(loan.reserve), loan) ==
      loan.scaledAmount;
    assert Share(Bids(loan.reserve), loan) == loan.bidPrice;
    if taken != 0 {
      var p2 := BurnDebt(r.value, loan.borrower, loan.reserve, amount).value;
      BidRefunded(p2, loan, fine);
      RedeemMoves(p, Refund(p2, loan, fine).value, id, taken, r.value.loans[id], KeptByRedeem(loan, fine));
    }
  }

  lemma BidRefunded(p: Pool, loan: Loan, fine: nat)
    requires loan.bidPrice <= Get(p.escrow, loan.reserve)
    ensures var r := Refund(p, loan, fine);
            && r.Done? && r.value == p.(escrow := r.value.escrow)
            && forall a :: Get(r.value.escrow, a) ==
                           Get(p.escrow, a) + if a == loan.reserve then KeptByRedeem(loan, fine) - loan.bidPrice else 0
  {
    hide PayTo, CollectFor;
    PaidTo(p, loan.reserve, loan.bidder, loan.bidPrice);
    CollectedFor(PayTo(p, loan.reserve, loan.bidder, loan.bidPrice).value, loan.reserve, loan.firstBidder, fine);
  }

  lemma RedeemMoves(p: Pool, p': Pool, id: nat, taken: nat, l: Loan, gain: nat)
    requires Inv(p) && 0 < id < |p.loans| && p.loans[id].state == Auction && taken <= p.loans[id].scaledAmount
    requires l == p.loans[id].(scaledAmount := p.loans[id].scaledAmount - taken, state := Active,
                               bidStartTimestamp := 0,
                               bidBorrowAmount := 0, bidder := ZERO_ADDRESS, bidPrice := 0, firstBidder := ZERO_ADDRESS)
    requires taken <= Get(p.debts, (l.borrower, l.reserve)) && taken <= Get(p.supply, l.reserve)
    requires var user, reserve := (l.borrower, l.reserve), l.reserve;
             p' == p.(loans := p.loans[id := l],
                      debts := p.debts[user := Get(p.debts, user) - taken],
                      supply := p.supply[reserve := Get(p.supply, reserve) - taken],
                      escrow := p'.escrow)
    requires forall a :: Get(p'.escrow, a) ==
                         Get(p.escrow, a) + if a == l.reserve then gain - p.loans[id].bidPrice else 0
    ensures Inv(p') && Gains(p, p', l.reserve, gain)
  {
    forall m: Measure
      ensures Recorded(p', m) + Share(m, p.loans[id]) ==
              Recorded(p, m) + Share(m, l) + if m == Bids(l.reserve) then gain else 0
    {
      match m
      case UserDebt(_, _) =>
      case TotalDebt(_) =>
      case UserNfts(_, _) =>
      case TotalNfts(_) =>
      case Bids(_) =>
    }
    MovesKeepsBalance(p, p', id, l, gain);
    ReplacedSound(p, p', id, l);
  }

  lemma RedeemKeepsInv(p: Pool, nft: Nft, amount: nat, maxFine: nat, terms: Terms, accrual: Accrual, t: Timing,
                       admitted: bool)
    requires Inv(p)
    ensures var r, id := Redeem(p, nft, amount, maxFine, terms, accrual, t, admitted), Get(p.loanIds, nft);
            if r.Done? then
              && id != 0 && Inv(r.value) && p.loans[id].reserve in r.value.index
              && var owed := RayMul(p.loans[id].scaledAmount, r.value.index[p.loans[id].reserve]);
              Gains(p, r.value, p.loans[id].reserve, KeptByRedeem(p.loans[id], BidFine(p.loans[id], owed, terms)))
            else
              r.error !in BOOKKEEPING_ERRORS
  {
    hide Balanced, Gains, BurnDebt, Refund;
    var id := Get(p.loanIds, nft);
    if id != 0 {
      var loan := p.loans[id];
      AccruedInv(p, loan.reserve, accrual);
      UpdateStateSound(p, loan.reserve, accrual);
      var r := UpdateState(p, loan.reserve, accrual);
      if r.Done? && loan.state == Auction && amount > 0 {
        var owed := BorrowAmount(r.value, id);
        DebtOfNothing(r.value, id);
        if amount <= PercentMul(owed, PERCENTAGE_FACTOR - TEN_PERCENT) {
          MaxRepayBelowDebt(owed);
          RedeemedLoan(r.value, id, amount, BidFine(loan, owed, terms));
          var done := Redeem(p, nft, amount, maxFine, terms, accrual, t, admitted);
          if done.Done? {
            GainsAfterAccrual(p, r.value, done.value, loan.reserve, KeptByRedeem(loan, BidFine(loan, owed, terms)));
          }
        }
      }
    }
  }

  lemma DebtOfNothing(p: Pool, id: nat)
    requires HasLoan(p, id)
    ensures BorrowAmount(p, id) == RayMul(p.loans[id].scaledAmount, p.index[p.loans[id].reserve])
  {
    QuotientUnique(HALF_RAY, RAY, 0);
  }

  // What the pool keeps of a settlement: the remainder if the pool is the borrower.
  function KeptBySettling(loan: Loan, owed: nat): nat {
    if loan.borrower == POOL then Remainder(loan.bidPrice, owed) else 0
  }

  // The settlement: the bid, topped up to the debt if it is short, pays the debt and what remains goes out.
  lemma SettledBid(p: Pool, p3: Pool, id: nat, l: Loan, owed: nat)
    requires Inv(p) && ClosesBut(p, p3, id, l) && p.loans[id].state == Auction
    requires l == p.loans[id].(state := Defaulted, bidBorrowAmount := l.bidBorrowAmount)
    ensures var loan := p.loans[id];
            var r := Settle(p3, loan.reserve, loan.borrower, loan.bidPrice, owed);
            && r.Done? && Inv(r.value) && r.value.index == p.index
            && Gains(p, r.value, loan.reserve, KeptBySettling(loan, owed))
  {
    var loan := p.loans[id];
    SharesRecorded(p, id);
    assert Share(Bids(loan.reserve), loan) == loan.bidPrice;
    SettleTakesTheBid(p3, loan, owed);
    ClosedInv(p, p3, Settle(p3, loan.reserve, loan.borrower, loan.bidPrice, owed).value, id, l,
              KeptBySettling(loan, owed));
  }

  /** However the bid compares with the debt, exactly the bid leaves the escrow, but for a remainder the pool
      owes itself. */
  lemma SettleTakesTheBid(p: Pool, loan: Loan, owed: nat)
    requires loan.bidPrice <= Get(p.escrow, loan.reserve)
    ensures var r := Settle(p, loan.reserve, loan.borrower, loan.bidPrice, owed);
            && r.Done? && r.value == p.(escrow := r.value.escrow)
            && r.value.escrow ==
               p.escrow[loan.reserve := Get(p.escrow, loan.reserve) - loan.bidPrice + KeptBySettling(loan, owed)]
  {
    var reserve, bid, e := loan.reserve, loan.bidPrice, Get(p.escrow, loan.reserve);
    if bid < owed {
      Overwritten(p.escrow, reserve, e + (owed - bid), e - bid);
    } else if bid > owed {
      Overwritten(p.escrow, reserve, e - owed, e - bid);
    }
  }

  lemma Overwritten(m: map<Address, nat>, k: Address, x: nat, y: nat)
    ensures m[k := x][k := y] == m[k := y]
  {
  }

  lemma LiquidateKeepsInv(p: Pool, nft: Nft, amount: nat, accrual: Accrual, t: Timing, admitted: bool)
    requires Inv(p)
    ensures var r, id := Liquidate(p, nft, amount, accrual, t, admitted), Get(p.loanIds, nft);
            if r.Done? then
              && id != 0 && Inv(r.value) && p.loans[id].reserve in r.value.index
              && var owed := RayMul(p.loans[id].scaledAmount, r.value.index[p.loans[id].reserve]);
              Gains(p, r.value, p.loans[id].reserve, KeptBySettling(p.loans[id], owed))
            else
              r.error !in BOOKKEEPING_ERRORS
  {
    hide Balanced, Gains, LiquidateLoan;
    var id := Get(p.loanIds, nft);
    if id != 0 {
      var loan := p.loans[id];
      AccruedInv(p, loan.reserve, accrual);
      UpdateStateSound(p, loan.reserve, accrual);
      var r := UpdateState(p, loan.reserve, accrual);
      if r.Done? && loan.state == Auction {
        DebtOfNothing(r.value, id);
        LiquidatedLoan(r.value, id);
        GainsAfterAccrual(p, r.value, LiquidateLoan(r.value, id).value, loan.reserve,
                          KeptBySettling(loan, BorrowAmount(r.value, id)));
      }
    }
  }

  lemma LiquidatedLoan(p: Pool, id: nat)
    requires Inv(p) && 0 < id < |p.loans| && p.loans[id].state == Auction && HasLoan(p, id)
    ensures var loan, r := p.loans[id], LiquidateLoan(p, id);
            && r.Done? && Inv(r.value) && r.value.index == p.index
            && Gains(p, r.value, loan.reserve, KeptBySettling(loan, BorrowAmount(p, id)))
  {
    hide Balanced, Gains, BurnDebt, Settle;
    var loan, owed := p.loans[id], BorrowAmount(p, id);
    var l := loan.(state := Defaulted, bidBorrowAmount := owed);
    ClosedLoan(p, id, l);
    SettledBid(p, BurnDebt(CloseLoan(p, id, l).value, loan.borrower, loan.reserve, owed).value, id, l, owed);
  }
}
