/** Whole runs of the lending pool: any sequence of transactions, completed or reverted, from the empty books on. */
module LoanRuns {
  import opened Arithmetic
  import opened Common
  import opened Constants
  import opened Loans
  import opened LoanBooks
  import opened LoanEffects
  import Tolerance

  datatype Op =
    | InitReserveOp(reserve: Address)
    | BorrowOp(user: Address, reserve: Address, amount: nat, nft: Nft, accrual: Accrual, admitted: bool)
    | RepayOp(nft: Nft, amount: nat, accrual: Accrual, admitted: bool)
    | BidOp(nft: Nft, user: Address, bidPrice: nat, accrual: Accrual, quote: Quote, timing: Timing, admitted: bool)
    | RedeemOp(nft: Nft, amount: nat, maxFine: nat, terms: Terms, accrual: Accrual, timing: Timing, admitted: bool)
    | LiquidateOp(nft: Nft, amount: nat, accrual: Accrual, timing: Timing, admitted: bool)

  function Apply(p: Pool, op: Op): Result<Pool>
    requires Readable(p)
  {
    match op
    case InitReserveOp(reserve) => InitReserve(p, reserve)
    case BorrowOp(user, reserve, amount, nft, accrual, admitted) =>
      Borrow(p, user, reserve, amount, nft, accrual, admitted)
    case RepayOp(nft, amount, accrual, admitted) => Repay(p, nft, amount, accrual, admitted)
    case BidOp(nft, user, bidPrice, accrual, q, t, admitted) => Bid(p, nft, user, bidPrice, accrual, q, t, admitted)
    case RedeemOp(nft, amount, maxFine, terms, accrual, t, admitted) =>
      Redeem(p, nft, amount, maxFine, terms, accrual, t, admitted)
    case LiquidateOp(nft, amount, accrual, t, admitted) => Liquidate(p, nft, amount, accrual, t, admitted)
  }

  // The reserve a transaction updates, if it gets that far.
  function ReserveOf(p: Pool, op: Op): Address
    requires Readable(p)
  {
    match op
    case InitReserveOp(reserve) => reserve
    case BorrowOp(_, reserve, _, _, _, _) => reserve
    case RepayOp(nft, _, _, _) => p.loans[Get(p.loanIds, nft)].reserve
    case BidOp(nft, _, _, _, _, _, _) => p.loans[Get(p.loanIds, nft)].reserve
    case RedeemOp(nft, _, _, _, _, _, _) => p.loans[Get(p.loanIds, nft)].reserve
    case LiquidateOp(nft, _, _, _, _) => p.loans[Get(p.loanIds, nft)].reserve
  }

  // What the pool keeps for itself of a transaction that leads from p to p', having acted as a user in it.
  function Kept(p: Pool, op: Op, p': Pool): nat
    requires Readable(p)
  {
    match op
    case BidOp(nft, _, _, _, _, _, _) => KeptBid(p.loans[Get(p.loanIds, nft)])
    case RedeemOp(nft, _, _, terms, _, _, _) =>
      var loan := p.loans[Get(p.loanIds, nft)];
      KeptByRedeem(loan, BidFine(loan, RayMul(loan.scaledAmount, Get(p'.index, loan.reserve)), terms))
    case LiquidateOp(nft, _, _, _, _) =>
      var loan := p.loans[Get(p.loanIds, nft)];
      KeptBySettling(loan, RayMul(loan.scaledAmount, Get(p'.index, loan.reserve)))
    case _ => 0
  }

  /** Every transaction keeps the books sound and balanced, and what the pool holds beyond the standing bids
      grows by exactly what it keeps for itself. */
  lemma ApplyKeepsInv(p: Pool, op: Op)
    requires Inv(p)
    ensures var r := Apply(p, op);
            if r.Done? then Inv(r.value) && Gains(p, r.value, ReserveOf(p, op), Kept(p, op, r.value))
            else r.error !in BOOKKEEPING_ERRORS
  {
    hide Balanced, Gains, Borrow, Repay, Bid, Redeem, Liquidate;
    match op
    case InitReserveOp(reserve) => InitKeepsInv(p, reserve);
    case BorrowOp(user, reserve, amount, nft, accrual, admitted) =>
      BorrowKeepsInv(p, user, reserve, amount, nft, accrual, admitted);
    case RepayOp(nft, amount, accrual, admitted) => RepayKeepsInv(p, nft, amount, accrual, admitted);
    case BidOp(nft, user, bidPrice, accrual, q, t, admitted) =>
      BidKeepsInv(p, nft, user, bidPrice, accrual, q, t, admitted);
    case RedeemOp(nft, amount, maxFine, terms, accrual, t, admitted) =>
      RedeemKeepsInv(p, nft, amount, maxFine, terms, accrual, t, admitted);
    case LiquidateOp(nft, amount, accrual, t, admitted) => LiquidateKeepsInv(p, nft, amount, accrual, t, admitted);
  }

  lemma InitKeepsInv(p: Pool, reserve: Address)
    requires Inv(p)
    ensures var r := InitReserve(p, reserve);
            if r.Done? then Inv(r.value) && Gains(p, r.value, reserve, 0) else r.error !in BOOKKEEPING_ERRORS
  {
    var r := InitReserve(p, reserve);
    if r.Done? {
      SameBooks(p, r.value);
      assert forall a :: Surplus(r.value, a) == Surplus(p, a);
    }
  }

  // The books after one transaction; one that reverts changes nothing.
  ghost function After(p: Pool, op: Op): (q: Pool)
    requires Inv(p)
    ensures Inv(q)
  {
    ApplyKeepsInv(p, op);
    if Apply(p, op).Done? then Apply(p, op).value else p
  }

  // The books after some transactions.
  ghost function Run(p: Pool, ops: seq<Op>): (q: Pool)
    requires Inv(p)
    ensures Inv(q)
  {
    if ops == [] then p else After(Run(p, ops[..|ops| - 1]), ops[|ops| - 1])
  }

  lemma EmptyBooks()
    ensures Inv(EMPTY) && forall reserve :: Surplus(EMPTY, reserve) == 0
  {
    assert EMPTY.loans[..0] == [];
    assert forall m: Measure :: Total(m, EMPTY.loans) == Total(m, []) + Share(m, NO_LOAN);
    assert forall reserve :: Surplus(EMPTY, reserve) == 0 - Total(Bids(reserve), EMPTY.loans);
  }

  // The books that transactions lead to from nothing.
  ghost function Books(ops: seq<Op>): (p: Pool)
    ensures Inv(p)
  {
    EmptyBooks();
    Run(EMPTY, ops)
  }

  ghost predicate Reachable(p: Pool) {
    exists ops :: Books(ops) == p
  }

  /** In every reachable state each user's scaled debt in a reserve is the sum over that user's live loans,
      the reserve's total debt the sum over all of them, each collateral count the number of live loans, and
      the pool's own holding of a reserve's token covers the sum of the standing bids. */
  lemma BooksBalance(p: Pool, user: Address, asset: Address, reserve: Address)
    requires Reachable(p)
    ensures Get(p.debts, (user, reserve)) == Total(UserDebt(user, reserve), p.loans)
    ensures Get(p.supply, reserve) == Total(TotalDebt(reserve), p.loans)
    ensures Get(p.userCollateral, (user, asset)) == Total(UserNfts(user, asset), p.loans)
    ensures Get(p.totalCollateral, asset) == Total(TotalNfts(asset), p.loans)
    ensures Get(p.escrow, reserve) >= Total(Bids(reserve), p.loans)
  {
    assert Inv(p);
    assert Recorded(p, UserDebt(user, reserve)) == Total(UserDebt(user, reserve), p.loans);
    assert Recorded(p, TotalDebt(reserve)) == Total(TotalDebt(reserve), p.loans);
    assert Recorded(p, UserNfts(user, asset)) == Total(UserNfts(user, asset), p.loans);
    assert Recorded(p, TotalNfts(asset)) == Total(TotalNfts(asset), p.loans);
    assert Surplus(p, reserve) >= 0;
  }

  // What the pool keeps of a reserve's token over a run.
  ghost function KeptIn(p: Pool, ops: seq<Op>, reserve: Address): nat
    requires Inv(p)
  {
    if ops == [] then 0 else
      var n := |ops| - 1;
      var before := Run(p, ops[..n]);
      KeptIn(p, ops[..n], reserve) +
      if Apply(before, ops[n]).Done? && ReserveOf(before, ops[n]) == reserve
        then Kept(before, ops[n], After(before, ops[n])) else 0
  }

  /** Over any run the pool's holding beyond the standing bids grows by exactly what it kept for itself. */
  lemma {:induction false} SurplusIsKept(p: Pool, ops: seq<Op>, reserve: Address)
    requires Inv(p)
    ensures Surplus(Run(p, ops), reserve) == Surplus(p, reserve) + KeptIn(p, ops, reserve)
  {
    if ops != [] {
      var n := |ops| - 1;
      SurplusIsKept(p, ops[..n], reserve);
      ApplyKeepsInv(Run(p, ops[..n]), ops[n]);
    }
  }

  /** No NFT ever backs two live loans, and the directory finds the one it backs. */
  lemma OneLoanPerNft(p: Pool, i: nat, j: nat)
    requires Reachable(p) && i < |p.loans| && j < |p.loans|
    requires p.loans[i].Live() && p.loans[j].Live() && p.loans[i].nft == p.loans[j].nft
    ensures i == j == Get(p.loanIds, p.loans[i].nft)
  {
    assert Inv(p);
  }

  /** No transaction ever fails on the books themselves: no count or balance underflows, no amount exceeds the
      loan, and the pool can always pay a bid back. */
  lemma NoBookkeepingErrors(p: Pool, op: Op)
    requires Reachable(p)
    ensures Apply(p, op).Reverted? ==> Apply(p, op).error !in BOOKKEEPING_ERRORS
  {
    ApplyKeepsInv(p, op);
  }

  // The scaled amounts of a user's live loans in a reserve.
  function ScaledAmounts(loans: seq<Loan>, user: Address, reserve: Address): seq<nat> {
    if loans == [] then [] else
      var l := loans[|loans| - 1];
      ScaledAmounts(loans[..|loans| - 1], user, reserve) +
      if l.Live() && l.borrower == user && l.reserve == reserve then [l.scaledAmount] else []
  }

  lemma {:induction false} AmountsAddUp(loans: seq<Loan>, user: Address, reserve: Address)
    ensures Tolerance.Sum(ScaledAmounts(loans, user, reserve)) == Total(UserDebt(user, reserve), loans)
  {
    if loans != [] {
      var rest, l := loans[..|loans| - 1], loans[|loans| - 1];
      AmountsAddUp(rest, user, reserve);
      if l.Live() && l.borrower == user && l.reserve == reserve {
        var amounts := ScaledAmounts(loans, user, reserve);
        assert amounts[..|amounts| - 1] == ScaledAmounts(rest, user, reserve);
      } else {
        assert ScaledAmounts(loans, user, reserve) == ScaledAmounts(rest, user, reserve);
      }
    }
  }

  /** The debt token's balance of a user and the debts of the user's n loans, each rounded on its own, never
      drift apart by more than (n + 1) / 2, whatever the run and however high the index. */
  lemma DebtTokenTracksLoans(p: Pool, user: Address, reserve: Address)
    requires Reachable(p) && reserve in p.index
    ensures RoundedApart(ScaledAmounts(p.loans, user, reserve), Get(p.debts, (user, reserve)), p.index[reserve])
  {
    BooksBalance(p, user, "", reserve);
    AmountsAddUp(p.loans, user, reserve);
    DebtsTrackAmounts(ScaledAmounts(p.loans, user, reserve), Get(p.debts, (user, reserve)), p.index[reserve]);
  }

  // n debts rounded one by one against one debt rounded as a whole.
  ghost predicate RoundedApart(scaled: seq<nat>, balance: nat, i: nat) {
    2 * Abs(Tolerance.Sum(Tolerance.DebtsAt(RAY, scaled, i)) - RayMul(balance, i)) <= |scaled| + 1
  }

  lemma DebtsTrackAmounts(scaled: seq<nat>, balance: nat, i: nat)
    requires Tolerance.Sum(scaled) == balance
    ensures RoundedApart(scaled, balance, i)
  {
    Tolerance.SplitDebtError(RAY, scaled, i);
  }

  // ---------------------------------------------------------------- what a run can and cannot change

  // One transaction takes a loan along an edge of its life: opened, auctioned, redeemed, repaid or defaulted.
  predicate Follows(l: Loan, l': Loan) {
    && l'.borrower == l.borrower && l'.nft == l.nft && l'.reserve == l.reserve
    && match l.state
       case Active => l'.state in {Active, Auction, Repaid}
       case Auction => l'.state in {Active, Auction, Defaulted}
       case _ => l' == l
  }

  ghost predicate Evolves(p: Pool, p': Pool) {
    && |p.loans| <= |p'.loans|
    && (forall id :: 0 <= id < |p.loans| ==> Follows(p.loans[id], p'.loans[id]))
    && (forall a :: a in p.index ==> a in p'.index && p.index[a] <= p'.index[a])
  }

  // What a completed transaction did, whichever it was.
  lemma Effect(p: Pool, op: Op, p': Pool)
    requires Inv(p) && Apply(p, op) == Done(p')
    ensures match op
            case InitReserveOp(reserve) => reserve !in p.index && p' == p.(index := p.index[reserve := RAY])
            case BorrowOp(user, reserve, amount, nft, _, _) => Borrowed(p, p', user, reserve, amount, nft)
            case RepayOp(nft, amount, _, _) => PaidBack(p, p', nft, amount)
            case BidOp(nft, user, bidPrice, _, _, t, _) => BidOn(p, p', nft, user, bidPrice, t.now)
            case RedeemOp(nft, amount, _, terms, _, _, _) => Redeemed(p, p', nft, amount, terms)
            case LiquidateOp(nft, _, _, _, _) => Settled(p, p', nft)
  {
    hide Balanced, Borrow, Repay, Bid, Redeem, Liquidate, Borrowed, PaidBack, BidOn, Redeemed, Settled;
    match op
    case InitReserveOp(reserve) =>
    case BorrowOp(user, reserve, amount, nft, accrual, admitted) =>
      BorrowEffect(p, user, reserve, amount, nft, accrual, admitted, p');
    case RepayOp(nft, amount, accrual, admitted) => RepayEffect(p, nft, amount, accrual, admitted, p');
    case BidOp(nft, user, bidPrice, accrual, q, t, admitted) =>
      BidTakesTheLead(p, nft, user, bidPrice, accrual, q, t, admitted, p');
    case RedeemOp(nft, amount, maxFine, terms, accrual, t, admitted) =>
      RedeemEffect(p, nft, amount, maxFine, terms, accrual, t, admitted, p');
    case LiquidateOp(nft, amount, accrual, t, admitted) => LiquidateEffect(p, nft, amount, accrual, t, admitted, p');
  }

  /** A transaction moves loans only along the documented life cycle and never lowers a borrow index. */
  lemma ApplyEvolves(p: Pool, op: Op)
    requires Inv(p) && Apply(p, op).Done?
    ensures Evolves(p, Apply(p, op).value)
  {
    hide Balanced, Apply, Evolves;
    var p' := Apply(p, op).value;
    Effect(p, op, p');
    match op
    case InitReserveOp(_) => NewReserveEvolves(p, p');
    case BorrowOp(_, reserve, _, nft, _, _) => BorrowEvolves(p, p', reserve, Get(p.loanIds, nft));
    case RepayOp(nft, _, _, _) => OneLoanEvolves(p, p', Get(p.loanIds, nft));
    case BidOp(nft, _, _, _, _, _, _) => OneLoanEvolves(p, p', Get(p.loanIds, nft));
    case RedeemOp(nft, _, _, _, _, _, _) => OneLoanEvolves(p, p', Get(p.loanIds, nft));
    case LiquidateOp(nft, _, _, _, _) => OneLoanEvolves(p, p', Get(p.loanIds, nft));
  }

  lemma NewReserveEvolves(p: Pool, p': Pool)
    requires p'.loans == p.loans && forall a :: a in p.index ==> a in p'.index && p.index[a] == p'.index[a]
    ensures Evolves(p, p')
  {
  }

  lemma BorrowEvolves(p: Pool, p': Pool, reserve: Address, id: nat)
    requires Accrued(p, p', reserve)
    requires if id == 0 then
               |p'.loans| == |p.loans| + 1 && p'.loans[..|p.loans|] == p.loans
             else
               && id < |p.loans| && p.loans[id].reserve == reserve && id < |p'.loans|
               && p'.loans == p.loans[id := p'.loans[id]] && Follows(p.loans[id], p'.loans[id])
    ensures Evolves(p, p')
  {
    if id == 0 {
      NewLoanEvolves(p, p', reserve);
    } else {
      OneLoanEvolves(p, p', id);
    }
  }

  // Only one loan changed, and only as the life cycle allows.
  lemma OneLoanEvolves(p: Pool, p': Pool, id: nat)
    requires id < |p.loans| == |p'.loans| && p'.loans == p.loans[id := p'.loans[id]] &&
             Follows(p.loans[id], p'.loans[id])
    requires Accrued(p, p', p.loans[id].reserve)
    ensures Evolves(p, p')
  {
  }

  lemma NewLoanEvolves(p: Pool, p': Pool, reserve: Address)
    requires |p'.loans| == |p.loans| + 1 && p'.loans[..|p.loans|] == p.loans
    requires Accrued(p, p', reserve)
    ensures Evolves(p, p')
  {
    assert forall id :: 0 <= id < |p.loans| ==> p'.loans[id] == p'.loans[..|p.loans|][id];
  }

  /** Over any run a repaid or defaulted loan stays exactly as it was left, every loan keeps its borrower, NFT
      and reserve, and no borrow index goes down. */
  lemma {:induction false} HistoryIsKept(p: Pool, ops: seq<Op>)
    requires Inv(p)
    ensures var q := Run(p, ops);
            && |p.loans| <= |q.loans|
            && (forall id :: 0 <= id < |p.loans| ==>
                  && q.loans[id].borrower == p.loans[id].borrower
                  && q.loans[id].nft == p.loans[id].nft && q.loans[id].reserve == p.loans[id].reserve
                  && (!p.loans[id].Live() ==> q.loans[id] == p.loans[id]))
            && (forall a :: a in p.index ==> a in q.index && p.index[a] <= q.index[a])
  {
    if ops != [] {
      var n := |ops| - 1;
      HistoryIsKept(p, ops[..n]);
      if Apply(Run(p, ops[..n]), ops[n]).Done? {
        ApplyEvolves(Run(p, ops[..n]), ops[n]);
      }
    }
  }

  // ---------------------------------------------------------------- the pool among its own users

  // A transaction on behalf of the pool's own address.
  predicate ForThePool(op: Op) {
    (op.BorrowOp? || op.BidOp?) && op.user == POOL
  }

  predicate IsStranger(l: Loan) {
    l.borrower != POOL && l.bidder != POOL && l.firstBidder != POOL
  }

  predicate OnlyStrangers(p: Pool) {
    forall id :: 0 <= id < |p.loans| ==> IsStranger(p.loans[id])
  }

  lemma StrangersStay(p: Pool, op: Op)
    requires Inv(p) && OnlyStrangers(p) && !ForThePool(op) && Apply(p, op).Done?
    ensures OnlyStrangers(Apply(p, op).value)
    ensures Kept(p, op, Apply(p, op).value) == 0
  {
    hide Balanced, Apply, OnlyStrangers;
    var p' := Apply(p, op).value;
    Effect(p, op, p');
    match op
    case InitReserveOp(_) => StrangerReplaced(p, p', 0);
    case BorrowOp(_, _, _, nft, _, _) =>
      if Get(p.loanIds, nft) == 0 {
        StrangerAdded(p, p');
      } else {
        StrangerReplaced(p, p', p.loanIds[nft]);
      }
    case RepayOp(nft, _, _, _) => StrangerReplaced(p, p', Get(p.loanIds, nft));
    case BidOp(nft, _, _, _, _, _, _) => StrangerReplaced(p, p', Get(p.loanIds, nft));
    case RedeemOp(nft, _, _, _, _, _, _) => StrangerReplaced(p, p', Get(p.loanIds, nft));
    case LiquidateOp(nft, _, _, _, _) => StrangerReplaced(p, p', Get(p.loanIds, nft));
  }

  lemma StrangerReplaced(p: Pool, p': Pool, id: nat)
    requires OnlyStrangers(p) && id < |p.loans| == |p'.loans| && p'.loans == p.loans[id := p'.loans[id]]
    requires IsStranger(p.loans[id]) ==> IsStranger(p'.loans[id])
    ensures OnlyStrangers(p') && IsStranger(p.loans[id])
  {
  }

  lemma StrangerAdded(p: Pool, p': Pool)
    requires OnlyStrangers(p) && |p'.loans| == |p.loans| + 1 && p'.loans == p.loans + [p'.loans[|p.loans|]]
    requires IsStranger(p'.loans[|p.loans|])
    ensures OnlyStrangers(p')
  {
  }

  lemma {:induction false} StrangersLeaveNothing(p: Pool, ops: seq<Op>, reserve: Address)
    requires Inv(p) && OnlyStrangers(p) && forall op :: op in ops ==> !ForThePool(op)
    ensures OnlyStrangers(Run(p, ops)) && KeptIn(p, ops, reserve) == 0
  {
    hide Balanced, Apply;
    if ops != [] {
      var n := |ops| - 1;
      StrangersLeaveNothing(p, ops[..n], reserve);
      if Apply(Run(p, ops[..n]), ops[n]).Done? {
        StrangersStay(Run(p, ops[..n]), ops[n]);
      }
    }
  }

  /** After any run from nothing the pool holds the standing bids and what it has kept for itself, which is
      nothing as long as nobody borrows or bids on behalf of the pool. */
  lemma BidsAreHeld(ops: seq<Op>, reserve: Address)
    ensures Inv(EMPTY)
    ensures Get(Books(ops).escrow, reserve) == Total(Bids(reserve), Books(ops).loans) + KeptIn(EMPTY, ops, reserve)
    ensures (forall op :: op in ops ==> !ForThePool(op)) ==> KeptIn(EMPTY, ops, reserve) == 0
  {
    EmptyBooks();
    SurplusIsKept(EMPTY, ops, reserve);
    if forall op :: op in ops ==> !ForThePool(op) {
      StrangersLeaveNothing(EMPTY, ops, reserve);
    }
  }
}
