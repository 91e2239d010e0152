/** Runs of the lending pool that show what its books allow. */
module LoanCases {
  import opened Arithmetic
  import opened Common
  import opened Constants
  import opened Loans
  import opened LoanBooks
  import opened LoanEffects
  import opened LoanRuns
  import opened LoanIndex
  import HalfUp

  const RESERVE: Address := "WETH"
  const NFT := Nft("BAYC", 1)
  const BORROWER: Address := "borrower"
  const BIDDER: Address := "bidder"
  const NO_INTEREST := Accrual(0, 0, 0)

  const INIT := InitReserveOp(RESERVE)
  const BORROW := BorrowOp(BORROWER, RESERVE, 1, NFT, NO_INTEREST, true)

  const OPEN_LOAN := NO_LOAN.(state := Active, borrower := BORROWER, nft := NFT, reserve := RESERVE, scaledAmount := 1)
  const OPENED := Pool([NO_LOAN, OPEN_LOAN], map[NFT := 1], map[NFT.asset := 1], map[(BORROWER, NFT.asset) := 1],
                       map[(BORROWER, RESERVE) := 1], map[RESERVE := 1], map[RESERVE := RAY], map[])

  lemma OneMore(ops: seq<Op>, op: Op)
    ensures Books(ops + [op]) == After(Books(ops), op)
  {
    EmptyBooks();
    assert (ops + [op])[..|ops|] == ops;
  }

  lemma OpenedIsReached()
    ensures Books([INIT, BORROW]) == OPENED
  {
    hide Inv, Borrow;
    OneMore([], INIT);
    OneMore([INIT], BORROW);
    assert [] + [INIT] == [INIT] && [INIT] + [BORROW] == [INIT, BORROW];
    assert Books([]) == EMPTY;
    assert Apply(EMPTY, INIT) == Done(EMPTY.(index := map[RESERVE := RAY]));
    FirstBorrow(Books([INIT]));
  }

  lemma FirstBorrow(p: Pool)
    requires p == EMPTY.(index := map[RESERVE := RAY])
    ensures Borrow(p, BORROWER, RESERVE, 1, NFT, NO_INTEREST, true) == Done(OPENED)
  {
    QuotientUnique(1 * RAY + RAY / 2, RAY, 1);
    assert p.loans + [OPEN_LOAN] == OPENED.loans;
  }

  // Half a ray of interest, and a repay of one unit out of the two then owed.
  const REPAY := RepayOp(NFT, 1, Accrual(1, HALF_RAY * SECONDS_PER_YEAR, 1), true)

  /** A partial repay can leave a loan active with nothing owed: it is a run. */
  lemma PartialRepayCanEmptyALoan()
    ensures var p := Books([INIT, BORROW, REPAY]);
            && |p.loans| == 2 && p.loans[1] == OPEN_LOAN.(scaledAmount := 0) && Get(p.loanIds, NFT) == 1
            && forall sum, later, admitted :: Repay(p, NFT, sum, later, admitted).Reverted?
  {
    OpenedIsReached();
    OneMore([INIT, BORROW], REPAY);
    assert [INIT, BORROW] + [REPAY] == [INIT, BORROW, REPAY];
    HalfMore(REPAY.accrual);
    PartialRepayLeavesDebtIff(OPENED, NFT, 1, REPAY.accrual);
    var p := Repay(OPENED, NFT, 1, REPAY.accrual, true).value;
    RepayEffect(OPENED, NFT, 1, REPAY.accrual, true, p);
    WhatIsLeft(p, 1, NFT);
  }

  lemma HalfMore(accrual: Accrual)
    requires accrual == REPAY.accrual
    ensures UpdateState(OPENED, RESERVE, accrual).Done? && NewIndex(OPENED, RESERVE, accrual) == RAY + HALF_RAY
    ensures RayMul(1, RAY + HALF_RAY) == 2
  {
    QuotientUnique(HALF_RAY * SECONDS_PER_YEAR, SECONDS_PER_YEAR, HALF_RAY);
    QuotientUnique((RAY + HALF_RAY) * RAY + RAY / 2, RAY, RAY + HALF_RAY);
    QuotientUnique(1 * (RAY + HALF_RAY) + RAY / 2, RAY, 2);
  }

  const WORTHLESS := Quote(0, 0, 0)
  const DURING := Timing(1, 0, 0, 1)
  const OWN_BID := BidOp(NFT, POOL, 1, NO_INTEREST, WORTHLESS, DURING, true)
  const NEXT_BID := BidOp(NFT, BIDDER, 2, NO_INTEREST, WORTHLESS, DURING, true)

  const LED := OPEN_LOAN.(state := Auction, bidStartTimestamp := 1, bidder := POOL, bidPrice := 1, bidBorrowAmount := 1,
                          firstBidder := POOL)

  lemma OwnBidIsAccepted()
    ensures Inv(OPENED) && MayBid(OPENED, NFT, POOL, 1, NO_INTEREST, WORTHLESS, DURING)
    ensures NewIndex(OPENED, RESERVE, NO_INTEREST) == RAY
  {
    hide Balanced, RayMul, PercentMul;
    OpenedIsReached();
    SmallSums();
  }

  lemma OwnBidStands()
    ensures var p := Books([INIT, BORROW, OWN_BID]);
            && p.loans == [NO_LOAN, LED] && Get(p.loanIds, NFT) == 1
            && RESERVE in p.index && p.index[RESERVE] == RAY && Get(p.escrow, RESERVE) == 1
  {
    hide Balanced, Bid, MayBid, RayMul, PercentMul;
    OpenedIsReached();
    OneMore([INIT, BORROW], OWN_BID);
    assert [INIT, BORROW] + [OWN_BID] == [INIT, BORROW, OWN_BID];
    OwnBidIsAccepted();
    SmallSums();
    BidIff(OPENED, NFT, POOL, 1, NO_INTEREST, WORTHLESS, DURING, true);
    BidTakesTheLead(OPENED, NFT, POOL, 1, NO_INTEREST, WORTHLESS, DURING, true, Books([INIT, BORROW, OWN_BID]));
    IndexAfter(OPENED, OWN_BID, Books([INIT, BORROW, OWN_BID]));
  }

  /** A bid on behalf of the pool itself stays with the pool when it is outbid. */
  lemma PoolKeepsItsOwnBid()
    ensures var p := Books([INIT, BORROW, OWN_BID, NEXT_BID]);
            Total(Bids(RESERVE), p.loans) == 2 && Get(p.escrow, RESERVE) == 3
  {
    hide Balanced, Bid, RayMul, PercentMul;
    var p, q := Books([INIT, BORROW, OWN_BID]), Books([INIT, BORROW, OWN_BID, NEXT_BID]);
    OwnBidStands();
    OneMore([INIT, BORROW, OWN_BID], NEXT_BID);
    assert [INIT, BORROW, OWN_BID] + [NEXT_BID] == [INIT, BORROW, OWN_BID, NEXT_BID];
    SmallSums();
    BidIff(p, NFT, BIDDER, 2, NO_INTEREST, WORTHLESS, DURING, true);
    BidTakesTheLead(p, NFT, BIDDER, 2, NO_INTEREST, WORTHLESS, DURING, true, q);
    TotalOfOne(q.loans);
  }

  // Half a ray of interest again, a bid of the two then owed, and a redeem of both: nine tenths of two round to two.
  const BID := BidOp(NFT, BIDDER, 2, REPAY.accrual, WORTHLESS, DURING, true)
  const REDEEM := RedeemOp(NFT, 2, 0, NO_TERMS, NO_INTEREST, DURING, true)
  const NO_TERMS := Terms(0, 0, 0)

  const BID_ON := OPEN_LOAN.(state := Auction, bidStartTimestamp := 1, bidder := BIDDER, bidPrice := 2,
                             bidBorrowAmount := 2, firstBidder := BIDDER)

  lemma BidIsAccepted()
    ensures Inv(OPENED) && MayBid(OPENED, NFT, BIDDER, 2, REPAY.accrual, WORTHLESS, DURING)
  {
    hide Balanced, RayMul, PercentMul, UpdateState;
    OpenedIsReached();
    SmallSums();
    HalfMore(REPAY.accrual);
  }

  lemma BidStands()
    ensures var p := Books([INIT, BORROW, BID]);
            && p.loans == [NO_LOAN, BID_ON] && Get(p.loanIds, NFT) == 1
            && RESERVE in p.index && p.index[RESERVE] == RAY + HALF_RAY
  {
    hide Balanced, Bid, MayBid, RayMul, PercentMul, UpdateState;
    OpenedIsReached();
    OneMore([INIT, BORROW], BID);
    assert [INIT, BORROW] + [BID] == [INIT, BORROW, BID];
    BidIsAccepted();
    HalfMore(REPAY.accrual);
    BidIff(OPENED, NFT, BIDDER, 2, REPAY.accrual, WORTHLESS, DURING, true);
    BidTakesTheLead(OPENED, NFT, BIDDER, 2, REPAY.accrual, WORTHLESS, DURING, true, Books([INIT, BORROW, BID]));
    IndexAfter(OPENED, BID, Books([INIT, BORROW, BID]));
  }

  /** So can a redeem, in spite of its cap. */
  lemma RedeemCanEmptyALoan()
    ensures var p := Books([INIT, BORROW, BID, REDEEM]);
            && |p.loans| == 2 && p.loans[1] == OPEN_LOAN.(scaledAmount := 0) && Get(p.loanIds, NFT) == 1
  {
    hide Balanced, Redeem, RayMul, RayDiv, PercentMul;
    var p, q := Books([INIT, BORROW, BID]), Books([INIT, BORROW, BID, REDEEM]);
    BidStands();
    OneMore([INIT, BORROW, BID], REDEEM);
    assert [INIT, BORROW, BID] + [REDEEM] == [INIT, BORROW, BID, REDEEM];
    HalfMore(REPAY.accrual);
    TwoWhole();
    RedeemIff(p, NFT, 2, 0, NO_TERMS, NO_INTEREST, DURING, true);
    RedeemEffect(p, NFT, 2, 0, NO_TERMS, NO_INTEREST, DURING, true, q);
    IndexAfter(p, REDEEM, q);
  }

  lemma TwoWhole()
    ensures PercentMul(2, 9_000) == 2 && PercentMul(2, 0) == 0 && RayDiv(2, RAY + HALF_RAY) == 1
  {
    QuotientUnique(2 * 9_000 + 5_000, PERCENTAGE_FACTOR, 2);
    QuotientUnique(2 * 0 + 5_000, PERCENTAGE_FACTOR, 0);
    QuotientUnique(2 * RAY + (RAY + HALF_RAY) / 2, RAY + HALF_RAY, 1);
  }

  lemma SmallSums()
    ensures RayMul(1, RAY) == 1 && PercentMul(0, 0) == 0 && PercentMul(0, PERCENTAGE_FACTOR) == 0 &&
            PercentMul(1, ONE_PERCENT) == 0
  {
    hide RayMul, PercentMul;
    AtOneRay(1);
    RoundsToNothing(0, 0);
    RoundsToNothing(0, PERCENTAGE_FACTOR);
    RoundsToNothing(1, ONE_PERCENT);
  }

  lemma AtOneRay(x: nat)
    ensures RayMul(x, RAY) == x
  {
    HalfUp.MulByUnit(RAY, x);
  }

  lemma RoundsToNothing(x: nat, a: nat)
    requires 2 * (x * a) < PERCENTAGE_FACTOR
    ensures PercentMul(x, a) == 0
  {
    QuotientUnique(x * a + PERCENTAGE_FACTOR / 2, PERCENTAGE_FACTOR, 0);
  }

  lemma TotalOfOne(loans: seq<Loan>)
    requires |loans| == 2 && loans[0] == NO_LOAN
    ensures Total(Bids(RESERVE), loans) == Share(Bids(RESERVE), loans[1])
  {
    assert loans[..1][..0] == [];
    assert Total(Bids(RESERVE), loans[..1]) == 0;
  }
}
