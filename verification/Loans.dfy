/** The lending pool's books: loans against NFTs, scaled debts, collateral counts and escrowed bids, and the
    five transactions that move them. */
module Loans {
  import opened Arithmetic
  import opened Common
  import opened Constants
  import HalfUp

  type Timestamp = t: int | t > 0 witness 1

  const POOL: Address := "LendPool" // the pool's own address
  const SECONDS_PER_YEAR: nat := 31_536_000
  const MAX_UINT128: nat := 0xFFFF_FFFF_FFFF_FFFF_FFFF_FFFF_FFFF_FFFF
  const ONE_PERCENT: nat := 100
  const TEN_PERCENT: nat := 1_000

  datatype LoanState = Unset | Active | Auction | Repaid | Defaulted

  datatype Nft = Nft(asset: Address, tokenId: nat)

  datatype Loan = Loan(state: LoanState, borrower: Address, nft: Nft, reserve: Address, scaledAmount: nat,
                       bidStartTimestamp: nat, bidder: Address, bidPrice: nat, bidBorrowAmount: nat,
                       firstBidder: Address)
  {
    predicate Live() {
      state == Active || state == Auction
    }
  }

  const NO_LOAN := Loan(Unset, ZERO_ADDRESS, Nft(ZERO_ADDRESS, 0), ZERO_ADDRESS, 0, 0, ZERO_ADDRESS, 0, 0, ZERO_ADDRESS)

  datatype Error =
    | VL_INVALID_ONBEHALFOF_ADDRESS | VL_INVALID_RESERVE_ADDRESS | VL_INVALID_AMOUNT | VL_NO_DEBT_OF_SELECTED_TYPE
    | VL_SPECIFIED_RESERVE_NOT_BORROWED_BY_USER | VL_SPECIFIED_LOAN_NOT_BORROWED_BY_USER
    | VL_NOT_ADMITTED // any validation that reads configuration, oracles or allowances
    | RL_VARIABLE_BORROW_INDEX_OVERFLOW | RL_RESERVE_ALREADY_INITIALIZED
    | LP_NFT_IS_NOT_USED_AS_COLLATERAL | LP_BORROW_NOT_EXCEED_LIQUIDATION_THRESHOLD
    | LP_AMOUNT_LESS_THAN_REDEEM_THRESHOLD | LP_AMOUNT_GREATER_THAN_MAX_REPAY | LP_AMOUNT_LESS_THAN_EXTRA_DEBT
    | LP_INVALIED_USER_NFT_AMOUNT | LP_INVALIED_NFT_AMOUNT
    | LPL_INVALID_LOAN_STATE | LPL_INVALID_LOAN_AMOUNT | LPL_INVALID_TAKEN_AMOUNT | LPL_AMOUNT_OVERFLOW
    | LPL_BID_PRICE_LESS_THAN_BORROW | LPL_BID_PRICE_LESS_THAN_LIQUIDATION_PRICE | LPL_BID_PRICE_LESS_THAN_HIGHEST_PRICE
    | LPL_BID_AUCTION_DURATION_HAS_END | LPL_BID_AUCTION_DURATION_NOT_END | LPL_BID_REDEEM_DURATION_HAS_END
    | LPL_INVALID_BIDDER_ADDRESS | LPL_INVALID_BID_FINE
    | CT_INVALID_MINT_AMOUNT | CT_INVALID_BURN_AMOUNT
    | ERC20_BURN_EXCEEDS_BALANCE | ERC20_TRANSFER_EXCEEDS_BALANCE

  // A transaction either completes or leaves everything as it was.
  datatype Result<+T> = Done(value: T) | Reverted(error: Error) {
    predicate IsFailure() {
      Reverted?
    }

    function PropagateFailure<U>(): Result<U>
      requires Reverted?
    {
      Reverted(error)
    }

    function Extract(): T
      requires Done?
    {
      value
    }
  }

  datatype Check = Pass | Fail(error: Error) {
    predicate IsFailure() {
      Fail?
    }

    function PropagateFailure<U>(): Result<U>
      requires Fail?
    {
      Reverted(error)
    }
  }

  function Require(condition: bool, error: Error): Check {
    if condition then Pass else Fail(error)
  }

  // Loans are numbered from one, so the first place is never a loan's. A reserve is initialised once it has
  // a borrow index. The escrow is what the pool itself holds of a reserve's token.
  datatype Pool = Pool(loans: seq<Loan>, loanIds: map<Nft, nat>, totalCollateral: map<Address, nat>,
                       userCollateral: map<(Address, Address), nat>, debts: map<(Address, Address), nat>,
                       supply: map<Address, nat>, index: map<Address, nat>, escrow: map<Address, nat>)

  function Get<K>(m: map<K, nat>, k: K): nat {
    if k in m then m[k] else 0
  }

  const EMPTY := Pool([NO_LOAN], map[], map[], map[], map[], map[], map[], map[])

  function RayMul(x: nat, y: nat): nat {
    HalfUp.Mul(RAY, x, y)
  }

  function RayDiv(x: nat, y: nat): nat
    requires y > 0
  {
    HalfUp.Div(RAY, x, y)
  }

  function PercentMul(x: nat, y: nat): nat {
    HalfUp.Mul(PERCENTAGE_FACTOR, x, y)
  }

  function PercentDiv(x: nat, y: nat): nat
    requires y > 0
  {
    HalfUp.Div(PERCENTAGE_FACTOR, x, y)
  }

  // MathUtils.calculateCompoundedInterest
  function CompoundedInterest(rate: nat, exp: nat): (factor: nat)
    ensures factor >= RAY
  {
    if exp == 0 then
      RAY
    else
      var ratePerSecond := rate / SECONDS_PER_YEAR;
      var basePowerTwo := RayMul(ratePerSecond, ratePerSecond);
      var basePowerThree := RayMul(basePowerTwo, ratePerSecond);
      RAY + Times(ratePerSecond, exp) + SecondTerm(exp, basePowerTwo) + ThirdTerm(exp, basePowerThree)
  }

  function Times(x: nat, y: nat): nat {
    MulOrder(0, x, y);
    x * y
  }

  function SecondTerm(exp: nat, basePowerTwo: nat): nat
    requires exp > 0
  {
    Times(Times(exp, exp - 1), basePowerTwo) / 2
  }

  function ThirdTerm(exp: nat, basePowerThree: nat): nat
    requires exp > 0
  {
    var expMinusTwo: nat := if exp > 2 then exp - 2 else 0;
    Times(Times(Times(exp, exp - 1), expMinusTwo), basePowerThree) / 6
  }

  // The reserve's rates and the seconds since its last update, when a transaction reaches it.
  datatype Accrual = Accrual(liquidityRate: nat, borrowRate: nat, elapsed: nat)

  // The borrow-index half of ReserveLogic.updateState.
  function UpdateState(p: Pool, reserve: Address, accrual: Accrual): Result<Pool>
    requires reserve in p.index
  {
    if accrual.liquidityRate > 0 && Get(p.supply, reserve) != 0 then
      var newIndex := RayMul(CompoundedInterest(accrual.borrowRate, accrual.elapsed), p.index[reserve]);
      :- Require(newIndex <= MAX_UINT128, RL_VARIABLE_BORROW_INDEX_OVERFLOW);
      Done(p.(index := p.index[reserve := newIndex]))
    else
      Done(p)
  }

  // DebtToken.mint and DebtToken.burn
  function MintDebt(p: Pool, user: Address, reserve: Address, amount: nat): Result<Pool>
    requires reserve in p.index && p.index[reserve] > 0
  {
    var scaled := RayDiv(amount, p.index[reserve]);
    :- Require(scaled != 0, CT_INVALID_MINT_AMOUNT);
    Done(p.(debts := p.debts[(user, reserve) := Get(p.debts, (user, reserve)) + scaled],
            supply := p.supply[reserve := Get(p.supply, reserve) + scaled]))
  }

  function BurnDebt(p: Pool, user: Address, reserve: Address, amount: nat): Result<Pool>
    requires reserve in p.index && p.index[reserve] > 0
  {
    var scaled := RayDiv(amount, p.index[reserve]);
    :- Require(scaled != 0, CT_INVALID_BURN_AMOUNT);
    :- Require(scaled <= Get(p.debts, (user, reserve)) && scaled <= Get(p.supply, reserve), ERC20_BURN_EXCEEDS_BALANCE);
    Done(p.(debts := p.debts[(user, reserve) := Get(p.debts, (user, reserve)) - scaled],
            supply := p.supply[reserve := Get(p.supply, reserve) - scaled]))
  }

  // Token transfers from and to the pool's own account.
  function PayOut(p: Pool, reserve: Address, amount: nat): Result<Pool> {
    var held := Get(p.escrow, reserve);
    :- Require(amount <= held, ERC20_TRANSFER_EXCEEDS_BALANCE);
    Done(p.(escrow := p.escrow[reserve := held - amount]))
  }

  function PayIn(p: Pool, reserve: Address, amount: nat): Pool {
    p.(escrow := p.escrow[reserve := Get(p.escrow, reserve) + amount])
  }

  // Transfers to a user, who may be the pool itself: it then keeps what it sends and receives what it is owed.
  function PayTo(p: Pool, reserve: Address, to: Address, amount: nat): Result<Pool> {
    var paid :- PayOut(p, reserve, amount);
    Done(if to == POOL then p else paid)
  }

  function CollectFor(p: Pool, reserve: Address, to: Address, amount: nat): Pool {
    if to == POOL then PayIn(p, reserve, amount) else p
  }

  predicate HasLoan(p: Pool, id: nat) {
    0 < id < |p.loans| && p.loans[id].reserve in p.index && p.index[p.loans[id].reserve] > 0
  }

  // LendPoolLoan.getLoanReserveBorrowAmount
  function BorrowAmount(p: Pool, id: nat): nat
    requires HasLoan(p, id)
  {
    var loan := p.loans[id];
    if loan.scaledAmount == 0 then 0 else RayMul(loan.scaledAmount, p.index[loan.reserve])
  }

  // LendPoolLoan.createLoan
  function CreateLoan(p: Pool, onBehalfOf: Address, nft: Nft, reserve: Address, amount: nat): Pool
    requires reserve in p.index && p.index[reserve] > 0
  {
    var loan := NO_LOAN.(state := Active, borrower := onBehalfOf, nft := nft, reserve := reserve,
                         scaledAmount := RayDiv(amount, p.index[reserve]));
    p.(loans := p.loans + [loan],
       loanIds := p.loanIds[nft := |p.loans|],
       userCollateral :=
         p.userCollateral[(onBehalfOf, nft.asset) := Get(p.userCollateral, (onBehalfOf, nft.asset)) + 1],
       totalCollateral := p.totalCollateral[nft.asset := Get(p.totalCollateral, nft.asset) + 1])
  }

  // LendPoolLoan.updateLoan
  function UpdateLoan(p: Pool, id: nat, amountAdded: nat, amountTaken: nat): Result<Pool>
    requires HasLoan(p, id)
  {
    var loan := p.loans[id];
    var index := p.index[loan.reserve];
    var added, taken := RayDiv(amountAdded, index), RayDiv(amountTaken, index);
    :- Require(loan.state == Active, LPL_INVALID_LOAN_STATE);
    :- Require(amountAdded == 0 || added != 0, LPL_INVALID_LOAN_AMOUNT);
    var more := loan.scaledAmount + if amountAdded > 0 then added else 0;
    :- Require(amountTaken == 0 || taken != 0, LPL_INVALID_TAKEN_AMOUNT);
    :- Require(amountTaken == 0 || more >= taken, LPL_AMOUNT_OVERFLOW);
    var less: nat := if amountTaken > 0 then more - taken else more;
    Done(p.(loans := p.loans[id := loan.(scaledAmount := less)]))
  }

  // The part repayLoan and liquidateLoan share: the loan reaches a final state and lets go of its NFT.
  function CloseLoan(p: Pool, id: nat, closed: Loan): Result<Pool>
    requires HasLoan(p, id)
  {
    var loan := p.loans[id];
    var user := (loan.borrower, loan.nft.asset);
    :- Require(Get(p.userCollateral, user) >= 1, LP_INVALIED_USER_NFT_AMOUNT);
    :- Require(Get(p.totalCollateral, loan.nft.asset) >= 1, LP_INVALIED_NFT_AMOUNT);
    Done(p.(loans := p.loans[id := closed],
            loanIds := p.loanIds[loan.nft := 0],
            userCollateral := p.userCollateral[user := Get(p.userCollateral, user) - 1],
            totalCollateral := p.totalCollateral[loan.nft.asset := Get(p.totalCollateral, loan.nft.asset) - 1]))
  }

  // ReserveLogic.init
  function InitReserve(p: Pool, reserve: Address): Result<Pool> {
    var known := reserve in p.index;
    :- Require(!known, RL_RESERVE_ALREADY_INITIALIZED);
    Done(p.(index := p.index[reserve := RAY]))
  }

  // The part of a borrow that changes the books: a loan is opened or increased, and debt is minted.
  function BorrowLoan(p: Pool, id: nat, user: Address, reserve: Address, amount: nat, nft: Nft): Result<Pool>
    requires reserve in p.index && p.index[reserve] > 0 && (id == 0 || HasLoan(p, id))
  {
    var p2 :- if id == 0 then Done(CreateLoan(p, user, nft, reserve, amount)) else UpdateLoan(p, id, amount, 0);
    MintDebt(p2, user, reserve, amount)
  }

  /** BorrowLogic.executeBorrow. */
  function Borrow(p: Pool, onBehalfOf: Address, reserve: Address, amount: nat, nft: Nft,
                  accrual: Accrual, admitted: bool): Result<Pool>
    requires Readable(p)
  {
    var id := Get(p.loanIds, nft);
    :- Require(onBehalfOf != ZERO_ADDRESS, VL_INVALID_ONBEHALFOF_ADDRESS);
    :- Require(reserve in p.index, VL_INVALID_RESERVE_ADDRESS);
    var p1 :- UpdateState(p, reserve, accrual);
    UpdateStateReadable(p, reserve, accrual);
    :- Require(amount > 0, VL_INVALID_AMOUNT);
    :- Require(id == 0 || p1.loans[id].state == Active, LPL_INVALID_LOAN_STATE);
    :- Require(id == 0 || p1.loans[id].reserve == reserve, VL_SPECIFIED_RESERVE_NOT_BORROWED_BY_USER);
    :- Require(id == 0 || p1.loans[id].borrower == onBehalfOf, VL_SPECIFIED_LOAN_NOT_BORROWED_BY_USER);
    :- Require(admitted, VL_NOT_ADMITTED);
    BorrowLoan(p1, id, onBehalfOf, reserve, amount, nft)
  }

  // The part of a repay that changes the books: the loan is reduced or closed, and debt is burnt.
  function RepayLoan(p: Pool, id: nat, amount: nat): Result<Pool>
    requires HasLoan(p, id)
  {
    var loan, borrowAmount := p.loans[id], BorrowAmount(p, id);
    var repayAmount := if amount < borrowAmount then amount else borrowAmount;
    var p2 :- if amount < borrowAmount then UpdateLoan(p, id, 0, repayAmount)
              else CloseLoan(p, id, loan.(state := Repaid));
    BurnDebt(p2, loan.borrower, loan.reserve, repayAmount)
  }

  /** BorrowLogic.executeRepay: part of the debt, or all of it and the loan is closed. */
  function Repay(p: Pool, nft: Nft, amount: nat, accrual: Accrual, admitted: bool): Result<Pool>
    requires Readable(p)
  {
    var id := Get(p.loanIds, nft);
    :- Require(id != 0, LP_NFT_IS_NOT_USED_AS_COLLATERAL);
    var loan := p.loans[id];
    var p1 :- UpdateState(p, loan.reserve, accrual);
    UpdateStateReadable(p, loan.reserve, accrual);
    var borrowAmount := BorrowAmount(p1, id);
    :- Require(amount > 0, VL_INVALID_AMOUNT);
    :- Require(borrowAmount > 0, VL_NO_DEBT_OF_SELECTED_TYPE);
    :- Require(loan.state == Active, LPL_INVALID_LOAN_STATE);
    :- Require(admitted, VL_NOT_ADMITTED);
    RepayLoan(p1, id, amount)
  }

  // What an auction or liquidation reads from the oracles and the NFT's configuration.
  datatype Quote = Quote(nftPriceInReserve: nat, liquidationThreshold: nat, liquidationBonus: nat)

  // When an auction may be joined, redeemed or settled.
  datatype Timing = Timing(now: Timestamp, pauseStart: nat, pauseDuration: nat, hours: nat)

  function EndTime(loan: Loan, t: Timing): nat {
    loan.bidStartTimestamp +
    (if t.pauseDuration > 0 && loan.bidStartTimestamp <= t.pauseStart then t.pauseDuration else 0) + t.hours * 3600
  }

  // The prices of GenericLogic.calculateLoanLiquidatePrice.
  function ThresholdPrice(q: Quote): nat {
    PercentMul(q.nftPriceInReserve, q.liquidationThreshold)
  }

  function LiquidatePrice(q: Quote, borrowAmount: nat): nat {
    var discounted := if q.liquidationBonus < PERCENTAGE_FACTOR
                      then PercentMul(q.nftPriceInReserve, PERCENTAGE_FACTOR - q.liquidationBonus) else 0;
    if discounted < borrowAmount then borrowAmount else discounted
  }

  // LendPoolLoan.auctionLoan
  function AuctionLoan(p: Pool, id: nat, onBehalfOf: Address, bidPrice: nat, borrowAmount: nat,
                       now: Timestamp): Result<Pool>
    requires HasLoan(p, id)
  {
    var loan := p.loans[id];
    var begun :- if loan.bidStartTimestamp == 0 then
                    :- Require(loan.state == Active, LPL_INVALID_LOAN_STATE);
                    Done(loan.(state := Auction, bidStartTimestamp := now, firstBidder := onBehalfOf))
                  else
                    :- Require(loan.state == Auction, LPL_INVALID_LOAN_STATE);
                    :- Require(bidPrice > loan.bidPrice, LPL_BID_PRICE_LESS_THAN_HIGHEST_PRICE);
                    Done(loan);
    Done(p.(loans := p.loans[id := begun.(bidBorrowAmount := borrowAmount, bidder := onBehalfOf,
                                          bidPrice := bidPrice)]))
  }

  // The transfers of a bid: the new one comes in and the old one goes back.
  function Outbid(p: Pool, loan: Loan, bidPrice: nat): Result<Pool> {
    var paid := PayIn(p, loan.reserve, bidPrice);
    if loan.bidder != ZERO_ADDRESS then PayTo(paid, loan.reserve, loan.bidder, loan.bidPrice) else Done(paid)
  }

  /** LiquidateLogic.executeAuction: the first bid opens the auction, a later one pays its predecessor back. */
  function Bid(p: Pool, nft: Nft, onBehalfOf: Address, bidPrice: nat, accrual: Accrual, q: Quote, t: Timing,
               admitted: bool): Result<Pool>
    requires Readable(p)
  {
    var id := Get(p.loanIds, nft);
    :- Require(onBehalfOf != ZERO_ADDRESS, VL_INVALID_ONBEHALFOF_ADDRESS);
    :- Require(id != 0, LP_NFT_IS_NOT_USED_AS_COLLATERAL);
    var loan := p.loans[id];
    :- Require(loan.Live(), LPL_INVALID_LOAN_STATE);
    :- Require(bidPrice > 0, VL_INVALID_AMOUNT);
    :- Require(admitted, VL_NOT_ADMITTED);
    var p1 :- UpdateState(p, loan.reserve, accrual);
    UpdateStateReadable(p, loan.reserve, accrual);
    var borrowAmount := BorrowAmount(p1, id);
    :- BidIsHighEnough(loan, bidPrice, borrowAmount, q, t);
    var p2 :- AuctionLoan(p1, id, onBehalfOf, bidPrice, borrowAmount, t.now);
    Outbid(p2, loan, bidPrice)
  }

  function BidIsHighEnough(loan: Loan, bidPrice: nat, borrowAmount: nat, q: Quote, t: Timing): Check {
    if loan.state == Active then
      if !(borrowAmount > ThresholdPrice(q)) then Fail(LP_BORROW_NOT_EXCEED_LIQUIDATION_THRESHOLD)
      else if !(bidPrice >= borrowAmount) then Fail(LPL_BID_PRICE_LESS_THAN_BORROW)
      else Require(bidPrice >= LiquidatePrice(q, borrowAmount), LPL_BID_PRICE_LESS_THAN_LIQUIDATION_PRICE)
    else
      if !(bidPrice >= borrowAmount) then Fail(LPL_BID_PRICE_LESS_THAN_BORROW)
      else if !(t.now <= EndTime(loan, t)) then Fail(LPL_BID_AUCTION_DURATION_HAS_END)
      else Require(bidPrice >= loan.bidPrice + PercentMul(borrowAmount, ONE_PERCENT),
                   LPL_BID_PRICE_LESS_THAN_HIGHEST_PRICE)
  }

  // LendPoolLoan.redeemLoan
  function RedeemLoan(p: Pool, id: nat, amountTaken: nat): Result<Pool>
    requires HasLoan(p, id)
  {
    var loan := p.loans[id];
    var taken := RayDiv(amountTaken, p.index[loan.reserve]);
    :- Require(loan.state == Auction, LPL_INVALID_LOAN_STATE);
    :- Require(taken != 0, LPL_INVALID_TAKEN_AMOUNT);
    :- Require(loan.scaledAmount >= taken, LPL_AMOUNT_OVERFLOW);
    Done(p.(loans := p.loans[id := loan.(scaledAmount := loan.scaledAmount - taken, state := Active,
                                         bidStartTimestamp := 0, bidBorrowAmount := 0, bidder := ZERO_ADDRESS,
                                         bidPrice := 0, firstBidder := ZERO_ADDRESS)]))
  }

  // What a redeem reads from the NFT's configuration; the least fine is a price in the reserve's token.
  datatype Terms = Terms(redeemThreshold: nat, redeemFine: nat, minBidFine: nat)

  // The fine of GenericLogic.calculateLoanBidFine.
  function BidFine(loan: Loan, borrowAmount: nat, terms: Terms): nat {
    if loan.bidPrice == 0 then
      0
    else
      var share := PercentMul(borrowAmount, terms.redeemFine);
      if share < terms.minBidFine then terms.minBidFine else share
  }

  // The transfers of a redeem: the bid goes back and the first bidder gets the fine.
  function Refund(p: Pool, loan: Loan, fine: nat): Result<Pool> {
    var paid :- PayTo(p, loan.reserve, loan.bidder, loan.bidPrice);
    Done(CollectFor(paid, loan.reserve, loan.firstBidder, fine))
  }

  /** LiquidateLogic.executeRedeem: the borrower repays part of the debt, the highest bid is returned, and the
      first bidder gets the fine. */
  function Redeem(p: Pool, nft: Nft, amount: nat, maxFine: nat, terms: Terms, accrual: Accrual, t: Timing,
                  admitted: bool): Result<Pool>
    requires Readable(p)
  {
    var id := Get(p.loanIds, nft);
    :- Require(id != 0, LP_NFT_IS_NOT_USED_AS_COLLATERAL);
    var loan := p.loans[id];
    :- Require(loan.state == Auction, LPL_INVALID_LOAN_STATE);
    :- Require(loan.bidder != ZERO_ADDRESS, LPL_INVALID_BIDDER_ADDRESS);
    :- Require(amount > 0, VL_INVALID_AMOUNT);
    :- Require(admitted, VL_NOT_ADMITTED);
    :- Require(t.now <= EndTime(loan, t), LPL_BID_REDEEM_DURATION_HAS_END);
    var p1 :- UpdateState(p, loan.reserve, accrual);
    UpdateStateReadable(p, loan.reserve, accrual);
    var borrowAmount := BorrowAmount(p1, id);
    var fine := BidFine(loan, borrowAmount, terms);
    :- CanRedeem(amount, maxFine, borrowAmount, fine, terms.redeemThreshold);
    var p2 :- RedeemLoan(p1, id, amount);
    var p3 :- BurnDebt(p2, loan.borrower, loan.reserve, amount);
    Refund(p3, loan, fine)
  }

  function CanRedeem(amount: nat, maxFine: nat, borrowAmount: nat, fine: nat, redeemThreshold: nat): Check {
    if !(fine <= maxFine) then Fail(LPL_INVALID_BID_FINE)
    else if !(amount >= PercentMul(borrowAmount, redeemThreshold)) then Fail(LP_AMOUNT_LESS_THAN_REDEEM_THRESHOLD)
    else Require(amount <= PercentMul(borrowAmount, PERCENTAGE_FACTOR - TEN_PERCENT), LP_AMOUNT_GREATER_THAN_MAX_REPAY)
  }

  // The part of a liquidation that changes the books.
  function LiquidateLoan(p: Pool, id: nat): Result<Pool>
    requires HasLoan(p, id)
  {
    var loan, borrowAmount := p.loans[id], BorrowAmount(p, id);
    var p2 :- CloseLoan(p, id, loan.(state := Defaulted, bidBorrowAmount := borrowAmount));
    var p3 :- BurnDebt(p2, loan.borrower, loan.reserve, borrowAmount);
    Settle(p3, loan.reserve, loan.borrower, loan.bidPrice, borrowAmount)
  }

  /** LiquidateLogic.executeLiquidate: the highest bid, topped up if it falls short, pays the debt and the
      borrower gets what is left. */
  function Liquidate(p: Pool, nft: Nft, amount: nat, accrual: Accrual, t: Timing, admitted: bool): Result<Pool>
    requires Readable(p)
  {
    var id := Get(p.loanIds, nft);
    :- Require(id != 0, LP_NFT_IS_NOT_USED_AS_COLLATERAL);
    var loan := p.loans[id];
    :- Require(loan.state == Auction, LPL_INVALID_LOAN_STATE);
    :- Require(loan.bidder != ZERO_ADDRESS, LPL_INVALID_BIDDER_ADDRESS);
    :- Require(admitted, VL_NOT_ADMITTED);
    :- Require(t.now > EndTime(loan, t), LPL_BID_AUCTION_DURATION_NOT_END);
    var p1 :- UpdateState(p, loan.reserve, accrual);
    UpdateStateReadable(p, loan.reserve, accrual);
    var borrowAmount := BorrowAmount(p1, id);
    :- Require(amount >= ExtraDebt(loan.bidPrice, borrowAmount), LP_AMOUNT_LESS_THAN_EXTRA_DEBT);
    LiquidateLoan(p1, id)
  }

  function ExtraDebt(bidPrice: nat, borrowAmount: nat): nat {
    if bidPrice < borrowAmount then borrowAmount - bidPrice else 0
  }

  function Remainder(bidPrice: nat, borrowAmount: nat): nat {
    if bidPrice > borrowAmount then bidPrice - borrowAmount else 0
  }

  // The token transfers at the end of a liquidation: extra debt in, debt out, remainder to the borrower.
  function Settle(p: Pool, reserve: Address, borrower: Address, bidPrice: nat, borrowAmount: nat): Result<Pool> {
    var extraDebt, remain := ExtraDebt(bidPrice, borrowAmount), Remainder(bidPrice, borrowAmount);
    var topped := if extraDebt > 0 then PayIn(p, reserve, extraDebt) else p;
    var paid :- PayOut(topped, reserve, borrowAmount);
    if remain > 0 then PayTo(paid, reserve, borrower, remain) else Done(paid)
  }

  // ---------------------------------------------------------------- the books' invariant

  // Everything the books keep a running figure of.
  datatype Measure =
    | UserDebt(user: Address, reserve: Address)
    | TotalDebt(reserve: Address)
    | UserNfts(user: Address, asset: Address)
    | TotalNfts(asset: Address)
    | Bids(reserve: Address)

  // A loan's share of the figure.
  function Share(m: Measure, l: Loan): nat {
    match m
    case UserDebt(user, reserve) => if l.Live() && l.borrower == user && l.reserve == reserve then l.scaledAmount else 0
    case TotalDebt(reserve) => if l.Live() && l.reserve == reserve then l.scaledAmount else 0
    case UserNfts(user, asset) => if l.Live() && l.borrower == user && l.nft.asset == asset then 1 else 0
    case TotalNfts(asset) => if l.Live() && l.nft.asset == asset then 1 else 0
    case Bids(reserve) => if l.state == Auction && l.reserve == reserve then l.bidPrice else 0
  }

  function Total(m: Measure, loans: seq<Loan>): nat {
    if loans == [] then 0 else Total(m, loans[..|loans| - 1]) + Share(m, loans[|loans| - 1])
  }

  // The figure the books show.
  function Recorded(p: Pool, m: Measure): nat {
    match m
    case UserDebt(user, reserve) => Get(p.debts, (user, reserve))
    case TotalDebt(reserve) => Get(p.supply, reserve)
    case UserNfts(user, asset) => Get(p.userCollateral, (user, asset))
    case TotalNfts(asset) => Get(p.totalCollateral, asset)
    case Bids(reserve) => Get(p.escrow, reserve)
  }

  // What the pool holds of a reserve's token beyond the standing bids.
  function Surplus(p: Pool, reserve: Address): int {
    Get(p.escrow, reserve) - Total(Bids(reserve), p.loans)
  }

  // Every figure is exact but the pool's own holding, which covers the standing bids.
  ghost predicate Balanced(p: Pool) {
    && (forall m: Measure :: !m.Bids? ==> Recorded(p, m) == Total(m, p.loans))
    && (forall reserve :: Surplus(p, reserve) >= 0)
  }

  // A live loan's bid fields fit its state.
  predicate FitsState(l: Loan) {
    && (l.state == Active ==> l.bidStartTimestamp == 0 && l.bidder == ZERO_ADDRESS && l.bidPrice == 0)
    && (l.state == Auction ==> l.bidStartTimestamp > 0 && l.bidder != ZERO_ADDRESS && l.scaledAmount > 0)
  }

  // What the transactions need to read the books at all.
  predicate Readable(p: Pool) {
    && |p.loans| > 0
    && (forall a :: a in p.index ==> p.index[a] >= RAY)
    && (forall nft :: nft in p.loanIds ==> p.loanIds[nft] < |p.loans|)
    && (forall id :: 0 < id < |p.loans| ==> p.loans[id].reserve in p.index)
  }

  // The NFT directory and the live loans name each other.
  predicate Sound(p: Pool) {
    && Readable(p) && p.loans[0] == NO_LOAN
    && (forall nft :: nft in p.loanIds && p.loanIds[nft] != 0 ==>
          p.loans[p.loanIds[nft]].Live() && p.loans[p.loanIds[nft]].nft == nft)
    && (forall id :: 0 < id < |p.loans| ==>
          FitsState(p.loans[id]) && (p.loans[id].Live() ==> Get(p.loanIds, p.loans[id].nft) == id))
  }

  lemma UpdateStateReadable(p: Pool, reserve: Address, accrual: Accrual)
    requires Readable(p) && reserve in p.index
    ensures var r := UpdateState(p, reserve, accrual);
            r.Done? ==>
              && Readable(r.value)
              && r.value.index[reserve] >= p.index[reserve]
              && r.value == p.(index := p.index[reserve := r.value.index[reserve]])
  {
    IndexGrows(accrual, p.index[reserve]);
    assert p.index[reserve := p.index[reserve]] == p.index;
  }

  lemma IndexGrows(accrual: Accrual, index: nat)
    ensures RayMul(CompoundedInterest(accrual.borrowRate, accrual.elapsed), index) >= index
  {
    HalfUp.MulMonotone(RAY, RAY, CompoundedInterest(accrual.borrowRate, accrual.elapsed), index);
    HalfUp.MulByUnit(RAY, index);
  }

  lemma UpdateStateSound(p: Pool, reserve: Address, accrual: Accrual)
    requires Sound(p) && reserve in p.index
    ensures var r := UpdateState(p, reserve, accrual);
            r.Done? ==>
              && Sound(r.value)
              && r.value.index[reserve] >= p.index[reserve]
              && r.value == p.(index := p.index[reserve := r.value.index[reserve]])
  {
    UpdateStateReadable(p, reserve, accrual);
  }
}
