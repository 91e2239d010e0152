/** The borrow index over a whole run: the compound of the interest its transactions accrued. */
module LoanIndex {
  import opened Arithmetic
  import opened Common
  import opened Constants
  import opened Loans
  import opened LoanBooks
  import opened LoanEffects
  import opened LoanRuns
  import Tolerance

  /** A completed transaction leaves the indexes as updating its reserve's state leaves them. */
  lemma IndexAfter(p: Pool, op: Op, p': Pool)
    requires Inv(p) && !op.InitReserveOp? && Apply(p, op) == Done(p')
    ensures ReserveOf(p, op) in p.index
    ensures var r := UpdateState(p, ReserveOf(p, op), op.accrual); r.Done? && p'.index == r.value.index
  {
    hide Balanced, Borrow, Repay, Bid, Redeem, Liquidate, Borrowed, PaidBack, BidOn, Redeemed, Settled;
    match op
    case BorrowOp(user, reserve, amount, nft, accrual, admitted) =>
      BorrowEffect(p, user, reserve, amount, nft, accrual, admitted, p');
    case RepayOp(nft, amount, accrual, admitted) =>
      RepayEffect(p, nft, amount, accrual, admitted, p');
    case BidOp(nft, user, bidPrice, accrual, q, t, admitted) =>
      BidTakesTheLead(p, nft, user, bidPrice, accrual, q, t, admitted, p');
    case RedeemOp(nft, amount, maxFine, terms, accrual, t, admitted) =>
      RedeemEffect(p, nft, amount, maxFine, terms, accrual, t, admitted, p');
    case LiquidateOp(nft, amount, accrual, t, admitted) =>
      LiquidateEffect(p, nft, amount, accrual, t, admitted, p');
  }

  // Whether a completed transaction accrues interest on a reserve: it updates it, the reserve earns, and there is debt.
  ghost predicate Accrues(p: Pool, op: Op, reserve: Address)
    requires Readable(p)
  {
    && !op.InitReserveOp? && Apply(p, op).Done? && ReserveOf(p, op) == reserve
    && op.accrual.liquidityRate > 0 && Get(p.supply, reserve) != 0
  }

  // The interest factor, if any, that one transaction applies to a reserve.
  ghost function FactorOf(p: Pool, op: Op, reserve: Address): (fs: seq<nat>)
    requires Readable(p)
    ensures forall k :: 0 <= k < |fs| ==> fs[k] >= RAY
  {
    if Accrues(p, op, reserve) then [CompoundedInterest(op.accrual.borrowRate, op.accrual.elapsed)] else []
  }

  // The interest factors a run applies to a reserve, in order.
  ghost function Factors(p: Pool, ops: seq<Op>, reserve: Address): (fs: seq<nat>)
    requires Inv(p)
    ensures forall k :: 0 <= k < |fs| ==> fs[k] >= RAY
  {
    if ops == [] then
      []
    else
      var n := |ops| - 1;
      Factors(p, ops[..n], reserve) + FactorOf(Run(p, ops[..n]), ops[n], reserve)
  }

  // i is x compounded by fs.
  ghost predicate IsCompound(i: nat, x: nat, fs: seq<nat>) {
    i == Tolerance.Compound(RAY, x, fs)
  }

  ghost predicate NearExactCompound(i: nat, x: nat, fs: seq<nat>) {
    2 * Abs(i * Tolerance.Power(RAY, |fs|) - x * Tolerance.Product(fs)) <= |fs| * Tolerance.Product(fs)
  }

  /** A reserve's borrow index after any run is its index before, compounded by exactly those factors. */
  lemma {:induction false} IndexIsCompound(p: Pool, ops: seq<Op>, reserve: Address)
    requires Inv(p) && reserve in p.index
    ensures var q := Run(p, ops);
            reserve in q.index && IsCompound(q.index[reserve], p.index[reserve], Factors(p, ops, reserve))
  {
    if ops != [] {
      var n := |ops| - 1;
      IndexIsCompound(p, ops[..n], reserve);
      var before := Run(p, ops[..n]);
      StepCompounds(before, ops[n], reserve);
      Compounds(p.index[reserve], Factors(p, ops[..n], reserve), before.index[reserve],
                FactorOf(before, ops[n], reserve), Run(p, ops).index[reserve]);
    }
  }

  // A transaction compounds the index by the factor it applies, if any.
  lemma StepCompounds(p: Pool, op: Op, reserve: Address)
    requires Inv(p) && reserve in p.index
    ensures var q := After(p, op);
            reserve in q.index && IsCompound(q.index[reserve], p.index[reserve], FactorOf(p, op, reserve))
  {
    if Apply(p, op).Done? {
      OneAccrual(p, op, reserve);
    }
  }

  lemma OneAccrual(p: Pool, op: Op, reserve: Address)
    requires Inv(p) && reserve in p.index && Apply(p, op).Done?
    ensures var p' := Apply(p, op).value;
            reserve in p'.index && IsCompound(p'.index[reserve], p.index[reserve], FactorOf(p, op, reserve))
  {
    if !op.InitReserveOp? {
      IndexAfter(p, op, Apply(p, op).value);
    }
    if Accrues(p, op, reserve) {
      CompoundOfOne(p.index[reserve], CompoundedInterest(op.accrual.borrowRate, op.accrual.elapsed));
    }
  }

  lemma CompoundOfOne(x: nat, f: nat)
    ensures IsCompound(RayMul(f, x), x, [f])
  {
    Tolerance.CompoundAppend(RAY, x, [], [f]);
  }

  lemma Compounds(x: nat, fs: seq<nat>, y: nat, gs: seq<nat>, z: nat)
    requires IsCompound(y, x, fs) && IsCompound(z, y, gs)
    ensures IsCompound(z, x, fs + gs)
  {
    Tolerance.CompoundAppend(RAY, x, fs, gs);
  }

  lemma CompoundIsNear(i: nat, x: nat, fs: seq<nat>)
    requires IsCompound(i, x, fs)
    requires forall k :: 0 <= k < |fs| ==> fs[k] >= RAY
    ensures NearExactCompound(i, x, fs)
  {
    Tolerance.CompoundingDrift(RAY, x, fs);
  }

  /** So however many transactions a run has, the index stays within n / 2 parts of the exact compound of the
      n factors that were applied. */
  lemma IndexStaysNearExactCompound(p: Pool, ops: seq<Op>, reserve: Address)
    requires Inv(p) && reserve in p.index
    ensures reserve in Run(p, ops).index
    ensures NearExactCompound(Run(p, ops).index[reserve], p.index[reserve], Factors(p, ops, reserve))
  {
    IndexIsCompound(p, ops, reserve);
    CompoundIsNear(Run(p, ops).index[reserve], p.index[reserve], Factors(p, ops, reserve));
  }
}
