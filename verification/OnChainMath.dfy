/** WadRayMath.sol and PercentageMath.sol in checked 256-bit arithmetic, and their agreement with the
    operations the suites compute their expectations with. */
module OnChainMath {
  import opened Arithmetic
  import opened BigNumbers
  import opened Constants
  import opened FixedPoint
  import Loans

  // PANIC is the compiler's own overflow check.
  datatype Error = MATH_MULTIPLICATION_OVERFLOW | MATH_ADDITION_OVERFLOW | MATH_DIVISION_BY_ZERO | PANIC

  datatype Result = Ok(value: nat) | Revert(error: Error)

  function Checked(value: nat): Result {
    if value <= MAX_UINT256 then Ok(value) else Revert(PANIC)
  }

  function MulOnChain(u: nat, a: nat, b: nat): Result
    requires 0 < u <= MAX_UINT256
  {
    if a == 0 || b == 0 then
      Ok(0)
    else if !(a <= (MAX_UINT256 - u / 2) / b) then
      Revert(MATH_MULTIPLICATION_OVERFLOW)
    else if !Checked(a * b).Ok? || !Checked(a * b + u / 2).Ok? then
      Revert(PANIC)
    else
      QuotientNonnegative(a * b + u / 2, u);
      Ok((a * b + u / 2) / u)
  }

  function DivOnChain(u: nat, a: nat, b: nat): Result
    requires 0 < u
  {
    if b == 0 then
      Revert(MATH_DIVISION_BY_ZERO)
    else if !(a <= (MAX_UINT256 - b / 2) / u) then
      Revert(MATH_MULTIPLICATION_OVERFLOW)
    else if !Checked(a * u).Ok? || !Checked(a * u + b / 2).Ok? then
      Revert(PANIC)
    else
      QuotientNonnegative(a * u + b / 2, b);
      Ok((a * u + b / 2) / b)
  }

  function RayToWadOnChain(a: nat): Result {
    var halfRatio := WAD_RAY_RATIO / 2;
    var result := Checked(halfRatio + a);
    if result.Revert? then result
    else if !(result.value >= halfRatio) then Revert(MATH_ADDITION_OVERFLOW)
    else Ok(result.value / WAD_RAY_RATIO)
  }

  function WadToRayOnChain(a: nat): Result {
    var result := Checked(a * WAD_RAY_RATIO);
    if result.Revert? then result
    else if !(result.value / WAD_RAY_RATIO == a) then Revert(MATH_MULTIPLICATION_OVERFLOW)
    else result
  }

  /** n fits under the guard's quotient exactly when the product it guards fits. */
  lemma GuardIsExact(a: nat, room: nat, b: nat)
    requires b > 0
    ensures a <= room / b <==> a * b <= room
  {
    QuotientBounds(room, b);
    if a <= room / b {
      MulOrder(a, room / b, b);
    } else {
      MulOrder(room / b + 1, a, b);
    }
  }

  /** wadMul, rayMul and percentMul: the overflow guard rejects exactly the operands whose rounded
      product does not fit 256 bits, the compiler's check never fires behind it, and every accepted
      pair gets the value the suites compute. */
  lemma MulConforms(u: nat, a: nat, b: nat)
    requires 0 < u <= MAX_UINT256 && b <= MAX_UINT256
    ensures MulOnChain(u, a, b) == if a == 0 || b == 0 || a * b + u / 2 <= MAX_UINT256
                                   then Ok(MulIn(SUITE, u, a, b))
                                   else Revert(MATH_MULTIPLICATION_OVERFLOW)
  {
    SuiteIsHalfUp(u, a, b);
    if a == 0 || b == 0 {
      QuotientUnique(u / 2, u, 0);
    } else {
      GuardIsExact(a, MAX_UINT256 - u / 2, b);
    }
  }

  /** wadDiv, rayDiv and percentDiv: likewise, with division by zero rejected first. */
  lemma DivConforms(u: nat, a: nat, b: nat)
    requires 0 < u <= MAX_UINT256 && b <= MAX_UINT256
    ensures DivOnChain(u, a, b) == if b == 0 then Revert(MATH_DIVISION_BY_ZERO)
                                   else if a * u + b / 2 <= MAX_UINT256 then Ok(DivIn(SUITE, u, a, b))
                                   else Revert(MATH_MULTIPLICATION_OVERFLOW)
  {
    if b > 0 {
      SuiteIsHalfUp(u, a, b);
      GuardIsExact(a, MAX_UINT256 - b / 2, u);
    }
  }

  /** The casts agree too, in both configurations; their own guards can never fire, because the
      compiler's check stops every overflow first. */
  lemma CastsConform(c: Config, a: nat)
    requires c in {SUITE, RESET}
    ensures RayToWadOnChain(a) == if a + WAD_RAY_RATIO / 2 <= MAX_UINT256 then Ok(RayToWad(c, a)) else Revert(PANIC)
    ensures WadToRayOnChain(a) == if a * WAD_RAY_RATIO <= MAX_UINT256 then Ok(WadToRay(a)) else Revert(PANIC)
  {
    ProductsIgnoreConfiguration(a, 0);
    QuotientUnique(a * WAD_RAY_RATIO, WAD_RAY_RATIO, a);
  }

  /** The loan books round as the suites and the contracts do: wherever the contracts do not revert, all three agree. */
  lemma BooksRoundOnChain(a: nat, b: nat)
    requires b <= MAX_UINT256
    ensures Loans.RayMul(a, b) == RayMul(SUITE, a, b) && Loans.PercentMul(a, b) == PercentMul(SUITE, a, b)
    ensures MulOnChain(RAY, a, b).Ok? ==> MulOnChain(RAY, a, b).value == Loans.RayMul(a, b)
    ensures MulOnChain(PERCENTAGE_FACTOR, a, b).Ok? ==>
            MulOnChain(PERCENTAGE_FACTOR, a, b).value == Loans.PercentMul(a, b)
    ensures b > 0 ==> Loans.RayDiv(a, b) == RayDiv(SUITE, a, b)
    ensures b > 0 && DivOnChain(RAY, a, b).Ok? ==> DivOnChain(RAY, a, b).value == Loans.RayDiv(a, b)
  {
    hide MulIn, DivIn, MulOnChain, DivOnChain;
    SuiteIsHalfUp(RAY, a, b);
    SuiteIsHalfUp(PERCENTAGE_FACTOR, a, b);
    MulConforms(RAY, a, b);
    MulConforms(PERCENTAGE_FACTOR, a, b);
    DivConforms(RAY, a, b);
  }
}
