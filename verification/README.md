# BendDAO lending protocol: a verified model

A Dafny 4.11 model of the parts of the BendDAO NFT lending repository where arithmetic, loops and state
have to agree, with proofs of what they promise. `dafny verify dfyconfig.toml` checks everything.

**Fixed point.** `test/helpers/utils/math.ts` computes every expected debt, index and price with half-up wad, ray and
percent operations on BigNumber values, under a global configuration that the suites switch between
(0 places, ROUND_DOWN) and (20 places, ROUND_HALF_UP). `BigNumbers` models a configured division followed by a
truncation; `HalfUp` is the exact integer operation; `FixedPoint` says precisely which operations depend on the
configuration and on which operands; `RoundTrips` which operations undo each other; `OnChainMath` that the Solidity
libraries compute the same values and reject exactly what does not fit 256 bits.

**Tolerances.** The suites compare debts within 2 or 3 units. `Tolerance` proves how far the roundings really drift:
after a partial repay, over many loans, and over many interest accruals, and the exact indexes up to which the
comparisons are safe.

**Prices.** `Conversions` and `PriceTarget` follow the chain from a debt to the NFT price that gives it a chosen health
factor, through units and decimals, to the on-chain health factor the liquidation suites then assert.

**Loan books.** `Loans`, `LoanBooks`, `LoanRules`, `LoanEffects`, `LoanErrors`, `LoanRuns`, `LoanIndex` and
`LendPools` model borrowing, repaying, auctioning, redeeming and liquidating as `LendPoolLoan.sol`, `DebtToken.sol`,
`BorrowLogic.sol` and `LiquidateLogic.sol` do them. `LoanRules` turns the windows, fines and prices they compute into
inequalities; `LoanEffects` says in those terms exactly when each transaction completes and exactly what it then does,
and `LoanErrors` which error it gives otherwise. The debt token, the loan list, the collateral counts and the pool's
own token balance are four separate records of the same loans; one conservation law, over every reachable state, says
how they agree. It rests on the fixed-point result that at an index of one ray or more a loan's debt converts back to
exactly its scaled amount. The borrow index of a whole run is the compound of the interest its transactions accrued,
and stays close to the exact one; `Interest` says how far each factor is from exact compounding. The class `LendPool`
writes its storage step by step and rolls a reverted transaction back. `LoanCases` are concrete runs.

**Tools.** `Linker` (library linking), `Minter` (the minting task), `Chunks` and `Reserves` (batched deployment with a
cache of rate contracts), `Retry` (contract verification with retries).

Addresses, token amounts and prices that the programs fetch are parameters. JavaScript's `%` and Solidity's `/` act on
non-negative operands only, where they agree with Dafny's. `admitted` stands for every validation of a transaction that
reads configuration, oracles, allowances or the pause flag; a theorem for both values of it holds however those
validations decide.

## Findings

Where the code and its documentation or apparent intent differ:

- `test/helpers/almost-equal.ts:3-15`, `test/helpers/actions.ts:85-91`: the ±2 comparison after a partial repay is
  safe up to an index of exactly 4 rays + 2 units, the ±3 comparison up to 6 rays + 2
  (`Tolerance.PartialRepayToleranceIff`).
- `test/helpers/utils/math.ts:55-67`, `test/borrow-repay.spec.ts:40-46`: under the default configuration rayMul is not
  the on-chain operation, and rayDiv does not always undo it at a factor above one ray: exactly from 20000000 units
  above it on it always does (`FixedPoint.RayMulUnderReset`, `RoundTrips.RayTripUnderReset` for each operand,
  `RoundTrips.RayInverseUnderResetIff`).
- `contracts/libraries/math/WadRayMath.sol:117-134`: the overflow guards of `rayToWad` and `wadToRay` cannot fire
  under Solidity 0.8, whose own checks come first (`OnChainMath.CastsConform`).
- `contracts/libraries/math/MathUtils.sol:33`: the approximated interest is documented to undercharge. Against exact
  compounding at the rate a second that the code has already floored, it does exactly when the dropped terms cover its
  roundings (`Interest.UnderchargesIff`, which takes as few of them as it needs; `Interest.UnderchargesByFirstDropped`
  with the first alone). After two seconds it overcharges exactly when the squared rate rounds up
  (`Interest.TwoSecondsOverchargeIff`).
- `contracts/libraries/logic/BorrowLogic.sol:321-339`, `contracts/libraries/logic/LiquidateLogic.sol:312-318`: a
  partial repay, and despite its cap a redeem, can leave a loan active with nothing owed, and no repay is then
  accepted until its borrower borrows on it again (`LoanEffects.PartialRepayLeavesDebtIff` and
  `LoanEffects.RedeemLeavesDebtIff` have the exact conditions, `LoanCases.PartialRepayCanEmptyALoan` and
  `LoanCases.RedeemCanEmptyALoan` runs, `LoanEffects.BorrowingAgainRevives` the way out).
- `contracts/libraries/logic/LiquidateLogic.sol:130`: only the zero address is refused as the beneficiary of a bid. A
  bid on behalf of the pool itself comes back to the pool when it is outbid or refunded, so the pool then holds more
  than the standing bids, by exactly `LoanRuns.KeptIn` (`LoanRuns.BidsAreHeld`, `LoanCases.PoolKeepsItsOwnBid`).
- `contracts/libraries/types/DataTypes.sol:64-68`: the documented life cycle has no way back from an auction;
  redeeming is one, exactly under the condition of `LoanEffects.RedeemIff`. `LoanRuns.Follows` has it.
- `helpers/misc-utils.ts:88-94`: `chunk` loses every element when its size is zero, the end of the list when it is
  negative, and nothing when it is positive (`Chunks.ChunksFlattenIff`, `Chunks.UnsizedKeeps`).
- `helpers/etherscan-verification.ts:77-109`: an error thrown by the cleanup is caught like one of the task, so a run
  that succeeded can be repeated, and with a cleanup that always throws the recursion has no end; it ends exactly when
  some attempt is not to be repeated (the condition of `Retry.RunTaskWithRetry`; `Retry.NoAttemptIsLast` when the
  cleanup always throws, `Retry.CleansUpOnce` when it never does).

## Model

| member | source | states |
|---|---|---|
| BigNumbers.TruncatedQuotient | test/helpers/utils/math.ts:45-91 | a division under any configuration, truncated, is the integer quotient, or one more exactly when a half-up rounding to the configured places carries |
| HalfUp.MulNearest | test/helpers/utils/math.ts:55-57 | half-up multiplication is the nearest integer to the exact product, ties upward, and no other integer is |
| HalfUp.DivNearest | test/helpers/utils/math.ts:59-67 | half-up division is the nearest integer to the exact quotient, ties upward, and no other integer is |
| HalfUp.DivUndoesMulIff | test/helpers/utils/math.ts:45-67 | dividing undoes multiplying for every operand if and only if the factor is at least the unit |
| HalfUp.MulUndoesDivIff | test/helpers/utils/math.ts:83-91 | multiplying undoes dividing for every operand if and only if the factor is at most the unit |
| FixedPoint.SuiteIsHalfUp | test/borrow-repay.spec.ts:27-33 | under the suites' configuration every operation is the exact half-up one |
| FixedPoint.NamedOperations | test/helpers/utils/math.ts:45-91 | so each named operation is the half-up one in its own unit: 10^18 for wads, 10^27 for rays, 10^4 for percentages; wadToRay multiplies by 10^9 and rayToWad divides by it |
| FixedPoint.UnitsAre | helpers/constants.ts:7-13 | the units are those powers of ten and twice their halves, and the largest 256-bit number is 2^256 - 1 |
| FixedPoint.ResetCarries | test/borrow-repay.spec.ts:40-46 | under the default configuration every operation is the half-up one plus a carry with an exact condition on the remainder |
| FixedPoint.ProductsIgnoreConfiguration | test/helpers/utils/math.ts:45-47 | wadMul, percentMul and rayToWad give the same result under both configurations |
| FixedPoint.RayMulUnderReset | test/helpers/utils/math.ts:55-57 | rayMul under the default configuration adds five million to the half unit, and exceeds the suites' result by at most one |
| FixedPoint.QuotientsAgreeBelow | test/helpers/utils/math.ts:49-67 | wadDiv, rayDiv and percentDiv agree under both configurations for every divisor below 2e20 |
| FixedPoint.QuotientsDifferExactly | test/helpers/utils/math.ts:87-91 | for any divisor they differ by one exactly when the remainder is that close to it, and otherwise not at all |
| RoundTrips.InversesByUnit | test/helpers/utils/math.ts:45-91 | the exact range of factors for which each operation undoes the other, for wad, ray and percent alike |
| RoundTrips.InverseErrors | test/helpers/utils/math.ts:45-91 | on the other side of the unit both round trips err by at most half the ratio plus a half |
| RoundTrips.RayTripUnderReset | test/helpers/utils/math.ts:55-67 | under the default configuration dividing a product by its factor of a ray or more gives the operand, or one more exactly under a stated condition on the product's remainder |
| RoundTrips.RayInverseUnderResetIff | test/helpers/utils/math.ts:55-67 | so the ray inverse holds for every operand and every factor from n units above one ray on if and only if n is at least 20000000 |
| RoundTrips.RayInverseLostUnderReset | test/helpers/utils/math.ts:55-67 | an input one unit above one ray for which the default configuration loses it |
| RoundTrips.CastsRoundTrip | test/helpers/utils/math.ts:69-77 | rayToWad undoes wadToRay; the other way moves a ray by at most half the ratio |
| RoundTrips.WadProductThroughRays | test/helpers/utils/math.ts:55-77 | multiplying wads through rays rounds a product plus half a wad plus half the ratio, in both configurations |
| RoundTrips.RoutesDifferExactly | test/helpers/utils/math.ts:45-77 | so it is wadMul or one more, with the exact set of products where it is more |
| OnChainMath.MulConforms | contracts/libraries/math/WadRayMath.sol:56-95 | wadMul and rayMul revert exactly when the rounded product does not fit 256 bits, and otherwise return what the suites compute |
| OnChainMath.DivConforms | contracts/libraries/math/PercentageMath.sol:44-51 | likewise for the divisions, zero divisors being rejected first |
| OnChainMath.CastsConform | contracts/libraries/math/WadRayMath.sol:117-134 | the casts agree in both configurations and only the compiler's check ever stops them |
| OnChainMath.BooksRoundOnChain | contracts/libraries/math/WadRayMath.sol:87-110 | the loan books, the suites and the contracts round ray and percent operations alike wherever the contracts do not revert |
| Tolerance.PartialRepayError | test/liquidate-redeem.spec.ts:182-189 | a partial repay's debt is within 1 + i/2u of the subtraction, less the last place, or two of them at an even index, for any unit and index |
| Tolerance.PartialRepayToleranceIff | test/helpers/almost-equal.ts:3-15 | the ±2 comparison passes after every partial repay at every index up to n if and only if n is at most 4 rays + 2, and the ±3 comparison if and only if n is at most 6 rays + 2 |
| Tolerance.ComparisonsAre | test/helpers/almost-equal.ts:3-15 | the two comparisons pass exactly when the values differ by at most 2, or 3 |
| Tolerance.LoanDebtConvertsBack | test/liquidate.spec.ts:189-192 | at one ray or more a loan's debt converts back to its scaled amount |
| Tolerance.RemovingALoan | test/liquidate.spec.ts:185-197 | taking a loan's scaled amount away moves the user's debt by the loan's, within one |
| Tolerance.SumOfDebtsError | test/helpers/utils/math.ts:55-57 | n debts rounded one by one drift by at most n half units from the exact sum |
| Tolerance.LoanDecomposition | test/liquidate.spec.ts:185-197 | splitting a scaled debt over n loans changes the total debt by at most (n + 1) / 2 |
| Tolerance.CompoundingDrift | contracts/libraries/logic/ReserveLogic.sol:296-302 | compounding n factors never lowers an index and its error is at most n/2 parts of the exact product |
| Conversions.ExactIff | helpers/contracts-helpers.ts:218-236 | an amount survives the trip through units exactly when the configured places can express it |
| Conversions.RoundedWhenPlacesFallShort | helpers/contracts-helpers.ts:230-236 | otherwise it is rounded in the configured mode to a multiple of what they can express, and always parses back |
| Conversions.SuiteKeepsWholeUnits | helpers/contracts-helpers.ts:230-236 | under the suites' configuration that is the largest whole number of tokens not above the amount |
| Conversions.ParsesIff | helpers/contracts-helpers.ts:218-228 | a string of units parses to the one amount that is worth as much, and fails exactly when no amount is |
| PriceTarget.EthAmountIsWorth | test/helpers/actions.ts:249-252 | the ETH amount is the debt's worth at the reserve's price, cut to a whole number under the suites' configuration; under the default one it is the nearest, ties upward, for a token of at most twenty decimals |
| PriceTarget.NftPriceIsDerived | test/helpers/actions.ts:256-260 | the price is the health share of that amount, rounded half up, over the threshold, rounded half up |
| PriceTarget.HealthFactorIs | contracts/libraries/logic/GenericLogic.sol:155-175 | the on-chain health factor of a debt is, in wads and rounded half up, the ratio to it of the threshold's share, rounded half up, of the price cut to the debt's token |
| PriceTarget.TargetIsHit | test/helpers/actions.ts:256-260 | Price * LH = Debt * HF holds exactly for every debt, health and threshold up to 100% |
| PriceTarget.TargetIsHitIff | test/helpers/actions.ts:256-260 | it holds for every debt and health if and only if the threshold is at most 100% |
| PriceTarget.BelowDebtIff | test/helpers/actions.ts:258-260 | the collateral value is below the debt exactly when the missing share exceeds half a unit |
| PriceTarget.ZeroPriceIff | test/helpers/actions.ts:261-263 | the zero-price error is raised exactly when the target rounds to nothing |
| PriceTarget.TruncationIsConservative | test/liquidate.spec.ts:83-84 | a debt cut to whole units never gives a higher price or exceeds the target share of the true debt |
| PriceTarget.HealthFactorDropsBelowOneIff | test/liquidate.spec.ts:86-91 | in a token of any price the on-chain health factor after repricing is below one if and only if twice a wad times what the debt exceeds the collateral's worth by exceeds the debt; and it is for every debt with an explicit shortfall |
| PriceTarget.HealthFactorBelowOneIff | test/liquidate.spec.ts:86-91 | in a token whose price is one it is below one if and only if the target share of the truncated debt rounds to less than the true debt |
| PriceTarget.TestEnv.SetNftAssetPriceForDebtDecimals | test/helpers/actions.ts:232-271 | refuses a zero price before sending anything; otherwise submits twice, with the two time jumps, the one price that hits the target for what the debt is worth in ETH |
| PriceTarget.TestEnv.SetNftAssetPriceForDebt | test/helpers/actions.ts:213-226 | the same for a debt given in units, which must not have more fraction digits than the token |
| Linker.LinkBytecode | helpers/contracts-helpers.ts:150-171 | for what a compiler emits and addresses of the right length, each place mentioned for a supplied library holds its address' digits and every other character is the artifact's; with no library supplied the bytecode comes back; in any case the three nested loops are one pass over the places |
| Linker.LinkIsLinked | helpers/contracts-helpers.ts:150-171 | the same of the pass: what is linked is exactly the supplied digits at the places mentioned |
| Linker.NothingLinked | helpers/contracts-helpers.ts:155-159 | when no library mentioned is supplied, nothing changes |
| Linker.LinkWritesAddresses | helpers/contracts-helpers.ts:153-170 | every supplied library's digits stand at each of its sites and every other character is unchanged |
| Linker.AnyOrder | helpers/contracts-helpers.ts:153-161 | the result does not depend on the order of the sites |
| Linker.SitesAreMentions | helpers/contracts-helpers.ts:153-161 | the sites are what the link references mention, wherever they do |
| Linker.ReorderedReferences | helpers/contracts-helpers.ts:150-171 | files, libraries and fixups in any order and grouping link to the same code |
| Linker.StagedLinking | helpers/contracts-deployments.ts:156-162 | linking in two stages is linking once with both maps; linking again changes nothing |
| Linker.NothingToLink | helpers/contracts-deployments.ts:134-138 | with no library supplied the artifact's bytecode comes back |
| Minter.MintUsesCapacity | contracts/mock/MintableERC721.sol:26-35 | a mint below the limit takes exactly one from the signers' joint capacity if the minter is one of them |
| Minter.MintableERC721.Mint | contracts/mock/MintableERC721.sol:26-39 | succeeds exactly below the limit (or for the faucet), for ids in range and free, and then changes one count and one owner |
| Minter.NextMinter | tasks/dev/mock_nfts.ts:123-132 | the first signer from the current one on that is below the limit, all before it being at the limit |
| Minter.MintOrHandOver | tasks/dev/mock_nfts.ts:149-161 | one token is minted and handed over, handed over, or left alone; an uncaught revert has one of three causes |
| Minter.MintTopTokens | tasks/dev/mock_nfts.ts:114-162 | hands over what the first signer below the limit owns, mints what is missing to the target in the order listed, and leaves the rest, unless it fails; mints min(distinct missing ids, remaining capacity) tokens, nobody past ten; stops early only with every signer at the limit; fails only for three named causes |
| Minter.MintsTheFirstMissing | tasks/dev/mock_nfts.ts:119-162 | the tokens minted are the missing ones of a start of the list, which is the whole list unless the signers run out |
| Chunks.ChunksAreSlices | helpers/misc-utils.ts:88-94 | there are ceil(n / size) chunks and the k-th is the slice at k times the size |
| Chunks.ChunkSizes | helpers/misc-utils.ts:88-94 | every chunk but the last is full and the last is not empty |
| Chunks.ChunksFlattenIff | helpers/misc-utils.ts:88-94 | for every integer size chunks lose and repeat nothing exactly when the size is positive or the list empty |
| Chunks.UnsizedKeeps | helpers/misc-utils.ts:88-94 | a size of zero leaves nothing, and a negative one the list without as many elements at its end |
| Chunks.ChunksAlign | helpers/init-helpers.ts:117-128 | parallel lists fall into chunks that line up |
| Reserves.CachedRateContract | helpers/init-helpers.ts:80-94 | a rate contract is deployed exactly when its name is new, and the cache then knows every name's contract |
| Reserves.PrepareReserves | helpers/init-helpers.ts:73-114 | one record for each reserve with an address, in order, with all it is initialised with, pointing at its strategy name's contract; a missing implementation stops it after the deployments up to the first reserve that lacks one |
| Reserves.InitReservesByHelper | helpers/init-helpers.ts:27-132 | deployments, batches and reports are exactly those of the included reserves; a missing implementation stops the run before any batch, with the deployments up to the first reserve that lacks one |
| Reserves.OneContractPerName | helpers/init-helpers.ts:80-94 | each strategy name is deployed once, with the provider and the four rates of its first user |
| Reserves.CacheIsSoundIff | helpers/init-helpers.ts:99-111 | every record points at a contract with its own reserve's rates if and only if names determine rates |
| Reserves.BatchesAreRecords | helpers/init-helpers.ts:116-131 | the batches together are the records, and each reported symbol is its record's own |
| Reserves.ConfigureReservesByHelper | helpers/init-helpers.ts:221-284 | batches of twenty and the borrowing flags are exactly those of the included reserves, and nothing is sent when there are none |
| Reserves.ConfigsAre | helpers/init-helpers.ts:259-263 | each configured record has its reserve's address and factor and a utilisation of three quarters of a ray |
| Reserves.BorrowableIff | helpers/init-helpers.ts:255-257 | an address is flagged exactly when an included reserve with it allows borrowing |
| Reserves.BorrowableInOrder | helpers/init-helpers.ts:255-257 | the flagged addresses are those of the reserves that allow borrowing, in the order of the list |
| Reserves.IncludedIff | helpers/init-helpers.ts:247-250 | a reserve is included exactly when it is listed and has an address |
| Reserves.IncludedInOrder | helpers/init-helpers.ts:73-77 | the included reserves are those listed with a non-empty address, as often and in the order as they are listed |
| Retry.RunTaskWithRetry | helpers/etherscan-verification.ts:67-111 | for any outcomes of the task and of the cleanup, one of whose attempts is not to be repeated: how many attempts and runs, which runs had relatedSources, and how many cleanups; a first run failing with one of the two ok or four fatal texts is the only one, and nothing is cleaned up |
| Retry.ReadIff | helpers/etherscan-verification.ts:93-108 | an error is fine exactly when one of the two ok texts stands in its message, fatal exactly when one of the four fatal ones does and none of those, and to be retried otherwise, without relatedSources exactly when it says it is unable to verify |
| Retry.StopsAtOnce | helpers/etherscan-verification.ts:93-101 | with a run left, such a message ends the retries at the first attempt, without a cleanup |
| Retry.Attempt | helpers/etherscan-verification.ts:77-88 | one attempt runs the task if a run is left, without relatedSources if it is the last, and cleans up unless the run failed |
| Retry.OneMoreAttempt | helpers/etherscan-verification.ts:90-109 | an attempt to be repeated followed by the smaller call is the larger call |
| Retry.CleansUpOnce | helpers/etherscan-verification.ts:77-108 | with a cleanup that never throws every call ends, at the latest after the permitted runs, and cleans up exactly once, except after an error that ends the retries |
| Retry.NoAttemptIsLast | helpers/etherscan-verification.ts:77-109 | with a cleanup that always throws an error to be retried no attempt is the last, even if every run succeeds |
| Retry.DegradesOneWay | helpers/etherscan-verification.ts:77-108 | relatedSources once dropped never returns and is absent on the last permitted run; the task runs at most as often as permitted |
| Interest.Expansion | contracts/libraries/math/MathUtils.sol:28-31 | exact compounding is the four terms kept of the binomial expansion plus the terms dropped |
| Interest.FactorIsFourTerms | contracts/libraries/math/MathUtils.sol:39-64 | the computed factor is the four terms plus what rounding the two powers of the rate adds |
| Interest.InterestError | contracts/libraries/math/MathUtils.sol:39-64 | so it differs from exact compounding by exactly the dropped terms and the roundings, which are at most half a unit for each pair of seconds and 1 + r/u halves for each triple |
| Interest.UnderchargesIff | contracts/libraries/math/MathUtils.sol:33 | it does not exceed exact compounding if and only if the dropped terms, taken one at a time, cover the roundings; the check stops as soon as the terms left cannot decide otherwise |
| Interest.UnderchargesByFirstDropped | contracts/libraries/math/MathUtils.sol:33 | the first dropped term alone decides it for up to three seconds, and past them except between that term and u/(u - nr) times it |
| Interest.DroppedAtMost | contracts/libraries/math/MathUtils.sol:31 | the dropped terms together are at most u/(u - nr) times the first |
| Interest.Peel | contracts/libraries/math/MathUtils.sol:31 | the dropped terms are the first of them and those dropped after it |
| Interest.DroppedBounds | contracts/libraries/math/MathUtils.sol:31 | what is dropped after the k-th power is never negative, and nothing for up to k seconds |
| Interest.TwoSecondsOverchargeIff | contracts/libraries/math/MathUtils.sol:54-63 | after two seconds it exceeds it if and only if the squared rate rounds up |
| Loans.UpdateStateSound | contracts/libraries/logic/ReserveLogic.sol:273-309 | accruing interest never lowers the borrow index and changes nothing else |
| LoanRules.UpdateStateIff | contracts/libraries/logic/ReserveLogic.sol:286-304 | it changes the index only of a reserve that earns on some debt, to the nearest of the index times the factor, and is refused exactly when that is 2^128 or more |
| LoanRules.YearlyRate | contracts/libraries/math/MathUtils.sol:55 | the rate a second over the seconds of a year of 365 days is the yearly rate, less than one a second below it |
| LoanRules.WindowIff | contracts/libraries/logic/LiquidateLogic.sol:177-184 | a window is open until its hours have passed since the first bid, not counting a pause that began at or after that bid |
| LoanRules.BidFineIff | contracts/libraries/logic/GenericLogic.sol:290-310 | the fine is the least offer that covers both the least fine and the share of the debt, and nothing without a bid |
| LoanRules.ThresholdIff | contracts/libraries/logic/GenericLogic.sol:256 | a debt exceeds the threshold price exactly when ten thousand times it exceeds the price times the threshold by more than a half |
| LoanRules.LiquidatePriceIff | contracts/libraries/logic/GenericLogic.sol:258-264 | the liquidation price is the least bid that reaches the debt and, at a bonus below the whole, the price less the bonus |
| LoanBooks.TotalReplaced | contracts/protocol/LendPoolLoan.sol:26-32 | changing one loan moves every total by the difference of its shares |
| LoanBooks.WholeDebtBurnsScaled | contracts/protocol/DebtToken.sol:110-122 | burning a loan's whole debt burns exactly its scaled amount |
| LoanBooks.BorrowKeepsInv | contracts/libraries/logic/BorrowLogic.sol:145-235 | borrowing, on a new loan or an existing one, keeps the books balanced and sound, and never fails on the books themselves |
| LoanBooks.RepayKeepsInv | contracts/libraries/logic/BorrowLogic.sol:299-378 | so does repaying in part or in full |
| LoanBooks.BidKeepsInv | contracts/libraries/logic/LiquidateLogic.sol:123-221 | so does bidding; the pool gains an outbid bid only if that was its own |
| LoanBooks.RedeemKeepsInv | contracts/libraries/logic/LiquidateLogic.sol:248-361 | so does redeeming; the pool gains the refunded bid and the fine only as bidder and as first bidder |
| LoanBooks.SettleTakesTheBid | contracts/libraries/logic/LiquidateLogic.sol:431-469 | however bid and debt compare, a settlement takes exactly the bid out of the pool, but for a remainder the pool owes itself |
| LoanBooks.LiquidateKeepsInv | contracts/libraries/logic/LiquidateLogic.sol:384-486 | so does liquidating; the pool gains a remainder only as borrower |
| LoanEffects.BorrowEffect | contracts/libraries/logic/BorrowLogic.sol:145-235 | a borrow opens a loan on a free NFT or increases the borrower's own active loan, by what the amount converts to, and the debt token follows |
| LoanEffects.BorrowIff | contracts/libraries/logic/BorrowLogic.sol:145-235 | it completes exactly when the amount converts to some debt and the NFT is free or backs the borrower's own active loan in that reserve |
| LoanEffects.RepayEffect | contracts/libraries/logic/BorrowLogic.sol:321-350 | a sum below the debt lowers the loan by what it converts to; any other closes it and burns its scaled amount |
| LoanEffects.RepayIff | contracts/libraries/logic/BorrowLogic.sol:299-378 | a repay completes exactly when the loan is active, something is owed, and a sum below the debt converts to something |
| LoanEffects.FullRepayCloses | contracts/libraries/logic/BorrowLogic.sol:325-350 | sending at least what is owed always closes the loan and burns exactly its scaled amount |
| LoanEffects.PartialRepayLeavesDebtIff | contracts/libraries/logic/BorrowLogic.sol:321-339 | a partial repay leaves debt if and only if the sum, in rays, is less than the scaled debt times the index, rounded; if none is left, no repay is accepted any more |
| LoanEffects.BorrowingAgainRevives | contracts/libraries/logic/BorrowLogic.sol:196-222 | borrowing on such a loan again makes it repayable, and repaying what is owed then closes it |
| LoanEffects.BorrowThenRepayBalances | contracts/libraries/logic/BorrowLogic.sol:145-378 | borrowing and repaying in full leaves every figure as it was |
| LoanEffects.BorrowedLoanIsSafe | contracts/libraries/logic/ValidationLogic.sol:161-165 | a loan just borrowed within its loan-to-value ratio cannot be auctioned in the same block at the same prices, if the liquidation threshold exceeds that ratio by an explicit margin, or while the index is one ray if it does not fall short of it |
| LoanEffects.BidTakesTheLead | contracts/protocol/LendPoolLoan.sol:216-246 | an accepted bid is above the last one and covers the debt; the bidder leads, the escrow swaps the bids and the first bidder is kept |
| LoanEffects.BidIff | contracts/libraries/logic/LiquidateLogic.sol:163-189 | an active loan is auctioned exactly when its debt exceeds the threshold and the bid reaches the liquidation price; an auction takes a bid exactly while its hours last, pauses aside, from the debt and the raised standing bid up; all as inequalities between what the contracts read |
| LoanEffects.RedeemEffect | contracts/libraries/logic/LiquidateLogic.sol:248-361 | a redeem leaves the loan active without a bid, smaller by what the sum converts to, and the bid has left the pool |
| LoanEffects.RedeemLeavesDebtIff | contracts/libraries/logic/LiquidateLogic.sol:312-318 | a redeem leaves debt if and only if the sum, in rays, is less than the scaled debt times the index, rounded |
| LoanEffects.RedeemIff | contracts/libraries/logic/LiquidateLogic.sol:270-318 | a redeem completes exactly in the redeem window, with the least fine and the share of the debt offered, for a sum between the redeem threshold and nine tenths of the debt that converts to something |
| LoanEffects.LiquidateEffect | contracts/libraries/logic/LiquidateLogic.sol:384-486 | a liquidation leaves the loan in default, its NFT free, its debt burnt and its bid spent |
| LoanEffects.LiquidateIff | contracts/libraries/logic/LiquidateLogic.sol:408-440 | it completes exactly once the hours of the auction have passed, pauses aside, for a sum that covers the shortfall of the bid |
| LoanErrors.BorrowRefused | contracts/libraries/logic/ValidationLogic.sol:106-116 | a refused borrow that the other validations admit gives the error of the first rule it breaks, in the contracts' order, and never one on the books |
| LoanErrors.RepayRefused | contracts/libraries/logic/ValidationLogic.sol:188-192 | so does a repay |
| LoanErrors.BidRefused | contracts/libraries/logic/LiquidateLogic.sol:163-189 | so does a bid, in a different order of rules for a first bid and a later one |
| LoanErrors.RedeemRefused | contracts/libraries/logic/LiquidateLogic.sol:270-318 | so does a redeem |
| LoanErrors.LiquidateRefused | contracts/libraries/logic/LiquidateLogic.sol:408-435 | so does a liquidation |
| LoanRuns.ApplyKeepsInv | contracts/protocol/LendPool.sol:183-358 | every transaction keeps the invariant, and what the pool holds beyond the standing bids grows by exactly what it keeps for itself |
| LoanRuns.Run | contracts/protocol/LendPool.sol:183-358 | so does every sequence of completed and reverted transactions |
| LoanRuns.BooksBalance | contracts/protocol/LendPoolLoan.sol:26-32 | in every reachable state debt balances, debt supply and collateral counts are the sums over the live loans, and the pool's own tokens cover the standing bids |
| LoanRuns.SurplusIsKept | contracts/libraries/logic/LiquidateLogic.sol:201-207 | over any run the surplus over the standing bids grows by exactly the bids, fines and remainders the pool sent to itself |
| LoanRuns.BidsAreHeld | contracts/libraries/logic/LiquidateLogic.sol:201-207 | from nothing the pool's tokens are the standing bids plus that, and exactly the standing bids if nobody borrows or bids on behalf of the pool |
| LoanRuns.OneLoanPerNft | contracts/protocol/LendPoolLoan.sol:93-102 | no NFT backs two live loans |
| LoanRuns.NoBookkeepingErrors | contracts/protocol/LendPoolLoan.sol:187-201 | in reachable states no transaction underflows a count or balance or exceeds a loan, and a bid can always be paid back |
| LoanRuns.DebtTokenTracksLoans | contracts/protocol/DebtToken.sol:128-137 | a user's debt token balance and the debts of the user's n loans differ by at most (n + 1) / 2, in every reachable state |
| LoanRuns.ApplyEvolves | contracts/libraries/types/DataTypes.sol:63-82 | a transaction moves loans only along their life cycle and lowers no borrow index |
| LoanRuns.HistoryIsKept | contracts/libraries/types/DataTypes.sol:78-81 | over any run repaid and defaulted loans stay as they are, loans keep borrower, NFT and reserve, and indexes do not fall |
| LoanCases.PartialRepayCanEmptyALoan | contracts/libraries/logic/BorrowLogic.sol:325-339 | a run of three transactions after which an active loan owes nothing and takes no repay |
| LoanCases.RedeemCanEmptyALoan | contracts/libraries/logic/LiquidateLogic.sol:312-318 | a run of four after which a redeem has done the same |
| LoanCases.PoolKeepsItsOwnBid | contracts/libraries/logic/LiquidateLogic.sol:201-207 | a run of four after which the pool holds more than the standing bid, having been outbid itself |
| LoanIndex.IndexAfter | contracts/libraries/logic/ReserveLogic.sol:96-118 | every completed transaction other than setting a reserve up leaves the borrow indexes as accruing interest on its own reserve leaves them |
| LoanIndex.IndexIsCompound | contracts/libraries/logic/ReserveLogic.sol:273-309 | after any run an index is the compound of exactly the factors of the completed transactions that accrued interest on it |
| LoanIndex.IndexStaysNearExactCompound | contracts/libraries/logic/ReserveLogic.sol:296-302 | so however long the run, it is within n/2 parts of the exact product of those n factors |
| LendPools.LendPool.Borrow | contracts/libraries/logic/BorrowLogic.sol:145-235 | the call completes exactly under the stated condition and what the other validations admit, and gives the error of the first rule it breaks otherwise; it then has opened or increased the loan and minted its debt; a reverted call leaves the storage untouched, and the invariant holds either way |
| LendPools.LendPool.Repay | contracts/libraries/logic/BorrowLogic.sol:299-378 | the call completes exactly under the stated condition and what the other validations admit, and gives the error of the first rule it breaks otherwise; it then has lowered or closed the loan and burnt its debt |
| LendPools.LendPool.Auction | contracts/libraries/logic/LiquidateLogic.sol:123-221 | the call completes exactly under the stated condition and what the other validations admit, and gives the error of the first rule it breaks otherwise; it then has the bidder in the lead with the new bid in place of the old |
| LendPools.LendPool.Redeem | contracts/libraries/logic/LiquidateLogic.sol:248-361 | the call completes exactly under the stated condition and what the other validations admit, and gives the error of the first rule it breaks otherwise; it then has reopened the loan, smaller, and returned the bid |
| LendPools.LendPool.Liquidate | contracts/libraries/logic/LiquidateLogic.sol:384-486 | the call completes exactly under the stated condition and what the other validations admit, and gives the error of the first rule it breaks otherwise; it then has closed the loan in default and spent the bid |

## Left out

- BigNumber operands that are negative, fractional, NaN or infinite: the rounding functions are modelled for non-negative integers and positive divisors, which is how the suites use them. A liquidation threshold of zero, which yields an infinite price, is excluded for the same reason.
- The fetched values (oracle prices, decimals, configurations, addresses): parameters. The NFT oracle's own time-weighting of submitted prices is not modelled.
- Chai's registration of the comparisons, and the comparison of fields that are not numbers.
- `calcExpected*` in `test/helpers/utils/calculations.ts`: sums and products of the operations modelled here.
- Fuel and gas: the top-up of minters in `dev:mint-top-tokens`, gas reports, delays between retries.
- Loans.Borrow: the validations that read configuration, oracles, utilisation, caps and allowances are the one flag `admitted`, because the books do not depend on which of them refuses; the loan-to-value check is a premise of `LoanEffects.BorrowedLoanIsSafe`.
- LoanErrors.BorrowRefused: when `admitted` is false the error is not stated, here and for the other four transactions, because `admitted` stands for validations that come before and after the modelled ones.
- Chunk sizes that are not integers.
- Loans.UpdateState: the liquidity index and the treasury's share are not modelled; their overflows would only add reverts. Rates are given with each transaction.
- 256-bit overflow in the books: sums and products are unbounded; an overflow would only add reverts. The rounding libraries' own overflow behaviour is `OnChainMath`.
- Tokens that reach the pool's account outside the five transactions, and a pool that would call itself: every initiator is somebody else.
- Loan interceptors, flash-loan locks and the NFT transfers of a loan: callbacks and flags beside the books; what is modelled of custody is which live loan an NFT backs.
- Deposits and withdrawals (`SupplyLogic.sol`), the interest-rate model, gateways and the debt-swap adapter.
- `initNftsByHelper` and `configureNftsByHelper`: the same batching as for reserves, without the cache.
- Signing helpers, deployment, getter, print and verification tasks, market configuration tables.
