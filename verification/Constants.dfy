/** The numeric constants of helpers/constants.ts. */
module Constants {
  const PERCENTAGE_FACTOR: nat := 10_000
  const HALF_PERCENTAGE: nat := 5_000
  const WAD: nat := 1_000_000_000_000_000_000
  const HALF_WAD: nat := 500_000_000_000_000_000
  const RAY: nat := 1_000_000_000_000_000_000_000_000_000
  const HALF_RAY: nat := 500_000_000_000_000_000_000_000_000
  const WAD_RAY_RATIO: nat := 1_000_000_000
  const MAX_UINT256: nat := 0xFFFF_FFFF_FFFF_FFFF_FFFF_FFFF_FFFF_FFFF_FFFF_FFFF_FFFF_FFFF_FFFF_FFFF_FFFF_FFFF
}
