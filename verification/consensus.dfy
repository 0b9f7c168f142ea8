/**
 The consensus parameters the proof-of-work code reads, passed explicitly
 instead of through the `Params()` singleton.
 */
module Consensus {
  import opened Arith

  datatype Params = Params(
    powLimit: uint256,          // easiest target allowed while blocks are mined
    posLimit: uint256,          // easiest target allowed once blocks are staked
    powTargetSpacing: int,      // seconds between blocks
    powTargetTimespan: int,     // seconds per legacy retarget epoch
    powNoRetargeting: bool,     // keep the previous target unchanged
    lastPowBlock: int)          // first height of the proof-of-stake era

  /**
   The spacings the moving-window retarget is modelled for: positive, so the
   target timespan it divides by is nonzero, and small enough that three
   times a 24-block window stays below 2^32, so the 32-bit multiplier of
   `arith_uint256::operator*=` receives the clamped timespan unchanged.
   */
  predicate WindowValid(p: Params) {
    0 < p.powTargetSpacing && 72 * p.powTargetSpacing < TWO32
  }

  /**
   The epoch timespans the legacy retarget is modelled for: positive, and
   small enough that four times an epoch stays below 2^32.
   */
  predicate EpochValid(p: Params) {
    0 < p.powTargetTimespan && 4 * p.powTargetTimespan < TWO32
  }

  datatype Era = ProofOfWork | ProofOfStake

  /** The era a block extending a tip of the given height belongs to. */
  function EraAt(height: int, p: Params): (e: Era)
    ensures e == ProofOfStake <==> height >= p.lastPowBlock
  {
    if height >= p.lastPowBlock then ProofOfStake else ProofOfWork
  }

  /** The switch to proof-of-stake is one-way: a higher tip never goes back to proof-of-work. */
  lemma EraMonotone(h1: int, h2: int, p: Params)
    requires h1 <= h2
    ensures EraAt(h1, p) == ProofOfStake ==> EraAt(h2, p) == ProofOfStake
    ensures EraAt(h2, p) == ProofOfWork ==> EraAt(h1, p) == ProofOfWork
  {
  }

  /** The easiest target the era admits. */
  function Limit(e: Era, p: Params): uint256
  {
    match e
    case ProofOfWork => p.powLimit
    case ProofOfStake => p.posLimit
  }
}
