# Proof-of-work rules of fargocoind, modelled in Dafny

This project models `src/pow.cpp` of fargocoind, a Bitcoin-derived node with a
proof-of-work era followed by a proof-of-stake era. The file holds six
functions:

- `GetLastBlockIndex` walks back along `pprev` to the nearest block of the
  wanted kind.
- `GetNextWorkRequired` is the 24-block moving-window retarget: average the
  decoded targets of the window, sum its timestamp gaps, clamp that sum to
  [T/3, 3T], scale, then cap at the ceiling of the era.
- `CalculateNextWorkRequired` is the legacy full-epoch retarget, with its
  clamp to [T/4, 4T].
- `CheckProofOfWork` checks the range of the decoded target, then compares
  the hash with it.
- `GetBlockProof` gives the expected number of hashes a target demands.
- `GetBlockProofEquivalentTime` converts a chain-work difference into
  seconds, saturated to `int64_t`.

The modules follow the program's structure:

| file | module | contents |
|---|---|---|
| `arith.dfy` | `Arith` | `arith_uint256`, `uint32_t` and `int64_t` as bounded integers, with every wrap written out as `% 2^256`; powers, bit and byte lengths, division lemmas |
| `compact.dfy` | `Compact` | the compact `nBits` codec `SetCompact` / `GetCompact` and its round-trip lemmas |
| `chain.dfy` | `Chain` | `CBlockIndex` as an immutable arena; `pprev` is the position of the parent |
| `consensus.dfy` | `Consensus` | the consensus parameters, passed explicitly, and the era of a height |
| `walk.dfy` | `AncestorWalk` | `GetLastBlockIndex` |
| `retarget.dfy` | `Retarget` | both retargets, with the clamp, scale and cap steps they share |
| `proof.dfy` | `ProofOfWork` | `CheckProofOfWork` |
| `work.dfy` | `ChainWork` | `GetBlockProof`, `GetBlockProofEquivalentTime` |

Every 256-bit product and sum is reduced modulo 2^256, as `arith_uint256`
does. Every division is the truncating division of non-negative values.

`bn *= nActualTimespan` passes an `int64_t` to `arith_uint256`. Of the
overloads, this picks the `uint32_t` one. Each retarget is modelled for the
parameter it reads:

- The moving window needs `Consensus.WindowValid`: a positive spacing, with
  three times a 24-block window below 2^32. It needs this only past the
  bootstrap guard, for a tip at height 24 or more.
- The legacy retarget needs `Consensus.EpochValid`: a positive epoch
  timespan, with four times it below 2^32. It needs this only when
  retargeting is on.

Under these bounds the clamped timespan reaches the multiplier unchanged.
`pindexLast->GetBlockTime() - nFirstBlockTime` is kept in the `int64_t`
range by a separate precondition of `Retarget.CalculateNextWorkRequired`,
again only when retargeting is on.

`GetBlockProofEquivalentTime` reads only the spacing. Any `int64_t` spacing
is accepted: it is converted to `uint64_t` as the `arith_uint256`
constructor does, so a negative spacing wraps (`Arith.Uint64Of`).

Some properties one might expect of this code do not hold. The model
follows the code and proves what it actually does:

- A full window of identical targets, spaced exactly one target spacing
  apart, does not reproduce its target. The loop sums 23 gaps, measured
  against a target timespan of 24 spacings, so the result is 23/24 of the
  target (`Retarget.UniformWindowTarget`).
- The negative flag of `SetCompact` is set only when the sign bit is set and
  the shifted mantissa is nonzero, not on every word with the sign bit.
- `GetBlockProof` is non-increasing in the target, not strictly decreasing.
  `0x207ffffe` and `0x207fffff` both give 2 (`ChainWork.BlockProofNotStrict`).
- `GetBlockProofEquivalentTime` saturates at `INT64_MAX` only above 63 bits.
  A quotient of exactly `INT64_MAX` is returned as is, and so meets the
  saturated value.
- A target capped at the ceiling of the era is not returned as that ceiling
  in every case. `GetCompact` rounds down, so the bits decode to exactly the
  ceiling only when the ceiling is itself a compact value
  (`Retarget.SaturatedWindow`).

## Model

| member | source | states |
|---|---|---|
| AncestorWalk.GetLastBlockIndex | src/pow.cpp:14-19 | a null start gives null; otherwise the result is the start or one of its ancestors, is a block where the loop may stop (the wanted kind, or no parent), and is reached only through blocks of the other kind |
| AncestorWalk.LastBlockIndex | src/pow.cpp:16-17 | the loop from a block that exists: it ends at or below the start, on an ancestor-or-self, at a stopping block reached through skipped blocks |
| AncestorWalk.LastBlockIndexIsNearest | src/pow.cpp:16-17 | the walk ends at the nearest stopping block: any stopping block reachable through blocks of the other kind is the result |
| Compact.SetCompact | src/pow.cpp:135 | the decoded value is mantissa * 256^(e-3) reduced modulo 2^256; the overflow flag is set exactly when that exact value needs more than 256 bits; the negative flag exactly when the sign bit is set and the value is nonzero |
| Compact.GetCompact | src/pow.cpp:92 | encoding a target yields bits that decode with neither flag to a value no larger than the target, and nonzero whenever the target is nonzero (encoding rounds down) |
| Compact.EncodeExact | src/pow.cpp:92 | a target that is a 23-bit mantissa times a power of 256 survives encoding and decoding exactly |
| Compact.DecodeEncodeDecode | src/pow.cpp:112-126 | re-encoding a decoded target and decoding again returns the same target, flags cleared |
| Compact.DecodedBelowAllOnes | src/pow.cpp:160 | no decoded target is 2^256 - 1, so `bnTarget + 1` never wraps |
| Consensus.EraMonotone | src/pow.cpp:23 | the era test `nHeight >= LastPOWBlock()` (`Consensus.EraAt`) switches one way: once a tip height is in the proof-of-stake era, every higher one is too |
| Retarget.WindowFrom | src/pow.cpp:41-63 | the blocks the loop visits from a block with a number of iterations left, newest first: never more than that number, and all of them blocks of the arena. Where it stops (height 0, the bound of line 42, a block without a parent at line 62) is stated by `Retarget.WindowShape` |
| Retarget.AverageStep | src/pow.cpp:48 | one step of the weighted average: the truncated quotient of (prev * count + t) mod 2^256 by count + 1, r * (count + 1) <= sum < (r + 1) * (count + 1) |
| Retarget.WindowShape | src/pow.cpp:41-64 | the visited blocks are a run of consecutive parents from the tip, all above height 0, ending early only at a block with no parent or just before a height-0 block |
| Retarget.WindowLength | src/pow.cpp:41-42 | on a chain whose heights drop by one per parent, the loop visits min(24, tip height) blocks |
| Retarget.WindowFull | src/pow.cpp:35-42 | on a chain whose heights drop by one per parent, past the bootstrap guard the loop counts exactly 24 blocks and the target timespan is positive |
| Retarget.Advance | src/pow.cpp:43-63 | one iteration turns the accumulators for the visited prefix into those for the prefix plus the block read, or completes the window |
| Retarget.Visit | src/pow.cpp:43-63 | the loop body: increments the count, folds the block's target into the average, adds the gap to the previous block, and keeps the loop state |
| Retarget.ScanWindow | src/pow.cpp:41-64 | the count is the window length (at most 24); the average is `RunningAverage` of exactly that window (the first target, then one `AverageStep` per further block, lines 46-50) and the actual timespan is `ActualTimespan`, the sum of the `Gap`s between consecutive visited blocks, skipped while `LastBlockTime` is 0 (lines 53-60) |
| Retarget.AverageOfEqual | src/pow.cpp:48 | folding a target t into an average already equal to t leaves t, when the product does not wrap |
| Retarget.UniformAverage | src/pow.cpp:46-50 | a window whose blocks all carry target t averages to t, when t * 25 fits in 256 bits |
| Retarget.UniformTimespan | src/pow.cpp:53-60 | blocks exactly s seconds apart with nonzero times give an actual timespan of (n - 1) * s over n blocks |
| Retarget.UniformWindowTarget | src/pow.cpp:41-88 | a full uniform window spaced at the target spacing yields the cap of 23/24 of its target, not the target |
| Retarget.SaturatedWindow | src/pow.cpp:83-92 | when the scaled target reaches the era ceiling and the ceiling is a compact value, the returned bits decode to the ceiling exactly |
| Retarget.ClampTimespan | src/pow.cpp:73-76 | the result lies in [lo, hi]; it equals the input inside the range and the violated bound outside it |
| Retarget.ScaleTarget | src/pow.cpp:79-80 | the result is the truncated quotient of the wrapped product: r * T <= (target * ts) mod 2^256 < (r + 1) * T |
| Retarget.Cap | src/pow.cpp:86-88 | the result is at most both inputs and equal to one of them |
| Retarget.WindowTargetTimespan | src/pow.cpp:69 | the target timespan of a nonempty window is positive, and three times it fits in 32 bits |
| Retarget.WindowTimespan | src/pow.cpp:69-76 | the timespan used lies in [T/3, 3T] and fits the 32-bit multiplier |
| Retarget.NextTarget | src/pow.cpp:66-88 | the pre-encoding window target never exceeds `Consensus.Limit` of the era chosen at line 23: `posLimit` in the proof-of-stake era, `powLimit` before it |
| Retarget.GetNextWorkRequired | src/pow.cpp:21-93 | a tip below height 24 gets the encoded PoW ceiling; otherwise the encoded capped window target. The bits always decode without flags to at most the applicable ceiling |
| Retarget.LegacyTarget | src/pow.cpp:100-118 | the legacy pre-encoding target never exceeds the PoW ceiling |
| Retarget.CalculateNextWorkRequired | src/pow.cpp:95-127 | with retargeting off the bits are unchanged; otherwise they encode the legacy target and decode without flags to at most the PoW ceiling |
| Retarget.ScaleMonotone | src/pow.cpp:79-80 | without wrap-around, a longer timespan never gives a smaller target |
| Retarget.ScaleIdentity | src/pow.cpp:79-80 | without wrap-around, scaling by a timespan equal to the target timespan returns the target |
| Retarget.ScaleByMultiple | src/pow.cpp:114-115 | without wrap-around, scaling by k times the target timespan multiplies the target by k |
| Retarget.ClampMonotone | src/pow.cpp:73-76 | clamping is monotone in the measured timespan |
| Retarget.WindowMonotone | src/pow.cpp:69-80 | `WindowScaled`, the average scaled by the clamped timespan over the target timespan (lines 79-80), is monotone: slower windows never give a harder target, while the product fits in 256 bits |
| Retarget.WindowOnSchedule | src/pow.cpp:69-80 | a window that took exactly its target timespan keeps its average target |
| Retarget.LegacyMonotone | src/pow.cpp:103-115 | slower epochs never give a harder legacy target, while the product fits |
| Retarget.LegacyOnSchedule | src/pow.cpp:103-118 | an epoch that took exactly the target timespan keeps its target, up to the PoW ceiling |
| Retarget.LegacyAtMostFourfold | src/pow.cpp:103-115 | one legacy retarget at most quadruples the target, while nothing wraps |
| ProofOfWork.Check | src/pow.cpp:129-146 | which return is taken: too little work exactly when negative, zero, overflowed or above the ceiling (the negation of `InRange`, line 138); hash too high exactly when in range and the hash exceeds the target; accepted otherwise |
| ProofOfWork.CheckProofOfWork | src/pow.cpp:129-146 | true exactly when the bits carry no sign, their exact value is a positive target within the ceiling, and the hash does not exceed it |
| ProofOfWork.AcceptedBelowTarget | src/pow.cpp:135-145 | bits produced by encoding a target t never accept a hash above t |
| ProofOfWork.AcceptsExactlyBelow | src/pow.cpp:135-145 | for an in-range compact target, the re-encoded bits accept exactly the hashes at or below it |
| ProofOfWork.EasierTargetAccepts | src/pow.cpp:138-145 | an easier in-range target accepts every hash a harder one accepts |
| ChainWork.GetBlockProof | src/pow.cpp:148-161 | 0 exactly for a negative, overflowed or zero target (the bits are not `Usable`, line 154); otherwise floor(2^256 / (target + 1)), at least 1 |
| ChainWork.ProofFits | src/pow.cpp:156-160 | for a decodable nonzero target, 2^256 / (target + 1) lies in [1, 2^255] |
| ChainWork.BlockProofAntitone | src/pow.cpp:148-161 | a harder usable target never yields less work |
| ChainWork.BlockProofNotStrict | src/pow.cpp:153-160 | two different usable targets, 0x207ffffe and 0x207fffff, yield the same work, 2 |
| ChainWork.CheckedBlockHasWork | src/pow.cpp:138-160 | bits that pass the proof-of-work check carry at least one unit of work |
| ChainWork.WorkDistance | src/pow.cpp:167-172 | the magnitude of the chain-work difference: adding it to the smaller gives the larger |
| ChainWork.WorkSeconds | src/pow.cpp:173 | the truncated quotient of the wrapped product: q * proof <= (distance * spacing) mod 2^256 < (q + 1) * proof |
| ChainWork.NoDistanceNoTime | src/pow.cpp:167-173 | equal chain work gives a zero quotient |
| ChainWork.Saturate | src/pow.cpp:174-177 | sign times min(q, INT64_MAX): zero exactly for q = 0, saturated exactly when q >= INT64_MAX, the sign as requested |
| ChainWork.SaturationThreshold | src/pow.cpp:174 | `bits() > 63` holds exactly when the value exceeds INT64_MAX |
| ChainWork.EquivalentTime | src/pow.cpp:165-177 | the result lies within +-INT64_MAX, is positive only if `to` has more work and negative only if `from` has more, is zero for equal work, and is the signed quotient unless saturated |
| ChainWork.GetBlockProofEquivalentTime | src/pow.cpp:163-178 | the same bounds, signs and saturation for two blocks and a tip whose proof is nonzero, with the `int64_t` spacing converted to `uint64_t` before the product |
| ChainWork.EquivalentTimeAntisymmetric | src/pow.cpp:163-178 | swapping the two blocks negates the result |
| ChainWork.SecondsOfBlocks | src/pow.cpp:173 | k blocks of proof p convert to k spacings when nothing wraps |
| ChainWork.LeadOfBlocks | src/pow.cpp:163-178 | a chain-work lead of exactly k tip-sized blocks is worth k target spacings, when nothing wraps or saturates |

## Left out

- `arith_uint256.cpp` is not part of this model. `SetCompact`, `GetCompact`, `bits()`, `~`, `*`, `/` and the comparisons follow the standard Bitcoin Core definitions of `arith_uint256`.
- `GetNextWorkRequired` reads `powLimit`, `posLimit`, `nPowTargetSpacing` and `LastPOWBlock()` from the global `Params()` (lines 23, 38, 69, 84-85), not from its `params` argument. `LastPOWBlock()` even comes from the chain parameters rather than `Consensus::Params`. The other three functions read their argument (lines 97-115, 138, 173). The model passes one explicit `Consensus.Params` value to all of them. So it does not capture a caller whose argument differs from the global parameters: for such a caller the C++ ignores the argument in `GetNextWorkRequired`.
- Retarget.GetNextWorkRequired: requires `Consensus.WindowValid`, but only for a tip at height 24 or more; the bootstrap path (lines 35-38) reads no spacing and accepts any. Past the guard, a spacing of zero or less makes the target timespan zero or negative, and the division then fails or uses a wrapped divisor. A spacing for which 72 spacings reach 2^32 can push the clamped timespan past the 32-bit multiplier, which truncates it. Neither case is modelled.
- Retarget.CalculateNextWorkRequired: requires `Consensus.EpochValid` and an `int64_t` timestamp difference, but only when retargeting is on. A non-positive epoch timespan and the truncation of four epochs at or above 2^32 are not modelled, and signed overflow in the subtraction is undefined behaviour.
- `LogPrintf` calls (lines 102 and 121-124) are I/O and have no effect on the result.
- The `pblock` argument of `GetNextWorkRequired` is never read, so it is not modelled.
- A null `pindexLast` is outside the domain: the C++ dereferences it at line 23 before the null test of line 35. A `GetNextWorkRequired` tip is therefore a position in the arena, and `CalculateNextWorkRequired` takes the block record itself.
- `GetBlockProofEquivalentTime` requires a nonzero proof for the tip, because `arith_uint256` division by zero throws.
- `GetBlockProofEquivalentTime` does not model the `GetLow64()` truncation. Below the saturation threshold the quotient already fits in 63 bits.
- How the block index is built (`pprev`, `nChainWork`, the `IsProofOfStake()` flag) is not part of this model. The arena is taken as given.
- Retarget.UniformAverage: requires that the 256-bit product does not wrap, because with wrap-around the code promises no such property.
- Retarget.UniformWindowTarget: requires that the 256-bit product does not wrap, because with wrap-around the code promises no such property.
- Retarget.ScaleMonotone: requires that the 256-bit product does not wrap, because with wrap-around the code promises no such property.
- Retarget.ScaleIdentity: requires that the 256-bit product does not wrap, because with wrap-around the code promises no such property.
- Retarget.ScaleByMultiple: requires that the 256-bit product does not wrap, because with wrap-around the code promises no such property.
- Retarget.WindowMonotone: requires that the 256-bit product does not wrap, because with wrap-around the code promises no such property.
- Retarget.WindowOnSchedule: requires that the 256-bit product does not wrap, because with wrap-around the code promises no such property.
- Retarget.LegacyMonotone: requires that the 256-bit product does not wrap, because with wrap-around the code promises no such property.
- Retarget.LegacyOnSchedule: requires that the 256-bit product does not wrap, because with wrap-around the code promises no such property.
- Retarget.LegacyAtMostFourfold: requires that the 256-bit product does not wrap, because with wrap-around the code promises no such property.
- Retarget.AverageOfEqual: requires that the 256-bit product does not wrap, because with wrap-around the code promises no such property.
- ChainWork.LeadOfBlocks: requires a non-negative spacing below 2^63, work products that fit in 256 bits, and a result below saturation, for the same reason.
- ChainWork.SecondsOfBlocks: requires that the work products fit in 256 bits, for the same reason.
