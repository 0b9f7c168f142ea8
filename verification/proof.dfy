/**
 `CheckProofOfWork`: a range check on the decoded compact target followed by
 the comparison of the block hash, read as a 256-bit number, with it.
 */
module ProofOfWork {
  import opened Arith
  import opened Compact
  import opened Consensus

  /** The three ways the check can end; the C++ returns false for both failures. */
  datatype Verdict = Accepted | BelowMinimumWork | HashAboveTarget

  /** The decoded target is usable: not negative, not zero, not overflowed, within the ceiling. */
  predicate InRange(bits: uint32, params: Params) {
    var d := SetCompact(bits);
    !d.negative && d.value != 0 && !d.overflow && d.value <= params.powLimit
  }

  /** Which `return` of `CheckProofOfWork` is taken. */
  function Check(hash: uint256, bits: uint32, params: Params): (v: Verdict)
    ensures v == BelowMinimumWork <==>
              (SignBit(bits) && ExactValue(bits) != 0) || ExactValue(bits) % TWO256 == 0 ||
              ExactValue(bits) >= TWO256 || ExactValue(bits) % TWO256 > params.powLimit
    ensures v == HashAboveTarget <==> InRange(bits, params) && hash > ExactValue(bits)
    ensures v == Accepted <==> InRange(bits, params) && hash <= ExactValue(bits)
  {
    var d := SetCompact(bits);
    if d.negative || d.value == 0 || d.overflow || d.value > params.powLimit then BelowMinimumWork
    else if hash > d.value then HashAboveTarget
    else Accepted
  }

  /**
   `CheckProofOfWork(hash, nBits, params)`: true exactly when the bits carry
   no sign, their exact value is a positive target within the ceiling, and
   the hash does not exceed it.
   */
  function CheckProofOfWork(hash: uint256, bits: uint32, params: Params): (ok: bool)
    ensures ok <==> !SignBit(bits) && 0 < ExactValue(bits) <= params.powLimit && hash <= ExactValue(bits)
  {
    Check(hash, bits, params) == Accepted
  }

  /**
   Soundness against the intended target: bits produced by encoding t never
   accept a hash above t (the encoding only rounds the target down).
   */
  lemma AcceptedBelowTarget(hash: uint256, t: uint256, params: Params)
    ensures CheckProofOfWork(hash, GetCompact(t), params) ==> hash <= t
  {
  }

  /**
   For a target that is itself a compact value within the ceiling, the bits
   the node writes for it accept exactly the hashes at or below it.
   */
  lemma AcceptsExactlyBelow(hash: uint256, c: uint32, params: Params)
    requires 0 < SetCompact(c).value <= params.powLimit
    ensures CheckProofOfWork(hash, GetCompact(SetCompact(c).value), params) <==> hash <= SetCompact(c).value
  {
    DecodeEncodeDecode(c);
  }

  /**
   An easier in-range target accepts every hash a harder one accepts: the
   check is monotone in the decoded target.
   */
  lemma EasierTargetAccepts(hash: uint256, hard: uint32, easy: uint32, params: Params)
    requires InRange(easy, params)
    requires SetCompact(hard).value <= SetCompact(easy).value
    ensures CheckProofOfWork(hash, hard, params) ==> CheckProofOfWork(hash, easy, params)
  {
  }
}
