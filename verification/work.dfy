/**
 Work accounting: `GetBlockProof`, the expected number of hashes a target
 demands, and `GetBlockProofEquivalentTime`, which turns a chain-work
 difference into seconds at the tip's difficulty.
 */
module ChainWork {
  import opened Arith
  import opened Compact
  import opened Chain
  import opened Consensus
  import opened ProofOfWork

  /** The decoded bits are a usable target: not negative, not overflowed, not zero. */
  predicate Usable(bits: uint32) {
    var d := SetCompact(bits);
    !d.negative && !d.overflow && d.value != 0
  }

  /**
   `GetBlockProof`: 0 for an unusable target, otherwise `~t / (t + 1) + 1`,
   which is the floor of 2^256 / (t + 1) and at least 1.
   */
  function GetBlockProof(bits: uint32): (w: uint256)
    ensures w == 0 <==> !Usable(bits)
    ensures Usable(bits) ==> w == TWO256 / (SetCompact(bits).value + 1)
    ensures Usable(bits) ==> w >= 1
  {
    var d := SetCompact(bits);
    if d.negative || d.overflow || d.value == 0 then 0
    else
      var t := d.value;
      DecodedBelowAllOnes(bits);
      ComplementQuotient(t);
      ProofFits(t);
      Not256(t) / (t + 1) + 1
  }

  /** For 1 <= t < 2^256 - 1 the quotient 2^256 / (t + 1) lies in [1, 2^255]. */
  lemma ProofFits(t: nat)
    requires 1 <= t && t + 1 < TWO256
    ensures 1 <= TWO256 / (t + 1) <= TWO256 / 2
  {
    DivAntitone(TWO256, 2, t + 1);
    DivLowerBound(TWO256, t + 1, 1);
  }

  /** A harder (smaller) usable target never yields less work. */
  lemma BlockProofAntitone(hard: uint32, easy: uint32)
    requires Usable(hard) && Usable(easy)
    requires SetCompact(hard).value <= SetCompact(easy).value
    ensures GetBlockProof(hard) >= GetBlockProof(easy)
  {
    DivAntitone(TWO256, SetCompact(hard).value + 1, SetCompact(easy).value + 1);
  }

  /**
   The work function is not strictly decreasing: two different targets near
   2^255 both count as 2 hashes.
   */
  lemma BlockProofNotStrict()
    ensures SetCompact(0x207ffffe).value < SetCompact(0x207fffff).value
    ensures Usable(0x207ffffe) && Usable(0x207fffff)
    ensures GetBlockProof(0x207ffffe) == GetBlockProof(0x207fffff) == 2
  {
    var p := Pow256(29);
    DecodeNearHalf(0x207fffff, 0x7f_ffff);
    DecodeNearHalf(0x207ffffe, 0x7f_fffe);
    assert 0x7f_fffe * p < 0x7f_ffff * p;
    NearHalf(0x7f_ffff, p);
    NearHalf(0x7f_fffe, p);
  }

  /** Bits with exponent 32 and a mantissa just below 2^23 decode exactly to m * 256^29. */
  lemma DecodeNearHalf(c: uint32, m: nat)
    requires c == 0x2000_0000 + m && 0x60_0000 <= m < 0x80_0000
    ensures Pow256(29) * 0x100_0000 == TWO256
    ensures SetCompact(c) == Decoded(m * Pow256(29), false, false)
  {
    var p := Pow256(29);
    Pow256Add(29, 3);
    Pow256Is32Bytes();
    Pow256Small();
    assert p * 0x100_0000 == TWO256;
    assert Exponent(c) == 32 && Mantissa(c) == m && !SignBit(c);
    assert ExactValue(c) == m * p;
    MulMonotone(m, 0x100_0000, p);
    DivModUnique(m * p, TWO256, 0, m * p);
  }

  /** m * 2^232 + 1, for m just below 2^23, goes into 2^256 exactly twice. */
  lemma NearHalf(m: nat, p: nat)
    requires p * 0x100_0000 == TWO256 && 0x60_0000 <= m < 0x80_0000
    ensures m * p < TWO256 && TWO256 / (m * p + 1) == 2
  {
    var x := m * p + 1;
    assert x <= 0x7f_ffff * p + 1;
    assert 2 * x <= TWO256;
    assert 3 * x > TWO256 by {
      assert 3 * m * p >= 0x120_0000 * p;
    }
    DivModUnique(TWO256, x, 2, TWO256 - 2 * x);
  }

  /** A block whose bits pass the proof-of-work check carries at least one unit of work. */
  lemma CheckedBlockHasWork(hash: uint256, bits: uint32, params: Params)
    requires CheckProofOfWork(hash, bits, params)
    ensures GetBlockProof(bits) >= 1
  {
  }

  // ---------------------------------------------------------------------------
  // Equivalent time

  /** `r * spacing / GetBlockProof(tip)`, with the 256-bit product wrapping. */
  function WorkSeconds(diff: uint256, spacing: nat, proof: nat): (q: uint256)
    requires proof > 0 && spacing < TWO256
    ensures q * proof <= (diff * spacing) % TWO256 < (q + 1) * proof
  {
    DivTimesAtMost((diff * spacing) % TWO256, proof);
    ((diff * spacing) % TWO256) / proof
  }

  /** The magnitude of the chain-work difference between two blocks. */
  function WorkDistance(a: uint256, b: uint256): (d: uint256)
    ensures a + d == b || b + d == a
  {
    if a > b then a - b else b - a
  }

  /** The unsaturated magnitude of the equivalent time: work distance times spacing over the tip's proof. */
  function EquivalentSeconds(to: BlockIndex, from: BlockIndex, tip: BlockIndex, params: Params): uint256
    requires IsInt64(params.powTargetSpacing) && GetBlockProof(tip.bits) > 0
  {
    WorkSeconds(WorkDistance(to.chainWork, from.chainWork), Uint64Of(params.powTargetSpacing), GetBlockProof(tip.bits))
  }

  /**
   `GetBlockProofEquivalentTime(to, from, tip, params)`. The tip's block
   proof must be nonzero, as `arith_uint256` division by zero throws. The
   spacing enters the product as a `uint64_t`, so a negative one wraps. The
   magnitude is the wrapped work quotient, saturated at `INT64_MAX` once it
   needs more than 63 bits; the sign is negative unless `to` has strictly
   more chain work.
   */
  function GetBlockProofEquivalentTime(to: BlockIndex, from: BlockIndex, tip: BlockIndex, params: Params): (r: int)
    requires IsInt64(params.powTargetSpacing) && GetBlockProof(tip.bits) > 0
    ensures -INT64_MAX <= r <= INT64_MAX
    ensures r > 0 ==> to.chainWork > from.chainWork
    ensures r < 0 ==> from.chainWork > to.chainWork
    ensures to.chainWork == from.chainWork ==> r == 0
    ensures (r == INT64_MAX || r == -INT64_MAX) <==> EquivalentSeconds(to, from, tip, params) >= INT64_MAX
    ensures EquivalentSeconds(to, from, tip, params) <= INT64_MAX ==>
              r == EquivalentSeconds(to, from, tip, params) || r == 0 - EquivalentSeconds(to, from, tip, params)
  {
    EquivalentTime(to.chainWork, from.chainWork, Uint64Of(params.powTargetSpacing), GetBlockProof(tip.bits))
  }

  /** The equivalent time for given chain works, spacing and tip proof. */
  function EquivalentTime(toWork: uint256, fromWork: uint256, spacing: nat, proof: nat): (r: int)
    requires proof > 0 && spacing < TWO256
    ensures -INT64_MAX <= r <= INT64_MAX
    ensures r > 0 ==> toWork > fromWork
    ensures r < 0 ==> fromWork > toWork
    ensures toWork == fromWork ==> r == 0
    ensures (r == INT64_MAX || r == -INT64_MAX) <==> WorkSeconds(WorkDistance(toWork, fromWork), spacing, proof) >= INT64_MAX
    ensures var q := WorkSeconds(WorkDistance(toWork, fromWork), spacing, proof);
            q <= INT64_MAX ==> r == q || r == 0 - q
  {
    var q := WorkSeconds(WorkDistance(toWork, fromWork), spacing, proof);
    NoDistanceNoTime(toWork, fromWork, spacing, proof);
    Saturate(!(toWork > fromWork), q)
  }

  lemma NoDistanceNoTime(toWork: uint256, fromWork: uint256, spacing: nat, proof: nat)
    requires proof > 0 && spacing < TWO256
    ensures toWork == fromWork ==> WorkSeconds(WorkDistance(toWork, fromWork), spacing, proof) == 0
  {
    var d := WorkDistance(toWork, fromWork);
    assert toWork == fromWork ==> d == 0;
    assert d == 0 ==> d * spacing == 0;
    assert 0 % TWO256 == 0 && 0 / proof == 0;
  }

  /** `sign * min(q, INT64_MAX)`, the cut-off taken on `r.bits() > 63`. */
  function Saturate(negative: bool, q: nat): (r: int)
    ensures -INT64_MAX <= r <= INT64_MAX
    ensures negative ==> r <= 0
    ensures !negative ==> r >= 0
    ensures r == 0 <==> q == 0
    ensures (r == INT64_MAX || r == -INT64_MAX) <==> q >= INT64_MAX
    ensures q <= INT64_MAX ==> r == q || r == 0 - q
  {
    SaturationThreshold(q);
    var magnitude := if Bits(q) > 63 then INT64_MAX else q;
    if negative then -magnitude else magnitude
  }

  /** `r.bits() > 63` holds exactly when r exceeds `INT64_MAX`. */
  lemma SaturationThreshold(q: nat)
    ensures Bits(q) > 63 <==> q > INT64_MAX
  {
    BitsExceed(q, 63);
    Pow2Of63();
  }

  /** Swapping the two blocks negates the equivalent time. */
  lemma EquivalentTimeAntisymmetric(a: BlockIndex, b: BlockIndex, tip: BlockIndex, params: Params)
    requires IsInt64(params.powTargetSpacing) && GetBlockProof(tip.bits) > 0
    ensures GetBlockProofEquivalentTime(a, b, tip, params) == -GetBlockProofEquivalentTime(b, a, tip, params)
  {
    var q := WorkSeconds(WorkDistance(a.chainWork, b.chainWork), Uint64Of(params.powTargetSpacing), GetBlockProof(tip.bits));
    assert WorkDistance(a.chainWork, b.chainWork) == WorkDistance(b.chainWork, a.chainWork);
    SaturationThreshold(q);
  }

  /**
   A work lead of exactly k tip-sized blocks, with nothing wrapping and no
   saturation, is worth k target spacings.
   */
  lemma LeadOfBlocks(to: BlockIndex, from: BlockIndex, tip: BlockIndex, params: Params, k: nat)
    requires 0 <= params.powTargetSpacing < TWO63 && GetBlockProof(tip.bits) > 0
    requires to.chainWork == from.chainWork + k * GetBlockProof(tip.bits)
    requires k * GetBlockProof(tip.bits) * params.powTargetSpacing < TWO256
    requires k * params.powTargetSpacing <= INT64_MAX
    ensures GetBlockProofEquivalentTime(to, from, tip, params) == k * params.powTargetSpacing
  {
    var proof := GetBlockProof(tip.bits);
    assert WorkDistance(to.chainWork, from.chainWork) == k * proof;
    SecondsOfBlocks(k, proof, params.powTargetSpacing);
  }

  /** k blocks of work `proof` convert to k spacings when the product fits. */
  lemma SecondsOfBlocks(k: nat, proof: nat, s: nat)
    requires proof > 0 && s < TWO256 && k * proof < TWO256 && k * proof * s < TWO256
    ensures WorkSeconds(k * proof, s, proof) == k * s
  {
    var x := (k * proof) * s;
    MulRegroup(k, proof, s);
    assert x == (k * s) * proof;
    DivModUnique(x, TWO256, 0, x);
    MulDivCancel(k * s, proof);
  }
}
