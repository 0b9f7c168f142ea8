/**
 The block index as this code sees it: an immutable arena of `CBlockIndex`
 records in which a parent link is the arena position of the parent. The
 chain index that builds it is not part of this model.
 */
module Chain {
  import opened Arith

  datatype Option<T> = None | Some(value: T)

  datatype BlockIndex = BlockIndex(
    height: nat,
    time: uint32,             // nTime; GetBlockTime() widens it to int64
    bits: uint32,             // compact target
    proofOfStake: bool,       // IsProofOfStake()
    parent: Option<nat>,      // pprev, None at genesis
    chainWork: uint256)       // nChainWork

  type Arena = seq<BlockIndex>

  /** Parents sit at smaller positions, so following parents always ends. */
  predicate WellFormed(chain: Arena) {
    forall i :: 0 <= i < |chain| && chain[i].parent.Some? ==> chain[i].parent.value < i
  }

  /**
   The usual block-index shape: a parent is exactly one lower, and only a
   height-0 block lacks a parent.
   */
  predicate HeightsLinked(chain: Arena)
    requires WellFormed(chain)
  {
    forall i :: 0 <= i < |chain| ==>
      (chain[i].parent.Some? ==> chain[chain[i].parent.value].height + 1 == chain[i].height) &&
      (chain[i].parent.None? ==> chain[i].height == 0)
  }

  /** a is i or reachable from i by parent links. */
  ghost predicate IsAncestorOrSelf(chain: Arena, a: nat, i: nat)
    requires WellFormed(chain) && i < |chain|
    decreases i
  {
    a == i || (chain[i].parent.Some? && IsAncestorOrSelf(chain, a, chain[i].parent.value))
  }
}
