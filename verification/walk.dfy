/** `GetLastBlockIndex`: the nearest block, walking back, of the wanted kind. */
module AncestorWalk {
  import opened Chain

  /**
   r is reached from i by parent links through blocks whose proof-of-stake
   flag differs from `flag` (r itself excluded).
   */
  ghost predicate SkipsTo(chain: Arena, i: nat, r: nat, flag: bool)
    requires WellFormed(chain) && i < |chain|
    decreases i
  {
    i == r ||
    (chain[i].parent.Some? && chain[i].proofOfStake != flag && SkipsTo(chain, chain[i].parent.value, r, flag))
  }

  /** Where the walk stops: at a block of the wanted kind, or at one without a parent. */
  predicate Stops(chain: Arena, r: nat, flag: bool)
    requires r < |chain|
  {
    chain[r].parent.None? || chain[r].proofOfStake == flag
  }

  /** The walk of the `while` loop, from a block that exists. */
  function LastBlockIndex(chain: Arena, i: nat, flag: bool): (r: nat)
    requires WellFormed(chain) && i < |chain|
    ensures r <= i && r < |chain|
    ensures IsAncestorOrSelf(chain, r, i)
    ensures Stops(chain, r, flag)
    ensures SkipsTo(chain, i, r, flag)
    decreases i
  {
    if chain[i].parent.Some? && chain[i].proofOfStake != flag then
      LastBlockIndex(chain, chain[i].parent.value, flag)
    else
      i
  }

  /** `GetLastBlockIndex(pindex, fProofOfStake)`; a null start gives null. */
  function GetLastBlockIndex(chain: Arena, pindex: Option<nat>, fProofOfStake: bool): (r: Option<nat>)
    requires WellFormed(chain) && (pindex.Some? ==> pindex.value < |chain|)
    ensures r.Some? <==> pindex.Some?
    ensures r.Some? ==> r.value < |chain| && IsAncestorOrSelf(chain, r.value, pindex.value)
    ensures r.Some? ==> Stops(chain, r.value, fProofOfStake) && SkipsTo(chain, pindex.value, r.value, fProofOfStake)
  {
    match pindex
    case None => None
    case Some(i) => Some(LastBlockIndex(chain, i, fProofOfStake))
  }

  /**
   The walk's result is the only block reached through non-matching blocks
   at which the walk may stop: the nearest one.
   */
  lemma {:induction false} LastBlockIndexIsNearest(chain: Arena, i: nat, a: nat, flag: bool)
    requires WellFormed(chain) && i < |chain| && a < |chain|
    requires SkipsTo(chain, i, a, flag) && Stops(chain, a, flag)
    ensures LastBlockIndex(chain, i, flag) == a
    decreases i
  {
    if i != a {
      LastBlockIndexIsNearest(chain, chain[i].parent.value, a, flag);
    }
  }
}
