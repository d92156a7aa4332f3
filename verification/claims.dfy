/**
 Claims of a fault dispute game, and the geometry of their positions.

 A claim is what the dispute game contract stores for every move: the
 position in the game tree it commits to, the value it commits to there, and
 the index (in contract order) of the claim it responds to.  How positions are
 laid out (their depth, the trace index they stand for, left/right, the root)
 is defined outside this model, so the model is generic in the position type
 `P` and receives that geometry as an explicit `Geometry<P>` parameter: every
 property proved here holds whatever the position arithmetic is.
 */
module FaultClaims {

  /**
   One claim, reduced to the three components its identity is computed from:
   position, value and parent index.  Other data a claim carries in the
   program is not part of this model.
   */
  datatype Claim<P, V> = Claim(position: P, value: V, parentContractIndex: int)

  /** The position operations a claim relies on; left uninterpreted. */
  datatype Geometry<!P> = Geometry(
    depth: P -> nat,                // depth of a position in the game tree
    traceIndex: (P, nat) -> int,    // trace index of a position, for a maximum depth
    rightOf: (P, P) -> bool,        // rightOf(p, q): p lies to the right of q
    isRootPosition: P -> bool       // p is the root of the game tree
  )

  /** Depth of a claim: the depth of its position. */
  function Depth<P, V>(geo: Geometry<P>, c: Claim<P, V>): nat
  {
    geo.depth(c.position)
  }

  /** A claim is the root claim exactly when its position is the root position. */
  predicate IsRoot<P, V>(geo: Geometry<P>, c: Claim<P, V>)
  {
    geo.isRootPosition(c.position)
  }

  /** A claim lies right of position `q` when its own position does. */
  predicate RightOf<P, V>(geo: Geometry<P>, c: Claim<P, V>, q: P)
  {
    geo.rightOf(c.position, q)
  }

  /** Trace index of a claim's position for the game's maximum depth. */
  function TraceIndex<P, V>(geo: Geometry<P>, c: Claim<P, V>, maxDepth: nat): int
  {
    geo.traceIndex(c.position, maxDepth)
  }

  /**
   Identity of a claim for duplicate detection.  The program hashes the
   claim's generalized index, its value and its parent index together; the
   model keeps the position itself (so it also assumes that distinct positions
   have distinct generalized indices), the value and the parent index, which
   makes the identity injective by construction (an idealised collision-free
   hash).
   */
  datatype ClaimId<P, V> = ClaimId(position: P, value: V, parentContractIndex: int)

  function ComputeClaimId<P, V>(c: Claim<P, V>): ClaimId<P, V>
  {
    ClaimId(c.position, c.value, c.parentContractIndex)
  }

  /** Two claims share an identity exactly when they agree on all three components. */
  lemma ClaimIdInjective<P, V>(a: Claim<P, V>, b: Claim<P, V>)
    ensures ComputeClaimId(a) == ComputeClaimId(b) <==> a == b
  {
  }
}
