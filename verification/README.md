# Dispute-game state of the fault-proof challenger

This project models the challenger's in-memory view of a fault dispute game
(`op-challenger/game/fault/types/game.go`) and proves properties of it. The
view is an ordered list of claims, as the contract stores them. Each claim
has a position in the game tree, a value, and the contract index of its
parent claim. The view also keeps a duplicate-detection index of claim
identities and the game's maximum depth. The challenger asks it these
questions:

- which side it agrees with at a claim's level;
- whether a claim is already present;
- what a claim's parent is, and whether the claim defends that parent;
- which ancestor of a claim commits to a given trace index.

Layout:

- `claims.dfy`, module `FaultClaims`: the claim record and the position
  geometry. `Depth`, `TraceIndex`, `RightOf` and the root test are
  uninterpreted. The model is generic in the position type `P` and receives
  these operations as a `Geometry<P>` parameter. Every result therefore holds
  for any position arithmetic.
- `claims.dfy` also abstracts the claim identity. The program hashes a claim's
  generalized index, value and parent index with Keccak-256. The model keeps
  the position, the value and the parent index themselves (`ClaimId`). This is
  an idealised, collision-free hash: the identity is injective by construction.
- `game.dfy`, module `Game`: the game state and its constructor and queries.
  The model's state is an immutable value. So no query can change it, and the
  claims query needs no defensive copy to keep the state unchanged. The
  program's state is not immutable; see "## Left out". The program's
  `map[claimID]bool` only ever stores `true`, so it is modelled as a set.
  `getParent`'s nil pointer is `Option.None`. `GetParent`'s error is
  `Result.Err(ErrClaimNotFound)`.
- `ancestors.dfy`, module `Ancestors`: `AncestorWithTraceIndex`. The program's
  unbounded `for` loop becomes `Walk`, which has a fuel of one step more than
  the number of claims. The result `(Claim{}, false)` becomes `None`.
  The program's loop stops at a match, at the root claim, or when a parent
  lookup fails. It loops forever only when the walk from the claim enters a
  cycle of parent links on which no claim has the trace index. Both directions
  hold for every game. A returned claim has the requested trace index and is
  the nearest such claim on the parent chain. `None` means that no ancestor
  has it. The fuel suffices because the ancestors below the nearest match are
  distinct stored claims, so the nearest match is at most as many links up as
  there are claims. In a well-formed game every stored non-root claim names a
  parent stored before it. There no parent chain is longer than the claim
  list, so the program always stops. Parent chains are described by
  `NthAncestor`, the claim `n` parent links above a given claim.

## Model

| member | source | states |
|---|---|---|
| FaultClaims.ComputeClaimId | op-challenger/game/fault/types/game.go:44-50 | the identity is the tuple of position, value and parent index, an injective stand-in for the Keccak hash; it carries no contract of its own, and `FaultClaims.ClaimIdInjective` states injectivity |
| FaultClaims.ClaimIdInjective | op-challenger/game/fault/types/game.go:44-50 | two claims have the same identity exactly when position, value and parent index all agree |
| Game.CollectIds | op-challenger/game/fault/types/game.go:64-67 | the index built claim by claim holds the identity of every listed claim, and only identities of listed claims |
| Game.NewGameState | op-challenger/game/fault/types/game.go:63-73 | the state keeps the given claims and depth, and its identity index is exactly the set of the claims' identities |
| Game.AgreeWithClaimLevel | op-challenger/game/fault/types/game.go:76-85 | the challenger agrees with a level exactly when (the depth is even) equals (it agrees with the root claim) |
| Game.AgreeFlipsWithSide | op-challenger/game/fault/types/game.go:80-84 | flipping the agree-with-root flag negates the verdict for every claim |
| Game.AgreeAlternatesByLevel | op-challenger/game/fault/types/game.go:77-79 | a claim one level deeper gets the opposite verdict |
| Game.IsDuplicate | op-challenger/game/fault/types/game.go:87-89 | accepts every state; on a state whose identity index matches its claims, true exactly when some stored claim has the same identity, i.e. when a stored claim agrees with it on position, value and parent index |
| Game.IsDuplicateOfNewGameState | op-challenger/game/fault/types/game.go:63-73 | on a freshly built state, a claim is a duplicate exactly when its identity equals that of some claim in the constructor's list |
| Game.Claims | op-challenger/game/fault/types/game.go:91-94 | the returned list has the state's length and, position by position, the state's claims in contract order |
| Game.MaxDepth | op-challenger/game/fault/types/game.go:96-98 | returns the state's depth; carries no contract of its own, and `Game.NewGameStateQueries` states that it is the constructor's depth |
| Game.NewGameStateQueries | op-challenger/game/fault/types/game.go:91-98 | the claims query returns the constructor's list element by element and in order; the max-depth query returns the constructor's depth |
| Game.GetParentRef | op-challenger/game/fault/types/game.go:116-125 | none exactly for a root claim or a parent index that is negative or at least the number of claims; otherwise the stored claim at that index |
| Game.GetParent | op-challenger/game/fault/types/game.go:100-106 | fails exactly when the claim is root or its parent index is out of range; otherwise returns the stored claim at the parent index |
| Game.GetParentAgreesWithLookup | op-challenger/game/fault/types/game.go:100-106 | the claim-not-found error is returned if and only if the internal lookup finds nothing; on success the claim is the one the lookup found |
| Game.DefendsParent | op-challenger/game/fault/types/game.go:108-114 | true exactly when the claim is not root, its parent index is in range, and its position lies right of the parent's |
| Game.DefendsParentViaLookup | op-challenger/game/fault/types/game.go:108-114 | false whenever the lookup finds no parent; otherwise equal to right-of the found parent's position |
| Ancestors.Walk | op-challenger/game/fault/types/game.go:128-140 | any claim the bounded loop returns has the requested trace index and is the starting claim or a stored claim |
| Ancestors.AncestorWithTraceIndex | op-challenger/game/fault/types/game.go:127-141 | never returns a claim with another trace index; returns the input unchanged when it matches; returns nothing at a non-matching root or when the parent lookup fails |
| Ancestors.WalkFindsNearest | op-challenger/game/fault/types/game.go:128-139 | a claim returned within the fuel is the nearest ancestor on the parent chain whose trace index matches |
| Ancestors.WalkMissesOnlyNonMatches | op-challenger/game/fault/types/game.go:132-138 | when the loop ends without a claim, no ancestor within the fuel has the trace index |
| Ancestors.StoredClaimChainIsShort | op-challenger/game/fault/types/game.go:135-139 | in a well-formed game, the stored claim at index k has no ancestor more than k links above it |
| Ancestors.AncestorChainIsShort | op-challenger/game/fault/types/game.go:135-139 | in a well-formed game, no claim has an ancestor more links above it than there are claims, so the loop terminates |
| Ancestors.AncestorWithTraceIndexReachedByParents | op-challenger/game/fault/types/game.go:127-141 | for any game, a returned claim is reached from the input by following parent links and is the nearest match on that chain |
| Ancestors.AncestorShift | op-challenger/game/fault/types/game.go:135-139 | walking a+t links up is walking a links up and then t more from there |
| Ancestors.AncestorPrefix | op-challenger/game/fault/types/game.go:135-139 | if the walk reaches n links up, it reaches every smaller number of links |
| Ancestors.AncestorIsStored | op-challenger/game/fault/types/game.go:135-139 | every ancestor one or more links up is a claim stored in the game, since the parent lookup only returns stored claims |
| Ancestors.AncestorClaimsMember | op-challenger/game/fault/types/game.go:135-139 | a claim in the set of the first n ancestors is the ancestor some m links up, with 0 < m <= n |
| Ancestors.NearestChainIsDistinct | op-challenger/game/fault/types/game.go:128-139 | below and at the nearest match, no two steps of the walk visit the same claim; a repeat would put the match fewer links up |
| Ancestors.AncestorClaimsCount | op-challenger/game/fault/types/game.go:128-139 | up to the nearest match, the first n ancestors are n different claims |
| Ancestors.NearestMatchIsWithinClaims | op-challenger/game/fault/types/game.go:128-139 | the nearest match is never more links up than there are stored claims, in any game |
| Ancestors.NearestMatchExists | op-challenger/game/fault/types/game.go:128-139 | if some ancestor has the trace index, a nearest one exists at or below it |
| Ancestors.AncestorWithTraceIndexIsComplete | op-challenger/game/fault/types/game.go:127-141 | for any game, the search succeeds exactly when some ancestor (or the claim itself) has the trace index |

## Left out

- The transaction send queue (`op-service/txmgr/queue.go`) is not part of this model. It provides bounded concurrency through goroutines, channels, a wait group, an atomic counter and an `errgroup` whose semantics are not visible. Its only sequential piece is the clamp of the pending limit to the platform's maximum integer.
- Claim identity: the model keeps the hash preimage as the identity, with the position in place of its generalized index. It therefore also assumes that distinct positions have distinct generalized indices. It does not model Keccak-256 or the byte encoding. The real preimage joins variable-length big-endian byte strings and keeps only the magnitude of the parent index (`big.Int.Bytes`). So it is not injective in general: parent index -1 and 1 give the same bytes. The model assumes a collision-free identity.
- Position geometry (generalized index, depth, trace index, right-of, root test): these live in files that are not part of this model. They are uninterpreted parameters. The claim methods `Depth`, `IsRoot` and `RightOf` are taken to forward to the claim's position.
- `*big.Int` trace indices are Dafny `int`. Depths are `nat`, standing for the unsigned depth type.
- Ancestors.AncestorWithTraceIndex: the program loops forever when the walk from the claim enters a cycle of parent links on which no claim has the trace index. There the model returns `None` once its fuel runs out. Soundness and completeness are proved for every game.
- Game.NewGameState: the program's constructor keeps the caller's claim slice without copying it. A caller that writes to that slice afterwards changes the state's claims but not its identity index, so duplicate detection and parent lookup then disagree. The model's state is a value and assumes the caller never writes to the slice after construction.
- Game.IsDuplicate: accepts every state, but its answer is characterised only on states with the representation invariant (`Valid`): the identity index equals the set of identities of the claims. Every state `NewGameState` builds has it. It holds in the program only as long as the caller does not write to the shared claim slice (see the line above).
- Claims are cut down to the three components the identity is computed from: position, value and parent index. So "a stored claim equal to this one" means equal on those three components. Any other data a claim carries in the program is not part of this model.
- Game.MaxDepth: carries no contract of its own, since its only property is returning the constructor's depth. `Game.NewGameStateQueries` states that.
