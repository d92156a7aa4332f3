/**
 The challenger's view of one dispute game: the claims in contract order, a
 duplicate-detection index over them, and the game's maximum depth, with the
 queries the challenger asks of it.  The model's state is an immutable value,
 so no query can change it.  The program's state is not: its constructor keeps
 the caller's claim list without copying it, and the model assumes the caller
 never writes to that list afterwards.
 */
module Game {
  import opened FaultClaims

  datatype Option<T> = None | Some(value: T)

  /** The one error the game state reports. */
  datatype GameError = ErrClaimNotFound

  datatype Result<T> = Ok(value: T) | Err(error: GameError)

  /**
   The game state.  `claimIds` stands for the program's map from claim
   identity to `true`; since only `true` is ever stored, a set says the same.
   */
  datatype GameState<P(==), V(==)> = GameState(
    claims: seq<Claim<P, V>>,
    claimIds: set<ClaimId<P, V>>,
    depth: nat
  )

  /** The identities of a list of claims, as a set. */
  ghost function IdsOf<P, V>(claims: seq<Claim<P, V>>): set<ClaimId<P, V>>
  {
    set c | c in claims :: ComputeClaimId(c)
  }

  /**
   The representation invariant: the identity index matches the claim list.
   `NewGameState` establishes it; it stays true as long as nobody writes to
   the claim list the state shares with its creator.
   */
  ghost predicate Valid<P, V>(g: GameState<P, V>)
  {
    g.claimIds == IdsOf(g.claims)
  }

  /** The identity index built one claim at a time, in list order. */
  function CollectIds<P(==), V(==)>(claims: seq<Claim<P, V>>): (ids: set<ClaimId<P, V>>)
    ensures forall c :: c in claims ==> ComputeClaimId(c) in ids
    ensures forall id :: id in ids ==> exists c :: c in claims && ComputeClaimId(c) == id
    decreases |claims|
  {
    if |claims| == 0 then {}
    else
      var init := claims[..|claims| - 1];
      assert forall c :: c in init ==> c in claims;
      CollectIds(init) + {ComputeClaimId(claims[|claims| - 1])}
  }

  /** Builds the game state over `claims` (contract order) for a game of depth `depth`. */
  function NewGameState<P(==), V(==)>(claims: seq<Claim<P, V>>, depth: nat): (g: GameState<P, V>)
    ensures g.claims == claims && g.depth == depth
    ensures Valid(g)
  {
    GameState(claims, CollectIds(claims), depth)
  }

  /**
   Whether the challenger agrees with the claims at this claim's level.  An
   honest challenger that agrees with the root claim agrees with every even
   level; one that disputes it agrees with every odd level.
   */
  function AgreeWithClaimLevel<P, V>(geo: Geometry<P>, c: Claim<P, V>, agreeWithRootClaim: bool): (r: bool)
    ensures r <==> (Depth(geo, c) % 2 == 0 <==> agreeWithRootClaim)
  {
    var isOddLevel := Depth(geo, c) % 2 == 1;
    if agreeWithRootClaim then !isOddLevel else isOddLevel
  }

  /** Whether a claim with the same identity is already in the game. */
  function IsDuplicate<P(==), V(==)>(g: GameState<P, V>, c: Claim<P, V>): (r: bool)
    ensures Valid(g) ==> (r <==> exists d :: d in g.claims && ComputeClaimId(d) == ComputeClaimId(c))
    ensures Valid(g) ==> (r <==> c in g.claims)
  {
    ComputeClaimId(c) in g.claimIds
  }

  /**
   The claims in contract order.  The program hands out a copy so that
   callers cannot alter the state; a sequence is a value, so no copy is needed.
   */
  function Claims<P(==), V(==)>(g: GameState<P, V>): (r: seq<Claim<P, V>>)
    ensures |r| == |g.claims|
    ensures forall i :: 0 <= i < |r| ==> r[i] == g.claims[i]
  {
    g.claims
  }

  /** The game's maximum depth. */
  function MaxDepth<P(==), V(==)>(g: GameState<P, V>): (r: nat)
  {
    g.depth
  }

  /**
   The parent of a claim: none for the root claim and for a parent index
   outside the claim list; otherwise the claim stored at that index.
   */
  function GetParentRef<P(==), V(==)>(g: GameState<P, V>, geo: Geometry<P>, c: Claim<P, V>): (r: Option<Claim<P, V>>)
    ensures r.None? <==>
              IsRoot(geo, c) || c.parentContractIndex < 0 || c.parentContractIndex >= |g.claims|
    ensures r.Some? ==>
              0 <= c.parentContractIndex < |g.claims| && r.value == g.claims[c.parentContractIndex]
    ensures r.Some? ==> r.value in g.claims
  {
    if IsRoot(geo, c) then None
    else if c.parentContractIndex >= |g.claims| || c.parentContractIndex < 0 then None
    else Some(g.claims[c.parentContractIndex])
  }

  /** The parent of a claim, or `ErrClaimNotFound` when it has none in the game. */
  function GetParent<P(==), V(==)>(g: GameState<P, V>, geo: Geometry<P>, c: Claim<P, V>): (r: Result<Claim<P, V>>)
    ensures r.Err? <==>
              IsRoot(geo, c) || c.parentContractIndex < 0 || c.parentContractIndex >= |g.claims|
    ensures r.Ok? ==>
              0 <= c.parentContractIndex < |g.claims| && r.value == g.claims[c.parentContractIndex]
  {
    match GetParentRef(g, geo, c)
    case None => Err(ErrClaimNotFound)
    case Some(p) => Ok(p)
  }

  /** Whether a claim defends its parent, i.e. its position lies right of the parent's. */
  function DefendsParent<P(==), V(==)>(g: GameState<P, V>, geo: Geometry<P>, c: Claim<P, V>): (r: bool)
    ensures r <==>
              && !IsRoot(geo, c)
              && 0 <= c.parentContractIndex < |g.claims|
              && RightOf(geo, c, g.claims[c.parentContractIndex].position)
  {
    match GetParentRef(g, geo, c)
    case None => false
    case Some(p) => RightOf(geo, c, p.position)
  }

  // ---------------------------------------------------------------------------
  // Properties relating the queries to each other and to the constructor.

  /** Flipping which side the challenger takes flips its verdict on every level. */
  lemma AgreeFlipsWithSide<P, V>(geo: Geometry<P>, c: Claim<P, V>, agreeWithRootClaim: bool)
    ensures AgreeWithClaimLevel(geo, c, !agreeWithRootClaim) == !AgreeWithClaimLevel(geo, c, agreeWithRootClaim)
  {
  }

  /** Agreement alternates from one level to the next. */
  lemma AgreeAlternatesByLevel<P, V>(geo: Geometry<P>, c: Claim<P, V>, child: Claim<P, V>, agreeWithRootClaim: bool)
    requires Depth(geo, child) == Depth(geo, c) + 1
    ensures AgreeWithClaimLevel(geo, child, agreeWithRootClaim) == !AgreeWithClaimLevel(geo, c, agreeWithRootClaim)
  {
  }

  /** A freshly built state reports exactly its constructor's claims and depth. */
  lemma NewGameStateQueries<P, V>(claims: seq<Claim<P, V>>, depth: nat)
    ensures |Claims(NewGameState(claims, depth))| == |claims|
    ensures forall i :: 0 <= i < |claims| ==> Claims(NewGameState(claims, depth))[i] == claims[i]
    ensures MaxDepth(NewGameState(claims, depth)) == depth
  {
  }

  /** A claim is a duplicate of a freshly built state exactly when it is in the constructor's list. */
  lemma IsDuplicateOfNewGameState<P, V>(claims: seq<Claim<P, V>>, depth: nat, c: Claim<P, V>)
    ensures IsDuplicate(NewGameState(claims, depth), c) <==>
              exists i :: 0 <= i < |claims| && ComputeClaimId(claims[i]) == ComputeClaimId(c)
  {
  }

  /** `GetParent` fails exactly when the internal lookup finds nothing, and otherwise agrees with it. */
  lemma GetParentAgreesWithLookup<P, V>(g: GameState<P, V>, geo: Geometry<P>, c: Claim<P, V>)
    ensures GetParent(g, geo, c) == Err(ErrClaimNotFound) <==> GetParentRef(g, geo, c) == None
    ensures GetParent(g, geo, c).Ok? ==> GetParentRef(g, geo, c) == Some(GetParent(g, geo, c).value)
  {
  }

  /** A claim with no parent in the game never defends; otherwise defence is right-of the parent. */
  lemma DefendsParentViaLookup<P, V>(g: GameState<P, V>, geo: Geometry<P>, c: Claim<P, V>)
    ensures GetParentRef(g, geo, c).None? ==> !DefendsParent(g, geo, c)
    ensures GetParentRef(g, geo, c).Some? ==>
              DefendsParent(g, geo, c) == RightOf(geo, c, GetParentRef(g, geo, c).value.position)
  {
  }
}
