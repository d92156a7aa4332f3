/**
 The search, up the chain of parents, for the nearest ancestor of a claim
 that stands for a given trace index.

 The program's loop runs until it finds a match, reaches the root claim, or
 fails to look up a parent; it loops forever when the walk from the claim
 enters a cycle of parent links on which no claim has the trace index.  The
 model bounds the walk by a fuel of one step more than the number of claims
 and proves, for every game, that an answer is the nearest ancestor with the
 requested trace index, and that no answer means no ancestor has it.  Where
 the program loops forever, the model returns `None` once its fuel runs out.
 On a well-formed game (each stored non-root claim names a parent stored
 before it) no parent chain is longer than the claim list, so the program
 always stops.
 */
module Ancestors {
  import opened FaultClaims
  import opened Game

  /**
   Parent links never point forward: each stored claim that is not the root
   names a parent index smaller than its own.  The dispute game contract
   appends every move after the claim it responds to, so real games have this
   shape.
   */
  ghost predicate WellFormed<P, V>(g: GameState<P, V>, geo: Geometry<P>)
  {
    forall i :: 0 <= i < |g.claims| && !IsRoot(geo, g.claims[i]) ==> g.claims[i].parentContractIndex < i
  }

  /** The ancestor `n` parent links above `c`, if the chain is that long. */
  ghost function NthAncestor<P, V>(g: GameState<P, V>, geo: Geometry<P>, c: Claim<P, V>, n: nat): Option<Claim<P, V>>
    decreases n
  {
    if n == 0 then Some(c)
    else
      match GetParentRef(g, geo, c)
      case None => None
      case Some(p) => NthAncestor(g, geo, p, n - 1)
  }

  /** An existing claim whose trace index, at the game's depth, is `idx`. */
  ghost predicate Matches<P, V>(g: GameState<P, V>, geo: Geometry<P>, o: Option<Claim<P, V>>, idx: int)
  {
    o.Some? && TraceIndex(geo, o.value, g.depth) == idx
  }

  /** The `n`-th ancestor matches and none nearer to `c` does. */
  ghost predicate NearestMatchAt<P, V>(g: GameState<P, V>, geo: Geometry<P>, c: Claim<P, V>, idx: int, n: nat)
  {
    && Matches(g, geo, NthAncestor(g, geo, c, n), idx)
    && forall m: nat :: m < n ==> !Matches(g, geo, NthAncestor(g, geo, c, m), idx)
  }

  /** The program's loop, given at most `fuel` iterations. */
  function Walk<P(==), V(==)>(g: GameState<P, V>, geo: Geometry<P>, c: Claim<P, V>, idx: int, fuel: nat): (r: Option<Claim<P, V>>)
    ensures r.Some? ==> TraceIndex(geo, r.value, g.depth) == idx
    ensures r.Some? ==> r.value == c || r.value in g.claims
    decreases fuel
  {
    if fuel == 0 then None
    else if TraceIndex(geo, c, g.depth) == idx then Some(c)
    else if IsRoot(geo, c) then None
    else
      match GetParentRef(g, geo, c)
      case None => None
      case Some(p) => Walk(g, geo, p, idx, fuel - 1)
  }

  /**
   The ancestor of `c` (or `c` itself) whose trace index is `idx`; `None`
   where the program returns the empty claim and `false`.
   */
  function AncestorWithTraceIndex<P(==), V(==)>(g: GameState<P, V>, geo: Geometry<P>, c: Claim<P, V>, idx: int): (r: Option<Claim<P, V>>)
    ensures r.Some? ==> TraceIndex(geo, r.value, g.depth) == idx
    ensures r.Some? ==> r.value == c || r.value in g.claims
    ensures TraceIndex(geo, c, g.depth) == idx ==> r == Some(c)
    ensures TraceIndex(geo, c, g.depth) != idx && IsRoot(geo, c) ==> r == None
    ensures TraceIndex(geo, c, g.depth) != idx && GetParentRef(g, geo, c).None? ==> r == None
  {
    Walk(g, geo, c, idx, |g.claims| + 1)
  }

  // ---------------------------------------------------------------------------
  // What the walk finds, in terms of the parent chain.

  /** Whatever the walk returns is the nearest matching ancestor within the fuel. */
  lemma {:induction false} WalkFindsNearest<P, V>(g: GameState<P, V>, geo: Geometry<P>, c: Claim<P, V>, idx: int, fuel: nat)
    requires Walk(g, geo, c, idx, fuel).Some?
    ensures exists n: nat :: n < fuel && NearestMatchAt(g, geo, c, idx, n)
                             && NthAncestor(g, geo, c, n) == Walk(g, geo, c, idx, fuel)
    decreases fuel
  {
    if TraceIndex(geo, c, g.depth) == idx {
      assert NearestMatchAt(g, geo, c, idx, 0);
    } else {
      var p := GetParentRef(g, geo, c).value;
      var k: nat :| k < fuel - 1 && NearestMatchAt(g, geo, p, idx, k)
                    && NthAncestor(g, geo, p, k) == Walk(g, geo, p, idx, fuel - 1) by {
        WalkFindsNearest(g, geo, p, idx, fuel - 1);
      }
      forall m: nat | m < k + 1
        ensures !Matches(g, geo, NthAncestor(g, geo, c, m), idx)
      {
        if m > 0 {
          assert NthAncestor(g, geo, c, m) == NthAncestor(g, geo, p, m - 1);
          var j: nat := m - 1;
          assert j < k && NearestMatchAt(g, geo, p, idx, k);
          assert !Matches(g, geo, NthAncestor(g, geo, p, j), idx);
        }
      }
      assert NearestMatchAt(g, geo, c, idx, k + 1);
    }
  }

  /** When the walk returns nothing, no ancestor within the fuel matches. */
  lemma {:induction false} WalkMissesOnlyNonMatches<P, V>(g: GameState<P, V>, geo: Geometry<P>, c: Claim<P, V>, idx: int, fuel: nat)
    requires Walk(g, geo, c, idx, fuel).None?
    ensures forall n: nat :: n < fuel ==> !Matches(g, geo, NthAncestor(g, geo, c, n), idx)
    decreases fuel
  {
    if fuel > 0 {
      match GetParentRef(g, geo, c)
      case None =>
        forall n: nat | n < fuel
          ensures !Matches(g, geo, NthAncestor(g, geo, c, n), idx)
        {
        }
      case Some(p) =>
        WalkMissesOnlyNonMatches(g, geo, p, idx, fuel - 1);
        forall n: nat | n < fuel
          ensures !Matches(g, geo, NthAncestor(g, geo, c, n), idx)
        {
          if n > 0 {
            assert NthAncestor(g, geo, c, n) == NthAncestor(g, geo, p, n - 1);
          }
        }
    }
  }

  /** In a well-formed game a stored claim at index `k` has at most `k` ancestors. */
  lemma {:induction false} StoredClaimChainIsShort<P, V>(g: GameState<P, V>, geo: Geometry<P>, k: nat, m: nat)
    requires WellFormed(g, geo)
    requires k < |g.claims| && k < m
    ensures NthAncestor(g, geo, g.claims[k], m) == None
    decreases k
  {
    var c := g.claims[k];
    match GetParentRef(g, geo, c)
    case None =>
    case Some(p) =>
      StoredClaimChainIsShort(g, geo, c.parentContractIndex, m - 1);
  }

  /** In a well-formed game no claim has more ancestors than there are claims. */
  lemma AncestorChainIsShort<P, V>(g: GameState<P, V>, geo: Geometry<P>, c: Claim<P, V>, n: nat)
    requires WellFormed(g, geo)
    requires |g.claims| < n
    ensures NthAncestor(g, geo, c, n) == None
  {
    match GetParentRef(g, geo, c)
    case None =>
    case Some(p) =>
      StoredClaimChainIsShort(g, geo, c.parentContractIndex, n - 1);
  }

  /**
   Whatever the claims, a found claim is reached from `c` by parent links and
   is the nearest one on that chain with the trace index.
   */
  lemma AncestorWithTraceIndexReachedByParents<P, V>(g: GameState<P, V>, geo: Geometry<P>, c: Claim<P, V>, idx: int)
    requires AncestorWithTraceIndex(g, geo, c, idx).Some?
    ensures exists n: nat :: NearestMatchAt(g, geo, c, idx, n)
                             && NthAncestor(g, geo, c, n) == AncestorWithTraceIndex(g, geo, c, idx)
  {
    WalkFindsNearest(g, geo, c, idx, |g.claims| + 1);
  }

  // ---------------------------------------------------------------------------
  // The nearest match is never further up than the number of claims.

  /** Walking `a` links and then `t` more is walking `a + t` links. */
  lemma {:induction false} AncestorShift<P, V>(g: GameState<P, V>, geo: Geometry<P>, c: Claim<P, V>, a: nat, t: nat)
    requires NthAncestor(g, geo, c, a).Some?
    ensures NthAncestor(g, geo, c, a + t) == NthAncestor(g, geo, NthAncestor(g, geo, c, a).value, t)
    decreases a
  {
    if a > 0 {
      var p := GetParentRef(g, geo, c).value;
      AncestorShift(g, geo, p, a - 1, t);
    }
  }

  /** A chain that reaches `n` links up passes through every shorter distance. */
  lemma {:induction false} AncestorPrefix<P, V>(g: GameState<P, V>, geo: Geometry<P>, c: Claim<P, V>, n: nat, m: nat)
    requires NthAncestor(g, geo, c, n).Some? && m <= n
    ensures NthAncestor(g, geo, c, m).Some?
    decreases m
  {
    if m > 0 {
      var p := GetParentRef(g, geo, c).value;
      AncestorPrefix(g, geo, p, n - 1, m - 1);
    }
  }

  /** Every ancestor at least one link up is a stored claim. */
  lemma {:induction false} AncestorIsStored<P, V>(g: GameState<P, V>, geo: Geometry<P>, c: Claim<P, V>, n: nat)
    requires 0 < n && NthAncestor(g, geo, c, n).Some?
    ensures NthAncestor(g, geo, c, n).value in g.claims
    decreases n
  {
    var p := GetParentRef(g, geo, c).value;
    if n > 1 {
      AncestorIsStored(g, geo, p, n - 1);
    }
  }

  /** The claims from one to `n` links above `c`. */
  ghost function AncestorClaims<P, V>(g: GameState<P, V>, geo: Geometry<P>, c: Claim<P, V>, n: nat): set<Claim<P, V>>
    decreases n
  {
    if n == 0 then {}
    else
      match NthAncestor(g, geo, c, n)
      case None => AncestorClaims(g, geo, c, n - 1)
      case Some(x) => AncestorClaims(g, geo, c, n - 1) + {x}
  }

  /** Each member of `AncestorClaims(c, n)` lies between one and `n` links up. */
  lemma {:induction false} AncestorClaimsMember<P, V>(g: GameState<P, V>, geo: Geometry<P>, c: Claim<P, V>, n: nat, x: Claim<P, V>)
    requires x in AncestorClaims(g, geo, c, n)
    ensures exists m: nat :: 0 < m <= n && NthAncestor(g, geo, c, m) == Some(x)
    decreases n
  {
    if NthAncestor(g, geo, c, n) != Some(x) {
      AncestorClaimsMember(g, geo, c, n - 1, x);
      var m: nat :| 0 < m <= n - 1 && NthAncestor(g, geo, c, m) == Some(x);
      assert 0 < m <= n;
    }
  }

  /** A subset is no larger than its superset. */
  lemma {:induction false} SubsetCardinality<T>(a: set<T>, b: set<T>)
    requires a <= b
    ensures |a| <= |b|
    decreases |a|
  {
    if a != {} {
      var x :| x in a;
      SubsetCardinality(a - {x}, b - {x});
    }
  }

  /** A list holds at most as many distinct claims as it is long. */
  lemma {:induction false} DistinctElementsBound<T>(s: seq<T>)
    ensures |set x | x in s| <= |s|
  {
    if |s| > 0 {
      var init := s[..|s| - 1];
      DistinctElementsBound(init);
      assert (set x | x in s) == (set x | x in init) + {s[|s| - 1]} by {
        assert s == init + [s[|s| - 1]];
      }
    }
  }

  /**
   Before the nearest match no stored claim is met twice: a repeat would make
   the chain periodic and bring the match nearer.
   */
  lemma NearestChainIsDistinct<P, V>(g: GameState<P, V>, geo: Geometry<P>, c: Claim<P, V>, idx: int, n: nat, i: nat, j: nat)
    requires NearestMatchAt(g, geo, c, idx, n)
    requires i < j <= n
    ensures NthAncestor(g, geo, c, i) != NthAncestor(g, geo, c, j)
  {
    if NthAncestor(g, geo, c, i) == NthAncestor(g, geo, c, j) {
      AncestorPrefix(g, geo, c, n, j);
      AncestorShift(g, geo, c, j, n - j);
      AncestorShift(g, geo, c, i, n - j);
      assert false;
    }
  }

  /** With distinct ancestors up to `n`, there are exactly `n` of them. */
  lemma {:induction false} AncestorClaimsCount<P, V>(g: GameState<P, V>, geo: Geometry<P>, c: Claim<P, V>, idx: int, top: nat, n: nat)
    requires NearestMatchAt(g, geo, c, idx, top)
    requires n <= top
    ensures |AncestorClaims(g, geo, c, n)| == n
    decreases n
  {
    if n > 0 {
      AncestorClaimsCount(g, geo, c, idx, top, n - 1);
      AncestorPrefix(g, geo, c, top, n);
      var x := NthAncestor(g, geo, c, n).value;
      if x in AncestorClaims(g, geo, c, n - 1) {
        AncestorClaimsMember(g, geo, c, n - 1, x);
        var m: nat :| 0 < m <= n - 1 && NthAncestor(g, geo, c, m) == Some(x);
        NearestChainIsDistinct(g, geo, c, idx, top, m, n);
        assert false;
      }
    }
  }

  /** The nearest match lies at most as many links up as there are claims. */
  lemma NearestMatchIsWithinClaims<P, V>(g: GameState<P, V>, geo: Geometry<P>, c: Claim<P, V>, idx: int, n: nat)
    requires NearestMatchAt(g, geo, c, idx, n)
    ensures n <= |g.claims|
  {
    AncestorClaimsCount(g, geo, c, idx, n, n);
    var stored := set x | x in g.claims;
    forall x | x in AncestorClaims(g, geo, c, n)
      ensures x in stored
    {
      AncestorClaimsMember(g, geo, c, n, x);
      var m: nat :| 0 < m <= n && NthAncestor(g, geo, c, m) == Some(x);
      AncestorIsStored(g, geo, c, m);
    }
    DistinctElementsBound(g.claims);
    SubsetCardinality(AncestorClaims(g, geo, c, n), stored);
  }

  /** Any match on the chain has a nearest one at or below it. */
  lemma {:induction false} NearestMatchExists<P, V>(g: GameState<P, V>, geo: Geometry<P>, c: Claim<P, V>, idx: int, n: nat)
    requires Matches(g, geo, NthAncestor(g, geo, c, n), idx)
    ensures exists k: nat :: k <= n && NearestMatchAt(g, geo, c, idx, k)
    decreases n
  {
    if exists m: nat :: m < n && Matches(g, geo, NthAncestor(g, geo, c, m), idx) {
      var m: nat :| m < n && Matches(g, geo, NthAncestor(g, geo, c, m), idx);
      NearestMatchExists(g, geo, c, idx, m);
    } else {
      assert NearestMatchAt(g, geo, c, idx, n);
    }
  }

  /**
   On every game the search succeeds exactly when some ancestor (or the claim
   itself) has the trace index.  So the model answers as the program does
   wherever the program stops, and answers `None` exactly where the program
   runs round a cycle of parent links forever.
   */
  lemma AncestorWithTraceIndexIsComplete<P, V>(g: GameState<P, V>, geo: Geometry<P>, c: Claim<P, V>, idx: int)
    ensures AncestorWithTraceIndex(g, geo, c, idx).Some? <==>
              exists n: nat :: Matches(g, geo, NthAncestor(g, geo, c, n), idx)
  {
    var fuel := |g.claims| + 1;
    if Walk(g, geo, c, idx, fuel).Some? {
      WalkFindsNearest(g, geo, c, idx, fuel);
    } else if exists n: nat :: Matches(g, geo, NthAncestor(g, geo, c, n), idx) {
      var n: nat :| Matches(g, geo, NthAncestor(g, geo, c, n), idx);
      NearestMatchExists(g, geo, c, idx, n);
      var k: nat :| k <= n && NearestMatchAt(g, geo, c, idx, k);
      NearestMatchIsWithinClaims(g, geo, c, idx, k);
      WalkMissesOnlyNonMatches(g, geo, c, idx, fuel);
      assert false;
    }
  }
}
