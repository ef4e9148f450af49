/** Finite directed graphs given by their edges, and reachability along one edge or more. */
module Reachability {

  type Edges = set<(nat, nat)>

  ghost predicate Step(e: Edges, p: seq<nat>, i: int)
    requires 0 <= i < |p| - 1
  {
    (p[i], p[i + 1]) in e
  }

  ghost predicate IsPath(e: Edges, p: seq<nat>, a: nat, b: nat) {
    && |p| >= 2 && p[0] == a && p[|p| - 1] == b
    && forall i :: 0 <= i < |p| - 1 ==> Step(e, p, i)
  }

  ghost predicate Reaches(e: Edges, a: nat, b: nat) {
    exists p: seq<nat> :: IsPath(e, p, a, b)
  }

  ghost predicate Acyclic(e: Edges) {
    forall a: nat :: !Reaches(e, a, a)
  }

  lemma EdgeReaches(e: Edges, a: nat, b: nat)
    requires (a, b) in e
    ensures Reaches(e, a, b)
  {
    assert IsPath(e, [a, b], a, b);
  }

  lemma ReachesTransitive(e: Edges, a: nat, b: nat, c: nat)
    requires Reaches(e, a, b) && Reaches(e, b, c)
    ensures Reaches(e, a, c)
  {
    var p: seq<nat> :| IsPath(e, p, a, b);
    var q: seq<nat> :| IsPath(e, q, b, c);
    var r := p + q[1..];
    forall i | 0 <= i < |r| - 1 ensures Step(e, r, i) {
      if i < |p| - 1 {
        assert Step(e, p, i);
      } else {
        assert Step(e, q, i - (|p| - 1));
      }
    }
    assert IsPath(e, r, a, c);
  }

  /** If a second graph joins the ends of every edge of a first one, it joins the ends of every path. */
  lemma {:induction false} PathsFollowEdges(e: Edges, f: Edges, p: seq<nat>, a: nat, b: nat)
    requires forall x, y :: (x, y) in e ==> Reaches(f, x, y)
    requires IsPath(e, p, a, b)
    ensures Reaches(f, a, b)
    decreases |p|
  {
    assert Step(e, p, 0);
    if |p| > 2 {
      forall i | 0 <= i < |p[1..]| - 1 ensures Step(e, p[1..], i) {
        assert Step(e, p, i + 1);
      }
      PathsFollowEdges(e, f, p[1..], p[1], b);
      ReachesTransitive(f, a, p[1], b);
    }
  }

  lemma ReachesFollowsEdges(e: Edges, f: Edges)
    requires forall x, y :: (x, y) in e ==> Reaches(f, x, y)
    ensures forall a, b :: Reaches(e, a, b) ==> Reaches(f, a, b)
  {
    forall a, b | Reaches(e, a, b) ensures Reaches(f, a, b) {
      var p: seq<nat> :| IsPath(e, p, a, b);
      PathsFollowEdges(e, f, p, a, b);
    }
  }

  lemma SubgraphReaches(e: Edges, f: Edges)
    requires e <= f
    ensures forall a, b :: Reaches(e, a, b) ==> Reaches(f, a, b)
  {
    forall x, y | (x, y) in e ensures Reaches(f, x, y) {
      EdgeReaches(f, x, y);
    }
    ReachesFollowsEdges(e, f);
  }

  /** A rank that falls along every edge falls along every path. */
  lemma {:induction false} RankFallsAlongPath(e: Edges, rank: nat -> int, p: seq<nat>, a: nat, b: nat)
    requires forall x, y :: (x, y) in e ==> rank(x) > rank(y)
    requires IsPath(e, p, a, b)
    ensures rank(a) > rank(b)
    decreases |p|
  {
    assert Step(e, p, 0);
    if |p| > 2 {
      forall i | 0 <= i < |p[1..]| - 1 ensures Step(e, p[1..], i) {
        assert Step(e, p, i + 1);
      }
      RankFallsAlongPath(e, rank, p[1..], p[1], b);
    }
  }

  lemma RankFalls(e: Edges, rank: nat -> int)
    requires forall x, y :: (x, y) in e ==> rank(x) > rank(y)
    ensures forall a, b :: Reaches(e, a, b) ==> rank(a) > rank(b)
    ensures Acyclic(e)
  {
    forall a, b | Reaches(e, a, b) ensures rank(a) > rank(b) {
      var p: seq<nat> :| IsPath(e, p, a, b);
      RankFallsAlongPath(e, rank, p, a, b);
    }
  }

  /** What a node reaches; it shrinks along the edges of an acyclic graph. */
  ghost function Below(e: Edges, a: nat): set<nat> {
    set x | x in e && Reaches(e, a, x.1) :: x.1
  }

  lemma BelowShrinks(e: Edges, a: nat, b: nat)
    requires Acyclic(e) && (a, b) in e
    ensures Below(e, b) < Below(e, a)
  {
    EdgeReaches(e, a, b);
    forall x | x in Below(e, b) ensures x in Below(e, a) {
      ReachesTransitive(e, a, b, x);
    }
    assert b in Below(e, a);
  }

  /** In an acyclic graph some node of any nonempty set has no predecessor in the set:
      walking up for ever is impossible. */
  lemma {:induction false} NoEndlessClimb(e: Edges, s: set<nat>, x: nat)
    requires Acyclic(e) && x in s
    requires forall y :: y in s ==> exists z :: z in s && (z, y) in e
    ensures false
    decreases s - Below(e, x)
  {
    var z :| z in s && (z, x) in e;
    BelowShrinks(e, z, x);
    assert x in Below(e, z) by { EdgeReaches(e, z, x); }
    assert x !in Below(e, x);
    NoEndlessClimb(e, s, z);
  }
}
