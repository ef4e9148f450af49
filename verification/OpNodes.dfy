/** The nodes of the specificity graph, as `Isa::finalize` builds and consumes them. */
module OpNodes {
  import opened Patterns
  import opened Reachability
  import opened Specificity

  /** The edges entering a node. */
  ghost function Into(e: Edges, b: nat): set<(nat, nat)> {
    set x | x in e && x.1 == b
  }

  /** The edges left when a node forgets what is below it. */
  ghost function Cut(e: Edges, a: nat): Edges {
    set x | x in e && x.0 != a
  }

  /** What one call of `ontopof` did to the graph. */
  datatype Effect = Kept(finer: nat) | Replaced(coarser: nat) | Added

  /** The effects a call may have on the edges e; which one depends on the iteration order. */
  ghost predicate Possible(ops: seq<Operation>, e: Edges, a: nat, b: nat, effect: Effect) {
    match effect
    case Kept(s) => (a, s) in e && (s == b || Within(ops, s, b))
    case Replaced(r) => (a, r) in e && Within(ops, b, r)
    case Added => forall s :: (a, s) in e ==> s != b && !Within(ops, s, b) && !Within(ops, b, s)
  }

  ghost function Outcome(e: Edges, a: nat, b: nat, effect: Effect): Edges {
    match effect
    case Kept(_) => e
    case Replaced(r) => e - {(a, r)} + {(a, b)}
    case Added => e + {(a, b)}
  }

  /** A call overcounts b when it replaces a coarser edge although a is already on top of b. */
  ghost predicate Overcounts(e: Edges, a: nat, b: nat, effect: Effect) {
    effect.Replaced? && (a, b) in e
  }

  ghost predicate Applicable(e: Edges, a: nat, b: nat, effect: Effect) {
    match effect
    case Kept(_) => true
    case Replaced(r) => (a, r) in e && r != b
    case Added => (a, b) !in e
  }

  /** The counts after a call on the lower operation b. */
  ghost function Recount(c: seq<int>, b: nat, effect: Effect): (d: seq<int>)
    ensures |d| == |c|
    ensures forall i :: 0 <= i < |c| ==>
      d[i] == if effect.Kept? then c[i] else c[i] + (if i == b then 1 else 0) - (if effect == Replaced(i) then 1 else 0)
  {
    seq(|c|, i requires 0 <= i < |c| =>
      if effect.Kept? then c[i] else c[i] + (if i == b then 1 else 0) - (if effect == Replaced(i) then 1 else 0))
  }

  /** The pair is an edge already, together with a coarser one. */
  ghost predicate MayOvercount(ops: seq<Operation>, e: Edges, a: nat, b: nat) {
    (a, b) in e && exists r :: (a, r) in e && Within(ops, b, r)
  }

  /** Some iteration order overcounts exactly when the pair is already there together with a coarser one. */
  lemma OvercountCondition(ops: seq<Operation>, e: Edges, a: nat, b: nat)
    ensures (exists effect :: Possible(ops, e, a, b, effect) && Overcounts(e, a, b, effect)) <==> MayOvercount(ops, e, a, b)
  {
    if MayOvercount(ops, e, a, b) {
      var r :| (a, r) in e && Within(ops, b, r);
      assert Possible(ops, e, a, b, Replaced(r)) && Overcounts(e, a, b, Replaced(r));
    }
  }

  /** Whatever it does, a call covers its own pair and keeps the pairs covered before. */
  lemma OnTopOfCovers(ops: seq<Operation>, e: Edges, declared: Edges, a: nat, b: nat, effect: Effect)
    requires Possible(ops, e, a, b, effect) && Covers(ops, e, declared) && e <= declared
    ensures Covers(ops, Outcome(e, a, b, effect), declared + {(a, b)})
    ensures Outcome(e, a, b, effect) <= declared + {(a, b)}
  {
    var f := Outcome(e, a, b, effect);
    forall x, y | (x, y) in declared + {(a, b)} ensures CoveredPair(ops, f, x, y) {
      if (x, y) in declared {
        assert CoveredPair(ops, e, x, y);
        var s :| (x, s) in e && (s == y || Within(ops, s, y));
        assert effect == Replaced(s) && x == a ==> (x, b) in f && Within(ops, b, y);
        assert (x, s) in f || (x == a && effect == Replaced(s));
      } else if effect.Kept? {
        assert (a, effect.finer) in f;
      } else {
        assert (a, b) in f;
      }
    }
  }

  ghost function InDegreeChange(e: Edges, a: nat, b: nat, effect: Effect, i: nat): int {
    match effect
    case Kept(_) => 0
    case Added => if i == b then 1 else 0
    case Replaced(r) => if i == r then -1 else if i == b && (a, b) !in e then 1 else 0
  }

  lemma IntoOutcome(e: Edges, a: nat, b: nat, effect: Effect, i: nat)
    requires Applicable(e, a, b, effect)
    ensures |Into(Outcome(e, a, b, effect), i)| == |Into(e, i)| + InDegreeChange(e, a, b, effect, i)
  {
    match effect
    case Kept(_) =>
    case Replaced(r) => IntoReplaced(e, a, b, r, i);
    case Added => IntoAdded(e, a, b, i);
  }

  lemma IntoAdded(e: Edges, a: nat, b: nat, i: nat)
    requires (a, b) !in e
    ensures |Into(e + {(a, b)}, i)| == |Into(e, i)| + if i == b then 1 else 0
  {
    if i == b {
      assert Into(e + {(a, b)}, i) == Into(e, i) + {(a, b)};
    } else {
      assert Into(e + {(a, b)}, i) == Into(e, i);
    }
  }

  lemma IntoRemoved(e: Edges, a: nat, r: nat, i: nat)
    requires (a, r) in e
    ensures |Into(e - {(a, r)}, i)| == |Into(e, i)| - if i == r then 1 else 0
  {
    if i == r {
      assert Into(e - {(a, r)}, i) == Into(e, i) - {(a, r)};
    } else {
      assert Into(e - {(a, r)}, i) == Into(e, i);
    }
  }

  lemma IntoReplaced(e: Edges, a: nat, b: nat, r: nat, i: nat)
    requires (a, r) in e && r != b
    ensures |Into(e - {(a, r)} + {(a, b)}, i)| ==
            |Into(e, i)| + if i == r then -1 else if i == b && (a, b) !in e then 1 else 0
  {
    IntoRemoved(e, a, r, i);
    if (a, b) in e {
      assert e - {(a, r)} + {(a, b)} == e - {(a, r)};
    } else {
      IntoAdded(e - {(a, r)}, a, b, i);
    }
  }

  ghost predicate Bounds(e: Edges, c: seq<int>) {
    forall i :: 0 <= i < |c| ==> |Into(e, i)| <= c[i]
  }

  ghost predicate Tight(e: Edges, c: seq<int>) {
    forall i :: 0 <= i < |c| ==> |Into(e, i)| == c[i]
  }

  /** The counts a call leaves behind. */
  lemma CountsFollow(e: Edges, a: nat, b: nat, effect: Effect, c: seq<int>, d: seq<int>)
    requires Applicable(e, a, b, effect) && b < |c| == |d| && Bounds(e, c)
    requires effect.Replaced? ==> effect.coarser < |c|
    requires !effect.Kept? && forall i :: 0 <= i < |c| ==>
      d[i] == c[i] + (if i == b then 1 else 0) - (if effect == Replaced(i) then 1 else 0)
    ensures Bounds(Outcome(e, a, b, effect), d)
    ensures Tight(Outcome(e, a, b, effect), d) <==> Tight(e, c) && !Overcounts(e, a, b, effect)
  {
    var f := Outcome(e, a, b, effect);
    forall i | 0 <= i < |c|
      ensures d[i] - |Into(f, i)| == c[i] - |Into(e, i)| + if i == b && Overcounts(e, a, b, effect) then 1 else 0
    {
      IntoOutcome(e, a, b, effect, i);
    }
    if Tight(f, d) {
      assert d[b] == |Into(f, b)|;
      forall i | 0 <= i < |c| ensures |Into(e, i)| == c[i] {
        assert d[i] == |Into(f, i)|;
      }
    }
  }

  lemma IntoCut(e: Edges, a: nat, i: nat)
    ensures |Into(Cut(e, a), i)| == |Into(e, i)| - if (a, i) in e then 1 else 0
  {
    var f := Cut(e, a);
    if (a, i) in e {
      assert Into(f, i) == Into(e, i) - {(a, i)};
    } else {
      assert Into(f, i) == Into(e, i);
    }
  }

  ghost function Arcs(lists: seq<set<nat>>): Edges {
    set a: nat, b: nat | a < |lists| && b in lists[a] :: (a, b)
  }

  /** The graph of the nodes and their counts, as values. */
  ghost function Lists(nodes: seq<OpNode>): (l: seq<set<nat>>)
    reads nodes
    ensures |l| == |nodes| && forall i :: 0 <= i < |l| ==> l[i] == nodes[i].belowlist
  {
    seq(|nodes|, i requires 0 <= i < |nodes| reads nodes => nodes[i].belowlist)
  }

  ghost function Counts(nodes: seq<OpNode>): (c: seq<int>)
    reads nodes
    ensures |c| == |nodes| && forall i :: 0 <= i < |c| ==> c[i] == nodes[i].abovecount
  {
    seq(|nodes|, i requires 0 <= i < |nodes| reads nodes => nodes[i].abovecount)
  }

  ghost function EdgesOf(nodes: seq<OpNode>): Edges
    reads nodes
  {
    Arcs(Lists(nodes))
  }

  ghost predicate Closed(lists: seq<set<nat>>) {
    forall i, b :: 0 <= i < |lists| && b in lists[i] ==> b < |lists|
  }

  /** Nodes in the order of their operations, with links among themselves; a node's count is at
      least the number of nodes on top of it. */
  ghost predicate Wired(nodes: seq<OpNode>)
    reads nodes
  {
    && (forall i :: 0 <= i < |nodes| ==> nodes[i].op == i)
    && Closed(Lists(nodes))
    && Bounds(EdgesOf(nodes), Counts(nodes))
  }

  /** Every count is the number of nodes on top. */
  ghost predicate Exact(nodes: seq<OpNode>)
    reads nodes
  {
    Tight(EdgesOf(nodes), Counts(nodes))
  }

  lemma ArcsFollow(l: seq<set<nat>>, a: nat, b: nat, effect: Effect)
    requires a < |l| && b < |l| && Closed(l) && Applicable(Arcs(l), a, b, effect) && !effect.Kept?
    ensures var s := (if effect.Replaced? then l[a] - {effect.coarser} else l[a]) + {b};
            Arcs(l[a := s]) == Outcome(Arcs(l), a, b, effect) && Closed(l[a := s])
  {
  }

  lemma ArcsCut(l: seq<set<nat>>, a: nat)
    requires a < |l|
    ensures Arcs(l[a := {}]) == Cut(Arcs(l), a)
  {
  }

  class OpNode {
    const op: nat
    var belowlist: set<nat>
    var abovecount: int

    constructor (op: nat)
      ensures this.op == op && belowlist == {} && abovecount == 0
    {
      this.op := op;
      belowlist := {};
      abovecount := 0;
    }

    /** Compares the new node with the nodes already below, in any order, up to the first one
        that settles what to do. */
    method Related(nbelow: OpNode, nodes: seq<OpNode>, ops: seq<Operation>, ghost capacity: nat)
      returns (effect: Effect)
      requires ValidOps(ops, capacity) && |ops| == |nodes| && Wired(nodes)
      requires this in nodes && nbelow in nodes
      ensures Possible(ops, EdgesOf(nodes), op, nbelow.op, effect)
      ensures Applicable(EdgesOf(nodes), op, nbelow.op, effect)
    {
      var rest := belowlist;
      ghost var done: set<nat> := {};
      while rest != {}
        invariant done + rest == belowlist
        invariant forall s :: s in done ==>
                    s != nbelow.op && !Within(ops, s, nbelow.op) && !Within(ops, nbelow.op, s)
        decreases rest
      {
        var below :| below in rest;
        rest := rest - {below};
        if below == nbelow.op {
          return Kept(below);
        }
        var loc := Locate(ops[nbelow.op], ops[below], capacity);
        if loc == Inside {
          return Kept(below);
        }
        if loc == Contains {
          assert Within(ops, nbelow.op, below) && !Within(ops, nbelow.op, nbelow.op);
          return Replaced(below);
        }
        assert !Within(ops, below, nbelow.op) && !Within(ops, nbelow.op, below);
        done := done + {below};
      }
      assert forall s :: (op, s) in EdgesOf(nodes) ==> s in belowlist;
      return Added;
    }

    /** Puts this node on top of another, unless the order is known already; at most one edge
        that the new one makes redundant is dropped. */
    method OnTopOf(nbelow: OpNode, nodes: seq<OpNode>, ops: seq<Operation>, ghost capacity: nat)
      returns (ghost effect: Effect)
      requires ValidOps(ops, capacity) && |ops| == |nodes| && Wired(nodes)
      requires this in nodes && nbelow in nodes
      modifies nodes
      ensures Wired(nodes)
      ensures Possible(ops, old(EdgesOf(nodes)), op, nbelow.op, effect)
      ensures Applicable(old(EdgesOf(nodes)), op, nbelow.op, effect)
      ensures EdgesOf(nodes) == Outcome(old(EdgesOf(nodes)), op, nbelow.op, effect)
      ensures Counts(nodes) == Recount(old(Counts(nodes)), nbelow.op, effect)
      ensures Exact(nodes) <==>
              old(Exact(nodes)) && !Overcounts(old(EdgesOf(nodes)), op, nbelow.op, effect)
    {
      hide *;
      NodeFacts(nodes);
      ghost var e, l, c := EdgesOf(nodes), Lists(nodes), Counts(nodes);
      var related := Related(nbelow, nodes, ops, capacity);
      effect := related;
      RelatedFacts(nodes, op, nbelow.op, effect);
      if related.Kept? {
        return;
      }
      if related.Replaced? {
        var below := nodes[related.coarser];
        below.abovecount := below.abovecount - 1;
        belowlist := belowlist - {related.coarser};
      }
      belowlist := belowlist + {nbelow.op};
      nbelow.abovecount := nbelow.abovecount + 1;
      assert Lists(nodes) == l[op := belowlist];
      Relinked(l, c, op, nbelow.op, effect, nodes);
    }

    /** One round of the search: the nodes below a set of nodes that were not seen before,
        unless the target is in the set. */
    static method Expand(visit: set<nat>, seen: set<nat>, target: nat, nodes: seq<OpNode>)
      returns (found: bool, front: set<nat>)
      requires Wired(nodes) && forall x :: x in visit ==> x < |nodes|
      ensures found <==> target in visit
      ensures !found ==> front == Successors(EdgesOf(nodes), visit) - seen
    {
      front := {};
      var rest := visit;
      while rest != {}
        invariant rest <= visit && (target in visit ==> target in rest)
        invariant front == Successors(EdgesOf(nodes), visit - rest) - seen
        decreases rest
      {
        var pivot :| pivot in rest;
        if pivot == target {
          return true, front;
        }
        ghost var before := front;
        var next := nodes[pivot].belowlist;
        while next != {}
          invariant next <= nodes[pivot].belowlist
          invariant front == before + (nodes[pivot].belowlist - next - seen)
          decreases next
        {
          var node :| node in next;
          next := next - {node};
          if node in seen {
            continue;
          }
          front := front + {node};
        }
        ghost var e := EdgesOf(nodes);
        assert Successors(e, visit - (rest - {pivot})) == Successors(e, visit - rest) + nodes[pivot].belowlist by {
          assert forall x :: x in nodes[pivot].belowlist ==> (pivot, x) in e;
        }
        rest := rest - {pivot};
      }
      return false, front;
    }

    /** Whether another node is below this one: breadth first, never visiting a node twice. */
    method Above(target: nat, nodes: seq<OpNode>) returns (found: bool)
      requires Wired(nodes) && this in nodes
      ensures found <==> Reaches(EdgesOf(nodes), op, target)
    {
      hide *;
      NodeFacts(nodes);
      ghost var e, all := EdgesOf(nodes), set i | 0 <= i < |nodes| :: nodes[i].op;
      var seen: set<nat>, front: set<nat> := {}, belowlist;
      ReachedFrom(e, op, {op}, front);
      SuccessorsInside(nodes, {op});
      ghost var known := {op};
      while front != {}
        invariant front !! seen && front <= all && seen <= all && target !in seen && known == seen + {op}
        invariant Successors(e, known) <= seen + front
        invariant forall x :: x in seen + front ==> Reaches(e, op, x)
        decreases all - seen
      {
        seen := seen + front;
        var visit := front;
        var stop;
        stop, front := Expand(visit, seen, target, nodes);
        if stop {
          return true;
        }
        ReachedFrom(e, op, visit, front);
        SuccessorsUnion(e, known, visit);
        SuccessorsInside(nodes, visit);
        known := known + visit;
      }
      if Reaches(e, op, target) {
        NotReached(e, seen, op, target);
      }
      return false;
    }

    /** Forgets the nodes below this one, which wait for one node less. */
    method Unlink(nodes: seq<OpNode>)
      requires Wired(nodes) && this in nodes
      modifies nodes
      ensures Wired(nodes)
      ensures EdgesOf(nodes) == Cut(old(EdgesOf(nodes)), op)
      ensures forall i :: 0 <= i < |nodes| ==>
                nodes[i].abovecount == old(nodes[i].abovecount) - if i in old(belowlist) then 1 else 0
      ensures Exact(nodes) <==> old(Exact(nodes))
    {
      hide *;
      NodeFacts(nodes);
      ghost var l, c := Lists(nodes), Counts(nodes);
      var rest := belowlist;
      while rest != {}
        invariant rest <= belowlist
        invariant forall i :: 0 <= i < |nodes| ==> nodes[i].belowlist == old(nodes[i].belowlist)
        invariant forall i :: 0 <= i < |nodes| ==>
                    nodes[i].abovecount == old(nodes[i].abovecount) - if i in belowlist - rest then 1 else 0
        decreases rest
      {
        var below :| below in rest;
        nodes[below].abovecount := nodes[below].abovecount - 1;
        rest := rest - {below};
      }
      belowlist := {};
      assert Lists(nodes) == l[op := {}];
      UnlinkedCounts(l, c, op, Counts(nodes), nodes);
    }
  }

  lemma RelatedFacts(nodes: seq<OpNode>, a: nat, b: nat, effect: Effect)
    requires Wired(nodes) && a < |nodes| && Applicable(EdgesOf(nodes), a, b, effect)
    ensures effect.Replaced? ==> effect.coarser < |nodes| && effect.coarser != b
    ensures effect.Kept? ==> Outcome(EdgesOf(nodes), a, b, effect) == EdgesOf(nodes) && !Overcounts(EdgesOf(nodes), a, b, effect)
  {
  }

  /** The nodes as values, after an edge has been added. */
  lemma Relinked(l: seq<set<nat>>, c: seq<int>, a: nat, b: nat, effect: Effect, nodes: seq<OpNode>)
    requires a < |l| == |c| && b < |l| && Closed(l) && Bounds(Arcs(l), c)
    requires !effect.Kept? && Applicable(Arcs(l), a, b, effect) && (effect.Replaced? ==> effect.coarser < |c|)
    requires Lists(nodes) == l[a := (if effect.Replaced? then l[a] - {effect.coarser} else l[a]) + {b}]
    requires |nodes| == |c| && forall i :: 0 <= i < |c| ==>
      nodes[i].abovecount == c[i] + (if i == b then 1 else 0) - (if effect == Replaced(i) then 1 else 0)
    requires forall i :: 0 <= i < |nodes| ==> nodes[i].op == i
    ensures Wired(nodes) && EdgesOf(nodes) == Outcome(Arcs(l), a, b, effect)
    ensures Exact(nodes) <==> Tight(Arcs(l), c) && !Overcounts(Arcs(l), a, b, effect)
  {
    hide Bounds, Tight, Arcs, Outcome, Overcounts, Applicable;
    ArcsFollow(l, a, b, effect);
    CountsFollow(Arcs(l), a, b, effect, c, Counts(nodes));
  }

  /** The nodes as values, after a node has forgotten what is below it. */
  lemma UnlinkedCounts(l: seq<set<nat>>, c: seq<int>, a: nat, d: seq<int>, nodes: seq<OpNode>)
    requires a < |l| == |c| == |d| && Closed(l) && Bounds(Arcs(l), c)
    requires forall i :: 0 <= i < |c| ==> d[i] == c[i] - if i in l[a] then 1 else 0
    requires Lists(nodes) == l[a := {}] && Counts(nodes) == d
    requires forall i :: 0 <= i < |nodes| ==> nodes[i].op == i
    ensures Wired(nodes) && EdgesOf(nodes) == Cut(Arcs(l), a)
    ensures Exact(nodes) <==> Tight(Arcs(l), c)
  {
    hide Cut, Into;
    ArcsCut(l, a);
    forall i: nat | i < |c| ensures |Into(Arcs(l[a := {}]), i)| - d[i] == |Into(Arcs(l), i)| - c[i] {
      assert i in l[a] <==> (a, i) in Arcs(l);
      IntoCut(Arcs(l), a, i);
    }
  }

  ghost function Successors(e: Edges, s: set<nat>): set<nat> {
    set x | x in e && x.0 in s :: x.1
  }

  lemma SuccessorsUnion(e: Edges, s: set<nat>, t: set<nat>)
    ensures Successors(e, s + t) == Successors(e, s) + Successors(e, t)
  {
  }

  lemma SuccessorsInside(nodes: seq<OpNode>, s: set<nat>)
    requires Wired(nodes)
    ensures Successors(EdgesOf(nodes), s) <= set i | 0 <= i < |nodes| :: nodes[i].op
  {
    forall x | x in Successors(EdgesOf(nodes), s) ensures 0 <= x < |nodes| && nodes[x].op == x {
    }
  }

  lemma NodeFacts(nodes: seq<OpNode>)
    requires Wired(nodes)
    ensures Closed(Lists(nodes)) && Bounds(Arcs(Lists(nodes)), Counts(nodes)) && EdgesOf(nodes) == Arcs(Lists(nodes))
    ensures Exact(nodes) <==> Tight(Arcs(Lists(nodes)), Counts(nodes))
    ensures forall i :: 0 <= i < |nodes| ==> nodes[i].op == i && nodes[i].belowlist == Successors(EdgesOf(nodes), {i})
    ensures forall i, x :: 0 <= i < |nodes| && x in nodes[i].belowlist ==> 0 <= x < |nodes|
  {
    forall i | 0 <= i < |nodes| ensures nodes[i].belowlist == Successors(EdgesOf(nodes), {i}) {
      assert forall x :: x in nodes[i].belowlist ==> (i, x) in EdgesOf(nodes);
    }
  }

  lemma NotReached(e: Edges, seen: set<nat>, a: nat, b: nat)
    requires Successors(e, seen + {a}) <= seen && b !in seen
    ensures !Reaches(e, a, b)
  {
    if Reaches(e, a, b) {
      forall x, y | (x, y) in e && (x == a || x in seen) ensures y in seen {
        assert y in Successors(e, seen + {a});
      }
      ClosedSetKeepsPaths(e, seen, a, b);
    }
  }

  lemma ReachedFrom(e: Edges, a: nat, s: set<nat>, front: set<nat>)
    requires forall x :: x in s ==> x == a || Reaches(e, a, x)
    requires front <= Successors(e, s)
    ensures forall x :: x in front ==> Reaches(e, a, x)
  {
    forall x | x in front ensures Reaches(e, a, x) {
      var y :| y in e && y.0 in s && y.1 == x;
      EdgeReaches(e, y.0, x);
      if y.0 != a {
        ReachesTransitive(e, a, y.0, x);
      }
    }
  }

  lemma {:induction false} ClosedPath(e: Edges, s: set<nat>, p: seq<nat>, a: nat, b: nat)
    requires forall x, y :: (x, y) in e && (x == a || x in s) ==> y in s
    requires IsPath(e, p, a, b)
    ensures b in s
    decreases |p|
  {
    assert Step(e, p, 0);
    if |p| > 2 {
      forall i | 0 <= i < |p[1..]| - 1 ensures Step(e, p[1..], i) {
        assert Step(e, p, i + 1);
      }
      ClosedPath(e, s, p[1..], p[1], b);
    }
  }

  lemma ClosedSetKeepsPaths(e: Edges, s: set<nat>, a: nat, b: nat)
    requires forall x, y :: (x, y) in e && (x == a || x in s) ==> y in s
    requires Reaches(e, a, b)
    ensures b in s
  {
    var p: seq<nat> :| IsPath(e, p, a, b);
    ClosedPath(e, s, p, a, b);
  }
}
