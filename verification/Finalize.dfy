/** `Isa::finalize`: from operations and user orderings to the sorted operation table. */
module Finalize {
  import opened Patterns
  import opened Reachability
  import opened Specificity
  import opened OpNodes
  import opened Declarations
  import opened TopologicalSort

  /** One `specialize` directive: an operation or group, and those it goes on top of. */
  datatype Ordering = Ordering(top: string, under: seq<string>)

  /** How `finalize` ends: accepted, one of its four errors, or its failed assertion. */
  datatype Verdict =
    | Accepted
    | Duplicate(a: nat, b: nat)
    | NoSuchName(name: string)
    | Illegal(above: nat, below: nat)
    | Conflict(a: nat, b: nat)
    | TrackerRanOut

  // ---------- the pairs a list of user orderings asks for, in the order of the loops

  type Names = map<string, seq<nat>>

  function Row(a: nat, bs: seq<nat>): seq<(nat, nat)> {
    seq(|bs|, j requires 0 <= j < |bs| => (a, bs[j]))
  }

  function Product(tops: seq<nat>, bs: seq<nat>): seq<(nat, nat)> {
    if tops == [] then [] else Product(tops[..|tops| - 1], bs) + Row(tops[|tops| - 1], bs)
  }

  predicate Known(names: Names, orderings: seq<Ordering>) {
    forall o :: o in orderings ==> o.top in names && forall u :: u in o.under ==> u in names
  }

  function Members(names: Names, under: seq<string>): seq<nat>
    requires forall u :: u in under ==> u in names
  {
    if under == [] then [] else Members(names, under[..|under| - 1]) + names[under[|under| - 1]]
  }

  function Requests(names: Names, orderings: seq<Ordering>): seq<(nat, nat)>
    requires Known(names, orderings)
  {
    if orderings == [] then [] else
      var o := orderings[|orderings| - 1];
      Requests(names, orderings[..|orderings| - 1]) + Product(names[o.top], Members(names, o.under))
  }

  /** The explicit edges: the requested pairs that overlap. */
  ghost function Explicit(ops: seq<Operation>, requests: seq<(nat, nat)>): Edges {
    set x | x in requests && Overlapping(ops, x.0, x.1)
  }

  /** No request puts an operation on top of a specialization of it. */
  ghost predicate Legal(ops: seq<Operation>, requests: seq<(nat, nat)>) {
    forall x :: x in requests ==> !Within(ops, x.1, x.0)
  }

  /** No overlapping pair is requested twice. */
  ghost predicate Distinct(ops: seq<Operation>, requests: seq<(nat, nat)>) {
    forall i, j :: 0 <= i < j < |requests| && requests[i] == requests[j] ==>
      !Overlapping(ops, requests[i].0, requests[i].1)
  }

  // ---------- the graph under construction

  /** The graph covers the declared pairs with edges among them. */
  ghost predicate Built(ops: seq<Operation>, capacity: nat, nodes: seq<OpNode>, declared: Edges)
    reads nodes
  {
    && ValidOps(ops, capacity) && |ops| == |nodes| && Wired(nodes)
    && Covers(ops, EdgesOf(nodes), declared) && EdgesOf(nodes) <= declared
  }

  /** Declares a pair, which the upper node may or may not turn into an edge. */
  method Declare(nodes: seq<OpNode>, ops: seq<Operation>, a: nat, b: nat, ghost capacity: nat, ghost declared: Edges,
                 ghost calls: seq<Call>)
    returns (ghost more: seq<Call>)
    requires Built(ops, capacity, nodes, declared) && Traced(ops, nodes, calls)
    requires a < |nodes| && b < |nodes|
    modifies nodes
    ensures Traced(ops, nodes, more) && Pairs(more) == Pairs(calls) + [(a, b)]
    ensures Built(ops, capacity, nodes, declared + {(a, b)})
    ensures Exact(nodes) ==> old(Exact(nodes))
    ensures (a, b) !in declared ==> (Exact(nodes) <==> old(Exact(nodes)))
  {
    hide *;
    BuiltFacts(ops, capacity, nodes, declared);
    TracedFacts(ops, nodes, calls);
    ghost var e, c := EdgesOf(nodes), Counts(nodes);
    ghost var effect := nodes[a].OnTopOf(nodes[b], nodes, ops, capacity);
    OnTopOfCovers(ops, e, declared, a, b, effect);
    NewPairIsExact(e, declared, a, b, effect);
    more := calls + [Call(a, b, effect)];
    StillTraced(ops, nodes, e, c, calls, Call(a, b, effect));
    StillBuilt(ops, capacity, nodes, declared + {(a, b)});
  }

  /** The nodes are what some calls leave behind. */
  ghost predicate Traced(ops: seq<Operation>, nodes: seq<OpNode>, calls: seq<Call>)
    reads nodes
  {
    && |nodes| == |ops| && Feasible(ops, calls)
    && EdgesOf(nodes) == GraphAfter(calls) && Counts(nodes) == CountsAfter(calls, |ops|)
  }

  lemma TracedFacts(ops: seq<Operation>, nodes: seq<OpNode>, calls: seq<Call>)
    requires Traced(ops, nodes, calls)
    ensures |nodes| == |ops| && Feasible(ops, calls)
    ensures EdgesOf(nodes) == GraphAfter(calls) && Counts(nodes) == CountsAfter(calls, |ops|)
  {
  }

  lemma StillTraced(ops: seq<Operation>, nodes: seq<OpNode>, e: Edges, c: seq<int>, calls: seq<Call>, call: Call)
    requires |nodes| == |ops| && Feasible(ops, calls) && call.above < |ops| && call.below < |ops|
    requires e == GraphAfter(calls) && c == CountsAfter(calls, |ops|)
    requires Possible(ops, e, call.above, call.below, call.effect) && Applicable(e, call.above, call.below, call.effect)
    requires EdgesOf(nodes) == Outcome(e, call.above, call.below, call.effect)
    requires Counts(nodes) == Recount(c, call.below, call.effect)
    ensures Traced(ops, nodes, calls + [call]) && Pairs(calls + [call]) == Pairs(calls) + [(call.above, call.below)]
  {
    CallNext(ops, calls, call, |ops|);
  }

  /** The counts are exact exactly when no call overcounted. */
  lemma TracedExact(ops: seq<Operation>, nodes: seq<OpNode>, calls: seq<Call>)
    requires Traced(ops, nodes, calls)
    ensures Exact(nodes) <==> NeverOvercounts(calls)
  {
    TightUnlessOvercounted(ops, calls);
  }

  lemma BuiltFacts(ops: seq<Operation>, capacity: nat, nodes: seq<OpNode>, declared: Edges)
    requires Built(ops, capacity, nodes, declared)
    ensures ValidOps(ops, capacity) && |ops| == |nodes| && Wired(nodes)
    ensures forall i :: 0 <= i < |nodes| ==> nodes[i].op == i
    ensures Covers(ops, EdgesOf(nodes), declared) && EdgesOf(nodes) <= declared
  {
  }

  lemma StillBuilt(ops: seq<Operation>, capacity: nat, nodes: seq<OpNode>, declared: Edges)
    requires ValidOps(ops, capacity) && |ops| == |nodes| && Wired(nodes)
    requires Covers(ops, EdgesOf(nodes), declared) && EdgesOf(nodes) <= declared
    ensures Built(ops, capacity, nodes, declared)
  {
  }

  lemma NewPairIsExact(e: Edges, declared: Edges, a: nat, b: nat, effect: Effect)
    requires e <= declared
    ensures (a, b) !in declared ==> !Overcounts(e, a, b, effect)
  {
  }

  // ---------- 1. implicit edges

  /** The double loop has compared the p-th and the q-th operation of the layout. */
  ghost predicate Compared(p: int, q: int, i: int, j: int) {
    0 <= q < p && (p < i || (p == i && q < j))
  }

  /** The double loop has compared the ends of a pair. */
  ghost predicate Met(layout: seq<nat>, x: (nat, nat), i: int, j: int) {
    exists p, q :: 0 <= p < |layout| && 0 <= q < |layout| && layout[p] == x.0 && layout[q] == x.1
                   && (Compared(p, q, i, j) || Compared(q, p, i, j))
  }

  ghost function ImplicitUpTo(ops: seq<Operation>, layout: seq<nat>, i: int, j: int): Edges {
    set x | x in Implicit(ops) && Met(layout, x, i, j)
  }

  lemma MetNext(layout: seq<nat>, n: nat, i: nat, j: nat, x: (nat, nat))
    requires Layout(layout, n) && j < i < n
    ensures Met(layout, x, i, j + 1) <==>
            Met(layout, x, i, j) || x == (layout[i], layout[j]) || x == (layout[j], layout[i])
    ensures !Met(layout, (layout[i], layout[j]), i, j) && !Met(layout, (layout[j], layout[i]), i, j)
  {
    MetMore(layout, n, i, j, x);
    if Met(layout, x, i, j + 1) {
      var p, q :| 0 <= p < n && 0 <= q < n && layout[p] == x.0 && layout[q] == x.1
                  && (Compared(p, q, i, j + 1) || Compared(q, p, i, j + 1));
      assert Compared(p, q, i, j) || Compared(q, p, i, j) || (p == i && q == j) || (p == j && q == i);
    }
  }

  lemma MetMore(layout: seq<nat>, n: nat, i: nat, j: nat, x: (nat, nat))
    requires Layout(layout, n) && j < i < n
    ensures Met(layout, x, i, j) || x == (layout[i], layout[j]) || x == (layout[j], layout[i]) ==> Met(layout, x, i, j + 1)
  {
    hide Layout;
    LayoutIds(layout, n);
    if x == (layout[i], layout[j]) || x == (layout[j], layout[i]) {
      assert Compared(i, j, i, j + 1);
    }
    if Met(layout, x, i, j) {
      var p, q :| 0 <= p < n && 0 <= q < n && layout[p] == x.0 && layout[q] == x.1
                  && (Compared(p, q, i, j) || Compared(q, p, i, j));
      assert Compared(p, q, i, j + 1) || Compared(q, p, i, j + 1);
    }
  }

  /** One more comparison declares at most the one pair that it finds nested. */
  lemma ImplicitNext(ops: seq<Operation>, layout: seq<nat>, i: nat, j: nat, loc: Location)
    requires Layout(layout, |ops|) && j < i < |ops|
    requires loc == Contains <==> Within(ops, layout[i], layout[j])
    requires loc == Inside <==> Within(ops, layout[j], layout[i])
    ensures var d := ImplicitUpTo(ops, layout, i, j);
            && ImplicitUpTo(ops, layout, i, j + 1) ==
               (if loc == Contains then d + {(layout[i], layout[j])}
                else if loc == Inside then d + {(layout[j], layout[i])} else d)
            && (layout[i], layout[j]) !in d && (layout[j], layout[i]) !in d
  {
    hide Within, Met;
    MetNext(layout, |ops|, i, j, (layout[i], layout[j]));
    forall x | x in Implicit(ops)
      ensures Met(layout, x, i, j + 1) <==>
              Met(layout, x, i, j) || x == (layout[i], layout[j]) || x == (layout[j], layout[i])
    {
      MetNext(layout, |ops|, i, j, x);
    }
  }

  lemma ImplicitRow(ops: seq<Operation>, layout: seq<nat>, i: nat)
    ensures ImplicitUpTo(ops, layout, i, i) == ImplicitUpTo(ops, layout, i + 1, 0)
  {
    forall x ensures Met(layout, x, i, i) <==> Met(layout, x, i + 1, 0) {
      assert forall p, q :: Compared(p, q, i, i) <==> Compared(p, q, i + 1, 0);
    }
  }

  lemma ImplicitStart(ops: seq<Operation>, layout: seq<nat>)
    ensures ImplicitUpTo(ops, layout, 0, 0) == {}
  {
  }

  lemma AllMet(layout: seq<nat>, n: nat, a: nat, b: nat)
    requires Layout(layout, n) && a < n && b < n && a != b
    ensures Met(layout, (a, b), n, 0)
  {
    assert a in layout && b in layout;
    var p :| 0 <= p < n && layout[p] == a;
    var q :| 0 <= q < n && layout[q] == b;
    assert Compared(p, q, n, 0) || Compared(q, p, n, 0);
  }

  ghost predicate SameWords(ops: seq<Operation>, a: nat, b: nat) {
    a < |ops| && b < |ops| && a != b && Located(ops[a].code, ops[b].code, Equal)
  }

  /** No two operations compared so far have the same words. */
  ghost predicate NoneEqual(ops: seq<Operation>, layout: seq<nat>, i: int, j: int)
    requires Layout(layout, |ops|)
  {
    forall p, q :: Compared(p, q, i, j) && p < |ops| ==> !Located(ops[layout[p]].code, ops[layout[q]].code, Equal)
  }

  /** The double loop meets two operations with the same words for the first time. */
  ghost predicate FirstEqual(ops: seq<Operation>, layout: seq<nat>, i: nat, j: nat)
    requires Layout(layout, |ops|)
  {
    && j < i < |ops| && NoneEqual(ops, layout, i, j)
    && Located(ops[layout[i]].code, ops[layout[j]].code, Equal)
  }

  lemma EqualFound(ops: seq<Operation>, layout: seq<nat>, i: nat, j: nat)
    requires Layout(layout, |ops|) && FirstEqual(ops, layout, i, j)
    ensures SameWords(ops, layout[i], layout[j]) && !NoDuplicates(ops)
  {
  }

  lemma ImplicitDone(ops: seq<Operation>, layout: seq<nat>)
    requires Layout(layout, |ops|)
    ensures ImplicitUpTo(ops, layout, |ops|, 0) == Implicit(ops)
    ensures NoneEqual(ops, layout, |ops|, 0) ==> NoDuplicates(ops)
  {
    var n := |ops|;
    forall x | x in Implicit(ops) ensures Met(layout, x, n, 0) {
      assert Within(ops, x.0, x.1) && x.0 != x.1;
      AllMet(layout, n, x.0, x.1);
    }
    if NoneEqual(ops, layout, n, 0) {
      forall a, b | 0 <= a < n && 0 <= b < n && a != b ensures !Located(ops[a].code, ops[b].code, Equal) {
        AllMet(layout, n, a, b);
        var p, q :| 0 <= p < n && 0 <= q < n && layout[p] == a && layout[q] == b
                    && (Compared(p, q, n, 0) || Compared(q, p, n, 0));
      }
    }
  }

  /** Compares all operations pairwise and puts each on top of those it specializes; two
      operations with the same words are an error. */
  method AddImplicit(nodes: seq<OpNode>, ops: seq<Operation>, layout: seq<nat>, ghost capacity: nat)
    returns (verdict: Verdict, ghost calls: seq<Call>)
    requires Built(ops, capacity, nodes, {}) && Layout(layout, |ops|) && Exact(nodes) && Traced(ops, nodes, [])
    modifies nodes
    ensures verdict.Accepted? || verdict.Duplicate?
    ensures verdict.Duplicate? ==>
              !NoDuplicates(ops) && exists i: nat, j: nat :: FirstEqual(ops, layout, i, j) && verdict == Duplicate(layout[i], layout[j])
    ensures verdict.Accepted? ==> NoDuplicates(ops) && Built(ops, capacity, nodes, Implicit(ops)) && Exact(nodes)
    ensures verdict.Accepted? ==> Traced(ops, nodes, calls) && Pairs(calls) == CalledPairs(ops, layout, [])
  {
    hide Traced, ImplicitPairs, Nested, Pairs, CalledPairs;
    hide Built, Exact, Located, Implicit, ImplicitUpTo, Met, Within, Matches, Disjoint, Subset, StrictSubset, Wired, Valid, Settled;
    BuiltSizes(ops, capacity, nodes, {});
    ImplicitStart(ops, layout);
    calls := [];
    NoPairs(ops, layout);
    for i := 0 to |ops|
      invariant Built(ops, capacity, nodes, ImplicitUpTo(ops, layout, i, 0)) && Exact(nodes)
      invariant NoneEqual(ops, layout, i, 0)
      invariant Traced(ops, nodes, calls) && Pairs(calls) == ImplicitPairs(ops, layout, i, 0)
    {
      for j := 0 to i
        invariant Built(ops, capacity, nodes, ImplicitUpTo(ops, layout, i, j)) && Exact(nodes)
        invariant NoneEqual(ops, layout, i, j)
        invariant Traced(ops, nodes, calls) && Pairs(calls) == ImplicitPairs(ops, layout, i, j)
      {
        ghost var declared := ImplicitUpTo(ops, layout, i, j);
        var n1, n2 := layout[i], layout[j];
        var loc := Locate(ops[n1], ops[n2], capacity);
        LocateMeans(ops, n1, n2, loc);
        ImplicitNext(ops, layout, i, j, loc);
        ImplicitPairsNext(ops, layout, i, j, loc);
        match loc
        case Equal =>
          EqualFound(ops, layout, i, j);
          return Duplicate(n1, n2), calls;
        case Contains => calls := Declare(nodes, ops, n1, n2, capacity, declared, calls);
        case Inside => calls := Declare(nodes, ops, n2, n1, capacity, declared, calls);
        case _ =>
      }
      ImplicitRow(ops, layout, i);
      ImplicitPairsRow(ops, layout, i);
    }
    ImplicitDone(ops, layout);
    NoExplicitPairs(ops, layout);
    return Accepted, calls;
  }

  lemma NoPairs(ops: seq<Operation>, layout: seq<nat>)
    ensures Pairs([]) == [] == ImplicitPairs(ops, layout, 0, 0)
  {
  }

  lemma ImplicitPairsNext(ops: seq<Operation>, layout: seq<nat>, i: nat, j: nat, loc: Location)
    requires j < i < |layout|
    requires loc == Contains <==> Within(ops, layout[i], layout[j])
    requires loc == Inside <==> Within(ops, layout[j], layout[i])
    ensures ImplicitPairs(ops, layout, i, j + 1) == ImplicitPairs(ops, layout, i, j) +
      if loc == Contains then [(layout[i], layout[j])] else if loc == Inside then [(layout[j], layout[i])] else []
  {
    hide Within;
  }

  lemma ImplicitPairsRow(ops: seq<Operation>, layout: seq<nat>, i: nat)
    requires i < |layout|
    ensures ImplicitPairs(ops, layout, i + 1, 0) == ImplicitPairs(ops, layout, i, i)
  {
  }

  lemma NoExplicitPairs(ops: seq<Operation>, layout: seq<nat>)
    ensures CalledPairs(ops, layout, []) == ImplicitPairs(ops, layout, |layout|, 0)
  {
    assert ExplicitPairs(ops, []) == [];
  }

  lemma BuiltSizes(ops: seq<Operation>, capacity: nat, nodes: seq<OpNode>, declared: Edges)
    requires Built(ops, capacity, nodes, declared)
    ensures |ops| == |nodes| && ValidOps(ops, capacity)
  {
  }

  /** What `locate` says about two operations. */
  lemma LocateMeans(ops: seq<Operation>, a: nat, b: nat, loc: Location)
    requires a < |ops| && b < |ops| && Settled(ops[a].code, ops[b].code, loc)
    ensures Located(ops[a].code, ops[b].code, loc)
    ensures loc == Equal <==> Located(ops[a].code, ops[b].code, Equal)
    ensures loc == Contains <==> Within(ops, a, b)
    ensures loc == Inside <==> Within(ops, b, a)
  {
  }

  // ---------- 3. explicit edges

  /** Every name stands for operations of the table. */
  ghost predicate ValidNames(names: Names, n: nat) {
    forall s, k :: s in names && 0 <= k < |names[s]| ==> names[s][k] < n
  }

  lemma MembersValid(names: Names, under: seq<string>, n: nat)
    requires ValidNames(names, n) && forall u :: u in under ==> u in names
    ensures forall k :: 0 <= k < |Members(names, under)| ==> Members(names, under)[k] < n
  {
  }

  lemma ProductNext(tops: seq<nat>, bs: seq<nat>, i: nat)
    requires i < |tops|
    ensures Product(tops[..i + 1], bs) == Product(tops[..i], bs) + Row(tops[i], bs)
  {
    assert tops[..i + 1][..i] == tops[..i];
  }

  lemma MembersNext(names: Names, under: seq<string>, k: nat)
    requires k < |under| && forall u :: u in under[..k + 1] ==> u in names
    ensures Members(names, under[..k + 1]) == Members(names, under[..k]) + names[under[k]]
  {
    assert under[..k + 1][..k] == under[..k];
  }

  lemma RequestsNext(names: Names, orderings: seq<Ordering>, k: nat)
    requires k < |orderings| && Known(names, orderings[..k + 1])
    ensures Known(names, orderings[..k])
    ensures Requests(names, orderings[..k + 1]) ==
            Requests(names, orderings[..k]) + Product(names[orderings[k].top], Members(names, orderings[k].under))
  {
    assert orderings[..k + 1][..k] == orderings[..k];
    assert orderings[k] in orderings[..k + 1];
  }

  /** What the requests handled so far have declared. */
  ghost predicate Declared(ops: seq<Operation>, capacity: nat, nodes: seq<OpNode>, done: seq<(nat, nat)>,
                           layout: seq<nat>, calls: seq<Call>)
    reads nodes
  {
    && Traced(ops, nodes, calls) && Pairs(calls) == CalledPairs(ops, layout, done)
    && Built(ops, capacity, nodes, Implicit(ops) + Explicit(ops, done))
    && Legal(ops, done)
    && (Distinct(ops, done) ==> Exact(nodes))
  }

  lemma RequestEffect(ops: seq<Operation>, done: seq<(nat, nat)>, a: nat, b: nat, loc: Location)
    requires a < |ops| && b < |ops| && Located(ops[a].code, ops[b].code, loc)
    requires loc == Inside <==> Within(ops, b, a)
    ensures Legal(ops, done + [(a, b)]) <==> Legal(ops, done) && loc != Inside
    ensures Distinct(ops, done + [(a, b)]) ==> Distinct(ops, done)
    ensures loc != Overlaps ==> Explicit(ops, done + [(a, b)]) == Explicit(ops, done)
    ensures loc == Overlaps ==>
            && Explicit(ops, done + [(a, b)]) == Explicit(ops, done) + {(a, b)}
            && (a, b) !in Implicit(ops)
            && (Distinct(ops, done + [(a, b)]) ==> (a, b) !in Explicit(ops, done))
  {
    hide Located;
    var next := done + [(a, b)];
    assert loc == Overlaps <==> Overlapping(ops, a, b) by { LocationIsOne(ops[a].code, ops[b].code, loc, Overlaps); }
    assert forall x :: x in next <==> x in done || x == (a, b);
    if Distinct(ops, next) {
      forall i, j | 0 <= i < j < |done| && done[i] == done[j] ensures !Overlapping(ops, done[i].0, done[i].1) {
        assert next[i] == next[j];
      }
      if (a, b) in done {
        var i :| 0 <= i < |done| && done[i] == (a, b);
        assert next[i] == next[|done|];
      }
    }
    if loc == Overlaps {
      OverlapsIsNotNested(ops, a, b);
    }
  }

  lemma LocationIsOne(a: Code, b: Code, p: Location, q: Location)
    requires Located(a, b, p)
    ensures p == q <==> Located(a, b, q)
  {
  }

  lemma OverlapsIsNotNested(ops: seq<Operation>, a: nat, b: nat)
    requires Overlapping(ops, a, b)
    ensures !Within(ops, a, b)
  {
  }

  /** Handles one requested pair. */
  method Request(nodes: seq<OpNode>, ops: seq<Operation>, a: nat, b: nat, ghost capacity: nat,
                 ghost done: seq<(nat, nat)>, ghost layout: seq<nat>, ghost calls: seq<Call>)
    returns (legal: bool, ghost more: seq<Call>)
    requires a < |nodes| && b < |nodes| && Declared(ops, capacity, nodes, done, layout, calls)
    modifies nodes
    ensures legal ==> Declared(ops, capacity, nodes, done + [(a, b)], layout, more)
    ensures !legal ==> Within(ops, b, a)
  {
    hide *;
    more := calls;
    DeclaredFacts(ops, capacity, nodes, done, layout, calls);
    ghost var declared := Implicit(ops) + Explicit(ops, done);
    BuiltSizes(ops, capacity, nodes, declared);
    assert Valid(ops[a], capacity) && Valid(ops[b], capacity) by { ValidAt(ops, capacity, a, b); }
    var loc := Locate(ops[a], ops[b], capacity);
    LocateMeans(ops, a, b, loc);
    RequestEffect(ops, done, a, b, loc);
    RequestPairs(ops, layout, done, a, b, loc);
    match loc {
      case Inside => return false, more;
      case Overlaps =>
        more := Declare(nodes, ops, a, b, capacity, declared, calls);
        assert declared + {(a, b)} == Implicit(ops) + Explicit(ops, done + [(a, b)]);
      case _ =>
    }
    DeclaredFrom(ops, capacity, nodes, done + [(a, b)], layout, more);
    return true, more;
  }

  lemma ValidAt(ops: seq<Operation>, capacity: nat, a: nat, b: nat)
    requires ValidOps(ops, capacity) && a < |ops| && b < |ops|
    ensures Valid(ops[a], capacity) && Valid(ops[b], capacity)
  {
  }

  /** A request adds a pair to those called if and only if it overlaps. */
  lemma RequestPairs(ops: seq<Operation>, layout: seq<nat>, done: seq<(nat, nat)>, a: nat, b: nat, loc: Location)
    requires a < |ops| && b < |ops| && Located(ops[a].code, ops[b].code, loc)
    ensures CalledPairs(ops, layout, done + [(a, b)]) ==
            CalledPairs(ops, layout, done) + if loc == Overlaps then [(a, b)] else []
  {
    hide Located, ImplicitPairs;
    assert loc == Overlaps <==> Overlapping(ops, a, b) by { LocationIsOne(ops[a].code, ops[b].code, loc, Overlaps); }
    assert (done + [(a, b)])[..|done|] == done;
  }

  lemma DeclaredFacts(ops: seq<Operation>, capacity: nat, nodes: seq<OpNode>, done: seq<(nat, nat)>,
                      layout: seq<nat>, calls: seq<Call>)
    requires Declared(ops, capacity, nodes, done, layout, calls)
    ensures Traced(ops, nodes, calls) && Pairs(calls) == CalledPairs(ops, layout, done)
    ensures Built(ops, capacity, nodes, Implicit(ops) + Explicit(ops, done))
    ensures Legal(ops, done)
    ensures Distinct(ops, done) ==> Exact(nodes)
    ensures |ops| == |nodes|
  {
  }

  lemma DeclaredFrom(ops: seq<Operation>, capacity: nat, nodes: seq<OpNode>, done: seq<(nat, nat)>,
                     layout: seq<nat>, calls: seq<Call>)
    requires Traced(ops, nodes, calls) && Pairs(calls) == CalledPairs(ops, layout, done)
    requires Built(ops, capacity, nodes, Implicit(ops) + Explicit(ops, done))
    requires Legal(ops, done)
    requires Distinct(ops, done) ==> Exact(nodes)
    ensures Declared(ops, capacity, nodes, done, layout, calls)
  {
  }

  lemma ProductContains(tops: seq<nat>, bs: seq<nat>, i: nat, j: nat)
    requires i < |tops| && j < |bs|
    ensures (tops[i], bs[j]) in Product(tops, bs)
    decreases |tops|
  {
    var last := |tops| - 1;
    if i < last {
      ProductContains(tops[..last], bs, i, j);
    } else {
      assert Row(tops[last], bs)[j] == (tops[i], bs[j]);
    }
  }

  ghost predicate EarlierAreLegal(ops: seq<Operation>, above: seq<nat>, below: seq<nat>, i: nat, j: nat)
    requires i < |above| && j < |below|
  {
    forall p, q :: 0 <= q < |below| && (0 <= p < i || (p == i && q < j)) ==> !Within(ops, below[q], above[p])
  }

  /** The pair of the i-th upper and the j-th lower operation of an ordering is illegal, and those before it are not. */
  ghost predicate FirstIllegal(ops: seq<Operation>, above: seq<nat>, below: seq<nat>, i: nat, j: nat) {
    i < |above| && j < |below| && Within(ops, below[j], above[i]) && EarlierAreLegal(ops, above, below, i, j)
  }

  lemma EarlierLegal(ops: seq<Operation>, done: seq<(nat, nat)>, above: seq<nat>, below: seq<nat>, i: nat, j: nat)
    requires i < |above| && j < |below|
    requires Legal(ops, done + Product(above[..i], below) + Row(above[i], below[..j]))
    ensures EarlierAreLegal(ops, above, below, i, j)
  {
    hide Within, Product;
    var before, row := Product(above[..i], below), Row(above[i], below[..j]);
    forall p, q | 0 <= q < |below| && (0 <= p < i || (p == i && q < j)) ensures !Within(ops, below[q], above[p]) {
      if p < i {
        ProductContains(above[..i], below, p, q);
        assert (above[p], below[q]) in before;
      } else {
        assert row[q] == (above[p], below[q]);
      }
      assert (above[p], below[q]) in done + before + row;
    }
  }

  lemma FirstIllegalFrom(ops: seq<Operation>, above: seq<nat>, below: seq<nat>, i: nat, j: nat)
    requires i < |above| && j < |below| && EarlierAreLegal(ops, above, below, i, j) && Within(ops, below[j], above[i])
    ensures FirstIllegal(ops, above, below, i, j)
  {
    hide Within;
  }

  /** Handles the pairs of one user ordering, in order. */
  method AddPairs(nodes: seq<OpNode>, ops: seq<Operation>, above: seq<nat>, below: seq<nat>, ghost capacity: nat,
                  ghost done: seq<(nat, nat)>, ghost layout: seq<nat>, ghost calls: seq<Call>)
    returns (ok: bool, i: nat, j: nat, ghost more: seq<Call>)
    requires Declared(ops, capacity, nodes, done, layout, calls)
    requires forall k :: 0 <= k < |above| ==> above[k] < |ops|
    requires forall k :: 0 <= k < |below| ==> below[k] < |ops|
    modifies nodes
    ensures ok ==> Declared(ops, capacity, nodes, done + Product(above, below), layout, more)
    ensures !ok ==> i < |above| && j < |below| && FirstIllegal(ops, above, below, i, j)
  {
    hide *;
    more := calls;
    DeclaredFacts(ops, capacity, nodes, done, layout, calls);
    ProductNone(above, below);
    i, j := 0, 0;
    assert done + [] == done;
    while i < |above|
      invariant i <= |above| && Declared(ops, capacity, nodes, done + Product(above[..i], below), layout, more)
    {
      ghost var before := done + Product(above[..i], below);
      RowNone(above[i], below);
      assert before + [] == before;
      j := 0;
      while j < |below|
        invariant j <= |below| && Declared(ops, capacity, nodes, before + Row(above[i], below[..j]), layout, more)
      {
        DeclaredFacts(ops, capacity, nodes, before + Row(above[i], below[..j]), layout, more);
        var legal;
        legal, more := Request(nodes, ops, above[i], below[j], capacity, before + Row(above[i], below[..j]), layout, more);
        if !legal {
          EarlierLegal(ops, done, above, below, i, j);
          FirstIllegalFrom(ops, above, below, i, j);
          return false, i, j, more;
        }
        RowNext(above[i], below, j);
        assert before + Row(above[i], below[..j]) + [(above[i], below[j])] == before + Row(above[i], below[..j + 1]);
        j := j + 1;
      }
      assert below[..j] == below;
      ProductNext(above, below, i);
      assert before + Row(above[i], below) == done + Product(above[..i + 1], below);
      i := i + 1;
    }
    assert above[..i] == above;
    return true, i, j, more;
  }

  lemma ProductNone(tops: seq<nat>, bs: seq<nat>)
    ensures Product(tops[..0], bs) == []
  {
  }

  lemma RowNone(a: nat, bs: seq<nat>)
    ensures Row(a, bs[..0]) == []
  {
  }

  lemma RowNext(a: nat, bs: seq<nat>, j: nat)
    requires j < |bs|
    ensures Row(a, bs[..j + 1]) == Row(a, bs[..j]) + [(a, bs[j])]
  {
  }

  /** One directive names operations and groups that there are, and hides nothing. */
  ghost predicate Fine(ops: seq<Operation>, names: Names, o: Ordering) {
    && o.top in names && (forall u :: u in o.under ==> u in names)
    && Legal(ops, Product(names[o.top], Members(names, o.under)))
  }

  /** What is wrong with a directive first: its upper name, one of its lower names, or one of its pairs. */
  ghost predicate Offends(ops: seq<Operation>, names: Names, o: Ordering, verdict: Verdict) {
    match verdict
    case NoSuchName(name) =>
      name !in names &&
      if o.top !in names then name == o.top
      else exists u :: 0 <= u < |o.under| && name == o.under[u] && forall v :: 0 <= v < u ==> o.under[v] in names
    case Illegal(above, below) =>
      && o.top in names && (forall u :: u in o.under ==> u in names)
      && var tops, unders := names[o.top], Members(names, o.under);
         exists i: nat, j: nat :: FirstIllegal(ops, tops, unders, i, j) && above == tops[i] && below == unders[j]
    case _ => false
  }

  /** The k-th directive is the first that is not fine, and the verdict says why. */
  ghost predicate FirstOffence(ops: seq<Operation>, names: Names, orderings: seq<Ordering>, k: nat, verdict: Verdict) {
    && k < |orderings| && Offends(ops, names, orderings[k], verdict)
    && forall m :: 0 <= m < k ==> Fine(ops, names, orderings[m])
  }

  lemma TopOffends(ops: seq<Operation>, names: Names, o: Ordering)
    requires o.top !in names
    ensures Offends(ops, names, o, NoSuchName(o.top))
  {
  }

  lemma UnderOffends(ops: seq<Operation>, names: Names, o: Ordering, u: nat)
    requires o.top in names && u < |o.under| && o.under[u] !in names && forall s :: s in o.under[..u] ==> s in names
    ensures Offends(ops, names, o, NoSuchName(o.under[u]))
  {
    forall v | 0 <= v < u ensures o.under[v] in names {
      assert o.under[..u][v] == o.under[v];
    }
  }

  lemma PairOffends(ops: seq<Operation>, names: Names, o: Ordering, i: nat, j: nat)
    requires o.top in names && forall u :: u in o.under ==> u in names
    requires FirstIllegal(ops, names[o.top], Members(names, o.under), i, j)
    ensures Offends(ops, names, o, Illegal(names[o.top][i], Members(names, o.under)[j]))
  {
    hide Within, Members;
  }

  lemma FineIfLegal(ops: seq<Operation>, names: Names, o: Ordering, before: seq<(nat, nat)>)
    requires o.top in names && forall u :: u in o.under ==> u in names
    requires Legal(ops, before + Product(names[o.top], Members(names, o.under)))
    ensures Fine(ops, names, o)
  {
    hide Within, Members, Product;
    forall x | x in Product(names[o.top], Members(names, o.under)) ensures !Within(ops, x.1, x.0) {
      assert x in before + Product(names[o.top], Members(names, o.under));
    }
  }

  /** A directive that is not fine is what is wrong with it, and only that. */
  lemma OffenceIsNotFine(ops: seq<Operation>, names: Names, o: Ordering, verdict: Verdict)
    requires Offends(ops, names, o, verdict)
    ensures !Fine(ops, names, o)
  {
    hide Within, Product;
    if verdict.Illegal? {
      var tops, unders := names[o.top], Members(names, o.under);
      var i: nat, j: nat :| FirstIllegal(ops, tops, unders, i, j) && verdict.above == tops[i] && verdict.below == unders[j];
      ProductContains(tops, unders, i, j);
    }
  }

  /** All directives are fine exactly if all names are known and all requests are legal. */
  lemma {:induction false} AllFine(ops: seq<Operation>, names: Names, orderings: seq<Ordering>)
    ensures (forall o :: o in orderings ==> Fine(ops, names, o)) <==>
            Known(names, orderings) && Legal(ops, Requests(names, orderings))
    decreases |orderings|
  {
    hide Within, Product, Members, Legal, Fine;
    if orderings != [] {
      var n := |orderings| - 1;
      var o := orderings[n];
      AllFine(ops, names, orderings[..n]);
      FineMeans(ops, names, o);
      assert orderings == orderings[..n] + [o];
      if Known(names, orderings) {
        assert o.top in names && forall u :: u in o.under ==> u in names;
        LegalJoin(ops, Requests(names, orderings[..n]), Product(names[o.top], Members(names, o.under)));
      }
    } else {
      assert Legal(ops, []) by { NothingIllegal(ops); }
    }
  }

  lemma FineMeans(ops: seq<Operation>, names: Names, o: Ordering)
    ensures Fine(ops, names, o) ==> o.top in names && forall u :: u in o.under ==> u in names
    ensures o.top in names && (forall u :: u in o.under ==> u in names) ==>
              (Fine(ops, names, o) <==> Legal(ops, Product(names[o.top], Members(names, o.under))))
  {
  }

  lemma NothingIllegal(ops: seq<Operation>)
    ensures Legal(ops, [])
  {
  }

  lemma LegalJoin(ops: seq<Operation>, a: seq<(nat, nat)>, b: seq<(nat, nat)>)
    ensures Legal(ops, a + b) <==> Legal(ops, a) && Legal(ops, b)
  {
    hide Within;
    assert forall x :: x in a + b <==> x in a || x in b;
  }

  lemma OffenceRefutes(ops: seq<Operation>, names: Names, orderings: seq<Ordering>, verdict: Verdict)
    requires exists k: nat :: FirstOffence(ops, names, orderings, k, verdict)
    ensures !(Known(names, orderings) && Legal(ops, Requests(names, orderings)))
    ensures verdict.NoSuchName? || verdict.Illegal?
  {
    hide Fine;
    var k: nat :| FirstOffence(ops, names, orderings, k, verdict);
    OffenceIsNotFine(ops, names, orderings[k], verdict);
    AllFine(ops, names, orderings);
  }

  /** Looks up the names of one user ordering and declares its overlapping pairs. */
  method AddOrdering(nodes: seq<OpNode>, ops: seq<Operation>, names: Names, order: Ordering, ghost capacity: nat,
                     ghost done: seq<(nat, nat)>, ghost layout: seq<nat>, ghost calls: seq<Call>)
    returns (verdict: Verdict, ghost more: seq<Call>)
    requires Declared(ops, capacity, nodes, done, layout, calls) && ValidNames(names, |ops|)
    modifies nodes
    ensures verdict.Accepted? ==>
              && order.top in names && (forall u :: u in order.under ==> u in names)
              && Declared(ops, capacity, nodes, done + Product(names[order.top], Members(names, order.under)), layout, more)
              && Fine(ops, names, order)
    ensures !verdict.Accepted? ==> Offends(ops, names, order, verdict)
  {
    hide *;
    more := calls;
    if order.top !in names {
      TopOffends(ops, names, order);
      return NoSuchName(order.top), more;
    }
    var below: seq<nat> := [];
    NoMembers(names, order.under);
    for u := 0 to |order.under|
      invariant forall s :: s in order.under[..u] ==> s in names
      invariant below == Members(names, order.under[..u])
      invariant Declared(ops, capacity, nodes, done, layout, more)
    {
      if order.under[u] !in names {
        UnderOffends(ops, names, order, u);
        return NoSuchName(order.under[u]), more;
      }
      MembersNext(names, order.under, u);
      below := below + names[order.under[u]];
    }
    assert order.under[..|order.under|] == order.under;
    NamesValid(names, order, |ops|);
    var ok, i, j;
    ok, i, j, more := AddPairs(nodes, ops, names[order.top], below, capacity, done, layout, more);
    if !ok {
      PairOffends(ops, names, order, i, j);
      return Illegal(names[order.top][i], below[j]), more;
    }
    DeclaredFacts(ops, capacity, nodes, done + Product(names[order.top], below), layout, more);
    FineIfLegal(ops, names, order, done);
    return Accepted, more;
  }

  lemma NoMembers(names: Names, under: seq<string>)
    ensures Members(names, under[..0]) == []
  {
  }

  lemma NamesValid(names: Names, o: Ordering, n: nat)
    requires ValidNames(names, n) && o.top in names && forall u :: u in o.under ==> u in names
    ensures forall k :: 0 <= k < |names[o.top]| ==> names[o.top][k] < n
    ensures forall k :: 0 <= k < |Members(names, o.under)| ==> Members(names, o.under)[k] < n
  {
    MembersValid(names, o.under, n);
  }

  /** Handles the user orderings in order. */
  method AddExplicit(nodes: seq<OpNode>, ops: seq<Operation>, names: Names, orderings: seq<Ordering>, ghost capacity: nat,
                     ghost layout: seq<nat>, ghost calls: seq<Call>)
    returns (verdict: Verdict, ghost more: seq<Call>)
    requires Declared(ops, capacity, nodes, [], layout, calls) && ValidNames(names, |ops|)
    modifies nodes
    ensures verdict.Accepted? || verdict.NoSuchName? || verdict.Illegal?
    ensures verdict.Accepted? ==> Known(names, orderings) && Declared(ops, capacity, nodes, Requests(names, orderings), layout, more)
    ensures !verdict.Accepted? ==> exists k: nat :: FirstOffence(ops, names, orderings, k, verdict)
  {
    hide *;
    more := calls;
    NoRequests(names, orderings);
    for k := 0 to |orderings|
      invariant Known(names, orderings[..k])
      invariant Declared(ops, capacity, nodes, Requests(names, orderings[..k]), layout, more)
      invariant forall m :: 0 <= m < k ==> Fine(ops, names, orderings[m])
    {
      verdict, more := AddOrdering(nodes, ops, names, orderings[k], capacity, Requests(names, orderings[..k]), layout, more);
      if verdict != Accepted {
        OffenceAt(ops, names, orderings, k, verdict);
        return;
      }
      KnownNext(names, orderings, k);
      RequestsNext(names, orderings, k);
    }
    assert orderings[..|orderings|] == orderings;
    return Accepted, more;
  }

  lemma OffenceAt(ops: seq<Operation>, names: Names, orderings: seq<Ordering>, k: nat, verdict: Verdict)
    requires k < |orderings| && Offends(ops, names, orderings[k], verdict)
    requires forall m :: 0 <= m < k ==> Fine(ops, names, orderings[m])
    ensures FirstOffence(ops, names, orderings, k, verdict) && (verdict.NoSuchName? || verdict.Illegal?)
  {
  }

  lemma KnownNext(names: Names, orderings: seq<Ordering>, k: nat)
    requires k < |orderings| && Known(names, orderings[..k])
    requires orderings[k].top in names && forall u :: u in orderings[k].under ==> u in names
    ensures Known(names, orderings[..k + 1])
  {
    assert orderings[..k + 1] == orderings[..k] + [orderings[k]];
  }

  lemma NoRequests(names: Names, orderings: seq<Ordering>)
    ensures Known(names, orderings[..0]) && Requests(names, orderings[..0]) == []
  {
  }

  // ---------- 4. overlaps

  ghost predicate PairResolved(ops: seq<Operation>, e: Edges, a: nat, b: nat) {
    Overlapping(ops, a, b) ==> Reaches(e, a, b) || Reaches(e, b, a)
  }

  lemma ResolvedDone(ops: seq<Operation>, e: Edges, layout: seq<nat>)
    requires Layout(layout, |ops|)
    requires ResolvedUpTo(ops, e, layout, |ops|, 0)
    ensures Resolved(ops, e)
  {
    var n := |ops|;
    forall a, b | Overlapping(ops, a, b) ensures Reaches(e, a, b) || Reaches(e, b, a) {
      assert a != b;
      AllMet(layout, n, a, b);
      var p, q :| 0 <= p < n && 0 <= q < n && layout[p] == a && layout[q] == b
                  && (Compared(p, q, n, 0) || Compared(q, p, n, 0));
      assert PairResolved(ops, e, layout[p], layout[q]) || PairResolved(ops, e, layout[q], layout[p]);
      assert Overlapping(ops, b, a);
    }
  }

  lemma Unresolved(ops: seq<Operation>, e: Edges, a: nat, b: nat)
    requires !PairResolved(ops, e, a, b)
    ensures !Resolved(ops, e)
  {
  }

  ghost predicate ResolvedUpTo(ops: seq<Operation>, e: Edges, layout: seq<nat>, i: int, j: int)
    requires Layout(layout, |ops|)
  {
    forall p, q :: Compared(p, q, i, j) && p < |ops| ==> PairResolved(ops, e, layout[p], layout[q])
  }

  /** The double loop meets an overlap without a path for the first time. */
  ghost predicate FirstUnresolved(ops: seq<Operation>, e: Edges, layout: seq<nat>, i: nat, j: nat)
    requires Layout(layout, |ops|)
  {
    && j < i < |ops| && ResolvedUpTo(ops, e, layout, i, j)
    && !PairResolved(ops, e, layout[i], layout[j])
  }

  lemma FirstUnresolvedFrom(ops: seq<Operation>, e: Edges, layout: seq<nat>, i: nat, j: nat)
    requires Layout(layout, |ops|) && j < i < |ops| && ResolvedUpTo(ops, e, layout, i, j)
    requires !PairResolved(ops, e, layout[i], layout[j])
    ensures FirstUnresolved(ops, e, layout, i, j)
  {
  }

  lemma ResolvedNext(ops: seq<Operation>, e: Edges, layout: seq<nat>, i: nat, j: nat)
    requires Layout(layout, |ops|) && j <= i < |ops| && ResolvedUpTo(ops, e, layout, i, j)
    ensures j == i ==> ResolvedUpTo(ops, e, layout, i + 1, 0)
    ensures j < i && PairResolved(ops, e, layout[i], layout[j]) ==> ResolvedUpTo(ops, e, layout, i, j + 1)
  {
    hide PairResolved;
  }

  lemma PairLocated(ops: seq<Operation>, e: Edges, a: nat, b: nat, loc: Location)
    requires a < |ops| && b < |ops| && Located(ops[a].code, ops[b].code, loc)
    ensures PairResolved(ops, e, a, b) <==> loc != Overlaps || Reaches(e, a, b) || Reaches(e, b, a)
  {
    LocationIsOne(ops[a].code, ops[b].code, loc, Overlaps);
  }

  /** Searches the graph for every overlapping pair. */
  method CheckOverlaps(nodes: seq<OpNode>, ops: seq<Operation>, layout: seq<nat>, ghost capacity: nat)
    returns (verdict: Verdict)
    requires ValidOps(ops, capacity) && |ops| == |nodes| && Wired(nodes) && Layout(layout, |ops|)
    ensures verdict.Accepted? || verdict.Conflict?
    ensures verdict.Accepted? <==> Resolved(ops, EdgesOf(nodes))
    ensures verdict.Conflict? ==>
              exists i: nat, j: nat :: FirstUnresolved(ops, EdgesOf(nodes), layout, i, j) && verdict == Conflict(layout[i], layout[j])
  {
    hide *;
    NodeIds(nodes);
    LayoutIds(layout, |ops|);
    ghost var e := EdgesOf(nodes);
    NothingCompared(ops, e, layout);
    for i := 0 to |ops|
      invariant ResolvedUpTo(ops, e, layout, i, 0)
    {
      for j := 0 to i
        invariant ResolvedUpTo(ops, e, layout, i, j)
      {
        var n1, n2 := layout[i], layout[j];
        ValidAt(ops, capacity, n1, n2);
        var loc := Locate(ops[n1], ops[n2], capacity);
        LocateMeans(ops, n1, n2, loc);
        PairLocated(ops, e, n1, n2, loc);
        if loc == Overlaps {
          var found := nodes[n1].Above(n2, nodes);
          if !found {
            found := nodes[n2].Above(n1, nodes);
            if !found {
              Unresolved(ops, e, n1, n2);
              FirstUnresolvedFrom(ops, e, layout, i, j);
              return Conflict(n1, n2);
            }
          }
        }
        ResolvedNext(ops, e, layout, i, j);
      }
      ResolvedNext(ops, e, layout, i, i);
    }
    ResolvedDone(ops, e, layout);
    return Accepted;
  }

  lemma LayoutIds(layout: seq<nat>, n: nat)
    requires Layout(layout, n)
    ensures |layout| == n && forall i :: 0 <= i < n ==> layout[i] < n
  {
  }

  lemma NothingCompared(ops: seq<Operation>, e: Edges, layout: seq<nat>)
    requires Layout(layout, |ops|)
    ensures ResolvedUpTo(ops, e, layout, 0, 0)
  {
  }

  lemma NodeIds(nodes: seq<OpNode>)
    requires Wired(nodes)
    ensures forall i :: 0 <= i < |nodes| ==> nodes[i].op == i
  {
  }

  // ---------- the whole function

  /** The graph built from well-ordered declarations is acyclic and resolves every overlap, and
      one that is acyclic and does so was built from well-ordered declarations. */
  lemma BuiltMeans(ops: seq<Operation>, capacity: nat, nodes: seq<OpNode>, explicit: Edges)
    requires Built(ops, capacity, nodes, Implicit(ops) + explicit) && NoDuplicates(ops)
    ensures Acyclic(EdgesOf(nodes)) <==> Acyclic(Implicit(ops) + explicit)
    ensures Acyclic(EdgesOf(nodes)) ==> (Resolved(ops, EdgesOf(nodes)) <==> Resolved(ops, Implicit(ops) + explicit))
    ensures Acyclic(EdgesOf(nodes)) && Resolved(ops, EdgesOf(nodes)) <==> WellOrdered(ops, explicit)
    ensures Acyclic(EdgesOf(nodes)) ==>
              forall a, b :: Reaches(EdgesOf(nodes), a, b) <==> Reaches(Implicit(ops) + explicit, a, b)
  {
    BuiltFacts(ops, capacity, nodes, Implicit(ops) + explicit);
    hide Built, Reaches, Implicit, NoDuplicates, Covers, EdgesOf, Wired, ValidOps, Overlapping;
    var e, d := EdgesOf(nodes), Implicit(ops) + explicit;
    SubgraphReaches(e, d);
    if Acyclic(e) {
      ReductionKeepsPaths(ops, e, d);
    }
  }

  /** Whatever is above comes later in the table, which the decoder reads from its end. */
  ghost predicate Sorted(table: seq<Slot>, e: Edges) {
    forall i, j :: 0 <= i < |table| && 0 <= j < |table| && table[i].Op? && table[j].Op? ==>
      Reaches(e, table[i].id, table[j].id) ==> i > j
  }

  lemma SortedByDeclared(table: seq<Slot>, n: nat, e: Edges, d: Edges)
    requires Complete(table, n) && LinearExtension(e, table)
    requires forall x :: x in e ==> x.0 < n && x.1 < n
    requires forall a, b :: Reaches(e, a, b) <==> Reaches(d, a, b)
    ensures Sorted(table, d)
  {
    LinearExtensionOrders(e, table, n);
    forall i, j | 0 <= i < n && 0 <= j < n && Reaches(d, table[i].id, table[j].id) ensures i > j {
      assert Reaches(e, table[i].id, table[j].id);
    }
  }

  method MakeNodes(n: nat) returns (nodes: seq<OpNode>)
    ensures |nodes| == n && fresh(nodes) && Wired(nodes) && Exact(nodes) && EdgesOf(nodes) == {}
    ensures forall k :: 0 <= k < n ==> nodes[k].abovecount == 0
  {
    nodes := [];
    for i := 0 to n
      invariant |nodes| == i && fresh(nodes)
      invariant forall k :: 0 <= k < i ==> nodes[k].op == k && nodes[k].belowlist == {} && nodes[k].abovecount == 0
    {
      var node := new OpNode(i);
      nodes := nodes + [node];
    }
    forall k | 0 <= k < n ensures |Into(EdgesOf(nodes), k)| == 0 {
      assert Into(EdgesOf(nodes), k) == {};
    }
  }

  lemma StartBuilt(ops: seq<Operation>, capacity: nat, nodes: seq<OpNode>)
    requires ValidOps(ops, capacity) && |ops| == |nodes| && Wired(nodes) && EdgesOf(nodes) == {}
    ensures Built(ops, capacity, nodes, {})
  {
  }

  lemma StartTraced(ops: seq<Operation>, nodes: seq<OpNode>)
    requires |nodes| == |ops| && EdgesOf(nodes) == {} && forall i :: 0 <= i < |nodes| ==> nodes[i].abovecount == 0
    ensures Traced(ops, nodes, [])
  {
    NoCalls(ops, |ops|);
  }

  lemma StartDeclared(ops: seq<Operation>, capacity: nat, nodes: seq<OpNode>, layout: seq<nat>, calls: seq<Call>)
    requires Built(ops, capacity, nodes, Implicit(ops)) && Exact(nodes)
    requires Traced(ops, nodes, calls) && Pairs(calls) == CalledPairs(ops, layout, [])
    ensures Declared(ops, capacity, nodes, [], layout, calls)
  {
    assert Implicit(ops) + Explicit(ops, []) == Implicit(ops);
  }

  lemma EdgesInside(nodes: seq<OpNode>)
    requires Wired(nodes)
    ensures forall x :: x in EdgesOf(nodes) ==> x.0 < |nodes| && x.1 < |nodes|
  {
  }

  /** Which verdict comes when. The errors come in this order: two operations with the same words, the first
      such pair of the double loop; a directive with an unknown name or an illegal pair, the first such
      directive; an overlap that no path of the graph decides, again the first; the failed assertion, exactly
      if the declared edges have a cycle or a call has overcounted. */
  ghost predicate Judged(ops: seq<Operation>, layout: seq<nat>, names: Names, orderings: seq<Ordering>,
                         calls: seq<Call>, verdict: Verdict)
    requires Layout(layout, |ops|)
  {
    if !NoDuplicates(ops) then
      exists i: nat, j: nat :: FirstEqual(ops, layout, i, j) && verdict == Duplicate(layout[i], layout[j])
    else if !(Known(names, orderings) && Legal(ops, Requests(names, orderings))) then
      exists k: nat :: FirstOffence(ops, names, orderings, k, verdict)
    else
      var requests, e := Requests(names, orderings), GraphAfter(calls);
      var declared := Implicit(ops) + Explicit(ops, requests);
      && Feasible(ops, calls) && Pairs(calls) == CalledPairs(ops, layout, requests)
      && (Acyclic(declared) ==> (Resolved(ops, e) <==> Resolved(ops, declared)))
      && if !Resolved(ops, e) then
           exists i: nat, j: nat :: FirstUnresolved(ops, e, layout, i, j) && verdict == Conflict(layout[i], layout[j])
         else
           verdict == if Acyclic(declared) && NeverOvercounts(calls) then Accepted else TrackerRanOut
  }

  lemma JudgedDuplicate(ops: seq<Operation>, layout: seq<nat>, names: Names, orderings: seq<Ordering>,
                        calls: seq<Call>, verdict: Verdict)
    requires Layout(layout, |ops|) && !NoDuplicates(ops)
    requires exists i: nat, j: nat :: FirstEqual(ops, layout, i, j) && verdict == Duplicate(layout[i], layout[j])
    ensures Judged(ops, layout, names, orderings, calls, verdict)
    ensures Known(names, orderings) ==> !WellOrdered(ops, Explicit(ops, Requests(names, orderings)))
  {
    hide Layout, FirstEqual, NoDuplicates;
  }

  lemma JudgedOffence(ops: seq<Operation>, layout: seq<nat>, names: Names, orderings: seq<Ordering>,
                      calls: seq<Call>, verdict: Verdict)
    requires Layout(layout, |ops|) && NoDuplicates(ops)
    requires exists k: nat :: FirstOffence(ops, names, orderings, k, verdict)
    ensures Judged(ops, layout, names, orderings, calls, verdict)
    ensures !(Known(names, orderings) && Legal(ops, Requests(names, orderings)))
  {
    hide Layout, NoDuplicates, FirstOffence, Known, Legal;
    OffenceRefutes(ops, names, orderings, verdict);
  }

  /** The graph after the calls is as good as the declared edges, as far as those are without a cycle. */
  ghost predicate Reduced(ops: seq<Operation>, layout: seq<nat>, names: Names, orderings: seq<Ordering>, calls: seq<Call>)
    requires Known(names, orderings)
  {
    var requests, e := Requests(names, orderings), GraphAfter(calls);
    var declared := Implicit(ops) + Explicit(ops, requests);
    && Feasible(ops, calls) && Pairs(calls) == CalledPairs(ops, layout, requests)
    && (Acyclic(e) <==> Acyclic(declared))
    && (Acyclic(declared) ==> (Resolved(ops, e) <==> Resolved(ops, declared)))
  }

  lemma JudgedConflict(ops: seq<Operation>, layout: seq<nat>, names: Names, orderings: seq<Ordering>,
                       calls: seq<Call>, verdict: Verdict)
    requires Layout(layout, |ops|) && NoDuplicates(ops) && Known(names, orderings) && Legal(ops, Requests(names, orderings))
    requires Reduced(ops, layout, names, orderings, calls) && !Resolved(ops, GraphAfter(calls))
    requires exists i: nat, j: nat :: FirstUnresolved(ops, GraphAfter(calls), layout, i, j) && verdict == Conflict(layout[i], layout[j])
    ensures Judged(ops, layout, names, orderings, calls, verdict)
  {
    hide Layout, NoDuplicates, Known, Legal, Feasible, Pairs, CalledPairs, Resolved, Acyclic, FirstUnresolved;
  }

  lemma JudgedSort(ops: seq<Operation>, layout: seq<nat>, names: Names, orderings: seq<Ordering>,
                   calls: seq<Call>, sorted: bool)
    requires Layout(layout, |ops|) && NoDuplicates(ops) && Known(names, orderings) && Legal(ops, Requests(names, orderings))
    requires Reduced(ops, layout, names, orderings, calls) && Resolved(ops, GraphAfter(calls))
    requires sorted <==> Acyclic(GraphAfter(calls)) && NeverOvercounts(calls)
    ensures Judged(ops, layout, names, orderings, calls, if sorted then Accepted else TrackerRanOut)
  {
    hide Layout, NoDuplicates, Known, Legal, Feasible, Pairs, CalledPairs, Resolved, Acyclic, FirstUnresolved;
  }

  lemma ReducedFrom(ops: seq<Operation>, layout: seq<nat>, names: Names, orderings: seq<Ordering>, calls: seq<Call>, explicit: Edges)
    requires Known(names, orderings) && explicit == Explicit(ops, Requests(names, orderings))
    requires Feasible(ops, calls) && Pairs(calls) == CalledPairs(ops, layout, Requests(names, orderings))
    requires Acyclic(GraphAfter(calls)) <==> Acyclic(Implicit(ops) + explicit)
    requires Acyclic(GraphAfter(calls)) ==> (Resolved(ops, GraphAfter(calls)) <==> Resolved(ops, Implicit(ops) + explicit))
    ensures Reduced(ops, layout, names, orderings, calls)
  {
    hide Feasible, Pairs, CalledPairs, Resolved, Acyclic, Known;
  }

  class Isa {
    /** The operations by number, which is their identity; all codes have one capacity in bytes. */
    const ops: seq<Operation>
    ghost const capacity: nat
    const names: Names
    const orderings: seq<Ordering>
    /** The operation table, in order of declaration until it is sorted. */
    var operations: array<Slot>

    ghost predicate Valid()
      reads this, operations
    {
      && ValidOps(ops, capacity) && ValidNames(names, |ops|)
      && Complete(operations[..], |ops|)
    }

    /** An instruction set with its operations declared in a given order. */
    constructor (ops: seq<Operation>, ghost capacity: nat, names: Names, orderings: seq<Ordering>, declaration: seq<nat>)
      requires ValidOps(ops, capacity) && ValidNames(names, |ops|) && Layout(declaration, |ops|)
      ensures Valid() && this.ops == ops && this.capacity == capacity
      ensures this.names == names && this.orderings == orderings && fresh(operations)
    {
      this.ops := ops;
      this.capacity := capacity;
      this.names := names;
      this.orderings := orderings;
      operations := new Slot[|declaration|](i requires 0 <= i < |declaration| => Op(declaration[i]));
      new;
      forall x: nat | x < |ops| ensures Op(x) in operations[..] {
        assert x in declaration;
        var i :| 0 <= i < |declaration| && declaration[i] == x;
        assert operations[..][i] == Op(x);
      }
    }

    /** The explicit edges of the user orderings. */
    ghost function UserEdges(): Edges
      requires Known(names, orderings)
    {
      Explicit(ops, Requests(names, orderings))
    }

    lemma UserEdgesAre()
      ensures Known(names, orderings) ==> UserEdges() == Explicit(ops, Requests(names, orderings))
    {
    }

    lemma IsaFacts()
      requires Valid()
      ensures ValidOps(ops, capacity) && ValidNames(names, |ops|) && Complete(operations[..], |ops|)
    {
    }

    lemma StillValid()
      requires ValidOps(ops, capacity) && ValidNames(names, |ops|) && Complete(operations[..], |ops|)
      ensures Valid()
    {
    }

    /** Builds the graph, checks it and sorts the table. `layout` is the order in which the map of nodes
        happens to iterate; the calls of `ontopof` are those of the pairs that it and the requests give, with
        the effects that the iteration of the lists below happens to give. */
    method Finalize(layout: seq<nat>) returns (verdict: Verdict, ghost calls: seq<Call>)
      requires Valid() && Layout(layout, |ops|)
      modifies this, operations
      ensures verdict.Accepted? ==>
                && Known(names, orderings) && Legal(ops, Requests(names, orderings))
                && WellOrdered(ops, UserEdges())
                && Valid() && Sorted(operations[..], Implicit(ops) + UserEdges())
      ensures Known(names, orderings) && Legal(ops, Requests(names, orderings)) && WellOrdered(ops, UserEdges()) ==>
                && Feasible(ops, calls) && Pairs(calls) == CalledPairs(ops, layout, Requests(names, orderings))
                && verdict == (if NeverOvercounts(calls) then Accepted else TrackerRanOut)
                && (!Exposed(ops, CalledPairs(ops, layout, Requests(names, orderings))) ==> verdict.Accepted?)
                && (Distinct(ops, Requests(names, orderings)) ==> verdict.Accepted?)
      ensures Judged(ops, layout, names, orderings, calls, verdict)
    {
      hide *;
      IsaFacts();
      UserEdgesAre();
      var nodes := MakeNodes(|ops|);
      StartBuilt(ops, capacity, nodes);
      StartTraced(ops, nodes);
      verdict, calls := AddImplicit(nodes, ops, layout, capacity);
      if verdict != Accepted {
        JudgedDuplicate(ops, layout, names, orderings, calls, verdict);
        return;
      }
      StartDeclared(ops, capacity, nodes, layout, calls);
      verdict, calls := AddExplicit(nodes, ops, names, orderings, capacity, layout, calls);
      if verdict != Accepted {
        JudgedOffence(ops, layout, names, orderings, calls, verdict);
        return;
      }
      DeclaredFacts(ops, capacity, nodes, Requests(names, orderings), layout, calls);
      TracedFacts(ops, nodes, calls);
      TracedExact(ops, nodes, calls);
      if !NeverOvercounts(calls) {
        OvercountingExposes(ops, calls);
      }
      BuiltFacts(ops, capacity, nodes, Implicit(ops) + UserEdges());
      BuiltMeans(ops, capacity, nodes, UserEdges());
      ReducedFrom(ops, layout, names, orderings, calls, UserEdges());
      verdict := CheckOverlaps(nodes, ops, layout, capacity);
      if verdict != Accepted {
        JudgedConflict(ops, layout, names, orderings, calls, verdict);
        return;
      }
      ghost var e := EdgesOf(nodes);
      EdgesInside(nodes);
      var sorted, noperations := Sort(operations, nodes);
      JudgedSort(ops, layout, names, orderings, calls, sorted);
      if !sorted { return TrackerRanOut, calls; }
      operations := noperations;
      SortedByDeclared(operations[..], |ops|, e, Implicit(ops) + UserEdges());
      StillValid();
    }
  }
}
