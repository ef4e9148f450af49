/** An instruction set that `finalize` may reject although it is well ordered: one overlapping pair
    is requested twice, and the second request replaces an edge although the pair is there. */
module RepeatedRequest {
  import opened Words
  import opened Patterns
  import opened Reachability
  import opened Specificity
  import opened OpNodes
  import opened Declarations
  import opened TopologicalSort
  import opened Finalize

  /** An operation of one byte that forces the given bits to 1. */
  function Forcing(bits: set<nat>): Operation {
    var byte: Byte := seq(8, i requires 0 <= i < 8 => i in bits);
    Operation.Operation(Code([byte], [byte]), 8)
  }

  /** Two coarse operations, and two finer ones that overlap each other. */
  const SAMPLE: seq<Operation> := [Forcing({0}), Forcing({1}), Forcing({0, 1, 2}), Forcing({0, 1, 3})]

  const NAMES: Names := map["coarse0" := [0], "coarse1" := [1], "fine2" := [2], "fine3" := [3]]

  const ORDERINGS: seq<Ordering> :=
    [Ordering("fine3", ["fine2"]), Ordering("coarse0", ["coarse1"]), Ordering("fine3", ["fine2"])]

  /** 3 goes on top of 2, 0 on top of 1, and 3 on top of 2 again. */
  const REQUESTS: seq<(nat, nat)> := [(3, 2), (0, 1), (3, 2)]

  lemma RequestsOfSample()
    ensures Known(NAMES, ORDERINGS) && ValidNames(NAMES, |SAMPLE|) && Requests(NAMES, ORDERINGS) == REQUESTS
  {
    forall o | o in ORDERINGS ensures o.top in NAMES && forall u :: u in o.under ==> u in NAMES {
    }
    assert ORDERINGS[..2] == [Ordering("fine3", ["fine2"]), Ordering("coarse0", ["coarse1"])];
    assert ORDERINGS[..2][..1] == [Ordering("fine3", ["fine2"])] && ORDERINGS[..2][..1][..0] == [];
    OneRequest("fine3", "fine2", 3, 2);
    OneRequest("coarse0", "coarse1", 0, 1);
    assert Requests(NAMES, ORDERINGS[..2][..1]) == [(3, 2)];
    assert Requests(NAMES, ORDERINGS[..2]) == [(3, 2)] + [(0, 1)];
  }

  lemma OneRequest(top: string, under: string, a: nat, b: nat)
    requires top in NAMES && under in NAMES && NAMES[top] == [a] && NAMES[under] == [b]
    ensures Members(NAMES, [under]) == [b] && Product([a], [b]) == [(a, b)]
  {
    assert [under][..0] == [] && [a][..0] == [];
    assert Row(a, [b]) == [(a, b)];
  }

  lemma ForcingNested(a: set<nat>, b: set<nat>)
    requires forall x :: x in a + b ==> x < 8
    ensures Valid(Forcing(a), 1) && !Disjoint(Forcing(a).code, Forcing(b).code)
    ensures Subset(Forcing(a).code, Forcing(b).code) <==> b <= a
  {
    var p, q := Forcing(a), Forcing(b);
    assert Valid(p, 1) && Valid(q, 1);
    NoClashMeets(p, q, 1);
    assert Matches(Join(p.code, q.code), p.code);
    if b <= a {
      NothingFreedIsSubset(p, q, 1);
    } else {
      var x: nat :| x in b && x !in a;
      assert x in a + b;
      assert Frees(p.code, q.code, 0, x);
      var w := FreeBitWitness(p, q, 1, 0, x);
    }
  }

  function Bits(i: nat): set<nat> {
    if i == 0 then {0} else if i == 1 then {1} else if i == 2 then {0, 1, 2} else {0, 1, 3}
  }

  lemma BitsNested(i: nat, j: nat)
    requires i < 4 && j < 4
    ensures Bits(j) <= Bits(i) <==> i == j || (i >= 2 && j < 2)
  {
    assert 0 in Bits(0) && 1 in Bits(1) && 2 in Bits(2) && 3 in Bits(3);
  }

  lemma SampleNested(i: nat, j: nat)
    requires i < 4 && j < 4
    ensures Within(SAMPLE, i, j) <==> i >= 2 && j < 2
    ensures Overlapping(SAMPLE, i, j) <==> (i, j) in {(0, 1), (1, 0), (2, 3), (3, 2)}
    ensures Located(SAMPLE[i].code, SAMPLE[j].code, Equal) <==> i == j
    ensures Valid(SAMPLE[i], 1)
  {
    hide Subset, Disjoint, Valid, Bits;
    assert SAMPLE[i] == Forcing(Bits(i)) && SAMPLE[j] == Forcing(Bits(j)) by { SampleBits(i); SampleBits(j); }
    BitsSmall(i);
    BitsSmall(j);
    ForcingNested(Bits(i), Bits(j));
    ForcingNested(Bits(j), Bits(i));
    BitsNested(i, j);
    BitsNested(j, i);
  }

  lemma SampleBits(i: nat)
    requires i < 4
    ensures SAMPLE[i] == Forcing(Bits(i))
  {
  }

  lemma BitsSmall(i: nat)
    ensures forall x :: x in Bits(i) ==> x < 8
  {
  }

  lemma SampleWellOrdered()
    ensures ValidOps(SAMPLE, 1) && Legal(SAMPLE, REQUESTS) && WellOrdered(SAMPLE, Explicit(SAMPLE, REQUESTS))
  {
    hide Within, Overlapping, Located, Valid;
    var e := Implicit(SAMPLE) + Explicit(SAMPLE, REQUESTS);
    assert |SAMPLE| == 4;
    forall i, j | 0 <= i < 4 && 0 <= j < 4
      ensures Within(SAMPLE, i, j) <==> i >= 2 && j < 2
      ensures Overlapping(SAMPLE, i, j) <==> (i, j) in {(0, 1), (1, 0), (2, 3), (3, 2)}
      ensures Located(SAMPLE[i].code, SAMPLE[j].code, Equal) <==> i == j
      ensures Valid(SAMPLE[i], 1)
    {
      SampleNested(i, j);
    }
    var rank := (x: nat) => if x == 0 then 1 else if x == 1 then 0 else x;
    forall x: nat, y: nat | (x, y) in e ensures rank(x) > rank(y) {
      if (x, y) in Implicit(SAMPLE) {
        InRange(SAMPLE, x, y);
      }
    }
    RankFalls(e, rank);
    assert (3, 2) in REQUESTS && (0, 1) in REQUESTS by { assert REQUESTS[0] == (3, 2) && REQUESTS[1] == (0, 1); }
    EdgeReaches(e, 3, 2);
    EdgeReaches(e, 0, 1);
    forall a, b | Overlapping(SAMPLE, a, b) ensures Reaches(e, a, b) || Reaches(e, b, a) {
      OverlapInRange(SAMPLE, a, b);
    }
  }

  lemma InRange(ops: seq<Operation>, a: nat, b: nat)
    requires Within(ops, a, b)
    ensures a < |ops| && b < |ops|
  {
  }

  lemma OverlapInRange(ops: seq<Operation>, a: nat, b: nat)
    requires Overlapping(ops, a, b)
    ensures a < |ops| && b < |ops|
  {
  }

  // ---------- the calls of finalize on the sample

  const LAYOUT: seq<nat> := [0, 1, 2, 3]

  lemma WithinSample()
    ensures forall i: nat, j: nat :: Within(SAMPLE, i, j) <==> 2 <= i < 4 && j < 2
  {
    forall i: nat, j: nat ensures Within(SAMPLE, i, j) <==> 2 <= i < 4 && j < 2 {
      if i < 4 && j < 4 {
        SampleNested(i, j);
      }
    }
  }

  lemma PairsOfSample()
    ensures Layout(LAYOUT, |SAMPLE|)
    ensures CalledPairs(SAMPLE, LAYOUT, REQUESTS) == [(2, 0), (2, 1), (3, 0), (3, 1), (3, 2), (0, 1), (3, 2)]
  {
    WithinSample();
    hide Within, Overlapping;
    assert LAYOUT[0] == 0 && LAYOUT[1] == 1 && LAYOUT[2] == 2 && LAYOUT[3] == 3;
    assert ImplicitPairs(SAMPLE, LAYOUT, 2, 0) == [];
    assert ImplicitPairs(SAMPLE, LAYOUT, 2, 2) == [(2, 0), (2, 1)];
    assert ImplicitPairs(SAMPLE, LAYOUT, 3, 2) == [(2, 0), (2, 1), (3, 0), (3, 1)];
    assert ImplicitPairs(SAMPLE, LAYOUT, 4, 0) == [(2, 0), (2, 1), (3, 0), (3, 1)];
    assert Overlapping(SAMPLE, 3, 2) && Overlapping(SAMPLE, 0, 1) by {
      SampleNested(3, 2);
      SampleNested(0, 1);
    }
    assert REQUESTS[..2] == [(3, 2), (0, 1)] && REQUESTS[..2][..1] == [(3, 2)] && REQUESTS[..2][..1][..0] == [];
    assert ExplicitPairs(SAMPLE, REQUESTS[..2][..1]) == [(3, 2)];
    assert ExplicitPairs(SAMPLE, REQUESTS[..2]) == [(3, 2), (0, 1)];
  }

  /** One more call of the run. */
  lemma Calls(calls: seq<Call>, c: Call, e: Edges) returns (more: seq<Call>)
    requires Feasible(SAMPLE, calls) && NeverOvercounts(calls) && GraphAfter(calls) == e
    requires c.above < 4 && c.below < 4
    requires Possible(SAMPLE, e, c.above, c.below, c.effect) && Applicable(e, c.above, c.below, c.effect)
    ensures more == calls + [c] && Feasible(SAMPLE, more)
    ensures GraphAfter(more) == Outcome(e, c.above, c.below, c.effect)
    ensures NeverOvercounts(more) <==> !Overcounts(e, c.above, c.below, c.effect)
    ensures Pairs(more) == Pairs(calls) + [(c.above, c.below)]
  {
    more := calls + [c];
    CallNext(SAMPLE, calls, c, 4);
  }

  /** A call adds an edge if all nodes below are of the same grain as the new one. */
  lemma Adds(e: Edges, a: nat, b: nat)
    requires forall s :: (a, s) in e ==> s != b && (s < 2 <==> b < 2)
    ensures Possible(SAMPLE, e, a, b, Added) && Applicable(e, a, b, Added)
    ensures Outcome(e, a, b, Added) == e + {(a, b)} && !Overcounts(e, a, b, Added)
  {
    WithinSample();
    hide Within;
  }

  /** A call may replace a coarse node below by a fine one. */
  lemma Replaces(e: Edges, a: nat, b: nat, r: nat)
    requires (a, r) in e && 2 <= b < 4 && r < 2
    ensures Possible(SAMPLE, e, a, b, Replaced(r)) && Applicable(e, a, b, Replaced(r))
    ensures Outcome(e, a, b, Replaced(r)) == e - {(a, r)} + {(a, b)}
    ensures Overcounts(e, a, b, Replaced(r)) <==> (a, b) in e
  {
    WithinSample();
    hide Within;
  }

  /** The calls that put one fine operation on top of both coarse ones. */
  lemma OnTopOfBoth(calls: seq<Call>, e: Edges, a: nat) returns (more: seq<Call>)
    requires Feasible(SAMPLE, calls) && NeverOvercounts(calls) && GraphAfter(calls) == e
    requires a < 4 && forall s :: (a, s) !in e
    ensures Feasible(SAMPLE, more) && NeverOvercounts(more)
    ensures Pairs(more) == Pairs(calls) + [(a, 0), (a, 1)]
    ensures GraphAfter(more) == e + {(a, 0)} + {(a, 1)}
  {
    hide *;
    Adds(e, a, 0);
    more := Calls(calls, Call(a, 0, Added), e);
    Adds(e + {(a, 0)}, a, 1);
    more := Calls(more, Call(a, 1, Added), e + {(a, 0)});
  }

  lemma ImplicitCalls() returns (calls: seq<Call>, e: Edges)
    ensures Feasible(SAMPLE, calls) && NeverOvercounts(calls) && GraphAfter(calls) == e
    ensures Pairs(calls) == [(2, 0), (2, 1), (3, 0), (3, 1)]
    ensures e == {(2, 0), (2, 1), (3, 0), (3, 1)}
  {
    NoCalls(SAMPLE, 4);
    hide *;
    calls := OnTopOfBoth([], {}, 2);
    e := {} + {(2, 0)} + {(2, 1)};
    calls := OnTopOfBoth(calls, e, 3);
    e := e + {(3, 0)} + {(3, 1)};
  }

  lemma AllCalls() returns (calls: seq<Call>, e: Edges)
    ensures Feasible(SAMPLE, calls) && !NeverOvercounts(calls) && GraphAfter(calls) == e
    ensures Pairs(calls) == [(2, 0), (2, 1), (3, 0), (3, 1), (3, 2), (0, 1), (3, 2)]
    ensures e <= {(2, 0), (2, 1), (3, 2), (0, 1)}
  {
    calls, e := ImplicitCalls();
    hide *;
    Replaces(e, 3, 2, 0);
    calls := Calls(calls, Call(3, 2, Replaced(0)), e);
    e := e - {(3, 0)} + {(3, 2)};
    Adds(e, 0, 1);
    calls := Calls(calls, Call(0, 1, Added), e);
    e := e + {(0, 1)};
    Replaces(e, 3, 2, 1);
    calls := Calls(calls, Call(3, 2, Replaced(1)), e);
    e := e - {(3, 1)} + {(3, 2)};
  }

  /** The sample with its orderings is well ordered, and yet `finalize` may make calls for it of which the
      last one overcounts: the counts are no longer the in-degrees of a graph that has no cycle. */
  lemma RepeatedRequestOvercounts() returns (calls: seq<Call>)
    ensures Legal(SAMPLE, Requests(NAMES, ORDERINGS))
    ensures WellOrdered(SAMPLE, Explicit(SAMPLE, Requests(NAMES, ORDERINGS)))
    ensures Feasible(SAMPLE, calls) && Pairs(calls) == CalledPairs(SAMPLE, LAYOUT, Requests(NAMES, ORDERINGS))
    ensures !NeverOvercounts(calls) && !Tight(GraphAfter(calls), CountsAfter(calls, |SAMPLE|))
    ensures Acyclic(GraphAfter(calls))
    ensures Exposed(SAMPLE, CalledPairs(SAMPLE, LAYOUT, Requests(NAMES, ORDERINGS)))
  {
    SampleWellOrdered();
    RequestsOfSample();
    PairsOfSample();
    var e;
    calls, e := AllCalls();
    hide *;
    TightUnlessOvercounted(SAMPLE, calls);
    OvercountingExposes(SAMPLE, calls);
    RankFalls(GraphAfter(calls), (x: nat) => if x == 0 then 1 else if x == 1 then 0 else x);
  }

  /** Whenever the nodes are what overcounting calls leave behind, the sort fails. */
  method SortFails(table: array<Slot>, nodes: seq<OpNode>, ghost ops: seq<Operation>, ghost calls: seq<Call>)
    returns (sorted: bool)
    requires Wired(nodes) && Complete(table[..], |nodes|)
    requires Traced(ops, nodes, calls) && !NeverOvercounts(calls)
    modifies table, nodes
    ensures !sorted
  {
    hide *;
    TracedExact(ops, nodes, calls);
    var order;
    sorted, order := Sort(table, nodes);
  }
}
