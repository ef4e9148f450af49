/** The calls of `ontopof` that `finalize` makes, and what they come to for each choice of their effects. */
module Declarations {
  import opened Patterns
  import opened Reachability
  import opened Specificity
  import opened OpNodes

  /** One call: the upper operation, the lower one, and the effect that the iteration order made it have. */
  datatype Call = Call(above: nat, below: nat, effect: Effect)

  /** The graph after some calls. */
  ghost function GraphAfter(calls: seq<Call>): Edges {
    if calls == [] then {} else
      var c := calls[|calls| - 1];
      Outcome(GraphAfter(calls[..|calls| - 1]), c.above, c.below, c.effect)
  }

  /** The counts of n nodes after some calls. */
  ghost function CountsAfter(calls: seq<Call>, n: nat): (c: seq<int>)
    ensures |c| == n
  {
    if calls == [] then seq(n, _ => 0) else
      var c := calls[|calls| - 1];
      Recount(CountsAfter(calls[..|calls| - 1], n), c.below, c.effect)
  }

  /** Every effect is one that the call may have when its turn comes. */
  ghost predicate Feasible(ops: seq<Operation>, calls: seq<Call>) {
    calls == [] ||
    var c := calls[|calls| - 1];
    && c.above < |ops| && c.below < |ops|
    && Feasible(ops, calls[..|calls| - 1])
    && Possible(ops, GraphAfter(calls[..|calls| - 1]), c.above, c.below, c.effect)
    && Applicable(GraphAfter(calls[..|calls| - 1]), c.above, c.below, c.effect)
  }

  /** No call replaces a coarser edge although its pair is an edge already. */
  ghost predicate NeverOvercounts(calls: seq<Call>) {
    calls == [] ||
    var c := calls[|calls| - 1];
    && NeverOvercounts(calls[..|calls| - 1])
    && !Overcounts(GraphAfter(calls[..|calls| - 1]), c.above, c.below, c.effect)
  }

  ghost function Pairs(calls: seq<Call>): (p: seq<(nat, nat)>)
    ensures |p| == |calls| && forall i :: 0 <= i < |p| ==> p[i] == (calls[i].above, calls[i].below)
  {
    seq(|calls|, i requires 0 <= i < |calls| => (calls[i].above, calls[i].below))
  }

  /** One more call. */
  lemma CallNext(ops: seq<Operation>, calls: seq<Call>, c: Call, n: nat)
    ensures GraphAfter(calls + [c]) == Outcome(GraphAfter(calls), c.above, c.below, c.effect)
    ensures CountsAfter(calls + [c], n) == Recount(CountsAfter(calls, n), c.below, c.effect)
    ensures Feasible(ops, calls + [c]) <==>
              && c.above < |ops| && c.below < |ops| && Feasible(ops, calls)
              && Possible(ops, GraphAfter(calls), c.above, c.below, c.effect)
              && Applicable(GraphAfter(calls), c.above, c.below, c.effect)
    ensures NeverOvercounts(calls + [c]) <==>
              NeverOvercounts(calls) && !Overcounts(GraphAfter(calls), c.above, c.below, c.effect)
    ensures Pairs(calls + [c]) == Pairs(calls) + [(c.above, c.below)]
  {
    assert (calls + [c])[..|calls|] == calls;
  }

  lemma NoCalls(ops: seq<Operation>, n: nat)
    ensures GraphAfter([]) == {} && Feasible(ops, []) && NeverOvercounts([]) && Pairs([]) == []
    ensures CountsAfter([], n) == seq(n, _ => 0)
  {
  }

  /** The counts are at least the in-degrees, and equal to them exactly when no call overcounted. */
  lemma {:induction false} TightUnlessOvercounted(ops: seq<Operation>, calls: seq<Call>)
    requires Feasible(ops, calls)
    ensures var e, c := GraphAfter(calls), CountsAfter(calls, |ops|);
            Bounds(e, c) && (Tight(e, c) <==> NeverOvercounts(calls))
    ensures forall x :: x in GraphAfter(calls) ==> x.0 < |ops| && x.1 < |ops|
    decreases |calls|
  {
    hide Bounds, Tight, Possible, Outcome, Overcounts, Recount, Applicable;
    if calls == [] {
      NothingCounted(|ops|);
    } else {
      var front, last := calls[..|calls| - 1], calls[|calls| - 1];
      TightUnlessOvercounted(ops, front);
      CallCounts(GraphAfter(front), last, CountsAfter(front, |ops|));
    }
  }

  lemma NothingCounted(n: nat)
    ensures Bounds({}, seq(n, _ => 0)) && Tight({}, seq(n, _ => 0))
  {
    assert forall i: nat :: Into({}, i) == {};
  }

  lemma CallCounts(e: Edges, call: Call, c: seq<int>)
    requires call.above < |c| && call.below < |c| && Bounds(e, c) && Applicable(e, call.above, call.below, call.effect)
    requires forall x :: x in e ==> x.0 < |c| && x.1 < |c|
    ensures var f, d := Outcome(e, call.above, call.below, call.effect), Recount(c, call.below, call.effect);
            && Bounds(f, d) && (Tight(f, d) <==> Tight(e, c) && !Overcounts(e, call.above, call.below, call.effect))
            && forall x :: x in f ==> x.0 < |c| && x.1 < |c|
  {
    hide Bounds, Tight;
    if call.effect.Kept? {
      assert Recount(c, call.below, call.effect) == c;
    } else {
      CountsFollow(e, call.above, call.below, call.effect, c, Recount(c, call.below, call.effect));
    }
  }

  // ---------- which pairs may be overcounted

  /** The calls for some pairs may reach a graph in which the next pair is an edge already, together with a
      coarser one. */
  ghost predicate Exposed(ops: seq<Operation>, pairs: seq<(nat, nat)>) {
    exists i: nat, calls :: i < |pairs| && ExposedAt(ops, pairs, i, calls)
  }

  ghost predicate ExposedAt(ops: seq<Operation>, pairs: seq<(nat, nat)>, i: nat, calls: seq<Call>)
    requires i < |pairs|
  {
    && Feasible(ops, calls) && Pairs(calls) == pairs[..i]
    && MayOvercount(ops, GraphAfter(calls), pairs[i].0, pairs[i].1)
  }

  ghost predicate Inside(ops: seq<Operation>, pairs: seq<(nat, nat)>) {
    forall p :: p in pairs ==> p.0 < |ops| && p.1 < |ops|
  }

  /** A call has some effect, whatever the graph. */
  lemma SomeEffect(ops: seq<Operation>, e: Edges, a: nat, b: nat) returns (effect: Effect)
    ensures Possible(ops, e, a, b, effect) && Applicable(e, a, b, effect)
  {
    if s: nat :| (a, s) in e && (s == b || Within(ops, s, b)) {
      effect := Kept(s);
    } else if r: nat :| (a, r) in e && Within(ops, b, r) {
      effect := Replaced(r);
    } else {
      effect := Added;
    }
  }

  /** Calls can go on with any pairs. */
  lemma {:induction false} CallsGoOn(ops: seq<Operation>, calls: seq<Call>, pairs: seq<(nat, nat)>) returns (more: seq<Call>)
    requires Feasible(ops, calls) && Inside(ops, pairs)
    ensures Feasible(ops, more) && Pairs(more) == Pairs(calls) + pairs
    ensures !NeverOvercounts(calls) ==> !NeverOvercounts(more)
    decreases |pairs|
  {
    hide Feasible, NeverOvercounts, Possible, Applicable, Pairs;
    if pairs == [] {
      more := calls;
    } else {
      var (a, b) := pairs[0];
      assert pairs[0] in pairs;
      var effect := SomeEffect(ops, GraphAfter(calls), a, b);
      CallNext(ops, calls, Call(a, b, effect), 0);
      more := CallsGoOn(ops, calls + [Call(a, b, effect)], pairs[1..]);
      assert pairs == [(a, b)] + pairs[1..];
    }
  }

  /** Calls that overcount expose their pairs: at the first call that does. */
  lemma {:induction false} OvercountingExposes(ops: seq<Operation>, calls: seq<Call>)
    requires Feasible(ops, calls) && !NeverOvercounts(calls)
    ensures Exposed(ops, Pairs(calls))
    decreases |calls|
  {
    hide Possible, Overcounts, Applicable, MayOvercount;
    var n := |calls| - 1;
    var front, last := calls[..n], calls[n];
    CallNext(ops, front, last, 0);
    assert calls == front + [last];
    assert Pairs(calls)[..n] == Pairs(front);
    if NeverOvercounts(front) {
      OvercountCondition(ops, GraphAfter(front), last.above, last.below);
      assert ExposedAt(ops, Pairs(calls), n, front);
    } else {
      OvercountingExposes(ops, front);
      var i: nat, before :| i < |Pairs(front)| && ExposedAt(ops, Pairs(front), i, before);
      assert Pairs(calls)[..i] == Pairs(front)[..i];
      assert ExposedAt(ops, Pairs(calls), i, before);
    }
  }

  /** Some choice of effects overcounts exactly when the pairs are exposed. */
  lemma OvercountingPairs(ops: seq<Operation>, pairs: seq<(nat, nat)>)
    requires Inside(ops, pairs)
    ensures (exists calls :: Feasible(ops, calls) && Pairs(calls) == pairs && !NeverOvercounts(calls)) <==> Exposed(ops, pairs)
  {
    hide Possible, Overcounts, Applicable, MayOvercount, Feasible, NeverOvercounts, Inside;
    if calls :| Feasible(ops, calls) && Pairs(calls) == pairs && !NeverOvercounts(calls) {
      OvercountingExposes(ops, calls);
    }
    if Exposed(ops, pairs) {
      var i: nat, calls :| i < |pairs| && ExposedAt(ops, pairs, i, calls);
      var more := ExposedOvercounts(ops, pairs, i, calls);
    }
  }

  lemma ExposedOvercounts(ops: seq<Operation>, pairs: seq<(nat, nat)>, i: nat, calls: seq<Call>) returns (more: seq<Call>)
    requires Inside(ops, pairs) && i < |pairs| && ExposedAt(ops, pairs, i, calls)
    ensures Feasible(ops, more) && Pairs(more) == pairs && !NeverOvercounts(more)
  {
    var e := GraphAfter(calls);
    var (a, b) := pairs[i];
    OvercountCondition(ops, e, a, b);
    var effect :| Possible(ops, e, a, b, effect) && Overcounts(e, a, b, effect);
    assert Applicable(e, a, b, effect) && pairs[i] in pairs;
    hide Possible, Overcounts, Applicable, MayOvercount, Feasible, NeverOvercounts, Pairs;
    var next := calls + [Call(a, b, effect)];
    CallNext(ops, calls, Call(a, b, effect), 0);
    more := CallsGoOn(ops, next, pairs[i + 1..]);
    assert pairs == pairs[..i] + [(a, b)] + pairs[i + 1..];
  }

  // ---------- which pairs are called

  /** The order of the node map, which is that of addresses: any order of the operations. */
  ghost predicate Layout(layout: seq<nat>, n: nat) {
    && |layout| == n
    && (forall i :: 0 <= i < n ==> layout[i] < n)
    && (forall i, j :: 0 <= i < j < n ==> layout[i] != layout[j])
    && (forall x: nat :: x < n ==> x in layout)
  }

  /** The pair called for two operations that are compared. */
  ghost function Nested(ops: seq<Operation>, a: nat, b: nat): seq<(nat, nat)> {
    if Within(ops, a, b) then [(a, b)] else if Within(ops, b, a) then [(b, a)] else []
  }

  /** The implicit pairs up to a place in the double loop over the node map. */
  ghost function ImplicitPairs(ops: seq<Operation>, layout: seq<nat>, i: nat, j: nat): seq<(nat, nat)>
    requires i <= |layout| && j <= i && (i == |layout| ==> j == 0)
    decreases i, j
  {
    if j > 0 then ImplicitPairs(ops, layout, i, j - 1) + Nested(ops, layout[i], layout[j - 1])
    else if i > 0 then ImplicitPairs(ops, layout, i - 1, i - 1)
    else []
  }

  /** The requests for which there is a call. */
  ghost function ExplicitPairs(ops: seq<Operation>, requests: seq<(nat, nat)>): seq<(nat, nat)> {
    if requests == [] then [] else
      var n := |requests| - 1;
      ExplicitPairs(ops, requests[..n]) + if Overlapping(ops, requests[n].0, requests[n].1) then [requests[n]] else []
  }

  /** All pairs, in the order of the calls. */
  ghost function CalledPairs(ops: seq<Operation>, layout: seq<nat>, requests: seq<(nat, nat)>): seq<(nat, nat)> {
    ImplicitPairs(ops, layout, |layout|, 0) + ExplicitPairs(ops, requests)
  }

  lemma {:induction false} ImplicitPairsInside(ops: seq<Operation>, layout: seq<nat>, i: nat, j: nat)
    requires i <= |layout| && j <= i && (i == |layout| ==> j == 0)
    ensures Inside(ops, ImplicitPairs(ops, layout, i, j))
    decreases i, j
  {
    hide StrictSubset;
    if j > 0 {
      ImplicitPairsInside(ops, layout, i, j - 1);
    } else if i > 0 {
      ImplicitPairsInside(ops, layout, i - 1, i - 1);
    }
  }

  lemma {:induction false} ExplicitPairsInside(ops: seq<Operation>, requests: seq<(nat, nat)>)
    ensures Inside(ops, ExplicitPairs(ops, requests))
    decreases |requests|
  {
    hide Located;
    if requests != [] {
      ExplicitPairsInside(ops, requests[..|requests| - 1]);
    }
  }

  /** For the pairs that `finalize` calls: it may overcount exactly when they are exposed, which depends on the
      operations, the order of the node map and the requests alone. */
  lemma CalledPairsMayOvercount(ops: seq<Operation>, layout: seq<nat>, requests: seq<(nat, nat)>)
    ensures var pairs := CalledPairs(ops, layout, requests);
            (exists calls :: Feasible(ops, calls) && Pairs(calls) == pairs && !NeverOvercounts(calls)) <==> Exposed(ops, pairs)
  {
    ImplicitPairsInside(ops, layout, |layout|, 0);
    ExplicitPairsInside(ops, requests);
    hide Exposed, Feasible, NeverOvercounts, ImplicitPairs, ExplicitPairs;
    OvercountingPairs(ops, CalledPairs(ops, layout, requests));
  }
}
