/** The order in which operations hide one another, and why it makes decoding unambiguous. */
module Specificity {
  import opened Words
  import opened Patterns
  import opened Reachability

  ghost predicate ValidOps(ops: seq<Operation>, capacity: nat) {
    forall i :: 0 <= i < |ops| ==> Valid(ops[i], capacity)
  }

  /** Operation a is a specialization of operation b: its words are some, not all, of b's. */
  ghost predicate Within(ops: seq<Operation>, a: nat, b: nat) {
    a < |ops| && b < |ops| && StrictSubset(ops[a].code, ops[b].code)
  }

  ghost predicate Overlapping(ops: seq<Operation>, a: nat, b: nat) {
    a < |ops| && b < |ops| && Located(ops[a].code, ops[b].code, Overlaps)
  }

  /** The implicit edges: every operation is on top of those it specializes. */
  ghost function Implicit(ops: seq<Operation>): (e: Edges)
    ensures forall a: nat, b: nat :: (a, b) in e <==> Within(ops, a, b)
  {
    set a: nat, b: nat | a < |ops| && b < |ops| && Within(ops, a, b) :: (a, b)
  }

  ghost predicate NoDuplicates(ops: seq<Operation>) {
    forall a, b :: 0 <= a < |ops| && 0 <= b < |ops| && a != b ==> !Located(ops[a].code, ops[b].code, Equal)
  }

  ghost predicate Resolved(ops: seq<Operation>, e: Edges) {
    forall a, b :: Overlapping(ops, a, b) ==> Reaches(e, a, b) || Reaches(e, b, a)
  }

  /** What an instruction set must satisfy: no two operations with the same words, the
      specificity order and the user's order without a cycle, and every overlap ordered. */
  ghost predicate WellOrdered(ops: seq<Operation>, explicit: Edges) {
    && NoDuplicates(ops)
    && Acyclic(Implicit(ops) + explicit)
    && Resolved(ops, Implicit(ops) + explicit)
  }

  // ---------- edge reduction

  /** Every declared pair keeps a successor of its upper end that is its lower end or more specific. */
  ghost predicate Covers(ops: seq<Operation>, e: Edges, declared: Edges) {
    forall a, b :: (a, b) in declared ==> CoveredPair(ops, e, a, b)
  }

  ghost predicate CoveredPair(ops: seq<Operation>, e: Edges, a: nat, b: nat) {
    exists s :: (a, s) in e && (s == b || Within(ops, s, b))
  }

  /** In an acyclic graph that covers all declared pairs, each of them is joined by a path. */
  lemma {:induction false} CoveredPairJoined(ops: seq<Operation>, e: Edges, declared: Edges, a: nat, b: nat)
    requires Acyclic(e) && Implicit(ops) <= declared && Covers(ops, e, declared)
    requires (a, b) in declared
    ensures Reaches(e, a, b)
    decreases Below(e, a)
  {
    assert CoveredPair(ops, e, a, b);
    var s :| (a, s) in e && (s == b || Within(ops, s, b));
    EdgeReaches(e, a, s);
    if s != b {
      BelowShrinks(e, a, s);
      CoveredPairJoined(ops, e, declared, s, b);
      ReachesTransitive(e, a, s, b);
    }
  }

  /** Reduction loses no ordering: an acyclic reduced graph has exactly the paths of the declared pairs. */
  lemma ReductionKeepsPaths(ops: seq<Operation>, e: Edges, declared: Edges)
    requires Acyclic(e) && Implicit(ops) <= declared && Covers(ops, e, declared) && e <= declared
    ensures forall a, b :: Reaches(e, a, b) <==> Reaches(declared, a, b)
  {
    forall a, b | (a, b) in declared ensures Reaches(e, a, b) {
      CoveredPairJoined(ops, e, declared, a, b);
    }
    ReachesFollowsEdges(declared, e);
    SubgraphReaches(e, declared);
  }

  // ---------- decoding

  /** Any two operations that match one word are ordered one way, and one way only. */
  lemma MatchesAreOrdered(ops: seq<Operation>, explicit: Edges, w: seq<Byte>, a: nat, b: nat)
    requires WellOrdered(ops, explicit)
    requires a < |ops| && b < |ops| && a != b
    requires Matches(w, ops[a].code) && Matches(w, ops[b].code)
    ensures Reaches(Implicit(ops) + explicit, a, b) <==> !Reaches(Implicit(ops) + explicit, b, a)
  {
    var e := Implicit(ops) + explicit;
    if Reaches(e, a, b) && Reaches(e, b, a) {
      ReachesTransitive(e, a, b, a);
    }
    assert !Located(ops[a].code, ops[b].code, Equal);
    if Within(ops, a, b) {
      EdgeReaches(e, a, b);
    } else if Within(ops, b, a) {
      EdgeReaches(e, b, a);
    } else {
      assert Overlapping(ops, a, b);
    }
  }

  /** The operation a word means among the enabled ones: it matches, and it is on top of every
      other enabled operation that matches. */
  ghost predicate Intended(ops: seq<Operation>, explicit: Edges, enabled: set<nat>, w: seq<Byte>, t: nat) {
    && t in enabled && t < |ops| && Matches(w, ops[t].code)
    && forall m :: m in enabled && m < |ops| && m != t && Matches(w, ops[m].code) ==>
         Reaches(Implicit(ops) + explicit, t, m)
  }

  lemma IntendedUnique(ops: seq<Operation>, explicit: Edges, enabled: set<nat>, w: seq<Byte>, t: nat, u: nat)
    requires WellOrdered(ops, explicit)
    requires Intended(ops, explicit, enabled, w, t) && Intended(ops, explicit, enabled, w, u)
    ensures t == u
  {
    if t != u {
      MatchesAreOrdered(ops, explicit, w, t, u);
    }
  }

  ghost function Entries(table: seq<nat>): set<nat> {
    set i | i in table
  }

  /** A table in which no entry is below a later one. */
  ghost predicate Ordered(e: Edges, table: seq<nat>) {
    forall i, j :: 0 <= i < j < |table| ==> !Reaches(e, table[j], table[i])
  }

  /** The first match of an ordered table is the intended operation, whichever ordered table
      it is and whichever operations are enabled. */
  lemma FirstMatchIntended(ops: seq<Operation>, explicit: Edges, table: seq<nat>, w: seq<Byte>, k: nat)
    requires WellOrdered(ops, explicit)
    requires forall i :: 0 <= i < |table| ==> table[i] < |ops|
    requires Ordered(Implicit(ops) + explicit, table)
    requires k < |table| && Matches(w, ops[table[k]].code)
    requires forall i :: 0 <= i < k ==> !Matches(w, ops[table[i]].code)
    ensures Intended(ops, explicit, Entries(table), w, table[k])
  {
    forall m | m in table && m != table[k] && Matches(w, ops[m].code)
      ensures Reaches(Implicit(ops) + explicit, table[k], m)
    {
      var i :| 0 <= i < |table| && table[i] == m;
      MatchesAreOrdered(ops, explicit, w, table[k], m);
      assert k < i;
    }
  }

  /** The scan of a table: the position of the first match, or the length of the table. */
  function FirstMatch(ops: seq<Operation>, table: seq<nat>, w: seq<Byte>): (k: nat)
    requires forall i :: 0 <= i < |table| ==> table[i] < |ops|
    ensures k <= |table| && (k < |table| ==> Matches(w, ops[table[k]].code))
    ensures forall i :: 0 <= i < k ==> !Matches(w, ops[table[i]].code)
  {
    if table == [] then 0
    else if Matches(w, ops[table[0]].code) then 0
    else 1 + FirstMatch(ops, table[1..], w)
  }

  /** Two ordered tables of the same operations decode every word alike: neither the order of
      declaration, nor that of set iteration, nor the choice of linear extension shows. */
  lemma TablesAgree(ops: seq<Operation>, explicit: Edges, table: seq<nat>, other: seq<nat>, w: seq<Byte>)
    requires WellOrdered(ops, explicit)
    requires forall i :: 0 <= i < |table| ==> table[i] < |ops|
    requires forall i :: 0 <= i < |other| ==> other[i] < |ops|
    requires Ordered(Implicit(ops) + explicit, table) && Ordered(Implicit(ops) + explicit, other)
    requires Entries(table) == Entries(other)
    ensures var k, l := FirstMatch(ops, table, w), FirstMatch(ops, other, w);
            (k == |table| <==> l == |other|) && (k < |table| && l < |other| ==> table[k] == other[l])
  {
    hide WellOrdered, Ordered, Matches, Implicit;
    var k, l := FirstMatch(ops, table, w), FirstMatch(ops, other, w);
    if k < |table| && l < |other| {
      FirstMatchIntended(ops, explicit, table, w, k);
      FirstMatchIntended(ops, explicit, other, w, l);
      IntendedUnique(ops, explicit, Entries(table), w, table[k], other[l]);
    }
    forall i | 0 <= i < |table| ensures table[i] in other {
      assert table[i] in Entries(other);
    }
    forall i | 0 <= i < |other| ensures other[i] in table {
      assert other[i] in Entries(table);
    }
  }
}
