/** The sort loop of `Isa::finalize`: it walks the operation table backwards and in circles,
    moving every operation with nothing left above it to the end of the new table. */
module TopologicalSort {
  import opened Reachability
  import opened OpNodes

  /** An entry of an operation table; the sort empties the entries it has moved. */
  datatype Slot = Null | Op(id: nat)

  /** Every operation below n has exactly one slot. */
  ghost predicate Complete(table: seq<Slot>, n: nat) {
    && |table| == n
    && (forall i :: 0 <= i < n ==> table[i].Op? && table[i].id < n)
    && (forall i, j :: 0 <= i < j < n ==> table[i] != table[j])
    && (forall x: nat :: x < n ==> Op(x) in table)
  }

  lemma CompleteLength(table: seq<Slot>, n: nat)
    requires Complete(table, n)
    ensures |table| == n
  {
  }

  /** Upper ends of edges come after lower ends. */
  ghost predicate LinearExtension(e: Edges, table: seq<Slot>) {
    forall i, j :: 0 <= i < |table| && 0 <= j < |table| && table[i].Op? && table[j].Op? ==>
      (table[i].id, table[j].id) in e ==> i > j
  }

  ghost function Position(table: seq<Slot>, x: nat): int {
    if Op(x) in table then var j :| 0 <= j < |table| && table[j] == Op(x); j else -1
  }

  lemma LinearExtensionOrders(e: Edges, table: seq<Slot>, n: nat)
    requires Complete(table, n) && LinearExtension(e, table)
    requires forall x :: x in e ==> x.0 < n && x.1 < n
    ensures Acyclic(e)
    ensures forall i, j :: 0 <= i < n && 0 <= j < n && Reaches(e, table[i].id, table[j].id) ==> i > j
  {
    var rank := (x: nat) => Position(table, x);
    RankFalls(e, rank);
    forall i | 0 <= i < n ensures rank(table[i].id) == i {
    }
  }

  // ---------- the circular walk

  /** Position q was among the last k positions of a downward circular walk now at position at. */
  ghost predicate Visited(q: int, at: int, k: int, n: int) {
    at <= q < at + k || q + n < at + k
  }

  ghost function Before(at: int, n: int): int {
    if at == 0 then n - 1 else at - 1
  }

  lemma StepBack(at: nat, n: nat)
    requires 0 < n && at <= n
    ensures (at + n - 1) % n == Before(at, n)
  {
    var r := if at == 0 then n - 1 else at - 1;
    var q := if at == 0 then 0 else 1;
    assert at + n - 1 == q * n + r;
  }

  function Filled(table: seq<Slot>): nat {
    if table == [] then 0 else Filled(table[1..]) + if table[0].Op? then 1 else 0
  }

  lemma {:induction false} FilledUpdate(table: seq<Slot>, k: nat)
    requires k < |table| && table[k].Op?
    ensures Filled(table[k := Null]) == Filled(table) - 1
  {
    if k == 0 {
      assert table[k := Null][1..] == table[1..];
    } else {
      assert table[k := Null][1..] == table[1..][k - 1 := Null];
      FilledUpdate(table[1..], k - 1);
    }
  }

  lemma {:induction false} FilledSome(table: seq<Slot>)
    ensures Filled(table) > 0 <==> exists k :: 0 <= k < |table| && table[k].Op?
    ensures Filled(table) == |table| <==> forall k :: 0 <= k < |table| ==> table[k].Op?
    ensures Filled(table) <= |table|
  {
    if table != [] {
      FilledSome(table[1..]);
      assert forall k :: 0 < k < |table| ==> table[k] == table[1..][k - 1];
      assert forall k :: 0 <= k < |table| - 1 ==> table[1..][k] == table[k + 1];
    }
  }

  ghost function Waiting(table: seq<Slot>): set<nat> {
    set s | s in table && s.Op? :: s.id
  }

  lemma AllWait(e: Edges, table: seq<Slot>)
    requires Complete(table, |table|)
    requires forall x :: x in e ==> x.0 < |table|
    ensures From(e, Waiting(table)) == e
  {
    forall x | x in e ensures x.0 in Waiting(table) {
      assert Op(x.0) in table;
    }
  }

  ghost function From(e: Edges, s: set<nat>): Edges {
    set x | x in e && x.0 in s
  }

  lemma IntoNone(e: Edges, b: nat)
    requires |Into(e, b)| <= 0
    ensures forall x :: x in e ==> x.1 != b
  {
    var s := Into(e, b);
    forall x | x in e ensures x.1 != b {
      assert x.1 == b <==> x in s;
    }
  }

  /** If every waiting node has another waiting node on top, the graph has a cycle. */
  lemma AllBlocked(e: Edges, s: set<nat>, counts: seq<int>, x: nat)
    requires Acyclic(e) && Tight(From(e, s), counts) && x in s
    requires forall y :: y in s ==> y < |counts| && counts[y] > 0
    ensures false
  {
    var f := From(e, s);
    SubgraphReaches(f, e);
    forall y | y in s ensures exists z :: z in s && (z, y) in f {
      assert |Into(f, y)| > 0;
      var edge :| edge in Into(f, y);
      assert (edge.0, y) in f;
    }
    NoEndlessClimb(f, s, x);
  }

  // ---------- the loop

  /** The old table and the filled end of the new one share out the operations, and respect the edges. */
  ghost predicate Placed(e: Edges, table: seq<Slot>, order: seq<Slot>, d: nat) {
    && |table| == |order| && d <= |order| && Filled(table) == d
    && (forall k :: 0 <= k < |table| && table[k].Op? ==> table[k].id < |table|)
    && (forall i, j :: 0 <= i < j < |table| && table[i].Op? ==> table[i] != table[j])
    && (forall k :: d <= k < |order| ==> order[k].Op? && order[k].id < |order| && order[k] !in table)
    && (forall i, j :: d <= i < j < |order| ==> order[i] != order[j])
    && (forall x: nat :: x < |table| ==> Op(x) in table || Op(x) in order[d..])
    && Respects(e, table, order, d)
  }

  /** No placed operation has one on top that is placed later or still waiting. */
  ghost predicate Respects(e: Edges, table: seq<Slot>, order: seq<Slot>, d: nat) {
    && (forall i, j :: d <= i < |order| && d <= j < |order| && order[i].Op? && order[j].Op? ==>
          (order[i].id, order[j].id) in e ==> i > j)
    && (forall x, k :: x in e && d <= k < |order| && order[k] == Op(x.1) ==> Op(x.0) !in table)
  }

  lemma PlacedFirst(e: Edges, table: seq<Slot>, order: seq<Slot>)
    requires Complete(table, |order|)
    ensures Placed(e, table, order, |order|)
  {
    FilledSome(table);
  }

  lemma PlacedLast(e: Edges, table: seq<Slot>, order: seq<Slot>)
    requires Placed(e, table, order, 0)
    ensures Complete(order, |order|) && LinearExtension(e, order)
    ensures Waiting(table) == {}
  {
    FilledSome(table);
    assert order[0..] == order;
  }

  lemma PlaceOne(e: Edges, table: seq<Slot>, order: seq<Slot>, d: nat, k: nat)
    requires Placed(e, table, order, d) && k < |table| && table[k].Op?
    requires forall x :: x in From(e, Waiting(table)) ==> x.1 != table[k].id
    requires forall x :: x in e ==> x.0 < |table|
    ensures 0 < d && Placed(e, table[k := Null], order[d - 1 := table[k]], d - 1)
    ensures From(e, Waiting(table[k := Null])) == Cut(From(e, Waiting(table)), table[k].id)
    ensures Waiting(table[k := Null]) == Waiting(table) - {table[k].id}
  {
    hide Respects, Filled;
    FilledUpdate(table, k);
    FilledSome(table);
    var id, t, o := table[k].id, table[k := Null], order[d - 1 := table[k]];
    forall s: Slot | s.Op? ensures s in t <==> s in table && s != table[k] {
      if s in table && s != table[k] {
        var i :| 0 <= i < |table| && table[i] == s;
        assert t[i] == s;
      }
    }
    forall x: nat | x < |t| ensures Op(x) in t || Op(x) in o[d - 1..] {
      if x == id {
        assert o[d - 1..][0] == Op(x);
      } else if Op(x) in order[d..] {
        var i :| d <= i < |order| && order[i] == Op(x);
        assert o[d - 1..][i - (d - 1)] == Op(x);
      }
    }
    PlaceRespects(e, table, order, d, k);
  }

  lemma PlaceRespects(e: Edges, table: seq<Slot>, order: seq<Slot>, d: nat, k: nat)
    requires Respects(e, table, order, d) && 0 < d <= |order| && k < |table| && table[k].Op?
    requires forall i :: d <= i < |order| ==> order[i] !in table
    requires forall x :: x in From(e, Waiting(table)) ==> x.1 != table[k].id
    ensures Respects(e, table[k := Null], order[d - 1 := table[k]], d - 1)
  {
    var id, t, o := table[k].id, table[k := Null], order[d - 1 := table[k]];
    assert table[k] in table;
    forall x | x in e && x.1 == id ensures Op(x.0) !in table {
      assert Op(x.0) in table ==> x.0 in Waiting(table);
    }
    forall s: Slot | s.Op? && s in t ensures s in table {
    }
  }

  /** The operations the loop has sorted, and the counts of all of them: they bound the waiting
      operations on top of each one. */
  ghost predicate Counted(e: Edges, table: seq<Slot>, order: seq<Slot>, d: nat, counts: seq<int>) {
    && |counts| == |table|
    && Placed(e, table, order, d)
    && Bounds(From(e, Waiting(table)), counts)
    && (forall k :: d <= k < |order| ==> counts[order[k].id] == 0)
  }

  /** The walk since the last operation was placed: the last `steps` slots visited are blocked, the
      last `nulls` of them empty, and the tracker has counted down at most once for every step. */
  ghost predicate Walked(table: seq<Slot>, counts: seq<int>, at: int, steps: int, nulls: int, tracker: int) {
    && 0 <= at <= |table| && 0 <= nulls <= |table|
    && 0 <= tracker <= |table| && |table| - tracker <= steps
    && (forall q :: 0 <= q < |table| && Visited(q, at, steps, |table|) ==> Blocked(table, counts, q))
    && (forall q :: 0 <= q < |table| && Visited(q, at, nulls, |table|) ==> table[q] == Null)
  }

  ghost predicate Blocked(table: seq<Slot>, counts: seq<int>, q: int)
    requires 0 <= q < |table|
  {
    table[q].Op? && table[q].id < |counts| ==> counts[table[q].id] > 0
  }

  /** When nothing is ready some waiting operation cannot have a true count, or there is a cycle. */
  lemma NothingReady(e: Edges, table: seq<Slot>, counts: seq<int>, k: nat)
    requires Acyclic(e) && Tight(From(e, Waiting(table)), counts)
    requires forall q :: 0 <= q < |table| ==> Blocked(table, counts, q)
    requires forall q :: 0 <= q < |table| && table[q].Op? ==> table[q].id < |counts|
    requires k < |table| && table[k].Op?
    ensures false
  {
    forall y | y in Waiting(table) ensures y < |counts| && counts[y] > 0 {
      var q :| 0 <= q < |table| && table[q] == Op(y);
      assert Blocked(table, counts, q);
    }
    assert table[k] in table;
    AllBlocked(e, Waiting(table), counts, table[k].id);
  }

  /** The turns of the sort loop from one placement to the next: walks back in circles to an
      operation that nothing blocks. It gives up when the tracker, which counts blocked operations
      down from the size of the table, would fall below zero; the source fails an assertion there. */
  method NextReady(table: array<Slot>, nodes: seq<OpNode>, start: nat) returns (ready: bool, sopidx: nat)
    requires 0 < table.Length && start <= table.Length
    requires forall k :: 0 <= k < table.Length && table[k].Op? ==> table[k].id < |nodes|
    requires exists k :: 0 <= k < table.Length && table[k].Op?
    ensures sopidx < table.Length
    ensures ready ==> table[sopidx].Op? && nodes[table[sopidx].id].abovecount <= 0
    ensures !ready ==> forall k :: 0 <= k < table.Length && table[k].Op? ==> nodes[table[k].id].abovecount > 0
  {
    var opcount := table.Length;
    var tracker := opcount;
    ghost var at, steps, nulls := start, 0, 0;
    sopidx := start;
    while true
      invariant Walked(table[..], Counts(nodes), sopidx, steps, nulls, tracker)
      decreases tracker, opcount - nulls
    {
      ghost var k :| 0 <= k < opcount && table[k].Op?;
      at := sopidx;
      StepBack(sopidx, opcount);
      sopidx := (sopidx + opcount - 1) % opcount;
      steps := steps + 1;
      if table[sopidx] == Null {
        assert !Visited(k, at, nulls, opcount);
        nulls := nulls + 1;
        continue;
      }
      if nodes[table[sopidx].id].abovecount <= 0 {
        return true, sopidx;
      }
      nulls := 0;
      tracker := tracker - 1;
      if tracker < 0 {
        forall q | 0 <= q < opcount && table[q].Op? ensures nodes[table[q].id].abovecount > 0 {
          assert q == sopidx || Visited(q, at, steps - 1, opcount);
          assert q == sopidx || Blocked(table[..], Counts(nodes), q);
        }
        return false, sopidx;
      }
    }
  }

  lemma MoveOne(e: Edges, table: seq<Slot>, order: seq<Slot>, d: nat, counts: seq<int>, k: nat, counts': seq<int>)
    requires Counted(e, table, order, d, counts)
    requires forall x :: x in e ==> x.0 < |table| && x.1 < |table|
    requires k < |table| && table[k].Op? && counts[table[k].id] <= 0
    requires |counts'| == |counts| && forall i :: 0 <= i < |counts| ==>
      counts'[i] == counts[i] - if (table[k].id, i) in From(e, Waiting(table)) then 1 else 0
    ensures 0 < d && Counted(e, table[k := Null], order[d - 1 := table[k]], d - 1, counts')
    ensures From(e, Waiting(table[k := Null])) == Cut(From(e, Waiting(table)), table[k].id)
  {
    var f, id := From(e, Waiting(table)), table[k].id;
    IntoNone(f, id);
    PlaceOne(e, table, order, d, k);
    forall i | 0 <= i < |counts| ensures |Into(Cut(f, id), i)| <= counts'[i] {
      IntoCut(f, id, i);
    }
    var o := order[d - 1 := table[k]];
    forall j | d - 1 <= j < |o| ensures counts'[o[j].id] == 0 {
      IntoNone(f, o[j].id);
    }
  }

  lemma AllMoved(e: Edges, table: seq<Slot>, order: seq<Slot>, counts: seq<int>)
    requires Counted(e, table, order, 0, counts)
    ensures Complete(order, |order|) && LinearExtension(e, order)
    ensures Tight(From(e, Waiting(table)), counts)
  {
    PlacedLast(e, table, order);
    forall i | 0 <= i < |counts| ensures |Into(From(e, {}), i)| == counts[i] {
      assert Into(From(e, {}), i) == {};
      assert Op(i) in order;
    }
  }

  lemma StartCounted(e: Edges, table: seq<Slot>, order: seq<Slot>, counts: seq<int>)
    requires |table| == |order| == |counts| && Complete(table, |table|) && Bounds(e, counts)
    requires forall x :: x in e ==> x.0 < |table|
    ensures Counted(e, table, order, |table|, counts)
    ensures From(e, Waiting(table)) == e
  {
    PlacedFirst(e, table, order);
    AllWait(e, table);
  }

  lemma CountedFacts(e: Edges, table: seq<Slot>, order: seq<Slot>, d: nat, counts: seq<int>)
    requires Counted(e, table, order, d, counts)
    ensures 0 < d <==> exists k :: 0 <= k < |table| && table[k].Op?
    ensures d <= |table| == |order| == |counts|
    ensures forall k :: 0 <= k < |table| && table[k].Op? ==> table[k].id < |table|
  {
    FilledSome(table);
  }

  /** The state of the loop: the graph of the operations still waiting, and their counts. */
  ghost predicate Ongoing(e: Edges, table: array<Slot>, order: array<Slot>, d: nat, nodes: seq<OpNode>)
    reads table, order, nodes
  {
    && table != order && |nodes| == table.Length == order.Length
    && Wired(nodes) && EdgesOf(nodes) == From(e, Waiting(table[..]))
    && Counted(e, table[..], order[..], d, Counts(nodes))
    && (forall x :: x in e ==> x.0 < |nodes| && x.1 < |nodes|)
  }

  lemma Begin(table: array<Slot>, order: array<Slot>, nodes: seq<OpNode>)
    requires table != order && Wired(nodes) && Complete(table[..], |nodes|) && order.Length == table.Length
    ensures Ongoing(EdgesOf(nodes), table, order, |nodes|, nodes)
  {
    StartCounted(EdgesOf(nodes), table[..], order[..], Counts(nodes));
  }

  lemma Continue(e: Edges, table: array<Slot>, order: array<Slot>, d: nat, nodes: seq<OpNode>)
    requires Ongoing(e, table, order, d, nodes)
    ensures table != order && d <= table.Length == |nodes|
    ensures forall k :: 0 <= k < table.Length && table[k].Op? ==> table[k].id < |nodes|
    ensures 0 < d ==> exists k :: 0 <= k < table.Length && table[k].Op?
  {
    CountedFacts(e, table[..], order[..], d, Counts(nodes));
  }

  lemma Stuck(e: Edges, table: array<Slot>, order: array<Slot>, d: nat, nodes: seq<OpNode>)
    requires Ongoing(e, table, order, d, nodes) && 0 < d
    requires forall k :: 0 <= k < table.Length && table[k].Op? ==> nodes[table[k].id].abovecount > 0
    ensures !(Acyclic(e) && Exact(nodes))
  {
    CountedFacts(e, table[..], order[..], d, Counts(nodes));
    var k :| 0 <= k < table.Length && table[k].Op?;
    if Acyclic(e) && Exact(nodes) {
      NothingReady(e, table[..], Counts(nodes), k);
    }
  }

  lemma Finish(e: Edges, table: array<Slot>, order: array<Slot>, nodes: seq<OpNode>)
    requires Ongoing(e, table, order, 0, nodes)
    ensures Complete(order[..], |nodes|) && LinearExtension(e, order[..])
    ensures Acyclic(e) && Exact(nodes)
  {
    AllMoved(e, table[..], order[..], Counts(nodes));
    LinearExtensionOrders(e, order[..], |nodes|);
  }

  /** Moves an unblocked operation to the new table. */
  method Move(table: array<Slot>, order: array<Slot>, sopidx: nat, dopidx: nat, nodes: seq<OpNode>, ghost e: Edges)
    returns (d: nat)
    requires Ongoing(e, table, order, dopidx, nodes)
    requires sopidx < table.Length && table[sopidx].Op? && table[sopidx].id < |nodes|
    requires nodes[table[sopidx].id].abovecount <= 0
    modifies table, order, nodes
    ensures d < dopidx && Ongoing(e, table, order, d, nodes)
    ensures Exact(nodes) <==> old(Exact(nodes))
  {
    hide *;
    assert Ongoing(e, table, order, dopidx, nodes);
    MoveFacts(e, table, order, dopidx, nodes);
    ghost var c, t, o := Counts(nodes), table[..], order[..];
    assert 0 < dopidx <= order.Length by { CountedFacts(e, t, o, dopidx, c); }
    var node := nodes[table[sopidx].id];
    d := dopidx - 1;
    order[d] := table[sopidx];
    table[sopidx] := Null;
    node.Unlink(nodes);
    MoveOne(e, t, o, dopidx, c, sopidx, Counts(nodes));
    assert table[..] == t[sopidx := Null] && order[..] == o[d := t[sopidx]];
    StillOngoing(e, table, order, d, nodes);
  }

  lemma MoveFacts(e: Edges, table: array<Slot>, order: array<Slot>, d: nat, nodes: seq<OpNode>)
    requires Ongoing(e, table, order, d, nodes)
    ensures table != order && |nodes| == table.Length == order.Length
    ensures Wired(nodes) && EdgesOf(nodes) == From(e, Waiting(table[..]))
    ensures Counted(e, table[..], order[..], d, Counts(nodes))
    ensures forall x :: x in e ==> x.0 < |nodes| && x.1 < |nodes|
    ensures forall i :: 0 <= i < |nodes| ==> nodes[i].op == i
    ensures forall i, j :: 0 <= i < |nodes| ==> (j in nodes[i].belowlist <==> (i, j) in EdgesOf(nodes))
  {
  }

  lemma StillOngoing(e: Edges, table: array<Slot>, order: array<Slot>, d: nat, nodes: seq<OpNode>)
    requires table != order && |nodes| == table.Length == order.Length
    requires Wired(nodes) && EdgesOf(nodes) == From(e, Waiting(table[..]))
    requires Counted(e, table[..], order[..], d, Counts(nodes))
    requires forall x :: x in e ==> x.0 < |nodes| && x.1 < |nodes|
    ensures Ongoing(e, table, order, d, nodes)
  {
  }

  /** Sorts the table, or reports that the tracker ran out, which is where the assertion of the
      source fails. */
  method Sort(table: array<Slot>, nodes: seq<OpNode>) returns (sorted: bool, order: array<Slot>)
    requires Wired(nodes) && Complete(table[..], |nodes|)
    modifies table, nodes
    ensures fresh(order)
    ensures sorted <==> Acyclic(old(EdgesOf(nodes))) && old(Exact(nodes))
    ensures sorted ==> Complete(order[..], |nodes|) && LinearExtension(old(EdgesOf(nodes)), order[..])
  {
    hide *;
    CompleteLength(table[..], |nodes|);
    ghost var e, exact := EdgesOf(nodes), Exact(nodes);
    var opcount := table.Length;
    order := new Slot[opcount];
    var sopidx: nat, dopidx: nat := opcount, opcount;
    Begin(table, order, nodes);
    while dopidx > 0
      invariant sopidx <= opcount && Exact(nodes) == exact
      invariant Ongoing(e, table, order, dopidx, nodes)
    {
      Continue(e, table, order, dopidx, nodes);
      var ready;
      ready, sopidx := NextReady(table, nodes, sopidx);
      if !ready {
        Stuck(e, table, order, dopidx, nodes);
        return false, order;
      }
      dopidx := Move(table, order, sopidx, dopidx, nodes, e);
    }
    Finish(e, table, order, nodes);
    return true, order;
  }
}
