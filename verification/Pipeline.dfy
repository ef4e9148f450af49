/** The generator from end to end: from the fields of the operations to the decode table. */
module Pipeline {
  import opened Words
  import opened FieldLayout
  import opened Wrappers
  import opened Patterns
  import opened Reachability
  import opened Specificity
  import opened Declarations
  import opened TopologicalSort
  import opened Finalize
  import opened CodeBuffer
  import opened DecodeTable

  ghost predicate ValidIsa(fields: seq<seq<BitField>>) {
    forall k :: 0 <= k < |fields| ==> ValidFields(fields[k])
  }

  /** Operation k has the code and the maximum size of its fields. */
  ghost predicate Codes(fields: seq<BitField>, littleEndian: bool, op: Operation, capacity: nat)
    requires ValidFields(fields)
  {
    && op.size == Offset(fields, |fields|) <= 8 * capacity
    && |op.code.mask| == |op.code.bits| == capacity
    && Coded(littleEndian, fields, |fields|, op.code.mask, op.code.bits)
  }

  lemma CodesOf(fields: seq<BitField>, littleEndian: bool, op: Operation, capacity: nat)
    requires ValidFields(fields) && op.size == Offset(fields, |fields|) <= 8 * capacity
    requires |op.code.mask| == |op.code.bits| == capacity
    requires Coded(littleEndian, fields, |fields|, op.code.mask, op.code.bits)
    ensures Codes(fields, littleEndian, op, capacity)
  {
  }

  lemma CodesValid(fields: seq<BitField>, littleEndian: bool, op: Operation, capacity: nat)
    requires ValidFields(fields) && Codes(fields, littleEndian, op, capacity)
    ensures Patterns.Valid(op, capacity) && ClearFrom(littleEndian, op.size, op.code.mask)
  {
    BuiltCodeValid(littleEndian, fields, op.code, capacity);
  }

  /** The size of the longest operation, and the bytes that hold it. */
  ghost function Longest(fields: seq<seq<BitField>>): nat
    requires ValidIsa(fields)
  {
    if fields == [] then 0
    else
      var last := fields[|fields| - 1];
      var (m, n) := (Longest(fields[..|fields| - 1]), Offset(last, |last|));
      if m < n then n else m
  }

  ghost predicate IsCapacity(fields: seq<seq<BitField>>, capacity: nat)
    requires ValidIsa(fields)
  {
    capacity == (Longest(fields) + 7) / 8
  }

  lemma LongestNext(fields: seq<seq<BitField>>, k: nat)
    requires ValidIsa(fields) && k < |fields|
    ensures var (m, n) := (Longest(fields[..k]), Offset(fields[k], |fields[k]|));
            Longest(fields[..k + 1]) == if m < n then n else m
  {
    assert fields[..k + 1][..k] == fields[..k];
  }

  /** The first half of `finalize`: sizes, then the codes of all operations at the capacity of the
      longest; it fails on an opcode behind a field of variable size. */
  method MakeOperations(fields: seq<seq<BitField>>, littleEndian: bool)
    returns (r: Option<seq<Operation>>, capacity: nat)
    requires ValidIsa(fields)
    ensures IsCapacity(fields, capacity)
    ensures r.Some? <==> forall k :: 0 <= k < |fields| ==> OpcodesFirst(fields[k])
    ensures r.Some? ==> |r.value| == |fields|
    ensures r.Some? ==> forall k :: 0 <= k < |fields| ==> Codes(fields[k], littleEndian, r.value[k], capacity)
  {
    hide Codes, OpcodesFirst, Offset, Coded;
    var maxsize := 0;
    var sizes: seq<nat> := [];
    for k := 0 to |fields|
      invariant |sizes| == k
      invariant maxsize == Longest(fields[..k])
      invariant forall j :: 0 <= j < k ==> sizes[j] == Offset(fields[j], |fields[j]|) <= maxsize
    {
      LongestNext(fields, k);
      var size, vlen, lengths := Sizes(fields[k]);
      sizes := sizes + [size];
      if maxsize < size { maxsize := size; }
    }
    assert fields[..|fields|] == fields;
    capacity := (maxsize + 7) / 8;
    var ops: seq<Operation> := [];
    for k := 0 to |fields|
      invariant |ops| == k
      invariant forall j :: 0 <= j < k ==> OpcodesFirst(fields[j]) && Codes(fields[j], littleEndian, ops[j], capacity)
    {
      var code := BuildCode(fields[k], littleEndian, capacity);
      if code.None? {
        return None, capacity;
      }
      CodesOf(fields[k], littleEndian, Operation.Operation(code.value, sizes[k]), capacity);
      ops := ops + [Operation.Operation(code.value, sizes[k])];
    }
    return Some(ops), capacity;
  }

  /** What a decode table must be for the scan to be correct on codes of a capacity. */
  ghost predicate Scannable(table: seq<Entry>, ops: seq<Operation>, explicit: Edges, capacity: nat) {
    && ValidOps(ops, capacity) && TableFor(table, ops)
    && WellOrdered(ops, explicit) && Ordered(Implicit(ops) + explicit, Ids(table))
  }

  /** No opcode follows a field of variable size, and all names are those of operations or groups. */
  ghost predicate WellFormed(fields: seq<seq<BitField>>, names: Names, orderings: seq<Ordering>) {
    (forall k :: 0 <= k < |fields| ==> OpcodesFirst(fields[k])) && Known(names, orderings)
  }

  /** Whether a well-formed instruction set is accepted: exactly if its requests are legal, it is well ordered,
      and none of the calls of `ontopof` overcounts, as none does if no pair is exposed, or none that overlaps
      is requested twice. */
  ghost predicate Decides(accepted: bool, ops: seq<Operation>, layout: seq<nat>, names: Names, orderings: seq<Ordering>,
                          calls: seq<Call>)
    requires Known(names, orderings)
  {
    var requests := Requests(names, orderings);
    var good := Legal(ops, requests) && WellOrdered(ops, Explicit(ops, requests));
    && (accepted <==> good && NeverOvercounts(calls))
    && (good ==> Feasible(ops, calls) && Pairs(calls) == CalledPairs(ops, layout, requests))
    && (good && !Exposed(ops, CalledPairs(ops, layout, requests)) ==> accepted)
    && (good && Distinct(ops, requests) ==> accepted)
  }

  /** From an instruction set to its decode table, for one order of declaration, one iteration
      order of the node map and one outcome of the operation conditions. */
  method Generate(fields: seq<seq<BitField>>, littleEndian: bool, names: Names, orderings: seq<Ordering>,
                  declaration: seq<nat>, layout: seq<nat>, condition: seq<bool>)
    returns (table: Option<seq<Entry>>, capacity: nat, ghost ops: seq<Operation>, ghost calls: seq<Call>)
    requires ValidIsa(fields) && ValidNames(names, |fields|)
    requires Layout(declaration, |fields|) && Layout(layout, |fields|) && |condition| == |fields|
    ensures IsCapacity(fields, capacity)
    ensures table.Some? ==> WellFormed(fields, names, orderings)
    ensures WellFormed(fields, names, orderings) ==> Decides(table.Some?, ops, layout, names, orderings, calls)
    ensures (forall k :: 0 <= k < |fields| ==> OpcodesFirst(fields[k])) ==>
              && |ops| == |fields| && ValidOps(ops, capacity)
              && forall k :: 0 <= k < |fields| ==> Codes(fields[k], littleEndian, ops[k], capacity)
    ensures table.Some? ==> Entries(Ids(table.value)) == Enabled(condition)
    ensures table.Some? ==> Scannable(table.value, ops, Explicit(ops, Requests(names, orderings)), capacity)
  {
    hide WellOrdered, Ordered, Codes, Complete, Sorted, TableFor, Entries, Enabled, Known, Layout, Distinct, Legal, Feasible;
    hide CalledPairs, NeverOvercounts, Pairs, Exposed;
    hide Patterns.Valid, ClearFrom, OpcodesFirst, IsCapacity;
    ops, calls := [], [];
    var made;
    made, capacity := MakeOperations(fields, littleEndian);
    if made.None? {
      return None, capacity, ops, calls;
    }
    var all := made.value;
    forall k | 0 <= k < |all| ensures Patterns.Valid(all[k], capacity) && ClearFrom(littleEndian, all[k].size, all[k].code.mask) {
      CodesValid(fields[k], littleEndian, all[k], capacity);
    }
    ops := all;
    var isa := new Isa(all, capacity, names, orderings, declaration);
    var verdict;
    verdict, calls := isa.Finalize(layout);
    if verdict != Accepted {
      return None, capacity, ops, calls;
    }
    var entries := BuildTable(isa.operations, all, condition, littleEndian, capacity, Implicit(all) + isa.UserEdges());
    return Some(entries), capacity, ops, calls;
  }

  /** The bytes that a code of a capacity has of a source. */
  function Available(src: seq<Byte>, sz: nat, capacity: nat): (known: seq<Byte>)
    requires sz <= 8 * |src|
  {
    src[..((if sz < 8 * capacity then sz else 8 * capacity) + 7) / 8]
  }

  /** From an instruction set and the first bits of an instruction to the operation they mean: it is found
      exactly when it is on top of all enabled operations that match, whatever bytes follow, and none is found
      exactly when none matches, whatever bytes follow. There is an answer for every instruction set that is
      accepted and has an operation that is not empty, and only for those. */
  method GenerateAndDecode(fields: seq<seq<BitField>>, littleEndian: bool, names: Names, orderings: seq<Ordering>,
                           declaration: seq<nat>, layout: seq<nat>, condition: seq<bool>, src: seq<Byte>, sz: nat)
    returns (r: Option<Decoded>, capacity: nat, ghost ops: seq<Operation>, ghost calls: seq<Call>)
    requires ValidIsa(fields) && ValidNames(names, |fields|) && sz <= 8 * |src|
    requires Layout(declaration, |fields|) && Layout(layout, |fields|) && |condition| == |fields|
    ensures IsCapacity(fields, capacity)
    ensures r.Some? ==> 0 < capacity && WellFormed(fields, names, orderings)
    ensures WellFormed(fields, names, orderings) && 0 < capacity ==> Decides(r.Some?, ops, layout, names, orderings, calls)
    ensures (forall k :: 0 <= k < |fields| ==> OpcodesFirst(fields[k])) ==>
              |ops| == |fields| && forall k :: 0 <= k < |fields| ==> Codes(fields[k], littleEndian, ops[k], capacity)
    ensures r.Some? ==>
              var explicit := Explicit(ops, Requests(names, orderings));
              && (forall t :: r.value == Found(t) <==>
                    Means(ops, explicit, Enabled(condition), Available(src, sz, capacity), capacity, t))
              && (r.value == Unknown <==> Meaningless(ops, Enabled(condition), Available(src, sz, capacity), capacity))
  {
    hide *;
    var table;
    table, capacity, ops, calls := Generate(fields, littleEndian, names, orderings, declaration, layout, condition);
    if table.None? || capacity == 0 {
      return None, capacity, ops, calls;
    }
    AvailableFits(src, sz, capacity);
    var code := new CodeType(littleEndian, capacity, src, sz);
    assert code.str[..(code.size + 7) / 8] == Available(src, sz, capacity) by { AvailableIs(code.str[..], code.size, src, sz, capacity); }
    KnownIfWellFormed(fields, names, orderings);
    ghost var explicit := Explicit(ops, Requests(names, orderings));
    ScannableFacts(table.value, ops, explicit, capacity);
    var found := NCDecode(table.value, code, ops, explicit);
    return Some(found), capacity, ops, calls;
  }

  lemma KnownIfWellFormed(fields: seq<seq<BitField>>, names: Names, orderings: seq<Ordering>)
    requires WellFormed(fields, names, orderings)
    ensures Known(names, orderings)
  {
  }

  lemma AvailableFits(src: seq<Byte>, sz: nat, capacity: nat)
    requires sz <= 8 * |src|
    ensures ((if sz < 8 * capacity then sz else 8 * capacity) + 7) / 8 <= |src|
  {
  }

  lemma AvailableIs(str: seq<Byte>, size: nat, src: seq<Byte>, sz: nat, capacity: nat)
    requires sz <= 8 * |src| && |str| == capacity && size == if sz < 8 * capacity then sz else 8 * capacity
    requires forall i :: 0 <= i < capacity ==> str[i] == if i < (size + 7) / 8 then src[i] else Zeros(8)
    ensures str[..(size + 7) / 8] == Available(src, sz, capacity)
  {
  }

  lemma ScannableFacts(table: seq<Entry>, ops: seq<Operation>, explicit: Edges, capacity: nat)
    requires Scannable(table, ops, explicit, capacity)
    ensures ValidOps(ops, capacity) && TableFor(table, ops)
    ensures WellOrdered(ops, explicit) && Ordered(Implicit(ops) + explicit, Ids(table))
  {
  }
}
