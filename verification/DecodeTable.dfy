/** The decode table that the generator emits, and the scan of `NCDecode` over it. */
module DecodeTable {
  import opened Words
  import opened BitAddressing
  import opened Patterns
  import opened Reachability
  import opened Specificity
  import opened TopologicalSort
  import opened Finalize
  import opened CodeBuffer
  import FieldLayout

  /** One entry: the bytes of the code up to its last constrained bit, and the operation. */
  datatype Entry = Entry(bits: seq<Byte>, mask: seq<Byte>, size: nat, op: nat)

  /** `prefix_size`: the stream bits of the mask up to the last one set, found from the end. */
  method PrefixSize(mask: seq<Byte>, size: nat, littleEndian: bool) returns (end: nat)
    requires (size + 7) / 8 <= |mask|
    ensures end <= size
    ensures end > 0 ==> StreamBit(littleEndian, mask, end - 1)
    ensures forall q :: end <= q < size ==> !StreamBit(littleEndian, mask, q)
  {
    end := size;
    while end > 0
      invariant end <= size
      invariant forall q :: end <= q < size ==> !StreamBit(littleEndian, mask, q)
    {
      var beg := if littleEndian then end - 1 else -(end as int);
      PositionInside(beg, |mask|);
      var bit := Extract(mask, beg, beg + 1, 64);
      assert bit[0] == StreamBit(littleEndian, mask, end - 1);
      if !IsZero(bit) {
        return;
      }
      end := end - 1;
    }
  }

  /** An entry stands for a code: it keeps all the bytes with constraints and ends with one. */
  ghost predicate Stands(entry: Entry, c: Code) {
    var n := (entry.size + 7) / 8;
    && n <= |c.mask| == |c.bits|
    && entry.bits == c.bits[..n] && entry.mask == c.mask[..n]
    && (n > 0 ==> !IsZero(c.mask[n - 1]))
    && (forall i :: n <= i < |c.mask| ==> IsZero(c.mask[i]))
  }

  method MakeEntry(ops: seq<Operation>, k: nat, littleEndian: bool, ghost capacity: nat) returns (entry: Entry)
    requires k < |ops| && Valid(ops[k], capacity)
    requires FieldLayout.ClearFrom(littleEndian, ops[k].size, ops[k].code.mask)
    ensures entry.op == k && Stands(entry, ops[k].code)
  {
    var c := ops[k].code;
    var size := PrefixSize(c.mask, ops[k].size, littleEndian);
    var n := (size + 7) / 8;
    entry := Entry(c.bits[..n], c.mask[..n], size, k);
    LastByteSet(littleEndian, c.mask, size);
    forall i | n <= i < |c.mask| ensures IsZero(c.mask[i]) {
      ClearByte(littleEndian, c.mask, size, i);
    }
  }

  lemma LastByteSet(littleEndian: bool, mask: seq<Byte>, size: nat)
    requires size > 0 ==> StreamBit(littleEndian, mask, size - 1)
    ensures size > 0 ==> (size + 7) / 8 <= |mask| && !IsZero(mask[(size + 7) / 8 - 1])
  {
    if size > 0 {
      StreamByte(littleEndian, mask, size - 1);
    }
  }

  lemma ClearByte(littleEndian: bool, mask: seq<Byte>, size: nat, i: nat)
    requires forall q :: size <= q ==> !StreamBit(littleEndian, mask, q)
    requires (size + 7) / 8 <= i < |mask|
    ensures IsZero(mask[i])
  {
    forall j | 0 <= j < 8 ensures !mask[i][j] {
      var r := if littleEndian then j else 7 - j;
      StreamCell(littleEndian, mask, i, r);
    }
  }

  // ---------- matching a code of which only the first bytes are there

  /** A word that begins with the bytes read so far. */
  ghost predicate Begins(w: seq<Byte>, known: seq<Byte>, capacity: nat) {
    |w| == capacity && known <= w
  }

  ghost predicate Certain(known: seq<Byte>, c: Code) {
    forall w: seq<Byte> :: Begins(w, known, |c.mask|) ==> Matches(w, c)
  }

  ghost predicate Impossible(known: seq<Byte>, c: Code) {
    forall w: seq<Byte> :: Begins(w, known, |c.mask|) ==> !Matches(w, c)
  }

  /** The answers of the masked comparison: it matches if every completion of the bytes does, fails
      if none does, and asks for more bytes otherwise. */
  ghost predicate Answers(known: seq<Byte>, c: Code, r: MatchResult) {
    && (r == Match <==> Certain(known, c))
    && (r == NoMatch <==> Impossible(known, c))
  }

  lemma KnownByteFails(known: seq<Byte>, c: Code, i: nat)
    requires i < |known| <= |c.mask| == |c.bits| && And(known[i], c.mask[i]) != c.bits[i]
    ensures Impossible(known, c) && !Certain(known, c)
  {
    forall w: seq<Byte> | Begins(w, known, |c.mask|) ensures !Matches(w, c) {
      assert w[i] == known[i];
    }
    assert Begins(known + c.bits[|known|..], known, |c.mask|);
  }

  lemma AllBytesMatch(entry: Entry, known: seq<Byte>, op: Operation, capacity: nat)
    requires Valid(op, capacity) && Stands(entry, op.code) && |known| <= capacity
    requires |entry.mask| <= |known|
    requires forall i :: 0 <= i < |entry.mask| ==> And(known[i], op.code.mask[i]) == op.code.bits[i]
    ensures Certain(known, op.code) && !Impossible(known, op.code)
  {
    var c := op.code;
    forall w: seq<Byte> | Begins(w, known, capacity) ensures Matches(w, c) {
      forall i | 0 <= i < capacity ensures And(w[i], c.mask[i]) == c.bits[i] {
        if i >= |entry.mask| {
          assert IsZero(c.mask[i]);
        } else {
          assert w[i] == known[i];
        }
      }
    }
    assert Begins(known + c.bits[|known|..], known, capacity);
  }

  lemma BytesMissing(entry: Entry, known: seq<Byte>, op: Operation, capacity: nat)
    requires Valid(op, capacity) && Stands(entry, op.code) && |known| < |entry.mask|
    requires forall i :: 0 <= i < |known| ==> And(known[i], op.code.mask[i]) == op.code.bits[i]
    ensures !Certain(known, op.code) && !Impossible(known, op.code)
  {
    var c, n := op.code, |entry.mask|;
    var w := known + c.bits[|known|..];
    forall i | 0 <= i < capacity ensures And(w[i], c.mask[i]) == c.bits[i] {}
    assert Begins(w, known, capacity) && Matches(w, c);
    var j :| 0 <= j < 8 && c.mask[n - 1][j];
    var flipped: Byte := w[n - 1][j := !w[n - 1][j]];
    var x := w[n - 1 := flipped];
    assert And(x[n - 1], c.mask[n - 1])[j] != c.bits[n - 1][j];
    assert Begins(x, known, capacity) && !Matches(x, c);
  }

  /** `CodeType::match(bits, mask)`; a code of that many bits has its last byte whole. */
  method MatchMask(code: CodeType, entry: Entry, ghost op: Operation) returns (r: MatchResult)
    requires code.Valid() && Valid(op, code.str.Length) && Stands(entry, op.code)
    ensures Answers(code.str[..(code.size + 7) / 8], op.code, r)
  {
    hide Certain, Impossible, Valid;
    StandsFacts(entry, op.code);
    var maskbound, codebound := (entry.size + 7) / 8, (code.size + 7) / 8;
    ghost var known := code.str[..codebound];
    assert |op.code.mask| == |op.code.bits| == code.str.Length by { ValidSizes(op, code.str.Length); }
    for idx := 0 to maskbound
      invariant idx <= codebound
      invariant forall i :: 0 <= i < idx ==> And(known[i], op.code.mask[i]) == op.code.bits[i]
    {
      if idx >= codebound {
        BytesMissing(entry, known, op, code.str.Length);
        return NotEnoughBytes;
      }
      if And(code.str[idx], entry.mask[idx]) != entry.bits[idx] {
        KnownByteFails(known, op.code, idx);
        return NoMatch;
      }
    }
    AllBytesMatch(entry, known, op, code.str.Length);
    return Match;
  }

  lemma StandsFacts(entry: Entry, c: Code)
    requires Stands(entry, c)
    ensures |entry.mask| == |entry.bits| == (entry.size + 7) / 8 <= |c.mask| == |c.bits|
    ensures forall i :: 0 <= i < |entry.mask| ==> entry.mask[i] == c.mask[i] && entry.bits[i] == c.bits[i]
  {
  }

  lemma ValidSizes(op: Operation, capacity: nat)
    requires Valid(op, capacity)
    ensures |op.code.mask| == |op.code.bits| == capacity
  {
  }

  // ---------- the table and its scan

  ghost predicate TableFor(table: seq<Entry>, ops: seq<Operation>) {
    forall i :: 0 <= i < |table| ==> table[i].op < |ops| && Stands(table[i], ops[table[i].op].code)
  }

  ghost function Ids(table: seq<Entry>): (s: seq<nat>)
    ensures |s| == |table| && forall i :: 0 <= i < |s| ==> s[i] == table[i].op
  {
    seq(|table|, i requires 0 <= i < |table| => table[i].op)
  }

  /** The operations whose condition holds. */
  ghost function Enabled(condition: seq<bool>): set<nat> {
    set i | 0 <= i < |condition| && condition[i]
  }

  /** The slots from k on have been looked at, from the last; `from` tells where entries come from. */
  ghost predicate Collected(operations: seq<Slot>, condition: seq<bool>, ids: seq<nat>, from: seq<nat>, k: nat) {
    && |from| == |ids| && k <= |operations|
    && (forall i :: 0 <= i < |ids| ==> k <= from[i] < |operations| && operations[from[i]] == Op(ids[i]))
    && (forall i, j :: 0 <= i < j < |ids| ==> from[j] < from[i])
    && (forall i :: 0 <= i < |ids| ==> ids[i] < |condition| && condition[ids[i]])
    && (forall j :: k <= j < |operations| && operations[j].Op? && operations[j].id < |condition| ==>
          condition[operations[j].id] ==> operations[j].id in ids)
  }

  lemma CollectNext(operations: seq<Slot>, condition: seq<bool>, ids: seq<nat>, from: seq<nat>, k: nat)
    requires k < |operations| && Collected(operations, condition, ids, from, k + 1)
    requires operations[k].Op? && operations[k].id < |condition|
    ensures condition[operations[k].id] ==>
              Collected(operations, condition, ids + [operations[k].id], from + [k], k)
    ensures !condition[operations[k].id] ==> Collected(operations, condition, ids, from, k)
  {
    var id := operations[k].id;
    assert forall x :: x in ids ==> x in ids + [id];
    assert (ids + [id])[|ids|] == id;
  }

  lemma CollectedAll(operations: seq<Slot>, condition: seq<bool>, ids: seq<nat>, from: seq<nat>, e: Edges)
    requires Collected(operations, condition, ids, from, 0)
    requires Complete(operations, |condition|) && Sorted(operations, e)
    ensures Ordered(e, ids) && Entries(ids) == Enabled(condition)
  {
    hide Reaches;
    forall x | x in Enabled(condition) ensures x in ids {
      var j :| 0 <= j < |operations| && operations[j] == Op(x);
    }
    forall i, j | 0 <= i < j < |ids| ensures !Reaches(e, ids[j], ids[i]) {
      assert from[j] < from[i];
      assert operations[from[j]] == Op(ids[j]) && operations[from[i]] == Op(ids[i]);
    }
  }

  /** The constructor of the decoder: the sorted operations from the last to the first, except
      those whose condition does not hold. */
  method BuildTable(operations: array<Slot>, ops: seq<Operation>, condition: seq<bool>, littleEndian: bool,
                    ghost capacity: nat, ghost e: Edges)
    returns (table: seq<Entry>)
    requires ValidOps(ops, capacity) && |condition| == |ops|
    requires Complete(operations[..], |ops|) && Sorted(operations[..], e)
    requires forall k :: 0 <= k < |ops| ==> FieldLayout.ClearFrom(littleEndian, ops[k].size, ops[k].code.mask)
    ensures TableFor(table, ops) && Ordered(e, Ids(table))
    ensures Entries(Ids(table)) == Enabled(condition)
  {
    hide Stands, FieldLayout.ClearFrom, Valid, Reaches, Collected, Sorted, Ordered, Entries, Enabled;
    table := [];
    ghost var from: seq<nat> := [];
    CollectNone(operations[..], condition);
    assert Ids(table) == [];
    for k := operations.Length downto 0
      invariant TableFor(table, ops) && Collected(operations[..], condition, Ids(table), from, k)
    {
      var op := operations[k].id;
      CollectNext(operations[..], condition, Ids(table), from, k);
      if condition[op] {
        var entry := MakeEntry(ops, op, littleEndian, capacity);
        assert Ids(table + [entry]) == Ids(table) + [op];
        table := table + [entry];
        from := from + [k];
      }
    }
    CollectedAll(operations[..], condition, Ids(table), from, e);
  }

  lemma CollectNone(operations: seq<Slot>, condition: seq<bool>)
    ensures Collected(operations, condition, [], [], |operations|)
  {
  }

  datatype Decoded = Found(op: nat) | Unknown | NotEnough

  /** Operation t is the one that the bytes mean, whatever bytes follow. */
  ghost predicate Means(ops: seq<Operation>, explicit: Edges, enabled: set<nat>, known: seq<Byte>, capacity: nat, t: nat) {
    forall w: seq<Byte> :: Begins(w, known, capacity) ==> Intended(ops, explicit, enabled, w, t)
  }

  /** No operation fits the bytes, whatever bytes follow. */
  ghost predicate Meaningless(ops: seq<Operation>, enabled: set<nat>, known: seq<Byte>, capacity: nat) {
    forall m :: m in enabled && m < |ops| ==> Impossible(known, ops[m].code)
  }

  /** `NCDecode`: the first entry that matches. It finds an operation exactly when the bytes mean
      that operation, fails exactly when they mean none, and asks for more bytes otherwise. */
  method NCDecode(table: seq<Entry>, code: CodeType, ghost ops: seq<Operation>, ghost explicit: Edges)
    returns (r: Decoded)
    requires code.Valid() && ValidOps(ops, code.str.Length) && TableFor(table, ops)
    requires WellOrdered(ops, explicit) && Ordered(Implicit(ops) + explicit, Ids(table))
    ensures forall t :: r == Found(t) <==>
              Means(ops, explicit, Entries(Ids(table)), code.str[..(code.size + 7) / 8], code.str.Length, t)
    ensures r == Unknown <==>
              Meaningless(ops, Entries(Ids(table)), code.str[..(code.size + 7) / 8], code.str.Length)
  {
    hide Certain, Impossible, WellOrdered, Ordered, Means, Meaningless, Valid, Stands, Intended;
    ghost var known, capacity := code.str[..(code.size + 7) / 8], code.str.Length;
    for idx := 0 to |table|
      invariant forall i :: 0 <= i < idx ==> Impossible(known, ops[table[i].op].code)
    {
      var m := MatchMask(code, table[idx], ops[table[idx].op]);
      if m == NotEnoughBytes {
        Undecided(ops, explicit, table, known, capacity, idx);
        return NotEnough;
      }
      if m == Match {
        FoundFirst(ops, explicit, table, known, capacity, idx);
        return Found(table[idx].op);
      }
    }
    FoundNone(ops, explicit, table, known, capacity);
    return Unknown;
  }

  lemma Completion(known: seq<Byte>, capacity: nat) returns (w: seq<Byte>)
    requires |known| <= capacity
    ensures Begins(w, known, capacity)
  {
    w := known + seq(capacity - |known|, i => Zeros(8));
  }

  lemma FoundFirst(ops: seq<Operation>, explicit: Edges, table: seq<Entry>, known: seq<Byte>, capacity: nat, k: nat)
    requires ValidOps(ops, capacity) && TableFor(table, ops) && |known| <= capacity
    requires WellOrdered(ops, explicit) && Ordered(Implicit(ops) + explicit, Ids(table))
    requires k < |table| && Certain(known, ops[table[k].op].code)
    requires forall i :: 0 <= i < k ==> Impossible(known, ops[table[i].op].code)
    ensures forall t :: t == table[k].op <==> Means(ops, explicit, Entries(Ids(table)), known, capacity, t)
    ensures !Meaningless(ops, Entries(Ids(table)), known, capacity)
  {
    hide WellOrdered, Ordered, Intended, Stands, Matches;
    forall w: seq<Byte> | Begins(w, known, capacity)
      ensures Intended(ops, explicit, Entries(Ids(table)), w, table[k].op)
    {
      FirstMatchIntended(ops, explicit, Ids(table), w, k);
    }
    var w := Completion(known, capacity);
    forall t | Means(ops, explicit, Entries(Ids(table)), known, capacity, t) ensures t == table[k].op {
      IntendedUnique(ops, explicit, Entries(Ids(table)), w, t, table[k].op);
    }
    assert Ids(table)[k] in Entries(Ids(table)) && Matches(w, ops[table[k].op].code);
  }

  lemma FoundNone(ops: seq<Operation>, explicit: Edges, table: seq<Entry>, known: seq<Byte>, capacity: nat)
    requires ValidOps(ops, capacity) && TableFor(table, ops) && |known| <= capacity
    requires forall i :: 0 <= i < |table| ==> Impossible(known, ops[table[i].op].code)
    ensures forall t :: !Means(ops, explicit, Entries(Ids(table)), known, capacity, t)
    ensures Meaningless(ops, Entries(Ids(table)), known, capacity)
  {
    var w := Completion(known, capacity);
    forall m | m in Entries(Ids(table)) ensures !Matches(w, ops[m].code) && Impossible(known, ops[m].code) {
      var i :| 0 <= i < |table| && Ids(table)[i] == m;
      assert Impossible(known, ops[table[i].op].code);
    }
  }

  lemma Undecided(ops: seq<Operation>, explicit: Edges, table: seq<Entry>, known: seq<Byte>, capacity: nat, k: nat)
    requires ValidOps(ops, capacity) && TableFor(table, ops) && |known| <= capacity
    requires WellOrdered(ops, explicit) && Ordered(Implicit(ops) + explicit, Ids(table))
    requires k < |table| && !Certain(known, ops[table[k].op].code) && !Impossible(known, ops[table[k].op].code)
    requires forall i :: 0 <= i < k ==> Impossible(known, ops[table[i].op].code)
    ensures forall t :: !Means(ops, explicit, Entries(Ids(table)), known, capacity, t)
    ensures !Meaningless(ops, Entries(Ids(table)), known, capacity)
  {
    hide WellOrdered, Ordered, Stands;
    var c := ops[table[k].op].code;
    assert Ids(table)[k] in Entries(Ids(table));
    var x: seq<Byte> :| Begins(x, known, |c.mask|) && !Matches(x, c);
    var y: seq<Byte> :| Begins(y, known, |c.mask|) && Matches(y, c);
    FirstMatchIntended(ops, explicit, Ids(table), y, k);
    assert !Intended(ops, explicit, Entries(Ids(table)), x, table[k].op);
    forall t ensures !Means(ops, explicit, Entries(Ids(table)), known, capacity, t) {
      if t != table[k].op && Intended(ops, explicit, Entries(Ids(table)), y, t) {
        IntendedUnique(ops, explicit, Entries(Ids(table)), y, t, table[k].op);
      }
    }
  }
}
