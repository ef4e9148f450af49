/** The decode cache on an instruction set given by its patterns: uncached decoding is the scan of the decode
    table, then the parse of the operation found. */
module CachedDecoding {
  import opened Words
  import opened BitAddressing
  import opened Patterns
  import opened Reachability
  import opened Specificity
  import opened FieldLayout
  import opened CodeBuffer
  import opened VariableLength
  import opened CacheRuns
  import DecodeCache
  import DecodeTable
  import Operands
  import Pipeline

  /** Operations with their patterns and fields, the user's order, the decode table, and the sub-decoders. */
  datatype InstructionSet = InstructionSet(
    littleEndian: bool, capacity: nat, ops: seq<Operation>, fields: seq<seq<BitField>>, explicit: Edges,
    table: seq<nat>, minwordsize: nat, sub: seq<SubDecoder>, unit: nat)
  {
    ghost function Order(): Edges {
      Implicit(ops) + explicit
    }

    /** What the generator emits a decoder for. */
    ghost predicate Valid() {
      && 0 < unit && |fields| == |ops| == |sub|
      && ValidOps(ops, capacity) && WellOrdered(ops, explicit)
      && (forall t :: 0 <= t < |ops| ==> ValidOperation(t))
      && (forall i :: 0 <= i < |table| ==> table[i] < |ops|) && Ordered(Order(), table)
    }

    ghost predicate ValidOperation(t: nat)
      requires t < |ops| && |fields| == |ops| == |sub|
    {
      && ValidFields(fields[t]) && OpcodesFirst(fields[t]) && Honest(fields[t], sub[t])
      && Pipeline.Codes(fields[t], littleEndian, ops[t], capacity)
    }

    predicate IsCode(s: seq<bool>) {
      |s| == 8 * capacity
    }
  }

  // ---------- codes as bytes

  /** The bytes that hold a bit string. */
  function Pack(littleEndian: bool, s: seq<bool>): (w: seq<Byte>)
    ensures |w| == |s| / 8
  {
    seq(|s| / 8, i requires 0 <= i < |s| / 8 =>
      seq(8, j requires 0 <= j < 8 => s[8 * i + if littleEndian then j else 7 - j]))
  }

  /** The masked comparison, in the order of the bits. */
  ghost predicate AgreesBefore(littleEndian: bool, c: Code, s: seq<bool>, n: nat) {
    forall q :: 0 <= q < n && q < |s| && StreamBit(littleEndian, c.mask, q) ==> s[q] == StreamBit(littleEndian, c.bits, q)
  }

  lemma MatchesInOrder(littleEndian: bool, op: Operation, capacity: nat, s: seq<bool>)
    requires Patterns.Valid(op, capacity) && |s| == 8 * capacity
    ensures Matches(Pack(littleEndian, s), op.code) <==> AgreesBefore(littleEndian, op.code, s, |s|)
  {
    hide StreamBit, Pack;
    var w, c := Pack(littleEndian, s), op.code;
    MatchesBitwise(w, c);
    if AgreesBefore(littleEndian, c, s, |s|) {
      forall i, j | 0 <= i < capacity && 0 <= j < 8 && c.mask[i][j] ensures w[i][j] == c.bits[i][j] {
        CellInOrder(littleEndian, c, s, i, j);
      }
    }
    if Matches(w, c) {
      forall q | 0 <= q < |s| && StreamBit(littleEndian, c.mask, q) ensures s[q] == StreamBit(littleEndian, c.bits, q) {
        var i, r := q / 8, q % 8;
        assert q == 8 * i + r && 0 <= i < capacity;
        CellInOrder(littleEndian, c, s, i, if littleEndian then r else 7 - r);
      }
    }
  }

  lemma CellInOrder(littleEndian: bool, c: Code, s: seq<bool>, i: nat, j: nat)
    requires |c.mask| == |c.bits| && |s| == 8 * |c.mask| && i < |c.mask| && j < 8
    ensures var q := 8 * i + if littleEndian then j else 7 - j;
            && 0 <= q < |s| && Pack(littleEndian, s)[i][j] == s[q]
            && c.mask[i][j] == StreamBit(littleEndian, c.mask, q) && c.bits[i][j] == StreamBit(littleEndian, c.bits, q)
  {
    var r := if littleEndian then j else 7 - j;
    StreamCell(littleEndian, c.mask, i, r);
    StreamCell(littleEndian, c.bits, i, r);
  }

  // ---------- uncached decoding

  ghost function Parsed(arch: InstructionSet, t: nat, s: seq<bool>): (r: (seq<Item>, nat))
    requires arch.Valid() && arch.IsCode(s) && t < |arch.ops|
    ensures r.1 <= |s|
  {
    assert arch.ValidOperation(t);
    Parse(arch.littleEndian, arch.fields[t], arch.minwordsize, arch.sub[t], s, |arch.fields[t]|)
  }

  ghost function Length(arch: InstructionSet, t: nat, s: seq<bool>): nat
    requires arch.Valid() && arch.IsCode(s) && t < |arch.ops|
  {
    Parsed(arch, t, s).1
  }

  /** `NCDecode`: the first operation of the table that matches, decoded; otherwise the unknown operation,
      which has the whole code. */
  ghost function Uncached(arch: InstructionSet, addr: nat, s: seq<bool>): DecodeCache.Operation {
    if !arch.Valid() || !arch.IsCode(s) then DecodeCache.Operation(|arch.ops|, addr, s, 0, [])
    else
      var k := FirstMatch(arch.ops, arch.table, Pack(arch.littleEndian, s));
      if k == |arch.table| then DecodeCache.Operation(|arch.ops|, addr, s, |s|, [])
      else
        var (items, length) := Parsed(arch, arch.table[k], s);
        DecodeCache.Operation(arch.table[k], addr, s, length, items)
  }

  /** The instruction set as the cache sees it. */
  ghost function Cached(arch: InstructionSet): (isa: DecodeCache.Isa)
    requires arch.Valid()
    ensures isa.Valid() && isa.maxsize == 8 * arch.capacity
    ensures forall a, s :: isa.ncDecode(a, s) == Uncached(arch, a, s)
  {
    DecodeCache.Isa((a: nat, s: seq<bool>) => Uncached(arch, a, s), 8 * arch.capacity, arch.unit)
  }

  /** Operation t is decoded from a code: it matches, and nothing in the table on top of it does. */
  ghost predicate Decodes(arch: InstructionSet, t: nat, s: seq<bool>)
    requires arch.Valid()
  {
    var w := Pack(arch.littleEndian, s);
    && t in arch.table && Matches(w, arch.ops[t].code)
    && forall v :: v in arch.table && Reaches(arch.Order(), v, t) ==> !Matches(w, arch.ops[v].code)
  }

  /** Uncached decoding finds t exactly when t matches and nothing on top of it does, which is when the bytes
      mean t to the scan of `NCDecode`. */
  lemma KindIsMeaning(arch: InstructionSet, addr: nat, s: seq<bool>, t: nat)
    requires arch.Valid() && arch.IsCode(s) && t < |arch.ops|
    ensures Uncached(arch, addr, s).kind == t <==> Decodes(arch, t, s)
    ensures Uncached(arch, addr, s).kind == t <==>
            DecodeTable.Means(arch.ops, arch.explicit, Entries(arch.table), Pack(arch.littleEndian, s), arch.capacity, t)
  {
    hide WellOrdered, Ordered, Matches, Reaches, Implicit, Intended;
    hide InstructionSet.ValidOperation;
    var w := Pack(arch.littleEndian, s);
    var k := FirstMatch(arch.ops, arch.table, w);
    WholeMeans(arch.ops, arch.explicit, Entries(arch.table), w, arch.capacity, t);
    if k < |arch.table| {
      FirstMatchIntended(arch.ops, arch.explicit, arch.table, w, k);
      TopDecodes(arch, s, arch.table[k]);
      if Decodes(arch, t, s) {
        OnlyTopDecodes(arch, s, arch.table[k], t);
      }
      if Intended(arch.ops, arch.explicit, Entries(arch.table), w, t) {
        IntendedUnique(arch.ops, arch.explicit, Entries(arch.table), w, t, arch.table[k]);
      }
    } else {
      NothingMatches(arch, s, t);
    }
  }

  lemma WholeMeans(ops: seq<Operation>, explicit: Edges, enabled: set<nat>, w: seq<Byte>, capacity: nat, t: nat)
    requires |w| == capacity
    ensures DecodeTable.Means(ops, explicit, enabled, w, capacity, t) <==> Intended(ops, explicit, enabled, w, t)
  {
    assert DecodeTable.Begins(w, w, capacity);
    forall x: seq<Byte> | DecodeTable.Begins(x, w, capacity) ensures x == w {
      assert x[..|w|] == w;
    }
  }

  lemma TopDecodes(arch: InstructionSet, s: seq<bool>, t: nat)
    requires arch.Valid() && arch.IsCode(s)
    requires Intended(arch.ops, arch.explicit, Entries(arch.table), Pack(arch.littleEndian, s), t)
    ensures Decodes(arch, t, s)
  {
    var w := Pack(arch.littleEndian, s);
    forall v | v in arch.table && Reaches(arch.Order(), v, t) ensures !Matches(w, arch.ops[v].code) {
      if v != t && Matches(w, arch.ops[v].code) {
        MatchesAreOrdered(arch.ops, arch.explicit, w, t, v);
      }
    }
  }

  lemma OnlyTopDecodes(arch: InstructionSet, s: seq<bool>, top: nat, t: nat)
    requires arch.Valid() && arch.IsCode(s) && Decodes(arch, t, s)
    requires Intended(arch.ops, arch.explicit, Entries(arch.table), Pack(arch.littleEndian, s), top)
    ensures t == top
  {
  }

  lemma NothingMatches(arch: InstructionSet, s: seq<bool>, t: nat)
    requires arch.Valid() && arch.IsCode(s)
    requires forall i :: 0 <= i < |arch.table| ==> !Matches(Pack(arch.littleEndian, s), arch.ops[arch.table[i]].code)
    ensures !Decodes(arch, t, s)
    ensures !Intended(arch.ops, arch.explicit, Entries(arch.table), Pack(arch.littleEndian, s), t)
  {
  }

  // ---------- decoding a code that begins like another one

  /** The answer of a sub-decoder on codes of the size it is given depends on no bit past the operation it
      returns, which is the same condition for its own instruction set. */
  ghost predicate Delimits(fields: seq<BitField>, sub: SubDecoder)
    requires ValidFields(fields)
  {
    forall k, x: seq<bool>, y: seq<bool> :: 0 <= k < |fields| && fields[k].SubOp? && |x| == |y| == fields[k].MaxSize() ==>
      (sub(k, x).length <= |x| && x[..sub(k, x).length] == y[..sub(k, x).length] ==> sub(k, y) == sub(k, x))
  }

  ghost predicate SelfDelimiting(arch: InstructionSet)
    requires arch.Valid()
  {
    forall t :: 0 <= t < |arch.ops| ==> arch.ValidOperation(t) && Delimits(arch.fields[t], arch.sub[t])
  }

  lemma Prefixes<T>(c: seq<T>, d: seq<T>, m: nat, n: nat)
    requires m <= n <= |c| == |d| && c[..n] == d[..n]
    ensures c[..m] == d[..m]
  {
    assert c[..n][..m] == c[..m] && d[..n][..m] == d[..m];
  }

  /** The parse of a code is that of any code that agrees with it up to the end of the parse. */
  lemma {:induction false} ParseOfPrefix(littleEndian: bool, fields: seq<BitField>, minwordsize: nat, sub: SubDecoder,
                                         c: seq<bool>, d: seq<bool>, k: nat)
    requires ValidFields(fields) && Honest(fields, sub) && Delimits(fields, sub) && k <= |fields|
    requires |c| == |d| && Offset(fields, k) <= |c|
    requires var n := Parse(littleEndian, fields, minwordsize, sub, c, k).1; c[..n] == d[..n]
    ensures Parse(littleEndian, fields, minwordsize, sub, d, k) == Parse(littleEndian, fields, minwordsize, sub, c, k)
    decreases k
  {
    hide *;
    if k == 0 {
      NothingParsed(littleEndian, fields, minwordsize, sub, c);
      NothingParsed(littleEndian, fields, minwordsize, sub, d);
    } else {
      ParseNext(littleEndian, fields, minwordsize, sub, c, k - 1);
      ParseNext(littleEndian, fields, minwordsize, sub, d, k - 1);
      var pos := Parse(littleEndian, fields, minwordsize, sub, c, k - 1).1;
      var n := Parse(littleEndian, fields, minwordsize, sub, c, k).1;
      Prefixes(c, d, pos, n);
      ParseOfPrefix(littleEndian, fields, minwordsize, sub, c, d, k - 1);
      FieldOfPrefix(littleEndian, fields, minwordsize, sub, c, d, k - 1, pos);
    }
  }

  lemma FieldOfPrefix(littleEndian: bool, fields: seq<BitField>, minwordsize: nat, sub: SubDecoder,
                      c: seq<bool>, d: seq<bool>, k: nat, pos: nat)
    requires ValidFields(fields) && Honest(fields, sub) && Delimits(fields, sub) && k < |fields|
    requires |c| == |d| && pos + fields[k].MaxSize() <= |c|
    requires var n := pos + ParseField(littleEndian, fields[k], k, minwordsize, sub, c, pos).1;
             n <= |c| && c[..n] == d[..n]
    ensures ParseField(littleEndian, fields[k], k, minwordsize, sub, d, pos)
            == ParseField(littleEndian, fields[k], k, minwordsize, sub, c, pos)
  {
    hide Delimits, Operands.OperandValue, Significant, Operands.MemberSize;
    var f := fields[k];
    var n := pos + ParseField(littleEndian, f, k, minwordsize, sub, c, pos).1;
    if f.SubOp? {
      SubOfPrefix(fields, sub, c, d, k, pos, pos + f.MaxSize());
    } else {
      SameSlices(c, d, pos, n);
    }
  }

  lemma SameSlices(c: seq<bool>, d: seq<bool>, m: nat, n: nat)
    requires m <= n <= |c| == |d| && c[..n] == d[..n]
    ensures c[m..n] == d[m..n]
  {
    assert c[m..n] == c[..n][m..] == d[..n][m..] == d[m..n];
  }

  lemma SubOfPrefix(fields: seq<BitField>, sub: SubDecoder, c: seq<bool>, d: seq<bool>, k: nat, pos: nat, end: nat)
    requires ValidFields(fields) && Delimits(fields, sub) && k < |fields| && fields[k].SubOp? && pos <= end <= |c| == |d|
    requires end - pos == fields[k].MaxSize()
    requires var n := pos + sub(k, c[pos..end]).length; n <= end && c[..n] == d[..n]
    ensures sub(k, d[pos..end]) == sub(k, c[pos..end])
  {
    var x, y := c[pos..end], d[pos..end];
    var n := sub(k, x).length;
    SameSlices(c, d, pos, pos + n);
    assert x[..n] == c[pos..pos + n] && y[..n] == d[pos..pos + n];
  }

  /** The length parsed is one of the lengths of the operation. */
  lemma {:induction false} ParsedLength(littleEndian: bool, fields: seq<BitField>, minwordsize: nat, sub: SubDecoder,
                                        s: seq<bool>, k: nat)
    requires ValidFields(fields) && Honest(fields, sub) && k <= |fields| && Offset(fields, k) <= |s|
    ensures Parse(littleEndian, fields, minwordsize, sub, s, k).1 in Lengths(fields[..k])
    decreases k
  {
    hide *;
    if k == 0 {
      NothingParsed(littleEndian, fields, minwordsize, sub, s);
    } else {
      ParseNext(littleEndian, fields, minwordsize, sub, s, k - 1);
      ParsedLength(littleEndian, fields, minwordsize, sub, s, k - 1);
      var pos := Parse(littleEndian, fields, minwordsize, sub, s, k - 1).1;
      FieldLength(littleEndian, fields, minwordsize, sub, s, k - 1, pos);
    }
  }

  lemma NothingParsed(littleEndian: bool, fields: seq<BitField>, minwordsize: nat, sub: SubDecoder, s: seq<bool>)
    requires ValidFields(fields) && Honest(fields, sub)
    ensures Parse(littleEndian, fields, minwordsize, sub, s, 0) == ([], 0) && 0 in Lengths(fields[..0])
  {
  }

  lemma FieldLength(littleEndian: bool, fields: seq<BitField>, minwordsize: nat, sub: SubDecoder,
                    s: seq<bool>, k: nat, pos: nat)
    requires ValidFields(fields) && Honest(fields, sub) && k < |fields| && pos + fields[k].MaxSize() <= |s|
    requires pos in Lengths(fields[..k])
    ensures pos + ParseField(littleEndian, fields[k], k, minwordsize, sub, s, pos).1 in Lengths(fields[..k + 1])
  {
    assert fields[..k + 1][..k] == fields[..k];
  }

  /** Up to the first sub-operation the parse is at the fixed positions. */
  lemma {:induction false} ParseAtOffset(littleEndian: bool, fields: seq<BitField>, minwordsize: nat, sub: SubDecoder,
                                         s: seq<bool>, k: nat)
    requires ValidFields(fields) && Honest(fields, sub) && k <= |fields| && Offset(fields, k) <= |s|
    requires forall j :: 0 <= j < k ==> !fields[j].SubOp?
    ensures Parse(littleEndian, fields, minwordsize, sub, s, k).1 == Offset(fields, k)
    decreases k
  {
    if k > 0 {
      ParseAtOffset(littleEndian, fields, minwordsize, sub, s, k - 1);
    }
  }

  lemma {:induction false} ParseGoesOn(littleEndian: bool, fields: seq<BitField>, minwordsize: nat, sub: SubDecoder,
                                       s: seq<bool>, j: nat, k: nat)
    requires ValidFields(fields) && Honest(fields, sub) && j <= k <= |fields| && Offset(fields, k) <= |s|
    requires Offset(fields, j) <= |s|
    ensures Parse(littleEndian, fields, minwordsize, sub, s, j).1 <= Parse(littleEndian, fields, minwordsize, sub, s, k).1
    decreases k
  {
    if j < k {
      ParseGoesOn(littleEndian, fields, minwordsize, sub, s, j, k - 1);
    }
  }

  /** An operation has no opcode bit past its length. */
  lemma OpcodesBeforeLength(arch: InstructionSet, t: nat, s: seq<bool>, q: nat)
    requires arch.Valid() && arch.IsCode(s) && t < |arch.ops| && StreamBit(arch.littleEndian, arch.ops[t].code.mask, q)
    ensures q < Length(arch, t, s)
  {
    assert arch.ValidOperation(t);
    hide InstructionSet.Valid, Parse, StreamBit, ReadsBack, Offset, ValidFields, OpcodesFirst, Honest;
    var fields := arch.fields[t];
    if q < Offset(fields, |fields|) {
      var k := RangesTile(arch.littleEndian, fields, q);
      OpcodesOfRange(arch.littleEndian, fields, arch.minwordsize, arch.sub[t], s, k, arch.ops[t].code, q);
    }
  }

  /** The case of a bit in the range of field k. */
  lemma OpcodesOfRange(littleEndian: bool, fields: seq<BitField>, minwordsize: nat, sub: SubDecoder, s: seq<bool>,
                       k: nat, c: Code, q: nat)
    requires ValidFields(fields) && OpcodesFirst(fields) && Honest(fields, sub) && Offset(fields, |fields|) <= |s|
    requires k < |fields| && ReadsBack(littleEndian, fields, k, c.mask, c.bits)
    requires RangeBegin(littleEndian, fields, k) <= StreamPosition(littleEndian, q) < RangeEnd(littleEndian, fields, k)
    requires StreamBit(littleEndian, c.mask, q)
    ensures q < Parse(littleEndian, fields, minwordsize, sub, s, |fields|).1
  {
    OpcodeAt(littleEndian, fields, k, c, q);
    assert forall j :: 0 <= j <= k ==> !fields[j].SubOp?;
    hide *;
    OffsetMonotone(fields, k + 1, |fields|);
    ParseAtOffset(littleEndian, fields, minwordsize, sub, s, k + 1);
    ParseGoesOn(littleEndian, fields, minwordsize, sub, s, k + 1, |fields|);
  }

  /** A mask bit in the range of a field means an opcode there, and lies before the end of the range. */
  lemma OpcodeAt(littleEndian: bool, fields: seq<BitField>, k: nat, c: Code, q: nat)
    requires ValidFields(fields) && k < |fields| && ReadsBack(littleEndian, fields, k, c.mask, c.bits)
    requires RangeBegin(littleEndian, fields, k) <= StreamPosition(littleEndian, q) < RangeEnd(littleEndian, fields, k)
    requires StreamBit(littleEndian, c.mask, q)
    ensures fields[k].HasOpcode() && q < Offset(fields, k + 1)
  {
  }

  // ---------- when the cache is transparent

  /** No operation above the one decoded from a code agrees with the code up to the decoded length: nothing
      that the comparison of the cache does not look at could have made it the one decoded. */
  ghost predicate NothingHides(arch: InstructionSet)
    requires arch.Valid()
  {
    forall t: nat, u: nat, s :: arch.IsCode(s) && Decodes(arch, t, s) && u in arch.table && Reaches(arch.Order(), u, t) ==>
      !AgreesBefore(arch.littleEndian, arch.ops[u].code, s, Length(arch, t, s))
  }

  /** A simpler condition on the patterns: an operation above another one that it overlaps constrains no bit past
      the end of any form of the lower one. */
  ghost predicate MasksWithin(arch: InstructionSet)
    requires arch.Valid()
  {
    forall t: nat, u: nat, n: nat ::
      (t in arch.table && u in arch.table && Reaches(arch.Order(), u, t)
       && !Disjoint(arch.ops[u].code, arch.ops[t].code) && n in Lengths(arch.fields[t])) ==>
      ClearFrom(arch.littleEndian, n, arch.ops[u].code.mask)
  }

  lemma AgreesOnPrefix(littleEndian: bool, c: Code, s: seq<bool>, d: seq<bool>, n: nat)
    requires n <= |s| == |d| && s[..n] == d[..n]
    ensures AgreesBefore(littleEndian, c, s, n) <==> AgreesBefore(littleEndian, c, d, n)
  {
    hide StreamBit;
    forall q | 0 <= q < n ensures s[q] == d[q] {
      assert s[..n][q] == d[..n][q];
    }
  }

  lemma AgreesLess(littleEndian: bool, c: Code, s: seq<bool>, n: nat)
    requires AgreesBefore(littleEndian, c, s, |s|) && n <= |s|
    ensures AgreesBefore(littleEndian, c, s, n)
  {
  }

  lemma LengthFits(arch: InstructionSet, t: nat, s: seq<bool>)
    requires arch.Valid() && arch.IsCode(s) && t < |arch.ops|
    ensures Length(arch, t, s) <= |s| && Length(arch, t, s) in Lengths(arch.fields[t])
  {
    assert arch.ValidOperation(t);
    var fields := arch.fields[t];
    ParsedLength(arch.littleEndian, fields, arch.minwordsize, arch.sub[t], s, |fields|);
    assert fields[..|fields|] == fields;
  }

  lemma TableInside(arch: InstructionSet)
    requires arch.Valid()
    ensures forall v :: v in arch.table ==> v < |arch.ops| == |arch.fields|
  {
  }

  lemma OpsAreValid(arch: InstructionSet, t: nat)
    requires arch.Valid() && t in arch.table
    ensures t < |arch.ops| && Patterns.Valid(arch.ops[t], arch.capacity)
  {
  }

  /** An operation that matches a code matches every code that begins with the decoded bits. */
  lemma StillMatches(arch: InstructionSet, t: nat, c: seq<bool>, d: seq<bool>)
    requires arch.Valid() && arch.IsCode(c) && arch.IsCode(d) && t in arch.table
    requires Matches(Pack(arch.littleEndian, c), arch.ops[t].code)
    requires var n := Length(arch, t, c); n <= |c| && c[..n] == d[..n]
    ensures Matches(Pack(arch.littleEndian, d), arch.ops[t].code)
  {
    TableInside(arch);
    hide InstructionSet.Valid, StreamBit, Pack, Matches, Length;
    var op, n := arch.ops[t], Length(arch, t, c);
    OpsAreValid(arch, t);
    MatchesInOrder(arch.littleEndian, op, arch.capacity, c);
    MatchesInOrder(arch.littleEndian, op, arch.capacity, d);
    forall q | 0 <= q < |d| && StreamBit(arch.littleEndian, op.code.mask, q)
      ensures d[q] == StreamBit(arch.littleEndian, op.code.bits, q)
    {
      OpcodesBeforeLength(arch, t, c, q);
      assert c[..n][q] == d[..n][q];
    }
  }

  /** A code with the constraints of an operation from a place on. */
  function Completed(littleEndian: bool, c: Code, s: seq<bool>, n: nat): (d: seq<bool>)
    ensures |d| == |s|
  {
    seq(|s|, q requires 0 <= q < |s| =>
      if n <= q && StreamBit(littleEndian, c.mask, q) then StreamBit(littleEndian, c.bits, q) else s[q])
  }

  lemma CompletedMatches(littleEndian: bool, op: Operation, capacity: nat, s: seq<bool>, n: nat)
    requires Patterns.Valid(op, capacity) && |s| == 8 * capacity && n <= |s|
    requires AgreesBefore(littleEndian, op.code, s, n)
    ensures Matches(Pack(littleEndian, Completed(littleEndian, op.code, s, n)), op.code)
    ensures Completed(littleEndian, op.code, s, n)[..n] == s[..n]
  {
    hide StreamBit, Matches, Pack;
    MatchesInOrder(littleEndian, op, capacity, Completed(littleEndian, op.code, s, n));
  }

  /** The simpler condition implies the exact one. */
  lemma MasksWithinSuffices(arch: InstructionSet)
    requires arch.Valid() && MasksWithin(arch)
    ensures NothingHides(arch)
  {
    TableInside(arch);
    hide InstructionSet.Valid, AgreesBefore, Reaches, InstructionSet.Order, Matches, Pack, Lengths, Length, ClearFrom;
    forall t: nat, u: nat, s | arch.IsCode(s) && Decodes(arch, t, s) && u in arch.table && Reaches(arch.Order(), u, t)
      ensures !AgreesBefore(arch.littleEndian, arch.ops[u].code, s, Length(arch, t, s))
    {
      var n, op := Length(arch, t, s), arch.ops[u];
      OpsAreValid(arch, t);
      OpsAreValid(arch, u);
      LengthFits(arch, t, s);
      if AgreesBefore(arch.littleEndian, op.code, s, n) {
        CompletedMatches(arch.littleEndian, op, arch.capacity, s, n);
        var d := Completed(arch.littleEndian, op.code, s, n);
        StillMatches(arch, t, s, d);
        assert !Disjoint(op.code, arch.ops[t].code);
        NothingToComplete(arch.littleEndian, op.code, s, n);
      }
    }
  }

  lemma NothingToComplete(littleEndian: bool, c: Code, s: seq<bool>, n: nat)
    requires ClearFrom(littleEndian, n, c.mask)
    ensures Completed(littleEndian, c, s, n) == s
  {
    forall q | 0 <= q < |s| ensures Completed(littleEndian, c, s, n)[q] == s[q] {
    }
  }

  /** What decodes from a code decodes from every code that begins with the decoded bits, if nothing hides. */
  lemma DecodesFromPrefix(arch: InstructionSet, t: nat, c: seq<bool>, d: seq<bool>)
    requires arch.Valid() && NothingHides(arch) && arch.IsCode(c) && arch.IsCode(d) && Decodes(arch, t, c)
    requires var n := Length(arch, t, c); n <= |c| && c[..n] == d[..n]
    ensures Decodes(arch, t, d)
  {
    TableInside(arch);
    hide InstructionSet.Valid, AgreesBefore, Reaches, InstructionSet.Order, Matches, Pack, Length;
    StillMatches(arch, t, c, d);
    var n := Length(arch, t, c);
    forall v | v in arch.table && Reaches(arch.Order(), v, t) ensures !Matches(Pack(arch.littleEndian, d), arch.ops[v].code) {
      if Matches(Pack(arch.littleEndian, d), arch.ops[v].code) {
        OpsAreValid(arch, v);
        MatchesInOrder(arch.littleEndian, arch.ops[v], arch.capacity, d);
        AgreesLess(arch.littleEndian, arch.ops[v].code, d, n);
        AgreesOnPrefix(arch.littleEndian, arch.ops[v].code, c, d, n);
      }
    }
  }

  lemma UncachedIs(arch: InstructionSet, a: nat, s: seq<bool>)
    requires arch.Valid() && arch.IsCode(s)
    ensures var op := Uncached(arch, a, s);
            && op.addr == a && op.encoding == s && op.kind <= |arch.ops|
            && (op.kind < |arch.ops| ==> (op.operands, op.length) == Parsed(arch, op.kind, s))
            && (op.kind == |arch.ops| ==> op.length == |s|)
  {
  }

  /** No operation parses two codes differently that agree up to the end of its parse. */
  ghost predicate ParsesAlike(arch: InstructionSet, c: seq<bool>, d: seq<bool>)
    requires arch.Valid() && arch.IsCode(c) && arch.IsCode(d)
  {
    forall t: nat :: t < |arch.ops| && c[..Length(arch, t, c)] == d[..Length(arch, t, c)] ==> Parsed(arch, t, d) == Parsed(arch, t, c)
  }

  /** If nothing hides, a code that the cache takes for a cached one decodes like it. */
  lemma HitDecodesAlike(arch: InstructionSet, a: nat, c: seq<bool>, d: seq<bool>)
    requires arch.Valid() && NothingHides(arch) && arch.IsCode(c) && arch.IsCode(d) && ParsesAlike(arch, c, d)
    requires Cached(arch).Match(Uncached(arch, a, c), a, d)
    ensures Same(Uncached(arch, a, c), Uncached(arch, a, d))
  {
    UncachedIs(arch, a, c);
    UncachedIs(arch, a, d);
    hide InstructionSet.Valid, NothingHides, Decodes, Uncached, Parsed, Length;
    var t := Uncached(arch, a, c).kind;
    if t == |arch.ops| {
      assert c[..|c|] == c && d[..|c|] == d;
    } else {
      LengthIs(arch, t, c);
      KindIsMeaning(arch, a, c, t);
      KindIsMeaning(arch, a, d, t);
      DecodesFromPrefix(arch, t, c, d);
    }
  }

  lemma LengthIs(arch: InstructionSet, t: nat, s: seq<bool>)
    requires arch.Valid() && arch.IsCode(s) && t < |arch.ops|
    ensures Length(arch, t, s) == Parsed(arch, t, s).1 <= |s|
  {
  }

  /** With self-delimiting sub-decoders all codes are parsed so ... */
  lemma DelimitedParsesAlike(arch: InstructionSet, c: seq<bool>, d: seq<bool>)
    requires arch.Valid() && SelfDelimiting(arch) && arch.IsCode(c) && arch.IsCode(d)
    ensures ParsesAlike(arch, c, d)
  {
    hide Delimits;
    forall t: nat | t < |arch.ops| && c[..Length(arch, t, c)] == d[..Length(arch, t, c)]
      ensures Parsed(arch, t, d) == Parsed(arch, t, c)
    {
      assert arch.ValidOperation(t);
      hide Parse;
      ParseOfPrefix(arch.littleEndian, arch.fields[t], arch.minwordsize, arch.sub[t], c, d, |arch.fields[t]|);
    }
  }

  /** All forms of all operations have n bits. */
  ghost predicate FixedLength(arch: InstructionSet, n: nat)
    requires arch.Valid()
  {
    forall t :: 0 <= t < |arch.ops| ==> Lengths(arch.fields[t]) == {n}
  }

  lemma FixedSize(arch: InstructionSet, n: nat, t: nat)
    requires arch.Valid() && FixedLength(arch, n) && t < |arch.ops|
    ensures arch.ValidOperation(t) && Offset(arch.fields[t], |arch.fields[t]|) == n <= 8 * arch.capacity
    ensures ClearFrom(arch.littleEndian, n, arch.ops[t].code.mask)
  {
    assert arch.ValidOperation(t);
    hide ReadsBack, ClearFrom, Offset;
    LongestIsOffset(arch.fields[t]);
  }

  /** ... and so they are on a fixed-length instruction set, as no sub-decoder is given a bit past the end. */
  lemma FixedParsesAlike(arch: InstructionSet, n: nat, c: seq<bool>, d: seq<bool>)
    requires arch.Valid() && FixedLength(arch, n) && arch.IsCode(c) && arch.IsCode(d)
    ensures ParsesAlike(arch, c, d)
  {
    forall t: nat | t < |arch.ops| && c[..Length(arch, t, c)] == d[..Length(arch, t, c)]
      ensures Parsed(arch, t, d) == Parsed(arch, t, c)
    {
      FixedSize(arch, n, t);
      LengthFits(arch, t, c);
      hide Parse, InstructionSet.Valid, Lengths, Offset;
      ParseOfOffset(arch.littleEndian, arch.fields[t], arch.minwordsize, arch.sub[t], c, d, |arch.fields[t]|);
    }
  }

  lemma {:induction false} ParseOfOffset(littleEndian: bool, fields: seq<BitField>, minwordsize: nat, sub: SubDecoder,
                                         c: seq<bool>, d: seq<bool>, k: nat)
    requires ValidFields(fields) && Honest(fields, sub) && k <= |fields|
    requires |c| == |d| && Offset(fields, k) <= |c| && c[..Offset(fields, k)] == d[..Offset(fields, k)]
    ensures Parse(littleEndian, fields, minwordsize, sub, d, k) == Parse(littleEndian, fields, minwordsize, sub, c, k)
    decreases k
  {
    hide *;
    if k == 0 {
      NothingParsed(littleEndian, fields, minwordsize, sub, c);
      NothingParsed(littleEndian, fields, minwordsize, sub, d);
    } else {
      ParseNext(littleEndian, fields, minwordsize, sub, c, k - 1);
      ParseNext(littleEndian, fields, minwordsize, sub, d, k - 1);
      Prefixes(c, d, Offset(fields, k - 1), Offset(fields, k));
      ParseOfOffset(littleEndian, fields, minwordsize, sub, c, d, k - 1);
      FieldOfOffset(littleEndian, fields, minwordsize, sub, c, d, k - 1, Parse(littleEndian, fields, minwordsize, sub, c, k - 1).1);
    }
  }

  lemma FieldOfOffset(littleEndian: bool, fields: seq<BitField>, minwordsize: nat, sub: SubDecoder,
                      c: seq<bool>, d: seq<bool>, k: nat, pos: nat)
    requires ValidFields(fields) && Honest(fields, sub) && k < |fields| && pos <= Offset(fields, k)
    requires |c| == |d| && Offset(fields, k + 1) <= |c| && c[..Offset(fields, k + 1)] == d[..Offset(fields, k + 1)]
    ensures ParseField(littleEndian, fields[k], k, minwordsize, sub, d, pos)
            == ParseField(littleEndian, fields[k], k, minwordsize, sub, c, pos)
  {
    hide Operands.OperandValue, Significant, Operands.MemberSize;
    var end := pos + fields[k].MaxSize();
    Prefixes(c, d, end, Offset(fields, k + 1));
    SameSlices(c, d, pos, end);
  }

  /** If something hides, some code that the cache takes for a cached one decodes differently. */
  lemma HiddenIsLost(arch: InstructionSet, a: nat, t: nat, u: nat, s: seq<bool>)
    requires arch.Valid() && arch.IsCode(s) && Decodes(arch, t, s) && u in arch.table && Reaches(arch.Order(), u, t)
    requires AgreesBefore(arch.littleEndian, arch.ops[u].code, s, Length(arch, t, s))
    ensures var d := Completed(arch.littleEndian, arch.ops[u].code, s, Length(arch, t, s));
            && arch.IsCode(d) && Cached(arch).Match(Uncached(arch, a, s), a, d)
            && !Same(Uncached(arch, a, s), Uncached(arch, a, d))
  {
    OpsAreValid(arch, t);
    OpsAreValid(arch, u);
    hide InstructionSet.Valid, Uncached, Parsed, Length, AgreesBefore, Completed, Matches, Pack, InstructionSet.Order, Reaches;
    var n := Length(arch, t, s);
    var d := Completed(arch.littleEndian, arch.ops[u].code, s, n);
    LengthIs(arch, t, s);
    CompletedMatches(arch.littleEndian, arch.ops[u], arch.capacity, s, n);
    UncachedIs(arch, a, s);
    KindIsMeaning(arch, a, s, t);
    KindIsMeaning(arch, a, d, t);
  }

  lemma DeterminedIfNothingHides(arch: InstructionSet)
    requires arch.Valid() && SelfDelimiting(arch) && NothingHides(arch)
    ensures PrefixDetermined(Cached(arch))
  {
    hide InstructionSet.Valid, SelfDelimiting, Uncached, NothingHides, ParsesAlike;
    hide DecodeCache.Isa.Match, Same;
    var isa := Cached(arch);
    forall a, c, d | isa.IsCode(c) && isa.IsCode(d) && isa.Match(isa.ncDecode(a, c), a, d)
      ensures Same(isa.ncDecode(a, c), isa.ncDecode(a, d))
    {
      DelimitedParsesAlike(arch, c, d);
      HitDecodesAlike(arch, a, c, d);
    }
  }

  lemma NotDeterminedIfHidden(arch: InstructionSet)
    requires arch.Valid() && !NothingHides(arch)
    ensures !PrefixDetermined(Cached(arch))
  {
    TableInside(arch);
    hide InstructionSet.Valid, Decodes, Uncached, Length, AgreesBefore, Completed, InstructionSet.Order, Reaches;
    hide DecodeCache.Isa.Match, Same;
    var isa := Cached(arch);
    var t: nat, u: nat, s :| arch.IsCode(s) && Decodes(arch, t, s) && u in arch.table && Reaches(arch.Order(), u, t)
                             && AgreesBefore(arch.littleEndian, arch.ops[u].code, s, Length(arch, t, s));
    HiddenIsLost(arch, 0, t, u, s);
    var d := Completed(arch.littleEndian, arch.ops[u].code, s, Length(arch, t, s));
    assert isa.ncDecode(0, s) == Uncached(arch, 0, s) && isa.ncDecode(0, d) == Uncached(arch, 0, d);
    assert isa.IsCode(s) && isa.IsCode(d);
  }

  /** The exact condition: with sub-decoders that delimit themselves, cached decoding agrees with uncached
      decoding after every run if and only if no operation is hidden by the length of one below it. */
  lemma TransparentIffNothingHides(arch: InstructionSet)
    requires arch.Valid() && SelfDelimiting(arch)
    ensures AlwaysAgrees(Cached(arch)) <==> NothingHides(arch)
  {
    hide *;
    AgreesIffDetermined(Cached(arch));
    if NothingHides(arch) {
      DeterminedIfNothingHides(arch);
    } else {
      NotDeterminedIfHidden(arch);
    }
  }

  lemma FixedMasksWithin(arch: InstructionSet, n: nat)
    requires arch.Valid() && FixedLength(arch, n)
    ensures MasksWithin(arch)
  {
    TableInside(arch);
    hide InstructionSet.Valid, Reaches, InstructionSet.Order, Disjoint, ClearFrom, Lengths;
    forall u: nat | u in arch.table ensures ClearFrom(arch.littleEndian, n, arch.ops[u].code.mask) {
      FixedSize(arch, n, u);
    }
  }

  /** On a fixed-length instruction set cached decoding agrees with uncached decoding after every run, whatever
      its patterns and sub-decoders are. */
  lemma FixedLengthIsTransparent(arch: InstructionSet, n: nat)
    requires arch.Valid() && FixedLength(arch, n)
    ensures AlwaysAgrees(Cached(arch))
  {
    hide *;
    FixedMasksWithin(arch, n);
    MasksWithinSuffices(arch);
    FixedDetermined(arch, n);
    AgreesIffDetermined(Cached(arch));
  }

  lemma FixedDetermined(arch: InstructionSet, n: nat)
    requires arch.Valid() && FixedLength(arch, n) && NothingHides(arch)
    ensures PrefixDetermined(Cached(arch))
  {
    hide InstructionSet.Valid, Uncached, NothingHides, FixedLength, ParsesAlike;
    hide DecodeCache.Isa.Match, Same;
    var isa := Cached(arch);
    forall a, c, d | isa.IsCode(c) && isa.IsCode(d) && isa.Match(isa.ncDecode(a, c), a, d)
      ensures Same(isa.ncDecode(a, c), isa.ncDecode(a, d))
    {
      FixedParsesAlike(arch, n, c, d);
      HitDecodesAlike(arch, a, c, d);
    }
  }

  // ---------- an instruction set on which the cache is not transparent

  const ONE: Byte := [true, false, false, false, false, false, false, false]
  const TWO: Byte := [false, true, false, false, false, false, false, false]
  const THREE: Byte := [true, true, false, false, false, false, false, false]

  /** An 8-bit operation 01, and a 16-bit one 01 02 above it. */
  const SHORT_AND_LONG := InstructionSet(
    true, 2,
    [Operation.Operation(Code([Ones(8, 8), Zeros(8)], [ONE, Zeros(8)]), 8),
     Operation.Operation(Code([Ones(8, 8), Ones(8, 8)], [ONE, TWO]), 16)],
    [[Opcode(8, Cast(ONE, 64))], [Opcode(8, Cast(ONE, 64)), Opcode(8, Cast(TWO, 64))]],
    {}, [1, 0], 8, [(k, s) => SubOperation(0, 0), (k, s) => SubOperation(0, 0)], 1)

  lemma SampleOps()
    ensures var ops := SHORT_AND_LONG.ops;
            && |ops| == 2 && ValidOps(ops, 2) && !Disjoint(ops[1].code, ops[0].code)
            && StrictSubset(ops[1].code, ops[0].code)
  {
    var a, b := SHORT_AND_LONG.ops[0], SHORT_AND_LONG.ops[1];
    assert Patterns.Valid(a, 2) && Patterns.Valid(b, 2);
    HasWord(b, 2);
    assert forall i, j :: !Clash(a.code, b.code, i, j) && !Clash(b.code, a.code, i, j);
    assert forall i, j :: !Frees(b.code, a.code, i, j);
    NothingFreedIsSubset(b, a, 2);
    assert Frees(a.code, b.code, 1, 0);
    var w := FreeBitWitness(a, b, 2, 1, 0);
  }

  lemma SampleOrder()
    ensures WellOrdered(SHORT_AND_LONG.ops, {}) && Ordered(SHORT_AND_LONG.Order(), [1, 0])
    ensures Reaches(SHORT_AND_LONG.Order(), 1, 0)
  {
    SampleOps();
    var ops, e := SHORT_AND_LONG.ops, SHORT_AND_LONG.Order();
    hide Matches, Disjoint, Subset;
    forall x: nat, y: nat | (x, y) in e ensures x == 1 && y == 0 {
    }
    assert Within(ops, 1, 0) && (1, 0) in e;
    EdgeReaches(e, 1, 0);
    RankFalls(e, (x: nat) => x);
    SubsetOfItself(ops[0].code);
    SubsetOfItself(ops[1].code);
    assert e == Implicit(ops) + {};
    forall a, b ensures !Overlapping(ops, a, b) {
    }
    assert NoDuplicates(ops) && Resolved(ops, e) && Acyclic(e);
  }

  lemma SubsetOfItself(c: Code)
    ensures Subset(c, c)
  {
  }

  lemma SampleCodes(t: nat)
    requires t < 2
    ensures ValidFields(SHORT_AND_LONG.fields[t])
    ensures Pipeline.Codes(SHORT_AND_LONG.fields[t], true, SHORT_AND_LONG.ops[t], 2)
  {
    var fields, op := SHORT_AND_LONG.fields[t], SHORT_AND_LONG.ops[t];
    assert Offset(fields, 1) == 8;
    assert t == 1 ==> Offset(fields, 2) == 16;
    forall k | 0 <= k < |fields| ensures ReadsBack(true, fields, k, op.code.mask, op.code.bits) {
      assert RangeBegin(true, fields, k) == 8 * k && RangeEnd(true, fields, k) == 8 * k + 8;
    }
  }

  lemma SampleValid()
    ensures SHORT_AND_LONG.Valid() && SelfDelimiting(SHORT_AND_LONG)
  {
    SampleOps();
    SampleOrder();
    SampleCodes(0);
    SampleCodes(1);
    hide WellOrdered, Ordered, Pipeline.Codes;
  }

  lemma SampleBytes(b: Byte)
    ensures Pack(true, ONE + b) == [ONE, b]
  {
    var w := Pack(true, ONE + b);
    assert |w| == 2;
    forall j | 0 <= j < 8 ensures w[0][j] == ONE[j] && w[1][j] == b[j] {
      assert w[0][j] == (ONE + b)[8 * 0 + j] && w[1][j] == (ONE + b)[8 * 1 + j];
    }
    assert w[0] == ONE && w[1] == b;
  }

  lemma SampleMatches()
    ensures var ops := SHORT_AND_LONG.ops;
            && Matches([ONE, THREE], ops[0].code) && !Matches([ONE, THREE], ops[1].code)
            && Matches([ONE, TWO], ops[1].code)
  {
    var ops := SHORT_AND_LONG.ops;
    forall b: Byte ensures And(b, Ones(8, 8)) == b {
    }
    assert And(THREE, Ones(8, 8))[0] != TWO[0];
  }

  lemma SampleScan()
    ensures var (ops, table) := (SHORT_AND_LONG.ops, SHORT_AND_LONG.table);
            FirstMatch(ops, table, [ONE, THREE]) == 1 && FirstMatch(ops, table, [ONE, TWO]) == 0
  {
    SampleMatches();
    hide Matches;
    var table := SHORT_AND_LONG.table;
    assert table[0] == 1 && table[1] == 0;
  }

  /** The short operation is decoded from 01 03, the long one from 01 02. */
  lemma ShortAndLongDecoded(a: nat)
    requires SHORT_AND_LONG.Valid()
    ensures var op := Uncached(SHORT_AND_LONG, a, ONE + THREE);
            && op.kind == 0 && op.addr == a && op.length == 8 && op.encoding == ONE + THREE
            && Uncached(SHORT_AND_LONG, a, ONE + TWO).kind == 1
  {
    SampleBytes(THREE);
    SampleBytes(TWO);
    SampleScan();
    hide InstructionSet.Valid, FirstMatch, Pack;
    var s := ONE + THREE;
    assert Parsed(SHORT_AND_LONG, 0, s).1 == 8 by { ShortLength(s); }
  }

  lemma ShortLength(s: seq<bool>)
    requires SHORT_AND_LONG.Valid() && |s| == 16
    ensures Parsed(SHORT_AND_LONG, 0, s).1 == 8
  {
    var fields := SHORT_AND_LONG.fields[0];
    assert SHORT_AND_LONG.ValidOperation(0);
    assert Offset(fields, 1) == 8;
    ParseAtOffset(true, fields, 8, SHORT_AND_LONG.sub[0], s, 1);
  }

  lemma NotAlways(isa: DecodeCache.Isa, a: nat, c: seq<bool>, d: seq<bool>)
    requires isa.Valid() && isa.IsCode(c) && isa.IsCode(d) && isa.Match(isa.ncDecode(a, c), a, d)
    requires !Same(isa.ncDecode(a, c), isa.ncDecode(a, d))
    ensures !AlwaysAgrees(isa)
  {
    hide AlwaysAgrees, Same, DecodeCache.Isa.Match;
    AgreesIffDetermined(isa);
  }

  /** Decoding 01 03 and then 01 02 at the same address gives the short operation twice, where uncached
      decoding gives the long one. */
  lemma ShortHidesLong(a: nat)
    ensures SHORT_AND_LONG.Valid() && !AlwaysAgrees(Cached(SHORT_AND_LONG))
    ensures var isa := Cached(SHORT_AND_LONG);
            && DecodeCache.Decoded(isa, CacheAfter(isa, [DecodeAt(a, ONE + THREE)]), a, ONE + TWO).kind == 0
            && Uncached(SHORT_AND_LONG, a, ONE + TWO).kind == 1
  {
    SampleValid();
    ShortAndLongDecoded(a);
    hide InstructionSet.Valid, Uncached, AlwaysAgrees, DecodeCache.Decoded, CacheAfter;
    var isa, c, d := Cached(SHORT_AND_LONG), ONE + THREE, ONE + TWO;
    assert isa.ncDecode(a, c) == Uncached(SHORT_AND_LONG, a, c) && isa.ncDecode(a, d) == Uncached(SHORT_AND_LONG, a, d);
    assert c[..8] == ONE == d[..8];
    DecodedOnce(isa, a, c, d);
    NotAlways(isa, a, c, d);
  }
}
