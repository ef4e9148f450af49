/** The fields of an operation: where they lie, how long the operation can be, and the code that
    its opcode fields make. */
module FieldLayout {
  import opened Words
  import opened BitAddressing
  import opened Wrappers
  import Patterns

  /** The kinds of bit fields. A sub-operation field takes one of several sizes. */
  datatype BitField =
    | Opcode(size: nat, value: Word)
    | SpecializedOperand(size: nat, value: Word, lshift: nat, finalSize: nat, sext: bool)
    | Operand(size: nat, lshift: nat, finalSize: nat, sext: bool)
    | Unused(size: nat)
    | Separator
    | SubOp(sizes: set<nat>)
  {
    predicate HasOpcode() { Opcode? || SpecializedOperand? }

    /** A specialized operand is an operand too. */
    predicate IsOperand() { Operand? || SpecializedOperand? }

    /** A 64-bit value for opcodes, and at least one size for sub-operations. */
    predicate Valid() {
      && (HasOpcode() ==> size <= 64 && |value| == 64)
      && (SubOp? ==> sizes != {})
    }

    ghost function MaxSize(): nat
      requires Valid()
    {
      match this
      case SubOp(s) => Largest(s)
      case Separator => 0
      case _ => size
    }
  }

  ghost predicate IsLargest(s: set<nat>, m: nat) {
    m in s && forall x :: x in s ==> x <= m
  }

  lemma {:induction false} HasLargest(s: set<nat>)
    requires s != {}
    ensures exists m :: IsLargest(s, m)
    decreases s
  {
    var x :| x in s;
    if s == {x} {
      assert IsLargest(s, x);
    } else {
      var rest := s - {x};
      assert rest != {};
      HasLargest(rest);
      var m :| IsLargest(rest, m);
      assert forall y :: y in s ==> y == x || y in rest;
      assert IsLargest(s, if x < m then m else x);
    }
  }

  ghost function Largest(s: set<nat>): (m: nat)
    requires s != {}
    ensures IsLargest(s, m)
  {
    HasLargest(s);
    var m :| IsLargest(s, m);
    m
  }

  ghost predicate ValidFields(fields: seq<BitField>) {
    forall k :: 0 <= k < |fields| ==> fields[k].Valid()
  }

  /** The maximum sizes of the first fields, added up. */
  ghost function Offset(fields: seq<BitField>, k: nat): nat
    requires k <= |fields| && ValidFields(fields)
  {
    if k == 0 then 0 else Offset(fields, k - 1) + fields[k - 1].MaxSize()
  }

  lemma {:induction false} OffsetMonotone(fields: seq<BitField>, j: nat, k: nat)
    requires j <= k <= |fields| && ValidFields(fields)
    ensures Offset(fields, j) <= Offset(fields, k)
    decreases k
  {
    if j < k {
      OffsetMonotone(fields, j, k - 1);
    }
  }

  // ---------- sizes

  function Sums(s: set<nat>, t: set<nat>): set<nat> {
    set x, y | x in s && y in t :: x + y
  }

  /** All the lengths an operation can have: one size chosen for every field. */
  ghost function Lengths(fields: seq<BitField>): set<nat> {
    if fields == [] then {0}
    else
      var f := fields[|fields| - 1];
      Sums(Lengths(fields[..|fields| - 1]), match f case SubOp(s) => s case Separator => {0} case _ => {f.size})
  }

  /** The longest of them is the end of the last field. */
  lemma {:induction false} LongestIsOffset(fields: seq<BitField>)
    requires ValidFields(fields)
    ensures IsLargest(Lengths(fields), Offset(fields, |fields|))
    decreases |fields|
  {
    if fields != [] {
      var n := |fields| - 1;
      LongestIsOffset(fields[..n]);
      OffsetPrefix(fields, n, n);
      assert Offset(fields, n) + fields[n].MaxSize() in Lengths(fields);
    }
  }

  lemma {:induction false} OffsetPrefix(fields: seq<BitField>, n: nat, k: nat)
    requires k <= n <= |fields| && ValidFields(fields)
    ensures Offset(fields[..n], k) == Offset(fields, k)
    decreases k
  {
    if k > 0 {
      OffsetPrefix(fields, n, k - 1);
    }
  }

  /** The size part of `finalize`: fixed sizes are summed apart from the alternatives. */
  method Sizes(fields: seq<BitField>) returns (size: nat, vlen: bool, lengths: set<nat>)
    requires ValidFields(fields)
    ensures size == Offset(fields, |fields|)
    ensures vlen <==> exists k :: 0 <= k < |fields| && fields[k].SubOp?
    ensures lengths == Lengths(fields)
  {
    hide Sums, Lengths;
    vlen := false;
    var common: nat := 0;
    var insnsizes: set<nat> := {0};
    LengthsStart(fields);
    for k := 0 to |fields|
      invariant vlen <==> exists j :: 0 <= j < k && fields[j].SubOp?
      invariant Sums(insnsizes, {common}) == Lengths(fields[..k])
    {
      LengthsNext(fields, k, insnsizes, common);
      if fields[k].SubOp? {
        vlen := true;
        insnsizes := Sums(insnsizes, fields[k].sizes);
      } else if !fields[k].Separator? {
        common := common + fields[k].size;
      }
    }
    assert fields[..|fields|] == fields;
    lengths := Sums(insnsizes, {common});
    LongestIsOffset(fields);
    SumsOne(insnsizes, common, Offset(fields, |fields|));
    var longest := MaxOf(insnsizes);
    size := longest + common;
    LargestShifted(insnsizes, common, longest);
  }

  lemma SumsOne(s: set<nat>, c: nat, m: nat)
    ensures m in Sums(s, {c}) ==> s != {}
  {
  }

  lemma LargestShifted(s: set<nat>, c: nat, m: nat)
    requires IsLargest(s, m)
    ensures IsLargest(Sums(s, {c}), m + c)
  {
    assert m + c in Sums(s, {c});
  }

  lemma LengthsStart(fields: seq<BitField>)
    ensures Sums({0}, {0}) == Lengths(fields[..0])
  {
  }

  lemma LengthsNext(fields: seq<BitField>, k: nat, s: set<nat>, c: nat)
    requires k < |fields| && Sums(s, {c}) == Lengths(fields[..k])
    ensures fields[k].SubOp? ==>
              Lengths(fields[..k + 1]) == Sums(Sums(s, fields[k].sizes), {c})
    ensures fields[k].Separator? ==> Lengths(fields[..k + 1]) == Sums(s, {c})
    ensures !fields[k].SubOp? && !fields[k].Separator? ==> Lengths(fields[..k + 1]) == Sums(s, {c + fields[k].size})
  {
    hide Sums;
    assert fields[..k + 1][..k] == fields[..k];
    match fields[k]
    case SubOp(sizes) =>
      SumsSwap(s, {c}, sizes);
    case Separator =>
      SumsZero(Lengths(fields[..k]));
    case f =>
      SumsShift(s, c, fields[k].size);
  }

  method MaxOf(s: set<nat>) returns (m: nat)
    requires s != {}
    ensures IsLargest(s, m)
  {
    m :| m in s;
    var rest := s - {m};
    ghost var done: set<nat> := {m};
    while rest != {}
      invariant done + rest == s && IsLargest(done, m)
      decreases rest
    {
      var x :| x in rest;
      rest := rest - {x};
      done := done + {x};
      if m < x { m := x; }
    }
  }

  lemma SumsSwap(a: set<nat>, c: set<nat>, s: set<nat>)
    ensures Sums(Sums(a, s), c) == Sums(Sums(a, c), s)
  {
    forall n | n in Sums(Sums(a, s), c) ensures n in Sums(Sums(a, c), s) {
      var xy, z :| xy in Sums(a, s) && z in c && n == xy + z;
      var x, y :| x in a && y in s && xy == x + y;
      assert x + z in Sums(a, c);
    }
    forall n | n in Sums(Sums(a, c), s) ensures n in Sums(Sums(a, s), c) {
      var xz, y :| xz in Sums(a, c) && y in s && n == xz + y;
      var x, z :| x in a && z in c && xz == x + z;
      assert x + y in Sums(a, s);
    }
  }

  lemma SumsZero(s: set<nat>)
    ensures Sums(s, {0}) == s
  {
  }

  lemma SumsShift(a: set<nat>, c: nat, d: nat)
    ensures Sums(Sums(a, {c}), {d}) == Sums(a, {c + d})
  {
    forall n | n in Sums(a, {c + d}) ensures n in Sums(Sums(a, {c}), {d}) {
      var x :| x in a && n == x + (c + d);
      assert x + c in Sums(a, {c});
    }
  }

  // ---------- positions

  /** The range of positions of a field: fields follow one another away from 0. */
  ghost function RangeBegin(littleEndian: bool, fields: seq<BitField>, k: nat): int
    requires k < |fields| && ValidFields(fields)
  {
    if littleEndian then Offset(fields, k) else -(Offset(fields, k + 1) as int)
  }

  ghost function RangeEnd(littleEndian: bool, fields: seq<BitField>, k: nat): int
    requires k < |fields| && ValidFields(fields)
  {
    if littleEndian then Offset(fields, k + 1) else -(Offset(fields, k) as int)
  }

  class FieldIterator {
    const bitfields: seq<BitField>
    const littleEndian: bool
    var nbf: nat
    var beg: int
    var end: int

    ghost predicate Valid()
      reads this
    {
      && ValidFields(bitfields) && nbf <= |bitfields|
      && (nbf == 0 ==> beg == end == 0)
      && (nbf > 0 ==> beg == RangeBegin(littleEndian, bitfields, nbf - 1)
                      && end == RangeEnd(littleEndian, bitfields, nbf - 1))
    }

    constructor (bitfields: seq<BitField>, littleEndian: bool)
      requires ValidFields(bitfields)
      ensures Valid() && nbf == 0 && this.bitfields == bitfields && this.littleEndian == littleEndian
    {
      this.bitfields := bitfields;
      this.littleEndian := littleEndian;
      nbf, beg, end := 0, 0, 0;
    }

    /** Moves to the next field, the one at nbf - 1; false past the last one. */
    method Next() returns (more: bool)
      requires Valid()
      modifies this
      ensures Valid() && more == (old(nbf) < |bitfields|)
      ensures nbf == old(nbf) + if more then 1 else 0
    {
      if nbf == |bitfields| { return false; }
      var bf := bitfields[nbf];
      var size;
      match bf {
        case SubOp(sizes) => size := MaxOf(sizes);
        case Separator => size := 0;
        case _ => size := bf.size;
      }
      nbf := nbf + 1;
      if littleEndian {
        beg := end;
        end := end + size;
      } else {
        end := beg;
        beg := beg - size;
      }
      return true;
    }
  }

  /** Ranges tile: every position of the operation lies in one range and only one. */
  lemma {:induction false} RangesTile(littleEndian: bool, fields: seq<BitField>, q: nat) returns (k: nat)
    requires ValidFields(fields) && q < Offset(fields, |fields|)
    ensures k < |fields|
    ensures var p := StreamPosition(littleEndian, q);
            forall j :: 0 <= j < |fields| ==>
              (RangeBegin(littleEndian, fields, j) <= p < RangeEnd(littleEndian, fields, j) <==> j == k)
  {
    k := 0;
    while Offset(fields, k + 1) <= q
      invariant k < |fields| && Offset(fields, k) <= q
      decreases |fields| - k
    {
      k := k + 1;
    }
    forall j | 0 <= j < |fields| && j != k ensures !(Offset(fields, j) <= q < Offset(fields, j + 1)) {
      if j < k {
        OffsetMonotone(fields, j + 1, k);
      } else {
        OffsetMonotone(fields, k + 1, j);
      }
    }
  }

  // ---------- the code of an operation

  /** Field k reads back its value under a full mask if it holds an opcode, and no bit otherwise. */
  ghost predicate ReadsBack(littleEndian: bool, fields: seq<BitField>, k: nat, mask: seq<Byte>, bits: seq<Byte>)
    requires k < |fields| && ValidFields(fields)
  {
    var beg, end := RangeBegin(littleEndian, fields, k), RangeEnd(littleEndian, fields, k);
    forall p :: beg <= p < end ==>
      && BitAt(mask, p) == fields[k].HasOpcode()
      && BitAt(bits, p) == (fields[k].HasOpcode() && fields[k].value[p - beg])
  }

  ghost predicate ClearFrom(littleEndian: bool, start: nat, str: seq<Byte>) {
    forall q :: start <= q ==> !StreamBit(littleEndian, str, q)
  }

  /** An opcode behind a field of variable size is an error. */
  ghost predicate OpcodesFirst(fields: seq<BitField>) {
    forall j, k :: 0 <= j < k < |fields| && fields[j].SubOp? ==> !fields[k].HasOpcode()
  }

  /** The fields before the k-th are coded, and no bit lies past them. */
  ghost predicate Coded(littleEndian: bool, fields: seq<BitField>, k: nat, mask: seq<Byte>, bits: seq<Byte>)
    requires k <= |fields| && ValidFields(fields)
  {
    && (forall j :: 0 <= j < k ==> ReadsBack(littleEndian, fields, j, mask, bits))
    && ClearFrom(littleEndian, Offset(fields, k), mask) && ClearFrom(littleEndian, Offset(fields, k), bits)
  }

  lemma CodedSkip(littleEndian: bool, fields: seq<BitField>, k: nat, mask: seq<Byte>, bits: seq<Byte>)
    requires k < |fields| && ValidFields(fields) && !fields[k].HasOpcode()
    requires Coded(littleEndian, fields, k, mask, bits)
    ensures Coded(littleEndian, fields, k + 1, mask, bits)
  {
    var beg, end := RangeBegin(littleEndian, fields, k), RangeEnd(littleEndian, fields, k);
    forall p | beg <= p < end ensures !BitAt(mask, p) && !BitAt(bits, p) {
      var q := if littleEndian then p else -1 - p;
      assert !StreamBit(littleEndian, mask, q) && !StreamBit(littleEndian, bits, q);
    }
  }

  lemma CodedDeposit(littleEndian: bool, fields: seq<BitField>, k: nat, mask: seq<Byte>, bits: seq<Byte>,
                     mask': seq<Byte>, bits': seq<Byte>)
    requires k < |fields| && ValidFields(fields) && fields[k].HasOpcode()
    requires Coded(littleEndian, fields, k, mask, bits)
    requires |mask| == |bits| && Offset(fields, k + 1) <= 8 * |mask|
    requires var beg, end := RangeBegin(littleEndian, fields, k), RangeEnd(littleEndian, fields, k);
             Deposited(mask, mask', beg, end, Ones(64, end - beg)) && Deposited(bits, bits', beg, end, fields[k].value)
    ensures Coded(littleEndian, fields, k + 1, mask', bits')
  {
    hide ReadsBack, ClearFrom;
    var beg, end := RangeBegin(littleEndian, fields, k), RangeEnd(littleEndian, fields, k);
    forall j | 0 <= j < k ensures ReadsBack(littleEndian, fields, j, mask', bits') {
      OffsetMonotone(fields, j + 1, k);
      ReadsBackKept(littleEndian, fields, j, k, mask, bits, mask', bits');
    }
    ReadsBackNew(littleEndian, fields, k, mask, bits, mask', bits');
    StillClear(littleEndian, fields, k, mask, mask', Ones(64, end - beg));
    StillClear(littleEndian, fields, k, bits, bits', fields[k].value);
    CodedFrom(littleEndian, fields, k, mask', bits');
  }

  lemma CodedFrom(littleEndian: bool, fields: seq<BitField>, k: nat, mask: seq<Byte>, bits: seq<Byte>)
    requires k < |fields| && ValidFields(fields)
    requires forall j :: 0 <= j <= k ==> ReadsBack(littleEndian, fields, j, mask, bits)
    requires ClearFrom(littleEndian, Offset(fields, k + 1), mask) && ClearFrom(littleEndian, Offset(fields, k + 1), bits)
    ensures Coded(littleEndian, fields, k + 1, mask, bits)
  {
  }

  lemma ReadsBackKept(littleEndian: bool, fields: seq<BitField>, j: nat, k: nat, mask: seq<Byte>, bits: seq<Byte>,
                      mask': seq<Byte>, bits': seq<Byte>)
    requires j < k < |fields| && ValidFields(fields) && fields[k].HasOpcode()
    requires Coded(littleEndian, fields, k, mask, bits) && Offset(fields, j + 1) <= Offset(fields, k)
    requires |mask| == |bits| && Offset(fields, k + 1) <= 8 * |mask|
    requires var beg, end := RangeBegin(littleEndian, fields, k), RangeEnd(littleEndian, fields, k);
             Deposited(mask, mask', beg, end, Ones(64, end - beg)) && Deposited(bits, bits', beg, end, fields[k].value)
    ensures ReadsBack(littleEndian, fields, j, mask', bits')
  {
    assert ReadsBack(littleEndian, fields, j, mask, bits);
    forall p | RangeBegin(littleEndian, fields, j) <= p < RangeEnd(littleEndian, fields, j)
      ensures BitAt(mask', p) == BitAt(mask, p) && BitAt(bits', p) == BitAt(bits, p)
    {
      PositionInside(p, |mask|);
    }
  }

  lemma ReadsBackNew(littleEndian: bool, fields: seq<BitField>, k: nat, mask: seq<Byte>, bits: seq<Byte>,
                     mask': seq<Byte>, bits': seq<Byte>)
    requires k < |fields| && ValidFields(fields) && fields[k].HasOpcode()
    requires ClearFrom(littleEndian, Offset(fields, k), bits)
    requires |mask| == |bits| && Offset(fields, k + 1) <= 8 * |mask|
    requires var beg, end := RangeBegin(littleEndian, fields, k), RangeEnd(littleEndian, fields, k);
             Deposited(mask, mask', beg, end, Ones(64, end - beg)) && Deposited(bits, bits', beg, end, fields[k].value)
    ensures ReadsBack(littleEndian, fields, k, mask', bits')
  {
    var beg, end := RangeBegin(littleEndian, fields, k), RangeEnd(littleEndian, fields, k);
    forall p | beg <= p < end
      ensures BitAt(mask', p) && BitAt(bits', p) == fields[k].value[p - beg]
    {
      PositionInside(p, |mask|);
      var q := if littleEndian then p else -1 - p;
      assert !StreamBit(littleEndian, bits, q);
    }
  }

  lemma StillClear(littleEndian: bool, fields: seq<BitField>, k: nat, str: seq<Byte>, str': seq<Byte>, value: Word)
    requires k < |fields| && ValidFields(fields)
    requires ClearFrom(littleEndian, Offset(fields, k), str) && Offset(fields, k + 1) <= 8 * |str|
    requires var beg, end := RangeBegin(littleEndian, fields, k), RangeEnd(littleEndian, fields, k);
             end - beg <= |value| && Deposited(str, str', beg, end, value)
    ensures ClearFrom(littleEndian, Offset(fields, k + 1), str')
  {
    forall q | Offset(fields, k + 1) <= q ensures !StreamBit(littleEndian, str', q) {
      assert !StreamBit(littleEndian, str, q);
    }
  }

  lemma ZerosClear(littleEndian: bool, str: seq<Byte>)
    requires forall i :: 0 <= i < |str| ==> str[i] == Zeros(8)
    ensures ClearFrom(littleEndian, 0, str)
  {
  }

  /** Writes one opcode field into the code. */
  method CodeField(mask: array<Byte>, bits: array<Byte>, fi: FieldIterator)
    requires fi.Valid() && 0 < fi.nbf && fi.bitfields[fi.nbf - 1].HasOpcode()
    requires mask != bits && mask.Length == bits.Length
    requires Offset(fi.bitfields, |fi.bitfields|) <= 8 * mask.Length
    requires Coded(fi.littleEndian, fi.bitfields, fi.nbf - 1, mask[..], bits[..])
    modifies mask, bits
    ensures Coded(fi.littleEndian, fi.bitfields, fi.nbf, mask[..], bits[..])
  {
    hide Coded, Deposited;
    ghost var mask0, bits0 := mask[..], bits[..];
    var bf := fi.bitfields[fi.nbf - 1];
    RangeInside(fi.littleEndian, fi.bitfields, fi.nbf - 1, mask.Length);
    assert fi.end - fi.beg == bf.size;
    Deposit(bits, fi.beg, fi.end, bf.value);
    assert mask[..] == mask0;
    Deposit(mask, fi.beg, fi.end, Ones(64, bf.size));
    CodedDeposit(fi.littleEndian, fi.bitfields, fi.nbf - 1, mask0, bits0, mask[..], bits[..]);
  }

  /** The code-building part of `finalize`. */
  method BuildCode(fields: seq<BitField>, littleEndian: bool, capacity: nat) returns (r: Option<Patterns.Code>)
    requires ValidFields(fields) && Offset(fields, |fields|) <= 8 * capacity
    ensures r.Some? <==> OpcodesFirst(fields)
    ensures r.Some? ==> |r.value.mask| == |r.value.bits| == capacity
    ensures r.Some? ==> Coded(littleEndian, fields, |fields|, r.value.mask, r.value.bits)
  {
    hide Coded, ValidFields, Offset, RangeBegin, RangeEnd;
    var mask := new Byte[capacity](_ => Zeros(8));
    var bits := new Byte[capacity](_ => Zeros(8));
    NothingCoded(littleEndian, fields, mask[..], bits[..]);
    var vlen := false;
    var fi := new FieldIterator(fields, littleEndian);
    while true
      invariant fi.Valid() && fi.bitfields == fields && fi.littleEndian == littleEndian && fi.nbf <= |fields|
      invariant fresh(fi) && fresh(mask) && fresh(bits) && mask != bits && mask.Length == bits.Length == capacity
      invariant Coded(littleEndian, fields, fi.nbf, mask[..], bits[..])
      invariant vlen <==> exists j :: 0 <= j < fi.nbf && fields[j].SubOp?
      invariant forall j, k :: 0 <= j < k < fi.nbf && fields[j].SubOp? ==> !fields[k].HasOpcode()
      decreases |fields| - fi.nbf
    {
      var more := fi.Next();
      if !more {
        break;
      }
      var bf := fields[fi.nbf - 1];
      if !bf.HasOpcode() {
        CodedSkip(littleEndian, fields, fi.nbf - 1, mask[..], bits[..]);
        vlen := vlen || bf.SubOp?;
        continue;
      }
      if vlen {
        return None;
      }
      CodeField(mask, bits, fi);
    }
    return Some(Patterns.Code(mask[..], bits[..]));
  }

  lemma NothingCoded(littleEndian: bool, fields: seq<BitField>, mask: seq<Byte>, bits: seq<Byte>)
    requires ValidFields(fields)
    requires forall i :: 0 <= i < |mask| ==> mask[i] == Zeros(8)
    requires forall i :: 0 <= i < |bits| ==> bits[i] == Zeros(8)
    ensures Coded(littleEndian, fields, 0, mask, bits)
  {
    ZerosClear(littleEndian, mask);
    ZerosClear(littleEndian, bits);
  }

  lemma RangeInside(littleEndian: bool, fields: seq<BitField>, k: nat, capacity: nat)
    requires k < |fields| && ValidFields(fields) && Offset(fields, |fields|) <= 8 * capacity
    ensures Offset(fields, k + 1) <= 8 * capacity
    ensures forall p :: RangeBegin(littleEndian, fields, k) <= p < RangeEnd(littleEndian, fields, k) ==> ByteOf(p) < capacity
  {
    OffsetMonotone(fields, k + 1, |fields|);
    forall p | RangeBegin(littleEndian, fields, k) <= p < RangeEnd(littleEndian, fields, k) ensures ByteOf(p) < capacity {
      PositionInside(p, capacity);
    }
  }

  /** A built code is one that `locate` expects. */
  lemma BuiltCodeValid(littleEndian: bool, fields: seq<BitField>, code: Patterns.Code, capacity: nat)
    requires ValidFields(fields) && Offset(fields, |fields|) <= 8 * capacity
    requires |code.mask| == |code.bits| == capacity
    requires Coded(littleEndian, fields, |fields|, code.mask, code.bits)
    ensures Patterns.Valid(Patterns.Operation(code, Offset(fields, |fields|)), capacity)
  {
    var size := Offset(fields, |fields|);
    forall i, j | 0 <= i < capacity && 0 <= j < 8
      ensures code.bits[i][j] ==> code.mask[i][j]
      ensures code.mask[i][j] ==> i < (size + 7) / 8
    {
      var q := 8 * i + if littleEndian then j else 7 - j;
      var p := StreamPosition(littleEndian, q);
      assert ByteOf(p) == i && BitOf(p) == j;
      assert StreamBit(littleEndian, code.bits, q) == code.bits[i][j];
      assert StreamBit(littleEndian, code.mask, q) == code.mask[i][j];
      if q < size {
        var k := RangesTile(littleEndian, fields, q);
        assert ReadsBack(littleEndian, fields, k, code.mask, code.bits);
      }
    }
  }
}
