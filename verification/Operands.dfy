/** Instruction encoding and decoding as the buffer back end emits them: operands in member
    variables on one side, bit fields of a code on the other, and sub-operations of variable size. */
module Operands {
  import opened Words
  import opened BitAddressing
  import opened FieldLayout
  import opened Wrappers
  import opened CodeBuffer
  import Patterns

  // ---------- the C types of operands

  predicate IsCtype(w: nat) {
    w == 8 || w == 16 || w == 32 || w == 64
  }

  /** The least of 8, 16, 32 and 64 bits that is large enough. */
  ghost predicate IsLeastCtype(size: nat, bits: nat) {
    && IsCtype(size) && bits <= size
    && forall w :: IsCtype(w) && bits <= w ==> size <= w
  }

  /** `least_ctype_size`; more than 64 bits is an error. */
  method LeastCtypeSize(bits: nat) returns (r: Option<nat>)
    ensures r.None? <==> bits > 64
    ensures r.Some? ==> IsLeastCtype(r.value, bits) && r.value == LeastCtype(bits)
  {
    if bits > 64 {
      return None;
    }
    var size := 8;
    while size < bits
      invariant size == 8 || size == 16 || size == 32 || size == 64
      invariant size == 8 || size / 2 < bits
      decreases 64 - size
    {
      size := size * 2;
    }
    return Some(size);
  }

  function LeastCtype(bits: nat): (size: nat)
    ensures bits <= 64 ==> IsLeastCtype(size, bits)
    ensures 8 <= size
  {
    if bits <= 8 then 8 else if bits <= 16 then 16 else if bits <= 32 then 32 else 64
  }

  /** The width of the member of an operand: for its bits after the left shift, for the size asked
      for, and for the least word size of the instruction set. */
  function MemberSize(f: BitField, minwordsize: nat): (size: nat)
    requires f.IsOperand()
    ensures 8 <= size && (f.size + f.lshift <= 64 ==> f.size + f.lshift <= size)
    ensures IsCtype(minwordsize) && f.size + f.lshift <= 64 && f.finalSize <= 64 ==>
              && IsCtype(size) && f.size + f.lshift <= size && f.finalSize <= size && minwordsize <= size
              && forall w :: IsCtype(w) && f.size + f.lshift <= w && f.finalSize <= w && minwordsize <= w ==> size <= w
  {
    var dst := if f.size + f.lshift < f.finalSize then f.finalSize else f.size + f.lshift;
    var least := LeastCtype(dst);
    if least < minwordsize then minwordsize else least
  }

  /** The least word size of a generator, from the one asked for and that of the instruction set. */
  function LeastWordSize(asked: nat, own: nat): nat {
    LeastCtype(if asked < own then own else asked)
  }

  /** With it a member has the least C size for its shifted field, its final size, and both word sizes. */
  lemma MemberSizeIsLeast(f: BitField, asked: nat, own: nat, w: nat)
    requires f.IsOperand() && f.size + f.lshift <= 64 && f.finalSize <= 64 && asked <= 64 && own <= 64
    ensures var size := MemberSize(f, LeastWordSize(asked, own));
            && size in {8, 16, 32, 64}
            && (w in {8, 16, 32, 64} ==>
                  (size <= w <==> f.size + f.lshift <= w && f.finalSize <= w && asked <= w && own <= w))
  {
    var least := if asked < own then own else asked;
    assert IsLeastCtype(LeastCtype(least), least);
    assert w in {8, 16, 32, 64} ==> IsCtype(w);
  }

  /** All operands fit the 64 bits that the generator supports. */
  ghost predicate Supported(fields: seq<BitField>) {
    forall k :: 0 <= k < |fields| && fields[k].IsOperand() ==>
      fields[k].size + fields[k].lshift <= 64 && fields[k].finalSize <= 64
  }

  // ---------- the value of an operand

  /** Bit i of an operand whose field has the given bits, least significant first: the left shift
      brings in zeros below, the extension zeros or copies of the top bit above. */
  predicate OperandBit(f: BitField, bits: seq<bool>, i: int)
    requires f.IsOperand() && |bits| == f.size
  {
    if i < f.lshift then false
    else if i - f.lshift < f.size then bits[i - f.lshift]
    else f.sext && 0 < f.size && bits[f.size - 1]
  }

  function OperandValue(f: BitField, bits: seq<bool>, width: nat): (v: Word)
    requires f.IsOperand() && |bits| == f.size
    ensures |v| == width && forall i :: 0 <= i < width ==> v[i] == OperandBit(f, bits, i)
  {
    seq(width, i => OperandBit(f, bits, i))
  }

  /** The bits of [beg, beg + size) of a buffer, least significant first. */
  ghost function FieldBits(str: seq<Byte>, beg: int, size: nat): (bits: seq<bool>)
    ensures |bits| == size && forall i :: 0 <= i < size ==> bits[i] == BitAt(str, beg + i)
  {
    seq(size, i => BitAt(str, beg + i))
  }

  /** Decoding of one operand: extraction, sign extension by a pair of shifts, left shift. */
  method DecodeOperand(f: BitField, str: seq<Byte>, beg: int, end: int, minwordsize: nat) returns (v: Word)
    requires f.IsOperand() && end - beg == f.size && f.size + f.lshift <= 64
    requires OneSided(beg, end) && forall p :: beg <= p < end ==> ByteOf(p) < |str|
    ensures v == OperandValue(f, FieldBits(str, beg, f.size), MemberSize(f, minwordsize))
  {
    var opsize := MemberSize(f, minwordsize);
    hide *;
    v := Extract(str, beg, end, opsize);
    ghost var bits := FieldBits(str, beg, f.size);
    ExtractedBits(f.size, bits, v);
    if f.sext {
      SignExtend(v, bits);
      var shift := opsize - f.size;
      v := Sar(Shl(v, shift), shift);
    } else {
      ZeroExtend(v, bits);
    }
    ShiftedOperand(f, bits, v);
    v := Shl(v, f.lshift);
  }

  /** A word that holds the bits of a field, extended. */
  ghost predicate Extended(x: Word, bits: seq<bool>, sext: bool) {
    && |bits| <= |x|
    && forall j :: 0 <= j < |x| ==> x[j] == if j < |bits| then bits[j] else sext && bits != [] && bits[|bits| - 1]
  }

  ghost predicate Extracted(x: Word, bits: seq<bool>) {
    |bits| <= |x| && forall j :: 0 <= j < |x| ==> x[j] == (j < |bits| && bits[j])
  }

  lemma ExtractedBits(size: nat, bits: seq<bool>, x: Word)
    requires |bits| == size <= |x| && forall j :: 0 <= j < |x| ==> x[j] == (j < size && bits[j])
    ensures Extracted(x, bits)
  {
  }

  lemma ZeroExtend(x: Word, bits: seq<bool>)
    requires Extracted(x, bits)
    ensures Extended(x, bits, false)
  {
  }

  /** Shifting up and arithmetically down replicates the top bit of the field. */
  lemma SignExtend(raw: Word, bits: seq<bool>)
    requires Extracted(raw, bits)
    ensures |bits| <= |raw| && Extended(Sar(Shl(raw, |raw| - |bits|), |raw| - |bits|), bits, true)
  {
    hide Sar, Shl;
    var size := |bits|;
    var n := |raw| - size;
    var up := Shl(raw, n);
    forall j | 0 <= j < |raw|
      ensures Sar(up, n)[j] == if j < size then bits[j] else 0 < size && bits[size - 1]
    {
      if j < size {
        assert Sar(up, n)[j] == up[j + n] == Bit(raw, j);
      } else {
        assert Sar(up, n)[j] == up[|raw| - 1] == Bit(raw, size - 1);
      }
    }
  }

  /** The left shift of an extended field makes the operand. */
  lemma ShiftedOperand(f: BitField, bits: seq<bool>, x: Word)
    requires f.IsOperand() && |bits| == f.size && Extended(x, bits, f.sext)
    ensures Shl(x, f.lshift) == OperandValue(f, bits, |x|)
  {
    var v, w := Shl(x, f.lshift), OperandValue(f, bits, |x|);
    forall i | 0 <= i < |x| ensures v[i] == w[i] {
      assert v[i] == Bit(x, i - f.lshift);
      assert w[i] == OperandBit(f, bits, i);
    }
  }

  /** The bits of a member that encoding writes into the field. */
  function WrittenBits(f: BitField, v: Word): (bits: seq<bool>)
    requires f.IsOperand()
    ensures |bits| == f.size && forall i :: 0 <= i < f.size ==> bits[i] == Bit(v, f.lshift + i)
  {
    seq(f.size, i => Bit(v, f.lshift + i))
  }

  // ---------- encoding

  /** The code holds the opcode bits, or-ed with the operands in their fields. */
  ghost predicate Encoded(littleEndian: bool, fields: seq<BitField>, k: nat, bits: seq<Byte>, values: seq<Word>, str: seq<Byte>)
    requires k <= |fields| == |values| && ValidFields(fields)
  {
    && |str| == |bits|
    && (forall j :: 0 <= j < k ==> FieldEncoded(littleEndian, fields, j, bits, values, str))
    && (forall q :: Offset(fields, k) <= q ==> StreamBit(littleEndian, str, q) == StreamBit(littleEndian, bits, q))
  }

  ghost predicate FieldEncoded(littleEndian: bool, fields: seq<BitField>, j: nat, bits: seq<Byte>, values: seq<Word>, str: seq<Byte>)
    requires j < |fields| == |values| && ValidFields(fields)
  {
    var beg, end := RangeBegin(littleEndian, fields, j), RangeEnd(littleEndian, fields, j);
    forall p :: beg <= p < end ==>
      BitAt(str, p) == (BitAt(bits, p) || (fields[j].IsOperand() && Bit(values[j], fields[j].lshift + (p - beg))))
  }

  lemma EncodedSkip(littleEndian: bool, fields: seq<BitField>, k: nat, bits: seq<Byte>, values: seq<Word>, str: seq<Byte>)
    requires k < |fields| == |values| && ValidFields(fields) && !fields[k].IsOperand()
    requires Encoded(littleEndian, fields, k, bits, values, str)
    ensures Encoded(littleEndian, fields, k + 1, bits, values, str)
  {
    var beg, end := RangeBegin(littleEndian, fields, k), RangeEnd(littleEndian, fields, k);
    forall p | beg <= p < end ensures BitAt(str, p) == BitAt(bits, p) {
      var q := if littleEndian then p else -1 - p;
      assert StreamBit(littleEndian, str, q) == StreamBit(littleEndian, bits, q);
    }
  }

  lemma EncodedDeposit(littleEndian: bool, fields: seq<BitField>, k: nat, bits: seq<Byte>, values: seq<Word>,
                       str: seq<Byte>, str': seq<Byte>)
    requires k < |fields| == |values| && ValidFields(fields) && fields[k].IsOperand()
    requires Encoded(littleEndian, fields, k, bits, values, str) && Offset(fields, k + 1) <= 8 * |str|
    requires fields[k].size <= |values[k]|
    requires Deposited(str, str', RangeBegin(littleEndian, fields, k), RangeEnd(littleEndian, fields, k),
                       Shr(values[k], fields[k].lshift))
    ensures Encoded(littleEndian, fields, k + 1, bits, values, str')
  {
    hide FieldEncoded, Deposited, StreamBit;
    forall j | 0 <= j < k ensures FieldEncoded(littleEndian, fields, j, bits, values, str') {
      OffsetMonotone(fields, j + 1, k);
      FieldEncodedKept(littleEndian, fields, j, k, bits, values, str, str');
    }
    FieldEncodedNew(littleEndian, fields, k, bits, values, str, str');
    BeyondKept(littleEndian, fields, k, bits, values, str, str');
  }

  lemma FieldEncodedNew(littleEndian: bool, fields: seq<BitField>, k: nat, bits: seq<Byte>, values: seq<Word>,
                        str: seq<Byte>, str': seq<Byte>)
    requires k < |fields| == |values| && ValidFields(fields) && fields[k].IsOperand()
    requires forall q :: Offset(fields, k) <= q ==> StreamBit(littleEndian, str, q) == StreamBit(littleEndian, bits, q)
    requires Offset(fields, k + 1) <= 8 * |str| && fields[k].size <= |values[k]|
    requires Deposited(str, str', RangeBegin(littleEndian, fields, k), RangeEnd(littleEndian, fields, k),
                       Shr(values[k], fields[k].lshift))
    ensures FieldEncoded(littleEndian, fields, k, bits, values, str')
  {
    var beg, end := RangeBegin(littleEndian, fields, k), RangeEnd(littleEndian, fields, k);
    forall p | beg <= p < end
      ensures BitAt(str', p) == (BitAt(bits, p) || Bit(values[k], fields[k].lshift + (p - beg)))
    {
      PositionInside(p, |str|);
      var q := if littleEndian then p else -1 - p;
      assert StreamBit(littleEndian, str, q) == StreamBit(littleEndian, bits, q);
    }
  }

  lemma BeyondKept(littleEndian: bool, fields: seq<BitField>, k: nat, bits: seq<Byte>, values: seq<Word>,
                   str: seq<Byte>, str': seq<Byte>)
    requires k < |fields| == |values| && ValidFields(fields) && fields[k].IsOperand()
    requires forall q :: Offset(fields, k) <= q ==> StreamBit(littleEndian, str, q) == StreamBit(littleEndian, bits, q)
    requires Offset(fields, k + 1) <= 8 * |str| && fields[k].size <= |values[k]|
    requires Deposited(str, str', RangeBegin(littleEndian, fields, k), RangeEnd(littleEndian, fields, k),
                       Shr(values[k], fields[k].lshift))
    ensures |str'| == |str|
    ensures forall q :: Offset(fields, k + 1) <= q ==> StreamBit(littleEndian, str', q) == StreamBit(littleEndian, bits, q)
  {
    forall q | Offset(fields, k + 1) <= q
      ensures StreamBit(littleEndian, str', q) == StreamBit(littleEndian, bits, q)
    {
      assert StreamBit(littleEndian, str, q) == StreamBit(littleEndian, bits, q);
    }
  }

  lemma FieldEncodedKept(littleEndian: bool, fields: seq<BitField>, j: nat, k: nat, bits: seq<Byte>, values: seq<Word>,
                         str: seq<Byte>, str': seq<Byte>)
    requires j < k < |fields| == |values| && ValidFields(fields)
    requires FieldEncoded(littleEndian, fields, j, bits, values, str)
    requires Offset(fields, j + 1) <= Offset(fields, k) && Offset(fields, k + 1) <= 8 * |str|
    requires RangeEnd(littleEndian, fields, k) - RangeBegin(littleEndian, fields, k) <= |values[k]|
    requires fields[k].IsOperand()
    requires Deposited(str, str', RangeBegin(littleEndian, fields, k), RangeEnd(littleEndian, fields, k),
                       Shr(values[k], fields[k].lshift))
    ensures FieldEncoded(littleEndian, fields, j, bits, values, str')
  {
    forall p | RangeBegin(littleEndian, fields, j) <= p < RangeEnd(littleEndian, fields, j)
      ensures BitAt(str', p) == BitAt(str, p)
    {
      PositionInside(p, |str|);
    }
  }

  /** The emitted `Encode`; it does not work with sub-operations. */
  method Encode(fields: seq<BitField>, littleEndian: bool, bits: seq<Byte>, minwordsize: nat, values: seq<Word>)
    returns (r: Option<CodeType>)
    requires ValidFields(fields) && Supported(fields) && |values| == |fields|
    requires 0 < |bits| && Offset(fields, |fields|) <= 8 * |bits|
    requires ClearFrom(littleEndian, Offset(fields, |fields|), bits)
    requires forall k :: 0 <= k < |fields| && fields[k].IsOperand() ==> |values[k]| == MemberSize(fields[k], minwordsize)
    ensures r.None? <==> exists k :: 0 <= k < |fields| && fields[k].SubOp?
    ensures r.Some? ==> r.value.Valid() && fresh(r.value) && r.value.size == Offset(fields, |fields|)
    ensures r.Some? ==> r.value.littleEndian == littleEndian && r.value.str.Length == |bits|
    ensures r.Some? ==> Encoded(littleEndian, fields, |fields|, bits, values, r.value.str[..])
  {
    var op, vlen, lengths := Sizes(fields);
    if vlen {
      return None;
    }
    var code := new CodeType(littleEndian, |bits|, bits, op);
    SameWhenClear(littleEndian, bits, code.str[..], op);
    EncodedNone(littleEndian, fields, bits, values, code.str[..]);
    EncodeFields(fields, littleEndian, code, bits, minwordsize, values);
    return Some(code);
  }

  /** The loop over the fields. */
  method EncodeFields(fields: seq<BitField>, littleEndian: bool, code: CodeType, ghost bits: seq<Byte>, minwordsize: nat,
                      values: seq<Word>)
    requires ValidFields(fields) && Supported(fields) && |values| == |fields|
    requires code.Valid() && code.str.Length == |bits| && Offset(fields, |fields|) <= 8 * |bits|
    requires forall k :: 0 <= k < |fields| && fields[k].IsOperand() ==> |values[k]| == MemberSize(fields[k], minwordsize)
    requires Encoded(littleEndian, fields, 0, bits, values, code.str[..])
    modifies code.str
    ensures code.Valid() && Encoded(littleEndian, fields, |fields|, bits, values, code.str[..])
  {
    hide *;
    var fi := new FieldIterator(fields, littleEndian);
    while true
      invariant fi.Valid() && fi.bitfields == fields && fi.littleEndian == littleEndian && fi.nbf <= |fields|
      invariant fresh(fi) && code.Valid()
      invariant Encoded(littleEndian, fields, fi.nbf, bits, values, code.str[..])
      decreases |fields| - fi.nbf
    {
      var more := fi.Next();
      if !more {
        break;
      }
      var k := fi.nbf - 1;
      if fields[k].IsOperand() {
        EncodeField(fi, code, bits, minwordsize, values);
      } else {
        EncodedSkip(littleEndian, fields, k, bits, values, code.str[..]);
      }
    }
  }

  /** Encodes one operand. */
  method EncodeField(fi: FieldIterator, code: CodeType, ghost bits: seq<Byte>, minwordsize: nat, values: seq<Word>)
    requires fi.Valid() && 0 < fi.nbf && fi.bitfields[fi.nbf - 1].IsOperand() && |values| == |fi.bitfields|
    requires Supported(fi.bitfields) && |values[fi.nbf - 1]| == MemberSize(fi.bitfields[fi.nbf - 1], minwordsize)
    requires code.Valid() && code.str.Length == |bits| && Offset(fi.bitfields, |fi.bitfields|) <= 8 * |bits|
    requires Encoded(fi.littleEndian, fi.bitfields, fi.nbf - 1, bits, values, code.str[..])
    modifies code.str
    ensures code.Valid()
    ensures Encoded(fi.littleEndian, fi.bitfields, fi.nbf, bits, values, code.str[..])
  {
    hide Encoded;
    var k := fi.nbf - 1;
    var f := fi.bitfields[k];
    ghost var before := code.str[..];
    RangeInside(fi.littleEndian, fi.bitfields, k, |bits|);
    Deposit(code.str, fi.beg, fi.end, Shr(values[k], f.lshift));
    EncodedDeposit(fi.littleEndian, fi.bitfields, k, bits, values, before, code.str[..]);
  }

  lemma EncodedNone(littleEndian: bool, fields: seq<BitField>, bits: seq<Byte>, values: seq<Word>, str: seq<Byte>)
    requires |fields| == |values| && ValidFields(fields) && |str| == |bits|
    requires forall q :: StreamBit(littleEndian, str, q) == StreamBit(littleEndian, bits, q)
    ensures Encoded(littleEndian, fields, 0, bits, values, str)
  {
  }

  lemma SameWhenClear(littleEndian: bool, bits: seq<Byte>, str: seq<Byte>, size: nat)
    requires |str| == |bits| && ClearFrom(littleEndian, size, bits)
    requires forall i :: 0 <= i < |str| ==> str[i] == if i < (size + 7) / 8 then bits[i] else Zeros(8)
    ensures forall q :: StreamBit(littleEndian, str, q) == StreamBit(littleEndian, bits, q)
  {
    forall q ensures StreamBit(littleEndian, str, q) == StreamBit(littleEndian, bits, q) {
      StreamByte(littleEndian, str, q);
      StreamByte(littleEndian, bits, q);
      if size <= q {
        assert !StreamBit(littleEndian, bits, q);
      }
    }
  }

  // ---------- round trips

  /** What decoding makes of the bits that encoding writes for a member. */
  function Canonical(f: BitField, v: Word): Word
    requires f.IsOperand()
  {
    OperandValue(f, WrittenBits(f, v), |v|)
  }

  /** What decoding a field of an encoded code gives. */
  ghost function Redecoded(littleEndian: bool, fields: seq<BitField>, k: nat, str: seq<Byte>, width: nat): Word
    requires ValidFields(fields) && k < |fields| && fields[k].IsOperand()
  {
    OperandValue(fields[k], FieldBits(str, RangeBegin(littleEndian, fields, k), fields[k].size), width)
  }

  /** The opcode bits of a specialized operand are among those written for its member ... */
  ghost predicate HoldsOpcode(f: BitField, v: Word)
    requires f.Valid() && f.IsOperand()
  {
    f.SpecializedOperand? ==> forall i :: 0 <= i < f.size && f.value[i] ==> WrittenBits(f, v)[i]
  }

  /** ... and those written are among the opcode bits. */
  ghost predicate WithinOpcode(f: BitField, v: Word)
    requires f.Valid() && f.IsOperand()
  {
    f.SpecializedOperand? ==> forall i :: 0 <= i < f.size && WrittenBits(f, v)[i] ==> f.value[i]
  }

  /** The member of a specialized operand has the value that the operation is specialized for. */
  ghost predicate IsSpecialized(f: BitField, v: Word)
    requires f.Valid() && f.IsOperand()
  {
    f.SpecializedOperand? ==> WrittenBits(f, v) == f.value[..f.size]
  }

  lemma SpecializedBothWays(f: BitField, v: Word)
    requires f.Valid() && f.IsOperand()
    ensures IsSpecialized(f, v) <==> HoldsOpcode(f, v) && WithinOpcode(f, v)
  {
    if f.SpecializedOperand? && HoldsOpcode(f, v) && WithinOpcode(f, v) {
      forall i | 0 <= i < f.size ensures WrittenBits(f, v)[i] == f.value[i] {
      }
    }
  }

  /** Decoding a field of an encoded code gives the member back, up to the bits that the field cannot
      hold, exactly when the opcode adds no bit. */
  lemma FieldEncodeDecode(littleEndian: bool, fields: seq<BitField>, k: nat, bits: seq<Byte>, mask: seq<Byte>,
                          values: seq<Word>, str: seq<Byte>)
    requires ValidFields(fields) && |values| == |fields| && k < |fields| && fields[k].IsOperand()
    requires fields[k].size + fields[k].lshift <= |values[k]|
    requires |bits| == |mask| && Coded(littleEndian, fields, |fields|, mask, bits)
    requires Encoded(littleEndian, fields, |fields|, bits, values, str)
    ensures Redecoded(littleEndian, fields, k, str, |values[k]|) == Canonical(fields[k], values[k])
            <==> HoldsOpcode(fields[k], values[k])
  {
    var f, beg := fields[k], RangeBegin(littleEndian, fields, k);
    assert FieldEncoded(littleEndian, fields, k, bits, values, str);
    assert ReadsBack(littleEndian, fields, k, mask, bits);
    var found, written := FieldBits(str, beg, f.size), WrittenBits(f, values[k]);
    forall i | 0 <= i < f.size ensures found[i] == (written[i] || (f.SpecializedOperand? && f.value[i])) {
      assert BitAt(str, beg + i) == found[i] && BitAt(bits, beg + i) == (f.SpecializedOperand? && f.value[i]);
    }
    assert found == written <==> HoldsOpcode(f, values[k]);
    DecodedIsCanonical(f, found, |values[k]|);
    DecodedIsCanonical(f, written, |values[k]|);
  }

  lemma MatchesAt(code: seq<Byte>, mask: seq<Byte>, bits: seq<Byte>, p: int)
    requires Patterns.Matches(code, Patterns.Code(mask, bits)) && BitAt(mask, p)
    ensures BitAt(code, p) == BitAt(bits, p)
  {
    var i := ByteOf(p);
    assert And(code[i], mask[i]) == bits[i];
  }

  /** One position of the code: the masked test holds there unless a specialized operand adds a bit. */
  lemma EncodedAt(littleEndian: bool, fields: seq<BitField>, k: nat, bits: seq<Byte>, mask: seq<Byte>,
                  values: seq<Word>, str: seq<Byte>, p: int)
    requires ValidFields(fields) && |values| == |fields| && k < |fields|
    requires |bits| == |mask| && Coded(littleEndian, fields, |fields|, mask, bits)
    requires Encoded(littleEndian, fields, |fields|, bits, values, str)
    requires RangeBegin(littleEndian, fields, k) <= p < RangeEnd(littleEndian, fields, k)
    ensures var f, i := fields[k], p - RangeBegin(littleEndian, fields, k);
            (BitAt(str, p) && BitAt(mask, p)) == BitAt(bits, p) <==>
              !(f.SpecializedOperand? && WrittenBits(f, values[k])[i] && !f.value[i])
  {
    assert FieldEncoded(littleEndian, fields, k, bits, values, str);
    assert ReadsBack(littleEndian, fields, k, mask, bits);
  }

  /** An encoded code is a code of its operation, so that the decoder can select the operation for it,
      exactly when no member has a bit that its opcode lacks. */
  lemma EncodedMatches(littleEndian: bool, fields: seq<BitField>, bits: seq<Byte>, mask: seq<Byte>,
                       values: seq<Word>, str: seq<Byte>)
    requires ValidFields(fields) && |values| == |fields|
    requires |bits| == |mask| && Coded(littleEndian, fields, |fields|, mask, bits)
    requires Encoded(littleEndian, fields, |fields|, bits, values, str)
    ensures Patterns.Matches(str, Patterns.Code(mask, bits)) <==>
            forall k :: 0 <= k < |fields| && fields[k].IsOperand() ==> WithinOpcode(fields[k], values[k])
  {
    hide Coded, Encoded, BitAt, FieldEncoded;
    EncodedSize(littleEndian, fields, bits, values, str);
    if forall k :: 0 <= k < |fields| && fields[k].IsOperand() ==> WithinOpcode(fields[k], values[k]) {
      forall i | 0 <= i < |str| ensures And(str[i], mask[i]) == bits[i] {
        forall j | 0 <= j < 8 ensures And(str[i], mask[i])[j] == bits[i][j] {
          var q := 8 * i + if littleEndian then j else 7 - j;
          var p := StreamPosition(littleEndian, q);
          CellAt(littleEndian, i, j);
          BitIs(str, p);
          BitIs(mask, p);
          BitIs(bits, p);
          if q < Offset(fields, |fields|) {
            var k := RangesTile(littleEndian, fields, q);
            EncodedAt(littleEndian, fields, k, bits, mask, values, str, p);
          } else {
            BeyondFields(littleEndian, fields, mask, bits, q);
          }
        }
      }
    }
    if Patterns.Matches(str, Patterns.Code(mask, bits)) {
      forall k | 0 <= k < |fields| && fields[k].IsOperand() ensures WithinOpcode(fields[k], values[k]) {
        var f, beg := fields[k], RangeBegin(littleEndian, fields, k);
        forall i | 0 <= i < f.size && f.SpecializedOperand? && WrittenBits(f, values[k])[i] ensures f.value[i] {
          EncodedAt(littleEndian, fields, k, bits, mask, values, str, beg + i);
          OpcodeInside(littleEndian, fields, k, mask, bits, beg + i);
          MatchesAt(str, mask, bits, beg + i);
        }
      }
    }
  }

  lemma EncodedSize(littleEndian: bool, fields: seq<BitField>, bits: seq<Byte>, values: seq<Word>, str: seq<Byte>)
    requires |fields| == |values| && ValidFields(fields) && Encoded(littleEndian, fields, |fields|, bits, values, str)
    ensures |str| == |bits|
  {
  }

  lemma CellAt(littleEndian: bool, i: nat, j: nat)
    requires j < 8
    ensures var p := StreamPosition(littleEndian, 8 * i + if littleEndian then j else 7 - j);
            ByteOf(p) == i && BitOf(p) == j
  {
  }

  lemma BitIs(str: seq<Byte>, p: int)
    ensures BitAt(str, p) == (ByteOf(p) < |str| && str[ByteOf(p)][BitOf(p)])
  {
  }

  lemma BeyondFields(littleEndian: bool, fields: seq<BitField>, mask: seq<Byte>, bits: seq<Byte>, q: nat)
    requires ValidFields(fields) && Coded(littleEndian, fields, |fields|, mask, bits) && Offset(fields, |fields|) <= q
    ensures !BitAt(mask, StreamPosition(littleEndian, q)) && !BitAt(bits, StreamPosition(littleEndian, q))
  {
    assert !StreamBit(littleEndian, mask, q) && !StreamBit(littleEndian, bits, q);
  }

  lemma OpcodeInside(littleEndian: bool, fields: seq<BitField>, k: nat, mask: seq<Byte>, bits: seq<Byte>, p: int)
    requires ValidFields(fields) && Coded(littleEndian, fields, |fields|, mask, bits) && k < |fields| && fields[k].HasOpcode()
    requires RangeBegin(littleEndian, fields, k) <= p < RangeEnd(littleEndian, fields, k)
    ensures BitAt(mask, p)
  {
    assert ReadsBack(littleEndian, fields, k, mask, bits);
  }

  /** Encoding, then decoding: the encoded code is one that the decoder can select the operation for, and
      decoding it gives back every operand, up to the bits that its field cannot hold, exactly when every
      specialized operand has the value that the operation is specialized for. */
  lemma EncodeDecode(littleEndian: bool, fields: seq<BitField>, bits: seq<Byte>, mask: seq<Byte>,
                     values: seq<Word>, str: seq<Byte>)
    requires ValidFields(fields) && |values| == |fields|
    requires forall k :: 0 <= k < |fields| && fields[k].IsOperand() ==> fields[k].size + fields[k].lshift <= |values[k]|
    requires |bits| == |mask| && Coded(littleEndian, fields, |fields|, mask, bits)
    requires Encoded(littleEndian, fields, |fields|, bits, values, str)
    ensures
      && Patterns.Matches(str, Patterns.Code(mask, bits))
      && (forall k :: 0 <= k < |fields| && fields[k].IsOperand() ==>
            Redecoded(littleEndian, fields, k, str, |values[k]|) == Canonical(fields[k], values[k]))
      <==>
      forall k :: 0 <= k < |fields| && fields[k].IsOperand() ==> IsSpecialized(fields[k], values[k])
  {
    hide Coded, Encoded, Redecoded, Canonical, HoldsOpcode, WithinOpcode, IsSpecialized;
    EncodedMatches(littleEndian, fields, bits, mask, values, str);
    forall k | 0 <= k < |fields| && fields[k].IsOperand()
      ensures Redecoded(littleEndian, fields, k, str, |values[k]|) == Canonical(fields[k], values[k])
              <==> HoldsOpcode(fields[k], values[k])
      ensures IsSpecialized(fields[k], values[k]) <==> HoldsOpcode(fields[k], values[k]) && WithinOpcode(fields[k], values[k])
    {
      FieldEncodeDecode(littleEndian, fields, k, bits, mask, values, str);
      SpecializedBothWays(fields[k], values[k]);
    }
  }

  /** A two-bit operand specialized for 0. */
  const SPECIALIZED: BitField := SpecializedOperand(2, Zeros(64), 0, 8, false)

  /** With the member 3 decoding gives 3 back, but no longer as that operation: the code does not match it. */
  lemma SpecializedIsLost(littleEndian: bool, bits: seq<Byte>, mask: seq<Byte>, str: seq<Byte>)
    requires |bits| == |mask| && ValidFields([SPECIALIZED]) && Coded(littleEndian, [SPECIALIZED], 1, mask, bits)
    requires Encoded(littleEndian, [SPECIALIZED], 1, bits, [Ones(8, 2)], str)
    ensures Redecoded(littleEndian, [SPECIALIZED], 0, str, 8) == Ones(8, 2) == Canonical(SPECIALIZED, Ones(8, 2))
    ensures !Patterns.Matches(str, Patterns.Code(mask, bits))
  {
    var fields, values := [SPECIALIZED], [Ones(8, 2)];
    FieldEncodeDecode(littleEndian, fields, 0, bits, mask, values, str);
    EncodedMatches(littleEndian, fields, bits, mask, values, str);
    assert WrittenBits(SPECIALIZED, Ones(8, 2))[0] && !SPECIALIZED.value[0];
    assert fields[0].IsOperand() && !WithinOpcode(fields[0], values[0]);
    assert Canonical(SPECIALIZED, Ones(8, 2)) == Ones(8, 2);
  }

  /** Decoding always produces such members. */
  lemma DecodedIsCanonical(f: BitField, bits: seq<bool>, width: nat)
    requires f.IsOperand() && |bits| == f.size && f.size + f.lshift <= width
    ensures Canonical(f, OperandValue(f, bits, width)) == OperandValue(f, bits, width)
    ensures WrittenBits(f, OperandValue(f, bits, width)) == bits
  {
    var v := OperandValue(f, bits, width);
    forall i | 0 <= i < f.size ensures WrittenBits(f, v)[i] == bits[i] {
      assert v[f.lshift + i] == OperandBit(f, bits, f.lshift + i);
    }
    assert WrittenBits(f, v) == bits;
  }

  /** The members of an operation, as decoding assigns them. */
  ghost predicate DecodedFrom(littleEndian: bool, fields: seq<BitField>, minwordsize: nat, code: seq<Byte>, values: seq<Word>)
    requires ValidFields(fields)
  {
    && |values| == |fields|
    && forall k :: 0 <= k < |fields| && fields[k].IsOperand() ==>
         values[k] == OperandValue(fields[k], FieldBits(code, RangeBegin(littleEndian, fields, k), fields[k].size),
                                   MemberSize(fields[k], minwordsize))
  }

  /** Decoding a code of the operation, then encoding, gives back every opcode and operand bit. */
  lemma DecodeEncode(littleEndian: bool, fields: seq<BitField>, minwordsize: nat, k: nat, bits: seq<Byte>, mask: seq<Byte>,
                     code: seq<Byte>, values: seq<Word>, str: seq<Byte>, p: int)
    requires ValidFields(fields) && Supported(fields) && k < |fields| && (fields[k].IsOperand() || fields[k].HasOpcode())
    requires |bits| == |mask| && Coded(littleEndian, fields, |fields|, mask, bits)
    requires Patterns.Matches(code, Patterns.Code(mask, bits))
    requires DecodedFrom(littleEndian, fields, minwordsize, code, values)
    requires Encoded(littleEndian, fields, |fields|, bits, values, str)
    requires RangeBegin(littleEndian, fields, k) <= p < RangeEnd(littleEndian, fields, k)
    ensures BitAt(str, p) == BitAt(code, p)
  {
    var f, beg := fields[k], RangeBegin(littleEndian, fields, k);
    assert FieldEncoded(littleEndian, fields, k, bits, values, str);
    assert ReadsBack(littleEndian, fields, k, mask, bits);
    if f.HasOpcode() {
      MatchesAt(code, mask, bits, p);
    }
    if f.IsOperand() {
      var raw := FieldBits(code, beg, f.size);
      DecodedIsCanonical(f, raw, MemberSize(f, minwordsize));
      assert WrittenBits(f, values[k])[p - beg] == raw[p - beg];
    }
  }
}
