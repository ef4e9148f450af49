/** Decoding of operations with sub-operations of variable length. Every field has a fixed position,
    that for the longest sub-operations; after a shorter one the code is stretched to fit. */
module VariableLength {
  import opened Words
  import opened BitAddressing
  import opened FieldLayout
  import opened CodeBuffer
  import opened Operands
  import opened Sequences
  import opened Wrappers
  import Patterns

  /** What a sub-decoder returns: an operation and its length in bits. */
  datatype SubOperation = SubOperation(op: nat, length: nat)

  /** The sub-decoder of each field, as a function of the bits it is given. */
  type SubDecoder = (nat, seq<bool>) -> SubOperation

  /** Sub-decoders return operations of the sizes declared for them. */
  ghost predicate Honest(fields: seq<BitField>, sub: SubDecoder) {
    forall k, s :: 0 <= k < |fields| && fields[k].SubOp? ==> sub(k, s).length in fields[k].sizes
  }

  /** What decoding assigns for one field. */
  datatype Item = Member(value: Word) | Sub(sub: SubOperation) | NoItem

  // ---------- the reference: a parse from left to right

  /** The bits of a field in order of significance. */
  function Significant(littleEndian: bool, s: seq<bool>): (r: seq<bool>)
    ensures |r| == |s|
  {
    if littleEndian then s else Reversed(s)
  }

  /** The field at an actual position, and how many bits it takes there. */
  ghost function ParseField(littleEndian: bool, f: BitField, k: nat, minwordsize: nat, sub: SubDecoder, s: seq<bool>, pos: nat)
    : (Item, nat)
    requires f.Valid() && pos + f.MaxSize() <= |s|
  {
    if f.SubOp? then
      var op := sub(k, s[pos..pos + f.MaxSize()]);
      (Sub(op), op.length)
    else if f.IsOperand() then
      (Member(OperandValue(f, Significant(littleEndian, s[pos..pos + f.size]), MemberSize(f, minwordsize))), f.size)
    else
      (NoItem, f.MaxSize())
  }

  /** The items of the first fields and the position after them, each field where the one before it
      actually ends. */
  ghost function Parse(littleEndian: bool, fields: seq<BitField>, minwordsize: nat, sub: SubDecoder, s: seq<bool>, k: nat)
    : (r: (seq<Item>, nat))
    requires ValidFields(fields) && Honest(fields, sub) && k <= |fields| && Offset(fields, k) <= |s|
    ensures |r.0| == k && r.1 <= Offset(fields, k)
  {
    if k == 0 then ([], 0)
    else
      var (items, pos) := Parse(littleEndian, fields, minwordsize, sub, s, k - 1);
      var (item, size) := ParseField(littleEndian, fields[k - 1], k - 1, minwordsize, sub, s, pos);
      (items + [item], pos + size)
  }

  /** One field more. */
  lemma ParseNext(littleEndian: bool, fields: seq<BitField>, minwordsize: nat, sub: SubDecoder, s: seq<bool>, k: nat)
    requires ValidFields(fields) && Honest(fields, sub) && k < |fields| && Offset(fields, k + 1) <= |s|
    ensures Offset(fields, k) <= Offset(fields, k + 1)
    ensures Parse(littleEndian, fields, minwordsize, sub, s, k).1 <= Parse(littleEndian, fields, minwordsize, sub, s, k + 1).1 <= |s|
    ensures var (items, pos) := Parse(littleEndian, fields, minwordsize, sub, s, k);
            && pos + fields[k].MaxSize() <= |s|
            && var (item, size) := ParseField(littleEndian, fields[k], k, minwordsize, sub, s, pos);
               Parse(littleEndian, fields, minwordsize, sub, s, k + 1) == (items + [item], pos + size)
  {
  }

  // ---------- the emitted code

  /** The bytes handed to a sub-decoder: the bits of the code from a position on. */
  method SubCode(littleEndian: bool, str: seq<Byte>, start: nat, maxsize: nat) returns (sub: seq<Byte>)
    requires start + maxsize <= 8 * |str|
    ensures |sub| == (maxsize + 7) / 8
    ensures forall q :: 0 <= q < 8 * |sub| ==> StreamBit(littleEndian, sub, q) == StreamBit(littleEndian, str, start + q)
  {
    hide SubByte, StreamBit, Ash, Dsh;
    var byteshift, shift := start / 8, start % 8;
    assert start == 8 * byteshift + shift;
    var subbytes := (maxsize + 7) / 8;
    sub := [];
    for idx := 0 to subbytes
      invariant |sub| == idx
      invariant forall i :: 0 <= i < idx ==> SubByte(littleEndian, str, start, sub[i], i)
    {
      var didx := idx + byteshift;
      var byte: Byte := Dsh(littleEndian, str[didx], shift);
      if shift > 0 && didx + 1 < |str| {
        byte := Or(byte, Ash(littleEndian, str[didx + 1], 8 - shift));
      }
      SubByteIs(littleEndian, str, byteshift, shift, byte, idx);
      sub := sub + [byte];
    }
    AllSubBytes(littleEndian, str, start, sub);
  }

  lemma AllSubBytes(littleEndian: bool, str: seq<Byte>, start: nat, sub: seq<Byte>)
    requires forall i :: 0 <= i < |sub| ==> SubByte(littleEndian, str, start, sub[i], i)
    ensures forall q :: 0 <= q < 8 * |sub| ==> StreamBit(littleEndian, sub, q) == StreamBit(littleEndian, str, start + q)
  {
    hide StreamBit;
    forall q | 0 <= q < 8 * |sub|
      ensures StreamBit(littleEndian, sub, q) == StreamBit(littleEndian, str, start + q)
    {
      var i, r := q / 8, q % 8;
      assert q == 8 * i + r;
      Cell(littleEndian, sub, i, r);
      assert SubByte(littleEndian, str, start, sub[i], i);
    }
  }

  /** The bits of a code in stream order, as a value. */
  function Bits(littleEndian: bool, str: seq<Byte>): (s: seq<bool>)
    ensures s == Stream(littleEndian, str)
  {
    seq(8 * |str|, q => StreamBit(littleEndian, str, q))
  }

  ghost predicate SubByte(littleEndian: bool, str: seq<Byte>, start: nat, b: Byte, i: nat) {
    forall r :: 0 <= r < 8 ==> ByteBit(littleEndian, b, r) == StreamBit(littleEndian, str, start + 8 * i + r)
  }

  lemma SubByteIs(littleEndian: bool, str: seq<Byte>, byteshift: nat, shift: nat, b: Byte, i: nat)
    requires byteshift + i < |str| && shift < 8
    requires var didx := i + byteshift;
             b == if shift > 0 && didx + 1 < |str|
                  then Or(Dsh(littleEndian, str[didx], shift), Ash(littleEndian, str[didx + 1], 8 - shift))
                  else Dsh(littleEndian, str[didx], shift)
    ensures SubByte(littleEndian, str, 8 * byteshift + shift, b, i)
  {
    hide StreamBit;
    forall r | 0 <= r < 8
      ensures ByteBit(littleEndian, b, r) == StreamBit(littleEndian, str, 8 * byteshift + shift + 8 * i + r)
    {
      SubBitIs(littleEndian, str, byteshift, shift, b, i, r);
    }
  }

  lemma SubBitIs(littleEndian: bool, str: seq<Byte>, byteshift: nat, shift: nat, b: Byte, i: nat, r: nat)
    requires byteshift + i < |str| && shift < 8 && r < 8
    requires var didx := i + byteshift;
             b == if shift > 0 && didx + 1 < |str|
                  then Or(Dsh(littleEndian, str[didx], shift), Ash(littleEndian, str[didx + 1], 8 - shift))
                  else Dsh(littleEndian, str[didx], shift)
    ensures ByteBit(littleEndian, b, r) == StreamBit(littleEndian, str, 8 * byteshift + shift + 8 * i + r)
  {
    hide StreamBit, Ash, Dsh, Or;
    var didx := i + byteshift;
    if didx + 1 < |str| {
      OrBit(littleEndian, Dsh(littleEndian, str[didx], shift), Ash(littleEndian, str[didx + 1], 8 - shift), r);
    }
    ShiftedBit(littleEndian, str[didx], shift, r);
    if shift + r < 8 {
      Cell(littleEndian, str, didx, shift + r);
      assert 8 * didx + (shift + r) == 8 * byteshift + shift + 8 * i + r;
    } else {
      Cell(littleEndian, str, didx + 1, shift + r - 8);
      assert 8 * (didx + 1) + (shift + r - 8) == 8 * byteshift + shift + 8 * i + r;
    }
    if didx + 1 < |str| {
      ShiftedBit(littleEndian, str[didx + 1], 8 - shift, r);
    }
  }

  /** The working code is the original one behind a number of zeros. */
  lemma FieldOfStretched(littleEndian: bool, fields: seq<BitField>, k: nat, orig: seq<Byte>, work: seq<Byte>, total: nat)
    requires ValidFields(fields) && k < |fields| && Offset(fields, k + 1) <= 8 * |orig| && total <= Offset(fields, k)
    requires Shifted(littleEndian, orig, work, total)
    ensures var pos, size := Offset(fields, k) - total, fields[k].MaxSize();
            FieldBits(work, RangeBegin(littleEndian, fields, k), size) ==
            Significant(littleEndian, Stream(littleEndian, orig)[pos..pos + size])
  {
    hide Shifted, BitAt, StreamBit, Significant, Stream, FieldBits, BitField.MaxSize;
    var pos, size, beg := Offset(fields, k) - total, fields[k].MaxSize(), RangeBegin(littleEndian, fields, k);
    assert beg == if littleEndian then pos + total else -(pos + total + size);
    RangeOfStretched(littleEndian, orig, work, total, pos, size, beg);
  }

  lemma RangeOfStretched(littleEndian: bool, orig: seq<Byte>, work: seq<Byte>, total: nat, pos: nat, size: nat, beg: int)
    requires Shifted(littleEndian, orig, work, total) && pos + total + size <= 8 * |orig|
    requires beg == if littleEndian then pos + total else -(pos + total + size)
    ensures FieldBits(work, beg, size) == Significant(littleEndian, Stream(littleEndian, orig)[pos..pos + size])
  {
    hide Shifted, BitAt, StreamBit, Stream, FieldBits;
    var s := Stream(littleEndian, orig)[pos..pos + size];
    forall j | 0 <= j < size ensures BitAt(work, beg + j) == Significant(littleEndian, s)[j] {
      StretchedAt(littleEndian, orig, work, total, beg + j, if littleEndian then beg + j else -1 - (beg + j));
    }
  }

  lemma StretchedAt(littleEndian: bool, orig: seq<Byte>, work: seq<Byte>, total: nat, p: int, q: int)
    requires Shifted(littleEndian, orig, work, total) && total <= q < 8 * |orig| && p == StreamPosition(littleEndian, q)
    ensures BitAt(work, p) == StreamBit(littleEndian, orig, q - total)
  {
    assert StreamBit(littleEndian, work, q) == BitAt(work, p);
  }

  lemma ShiftedTwice(littleEndian: bool, a: seq<Byte>, b: seq<Byte>, c: seq<Byte>, m: nat, n: nat)
    requires Shifted(littleEndian, a, b, m) && Shifted(littleEndian, b, c, n)
    ensures Shifted(littleEndian, a, c, m + n)
  {
  }

  lemma SubOfStretched(littleEndian: bool, orig: seq<Byte>, work: seq<Byte>, sub: seq<Byte>, total: nat, start: nat, maxsize: nat)
    requires Shifted(littleEndian, orig, work, total) && total <= start && start + maxsize <= 8 * |orig|
    requires maxsize <= 8 * |sub|
    requires forall q :: 0 <= q < 8 * |sub| ==> StreamBit(littleEndian, sub, q) == StreamBit(littleEndian, work, start + q)
    ensures Stream(littleEndian, sub)[..maxsize] == Stream(littleEndian, orig)[start - total..start - total + maxsize]
  {
    forall q | 0 <= q < maxsize
      ensures Stream(littleEndian, sub)[q] == Stream(littleEndian, orig)[start - total + q]
    {
      assert StreamBit(littleEndian, work, start + q) == StreamBit(littleEndian, orig, start + q - total);
    }
  }

  /** The state of decoding before field k: the items so far, and how far the code is stretched. */
  ghost predicate Progress(littleEndian: bool, fields: seq<BitField>, minwordsize: nat, sub: SubDecoder,
                           orig: seq<Byte>, work: seq<Byte>, k: nat, items: seq<Item>, total: nat)
  {
    && ValidFields(fields) && Honest(fields, sub) && k <= |fields| && Offset(fields, |fields|) <= 8 * |orig|
    && Offset(fields, k) <= Offset(fields, |fields|)
    && total <= Offset(fields, k)
    && Shifted(littleEndian, orig, work, total)
    && Parse(littleEndian, fields, minwordsize, sub, Stream(littleEndian, orig), k) == (items, Offset(fields, k) - total)
  }

  lemma ProgressStart(littleEndian: bool, fields: seq<BitField>, minwordsize: nat, sub: SubDecoder, orig: seq<Byte>)
    requires ValidFields(fields) && Honest(fields, sub) && Offset(fields, |fields|) <= 8 * |orig|
    ensures Progress(littleEndian, fields, minwordsize, sub, orig, orig, 0, [], 0)
  {
  }

  /** A field of fixed size. */
  lemma ProgressFixed(littleEndian: bool, fields: seq<BitField>, minwordsize: nat, sub: SubDecoder,
                      orig: seq<Byte>, work: seq<Byte>, k: nat, items: seq<Item>, total: nat, item: Item)
    requires Progress(littleEndian, fields, minwordsize, sub, orig, work, k, items, total)
    requires k < |fields| && !fields[k].SubOp?
    requires item == if fields[k].IsOperand()
                     then Member(OperandValue(fields[k],
                                              FieldBits(work, RangeBegin(littleEndian, fields, k), fields[k].size),
                                              MemberSize(fields[k], minwordsize)))
                     else NoItem
    ensures Progress(littleEndian, fields, minwordsize, sub, orig, work, k + 1, items + [item], total)
  {
    hide Shifted, OperandValue, Stream, FieldBits, Significant, OperandBit, MemberSize;
    OffsetMonotone(fields, k + 1, |fields|);
    FieldOfStretched(littleEndian, fields, k, orig, work, total);
  }

  /** A sub-operation, after which the code is stretched by what it fell short. */
  lemma ProgressSub(littleEndian: bool, fields: seq<BitField>, minwordsize: nat, sub: SubDecoder,
                    orig: seq<Byte>, work: seq<Byte>, k: nat, items: seq<Item>, total: nat,
                    bits: seq<bool>, work': seq<Byte>)
    requires Progress(littleEndian, fields, minwordsize, sub, orig, work, k, items, total)
    requires k < |fields| && fields[k].SubOp?
    requires var pos := Offset(fields, k) - total;
             pos + fields[k].MaxSize() <= 8 * |orig| && bits == Stream(littleEndian, orig)[pos..pos + fields[k].MaxSize()]
    requires sub(k, bits).length <= fields[k].MaxSize()
    requires Shifted(littleEndian, orig, work', total + fields[k].MaxSize() - sub(k, bits).length)
    ensures Progress(littleEndian, fields, minwordsize, sub, orig, work', k + 1, items + [Sub(sub(k, bits))],
                     total + fields[k].MaxSize() - sub(k, bits).length)
  {
    hide *;
    ProgressParse(littleEndian, fields, minwordsize, sub, orig, work, k, items, total);
    ProgressFacts(littleEndian, fields, minwordsize, sub, orig, work, k, items, total);
    OffsetMonotone(fields, k + 1, |fields|);
    ParseSub(littleEndian, fields, minwordsize, sub, Stream(littleEndian, orig), k, items, Offset(fields, k) - total);
    ProgressFrom(littleEndian, fields, minwordsize, sub, orig, work', k + 1, items + [Sub(sub(k, bits))],
                 total + fields[k].MaxSize() - sub(k, bits).length);
  }

  lemma ProgressParse(littleEndian: bool, fields: seq<BitField>, minwordsize: nat, sub: SubDecoder,
                      orig: seq<Byte>, work: seq<Byte>, k: nat, items: seq<Item>, total: nat)
    requires Progress(littleEndian, fields, minwordsize, sub, orig, work, k, items, total)
    ensures ValidFields(fields) && Honest(fields, sub) && k <= |fields| && Offset(fields, |fields|) <= 8 * |orig|
    ensures Offset(fields, k) <= 8 * |orig| && total <= Offset(fields, k)
    ensures Parse(littleEndian, fields, minwordsize, sub, Stream(littleEndian, orig), k) == (items, Offset(fields, k) - total)
  {
  }

  lemma ProgressFrom(littleEndian: bool, fields: seq<BitField>, minwordsize: nat, sub: SubDecoder,
                     orig: seq<Byte>, work: seq<Byte>, k: nat, items: seq<Item>, total: nat)
    requires ValidFields(fields) && Honest(fields, sub) && k <= |fields|
    requires Offset(fields, k) <= Offset(fields, |fields|) <= 8 * |orig| && total <= Offset(fields, k)
    requires Shifted(littleEndian, orig, work, total)
    requires Parse(littleEndian, fields, minwordsize, sub, Stream(littleEndian, orig), k) == (items, Offset(fields, k) - total)
    ensures Progress(littleEndian, fields, minwordsize, sub, orig, work, k, items, total)
  {
  }

  lemma ParseSub(littleEndian: bool, fields: seq<BitField>, minwordsize: nat, sub: SubDecoder, s: seq<bool>, k: nat,
                 items: seq<Item>, pos: nat)
    requires ValidFields(fields) && Honest(fields, sub) && k < |fields| && fields[k].SubOp? && Offset(fields, k + 1) <= |s|
    requires Parse(littleEndian, fields, minwordsize, sub, s, k) == (items, pos)
    ensures var op := sub(k, s[pos..pos + fields[k].MaxSize()]);
            Parse(littleEndian, fields, minwordsize, sub, s, k + 1) == (items + [Sub(op)], pos + op.length)
  {
  }

  lemma ProgressFacts(littleEndian: bool, fields: seq<BitField>, minwordsize: nat, sub: SubDecoder,
                      orig: seq<Byte>, work: seq<Byte>, k: nat, items: seq<Item>, total: nat)
    requires Progress(littleEndian, fields, minwordsize, sub, orig, work, k, items, total)
    ensures |work| == |orig| && total <= Offset(fields, k) && Shifted(littleEndian, orig, work, total)
    ensures k < |fields| ==>
              && fields[k].Valid() && Offset(fields, k + 1) == Offset(fields, k) + fields[k].MaxSize() <= 8 * |orig|
              && forall p :: RangeBegin(littleEndian, fields, k) <= p < RangeEnd(littleEndian, fields, k) ==> ByteOf(p) < |orig|
    ensures k < |fields| && fields[k].SubOp? ==> forall bits :: sub(k, bits).length <= fields[k].MaxSize()
  {
    if k < |fields| {
      RangeInside(littleEndian, fields, k, |orig|);
    }
  }

  lemma IteratorFacts(fi: FieldIterator)
    requires fi.Valid() && 0 < fi.nbf
    ensures fi.nbf <= |fi.bitfields| && ValidFields(fi.bitfields)
    ensures fi.beg == RangeBegin(fi.littleEndian, fi.bitfields, fi.nbf - 1)
    ensures fi.end == RangeEnd(fi.littleEndian, fi.bitfields, fi.nbf - 1)
    ensures Offset(fi.bitfields, fi.nbf - 1) == if fi.littleEndian then fi.beg else -fi.end
    ensures OneSided(fi.beg, fi.end) && fi.end - fi.beg == fi.bitfields[fi.nbf - 1].MaxSize()
  {
  }

  /** Decodes a sub-operation and stretches the code behind it. */
  method DecodeSub(fi: FieldIterator, work: CodeType, minwordsize: nat, sub: SubDecoder,
                   ghost orig: seq<Byte>, ghost items: seq<Item>, ghost total: nat)
    returns (op: SubOperation, shortening: nat)
    requires fi.Valid() && 0 < fi.nbf && fi.bitfields[fi.nbf - 1].SubOp?
    requires work.Valid() && work.littleEndian == fi.littleEndian
    requires Progress(fi.littleEndian, fi.bitfields, minwordsize, sub, orig, work.str[..], fi.nbf - 1, items, total)
    modifies work.str
    ensures work.Valid()
    ensures Progress(fi.littleEndian, fi.bitfields, minwordsize, sub, orig, work.str[..], fi.nbf, items + [Sub(op)], total + shortening)
  {
    hide *;
    WorkFacts(work);
    IteratorFacts(fi);
    var littleEndian, fields, k := fi.littleEndian, fi.bitfields, fi.nbf - 1;
    ghost var before := work.str[..];
    ProgressFacts(littleEndian, fields, minwordsize, sub, orig, before, k, items, total);
    SubFacts(fields[k]);
    var maxsize := MaxOf(fields[k].sizes);
    SubMaxSize(fields[k], maxsize);
    var start := if littleEndian then fi.beg else -fi.end;
    var subcode := SubCode(littleEndian, work.str[..], start, maxsize);
    SubOfStretched(littleEndian, orig, before, subcode, total, start, maxsize);
    var bits := Bits(littleEndian, subcode)[..maxsize];
    op := sub(k, bits);
    shortening := maxsize - op.length;
    work.StretchFront(shortening);
    ShiftedTwice(littleEndian, orig, before, work.str[..], total, shortening);
    ProgressSub(littleEndian, fields, minwordsize, sub, orig, before, k, items, total, bits, work.str[..]);
  }

  lemma WorkFacts(work: CodeType)
    requires work.Valid()
    ensures 0 < work.str.Length
  {
  }

  lemma SubFacts(f: BitField)
    requires f.Valid() && f.SubOp?
    ensures f.sizes != {}
  {
  }

  lemma SubMaxSize(f: BitField, m: nat)
    requires f.Valid() && f.SubOp? && IsLargest(f.sizes, m)
    ensures f.MaxSize() == m
  {
  }

  /** Decodes an operand, or passes over a field without one. */
  method DecodeMember(fi: FieldIterator, work: CodeType, minwordsize: nat, sub: SubDecoder,
                      ghost orig: seq<Byte>, ghost items: seq<Item>, ghost total: nat)
    returns (item: Item)
    requires fi.Valid() && 0 < fi.nbf && !fi.bitfields[fi.nbf - 1].SubOp?
    requires work.littleEndian == fi.littleEndian && Supported(fi.bitfields)
    requires Progress(fi.littleEndian, fi.bitfields, minwordsize, sub, orig, work.str[..], fi.nbf - 1, items, total)
    ensures Progress(fi.littleEndian, fi.bitfields, minwordsize, sub, orig, work.str[..], fi.nbf, items + [item], total)
  {
    var littleEndian, fields, k := fi.littleEndian, fi.bitfields, fi.nbf - 1;
    assert fields[k].IsOperand() ==> fields[k].size + fields[k].lshift <= 64;
    hide *;
    IteratorFacts(fi);
    ProgressFacts(littleEndian, fields, minwordsize, sub, orig, work.str[..], k, items, total);
    item := NoItem;
    OperandFacts(fields[k]);
    if fields[k].IsOperand() {
      var v := DecodeOperand(fields[k], work.str[..], fi.beg, fi.end, minwordsize);
      item := Member(v);
    }
    ProgressFixed(littleEndian, fields, minwordsize, sub, orig, work.str[..], k, items, total, item);
  }

  lemma OperandFacts(f: BitField)
    requires f.Valid()
    ensures f.IsOperand() <==> f.Operand? || f.SpecializedOperand?
    ensures f.IsOperand() ==> f.MaxSize() == f.size
  {
  }

  lemma Finished(littleEndian: bool, fields: seq<BitField>, minwordsize: nat, sub: SubDecoder,
                 orig: seq<Byte>, work: seq<Byte>, items: seq<Item>, total: nat)
    requires Progress(littleEndian, fields, minwordsize, sub, orig, work, |fields|, items, total)
    ensures ValidFields(fields) && Honest(fields, sub) && total <= Offset(fields, |fields|) <= 8 * |orig|
    ensures Parse(littleEndian, fields, minwordsize, sub, Stream(littleEndian, orig), |fields|)
            == (items, Offset(fields, |fields|) - total)
  {
  }

  /** The emitted decoding of one operation: NotEnoughBytes if the code is shorter than the longest
      form of the operation; otherwise the members and sub-operations, and the length found. */
  method Decode(fields: seq<BitField>, code: CodeType, minwordsize: nat, sub: SubDecoder)
    returns (r: Option<(seq<Item>, nat)>)
    requires ValidFields(fields) && Supported(fields) && Honest(fields, sub)
    requires code.Valid()
    ensures r.None? <==> code.size < Offset(fields, |fields|)
    ensures r.Some? ==>
              r.value == Parse(code.littleEndian, fields, minwordsize, sub, Stream(code.littleEndian, code.str[..]), |fields|)
  {
    var opsize, vlen, lengths := Sizes(fields);
    if code.size < opsize {
      return None;
    }
    ghost var orig := code.str[..];
    ProgressStart(code.littleEndian, fields, minwordsize, sub, orig);
    var work := new CodeType(code.littleEndian, code.str.Length, code.str[..], 8 * code.str.Length);
    assert work.str[..] == orig;
    var items, size := DecodeFields(fields, work, minwordsize, sub, opsize, orig);
    return Some((items, size));
  }

  // ---------- encoding and decoding

  /** The operands among the first fields are those at their fixed positions. */
  ghost predicate FixedItems(littleEndian: bool, fields: seq<BitField>, minwordsize: nat, str: seq<Byte>, items: seq<Item>)
    requires ValidFields(fields) && |items| <= |fields|
  {
    forall j :: 0 <= j < |items| && fields[j].IsOperand() ==>
      items[j] == Member(Redecoded(littleEndian, fields, j, str, MemberSize(fields[j], minwordsize)))
  }

  /** Without sub-operations every field is parsed at its fixed position. */
  lemma {:induction false} ParseFixed(littleEndian: bool, fields: seq<BitField>, minwordsize: nat, sub: SubDecoder,
                                      str: seq<Byte>, k: nat)
    requires ValidFields(fields) && Honest(fields, sub) && k <= |fields| && Offset(fields, |fields|) <= 8 * |str|
    requires forall j :: 0 <= j < |fields| ==> !fields[j].SubOp?
    ensures Offset(fields, k) <= 8 * |str|
    ensures var (items, pos) := Parse(littleEndian, fields, minwordsize, sub, Stream(littleEndian, str), k);
            pos == Offset(fields, k) && FixedItems(littleEndian, fields, minwordsize, str, items)
    decreases k
  {
    hide *;
    OffsetMonotone(fields, k, |fields|);
    if k == 0 {
      NoneParsed(littleEndian, fields, minwordsize, sub, str);
    } else {
      ParseFixed(littleEndian, fields, minwordsize, sub, str, k - 1);
      ParseNext(littleEndian, fields, minwordsize, sub, Stream(littleEndian, str), k - 1);
      FieldFixed(littleEndian, fields, minwordsize, sub, str, k - 1);
      var (items, pos) := Parse(littleEndian, fields, minwordsize, sub, Stream(littleEndian, str), k - 1);
      var (item, _) := ParseField(littleEndian, fields[k - 1], k - 1, minwordsize, sub, Stream(littleEndian, str), pos);
      FixedNext(littleEndian, fields, minwordsize, str, items, item);
    }
  }

  lemma NoneParsed(littleEndian: bool, fields: seq<BitField>, minwordsize: nat, sub: SubDecoder, str: seq<Byte>)
    requires ValidFields(fields) && Honest(fields, sub)
    ensures Parse(littleEndian, fields, minwordsize, sub, Stream(littleEndian, str), 0) == ([], 0) && Offset(fields, 0) == 0
    ensures FixedItems(littleEndian, fields, minwordsize, str, [])
  {
  }

  lemma FixedNext(littleEndian: bool, fields: seq<BitField>, minwordsize: nat, str: seq<Byte>, items: seq<Item>, item: Item)
    requires ValidFields(fields) && |items| < |fields| && FixedItems(littleEndian, fields, minwordsize, str, items)
    requires var k := |items|;
             fields[k].IsOperand() ==> item == Member(Redecoded(littleEndian, fields, k, str, MemberSize(fields[k], minwordsize)))
    ensures FixedItems(littleEndian, fields, minwordsize, str, items + [item])
  {
    hide Redecoded, MemberSize;
  }

  lemma FieldFixed(littleEndian: bool, fields: seq<BitField>, minwordsize: nat, sub: SubDecoder, str: seq<Byte>, k: nat)
    requires ValidFields(fields) && k < |fields| && Offset(fields, k + 1) <= 8 * |str| && !fields[k].SubOp?
    ensures fields[k].Valid()
    ensures var s, f := Stream(littleEndian, str), fields[k];
            && Offset(fields, k) + f.MaxSize() == Offset(fields, k + 1)
            && ParseField(littleEndian, f, k, minwordsize, sub, s, Offset(fields, k)).1 == f.MaxSize()
            && (f.IsOperand() ==>
                  ParseField(littleEndian, f, k, minwordsize, sub, s, Offset(fields, k)).0
                  == Member(Redecoded(littleEndian, fields, k, str, MemberSize(f, minwordsize))))
  {
    NotStretched(littleEndian, str);
    hide OperandValue, Significant, MemberSize, Stream, FieldBits, Shifted;
    FieldOfStretched(littleEndian, fields, k, str, str, 0);
  }

  lemma NotStretched(littleEndian: bool, str: seq<Byte>)
    ensures Shifted(littleEndian, str, str, 0)
  {
  }

  /** Encoding members and decoding the code again, as an operation with that mask and those bits: the code is
      one of the operation and all members come back, up to the bits that their fields cannot hold, exactly if
      every specialized operand has the value that the operation is specialized for. */
  method EncodeThenDecode(fields: seq<BitField>, littleEndian: bool, bits: seq<Byte>, ghost mask: seq<Byte>,
                          minwordsize: nat, values: seq<Word>, sub: SubDecoder)
    returns (r: Option<(seq<Item>, nat)>, ghost str: seq<Byte>)
    requires ValidFields(fields) && Supported(fields) && |values| == |fields|
    requires 0 < |bits| == |mask| && Coded(littleEndian, fields, |fields|, mask, bits) && Offset(fields, |fields|) <= 8 * |bits|
    requires forall k :: 0 <= k < |fields| && fields[k].IsOperand() ==> |values[k]| == MemberSize(fields[k], minwordsize)
    ensures r.None? <==> exists k :: 0 <= k < |fields| && fields[k].SubOp?
    ensures r.Some? ==>
              && |r.value.0| == |fields| && r.value.1 == Offset(fields, |fields|)
              && (Patterns.Matches(str, Patterns.Code(mask, bits))
                  && (forall k :: 0 <= k < |fields| && fields[k].IsOperand() ==>
                        r.value.0[k] == Member(Canonical(fields[k], values[k])))
                  <==> forall k :: 0 <= k < |fields| && fields[k].IsOperand() ==> IsSpecialized(fields[k], values[k]))
  {
    str := [];
    assert ClearFrom(littleEndian, Offset(fields, |fields|), bits);
    hide Coded, Encoded, Offset, Canonical, IsSpecialized, Patterns.Matches, Supported;
    var code := Encode(fields, littleEndian, bits, minwordsize, values);
    if code.None? {
      return None, str;
    }
    str := code.value.str[..];
    r := Decode(fields, code.value, minwordsize, sub);
    ParseFixed(littleEndian, fields, minwordsize, sub, str, |fields|);
    MembersFit(fields, minwordsize);
    EncodeDecode(littleEndian, fields, bits, mask, values, str);
  }

  lemma MembersFit(fields: seq<BitField>, minwordsize: nat)
    requires Supported(fields)
    ensures forall k :: 0 <= k < |fields| && fields[k].IsOperand() ==>
              fields[k].size + fields[k].lshift <= MemberSize(fields[k], minwordsize)
  {
  }

  /** The loop over the fields; the size shrinks by what the sub-operations fall short. */
  method DecodeFields(fields: seq<BitField>, work: CodeType, minwordsize: nat, sub: SubDecoder, opsize: nat,
                      ghost orig: seq<Byte>)
    returns (items: seq<Item>, size: nat)
    requires ValidFields(fields) && Supported(fields) && Honest(fields, sub) && work.Valid()
    requires opsize == Offset(fields, |fields|) <= 8 * |orig|
    requires Progress(work.littleEndian, fields, minwordsize, sub, orig, work.str[..], 0, [], 0)
    modifies work.str
    ensures (items, size) == Parse(work.littleEndian, fields, minwordsize, sub, Stream(work.littleEndian, orig), |fields|)
  {
    hide *;
    var littleEndian := work.littleEndian;
    items := [];
    ghost var total: nat := 0;
    var left: int := opsize;
    var fi := new FieldIterator(fields, littleEndian);
    while true
      invariant fi.Valid() && fi.bitfields == fields && fi.littleEndian == littleEndian && fi.nbf <= |fields|
      invariant fresh(fi) && work.Valid()
      invariant Progress(littleEndian, fields, minwordsize, sub, orig, work.str[..], fi.nbf, items, total)
      invariant left == opsize - total
      decreases |fields| - fi.nbf
    {
      var more := fi.Next();
      if !more {
        break;
      }
      if fields[fi.nbf - 1].SubOp? {
        var op, shortening := DecodeSub(fi, work, minwordsize, sub, orig, items, total);
        left := left - shortening;
        total := total + shortening;
        items := items + [Sub(op)];
      } else {
        var item := DecodeMember(fi, work, minwordsize, sub, orig, items, total);
        items := items + [item];
      }
    }
    Finished(littleEndian, fields, minwordsize, sub, orig, work.str[..], items, total);
    size := left;
  }
}
