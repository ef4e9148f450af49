/** The scalar back end, for instruction sets of at most 64 bits: codes are integers. It decodes what the
    buffer back end decodes, except where it prints a literal of more than 32 bits with a 32-bit format,
    or shifts by the width of a type. */
module ScalarBackEnd {
  import opened Words
  import opened BitAddressing
  import opened FieldLayout
  import opened Wrappers
  import opened CodeBuffer
  import opened Operands
  import Patterns

  /** The integer and the buffer hold the same code of so many bits: the integer's most significant
      bit comes first in a big-endian instruction set. */
  ghost predicate SameCode(littleEndian: bool, maxsize: nat, w: Word, str: seq<Byte>) {
    && maxsize <= |w|
    && forall i :: 0 <= i < maxsize ==> w[i] == BitAt(str, if littleEndian then i else i - maxsize)
  }

  /** What the format for `unsigned int` prints of a 64-bit value. */
  const PRINTED: nat := 32

  function Printed(w: Word): (r: Word)
    ensures |r| == |w| && forall i :: 0 <= i < |w| ==> r[i] == (i < PRINTED && w[i])
  {
    seq(|w|, i requires 0 <= i < |w| => i < PRINTED && w[i])
  }

  /** `getbits` or `getmask` over all bits of the instruction set. */
  method Whole(littleEndian: bool, maxsize: nat, str: seq<Byte>, width: nat) returns (w: Word)
    requires maxsize <= width && 8 <= width && maxsize <= 8 * |str|
    ensures IsWhole(littleEndian, maxsize, w, str) && |w| == width
  {
    var (beg, end) := if littleEndian then (0, maxsize as int) else (-(maxsize as int), 0);
    forall p | beg <= p < end ensures ByteOf(p) < |str| {
      PositionInside(p, |str|);
    }
    w := Extract(str, beg, end, width);
  }

  ghost predicate IsWhole(littleEndian: bool, maxsize: nat, w: Word, str: seq<Byte>) {
    SameCode(littleEndian, maxsize, w, str) && forall i :: maxsize <= i < |w| ==> !w[i]
  }

  /** The two literals of a table entry: the mask is printed in full, the bits are not. */
  method Literals(littleEndian: bool, maxsize: nat, c: Patterns.Code, width: nat)
    returns (mask: Word, bits: Word, ghost whole: Word)
    requires maxsize <= width && 8 <= width && maxsize <= 8 * |c.mask| && |c.bits| == |c.mask|
    ensures |mask| == |whole| == width && bits == Printed(whole)
    ensures IsWhole(littleEndian, maxsize, mask, c.mask) && IsWhole(littleEndian, maxsize, whole, c.bits)
  {
    mask := Whole(littleEndian, maxsize, c.mask, width);
    var w := Whole(littleEndian, maxsize, c.bits, width);
    whole := w;
    bits := Printed(w);
  }

  /** A code of the instruction set, as integer and as bytes, with the pattern of an operation and its two
      literals before they are printed. */
  ghost predicate Represented(littleEndian: bool, maxsize: nat, w: Word, str: seq<Byte>, c: Patterns.Code, mask: Word, bits: Word) {
    && |w| == |mask| == |bits| && |str| == |c.mask| == |c.bits| && maxsize <= 8 * |str|
    && SameCode(littleEndian, maxsize, w, str)
    && IsWhole(littleEndian, maxsize, mask, c.mask) && IsWhole(littleEndian, maxsize, bits, c.bits)
    && ClearFrom(littleEndian, maxsize, c.mask) && ClearFrom(littleEndian, maxsize, c.bits)
  }

  /** Whatever the width, a comparison with the whole bits says what the bytewise test says. */
  lemma WholeMatchAgrees(littleEndian: bool, maxsize: nat, w: Word, str: seq<Byte>, c: Patterns.Code, mask: Word, bits: Word)
    requires Represented(littleEndian, maxsize, w, str, c, mask, bits)
    ensures And(w, mask) == bits <==> Patterns.Matches(str, c)
  {
    if And(w, mask) == bits {
      forall i | 0 <= i < |str| ensures And(str[i], c.mask[i]) == c.bits[i] {
        forall r | 0 <= r < 8
          ensures ByteBit(littleEndian, And(str[i], c.mask[i]), r) == ByteBit(littleEndian, c.bits[i], r)
        {
          ScalarCell(littleEndian, maxsize, w, str, c, mask, bits, i, r);
        }
        SameBits(littleEndian, And(str[i], c.mask[i]), c.bits[i]);
      }
    }
    if Patterns.Matches(str, c) {
      forall i | 0 <= i < |w| ensures And(w, mask)[i] == bits[i] {
        if i < maxsize {
          var p := if littleEndian then i else i - maxsize;
          PositionInside(p, |str|);
          assert And(str[ByteOf(p)], c.mask[ByteOf(p)]) == c.bits[ByteOf(p)];
        }
      }
    }
  }

  /** An operation with an opcode bit lost in print is never decoded. */
  lemma OwnCodesRejected(littleEndian: bool, maxsize: nat, w: Word, str: seq<Byte>, c: Patterns.Code, mask: Word, bits: Word)
    requires Represented(littleEndian, maxsize, w, str, c, mask, bits) && Patterns.Matches(str, c)
    requires exists i :: PRINTED <= i < |bits| && bits[i]
    ensures And(w, mask) != Printed(bits)
  {
    hide And, Printed;
    WholeMatchAgrees(littleEndian, maxsize, w, str, c, mask, bits);
    var i :| PRINTED <= i < |bits| && bits[i];
    assert !Printed(bits)[i];
  }

  /** The emitted test agrees with the bytewise one on every code of the instruction set exactly if no
      bit of the opcode is lost in print. */
  lemma MatchAgrees(littleEndian: bool, maxsize: nat, c: Patterns.Code, mask: Word, bits: Word)
    requires Represented(littleEndian, maxsize, bits, c.bits, c, mask, bits) && Patterns.Matches(c.bits, c)
    ensures (forall w, str :: Represented(littleEndian, maxsize, w, str, c, mask, bits) ==>
               (And(w, mask) == Printed(bits) <==> Patterns.Matches(str, c)))
            <==> forall i :: PRINTED <= i < |bits| ==> !bits[i]
  {
    if forall i :: PRINTED <= i < |bits| ==> !bits[i] {
      assert Printed(bits) == bits;
      forall w, str | Represented(littleEndian, maxsize, w, str, c, mask, bits)
        ensures And(w, mask) == Printed(bits) <==> Patterns.Matches(str, c)
      {
        WholeMatchAgrees(littleEndian, maxsize, w, str, c, mask, bits);
      }
    } else {
      OwnCodesRejected(littleEndian, maxsize, bits, c.bits, c, mask, bits);
    }
  }

  /** 0xAB in bits 40 to 47 of a 48-bit code. */
  const HIGH_BYTE: Byte := [true, true, false, true, false, true, false, true]
  const HIGH_OPCODE := Patterns.Code(seq(5, _ => Zeros(8)) + [Ones(8, 8)], seq(5, _ => Zeros(8)) + [HIGH_BYTE])
  const HIGH_MASK: Word := seq(64, i => 40 <= i < 48)
  const HIGH_BITS: Word := seq(64, i => 40 <= i < 48 && HIGH_BYTE[i - 40])

  /** The literal printed for it is 0, and the operation rejects its own code. */
  lemma HighOpcodeIsLost()
    ensures Represented(true, 48, HIGH_BITS, HIGH_OPCODE.bits, HIGH_OPCODE, HIGH_MASK, HIGH_BITS)
    ensures Patterns.Matches(HIGH_OPCODE.bits, HIGH_OPCODE)
    ensures Printed(HIGH_BITS) == Zeros(64) && And(HIGH_BITS, HIGH_MASK) != Printed(HIGH_BITS)
  {
    assert HIGH_BITS[40] && And(HIGH_BITS, HIGH_MASK)[40];
    forall q | 48 <= q ensures !StreamBit(true, HIGH_OPCODE.mask, q) && !StreamBit(true, HIGH_OPCODE.bits, q) {
    }
  }

  lemma SameBits(littleEndian: bool, a: Byte, b: Byte)
    requires forall r :: 0 <= r < 8 ==> ByteBit(littleEndian, a, r) == ByteBit(littleEndian, b, r)
    ensures a == b
  {
    forall j | 0 <= j < 8 ensures a[j] == b[j] {
      var r := if littleEndian then j else 7 - j;
      assert ByteBit(littleEndian, a, r) == ByteBit(littleEndian, b, r);
    }
  }

  /** One bit of the bytewise test, from the integer test. */
  lemma ScalarCell(littleEndian: bool, maxsize: nat, w: Word, str: seq<Byte>, c: Patterns.Code, mask: Word, bits: Word,
                   i: nat, r: nat)
    requires |w| == |mask| == |bits| && |str| == |c.mask| == |c.bits| && i < |str| && r < 8
    requires SameCode(littleEndian, maxsize, w, str)
    requires SameCode(littleEndian, maxsize, mask, c.mask) && SameCode(littleEndian, maxsize, bits, c.bits)
    requires ClearFrom(littleEndian, maxsize, c.mask) && ClearFrom(littleEndian, maxsize, c.bits)
    requires And(w, mask) == bits
    ensures ByteBit(littleEndian, And(str[i], c.mask[i]), r) == ByteBit(littleEndian, c.bits[i], r)
  {
    var q := 8 * i + r;
    Cell(littleEndian, str, i, r);
    Cell(littleEndian, c.mask, i, r);
    Cell(littleEndian, c.bits, i, r);
    if q < maxsize {
      var k := if littleEndian then q else maxsize - 1 - q;
      assert And(w, mask)[k] == bits[k];
      assert StreamPosition(littleEndian, q) == if littleEndian then k else k - maxsize;
    } else {
      assert !StreamBit(littleEndian, c.mask, q) && !StreamBit(littleEndian, c.bits, q);
    }
  }

  // ---------- operands

  /** The width in which C evaluates an expression on codes: at least that of `int`. */
  function Promoted(ctype: nat): (n: nat)
    ensures n >= ctype && n >= 32
  {
    if ctype < 32 then 32 else ctype
  }

  /** The position of a field in the integer. */
  function ScalarPosition(beg: int, maxsize: nat): int {
    if beg < 0 then beg + maxsize else beg
  }

  /** What scalar decoding makes of an operand. Its mask is printed like the opcode; the shifts for sign
      extension are made in the type of the code, promoted, where shifting by the width or more is undefined. */
  function ScalarResult(f: BitField, code: Word, pos: nat, minwordsize: nat): Option<Word>
    requires f.IsOperand() && pos + f.size <= |code|
  {
    if f.sext && MemberSize(f, minwordsize) > Promoted(|code|) then None
    else Some(OperandValue(f, Printed(code[pos..pos + f.size]), MemberSize(f, minwordsize)))
  }

  method ScalarOperand(f: BitField, code: Word, pos: nat, minwordsize: nat) returns (r: Option<Word>)
    requires f.IsOperand() && pos + f.size <= |code| && 0 < f.size && f.size + f.lshift <= 64 && f.finalSize <= 64
    requires IsCtype(|code|) && IsCtype(minwordsize)
    ensures r == ScalarResult(f, code, pos, minwordsize)
  {
    hide *;
    OperandKind(f);
    ShiftDefined(f, |code|, minwordsize);
    var opsize := MemberSize(f, minwordsize);
    var value := And(Shr(code, pos), Printed(Ones(|code|, f.size)));
    ghost var bits := Printed(code[pos..pos + f.size]);
    ScalarResultIs(f, code, pos, minwordsize);
    ExtractedSlice(code, pos, f.size);
    var v: Word;
    if f.sext {
      var shift := opsize - f.size;
      if shift >= Promoted(|code|) {
        return None;
      }
      ShiftedInType(value, bits, Promoted(|code|), opsize);
      v := Sar(Cast(Shl(Cast(value, Promoted(|code|)), shift), opsize), shift);
    } else {
      v := Cast(value, opsize);
      CastExtends(value, bits, opsize);
    }
    ShiftedOperand(f, bits, v);
    v := Shl(v, f.lshift);
    return Some(v);
  }

  lemma ScalarResultIs(f: BitField, code: Word, pos: nat, minwordsize: nat)
    requires f.IsOperand() && pos + f.size <= |code|
    ensures ScalarResult(f, code, pos, minwordsize)
            == if f.sext && MemberSize(f, minwordsize) > Promoted(|code|) then None
               else Some(OperandValue(f, Printed(code[pos..pos + f.size]), MemberSize(f, minwordsize)))
  {
  }

  lemma OperandKind(f: BitField)
    requires f.IsOperand()
    ensures f.Operand? || f.SpecializedOperand?
  {
  }

  lemma ShiftDefined(f: BitField, ctype: nat, minwordsize: nat)
    requires f.IsOperand() && f.size <= ctype && 0 < f.size && f.size + f.lshift <= 64 && f.finalSize <= 64
    requires IsCtype(ctype) && IsCtype(minwordsize)
    ensures MemberSize(f, minwordsize) > Promoted(ctype) <==> MemberSize(f, minwordsize) - f.size >= Promoted(ctype)
    ensures f.size <= MemberSize(f, minwordsize)
  {
  }

  lemma ExtractedSlice(code: Word, pos: nat, size: nat)
    requires pos + size <= |code|
    ensures Extracted(And(Shr(code, pos), Printed(Ones(|code|, size))), Printed(code[pos..pos + size]))
  {
  }

  lemma CastExtends(value: Word, bits: seq<bool>, width: nat)
    requires Extracted(value, bits) && |bits| <= width
    ensures Extended(Cast(value, width), bits, false)
  {
  }

  /** Shifting up in a type at least as wide as the member, and down in that of the member, extends
      the sign. */
  lemma ShiftedInType(value: Word, bits: seq<bool>, wide: nat, opsize: nat)
    requires Extracted(value, bits) && |bits| <= opsize && |value| <= wide
    ensures opsize <= wide ==>
              var shift := opsize - |bits|;
              Extended(Sar(Cast(Shl(Cast(value, wide), shift), opsize), shift), bits, true)
  {
    hide Sar, Shl, Cast;
    if opsize <= wide {
      var shift := opsize - |bits|;
      var up := Cast(Shl(Cast(value, wide), shift), opsize);
      var raw := Cast(value, opsize);
      forall j | 0 <= j < opsize ensures up[j] == Shl(raw, shift)[j] {
        assert up[j] == Bit(Cast(value, wide), j - shift);
      }
      assert up == Shl(raw, shift);
      SignExtend(raw, bits);
    }
  }

  /** The bits of a field are the same in the integer and in the buffer. */
  lemma SlicesAgree(littleEndian: bool, fields: seq<BitField>, k: nat, maxsize: nat, w: Word, str: seq<Byte>)
    requires ValidFields(fields) && k < |fields| && fields[k].IsOperand() && 0 < fields[k].size
    requires SameCode(littleEndian, maxsize, w, str) && Offset(fields, |fields|) <= maxsize
    ensures var pos := ScalarPosition(RangeBegin(littleEndian, fields, k), maxsize);
            && 0 <= pos && pos + fields[k].size <= |w|
            && w[pos..pos + fields[k].size] == FieldBits(str, RangeBegin(littleEndian, fields, k), fields[k].size)
  {
    hide *;
    OperandKind(fields[k]);
    ScalarRange(littleEndian, fields, k, maxsize);
    var beg, size := RangeBegin(littleEndian, fields, k), fields[k].size;
    SameSlice(littleEndian, maxsize, w, str, beg, ScalarPosition(beg, maxsize), size);
    WideEnough(littleEndian, maxsize, w, str);
  }

  lemma WideEnough(littleEndian: bool, maxsize: nat, w: Word, str: seq<Byte>)
    requires SameCode(littleEndian, maxsize, w, str)
    ensures maxsize <= |w|
  {
  }

  /** Where a field lies in the integer. */
  lemma ScalarRange(littleEndian: bool, fields: seq<BitField>, k: nat, maxsize: nat)
    requires ValidFields(fields) && k < |fields| && fields[k].IsOperand() && 0 < fields[k].size
    requires Offset(fields, |fields|) <= maxsize
    ensures var beg := RangeBegin(littleEndian, fields, k);
            var pos := ScalarPosition(beg, maxsize);
            0 <= pos && pos + fields[k].size <= maxsize && beg == if littleEndian then pos else pos - maxsize
  {
    OffsetMonotone(fields, k + 1, |fields|);
    OperandSize(fields[k]);
  }

  /** The two back ends give an operand of a code the same value: what scalar decoding and `DecodeOperand`
      return is equal. */
  ghost predicate SameOperand(littleEndian: bool, fields: seq<BitField>, k: nat, maxsize: nat, minwordsize: nat,
                              w: Word, str: seq<Byte>)
    requires ValidFields(fields) && k < |fields| && fields[k].IsOperand()
  {
    var f, beg := fields[k], RangeBegin(littleEndian, fields, k);
    var pos := ScalarPosition(beg, maxsize);
    0 <= pos && pos + f.size <= |w| &&
    ScalarResult(f, w, pos, minwordsize) == Some(OperandValue(f, FieldBits(str, beg, f.size), MemberSize(f, minwordsize)))
  }

  /** For one code they do exactly if the shifts are defined and no set bit of the field is lost in print. */
  lemma SameOperandIff(littleEndian: bool, fields: seq<BitField>, k: nat, maxsize: nat, minwordsize: nat,
                       w: Word, str: seq<Byte>)
    requires ValidFields(fields) && k < |fields| && fields[k].IsOperand() && 0 < fields[k].size
    requires fields[k].size + fields[k].lshift <= 64
    requires SameCode(littleEndian, maxsize, w, str) && Offset(fields, |fields|) <= maxsize
    ensures SameOperand(littleEndian, fields, k, maxsize, minwordsize, w, str) <==>
            && !(fields[k].sext && MemberSize(fields[k], minwordsize) > Promoted(|w|))
            && forall i :: PRINTED <= i < fields[k].size ==>
                 !FieldBits(str, RangeBegin(littleEndian, fields, k), fields[k].size)[i]
  {
    hide *;
    OperandKind(fields[k]);
    SlicesAgree(littleEndian, fields, k, maxsize, w, str);
    SameOperandIs(littleEndian, fields, k, maxsize, minwordsize, w, str);
    PrintedOperand(fields[k], FieldBits(str, RangeBegin(littleEndian, fields, k), fields[k].size),
                   MemberSize(fields[k], minwordsize));
  }

  lemma SameOperandIs(littleEndian: bool, fields: seq<BitField>, k: nat, maxsize: nat, minwordsize: nat,
                      w: Word, str: seq<Byte>)
    requires ValidFields(fields) && k < |fields| && fields[k].IsOperand()
    requires var pos := ScalarPosition(RangeBegin(littleEndian, fields, k), maxsize);
             && 0 <= pos && pos + fields[k].size <= |w|
             && w[pos..pos + fields[k].size] == FieldBits(str, RangeBegin(littleEndian, fields, k), fields[k].size)
    ensures var bits, width := FieldBits(str, RangeBegin(littleEndian, fields, k), fields[k].size), MemberSize(fields[k], minwordsize);
            SameOperand(littleEndian, fields, k, maxsize, minwordsize, w, str) <==>
              && !(fields[k].sext && width > Promoted(|w|))
              && OperandValue(fields[k], Printed(bits), width) == OperandValue(fields[k], bits, width)
  {
    hide FieldBits, OperandValue, MemberSize, RangeBegin;
  }

  /** Losing bits of a field in print changes the operand exactly if one of them is set. */
  lemma PrintedOperand(f: BitField, bits: seq<bool>, width: nat)
    requires f.IsOperand() && |bits| == f.size && f.size + f.lshift <= width
    ensures OperandValue(f, Printed(bits), width) == OperandValue(f, bits, width)
            <==> forall i :: PRINTED <= i < f.size ==> !bits[i]
  {
    DecodedIsCanonical(f, bits, width);
    DecodedIsCanonical(f, Printed(bits), width);
    hide OperandValue, WrittenBits;
    assert Printed(bits) == bits <==> forall i :: PRINTED <= i < f.size ==> !bits[i];
  }

  /** For all codes of an instruction set they do exactly if the field has at most 32 bits and is not
      sign-extended into a member wider than the promoted type of the codes. */
  lemma OperandsAgree(littleEndian: bool, fields: seq<BitField>, k: nat, maxsize: nat, minwordsize: nat, ctype: nat)
    requires ValidFields(fields) && k < |fields| && fields[k].IsOperand() && 0 < fields[k].size
    requires fields[k].size + fields[k].lshift <= 64
    requires Offset(fields, |fields|) <= maxsize <= ctype
    ensures (forall w, str :: |w| == ctype && SameCode(littleEndian, maxsize, w, str) ==>
               SameOperand(littleEndian, fields, k, maxsize, minwordsize, w, str))
            <==> fields[k].size <= PRINTED && !(fields[k].sext && MemberSize(fields[k], minwordsize) > Promoted(ctype))
  {
    hide SameOperand, SameCode, MemberSize, ValidFields;
    forall w, str | |w| == ctype && SameCode(littleEndian, maxsize, w, str)
      ensures SameOperand(littleEndian, fields, k, maxsize, minwordsize, w, str) <==>
              && !(fields[k].sext && MemberSize(fields[k], minwordsize) > Promoted(ctype))
              && forall i :: PRINTED <= i < fields[k].size ==>
                   !FieldBits(str, RangeBegin(littleEndian, fields, k), fields[k].size)[i]
    {
      SameOperandIff(littleEndian, fields, k, maxsize, minwordsize, w, str);
    }
    var w, str := AllOnes(littleEndian, maxsize, ctype);
    AllOnesField(littleEndian, fields, k, maxsize, w, str);
    if fields[k].size > PRINTED {
      assert FieldBits(str, RangeBegin(littleEndian, fields, k), fields[k].size)[PRINTED];
    }
  }

  lemma AllOnes(littleEndian: bool, maxsize: nat, ctype: nat) returns (w: Word, str: seq<Byte>)
    requires maxsize <= ctype
    ensures |w| == ctype && w == Ones(ctype, ctype) && SameCode(littleEndian, maxsize, w, str)
  {
    w, str := Ones(ctype, ctype), seq(maxsize, _ => Ones(8, 8));
    forall i | 0 <= i < maxsize ensures w[i] == BitAt(str, if littleEndian then i else i - maxsize) {
      PositionInside(if littleEndian then i else i - maxsize, maxsize);
    }
  }

  lemma AllOnesField(littleEndian: bool, fields: seq<BitField>, k: nat, maxsize: nat, w: Word, str: seq<Byte>)
    requires ValidFields(fields) && k < |fields| && fields[k].IsOperand() && 0 < fields[k].size
    requires SameCode(littleEndian, maxsize, w, str) && Offset(fields, |fields|) <= maxsize && w == Ones(|w|, |w|)
    ensures forall i :: 0 <= i < fields[k].size ==> FieldBits(str, RangeBegin(littleEndian, fields, k), fields[k].size)[i]
  {
    hide BitAt, Offset;
    SlicesAgree(littleEndian, fields, k, maxsize, w, str);
  }

  /** An 8-bit field sign-extended into a 64-bit member, in codes of 32 bits. */
  lemma WideSignExtensionIsUndefined()
    ensures ScalarResult(Operand(8, 0, 64, true), Zeros(32), 0, 8) == None
  {
  }

  /** A 40-bit field of ones comes out with 32 of them. */
  lemma WideFieldIsCut()
    ensures ScalarResult(Operand(40, 0, 0, false), Ones(64, 64), 0, 8) == Some(Ones(64, 32))
    ensures OperandValue(Operand(40, 0, 0, false), Ones(64, 64)[0..40], 64) == Ones(64, 40)
  {
    var f, bits := Operand(40, 0, 0, false), Printed(Ones(64, 64)[0..40]);
    assert OperandValue(f, bits, 64) == Ones(64, 32);
  }

  lemma OperandSize(f: BitField)
    requires f.Valid() && f.IsOperand()
    ensures f.MaxSize() == f.size
  {
  }

  /** A slice of the integer is a range of the buffer. */
  lemma SameSlice(littleEndian: bool, maxsize: nat, w: Word, str: seq<Byte>, beg: int, pos: nat, size: nat)
    requires SameCode(littleEndian, maxsize, w, str) && pos + size <= maxsize
    requires beg == if littleEndian then pos else pos - maxsize
    ensures w[pos..pos + size] == FieldBits(str, beg, size)
  {
    hide BitAt;
    var slice := w[pos..pos + size];
    forall j | 0 <= j < size ensures slice[j] == BitAt(str, beg + j) {
      assert slice[j] == w[pos + j];
    }
  }
}
