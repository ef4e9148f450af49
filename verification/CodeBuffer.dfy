/** The `CodeType` that the buffer back end emits: a bit string in a byte buffer of fixed capacity.

    Bits are counted in stream order, the order in which an instruction is read: bit q is bit q % 8
    of byte q / 8 in a little-endian instruction set, and bit 7 - q % 8 in a big-endian one. */
module CodeBuffer {
  import opened Words
  import opened BitAddressing

  /** The bits of a byte buffer in stream order. */
  ghost function Stream(littleEndian: bool, str: seq<Byte>): (s: seq<bool>)
    ensures |s| == 8 * |str|
    ensures forall q :: 0 <= q < |s| ==> s[q] == StreamBit(littleEndian, str, q)
  {
    seq(8 * |str|, q => StreamBit(littleEndian, str, q))
  }

  /** Bit q of a stream is the same bit of every byte of it, up to the numbering in the byte. */
  lemma StreamCell(littleEndian: bool, str: seq<Byte>, i: nat, r: nat)
    requires i < |str| && r < 8
    ensures StreamBit(littleEndian, str, 8 * i + r) == str[i][if littleEndian then r else 7 - r]
  {
    var p := StreamPosition(littleEndian, 8 * i + r);
    if littleEndian {
      assert p / 8 == i && p % 8 == r;
    } else {
      assert p == 8 * (-1 - i) + (7 - r);
      assert p / 8 == -1 - i && p % 8 == 7 - r;
    }
  }

  /** The shift towards later stream bits, and the one towards earlier ones. */
  function Ash(littleEndian: bool, b: Word, n: nat): (r: Word)
    ensures |r| == |b|
  {
    if littleEndian then Shl(b, n) else Shr(b, n)
  }

  function Dsh(littleEndian: bool, b: Word, n: nat): (r: Word)
    ensures |r| == |b|
  {
    if littleEndian then Shr(b, n) else Shl(b, n)
  }

  /** The bits of one byte in stream order; positions outside it read as 0. */
  predicate ByteBit(littleEndian: bool, b: Byte, r: int) {
    Bit(b, if littleEndian then r else 7 - r)
  }

  lemma ShiftedBit(littleEndian: bool, b: Byte, n: nat, r: nat)
    requires r < 8
    ensures ByteBit(littleEndian, Ash(littleEndian, b, n), r) == ByteBit(littleEndian, b, r - n)
    ensures ByteBit(littleEndian, Dsh(littleEndian, b, n), r) == ByteBit(littleEndian, b, r + n)
  {
  }

  lemma OrBit(littleEndian: bool, a: Byte, b: Byte, r: nat)
    requires r < 8
    ensures ByteBit(littleEndian, Or(a, b), r) == (ByteBit(littleEndian, a, r) || ByteBit(littleEndian, b, r))
  {
  }

  /** A stream read at any bit, a byte at a time. */
  lemma StreamByte(littleEndian: bool, str: seq<Byte>, q: int)
    ensures StreamBit(littleEndian, str, q) ==
            (0 <= q < 8 * |str| && ByteBit(littleEndian, str[q / 8], q % 8))
  {
    if 0 <= q {
      assert q == 8 * (q / 8) + q % 8;
      if q < 8 * |str| {
        StreamCell(littleEndian, str, q / 8, q % 8);
      } else {
        var p := StreamPosition(littleEndian, q);
        assert ByteOf(p) >= |str|;
      }
    }
  }

  /** The same for a bit given by its byte, which may lie outside the buffer, and its place there. */
  lemma Cell(littleEndian: bool, str: seq<Byte>, i: int, r: nat)
    requires r < 8
    ensures StreamBit(littleEndian, str, 8 * i + r) == (0 <= i < |str| && ByteBit(littleEndian, str[i], r))
  {
    var q := 8 * i + r;
    assert q / 8 == i && q % 8 == r;
    StreamByte(littleEndian, str, q);
  }

  datatype MatchResult = Match | NoMatch | NotEnoughBytes

  class CodeType {
    const littleEndian: bool
    var size: nat
    const str: array<Byte>

    ghost predicate Valid()
      reads this, str
    {
      0 < str.Length && size <= 8 * str.Length
    }

    /** The bit string. */
    ghost function Contents(): (s: seq<bool>)
      reads this, str
      requires Valid()
      ensures |s| == size
    {
      Stream(littleEndian, str[..])[..size]
    }

    /** The first bits of a source buffer, at most the capacity; whole bytes are copied. */
    constructor (littleEndian: bool, capacity: nat, src: seq<Byte>, sz: nat)
      requires 0 < capacity && ((if sz < 8 * capacity then sz else 8 * capacity) + 7) / 8 <= |src|
      ensures Valid() && this.littleEndian == littleEndian && str.Length == capacity && fresh(str)
      ensures size == if sz < 8 * capacity then sz else 8 * capacity
      ensures Contents() == Stream(littleEndian, src)[..size]
      ensures forall i :: 0 <= i < capacity ==> str[i] == if i < (size + 7) / 8 then src[i] else Zeros(8)
    {
      this.littleEndian := littleEndian;
      size := if sz < 8 * capacity then sz else 8 * capacity;
      str := new Byte[capacity](_ => Zeros(8));
      new;
      for idx := (size + 7) / 8 downto 0
        modifies str
        invariant forall i :: 0 <= i < capacity ==>
                    str[i] == if idx <= i < (size + 7) / 8 then src[i] else Zeros(8)
      {
        str[idx] := src[idx];
      }
      SameBytesSamePrefix(littleEndian, str[..], src, size);
    }

    /** Whether this code starts with another one. */
    method StartsWith(bits: CodeType) returns (r: MatchResult)
      requires Valid() && bits.Valid() && littleEndian == bits.littleEndian
      ensures r == NotEnoughBytes <==> size < bits.size
      ensures r == Match <==> bits.size <= size && Contents()[..bits.size] == bits.Contents()
    {
      if size < bits.size {
        return NotEnoughBytes;
      }
      PrefixOfPrefix(littleEndian, str[..], size, bits.size);
      var end := bits.size / 8;
      for idx := 0 to end
        invariant forall i :: 0 <= i < idx ==> str[i] == bits.str[i]
      {
        if str[idx] != bits.str[idx] {
          BytesDiffer(littleEndian, str[..], bits.str[..], idx, bits.size);
          return NoMatch;
        }
      }
      var tail := bits.size % 8;
      if tail != 0 {
        var tailmask := Dsh(littleEndian, Ones(8, 8), 8 - tail);
        TailTest(littleEndian, str[end], bits.str[end], tail);
        if !IsZero(And(Xor(str[end], bits.str[end]), tailmask)) {
          TailsDiffer(littleEndian, str[..], bits.str[..], bits.size);
          return NoMatch;
        }
      }
      PrefixesAgree(littleEndian, str[..], bits.str[..], bits.size);
      return Match;
    }

    /** Multiplies the bit string by a power of two: zeros come in at the front, in place. */
    method StretchFront(shift: nat)
      requires Valid()
      modifies str
      ensures Valid() && Shifted(littleEndian, old(str[..]), str[..], shift)
    {
      hide Stretched, Stream, StreamBit, Ash, Dsh;
      var hish, losh := shift / 8, shift % 8;
      assert 8 * hish + losh == shift;
      var dst := str.Length - 1;
      var src := dst - hish;
      ghost var was := str[..];
      while dst >= 0
        invariant -1 <= dst < str.Length && src == dst - hish
        invariant forall i :: 0 <= i <= dst ==> str[i] == was[i]
        invariant forall i :: dst < i < str.Length ==> Stretched(littleEndian, was, str[i], i, shift)
        decreases dst
      {
        if src > 0 {
          str[dst] := Or(Ash(littleEndian, str[src], losh), Dsh(littleEndian, str[src - 1], 8 - losh));
        } else if src == 0 {
          str[dst] := Ash(littleEndian, str[src], losh);
        } else {
          str[dst] := Zeros(8);
        }
        StretchedByte(littleEndian, was, str[dst], dst, hish, losh);
        dst, src := dst - 1, src - 1;
      }
      AllStretched(littleEndian, was, str[..], shift);
    }

    /** The partial byte case of `Extend`: puts the first bits of a byte in front of this code. */
    method Complete(last: Byte, mod: nat)
      requires Valid() && 0 < mod < 8
      modifies this, str
      ensures Valid() && TailOf(littleEndian, old(str[..]), last, mod, str[..])
      ensures size == if old(size) + mod < 8 * str.Length then old(size) + mod else 8 * str.Length
    {
      hide Shifted, TailOf;
      ghost var copy := str[..];
      size := if size + mod < 8 * str.Length then size + mod else 8 * str.Length;
      StretchFront(mod);
      ghost var stretched := str[..];
      str[0] := Or(And(str[0], Ash(littleEndian, Ones(8, 8), mod)),
                   And(last, Dsh(littleEndian, Ones(8, 8), 8 - mod)));
      MergedTail(littleEndian, copy, stretched, last, str[..], mod);
    }

    /** Appends the first bits of a source buffer, as far as the capacity goes. */
    method Extend(src: seq<Byte>, sz: nat)
      requires Valid()
      requires ((if sz < 8 * str.Length then sz else 8 * str.Length) + 7) / 8 <= |src|
      modifies this, str
      ensures Valid()
      ensures Contents() == Prefix(old(Contents()) + Prefix(Stream(littleEndian, src), sz), 8 * str.Length)
    {
      hide Stream, StreamBit, Shifted, TailOf;
      var capacity := str.Length;
      var tail := new CodeType(littleEndian, capacity, src, sz);
      var mod := size % 8;
      ghost var was, whole, piece, copy := str[..], size, tail.size, tail.str[..];
      if mod != 0 {
        tail.Complete(str[size / 8], mod);
        size := size - mod;
      } else {
        UnmergedTail(littleEndian, copy);
      }
      ghost var built, extra := tail.str[..], tail.size;
      var from, dst := 0, size / 8;
      while from < capacity && dst < capacity
        invariant tail.str[..] == built && tail.size == extra
        invariant 0 <= from && dst == whole / 8 + from && size == whole - mod && mod == whole % 8
        invariant forall i :: 0 <= i < capacity ==>
                    str[i] == if whole / 8 <= i < dst then tail.str[i - whole / 8] else was[i]
        decreases capacity - from
      {
        str[dst] := tail.str[from];
        from, dst := from + 1, dst + 1;
      }
      size := if size + tail.size < 8 * capacity then size + tail.size else 8 * capacity;
      Concatenated(littleEndian, was, whole, src, sz, piece, copy, built, str[..], size);
    }
  }

  ghost function Prefix(s: seq<bool>, n: nat): seq<bool> {
    if n < |s| then s[..n] else s
  }

  lemma PrefixOfPrefix(littleEndian: bool, str: seq<Byte>, size: nat, n: nat)
    requires n <= size <= 8 * |str|
    ensures Stream(littleEndian, str)[..size][..n] == Stream(littleEndian, str)[..n]
  {
  }

  /** What `extend` copies: the new bits behind the first bits of the byte that it completes. */
  ghost predicate TailOf(littleEndian: bool, copy: seq<Byte>, last: Byte, mod: nat, tail: seq<Byte>) {
    && |tail| == |copy|
    && forall u :: 0 <= u < 8 * |tail| ==>
         StreamBit(littleEndian, tail, u) ==
         if u < mod then ByteBit(littleEndian, last, u) else StreamBit(littleEndian, copy, u - mod)
  }

  lemma MergedTail(littleEndian: bool, copy: seq<Byte>, stretched: seq<Byte>, last: Byte, tail: seq<Byte>, mod: nat)
    requires 0 < mod < 8 && 0 < |copy| && Shifted(littleEndian, copy, stretched, mod)
    requires tail == stretched[0 := Or(And(stretched[0], Ash(littleEndian, Ones(8, 8), mod)),
                                       And(last, Dsh(littleEndian, Ones(8, 8), 8 - mod)))]
    ensures TailOf(littleEndian, copy, last, mod, tail)
  {
    hide StreamBit, Stream;
    forall u | 0 <= u < 8 * |tail|
      ensures StreamBit(littleEndian, tail, u) ==
              if u < mod then ByteBit(littleEndian, last, u) else StreamBit(littleEndian, stretched, u)
    {
      var i, r := u / 8, u % 8;
      assert u == 8 * i + r;
      Cell(littleEndian, tail, i, r);
      Cell(littleEndian, stretched, i, r);
      if i == 0 {
        MergedBit(littleEndian, stretched[0], last, mod, r);
      }
    }
  }

  lemma MergedBit(littleEndian: bool, a: Byte, b: Byte, mod: nat, r: nat)
    requires 0 < mod < 8 && r < 8
    ensures ByteBit(littleEndian, Or(And(a, Ash(littleEndian, Ones(8, 8), mod)), And(b, Dsh(littleEndian, Ones(8, 8), 8 - mod))), r)
            == if r < mod then ByteBit(littleEndian, b, r) else ByteBit(littleEndian, a, r)
  {
  }

  lemma UnmergedTail(littleEndian: bool, copy: seq<Byte>)
    ensures forall last :: TailOf(littleEndian, copy, last, 0, copy)
  {
  }

  lemma Concatenated(littleEndian: bool, was: seq<Byte>, whole: nat, src: seq<Byte>, sz: nat, piece: nat,
                     copy: seq<Byte>, tail: seq<Byte>, now: seq<Byte>, size: nat)
    requires |was| == |now| == |copy| && whole <= 8 * |was| && piece <= 8 * |copy| && piece <= 8 * |src|
    requires forall i :: 0 <= i < (piece + 7) / 8 ==> copy[i] == src[i]
    requires TailOf(littleEndian, copy, if whole < 8 * |was| then was[whole / 8] else Zeros(8), whole % 8, tail)
    requires forall i :: 0 <= i < |now| ==> now[i] == if whole / 8 <= i then tail[i - whole / 8] else was[i]
    requires size == if whole + piece < 8 * |was| then whole + piece else 8 * |was|
    requires piece == if sz < 8 * |was| then sz else 8 * |was|
    ensures Stream(littleEndian, now)[..size] ==
            Prefix(Stream(littleEndian, was)[..whole] + Prefix(Stream(littleEndian, src), sz), 8 * |was|)
  {
    hide StreamBit, TailOf, ByteBit, Prefix;
    var r := Stream(littleEndian, was)[..whole] + Prefix(Stream(littleEndian, src), sz);
    PrefixIs(Stream(littleEndian, src), sz);
    PrefixIs(r, 8 * |was|);
    forall q | 0 <= q < size ensures Stream(littleEndian, now)[q] == r[q] {
      ConcatenatedBit(littleEndian, was, whole, src, piece, copy, tail, now, q);
    }
    assert r[..size] == Stream(littleEndian, now)[..size];
  }

  lemma PrefixIs(s: seq<bool>, n: nat)
    ensures Prefix(s, n) == s[..if n < |s| then n else |s|]
  {
  }

  lemma ConcatenatedBit(littleEndian: bool, was: seq<Byte>, whole: nat, src: seq<Byte>, piece: nat,
                        copy: seq<Byte>, tail: seq<Byte>, now: seq<Byte>, q: nat)
    requires |was| == |now| == |copy| && whole <= 8 * |was| && piece <= 8 * |copy| && piece <= 8 * |src|
    requires forall i :: 0 <= i < (piece + 7) / 8 ==> copy[i] == src[i]
    requires TailOf(littleEndian, copy, if whole < 8 * |was| then was[whole / 8] else Zeros(8), whole % 8, tail)
    requires forall i :: 0 <= i < |now| ==> now[i] == if whole / 8 <= i then tail[i - whole / 8] else was[i]
    requires q < whole + piece && q < 8 * |was|
    ensures StreamBit(littleEndian, now, q) ==
            if q < whole then StreamBit(littleEndian, was, q) else StreamBit(littleEndian, src, q - whole)
  {
    hide StreamBit, ByteBit, Stream;
    var base, i, r := whole / 8, q / 8, q % 8;
    assert whole == 8 * base + whole % 8 && q == 8 * i + r;
    Cell(littleEndian, now, i, r);
    if i < base {
      Cell(littleEndian, was, i, r);
    } else {
      Cell(littleEndian, tail, i - base, r);
      var u := 8 * (i - base) + r;
      if q < whole {
        assert i == base && u == r < whole % 8;
        Cell(littleEndian, was, i, r);
      } else {
        assert u - whole % 8 == q - whole;
        StreamByte(littleEndian, copy, q - whole);
        StreamByte(littleEndian, src, q - whole);
      }
    }
  }

  /** A buffer holds the bits of another one, each `shift` places later. */
  ghost predicate Shifted(littleEndian: bool, was: seq<Byte>, now: seq<Byte>, shift: nat) {
    && |now| == |was|
    && forall q :: 0 <= q < 8 * |now| ==>
         StreamBit(littleEndian, now, q) == (shift <= q && StreamBit(littleEndian, was, q - shift))
  }

  lemma AllStretched(littleEndian: bool, was: seq<Byte>, now: seq<Byte>, shift: nat)
    requires |was| == |now|
    requires forall i :: 0 <= i < |now| ==> Stretched(littleEndian, was, now[i], i, shift)
    ensures Shifted(littleEndian, was, now, shift)
  {
    forall q | 0 <= q < 8 * |now|
      ensures StreamBit(littleEndian, now, q) == (shift <= q && StreamBit(littleEndian, was, q - shift))
    {
      StreamByte(littleEndian, now, q);
      assert Stretched(littleEndian, was, now[q / 8], q / 8, shift);
      assert q == 8 * (q / 8) + q % 8;
      if q < shift {
        assert !StreamBit(littleEndian, was, q - shift);
      }
    }
  }

  lemma SameBytesSamePrefix(littleEndian: bool, a: seq<Byte>, b: seq<Byte>, size: nat)
    requires size <= 8 * |a| && size <= 8 * |b|
    requires forall i :: 0 <= i < (size + 7) / 8 ==> a[i] == b[i]
    ensures Stream(littleEndian, a)[..size] == Stream(littleEndian, b)[..size]
  {
    forall q | 0 <= q < size ensures StreamBit(littleEndian, a, q) == StreamBit(littleEndian, b, q) {
      StreamByte(littleEndian, a, q);
      StreamByte(littleEndian, b, q);
    }
  }

  /** The masked comparison of the last byte looks at its first stream bits. */
  lemma TailTest(littleEndian: bool, a: Byte, b: Byte, tail: nat)
    requires 0 < tail < 8
    ensures IsZero(And(Xor(a, b), Dsh(littleEndian, Ones(8, 8), 8 - tail))) <==>
            forall r :: 0 <= r < tail ==> ByteBit(littleEndian, a, r) == ByteBit(littleEndian, b, r)
  {
    var delta := And(Xor(a, b), Dsh(littleEndian, Ones(8, 8), 8 - tail));
    forall r | 0 <= r < tail
      ensures ByteBit(littleEndian, delta, r) == (ByteBit(littleEndian, a, r) != ByteBit(littleEndian, b, r))
    {
    }
    if IsZero(delta) {
      forall r | 0 <= r < tail ensures ByteBit(littleEndian, a, r) == ByteBit(littleEndian, b, r) {
        assert !ByteBit(littleEndian, delta, r);
      }
    } else {
      var j :| 0 <= j < 8 && delta[j];
      var r := if littleEndian then j else 7 - j;
      assert ByteBit(littleEndian, delta, r) && r < tail;
    }
  }

  lemma TailsDiffer(littleEndian: bool, a: seq<Byte>, b: seq<Byte>, size: nat)
    requires size <= 8 * |a| && size <= 8 * |b| && size % 8 != 0
    requires exists r :: 0 <= r < size % 8 &&
               ByteBit(littleEndian, a[size / 8], r) != ByteBit(littleEndian, b[size / 8], r)
    ensures Stream(littleEndian, a)[..size] != Stream(littleEndian, b)[..size]
  {
    var r :| 0 <= r < size % 8 && ByteBit(littleEndian, a[size / 8], r) != ByteBit(littleEndian, b[size / 8], r);
    StreamCell(littleEndian, a, size / 8, r);
    StreamCell(littleEndian, b, size / 8, r);
    var q := 8 * (size / 8) + r;
    assert Stream(littleEndian, a)[..size][q] != Stream(littleEndian, b)[..size][q];
  }

  lemma PrefixesAgree(littleEndian: bool, a: seq<Byte>, b: seq<Byte>, size: nat)
    requires size <= 8 * |a| && size <= 8 * |b|
    requires forall i :: 0 <= i < size / 8 ==> a[i] == b[i]
    requires size % 8 != 0 ==> forall r :: 0 <= r < size % 8 ==>
               ByteBit(littleEndian, a[size / 8], r) == ByteBit(littleEndian, b[size / 8], r)
    ensures Stream(littleEndian, a)[..size] == Stream(littleEndian, b)[..size]
  {
    forall q | 0 <= q < size ensures StreamBit(littleEndian, a, q) == StreamBit(littleEndian, b, q) {
      StreamByte(littleEndian, a, q);
      StreamByte(littleEndian, b, q);
    }
  }

  lemma BytesDiffer(littleEndian: bool, a: seq<Byte>, b: seq<Byte>, i: nat, size: nat)
    requires i < |a| && i < |b| && a[i] != b[i] && 8 * i + 8 <= size <= 8 * |a| && size <= 8 * |b|
    ensures Stream(littleEndian, a)[..size] != Stream(littleEndian, b)[..size]
  {
    var j :| 0 <= j < 8 && a[i][j] != b[i][j];
    var r := if littleEndian then j else 7 - j;
    StreamCell(littleEndian, a, i, r);
    StreamCell(littleEndian, b, i, r);
    assert Stream(littleEndian, a)[..size][8 * i + r] != Stream(littleEndian, b)[..size][8 * i + r];
  }

  /** Byte i of a stretched buffer. */
  ghost predicate Stretched(littleEndian: bool, was: seq<Byte>, b: Byte, i: int, shift: nat) {
    forall r :: 0 <= r < 8 ==> ByteBit(littleEndian, b, r) == StreamBit(littleEndian, was, 8 * i + r - shift)
  }

  lemma StretchedByte(littleEndian: bool, was: seq<Byte>, b: Byte, i: nat, hish: nat, losh: nat)
    requires i < |was| && losh < 8
    requires var src := i - hish;
             b == if src > 0 then Or(Ash(littleEndian, was[src], losh), Dsh(littleEndian, was[src - 1], 8 - losh))
                  else if src == 0 then Ash(littleEndian, was[src], losh)
                  else Zeros(8)
    ensures Stretched(littleEndian, was, b, i, 8 * hish + losh)
  {
    hide StreamBit, Stream;
    forall r | 0 <= r < 8
      ensures ByteBit(littleEndian, b, r) == StreamBit(littleEndian, was, 8 * i + r - (8 * hish + losh))
    {
      StretchedBit(littleEndian, was, b, i, hish, losh, r);
    }
  }

  lemma StretchedBit(littleEndian: bool, was: seq<Byte>, b: Byte, i: nat, hish: nat, losh: nat, r: nat)
    requires i < |was| && losh < 8 && r < 8
    requires var src := i - hish;
             b == if src > 0 then Or(Ash(littleEndian, was[src], losh), Dsh(littleEndian, was[src - 1], 8 - losh))
                  else if src == 0 then Ash(littleEndian, was[src], losh)
                  else Zeros(8)
    ensures ByteBit(littleEndian, b, r) == StreamBit(littleEndian, was, 8 * i + r - (8 * hish + losh))
  {
    hide StreamBit, Stream, Ash, Dsh, Or;
    var src := i - hish;
    if src > 0 {
      OrBit(littleEndian, Ash(littleEndian, was[src], losh), Dsh(littleEndian, was[src - 1], 8 - losh), r);
    }
    if r >= losh {
      Cell(littleEndian, was, src, r - losh);
      assert 8 * src + (r - losh) == 8 * i + r - (8 * hish + losh);
    } else {
      Cell(littleEndian, was, src - 1, r - losh + 8);
      assert 8 * (src - 1) + (r - losh + 8) == 8 * i + r - (8 * hish + losh);
    }
    if src >= 0 {
      ShiftedBit(littleEndian, was[src], losh, r);
      if src > 0 {
        ShiftedBit(littleEndian, was[src - 1], 8 - losh, r);
      }
    }
  }
}
