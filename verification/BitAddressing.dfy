/** Bit positions inside a byte buffer, and the loops that read and write bit ranges bytewise.

    A little-endian instruction set numbers its bits 0, 1, 2 ... from the least significant bit of
    the first byte; a big-endian one numbers them -1, -2, -3 ... from the most significant bit of
    the first byte. Both address byte (p >> 3) ^ (p < 0 ? -1 : 0), bit p & 7. */
module BitAddressing {
  import opened Words

  function ByteOf(p: int): nat {
    if p < 0 then -1 - p / 8 else p / 8
  }

  function BitOf(p: int): nat {
    p % 8
  }

  /** The bit at a position; positions outside the buffer read as 0. */
  predicate BitAt(str: seq<Byte>, p: int) {
    ByteOf(p) < |str| && str[ByteOf(p)][BitOf(p)]
  }

  /** The q-th bit of a buffer in the order in which instruction bits follow one another. */
  function StreamPosition(littleEndian: bool, q: int): int {
    if littleEndian then q else -1 - q
  }

  predicate StreamBit(littleEndian: bool, str: seq<Byte>, q: int) {
    0 <= q && BitAt(str, StreamPosition(littleEndian, q))
  }

  /** A range of positions that does not straddle 0, hence within one numbering. */
  predicate OneSided(beg: int, end: int) {
    beg <= end && (0 <= beg || end <= 0)
  }

  /** The end of the part of [pos, end) in the byte of pos: min((pos + 8) & -8, end). */
  function ChunkEnd(pos: int, end: int): int {
    var next := (pos + 8) / 8 * 8;
    if next < end then next else end
  }

  /** A chunk lies in one byte, where its bits are consecutive. */
  lemma ChunkInByte(pos: int, end: int, p: int)
    requires OneSided(pos, end) && pos <= p < ChunkEnd(pos, end)
    ensures ByteOf(p) == ByteOf(pos) && BitOf(p) == BitOf(pos) + (p - pos)
    ensures pos < ChunkEnd(pos, end) <= end && BitOf(pos) + ChunkEnd(pos, end) - pos <= 8
  {
    var q := pos / 8;
    assert pos == 8 * q + pos % 8 && (pos + 8) / 8 == q + 1;
    assert p / 8 == q;
  }

  /** Two positions of one numbering are one cell only if they are equal. */
  lemma CellsDiffer(p: int, q: int)
    requires (0 <= p && 0 <= q) || (p < 0 && q < 0)
    requires ByteOf(p) == ByteOf(q) && BitOf(p) == BitOf(q)
    ensures p == q
  {
    assert p == 8 * (p / 8) + p % 8 && q == 8 * (q / 8) + q % 8;
  }

  /** Reads the bits of [beg, end) into a word, byte by byte (`Code::get`, operand decoding). */
  method Extract(str: seq<Byte>, beg: int, end: int, width: nat) returns (result: Word)
    requires OneSided(beg, end) && end - beg <= width && 8 <= width
    requires forall p :: beg <= p < end ==> ByteOf(p) < |str|
    ensures |result| == width
    ensures forall i :: 0 <= i < width ==> result[i] == (i < end - beg && BitAt(str, beg + i))
  {
    result := Zeros(width);
    var pos := beg;
    while pos < end
      invariant beg <= pos <= end && |result| == width
      invariant forall i :: 0 <= i < width ==> result[i] == (i < pos - beg && BitAt(str, beg + i))
      decreases end - pos
    {
      ChunkInByte(pos, end, pos);
      var npos := ChunkEnd(pos, end);
      var shift, byte := BitOf(pos), ByteOf(pos);
      var chunk := And(Shr(Cast(str[byte], width), shift), Ones(width, npos - pos));
      ghost var before := result;
      result := Or(result, Shl(chunk, pos - beg));
      forall i | 0 <= i < width ensures result[i] == (i < npos - beg && BitAt(str, beg + i)) {
        if pos - beg <= i < npos - beg {
          ChunkInByte(pos, end, beg + i);
        }
      }
      pos := npos;
    }
  }

  /** The positions of [beg, pos) have been or-ed with the bits of a word, the others kept. */
  ghost predicate Added(before: seq<Byte>, after: seq<Byte>, beg: int, pos: int, value: Word)
    requires pos - beg <= |value|
  {
    && |after| == |before|
    && (forall p :: ByteOf(p) < |after| && (p < 0 <==> beg < 0) ==>
          BitAt(after, p) == (BitAt(before, p) || (beg <= p < pos && value[p - beg])))
  }

  /** The whole range has been or-ed; with an empty one nothing at all has changed. */
  ghost predicate Deposited(before: seq<Byte>, after: seq<Byte>, beg: int, end: int, value: Word)
    requires end - beg <= |value|
  {
    Added(before, after, beg, end, value) && (beg == end ==> after == before)
  }

  lemma PositionInside(p: int, capacity: nat)
    requires -8 * capacity <= p < 8 * capacity
    ensures ByteOf(p) < capacity
  {
  }

  /** The bits of a word from one on, moved to the place of the chunk at pos. */
  function Chunk(value: Word, from: nat, pos: int, end: int): (c: Word)
    requires OneSided(pos, end) && pos < end && 8 <= |value|
    ensures |c| == |value|
  {
    ChunkInByte(pos, end, pos);
    Shl(And(Shr(value, from), Ones(|value|, ChunkEnd(pos, end) - pos)), BitOf(pos))
  }

  /** One position, after a chunk has been added to its byte. */
  lemma DepositedBit(before: seq<Byte>, pos: int, end: int, value: Word, from: nat, p: int)
    requires OneSided(pos, end) && pos < end && 8 <= |value| && from + (end - pos) <= |value|
    requires ByteOf(pos) < |before| && ByteOf(p) < |before| && (p < 0 <==> pos < 0)
    ensures var byte := ByteOf(pos);
            BitAt(before[byte := Or(before[byte], Cast(Chunk(value, from, pos, end), 8))], p)
            == (BitAt(before, p) || (pos <= p < ChunkEnd(pos, end) && value[from + (p - pos)]))
  {
    ChunkInByte(pos, end, pos);
    var shift, npos := BitOf(pos), ChunkEnd(pos, end);
    if pos <= p < npos {
      ChunkInByte(pos, end, p);
    } else if ByteOf(p) == ByteOf(pos) && shift <= BitOf(p) < shift + npos - pos {
      var r := pos + BitOf(p) - shift;
      ChunkInByte(pos, end, r);
      CellsDiffer(p, r);
    }
  }

  lemma AddedChunk(was: seq<Byte>, before: seq<Byte>, after: seq<Byte>, beg: int, pos: int, end: int, value: Word)
    requires OneSided(beg, end) && beg <= pos < end && 8 <= |value| && end - beg <= |value| && ByteOf(pos) < |before|
    requires Added(was, before, beg, pos, value)
    requires after == before[ByteOf(pos) := Or(before[ByteOf(pos)], Cast(Chunk(value, pos - beg, pos, end), 8))]
    ensures pos < ChunkEnd(pos, end) <= end && Added(was, after, beg, ChunkEnd(pos, end), value)
  {
    ChunkInByte(pos, end, pos);
    hide ByteOf, BitAt, ChunkEnd, Chunk;
    forall p | ByteOf(p) < |after| && (p < 0 <==> beg < 0)
      ensures BitAt(after, p) == (BitAt(was, p) || (beg <= p < ChunkEnd(pos, end) && value[p - beg])) {
      DepositedBit(before, pos, end, value, pos - beg, p);
    }
  }

  /** Adds the low bits of a word to the bits of [beg, end), byte by byte (`Code::set`, operand
      encoding). */
  method Deposit(str: array<Byte>, beg: int, end: int, value: Word)
    requires OneSided(beg, end) && end - beg <= |value| && 8 <= |value|
    requires forall p :: beg <= p < end ==> ByteOf(p) < str.Length
    modifies str
    ensures Deposited(old(str[..]), str[..], beg, end, value)
  {
    hide ByteOf, BitOf, BitAt, Added;
    NothingAdded(str[..], beg, value);
    var pos := beg;
    while pos < end
      invariant beg <= pos <= end
      invariant beg == end ==> str[..] == old(str[..])
      invariant Added(old(str[..]), str[..], beg, pos, value)
      decreases end - pos
    {
      ChunkInByte(pos, end, pos);
      var npos := ChunkEnd(pos, end);
      var shift, byte := BitOf(pos), ByteOf(pos);
      var chunk := Shl(And(Shr(value, pos - beg), Ones(|value|, npos - pos)), shift);
      ghost var before := str[..];
      str[byte] := Or(str[byte], Cast(chunk, 8));
      AddedChunk(old(str[..]), before, str[..], beg, pos, end, value);
      pos := npos;
    }
  }

  lemma NothingAdded(str: seq<Byte>, beg: int, value: Word)
    ensures Added(str, str, beg, beg, value)
  {
  }
}
