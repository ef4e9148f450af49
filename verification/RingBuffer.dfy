/** The shared ring of shmidcat: one process emits strings, another one consumes them, and the two
    interleave at every access to the shared bytes. */
module RingBuffer {

  const SIZE: nat := 1024 * 1024

  type byte = x: int | 0 <= x < 256

  /** A C string: no byte of it is 0. */
  type CString = s: seq<byte> | forall i :: 0 <= i < |s| ==> s[i] != 0 witness []

  /** The wrap-around of `get_8`, `put_8` and of the three pointers: one turn of the ring at most. */
  function Wrap(p: int): int {
    if p >= SIZE then p - SIZE else p
  }

  predicate InReach(p: int) {
    0 <= p < 2 * SIZE
  }

  function Get8(mem: seq<byte>, p: int): byte
    requires |mem| == SIZE && InReach(p)
  {
    mem[Wrap(p)]
  }

  function Put8(mem: seq<byte>, p: int, v: byte): (r: seq<byte>)
    requires |mem| == SIZE && InReach(p)
    ensures |r| == SIZE
  {
    mem[Wrap(p) := v]
  }

  // ---------- 32-bit sizes, most significant byte first

  function Be32(n: nat): (b: seq<byte>)
    ensures |b| == 4
  {
    [n / 0x100_0000 % 0x100, n / 0x1_0000 % 0x100, n / 0x100 % 0x100, n % 0x100]
  }

  function Value32(b: seq<byte>): nat
    requires |b| == 4
  {
    var (b0: int, b1: int, b2: int, b3: int) := (b[0], b[1], b[2], b[3]);
    b0 * 0x100_0000 + b1 * 0x1_0000 + b2 * 0x100 + b3
  }

  lemma ValueOfBe32(n: nat)
    requires n < 0x1_0000_0000
    ensures Value32(Be32(n)) == n
  {
    var a, b, c := n / 0x100, n / 0x1_0000, n / 0x100_0000;
    assert n == 0x100 * a + n % 0x100 && a / 0x100 == b && b / 0x100 == c;
    assert a == 0x100 * b + a % 0x100 && b == 0x100 * c + b % 0x100 && c % 0x100 == c;
  }

  // ---------- the two programs

  /** Where the producer is in `shmidcat_emit_string`: not called, before reading the valid flag at
      the top, reading the size there, before comparing the space, or about to write the byte at
      offset w of its record. The record is written from offset 1 to its end, the flag at last. */
  datatype ProducerAt = Idle | Check | ReadSize(bytes: seq<byte>) | Decide | Write(w: nat)

  /** Where the consumer is in `consume`: before reading the flag, reading the size, or copying
      the string and then releasing the block. */
  datatype ConsumerAt = Poll | GetLen(bytes: seq<byte>) | GetData(len: nat, buff: seq<byte>)

  /** The shared bytes, the pointers and program points of both sides, and the history: the strings
      handed to the producer, those it has published, how many of them it has reclaimed, and
      those the consumer has printed. */
  datatype State = State(
    mem: seq<byte>,
    top: nat, curr: nat, producer: ProducerAt, str: CString,
    ptr: nat, consumer: ConsumerAt,
    calls: seq<CString>, published: seq<CString>, reclaimed: nat, consumed: seq<seq<byte>>)

  function Init(): State {
    State(seq(SIZE, i => 0), 0, 0, Idle, [], 0, Poll, [], [], 0, [])
  }

  /** The bytes of a record in the order of the writes: flag, size, string, and the zero flag and
      zero size of the record to come. */
  function Record(s: CString): (r: seq<byte>)
    ensures |r| == |s| + 10
  {
    [0] + Be32(|s|) + s + [0, 0, 0, 0, 0]
  }

  function Occupied(s: State): int {
    if s.curr >= s.top then s.curr - s.top else s.curr + SIZE - s.top
  }

  /** The addresses of the next producer step can be wrapped. */
  predicate ProducerSafe(s: State) {
    && |s.mem| == SIZE && s.top < SIZE && s.curr < SIZE
    && (s.producer.ReadSize? ==> |s.producer.bytes| < 4)
    && (s.producer.Write? ==> 1 <= s.producer.w <= |s.str| + 10 && |s.str| + 16 <= SIZE)
  }

  function ProducerStep(s: State): State
    requires ProducerSafe(s)
  {
    match s.producer
    case Idle => s
    case Check =>
      if s.mem[s.top] != 0 then s.(producer := Decide) else s.(producer := ReadSize([]))
    case ReadSize(bytes) =>
      var b := bytes + [Get8(s.mem, s.top + 1 + |bytes|)];
      if |b| < 4 then s.(producer := ReadSize(b))
      else if Value32(b) == 0 then s.(producer := Decide)
      else s.(top := Advance(s.top, Value32(b)), reclaimed := s.reclaimed + 1, producer := Check)
    case Decide =>
      if Occupied(s) + |s.str| + 16 > SIZE then s.(producer := Check) else s.(producer := Write(1))
    case Write(w) =>
      if w < |s.str| + 10 then s.(mem := Put8(s.mem, s.curr + w, Record(s.str)[w]), producer := Write(w + 1))
      else s.(mem := Put8(s.mem, s.curr, 1), curr := Advance(s.curr, |s.str|),
              published := s.published + [s.str], producer := Idle)
  }

  /** A pointer moved over a block and wrapped. */
  function Advance(p: nat, len: nat): nat {
    if p + 5 + len >= SIZE then p + 5 + len - SIZE else p + 5 + len
  }

  /** The program calls `shmidcat_emit_string`. */
  ghost predicate Call(s: State, t: State) {
    exists str: CString :: s.producer.Idle? && t == s.(producer := Check, str := str, calls := s.calls + [str])
  }

  predicate ConsumerSafe(s: State) {
    && |s.mem| == SIZE && s.ptr < SIZE
    && (s.consumer.GetLen? ==> |s.consumer.bytes| < 4)
    && (s.consumer.GetData? ==> |s.consumer.buff| <= s.consumer.len && s.consumer.len + 16 <= SIZE)
  }

  function ConsumerStep(s: State): State
    requires ConsumerSafe(s)
  {
    match s.consumer
    case Poll =>
      if s.mem[s.ptr] != 0 then s.(consumer := GetLen([])) else s
    case GetLen(bytes) =>
      var b := bytes + [Get8(s.mem, s.ptr + 1 + |bytes|)];
      if |b| < 4 then s.(consumer := GetLen(b)) else s.(consumer := GetData(Value32(b), []))
    case GetData(len, buff) =>
      if |buff| < len then s.(consumer := GetData(len, buff + [Get8(s.mem, s.ptr + 5 + |buff|)]))
      else s.(mem := s.mem[s.ptr := 0], ptr := Advance(s.ptr, len),
              consumed := s.consumed + [buff], consumer := Poll)
  }

  ghost predicate Next(s: State, t: State) {
    || Call(s, t)
    || (ProducerSafe(s) && t == ProducerStep(s))
    || (ConsumerSafe(s) && t == ConsumerStep(s))
  }

  ghost predicate Run(states: seq<State>) {
    && |states| > 0 && states[0] == Init()
    && forall i :: 0 <= i < |states| - 1 ==> Next(states[i], states[i + 1])
  }

  // ---------- the bytes between top and curr

  function Block(s: seq<byte>, flag: byte): (r: seq<byte>)
    ensures |r| == 5 + |s|
  {
    [flag] + Be32(|s|) + s
  }

  /** The blocks of a list of strings, of which the first k are consumed. */
  ghost function Image(blocks: seq<seq<byte>>, k: int): seq<byte> {
    if blocks == [] then [] else Block(blocks[0], if k > 0 then 0 else 1) + Image(blocks[1..], k - 1)
  }

  ghost function Span(blocks: seq<seq<byte>>): nat {
    if blocks == [] then 0 else 5 + |blocks[0]| + Span(blocks[1..])
  }

  lemma {:induction false} ImageLength(blocks: seq<seq<byte>>, k: int)
    ensures |Image(blocks, k)| == Span(blocks)
  {
    if blocks != [] {
      ImageLength(blocks[1..], k - 1);
    }
  }

  lemma {:induction false} ImageAppend(blocks: seq<seq<byte>>, k: int, b: seq<byte>)
    requires k <= |blocks|
    ensures Image(blocks + [b], k) == Image(blocks, k) + Block(b, 1)
  {
    if blocks != [] {
      assert (blocks + [b])[1..] == blocks[1..] + [b];
      ImageAppend(blocks[1..], k - 1, b);
    } else {
      assert ([] + [b])[1..] == [];
    }
  }

  lemma {:induction false} SpanPrefix(blocks: seq<seq<byte>>, k: nat)
    requires k < |blocks|
    ensures Span(blocks[..k + 1]) == Span(blocks[..k]) + 5 + |blocks[k]| <= Span(blocks)
  {
    if k > 0 {
      assert blocks[..k][1..] == blocks[1..][..k - 1] && blocks[..k + 1][1..] == blocks[1..][..k];
      SpanPrefix(blocks[1..], k - 1);
    } else {
      assert blocks[..1][1..] == [];
    }
  }

  lemma SpanTake(blocks: seq<seq<byte>>, k: nat)
    requires k <= |blocks|
    ensures Span(blocks[..k]) <= Span(blocks)
  {
    if k < |blocks| {
      SpanPrefix(blocks, k);
    } else {
      assert blocks[..k] == blocks;
    }
  }

  /** An image in two parts. */
  lemma {:induction false} ImageSplit(blocks: seq<seq<byte>>, j: int, k: nat)
    requires k <= |blocks|
    ensures Image(blocks, j) == Image(blocks[..k], j) + Image(blocks[k..], j - k)
  {
    if k == 0 {
      assert blocks[0..] == blocks;
    } else {
      var rest := blocks[1..];
      ImageSplit(rest, j - 1, k - 1);
      assert blocks[..k][1..] == rest[..k - 1] && blocks[k..] == rest[k - 1..];
    }
  }

  /** The k-th block of an image, and the image once it is consumed. */
  lemma ImageAt(blocks: seq<seq<byte>>, k: nat)
    requires k < |blocks|
    ensures Span(blocks[..k]) + 5 + |blocks[k]| <= |Image(blocks, k)| == Span(blocks)
    ensures forall r :: 0 <= r < 5 + |blocks[k]| ==> Image(blocks, k)[Span(blocks[..k]) + r] == Block(blocks[k], 1)[r]
    ensures Image(blocks, k + 1) == Image(blocks, k)[Span(blocks[..k]) := 0]
  {
    hide *;
    var before, b, after := Image(blocks[..k], k), blocks[k], Image(blocks[k + 1..], 0);
    ImageLength(blocks, k);
    ImageLength(blocks[..k], k);
    SpanPrefix(blocks, k);
    ImageSplit(blocks, k, k);
    ImageSplit(blocks, k + 1, k);
    ImageFirst(blocks[k..], 0);
    ImageFirst(blocks[k..], 1);
    assert blocks[k..][1..] == blocks[k + 1..] && blocks[k..][0] == b;
    Unconsumed(blocks[k + 1..], -1, 0);
    AllConsumed(blocks[..k], k + 1, k);
    BlockFlag(b);
    assert Image(blocks, k) == before + (Block(b, 1) + after);
    assert Image(blocks, k + 1) == before + (Block(b, 0) + after);
  }

  lemma ImageFirst(blocks: seq<seq<byte>>, j: int)
    requires blocks != []
    ensures Image(blocks, j) == Block(blocks[0], if j > 0 then 0 else 1) + Image(blocks[1..], j - 1)
  {
  }

  lemma BlockFlag(s: seq<byte>)
    ensures Block(s, 0) == Block(s, 1)[0 := 0]
  {
  }

  lemma {:induction false} AllConsumed(blocks: seq<seq<byte>>, j: int, k: int)
    requires |blocks| <= j && |blocks| <= k
    ensures Image(blocks, j) == Image(blocks, k)
  {
    if blocks != [] {
      AllConsumed(blocks[1..], j - 1, k - 1);
    }
  }

  lemma {:induction false} Unconsumed(blocks: seq<seq<byte>>, j: int, k: int)
    requires j <= 0 && k <= 0
    ensures Image(blocks, j) == Image(blocks, k)
  {
    if blocks != [] {
      Unconsumed(blocks[1..], j - 1, k - 1);
    }
  }

  // ---------- the invariant

  /** The blocks not reclaimed yet, and how many of them are consumed. */
  ghost function Blocks(s: State): seq<seq<byte>>
    requires s.reclaimed <= |s.published|
  {
    s.published[s.reclaimed..]
  }

  ghost function Done(s: State): int {
    |s.consumed| - s.reclaimed
  }

  /** The ring holds a list of bytes from an address on. */
  ghost predicate Holds(mem: seq<byte>, p: nat, img: seq<byte>) {
    && |mem| == SIZE && p < SIZE && |img| <= SIZE
    && forall r :: 0 <= r < |img| ==> mem[Wrap(p + r)] == img[r]
  }

  /** The pointers, the chain of whole blocks between top and curr with room behind it, and what
      was consumed and published. */
  ghost predicate Chain(s: State) {
    && s.reclaimed <= |s.consumed| <= |s.published| && s.consumed == s.published[..|s.consumed|]
    && s.calls == s.published + (if s.producer.Idle? then [] else [s.str])
    && Span(Blocks(s)) + 11 <= SIZE
    && Holds(s.mem, s.top, Image(Blocks(s), Done(s)))
    && s.curr == Wrap(s.top + Span(Blocks(s)))
    && s.ptr == Wrap(s.top + Span(Blocks(s)[..Done(s)]))
  }

  /** The size that the producer finds at the top: that of the first block, or the zero sentinel. */
  ghost function SizeAtTop(s: State): seq<byte>
    requires s.reclaimed <= |s.published|
  {
    if Blocks(s) == [] then Be32(0) else Be32(|Blocks(s)[0]|)
  }

  ghost predicate ProducerInv(s: State)
    requires Chain(s)
  {
    match s.producer
    case ReadSize(bytes) =>
      && Holds(s.mem, s.curr, [0, 0, 0, 0, 0])
      && (Blocks(s) == [] || Done(s) > 0)
      && |bytes| < 4 && bytes == SizeAtTop(s)[..|bytes|]
    case Write(w) =>
      && 1 <= w <= |s.str| + 10 && Span(Blocks(s)) + |s.str| + 16 <= SIZE
      && Holds(s.mem, s.curr, Record(s.str)[..w])
    case _ => Holds(s.mem, s.curr, [0, 0, 0, 0, 0])
  }

  ghost predicate ConsumerInv(s: State)
    requires Chain(s)
  {
    match s.consumer
    case Poll => true
    case GetLen(bytes) =>
      && Done(s) < |Blocks(s)| && |bytes| < 4 && bytes == Be32(|Blocks(s)[Done(s)]|)[..|bytes|]
    case GetData(len, buff) =>
      && Done(s) < |Blocks(s)| && len == |Blocks(s)[Done(s)]| && buff <= Blocks(s)[Done(s)]
  }

  ghost predicate Inv(s: State) {
    Chain(s) && ProducerInv(s) && ConsumerInv(s)
  }

  lemma InitInv()
    ensures Inv(Init())
  {
  }

  /** No step reaches outside the ring. */
  lemma InvSafe(s: State)
    requires Inv(s)
    ensures ProducerSafe(s) && ConsumerSafe(s)
  {
    SpanTake(Blocks(s), Done(s));
    if s.consumer.GetData? {
      SpanPrefix(Blocks(s), Done(s));
    }
  }

  // ---------- windows on the ring

  /** Writing behind a list of bytes leaves it alone. */
  lemma WriteBehind(mem: seq<byte>, p: nat, img: seq<byte>, at: nat, v: byte)
    requires Holds(mem, p, img) && |img| <= at < SIZE
    ensures Holds(mem[Wrap(p + at) := v], p, img)
  {
  }

  /** Writing the next byte of a list extends it. */
  lemma WriteNext(mem: seq<byte>, p: nat, img: seq<byte>, v: byte)
    requires Holds(mem, p, img) && |img| < SIZE
    ensures Holds(mem[Wrap(p + |img|) := v], p, img + [v])
  {
  }

  /** Writing one byte of a list changes that byte. */
  lemma WriteInside(mem: seq<byte>, p: nat, img: seq<byte>, at: nat, v: byte)
    requires Holds(mem, p, img) && at < |img|
    ensures Holds(mem[Wrap(p + at) := v], p, img[at := v])
  {
  }

  lemma HoldsPrefix(mem: seq<byte>, p: nat, img: seq<byte>, n: nat)
    requires Holds(mem, p, img) && n <= |img|
    ensures Holds(mem, p, img[..n])
  {
  }

  /** A list and one that follows it are one list. */
  lemma HoldsJoin(mem: seq<byte>, p: nat, a: seq<byte>, b: seq<byte>)
    requires |a| + |b| <= SIZE && |a| < SIZE
    ensures Holds(mem, p, a + b) <==> Holds(mem, p, a) && p < SIZE && Holds(mem, Wrap(p + |a|), b)
  {
    if Holds(mem, p, a) && Holds(mem, Wrap(p + |a|), b) {
      forall r | 0 <= r < |a + b| ensures mem[Wrap(p + r)] == (a + b)[r] {
        if r >= |a| {
          assert Wrap(Wrap(p + |a|) + (r - |a|)) == Wrap(p + r);
        }
      }
    }
    if Holds(mem, p, a + b) {
      forall r | 0 <= r < |b| ensures mem[Wrap(Wrap(p + |a|) + r)] == b[r] {
        assert Wrap(Wrap(p + |a|) + r) == Wrap(p + (|a| + r));
        assert (a + b)[|a| + r] == b[r];
      }
      forall r | 0 <= r < |a| ensures mem[Wrap(p + r)] == a[r] {
        assert (a + b)[r] == a[r];
      }
    }
  }

  // ---------- the producer keeps the invariant

  /** The flag read at the top is set exactly if the first block there is not consumed. */
  lemma CheckStep(s: State)
    requires Inv(s) && s.producer.Check? && ProducerSafe(s)
    ensures Inv(ProducerStep(s))
    ensures ProducerStep(s) == s.(producer := if Blocks(s) != [] && Done(s) == 0 then Decide else ReadSize([]))
  {
    FlagMeans(s);
    hide Holds, Image, Be32, Value32, Record;
  }

  lemma FlagMeans(s: State)
    requires Inv(s) && s.producer.Check?
    ensures s.mem[s.top] != 0 <==> Blocks(s) != [] && Done(s) == 0
  {
    hide Be32, Record;
    if Blocks(s) == [] {
      FlagAtCurr(s);
    } else if Done(s) == 0 {
      FlagAtTop(s);
    } else {
      ImageLength(Blocks(s), Done(s));
      assert s.mem[Wrap(s.top + 0)] == Image(Blocks(s), Done(s))[0];
    }
  }

  /** The flag of a block that is not consumed is set. */
  lemma FlagAtTop(s: State)
    requires Chain(s) && Blocks(s) != [] && Done(s) <= 0
    ensures s.mem[s.top] == 1
  {
    ImageLength(Blocks(s), Done(s));
    assert Image(Blocks(s), Done(s))[0] == 1;
    assert s.mem[Wrap(s.top + 0)] == 1;
  }

  /** The byte read at the top is the next byte of the size there. */
  lemma SizeByte(s: State)
    requires Inv(s) && s.producer.ReadSize? && ProducerSafe(s)
    ensures Get8(s.mem, s.top + 1 + |s.producer.bytes|) == SizeAtTop(s)[|s.producer.bytes|]
  {
    var j, blocks := |s.producer.bytes|, Blocks(s);
    if blocks == [] {
      assert s.mem[Wrap(s.curr + (1 + j))] == [0, 0, 0, 0, 0][1 + j];
    } else {
      ImageLength(blocks, Done(s));
      assert Image(blocks, Done(s))[1 + j] == Be32(|blocks[0]|)[j];
      assert s.mem[Wrap(s.top + (1 + j))] == Image(blocks, Done(s))[1 + j];
    }
  }

  lemma SizeBytes(s: State)
    requires Inv(s) && s.producer.ReadSize? && ProducerSafe(s)
    ensures s.reclaimed <= |s.published|
    ensures var b := s.producer.bytes + [Get8(s.mem, s.top + 1 + |s.producer.bytes|)];
            |b| <= 4 && b == SizeAtTop(s)[..|b|]
  {
    SizeByte(s);
    hide Get8, Be32, Holds, Image;
  }

  lemma ReadSizeStep(s: State)
    requires Inv(s) && s.producer.ReadSize? && ProducerSafe(s)
    ensures Inv(ProducerStep(s))
  {
    SizeBytes(s);
    ReadSizeIs(s);
    hide *;
    var b := s.producer.bytes + [Get8(s.mem, s.top + 1 + |s.producer.bytes|)];
    if |b| < 4 {
      ReadsOn(s, b);
    } else if Value32(b) == 0 {
      FindsSentinel(s);
    } else {
      SizeOfFirst(s, b);
      Reclaim(s, b);
    }
  }

  lemma ReadSizeIs(s: State)
    requires s.producer.ReadSize? && ProducerSafe(s) && InReach(s.top + 1 + |s.producer.bytes|)
    ensures var b := s.producer.bytes + [Get8(s.mem, s.top + 1 + |s.producer.bytes|)];
            && |b| <= 4
            && ProducerStep(s) == if |b| < 4 then s.(producer := ReadSize(b))
                                  else if Value32(b) == 0 then s.(producer := Decide)
                                  else s.(top := Advance(s.top, Value32(b)), reclaimed := s.reclaimed + 1, producer := Check)
  {
    hide Value32, Get8, Advance;
  }

  lemma ReadsOn(s: State, b: seq<byte>)
    requires Inv(s) && s.producer.ReadSize? && |b| < 4 && b == SizeAtTop(s)[..|b|]
    ensures Inv(s.(producer := ReadSize(b)))
  {
    hide Holds, Image, Be32;
  }

  lemma FindsSentinel(s: State)
    requires Inv(s) && s.producer.ReadSize?
    ensures Inv(s.(producer := Decide))
  {
    hide Holds, Image, Be32;
  }

  lemma SizeOfFirst(s: State, b: seq<byte>)
    requires Inv(s) && s.producer.ReadSize? && |b| == 4 && b == SizeAtTop(s)[..|b|] && Value32(b) != 0
    ensures Blocks(s) != [] && b == Be32(|Blocks(s)[0]|) && Value32(b) == |Blocks(s)[0]|
  {
    hide Holds, Image, Be32, Value32;
    assert b == SizeAtTop(s);
    if Blocks(s) == [] {
      ValueOfBe32(0);
    } else {
      ValueOfBe32(|Blocks(s)[0]|);
    }
  }

  /** Moving the top over a consumed block. */
  lemma Reclaim(s: State, b: seq<byte>)
    requires Inv(s) && s.producer.ReadSize? && ProducerSafe(s)
    requires Blocks(s) != [] && b == Be32(|Blocks(s)[0]|) && Value32(b) == |Blocks(s)[0]|
    ensures Inv(s.(top := Advance(s.top, Value32(b)), reclaimed := s.reclaimed + 1, producer := Check))
  {
    hide Holds, Be32, Value32;
    var blocks, k := Blocks(s), Done(s);
    var t := s.(top := Advance(s.top, Value32(b)), reclaimed := s.reclaimed + 1, producer := Check);
    var first := Block(blocks[0], 0);
    assert Blocks(t) == blocks[1..] && Done(t) == k - 1;
    ImageLength(blocks, k);
    assert Image(blocks, k) == first + Image(blocks[1..], k - 1);
    HoldsJoin(s.mem, s.top, first, Image(blocks[1..], k - 1));
    assert blocks[..k][1..] == blocks[1..][..k - 1];
    SpanTake(blocks, k);
  }

  lemma DecideStep(s: State)
    requires Inv(s) && s.producer.Decide? && ProducerSafe(s)
    ensures Occupied(s) == Span(Blocks(s))
    ensures Inv(ProducerStep(s))
  {
    hide Holds, Image, Be32;
    assert Record(s.str)[..1] == [0] == [0, 0, 0, 0, 0][..1];
    HoldsPrefix(s.mem, s.curr, [0, 0, 0, 0, 0], 1);
  }

  lemma WriteStep(s: State)
    requires Inv(s) && s.producer.Write? && ProducerSafe(s) && s.producer.w < |s.str| + 10
    ensures Inv(ProducerStep(s))
  {
    hide Holds, Record;
    var w, img := s.producer.w, Image(Blocks(s), Done(s));
    var v := Record(s.str)[w];
    ImageLength(Blocks(s), Done(s));
    assert Wrap(s.curr + w) == Wrap(s.top + (|img| + w));
    WriteBehind(s.mem, s.top, img, |img| + w, v);
    WriteNext(s.mem, s.curr, Record(s.str)[..w], v);
    assert Record(s.str)[..w] + [v] == Record(s.str)[..w + 1];
  }

  lemma PublishStep(s: State)
    requires Inv(s) && s.producer.Write? && ProducerSafe(s) && s.producer.w == |s.str| + 10
    ensures Inv(ProducerStep(s))
  {
    PublishedBytes(s);
    hide Record, Holds, Image, Span, Put8, Advance, Wrap;
    assert Blocks(ProducerStep(s)) == Blocks(s) + [s.str];
  }

  lemma PublishedBytes(s: State)
    requires Chain(s) && |s.str| + 16 <= SIZE && Span(Blocks(s)) + |s.str| + 16 <= SIZE
    requires Holds(s.mem, s.curr, Record(s.str)[..|s.str| + 10]) && |s.mem| == SIZE && InReach(s.curr)
    ensures var m, blocks, p := Put8(s.mem, s.curr, 1), Blocks(s) + [s.str], Advance(s.curr, |s.str|);
            && Holds(m, s.top, Image(blocks, Done(s))) && Holds(m, p, [0, 0, 0, 0, 0])
            && Span(blocks) == Span(Blocks(s)) + 5 + |s.str| && p == Wrap(s.top + Span(blocks))
            && Span(blocks[..Done(s)]) == Span(Blocks(s)[..Done(s)])
  {
    var blocks, k, str := Blocks(s), Done(s), s.str;
    TopInside(s);
    DoneWithin(s);
    assert s.curr == Wrap(s.top + Span(blocks));
    assert Record(str)[..|str| + 10] == Record(str);
    hide *;
    ImageLength(blocks, k);
    PublishedWindow(s.mem, s.top, s.curr, Image(blocks, k), str);
    ImageAppend(blocks, k, str);
    SpanAppend(blocks, str);
    AdvanceIs(s.top, Span(blocks), |str|);
    assert (blocks + [str])[..k] == blocks[..k];
  }

  lemma TopInside(s: State)
    requires Chain(s)
    ensures Holds(s.mem, s.top, Image(Blocks(s), Done(s))) && s.top < SIZE
  {
  }

  lemma DoneWithin(s: State)
    requires Chain(s)
    ensures 0 <= Done(s) <= |Blocks(s)|
  {
  }

  lemma {:induction false} SpanAppend(blocks: seq<seq<byte>>, b: seq<byte>)
    ensures Span(blocks + [b]) == Span(blocks) + 5 + |b|
  {
    if blocks == [] {
      assert ([] + [b])[1..] == [];
    } else {
      assert (blocks + [b])[1..] == blocks[1..] + [b];
      SpanAppend(blocks[1..], b);
    }
  }

  /** A pointer behind a number of bytes from the top is advanced behind a block more. */
  lemma AdvanceIs(top: nat, n: nat, len: nat)
    requires top < SIZE && n + 5 + len <= SIZE
    ensures Advance(Wrap(top + n), len) == Wrap(top + n + 5 + len)
  {
  }

  lemma RecordIs(str: CString)
    ensures Record(str)[0 := 1] == Block(str, 1) + [0, 0, 0, 0, 0]
  {
  }

  /** Setting the flag of a written record appends a block and leaves a sentinel. */
  lemma PublishedWindow(mem: seq<byte>, top: nat, curr: nat, img: seq<byte>, str: CString)
    requires Holds(mem, top, img) && curr == Wrap(top + |img|) && Holds(mem, curr, Record(str))
    requires |img| + |str| + 16 <= SIZE
    ensures var m := Put8(mem, curr, 1);
            && Holds(m, top, img + Block(str, 1))
            && Holds(m, Advance(curr, |str|), [0, 0, 0, 0, 0])
  {
    assert |mem| == SIZE && InReach(curr) && Wrap(curr) == curr;
    RecordIs(str);
    hide Be32, Holds, Record, Block;
    var m, zeros := Put8(mem, curr, 1), [0, 0, 0, 0, 0];
    WriteBehind(mem, top, img, |img|, 1);
    WriteInside(mem, curr, Record(str), 0, 1);
    assert Wrap(curr + 0) == curr;
    assert Record(str)[0 := 1] == Block(str, 1) + zeros;
    HoldsJoin(m, curr, Block(str, 1), zeros);
    HoldsJoin(m, top, img, Block(str, 1));
  }

  lemma ProducerKeepsInv(s: State)
    requires Inv(s) && ProducerSafe(s)
    ensures Inv(ProducerStep(s))
  {
    match s.producer
    case Idle =>
    case Check => CheckStep(s);
    case ReadSize(_) => ReadSizeStep(s);
    case Decide => DecideStep(s);
    case Write(w) => if w < |s.str| + 10 { WriteStep(s); } else { PublishStep(s); }
  }

  // ---------- the consumer keeps the invariant

  /** The bytes of the block that the consumer is at. */
  lemma BlockAtPtr(s: State, r: nat)
    requires Chain(s) && Done(s) < |Blocks(s)| && s.ptr < SIZE && r < 5 + |Blocks(s)[Done(s)]|
    ensures InReach(s.ptr + r) && Get8(s.mem, s.ptr + r) == Block(Blocks(s)[Done(s)], 1)[r]
  {
    var blocks, k := Blocks(s), Done(s);
    ImageAt(blocks, k);
    assert s.mem[Wrap(s.top + (Span(blocks[..k]) + r))] == Image(blocks, k)[Span(blocks[..k]) + r];
  }

  /** Where nothing is published the flag is 0. */
  lemma FlagAtCurr(s: State)
    requires Inv(s)
    ensures s.mem[s.curr] == 0
  {
    match s.producer
    case Write(w) =>
      assert s.mem[Wrap(s.curr + 0)] == Record(s.str)[..w][0];
    case _ =>
      assert s.mem[Wrap(s.curr + 0)] == [0, 0, 0, 0, 0][0];
  }

  /** A step that changes nothing but the place of the consumer. */
  lemma ConsumerMoves(s: State, c: ConsumerAt)
    requires Inv(s)
    requires match c
             case Poll => true
             case GetLen(bytes) =>
               && Done(s) < |Blocks(s)| && |bytes| < 4 && bytes == Be32(|Blocks(s)[Done(s)]|)[..|bytes|]
             case GetData(len, buff) =>
               && Done(s) < |Blocks(s)| && len == |Blocks(s)[Done(s)]| && buff <= Blocks(s)[Done(s)]
    ensures Inv(s.(consumer := c))
  {
    hide Holds, Image, Record, Be32, Span, Wrap;
  }

  lemma PollStep(s: State)
    requires Inv(s) && s.consumer.Poll? && ConsumerSafe(s)
    ensures s.mem[s.ptr] != 0 <==> Done(s) < |Blocks(s)|
    ensures Inv(ConsumerStep(s))
  {
    FlagAtPtr(s);
    assert Done(s) >= 0;
    hide Inv, Blocks, Be32;
    if s.mem[s.ptr] != 0 {
      ConsumerMoves(s, GetLen([]));
    }
  }

  lemma FlagAtPtr(s: State)
    requires Inv(s) && ConsumerSafe(s)
    ensures s.reclaimed <= |s.published| && (s.mem[s.ptr] != 0 <==> Done(s) < |Blocks(s)|)
  {
    if Done(s) == |Blocks(s)| {
      assert Blocks(s)[..Done(s)] == Blocks(s);
      FlagAtCurr(s);
    } else {
      BlockAtPtr(s, 0);
    }
  }

  lemma BlockBytes(s: seq<byte>, r: nat)
    requires 1 <= r < 5
    ensures Block(s, 1)[r] == Be32(|s|)[r - 1]
  {
  }

  /** The byte read is the next one of the size of the block at the pointer. */
  lemma LengthBytes(s: State)
    requires Inv(s) && s.consumer.GetLen? && ConsumerSafe(s)
    ensures s.reclaimed <= |s.published| && 0 <= Done(s) < |Blocks(s)|
    ensures var b := s.consumer.bytes + [Get8(s.mem, s.ptr + 1 + |s.consumer.bytes|)];
            |b| <= 4 && b == Be32(|Blocks(s)[Done(s)]|)[..|b|]
  {
    hide Holds, Image, Record, Block, Be32, Get8;
    var j, block := |s.consumer.bytes|, Blocks(s)[Done(s)];
    BlockBytes(block, 1 + j);
    BlockAtPtr(s, 1 + j);
  }

  lemma GetLenStep(s: State)
    requires Inv(s) && s.consumer.GetLen? && ConsumerSafe(s)
    ensures Inv(ConsumerStep(s))
  {
    LengthBytes(s);
    LengthsFit(s);
    hide Inv, Blocks, Done, Be32, Value32, Get8;
    var block := Blocks(s)[Done(s)];
    var b := s.consumer.bytes + [Get8(s.mem, s.ptr + 1 + |s.consumer.bytes|)];
    if |b| < 4 {
      ConsumerMoves(s, GetLen(b));
    } else {
      ValueOfBe32(|block|);
      assert b == Be32(|block|);
      ConsumerMoves(s, GetData(Value32(b), []));
    }
  }

  /** Every block between top and curr is shorter than the ring. */
  lemma LengthsFit(s: State)
    requires Chain(s) && 0 <= Done(s) < |Blocks(s)|
    ensures |Blocks(s)[Done(s)]| < SIZE
  {
    SpanPrefix(Blocks(s), Done(s));
  }

  lemma GetDataStep(s: State)
    requires Inv(s) && s.consumer.GetData? && ConsumerSafe(s) && |s.consumer.buff| < s.consumer.len
    ensures Inv(ConsumerStep(s))
  {
    BlockAtPtr(s, 5 + |s.consumer.buff|);
  }

  /** The block that is released is marked in the chain, and what lies at curr is not touched. */
  lemma ReleasedBytes(s: State, behind: seq<byte>)
    requires Chain(s) && Holds(s.mem, s.curr, behind) && Span(Blocks(s)) + |behind| <= SIZE
    requires Done(s) < |Blocks(s)|
    ensures s.ptr < SIZE
    ensures Holds(s.mem[s.ptr := 0], s.top, Image(Blocks(s), Done(s) + 1)) && Holds(s.mem[s.ptr := 0], s.curr, behind)
    ensures Advance(s.ptr, |Blocks(s)[Done(s)]|) == Wrap(s.top + Span(Blocks(s)[..Done(s) + 1]))
  {
    hide Holds, Image, Block;
    var blocks, k := Blocks(s), Done(s);
    var at := Span(blocks[..k]);
    ImageAt(blocks, k);
    SpanPrefix(blocks, k);
    WriteInside(s.mem, s.top, Image(blocks, k), at, 0);
    assert Wrap(s.curr + (SIZE - Span(blocks) + at)) == s.ptr;
    WriteBehind(s.mem, s.curr, behind, SIZE - Span(blocks) + at, 0);
  }

  lemma ReleaseStep(s: State)
    requires Inv(s) && s.consumer.GetData? && ConsumerSafe(s) && |s.consumer.buff| == s.consumer.len
    ensures Inv(ConsumerStep(s))
  {
    hide Holds, Image, Block, Record;
    ReleasedBytes(s, if s.producer.Write? then Record(s.str)[..s.producer.w] else [0, 0, 0, 0, 0]);
    var t := ConsumerStep(s);
    assert s.consumer.buff == Blocks(s)[Done(s)] == s.published[|s.consumed|];
    assert t.consumed == t.published[..|t.consumed|];
  }

  lemma ConsumerKeepsInv(s: State)
    requires Inv(s) && ConsumerSafe(s)
    ensures Inv(ConsumerStep(s))
  {
    match s.consumer
    case Poll => PollStep(s);
    case GetLen(_) => GetLenStep(s);
    case GetData(len, buff) => if |buff| < len { GetDataStep(s); } else { ReleaseStep(s); }
  }

  // ---------- whole runs

  lemma NextKeepsInv(s: State, t: State)
    requires Inv(s) && Next(s, t)
    ensures Inv(t)
  {
    hide Holds, Image, Record, ProducerStep, ConsumerStep, ProducerSafe, ConsumerSafe;
    if ProducerSafe(s) && t == ProducerStep(s) {
      ProducerKeepsInv(s);
    } else if ConsumerSafe(s) && t == ConsumerStep(s) {
      ConsumerKeepsInv(s);
    }
  }

  lemma {:induction false} RunInv(states: seq<State>)
    requires Run(states)
    ensures Inv(states[|states| - 1])
    decreases |states|
  {
    var n := |states| - 1;
    if n == 0 {
      InitInv();
    } else {
      assert Next(states[n - 1], states[n]);
      forall i | 0 <= i < n - 1 ensures Next(states[..n][i], states[..n][i + 1]) {
        assert Next(states[i], states[i + 1]);
      }
      RunInv(states[..n]);
      NextKeepsInv(states[n - 1], states[n]);
    }
  }

  /** In every interleaving the strings printed are the first of the strings emitted, in order and
      byte for byte, and every access stays inside the ring. */
  lemma Delivery(states: seq<State>)
    requires Run(states)
    ensures var s := states[|states| - 1];
            && s.consumed <= s.calls
            && ProducerSafe(s) && ConsumerSafe(s)
  {
    RunInv(states);
    InvSafe(states[|states| - 1]);
  }

  /** A producer step changes no byte of a block that is not reclaimed. */
  lemma NothingOverwritten(s: State, r: nat)
    requires Inv(s) && ProducerSafe(s) && r < Span(Blocks(s))
    ensures ProducerStep(s).mem[Wrap(s.top + r)] == s.mem[Wrap(s.top + r)]
  {
    if s.producer.Write? {
      var w := if s.producer.w < |s.str| + 10 then s.producer.w else 0;
      assert Wrap(s.curr + w) == Wrap(s.top + (Span(Blocks(s)) + w));
    }
  }

  // ---------- reclaiming space

  /** A number of steps of the producer alone. */
  ghost function Produce(s: State, n: nat): State
    decreases n
  {
    if n == 0 || !ProducerSafe(s) then s else Produce(ProducerStep(s), n - 1)
  }

  lemma {:induction false} ProduceInv(s: State, n: nat)
    requires Inv(s)
    ensures Inv(Produce(s, n))
    decreases n
  {
    InvSafe(s);
    if n > 0 {
      ProducerKeepsInv(s);
      ProduceInv(ProducerStep(s), n - 1);
    }
  }

  lemma {:induction false} ProduceAdds(s: State, m: nat, n: nat)
    requires Inv(s)
    ensures Produce(s, m + n) == Produce(Produce(s, m), n)
    decreases m
  {
    hide Inv, ProducerStep, ProducerSafe;
    InvSafe(s);
    if m > 0 {
      ProducerKeepsInv(s);
      ProduceAdds(ProducerStep(s), m - 1, n);
    }
  }

  /** Reading the size at the top, from the first byte or from a later one. */
  lemma {:induction false} ReadsSize(s: State) returns (n: nat)
    requires Inv(s) && s.producer.ReadSize?
    ensures ProducerSafe(s) && 0 < n
    ensures var size := if Blocks(s) == [] then 0 else |Blocks(s)[0]|;
            Produce(s, n) == if size == 0 then s.(producer := Decide)
                             else s.(top := Advance(s.top, size), reclaimed := s.reclaimed + 1, producer := Check)
    decreases 4 - |s.producer.bytes|
  {
    hide Holds, Image, Be32, Value32;
    InvSafe(s);
    SizeByte(s);
    var t, j := ProducerStep(s), |s.producer.bytes|;
    assert s.producer.bytes + [SizeAtTop(s)[j]] == SizeAtTop(s)[..j + 1];
    if j < 3 {
      ProducerKeepsInv(s);
      n := ReadsSize(t);
      n := n + 1;
    } else {
      assert SizeAtTop(s)[..4] == SizeAtTop(s);
      ValueOfBe32(if Blocks(s) == [] then 0 else |Blocks(s)[0]|);
      n := 1;
      assert Produce(t, 0) == t;
    }
  }

  /** What is left of a list of strings without its first ones that are not empty. */
  ghost function FromEmpty(blocks: seq<seq<byte>>): seq<seq<byte>> {
    if blocks == [] || blocks[0] == [] then blocks else FromEmpty(blocks[1..])
  }

  /** One round at the top: a string that is consumed and not empty is reclaimed, otherwise the producer looks
      at the space. */
  lemma ReclaimsOne(s: State) returns (n: nat)
    requires Inv(s) && s.producer.Check?
    ensures s.reclaimed <= |s.published| && 0 <= Done(s) <= |Blocks(s)|
    ensures Produce(s, n) ==
            if Done(s) > 0 && Blocks(s)[0] != []
            then s.(top := Advance(s.top, |Blocks(s)[0]|), reclaimed := s.reclaimed + 1, producer := Check)
            else s.(producer := Decide)
  {
    InvSafe(s);
    CheckStep(s);
    DoneInside(s);
    hide Inv;
    var t := ProducerStep(s);
    if Blocks(s) != [] && Done(s) == 0 {
      n := 1;
      assert Produce(t, 0) == t;
    } else {
      n := ReadsSize(t);
      assert Blocks(t) == Blocks(s);
      n := n + 1;
    }
  }

  lemma DoneInside(s: State)
    requires Inv(s)
    ensures s.reclaimed <= |s.published| && 0 <= Done(s) <= |Blocks(s)|
  {
  }

  /** What the producer keeps when it reclaims as much as it can: of the consumed blocks those from the first
      empty one on, and those not consumed. */
  ghost function Kept(s: State): seq<seq<byte>>
    requires s.reclaimed <= |s.published| && 0 <= Done(s) <= |Blocks(s)|
  {
    FromEmpty(Blocks(s)[..Done(s)]) + Blocks(s)[Done(s)..]
  }

  lemma KeptNext(s: State, t: State)
    requires s.reclaimed < |s.published| && 0 < Done(s) <= |Blocks(s)| && Blocks(s)[0] != []
    requires t.published == s.published && t.consumed == s.consumed && t.reclaimed == s.reclaimed + 1
    ensures 0 <= Done(t) <= |Blocks(t)| && |Blocks(t)| < |Blocks(s)| && Kept(t) == Kept(s)
  {
    assert Blocks(t) == Blocks(s)[1..];
    assert Blocks(s)[..Done(s)][1..] == Blocks(t)[..Done(t)];
  }

  lemma KeptAll(s: State)
    requires s.reclaimed <= |s.published| && 0 <= Done(s) <= |Blocks(s)| && (Done(s) == 0 || Blocks(s)[0] == [])
    ensures Kept(s) == Blocks(s)
  {
  }

  /** Whatever is consumed so far, the producer alone reclaims all consumed blocks up to the first empty string,
      and no more, and then comes to look at the space; nothing else changes. */
  lemma {:induction false} Reclaims(s: State) returns (n: nat)
    requires Inv(s) && s.producer.Check?
    ensures s.reclaimed <= |s.published| && 0 <= Done(s) <= |Blocks(s)|
    ensures var t := Produce(s, n);
            && t == s.(producer := Decide, top := t.top, reclaimed := t.reclaimed)
            && s.reclaimed <= t.reclaimed <= |t.published| && Blocks(t) == Kept(s)
    decreases if s.reclaimed <= |s.published| then |Blocks(s)| else 0
  {
    n := ReclaimsOne(s);
    ProduceInv(s, n);
    var u := Produce(s, n);
    hide Inv, Produce, Blocks, Done, Kept, Advance;
    if u.producer.Check? {
      KeptNext(s, u);
      var m := Reclaims(u);
      ProduceAdds(s, n, m);
      n := n + m;
    } else {
      KeptAll(s);
    }
  }

  /** Then it writes its string if and only if that fits, with the guard band, beside what is kept; otherwise it
      starts again. */
  lemma Proceeds(s: State) returns (n: nat)
    requires Inv(s) && s.producer.Check?
    ensures s.reclaimed <= |s.published| && 0 <= Done(s) <= |Blocks(s)|
    ensures var t := Produce(s, n);
            && t == s.(producer := Decide, top := t.top, reclaimed := t.reclaimed)
            && s.reclaimed <= t.reclaimed <= |t.published| && Blocks(t) == Kept(s)
            && Occupied(t) == Span(Kept(s))
            && Produce(s, n + 1) == t.(producer := if Span(Kept(s)) + |s.str| + 16 <= SIZE then Write(1) else Check)
  {
    n := Reclaims(s);
    ProduceInv(s, n);
    var t := Produce(s, n);
    hide Inv, Kept, Blocks, Done, Span;
    InvSafe(t);
    DecideStep(t);
    ProduceAdds(s, n, 1);
    ProduceOne(t, 1);
    hide Produce;
    var u := ProducerStep(t);
    assert u == t.(producer := if Span(Kept(s)) + |s.str| + 16 <= SIZE then Write(1) else Check);
    assert Produce(u, 0) == u by { ProduceNone(u); }
  }

  lemma ProduceNone(s: State)
    ensures Produce(s, 0) == s
  {
  }

  /** Once everything is consumed, all space is reclaimed exactly when no string there is empty. */
  lemma ReclaimsAll(s: State) returns (n: nat)
    requires Inv(s) && s.producer.Check? && s.consumed == s.published
    ensures Occupied(Produce(s, n)) == 0 <==> forall i :: 0 <= i < |Blocks(s)| ==> Blocks(s)[i] != []
    ensures Produce(s, n + 1).producer == Write(1) <==> Occupied(Produce(s, n)) + |s.str| + 16 <= SIZE
  {
    n := Proceeds(s);
    hide Inv, Produce, Occupied, Span;
    FromEmptyNone(Blocks(s));
    assert Blocks(s)[..Done(s)] == Blocks(s) && Blocks(s)[Done(s)..] == [];
    assert Kept(s) == FromEmpty(Blocks(s));
  }

  lemma {:induction false} FromEmptyNone(blocks: seq<seq<byte>>)
    ensures Span(FromEmpty(blocks)) == 0 <==> forall i :: 0 <= i < |blocks| ==> blocks[i] != []
  {
    if blocks != [] && blocks[0] != [] {
      FromEmptyNone(blocks[1..]);
      assert forall i :: 0 < i < |blocks| ==> blocks[i] == blocks[1..][i - 1];
      assert forall i :: 0 <= i < |blocks| - 1 ==> blocks[1..][i] == blocks[i + 1];
    }
  }

  /** The first block not reclaimed is that of an empty string. */
  ghost predicate EmptyAtTop(s: State) {
    s.reclaimed < |s.published| && s.published[s.reclaimed] == []
  }

  /** It is never reclaimed: its zero size is taken for the sentinel. */
  lemma EmptyStaysAtTop(s: State, t: State)
    requires Inv(s) && Next(s, t) && EmptyAtTop(s)
    ensures t.top == s.top && t.reclaimed == s.reclaimed && EmptyAtTop(t)
  {
    hide *;
    if s.producer.ReadSize? && ProducerSafe(s) && t == ProducerStep(s) {
      EmptySizeKeepsTop(s);
    } else {
      OthersKeepTop(s, t);
    }
  }

  /** All but the step that reads the size at the top leave the top where it is. */
  lemma OthersKeepTop(s: State, t: State)
    requires Next(s, t) && EmptyAtTop(s)
    requires !(s.producer.ReadSize? && ProducerSafe(s) && t == ProducerStep(s))
    ensures t.top == s.top && t.reclaimed == s.reclaimed && EmptyAtTop(t)
  {
    hide Be32, Value32, Record, Put8, Get8;
  }

  lemma EmptySizeKeepsTop(s: State)
    requires Inv(s) && s.producer.ReadSize? && ProducerSafe(s) && EmptyAtTop(s)
    ensures var t := ProducerStep(s); t.top == s.top && t.reclaimed == s.reclaimed && EmptyAtTop(t)
  {
    hide Holds, Image, Be32, Value32, Record;
    SizeByte(s);
    ValueOfBe32(0);
    var j := |s.producer.bytes|;
    assert s.producer.bytes + [SizeAtTop(s)[j]] == SizeAtTop(s)[..j + 1];
    assert SizeAtTop(s)[..4] == SizeAtTop(s) == Be32(0);
  }

  /** So for the rest of any run the top stays where it is, and the strings still to be published
      share what was free. */
  lemma {:induction false} EmptyBlocksForever(states: seq<State>, i: nat)
    requires Run(states) && i < |states| && EmptyAtTop(states[i])
    ensures var s := states[|states| - 1];
            s.top == states[i].top && s.reclaimed == states[i].reclaimed && EmptyAtTop(s)
    decreases |states|
  {
    hide Inv, Next, EmptyAtTop;
    var n := |states| - 1;
    if i < n {
      forall k | 0 <= k < n - 1 ensures Next(states[..n][k], states[..n][k + 1]) {
        assert Next(states[k], states[k + 1]);
      }
      EmptyBlocksForever(states[..n], i);
      RunInv(states[..n]);
      assert Next(states[n - 1], states[n]);
      EmptyStaysAtTop(states[n - 1], states[n]);
    }
  }

  // ---------- a run with an empty string

  lemma RunNext(states: seq<State>, t: State)
    requires Run(states) && Next(states[|states| - 1], t)
    ensures Run(states + [t])
  {
    var more := states + [t];
    forall i | 0 <= i < |more| - 1 ensures Next(more[i], more[i + 1]) {
      if i < |states| - 1 {
        assert Next(states[i], states[i + 1]);
      }
    }
  }

  lemma LastOf(states: seq<State>, t: State)
    ensures (states + [t])[|states + [t]| - 1] == t && |states + [t]| > 0
  {
  }

  /** Steps of the producer alone go on with a run. */
  lemma {:induction false} ProduceRun(states: seq<State>, n: nat) returns (more: seq<State>)
    requires Run(states)
    ensures Run(more) && states <= more && more[|more| - 1] == Produce(states[|states| - 1], n)
    decreases n
  {
    var s := RunEnds(states);
    hide *;
    ProduceOne(s, n);
    if n == 0 {
      more := states;
    } else {
      ProducerMayStep(s);
      RunNext(states, ProducerStep(s));
      LastOf(states, ProducerStep(s));
      more := ProduceRun(states + [ProducerStep(s)], n - 1);
    }
  }

  /** Where a run ends, nothing reaches outside the ring. */
  lemma RunEnds(states: seq<State>) returns (s: State)
    requires Run(states)
    ensures |states| > 0 && s == states[|states| - 1] && Inv(s) && ProducerSafe(s) && ConsumerSafe(s)
  {
    s := states[|states| - 1];
    RunInv(states);
    InvSafe(s);
  }

  lemma ProduceOne(s: State, n: nat)
    requires ProducerSafe(s)
    ensures Produce(s, n) == if n == 0 then s else Produce(ProducerStep(s), n - 1)
  {
  }

  lemma ProducerMayStep(s: State)
    requires ProducerSafe(s)
    ensures Next(s, ProducerStep(s))
  {
    hide ProducerStep;
  }

  lemma ConsumerMayStep(s: State)
    requires ConsumerSafe(s)
    ensures Next(s, ConsumerStep(s))
  {
    hide ConsumerStep;
  }

  /** The producer leaves the consumer and what it has consumed alone. */
  lemma {:induction false} ConsumerWaits(s: State, n: nat)
    requires ProducerSafe(s)
    ensures var t := Produce(s, n); t.consumer == s.consumer && t.consumed == s.consumed
    decreases n
  {
    hide Put8, Record, Value32, Be32, Get8;
    if n > 0 && ProducerSafe(ProducerStep(s)) {
      ConsumerWaits(ProducerStep(s), n - 1);
    }
  }

  /** A record begun is published. */
  lemma {:induction false} Publishes(s: State) returns (n: nat)
    requires Inv(s) && s.producer.Write?
    ensures var t := Produce(s, n);
            t.producer.Idle? && t.published == s.published + [s.str] && t.reclaimed == s.reclaimed && t.calls == s.calls
    decreases |s.str| + 10 - (if s.producer.Write? then s.producer.w else 0)
  {
    InvSafe(s);
    hide Inv, Put8, Record;
    var t := ProducerStep(s);
    if s.producer.w < |s.str| + 10 {
      ProducerKeepsInv(s);
      n := Publishes(t);
      n := n + 1;
    } else {
      n := 1;
      assert Produce(t, 0) == t;
    }
  }

  /** The program calls the producer for the first time. */
  lemma FirstCall(str: CString) returns (states: seq<State>, s: State)
    ensures Run(states) && |states| > 0 && s == states[|states| - 1]
    ensures s.producer.Check? && s.str == str && s.calls == [str]
    ensures s.published == [] && s.consumed == [] && s.reclaimed == 0 && s.consumer.Poll?
  {
    s := Init().(producer := Check, str := str, calls := [str]);
    assert Call(Init(), s) by {
      assert Init().calls + [str] == [str];
    }
    RunNext([Init()], s);
    states := [Init()] + [s];
  }

  /** The producer comes to write a string that fits beside what is kept. */
  lemma BeginsToWrite(s: State) returns (n: nat)
    requires Inv(s) && s.producer.Check?
    requires s.reclaimed <= |s.published| && 0 <= Done(s) <= |Blocks(s)| && Span(Kept(s)) + |s.str| + 16 <= SIZE
    ensures var t := Produce(s, n);
            && Inv(t) && t == s.(producer := Write(1), top := t.top, reclaimed := t.reclaimed)
            && s.reclaimed <= t.reclaimed <= |t.published|
  {
    hide *;
    n := Proceeds(s);
    n := n + 1;
    ProduceInv(s, n);
  }

  lemma NothingHeld(s: State)
    requires s.published == [] && s.consumed == [] && s.reclaimed == 0
    ensures Blocks(s) == [] && Done(s) == 0 && Kept(s) == [] && Span(Kept(s)) == 0
  {
  }

  /** Every string that leaves the guard band can be the first one published. */
  lemma FirstPublished(str: CString) returns (states: seq<State>, s: State)
    requires |str| + 16 <= SIZE
    ensures Run(states) && |states| > 0 && s == states[|states| - 1]
    ensures s.calls == s.published == [str] && s.consumed == [] && s.reclaimed == 0 && s.consumer.Poll?
  {
    states, s := FirstCall(str);
    hide *;
    var r := RunEnds(states);
    NothingHeld(s);
    var n := BeginsToWrite(s);
    ConsumerWaits(s, n);
    states := ProduceRun(states, n);
    var t := RunEnds(states);
    var m := Publishes(t);
    ConsumerWaits(t, m);
    states := ProduceRun(states, m);
    s := RunEnds(states);
    CallsOf(s);
  }

  lemma CallsOf(s: State)
    requires Inv(s) && s.producer.Idle?
    ensures s.calls == s.published
  {
  }

  /** The program emits one empty string, and its block is at the top from then on. */
  lemma EmptyRun() returns (states: seq<State>)
    ensures Run(states) && states[|states| - 1].calls == [[]] && EmptyAtTop(states[|states| - 1])
  {
    var empty: CString := [];
    var s;
    states, s := FirstPublished(empty);
  }

  // ---------- the local buffer of the consumer

  const BUFFER: nat := 32769

  /** The copy of the string and its terminating 0 stay inside the local buffer. */
  predicate InBuffer(s: State) {
    s.consumer.GetData? ==> s.consumer.len < BUFFER
  }

  /** How many strings the consumer has copied or begun to copy. */
  function Reached(s: State): nat {
    |s.consumed| + if s.consumer.GetData? then 1 else 0
  }

  lemma CopiedString(s: State)
    requires Inv(s) && s.consumer.GetData?
    ensures Reached(s) <= |s.calls| && s.consumer.len == |s.calls[Reached(s) - 1]|
  {
    hide Holds, Image;
    assert Blocks(s)[Done(s)] == s.published[|s.consumed|];
  }

  lemma ReachedStep(s: State, t: State)
    requires Inv(s) && Next(s, t)
    ensures s.calls <= t.calls && Reached(s) <= Reached(t) <= Reached(s) + 1
    ensures Reached(t) == Reached(s) + 1 ==> t.consumer.GetData?
  {
    hide Holds, Image, Put8, Record, Value32, Be32, Get8;
  }

  lemma ReachedInside(s: State)
    requires Inv(s)
    ensures Reached(s) <= |s.calls|
  {
    hide Holds, Image;
  }

  /** The copies of a run stay inside the local buffer exactly if all strings reached have at most 32768 bytes. */
  lemma {:induction false} LocalBufferFits(states: seq<State>)
    requires Run(states)
    ensures var s := states[|states| - 1];
            && Reached(s) <= |s.calls|
            && ((forall i :: 0 <= i < |states| ==> InBuffer(states[i])) <==>
                forall k :: 0 <= k < Reached(s) ==> |s.calls[k]| <= 32768)
    decreases |states|
  {
    hide *;
    var t := RunEnds(states);
    var n := |states| - 1;
    ReachedInside(t);
    if t.consumer.GetData? {
      CopiedString(t);
    }
    if n == 0 {
      NothingReached(states);
    } else {
      ShorterRun(states);
      LocalBufferFits(states[..n]);
      var s := RunEnds(states[..n]);
      ReachedStep(s, t);
      BufferStep(states, states[..n], s, t);
    }
  }

  lemma NothingReached(states: seq<State>)
    requires Run(states) && |states| == 1
    ensures Reached(states[0]) == 0 && InBuffer(states[0])
  {
  }

  lemma ShorterRun(states: seq<State>)
    requires Run(states) && |states| > 1
    ensures Run(states[..|states| - 1]) && Next(states[|states| - 2], states[|states| - 1])
  {
    hide Next;
    var n := |states| - 1;
    assert Next(states[n - 1], states[n - 1 + 1]);
    forall i | 0 <= i < n - 1 ensures Next(states[..n][i], states[..n][i + 1]) {
      assert Next(states[i], states[i + 1]);
    }
  }

  lemma BufferStep(states: seq<State>, front: seq<State>, s: State, t: State)
    requires |states| > 1 && front == states[..|states| - 1] && s == states[|states| - 2] && t == states[|states| - 1]
    requires s.calls <= t.calls && Reached(s) <= Reached(t) <= Reached(s) + 1 && Reached(s) <= |s.calls| && Reached(t) <= |t.calls|
    requires Reached(t) == Reached(s) + 1 ==> t.consumer.GetData?
    requires t.consumer.GetData? ==> t.consumer.len == |t.calls[Reached(t) - 1]|
    requires (forall i :: 0 <= i < |front| ==> InBuffer(front[i])) <==>
             forall k :: 0 <= k < Reached(s) ==> |s.calls[k]| <= 32768
    ensures (forall i :: 0 <= i < |states| ==> InBuffer(states[i])) <==>
            forall k :: 0 <= k < Reached(t) ==> |t.calls[k]| <= 32768
  {
    var n := |states| - 1;
    assert forall i :: 0 <= i < n ==> front[i] == states[i];
    assert forall k :: 0 <= k < Reached(s) ==> s.calls[k] == t.calls[k];
  }

  /** The consumer alone comes to copy a string that is published. */
  lemma {:induction false} BeginsToCopy(states: seq<State>) returns (more: seq<State>)
    requires Run(states)
    requires var s := states[|states| - 1]; |s.consumed| < |s.published| && !s.consumer.GetData?
    ensures Run(more) && more[|more| - 1].consumer.GetData?
    ensures more[|more| - 1].calls == states[|states| - 1].calls && more[|more| - 1].consumed == states[|states| - 1].consumed
    decreases var c := states[|states| - 1].consumer; if c.GetLen? then 4 - |c.bytes| else 5
  {
    var s := RunEnds(states);
    hide Run, Inv, Next;
    var t := ConsumerStep(s);
    CopyNearer(s);
    ConsumerMayStep(s);
    RunNext(states, t);
    LastOf(states, t);
    if t.consumer.GetData? {
      more := states + [t];
    } else {
      more := BeginsToCopy(states + [t]);
    }
  }

  lemma CopyNearer(s: State)
    requires Inv(s) && ConsumerSafe(s) && |s.consumed| < |s.published| && !s.consumer.GetData?
    ensures var t := ConsumerStep(s);
            && t.calls == s.calls && t.consumed == s.consumed && t.published == s.published
            && (t.consumer.GetData? || (t.consumer.GetLen? && |t.consumer.bytes| < 4
                                        && (s.consumer.GetLen? ==> |t.consumer.bytes| > |s.consumer.bytes|)))
  {
    if s.consumer.Poll? {
      PollStep(s);
    }
    hide Inv, Holds, Image, Value32, Be32, Get8;
  }

  /** The producer accepts a string of 32769 bytes, and the consumer copies it past the end of its buffer. */
  lemma LongStringOverruns() returns (states: seq<State>)
    ensures Run(states) && !InBuffer(states[|states| - 1])
    ensures |states[|states| - 1].calls| == 1 && |states[|states| - 1].calls[0]| == 32769
  {
    var long: CString := seq(BUFFER, _ => 1);
    var s;
    states, s := FirstPublished(long);
    hide *;
    states := BeginsToCopy(states);
    var t := RunEnds(states);
    CopiedString(t);
    LongIsOut(t, long);
  }

  lemma LongIsOut(s: State, long: CString)
    requires |long| == BUFFER && s.calls == [long] && s.consumed == [] && s.consumer.GetData?
    requires s.consumer.len == |s.calls[Reached(s) - 1]|
    ensures !InBuffer(s)
  {
  }
}
