/** Fixed-width machine words, least significant bit first.

    The C++ sources shift, mask and combine `uint8_t` ... `uint64_t` values; here a word is the
    sequence of its bits and its length is its width, so that truncation is always explicit. */
module Words {

  type Word = seq<bool>

  type Byte = w: Word | |w| == 8 witness Zeros(8)

  /** The bit at position i; positions outside the word read as 0. */
  predicate Bit(w: Word, i: int) {
    0 <= i < |w| && w[i]
  }

  function Zeros(width: nat): (r: Word)
    ensures |r| == width && forall i :: 0 <= i < width ==> !r[i]
  {
    seq(width, i => false)
  }

  /** (1 << n) - 1, truncated to the width. */
  function Ones(width: nat, n: nat): (r: Word)
    ensures |r| == width && forall i :: 0 <= i < width ==> r[i] == (i < n)
  {
    seq(width, i => i < n)
  }

  predicate IsZero(w: Word) {
    forall i :: 0 <= i < |w| ==> !w[i]
  }

  function Not(a: Word): (r: Word)
    ensures |r| == |a| && forall i :: 0 <= i < |a| ==> r[i] == !a[i]
  {
    seq(|a|, i requires 0 <= i < |a| => !a[i])
  }

  function And(a: Word, b: Word): (r: Word)
    requires |a| == |b|
    ensures |r| == |a| && forall i :: 0 <= i < |a| ==> r[i] == (a[i] && b[i])
  {
    seq(|a|, i requires 0 <= i < |a| => a[i] && b[i])
  }

  function Or(a: Word, b: Word): (r: Word)
    requires |a| == |b|
    ensures |r| == |a| && forall i :: 0 <= i < |a| ==> r[i] == (a[i] || b[i])
  {
    seq(|a|, i requires 0 <= i < |a| => a[i] || b[i])
  }

  function Xor(a: Word, b: Word): (r: Word)
    requires |a| == |b|
    ensures |r| == |a| && forall i :: 0 <= i < |a| ==> r[i] == (a[i] != b[i])
  {
    seq(|a|, i requires 0 <= i < |a| => a[i] != b[i])
  }

  /** Logical shift towards the least significant bit. */
  function Shr(a: Word, n: nat): (r: Word)
    ensures |r| == |a| && forall i :: 0 <= i < |a| ==> r[i] == Bit(a, i + n)
  {
    seq(|a|, i => Bit(a, i + n))
  }

  /** Shift towards the most significant bit; bits past the width are dropped. */
  function Shl(a: Word, n: nat): (r: Word)
    ensures |r| == |a| && forall i :: 0 <= i < |a| ==> r[i] == Bit(a, i - n)
  {
    seq(|a|, i => Bit(a, i - n))
  }

  /** Arithmetic shift towards the least significant bit: the top bit is replicated. */
  function Sar(a: Word, n: nat): (r: Word)
    ensures |r| == |a|
    ensures forall i :: 0 <= i < |a| ==> r[i] == a[if i + n < |a| then i + n else |a| - 1]
  {
    seq(|a|, i requires 0 <= i < |a| => a[if i + n < |a| then i + n else |a| - 1])
  }

  /** Conversion to another width: zero extension or truncation. */
  function Cast(a: Word, width: nat): (r: Word)
    ensures |r| == width && forall i :: 0 <= i < width ==> r[i] == Bit(a, i)
  {
    seq(width, i => Bit(a, i))
  }
}
