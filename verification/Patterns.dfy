/** Operation codes as sets of matching words, and `Operation::locate`. */
module Patterns {
  import opened Words

  /** `Operation::Code`: two byte arrays of one capacity. A set mask bit forces the code bit. */
  datatype Code = Code(mask: seq<Byte>, bits: seq<Byte>)

  /** An operation as `locate` sees it: its code and its maximum size in bits. */
  datatype Operation = Operation(code: Code, size: nat)

  /** The byte test of the decoders: (word & mask) == bits at every byte. */
  predicate Matches(w: seq<Byte>, c: Code) {
    && |w| == |c.mask| == |c.bits|
    && forall i :: 0 <= i < |w| ==> And(w[i], c.mask[i]) == c.bits[i]
  }

  /** What building a code with `setbits` and `setmask` guarantees. */
  ghost predicate Valid(op: Operation, capacity: nat) {
    && |op.code.mask| == |op.code.bits| == capacity
    && (op.size + 7) / 8 <= capacity
    && (forall i, j :: 0 <= i < capacity && 0 <= j < 8 && op.code.bits[i][j] ==> op.code.mask[i][j])
    && (forall i :: (op.size + 7) / 8 <= i < capacity ==> IsZero(op.code.mask[i]))
  }

  // ---------- set relations between codes

  ghost predicate Disjoint(a: Code, b: Code) {
    forall w: seq<Byte> :: Matches(w, a) ==> !Matches(w, b)
  }

  ghost predicate Subset(a: Code, b: Code) {
    forall w: seq<Byte> :: Matches(w, a) ==> Matches(w, b)
  }

  ghost predicate StrictSubset(a: Code, b: Code) {
    Subset(a, b) && !Subset(b, a)
  }

  // ---------- bit-level reasons

  ghost predicate Clash(a: Code, b: Code, i: int, j: int)
    requires |a.mask| == |a.bits| == |b.mask| == |b.bits|
  {
    && 0 <= i < |a.mask| && 0 <= j < 8
    && a.mask[i][j] && b.mask[i][j] && a.bits[i][j] != b.bits[i][j]
  }

  /** b constrains a bit that a leaves free. */
  ghost predicate Frees(a: Code, b: Code, i: int, j: int)
    requires |a.mask| == |a.bits| == |b.mask| == |b.bits|
  {
    0 <= i < |a.mask| && 0 <= j < 8 && !a.mask[i][j] && b.mask[i][j]
  }

  lemma MatchesBitwise(w: seq<Byte>, c: Code)
    requires |w| == |c.mask| == |c.bits|
    requires forall i, j :: 0 <= i < |w| && 0 <= j < 8 && c.bits[i][j] ==> c.mask[i][j]
    ensures Matches(w, c) <==>
            forall i, j :: 0 <= i < |w| && 0 <= j < 8 && c.mask[i][j] ==> w[i][j] == c.bits[i][j]
  {
    if Matches(w, c) {
      forall i, j | 0 <= i < |w| && 0 <= j < 8 && c.mask[i][j] ensures w[i][j] == c.bits[i][j] {
        assert And(w[i], c.mask[i])[j] == c.bits[i][j];
      }
    }
    if forall i, j :: 0 <= i < |w| && 0 <= j < 8 && c.mask[i][j] ==> w[i][j] == c.bits[i][j] {
      forall i | 0 <= i < |w| ensures And(w[i], c.mask[i]) == c.bits[i] {
        forall j | 0 <= j < 8 ensures And(w[i], c.mask[i])[j] == c.bits[i][j] {}
      }
    }
  }

  lemma ClashIsDisjoint(a: Code, b: Code, i: int, j: int)
    requires |a.mask| == |a.bits| == |b.mask| == |b.bits|
    requires Clash(a, b, i, j)
    ensures Disjoint(a, b)
  {
    forall w: seq<Byte> | Matches(w, a) ensures !Matches(w, b) {
      assert And(w[i], a.mask[i])[j] == w[i][j];
      assert And(w[i], b.mask[i])[j] == w[i][j];
    }
  }

  /** Bits forced by either code. */
  function Join(a: Code, b: Code): (w: seq<Byte>)
    requires |a.bits| == |b.bits|
    ensures |w| == |a.bits|
    ensures forall i :: 0 <= i < |w| ==> w[i] == Or(a.bits[i], b.bits[i])
  {
    seq(|a.bits|, i requires 0 <= i < |a.bits| => Or(a.bits[i], b.bits[i]))
  }

  /** Without a clash the two codes share a word ... */
  lemma NoClashMeets(a: Operation, b: Operation, capacity: nat)
    requires Valid(a, capacity) && Valid(b, capacity)
    requires forall i, j :: !Clash(a.code, b.code, i, j)
    ensures Matches(Join(a.code, b.code), a.code) && Matches(Join(a.code, b.code), b.code)
  {
    var w := Join(a.code, b.code);
    MatchesBitwise(w, a.code);
    MatchesBitwise(w, b.code);
    forall i, j | 0 <= i < capacity && 0 <= j < 8
      ensures a.code.mask[i][j] ==> w[i][j] == a.code.bits[i][j]
      ensures b.code.mask[i][j] ==> w[i][j] == b.code.bits[i][j]
    {
      assert !Clash(a.code, b.code, i, j);
    }
  }

  /** ... and a bit constrained by b alone separates a word of a from the words of b. */
  lemma FreeBitWitness(a: Operation, b: Operation, capacity: nat, i: int, j: int) returns (w: seq<Byte>)
    requires Valid(a, capacity) && Valid(b, capacity)
    requires forall x, y :: !Clash(a.code, b.code, x, y)
    requires Frees(a.code, b.code, i, j)
    ensures Matches(w, a.code) && !Matches(w, b.code)
  {
    var m := Join(a.code, b.code);
    NoClashMeets(a, b, capacity);
    MatchesBitwise(m, a.code);
    MatchesBitwise(m, b.code);
    var flipped: Byte := m[i][j := !m[i][j]];
    w := m[i := flipped];
    MatchesBitwise(w, a.code);
    MatchesBitwise(w, b.code);
    assert w[i][j] != b.code.bits[i][j];
  }

  lemma NothingFreedIsSubset(a: Operation, b: Operation, capacity: nat)
    requires Valid(a, capacity) && Valid(b, capacity)
    requires forall i, j :: !Clash(a.code, b.code, i, j)
    requires forall i, j :: !Frees(a.code, b.code, i, j)
    ensures Subset(a.code, b.code)
  {
    forall w: seq<Byte> | Matches(w, a.code) ensures Matches(w, b.code) {
      MatchesBitwise(w, a.code);
      MatchesBitwise(w, b.code);
      forall i, j | 0 <= i < |w| && 0 <= j < 8 && b.code.mask[i][j] ensures w[i][j] == b.code.bits[i][j] {
        assert !Frees(a.code, b.code, i, j) && !Clash(a.code, b.code, i, j);
      }
    }
  }

  lemma HasWord(a: Operation, capacity: nat)
    requires Valid(a, capacity)
    ensures Matches(a.code.bits, a.code)
  {
    MatchesBitwise(a.code.bits, a.code);
  }

  /** Where the words of two codes lie, in the terms of `Operation::locate`: a code `Contains`
      another when its constraints do, so that its own words are the fewer. */
  datatype Location = Outside | Overlaps | Inside | Contains | Equal

  ghost predicate Located(a: Code, b: Code, loc: Location) {
    match loc
    case Outside => Disjoint(a, b)
    case Equal => Subset(a, b) && Subset(b, a) && !Disjoint(a, b)
    case Contains => StrictSubset(a, b) && !Disjoint(a, b)
    case Inside => StrictSubset(b, a) && !Disjoint(a, b)
    case Overlaps => !Subset(a, b) && !Subset(b, a) && !Disjoint(a, b)
  }

  /** The answer of `locate` says all there is to say. */
  ghost predicate Settled(a: Code, b: Code, loc: Location) {
    && (forall l :: Located(a, b, l) <==> l == loc)
    && (loc == Contains <==> StrictSubset(a, b))
    && (loc == Inside <==> StrictSubset(b, a))
  }

  lemma Verdict(a: Code, b: Code, w: seq<Byte>, aFree: bool, bFree: bool)
    requires Matches(w, a) && Matches(w, b)
    requires aFree <==> !Subset(a, b)
    requires bFree <==> !Subset(b, a)
    ensures Settled(a, b, if aFree then if bFree then Overlaps else Inside else if bFree then Contains else Equal)
  {
    hide Subset, Matches;
    assert !Disjoint(a, b);
  }

  lemma VerdictOutside(a: Code, b: Code)
    requires Disjoint(a, b) && Matches(a.bits, a) && Matches(b.bits, b)
    ensures Settled(a, b, Outside)
  {
    hide Matches;
  }

  ghost predicate OfOneSize(a: Code, b: Code, capacity: nat) {
    |a.mask| == |a.bits| == |b.mask| == |b.bits| == capacity
  }

  /** No bit of the first bytes is forced both ways. */
  ghost predicate NoClashBefore(a: Code, b: Code, capacity: nat, n: int)
    requires OfOneSize(a, b, capacity)
  {
    forall x, y :: x < n ==> !Clash(a, b, x, y)
  }

  /** What the comparison has found in the first bytes: a bit that b alone constrains, or that there is none. */
  ghost predicate FreesBefore(a: Code, b: Code, capacity: nat, n: int, some: bool, i: int, j: int)
    requires OfOneSize(a, b, capacity)
  {
    if some then Frees(a, b, i, j) else forall x, y :: x < n ==> !Frees(a, b, x, y)
  }

  lemma NothingCompared(a: Operation, b: Operation, capacity: nat)
    requires Valid(a, capacity) && Valid(b, capacity)
    ensures OfOneSize(a.code, b.code, capacity) && NoClashBefore(a.code, b.code, capacity, 0)
    ensures FreesBefore(a.code, b.code, capacity, 0, false, 0, 0) && FreesBefore(b.code, a.code, capacity, 0, false, 0, 0)
    ensures (a.size + 7) / 8 <= capacity && (b.size + 7) / 8 <= capacity
  {
  }

  lemma SizesAre(a: Code, b: Code, capacity: nat)
    requires OfOneSize(a, b, capacity)
    ensures |a.mask| == |a.bits| == |b.mask| == |b.bits| == capacity && OfOneSize(b, a, capacity)
  {
  }

  lemma NoClashMore(a: Code, b: Code, capacity: nat, n: nat, clash: Byte)
    requires OfOneSize(a, b, capacity) && n < capacity && NoClashBefore(a, b, capacity, n)
    requires clash == And(And(a.mask[n], b.mask[n]), Xor(a.bits[n], b.bits[n])) && IsZero(clash)
    ensures NoClashBefore(a, b, capacity, n + 1)
  {
    forall y ensures !Clash(a, b, n, y) {
      assert 0 <= y < 8 ==> !clash[y];
    }
  }

  lemma ClashSettles(a: Operation, b: Operation, capacity: nat, n: nat, clash: Byte)
    requires Valid(a, capacity) && Valid(b, capacity) && n < capacity
    requires clash == And(And(a.code.mask[n], b.code.mask[n]), Xor(a.code.bits[n], b.code.bits[n])) && !IsZero(clash)
    ensures Settled(a.code, b.code, Outside)
  {
    hide Matches;
    HasWord(a, capacity);
    HasWord(b, capacity);
    var j :| 0 <= j < 8 && clash[j];
    ClashIsDisjoint(a.code, b.code, n, j);
    VerdictOutside(a.code, b.code);
  }

  lemma FreesMore(a: Code, b: Code, capacity: nat, n: nat, free: Byte, some: bool, i: int, j: int) returns (i': int, j': int)
    requires OfOneSize(a, b, capacity) && n < capacity && FreesBefore(a, b, capacity, n, some, i, j)
    requires free == And(Not(a.mask[n]), b.mask[n]) || free == And(b.mask[n], Not(a.mask[n]))
    ensures FreesBefore(a, b, capacity, n + 1, some || !IsZero(free), i', j')
  {
    i', j' := i, j;
    if !IsZero(free) {
      i' := n;
      j' :| 0 <= j' < 8 && free[j'];
    } else {
      forall y ensures !Frees(a, b, n, y) {
        assert 0 <= y < 8 ==> !free[y];
      }
    }
  }

  /** The verdict after all bytes. */
  lemma AllCompared(a: Operation, b: Operation, capacity: nat, n: nat, aFree: bool, ai: int, aj: int, bFree: bool, bi: int, bj: int)
    requires Valid(a, capacity) && Valid(b, capacity) && n == ((if a.size < b.size then b.size else a.size) + 7) / 8
    requires OfOneSize(a.code, b.code, capacity) && NoClashBefore(a.code, b.code, capacity, n)
    requires FreesBefore(a.code, b.code, capacity, n, aFree, ai, aj) && FreesBefore(b.code, a.code, capacity, n, bFree, bi, bj)
    ensures Settled(a.code, b.code, if aFree then if bFree then Overlaps else Inside else if bFree then Contains else Equal)
  {
    hide Subset, Matches, Clash, Frees, Settled;
    var hit := MeetAndSplit(a, b, capacity, aFree, bFree);
    Verdict(a.code, b.code, hit, aFree, bFree);
  }

  /** `Operation::locate`: byte by byte, stopping at the first clash. */
  method Locate(a: Operation, b: Operation, ghost capacity: nat) returns (loc: Location)
    requires Valid(a, capacity) && Valid(b, capacity)
    ensures Settled(a.code, b.code, loc)
  {
    hide *;
    NothingCompared(a, b, capacity);
    SizesAre(a.code, b.code, capacity);
    var someAOutsideB, someBOutsideA := false, false;
    var size := if a.size < b.size then b.size else a.size;
    var end := (size + 7) / 8;
    ghost var ai, aj, bi, bj := 0, 0, 0, 0;
    var idx := 0;
    while idx < end
      invariant 0 <= idx <= end <= capacity
      invariant NoClashBefore(a.code, b.code, capacity, idx)
      invariant FreesBefore(a.code, b.code, capacity, idx, someAOutsideB, ai, aj)
      invariant FreesBefore(b.code, a.code, capacity, idx, someBOutsideA, bi, bj)
    {
      var (am, bm) := (a.code.mask[idx], b.code.mask[idx]);
      var clash := And(And(am, bm), Xor(a.code.bits[idx], b.code.bits[idx]));
      if !IsZero(clash) {
        ClashSettles(a, b, capacity, idx, clash);
        return Outside;
      }
      NoClashMore(a.code, b.code, capacity, idx, clash);
      var free := And(Not(am), bm);
      ai, aj := FreesMore(a.code, b.code, capacity, idx, free, someAOutsideB, ai, aj);
      if !IsZero(free) {
        someAOutsideB := true;
      }
      free := And(am, Not(bm));
      bi, bj := FreesMore(b.code, a.code, capacity, idx, free, someBOutsideA, bi, bj);
      if !IsZero(free) {
        someBOutsideA := true;
      }
      idx := idx + 1;
    }
    AllCompared(a, b, capacity, idx, someAOutsideB, ai, aj, someBOutsideA, bi, bj);
    loc := if someAOutsideB then if someBOutsideA then Overlaps else Inside
           else if someBOutsideA then Contains else Equal;
  }

  /** The verdict once no byte clashes. */
  lemma MeetAndSplit(a: Operation, b: Operation, capacity: nat, aFree: bool, bFree: bool) returns (w: seq<Byte>)
    requires Valid(a, capacity) && Valid(b, capacity)
    requires forall i, j :: i < (a.size + 7) / 8 || i < (b.size + 7) / 8 ==> !Clash(a.code, b.code, i, j)
    requires aFree ==> exists i, j :: Frees(a.code, b.code, i, j)
    requires !aFree ==> forall i, j :: i < (b.size + 7) / 8 ==> !Frees(a.code, b.code, i, j)
    requires bFree ==> exists i, j :: Frees(b.code, a.code, i, j)
    requires !bFree ==> forall i, j :: i < (a.size + 7) / 8 ==> !Frees(b.code, a.code, i, j)
    ensures Matches(w, a.code) && Matches(w, b.code)
    ensures aFree <==> !Subset(a.code, b.code)
    ensures bFree <==> !Subset(b.code, a.code)
  {
    forall i, j ensures !Clash(a.code, b.code, i, j) && !Clash(b.code, a.code, i, j) {
      assert Clash(a.code, b.code, i, j) ==> !IsZero(a.code.mask[i]);
      assert Clash(b.code, a.code, i, j) ==> Clash(a.code, b.code, i, j);
    }
    NoClashMeets(a, b, capacity);
    w := Join(a.code, b.code);
    if aFree {
      var i, j :| Frees(a.code, b.code, i, j);
      var x := FreeBitWitness(a, b, capacity, i, j);
    } else {
      forall i, j ensures !Frees(a.code, b.code, i, j) {
        assert Frees(a.code, b.code, i, j) ==> !IsZero(b.code.mask[i]);
      }
      NothingFreedIsSubset(a, b, capacity);
    }
    if bFree {
      var i, j :| Frees(b.code, a.code, i, j);
      var x := FreeBitWitness(b, a, capacity, i, j);
    } else {
      forall i, j ensures !Frees(b.code, a.code, i, j) {
        assert Frees(b.code, a.code, i, j) ==> !IsZero(a.code.mask[i]);
      }
      NothingFreedIsSubset(b, a, capacity);
    }
  }
}
