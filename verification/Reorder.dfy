/** The order of bit fields: `Isa::reorder` reverses the parsed list in place, in two stages, and the
    word list of the script walks its words recursively. */
module Reorder {
  import opened Sequences

  /** A parsed field: one of a word, or a separator between words. */
  datatype Item = Field(id: nat) | Separator

  type Word = s: seq<Item> | forall i :: 0 <= i < |s| ==> s[i].Field? witness []

  /** Words in a row, separated. */
  function Joined(words: seq<Word>): seq<Item> {
    if words == [] then []
    else if |words| == 1 then words[0]
    else words[0] + [Separator] + Joined(words[1..])
  }

  function ReverseWords(words: seq<Word>): (r: seq<Word>)
    ensures |r| == |words| && forall i :: 0 <= i < |r| ==> r[i] == Reversed(words[i])
  {
    seq(|words|, i requires 0 <= i < |words| => Reversed(words[i]))
  }

  // ---------- the recursive walk of the script

  /** `WordList`: the fields of the last word, and the words before it. */
  datatype WordList = WordList(tail: Tail, bitfields: Word)
  datatype Tail = NoTail | Tail(list: WordList)

  function OrderedBitfields(l: WordList, revWorder: bool, revForder: bool): seq<Item> {
    var before := if l.tail.NoTail? then [] else OrderedBitfields(l.tail.list, revWorder, revForder);
    var own := if revForder then Reversed(l.bitfields) else l.bitfields;
    if revWorder then own + [Separator] + before else before + [Separator] + own
  }

  /** The words of a list, in the order of the source. */
  function Words(l: WordList): (w: seq<Word>)
    ensures |w| > 0
  {
    (if l.tail.NoTail? then [] else Words(l.tail.list)) + [l.bitfields]
  }

  // ---------- the two stages in place

  method ReverseRange(a: array<Item>, lo: nat, hi: nat)
    requires lo <= hi <= a.Length
    modifies a
    ensures a[..] == old(a[..lo]) + Reversed(old(a[lo..hi])) + old(a[hi..])
  {
    var i, j := lo, hi;
    while i < j
      invariant lo <= i <= hi && lo <= j <= hi && i + j == lo + hi && i <= j + 1
      invariant forall k :: 0 <= k < a.Length ==>
                  a[k] == if lo <= k < i || j <= k < hi then old(a[lo + hi - 1 - k]) else old(a[k])
      decreases j - i
    {
      a[i], a[j - 1] := a[j - 1], a[i];
      i, j := i + 1, j - 1;
    }
  }

  /** The first separator of a list, or its length. */
  function FirstSeparator(s: seq<Item>): (n: nat)
    ensures n <= |s| && (n < |s| ==> s[n].Separator?)
    ensures forall i :: 0 <= i < n ==> s[i].Field?
  {
    if s == [] || s[0].Separator? then 0 else 1 + FirstSeparator(s[1..])
  }

  /** Every run between separators reversed. */
  function ReverseRuns(s: seq<Item>): seq<Item>
    decreases |s|
  {
    var n := FirstSeparator(s);
    if n == |s| then Reversed(s) else Reversed(s[..n]) + [Separator] + ReverseRuns(s[n + 1..])
  }

  /** The first run of a list reversed, then the others. */
  lemma {:induction false} RunsStep(s: seq<Item>, n: nat)
    requires n <= |s| && (forall i :: 0 <= i < n ==> s[i].Field?) && (n < |s| ==> s[n].Separator?)
    ensures ReverseRuns(s) == if n == |s| then Reversed(s) else Reversed(s[..n]) + [Separator] + ReverseRuns(s[n + 1..])
  {
    hide *;
    FirstSeparatorIs(s, n);
    RunsUnfold(s);
  }

  lemma {:induction false} RunsUnfold(s: seq<Item>)
    ensures var n := FirstSeparator(s);
            ReverseRuns(s) == if n == |s| then Reversed(s) else Reversed(s[..n]) + [Separator] + ReverseRuns(s[n + 1..])
  {
    hide Reversed, FirstSeparator;
  }

  lemma {:induction false} FirstSeparatorIs(s: seq<Item>, n: nat)
    requires n <= |s| && (forall i :: 0 <= i < n ==> s[i].Field?) && (n < |s| ==> s[n].Separator?)
    ensures FirstSeparator(s) == n
  {
  }

  /** One more run reversed in place. */
  lemma RunReversed(s: seq<Item>, before: seq<Item>, after: seq<Item>, b: nat, e: nat)
    requires b <= e <= |s| == |before|
    requires before[b..] == s[b..] && before[..b] + ReverseRuns(s[b..]) == ReverseRuns(s)
    requires (forall i :: b <= i < e ==> before[i].Field?) && (e < |s| ==> before[e].Separator?)
    requires after == before[..b] + Reversed(before[b..e]) + before[e..]
    ensures |after| == |s|
    ensures e < |s| ==> after[e + 1..] == s[e + 1..] && after[..e + 1] + ReverseRuns(s[e + 1..]) == ReverseRuns(s)
    ensures e == |s| ==> after == ReverseRuns(s)
  {
    hide *;
    var t, run := s[b..], Reversed(before[b..e]);
    RunSlices(s, before, after, run, b, e);
    RunsStep(t, e - b);
  }

  lemma RunSlices(s: seq<Item>, before: seq<Item>, after: seq<Item>, run: seq<Item>, b: nat, e: nat)
    requires b <= e <= |s| == |before| && |run| == e - b
    requires before[b..] == s[b..] && (e < |s| ==> before[e].Separator?)
    requires after == before[..b] + run + before[e..]
    ensures s[b..][..e - b] == before[b..e] && (forall i :: 0 <= i < |s[b..]| ==> s[b..][i] == before[b + i])
    ensures e < |s| ==> && after[..e + 1] == before[..b] + run + [Separator] && after[e + 1..] == s[e + 1..]
                        && s[b..][e - b + 1..] == s[e + 1..]
    ensures e == |s| ==> after == before[..b] + run && s[b..] == before[b..e]
    ensures forall r: seq<Item> :: before[..b] + (run + [Separator] + r) == before[..b] + run + [Separator] + r
  {
    assert forall i :: b <= i < |s| ==> s[i] == s[b..][i - b] == before[b..][i - b] == before[i];
  }

  /** The fields of each word reversed, separators staying where they are. */
  method ReverseFields(bitfields: array<Item>)
    modifies bitfields
    ensures bitfields[..] == ReverseRuns(old(bitfields[..]))
  {
    hide *;
    ghost var s := bitfields[..];
    var fbeg := 0;
    while fbeg < bitfields.Length
      invariant fbeg <= bitfields.Length ==>
                  bitfields[..][fbeg..] == s[fbeg..] && bitfields[..][..fbeg] + ReverseRuns(s[fbeg..]) == ReverseRuns(s)
      invariant fbeg > bitfields.Length ==> bitfields[..] == ReverseRuns(s)
      decreases bitfields.Length - fbeg
    {
      var fend := fbeg;
      while fend < bitfields.Length && !bitfields[fend].Separator?
        invariant fbeg <= fend <= bitfields.Length
        invariant forall k :: fbeg <= k < fend ==> bitfields[..][k].Field?
      {
        fend := fend + 1;
      }
      ghost var before := bitfields[..];
      ReverseRange(bitfields, fbeg, fend);
      RunReversed(s, before, bitfields[..], fbeg, fend);
      fend := fend + 1;
      fbeg := fend;
    }
    NothingLeft();
  }

  lemma NothingLeft()
    ensures ReverseRuns([]) == []
  {
  }

  /** What the two stages come to. */
  function Reordered(s: seq<Item>, revForder: bool, revWorder: bool): seq<Item> {
    var t := if revWorder then Reversed(s) else s;
    if revForder != revWorder then ReverseRuns(t) else t
  }

  /** `Isa::reorder`. */
  method Reorder(bitfields: array<Item>, ascForder: bool, ascWorder: bool, littleEndian: bool)
    modifies bitfields
    ensures bitfields[..] == Reordered(old(bitfields[..]), ascForder != littleEndian, ascWorder != littleEndian)
  {
    hide Reversed, ReverseRuns;
    var revForder, revWorder := ascForder != littleEndian, ascWorder != littleEndian;
    if revWorder {
      ghost var s := bitfields[..];
      ReverseRange(bitfields, 0, bitfields.Length);
      assert bitfields[..] == Reversed(s) by { assert s[0..|s|] == s && s[..0] == [] && s[|s|..] == []; }
      revForder := !revForder;
    }
    if revForder {
      ReverseFields(bitfields);
    }
  }

  // ---------- both orders agree

  lemma {:induction false} JoinedSnoc(w: seq<Word>, last: Word)
    requires w != []
    ensures Joined(w + [last]) == Joined(w) + [Separator] + last
  {
    assert (w + [last])[0] == w[0];
    if |w| == 1 {
      assert (w + [last])[1..] == [last];
    } else {
      assert (w + [last])[1..] == w[1..] + [last];
      JoinedSnoc(w[1..], last);
      assert w[0] + [Separator] + (Joined(w[1..]) + [Separator] + last)
          == w[0] + [Separator] + Joined(w[1..]) + [Separator] + last;
    }
  }

  lemma JoinedCons(first: Word, w: seq<Word>)
    requires w != []
    ensures Joined([first] + w) == first + [Separator] + Joined(w)
  {
    assert ([first] + w)[1..] == w;
  }

  lemma ReversedConcat<T>(s: seq<T>, t: seq<T>)
    ensures Reversed(s + t) == Reversed(t) + Reversed(s)
  {
    forall i | 0 <= i < |s + t| ensures Reversed(s + t)[i] == (Reversed(t) + Reversed(s))[i] {
    }
  }

  /** Reversing a whole list reverses its words and each of them. */
  lemma {:induction false} ReversedJoined(w: seq<Word>)
    ensures Reversed(Joined(w)) == Joined(Reversed(ReverseWords(w)))
  {
    if |w| == 0 {
    } else if |w| == 1 {
      assert Reversed(ReverseWords(w)) == [Reversed(w[0])];
    } else {
      var rest := w[1..];
      ReversedJoined(rest);
      ReversedConcat(w[0] + [Separator], Joined(rest));
      ReversedConcat(w[0], [Separator]);
      assert Reversed([Separator]) == [Separator];
      assert Reversed(ReverseWords(w)) == Reversed(ReverseWords(rest)) + [Reversed(w[0])];
      JoinedSnoc(Reversed(ReverseWords(rest)), Reversed(w[0]));
      assert Reversed(Joined(rest)) + ([Separator] + Reversed(w[0])) == Reversed(Joined(rest)) + [Separator] + Reversed(w[0]);
    }
  }

  /** Reversing every run reverses every word and keeps the words in order. */
  lemma {:induction false} RunsJoined(w: seq<Word>)
    ensures ReverseRuns(Joined(w)) == Joined(ReverseWords(w))
  {
    if |w| == 0 {
    } else if |w| == 1 {
      RunsStep(w[0], |w[0]|);
    } else {
      var s, n := Joined(w), |w[0]|;
      assert s[n].Separator? && s[..n] == w[0] && s[n + 1..] == Joined(w[1..]);
      RunsStep(s, n);
      RunsJoined(w[1..]);
      assert ReverseWords(w)[1..] == ReverseWords(w[1..]);
    }
  }

  /** The words as the script orders each. */
  function Oriented(w: seq<Word>, revForder: bool): (r: seq<Word>)
    ensures |r| == |w|
  {
    if revForder then ReverseWords(w) else w
  }

  function Turned(w: Word, revForder: bool): Word {
    if revForder then Reversed(w) else w
  }

  lemma OrientedSnoc(w: seq<Word>, last: Word, revForder: bool)
    ensures Oriented(w + [last], revForder) == Oriented(w, revForder) + [Turned(last, revForder)]
    ensures Oriented([last], revForder) == [Turned(last, revForder)]
    ensures Reversed(Oriented(w + [last], revForder)) == [Turned(last, revForder)] + Reversed(Oriented(w, revForder))
    ensures Reversed(Oriented([last], revForder)) == [Turned(last, revForder)]
  {
  }

  lemma JoinedOne(w: Word)
    ensures Joined([w]) == w
  {
  }

  lemma {:induction false} ScriptForward(l: WordList, revForder: bool)
    ensures OrderedBitfields(l, false, revForder) == [Separator] + Joined(Oriented(Words(l), revForder))
  {
    hide Reversed, Joined, Oriented;
    var own := Turned(l.bitfields, revForder);
    JoinedOne(own);
    if l.tail.NoTail? {
      assert Words(l) == [l.bitfields];
      OrientedSnoc([], l.bitfields, revForder);
    } else {
      var before := Words(l.tail.list);
      ScriptForward(l.tail.list, revForder);
      OrientedSnoc(before, l.bitfields, revForder);
      JoinedSnoc(Oriented(before, revForder), own);
    }
  }

  lemma {:induction false} ScriptBackward(l: WordList, revForder: bool)
    ensures OrderedBitfields(l, true, revForder) == Joined(Reversed(Oriented(Words(l), revForder))) + [Separator]
  {
    hide Reversed, Joined, Oriented;
    var own := Turned(l.bitfields, revForder);
    JoinedOne(own);
    if l.tail.NoTail? {
      assert Words(l) == [l.bitfields];
      OrientedSnoc([], l.bitfields, revForder);
    } else {
      var before := Words(l.tail.list);
      ScriptBackward(l.tail.list, revForder);
      OrientedSnoc(before, l.bitfields, revForder);
      JoinedCons(own, Reversed(Oriented(before, revForder)));
    }
  }

  /** For every list and all four order flags, the two stages in place leave the fields where the recursive
      walk puts them: the walk's only surplus is one separator, at the end it walks towards. */
  lemma ReorderAgrees(l: WordList, revForder: bool, revWorder: bool)
    ensures var inPlace := Reordered(Joined(Words(l)), revForder, revWorder);
            OrderedBitfields(l, revWorder, revForder)
            == if revWorder then inPlace + [Separator] else [Separator] + inPlace
  {
    var w := Words(l);
    if revWorder {
      ScriptBackward(l, revForder);
      ReversedJoined(w);
      if !revForder {
        RunsJoined(Reversed(ReverseWords(w)));
        assert ReverseWords(Reversed(ReverseWords(w))) == Reversed(w) by {
          forall i | 0 <= i < |w| ensures ReverseWords(Reversed(ReverseWords(w)))[i] == Reversed(w)[i] {
            assert Reversed(Reversed(w[|w| - 1 - i])) == w[|w| - 1 - i];
          }
        }
      }
    } else {
      ScriptForward(l, revForder);
      if revForder {
        RunsJoined(w);
      }
    }
  }

  /** Every list of fields and separators is the words of some word list, separated. */
  lemma {:induction false} EveryListHasWords(s: seq<Item>) returns (l: WordList)
    ensures Joined(Words(l)) == s
    decreases |s|
  {
    hide Joined, Reversed;
    if forall i :: 0 <= i < |s| ==> s[i].Field? {
      l := WordList(NoTail, s);
      JoinedOne(s);
      assert Words(l) == [s];
    } else {
      var n := LastSeparator(s);
      var front := EveryListHasWords(s[..n]);
      var own: Word := s[n + 1..];
      l := WordList(Tail(front), own);
      JoinedSnoc(Words(front), own);
      assert s == s[..n] + [Separator] + own;
    }
  }

  lemma {:induction false} LastSeparator(s: seq<Item>) returns (n: nat)
    requires exists i :: 0 <= i < |s| && s[i].Separator?
    ensures n < |s| && s[n].Separator? && forall i :: n < i < |s| ==> s[i].Field?
  {
    n := |s| - 1;
    if s[n].Field? {
      n := LastSeparator(s[..n]);
    }
  }
}
