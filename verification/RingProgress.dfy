/** Progress in the ring: what either side reaches alone, and exactly which strings are delivered. */
module RingProgress {
  import opened RingBuffer

  // ---------- the consumer alone

  /** A number of steps of the consumer alone. */
  ghost function Consume(s: State, n: nat): State
    decreases n
  {
    if n == 0 || !ConsumerSafe(s) then s else Consume(ConsumerStep(s), n - 1)
  }

  /** How far the consumer is from releasing the next string, which is published. */
  ghost function Rest(s: State): int
    requires |s.consumed| < |s.published|
  {
    var len := |s.published[|s.consumed|]|;
    match s.consumer
    case Poll => len + 6
    case GetLen(bytes) => len + 5 - |bytes|
    case GetData(_, buff) => len - |buff|
  }

  /** The consumer has printed the next string and released its block; nothing else has changed. */
  ghost predicate Released(s: State, t: State)
    requires |s.consumed| < |s.published|
  {
    t == s.(mem := t.mem, ptr := t.ptr, consumer := Poll, consumed := s.published[..|s.consumed| + 1])
  }

  lemma ConsumerNears(s: State)
    requires Inv(s) && ConsumerSafe(s) && |s.consumed| < |s.published|
    ensures var t := ConsumerStep(s);
            Released(s, t) || (t == s.(consumer := t.consumer) && 0 <= Rest(t) < Rest(s))
  {
    NextBlock(s);
    match s.consumer
    case Poll =>
      PollStep(s);
      hide Inv;
    case GetLen(bytes) =>
      LengthBytes(s);
      ValueOfBe32(|s.published[|s.consumed|]|);
      hide Inv, Be32, Value32, Get8, Blocks;
      var b := bytes + [Get8(s.mem, s.ptr + 1 + |bytes|)];
      assert |b| == 4 ==> b == Be32(|s.published[|s.consumed|]|);
    case GetData(len, buff) =>
      CopiesNext(s);
  }

  lemma NextBlock(s: State)
    requires Inv(s) && |s.consumed| < |s.published|
    ensures s.reclaimed <= |s.published| && 0 <= Done(s) < |Blocks(s)|
    ensures Blocks(s)[Done(s)] == s.published[|s.consumed|] && |s.published[|s.consumed|]| < SIZE
  {
    LengthsFit(s);
  }

  lemma CopiesNext(s: State)
    requires Inv(s) && ConsumerSafe(s) && |s.consumed| < |s.published| && s.consumer.GetData?
    ensures var t := ConsumerStep(s);
            Released(s, t) || (t == s.(consumer := t.consumer) && 0 <= Rest(t) < Rest(s))
  {
    NextBlock(s);
    hide Holds, Image, Record, Get8;
    var str := s.published[|s.consumed|];
    assert s.consumer.len == |str| && s.consumer.buff <= str;
    if |s.consumer.buff| == s.consumer.len {
      assert s.consumer.buff == str && s.consumed + [str] == s.published[..|s.consumed| + 1];
    }
  }

  /** From wherever it is, the consumer prints the next published string. */
  lemma {:induction false} Consumes(s: State) returns (n: nat)
    requires Inv(s) && |s.consumed| < |s.published|
    ensures Inv(Consume(s, n)) && Released(s, Consume(s, n))
    decreases Rest(s)
  {
    InvSafe(s);
    ConsumerNears(s);
    ConsumerKeepsInv(s);
    hide *;
    var t := ConsumerStep(s);
    InvSafe(t);
    ConsumeOne(t, 0);
    if Released(s, t) {
      n := 1;
      ConsumeOne(s, 1);
    } else {
      StillNext(s, t);
      n := Consumes(t);
      ConsumeOne(s, n + 1);
      ReleasedLater(s, t, Consume(t, n));
      n := n + 1;
    }
  }

  lemma StillNext(s: State, t: State)
    requires |s.consumed| < |s.published| && t == s.(consumer := t.consumer)
    ensures |t.consumed| < |t.published|
  {
  }

  lemma ReleasedLater(s: State, t: State, u: State)
    requires |s.consumed| < |s.published| && t == s.(consumer := t.consumer) && Released(t, u)
    ensures Released(s, u)
  {
  }

  // ---------- both sides in a run

  lemma ConsumeOne(s: State, n: nat)
    requires ConsumerSafe(s)
    ensures Consume(s, n) == if n == 0 then s else Consume(ConsumerStep(s), n - 1)
  {
  }

  /** Steps of the consumer alone go on with a run. */
  lemma {:induction false} ConsumeRun(states: seq<State>, n: nat) returns (more: seq<State>)
    requires Run(states)
    ensures Run(more) && states <= more && more[|more| - 1] == Consume(states[|states| - 1], n)
    decreases n
  {
    var s := RunEnds(states);
    hide *;
    ConsumeOne(s, n);
    if n == 0 {
      more := states;
    } else {
      ConsumerMayStep(s);
      RunNext(states, ConsumerStep(s));
      LastOf(states, ConsumerStep(s));
      more := ConsumeRun(states + [ConsumerStep(s)], n - 1);
    }
  }

  lemma ConsumedFirst(s: State)
    requires Inv(s)
    ensures |s.consumed| <= |s.published| && s.consumed == s.published[..|s.consumed|]
  {
  }

  /** Nothing but what the consumer does has changed. */
  ghost predicate OnlyConsumed(s: State, t: State) {
    t == s.(mem := t.mem, ptr := t.ptr, consumer := t.consumer, consumed := t.consumed)
  }

  /** Every run can go on until all that is published is printed, without the producer. */
  lemma {:induction false} Drains(states: seq<State>) returns (more: seq<State>)
    requires Run(states)
    ensures Run(more) && states <= more
    ensures var s, t := states[|states| - 1], more[|more| - 1]; OnlyConsumed(s, t) && t.consumed == t.published
    decreases |states[|states| - 1].published| - |states[|states| - 1].consumed|
  {
    var s := RunEnds(states);
    ConsumedFirst(s);
    hide Run, Inv, Consume, ConsumerSafe, ProducerSafe;
    if s.consumed == s.published {
      more := states;
    } else {
      var n := Consumes(s);
      var next := ConsumeRun(states, n);
      more := Drains(next);
    }
  }

  // ---------- which strings are delivered

  /** The producer looks for space that it cannot get: the blocks from the first empty one on stay, and the
      string does not fit beside them. */
  ghost predicate Stuck(s: State) {
    && s.reclaimed <= |s.published|
    && (s.producer.Check? || s.producer.ReadSize? || s.producer.Decide?)
    && Span(FromEmpty(Blocks(s))) + |s.str| + 16 > SIZE
  }

  lemma {:induction false} FromEmptySpan(blocks: seq<seq<byte>>)
    ensures Span(FromEmpty(blocks)) <= Span(blocks)
  {
    if blocks != [] && blocks[0] != [] {
      FromEmptySpan(blocks[1..]);
    }
  }

  /** No step of either side ends that. */
  lemma StillStuck(s: State, t: State)
    requires Inv(s) && Next(s, t) && Stuck(s)
    ensures Stuck(t) && t.calls == s.calls && t.published == s.published
  {
    if ConsumerSafe(s) && t == ConsumerStep(s) {
      ConsumerLeaves(s);
      assert Blocks(t) == Blocks(s);
    } else {
      hide Call, ConsumerStep, ConsumerSafe;
      NoCallYet(s, t);
      match s.producer {
        case Check => StuckAtCheck(s);
        case ReadSize(_) => StuckAtSize(s);
        case Decide => StuckAtDecide(s);
        case _ =>
      }
    }
  }

  lemma ConsumerLeaves(s: State)
    requires ConsumerSafe(s)
    ensures OnlyConsumed(s, ConsumerStep(s))
  {
    hide Value32, Get8, Advance;
  }

  lemma NoCallYet(s: State, t: State)
    requires Next(s, t) && !s.producer.Idle? && !(ConsumerSafe(s) && t == ConsumerStep(s))
    ensures ProducerSafe(s) && t == ProducerStep(s)
  {
    hide ProducerStep, ConsumerStep, ProducerSafe, ConsumerSafe;
  }

  lemma StuckAtCheck(s: State)
    requires Inv(s) && ProducerSafe(s) && s.producer.Check? && Stuck(s)
    ensures var t := ProducerStep(s); Stuck(t) && t.calls == s.calls && t.published == s.published
  {
    CheckStep(s);
    hide Inv, ProducerStep;
    assert Blocks(ProducerStep(s)) == Blocks(s);
  }

  lemma StuckAtDecide(s: State)
    requires Inv(s) && ProducerSafe(s) && s.producer.Decide? && Stuck(s)
    ensures var t := ProducerStep(s); Stuck(t) && t.calls == s.calls && t.published == s.published
  {
    DecideStep(s);
    FromEmptySpan(Blocks(s));
    hide Inv, Occupied;
    assert Blocks(ProducerStep(s)) == Blocks(s);
  }

  lemma StuckAtSize(s: State)
    requires Inv(s) && ProducerSafe(s) && s.producer.ReadSize? && Stuck(s)
    ensures var t := ProducerStep(s); Stuck(t) && t.calls == s.calls && t.published == s.published
  {
    SizeBytes(s);
    ReadSizeIs(s);
    hide *;
    var b := s.producer.bytes + [Get8(s.mem, s.top + 1 + |s.producer.bytes|)];
    if |b| == 4 && Value32(b) != 0 {
      SizeOfFirst(s, b);
    }
    StuckWithLess(s, ProducerStep(s));
  }

  /** Reading goes on, or the first block, which is not empty, is reclaimed. */
  lemma StuckWithLess(s: State, t: State)
    requires Stuck(s) && t == s.(producer := t.producer, top := t.top, reclaimed := t.reclaimed)
    requires t.producer.ReadSize? || t.producer.Decide? || t.producer.Check?
    requires t.reclaimed != s.reclaimed ==> t.reclaimed == s.reclaimed + 1 && Blocks(s) != [] && Blocks(s)[0] != []
    ensures Stuck(t)
  {
    hide Span;
    assert Blocks(t) == if t.reclaimed == s.reclaimed then Blocks(s) else Blocks(s)[1..];
  }

  lemma {:induction false} StuckForever(states: seq<State>, i: nat)
    requires Run(states) && i < |states| && Stuck(states[i])
    ensures var s := states[|states| - 1];
            Stuck(s) && s.calls == states[i].calls && s.published == states[i].published
    decreases |states|
  {
    hide Inv, Next, Stuck;
    var n := |states| - 1;
    if i < n {
      ShorterRun(states);
      StuckForever(states[..n], i);
      RunInv(states[..n]);
      StillStuck(states[n - 1], states[n]);
    }
  }

  /** The history of an unfinished call. */
  lemma CallsAre(s: State)
    requires Inv(s)
    ensures s.calls == s.published + (if s.producer.Idle? then [] else [s.str])
    ensures |s.consumed| <= |s.published| && s.consumed == s.published[..|s.consumed|]
  {
  }

  /** The producer alone ends its call, unless it is stuck. */
  lemma Emits(states: seq<State>) returns (more: seq<State>)
    requires Run(states)
    requires var s := states[|states| - 1]; s.consumed == s.published && !Stuck(s)
    ensures Run(more) && states <= more
    ensures var s, t := states[|states| - 1], more[|more| - 1]; t.producer.Idle? && t.calls == s.calls
  {
    var s := RunEnds(states);
    hide *;
    if s.producer.Idle? {
      more := states;
    } else {
      var n := ComesToWrite(s);
      var next := ProduceRun(states, n);
      var t := RunEnds(next);
      var m := Publishes(t);
      more := ProduceRun(next, m);
    }
  }

  /** From any place in its call the producer comes to write, unless it is stuck. */
  lemma ComesToWrite(s: State) returns (n: nat)
    requires Inv(s) && !s.producer.Idle? && s.consumed == s.published && !Stuck(s)
    ensures Produce(s, n).producer.Write? && Produce(s, n).calls == s.calls
  {
    hide *;
    InvSafe(s);
    if s.producer.Write? {
      n := 0;
      ProduceOne(s, 0);
    } else if s.producer.Check? {
      n := WritesFromCheck(s);
    } else {
      var m := BackToCheck(s);
      var t := Produce(s, m);
      if t.producer.Write? {
        n := m;
      } else {
        ProduceInv(s, m);
        n := WritesFromCheck(t);
        ProduceAdds(s, m, n);
        n := m + n;
      }
    }
  }

  lemma WritesFromCheck(s: State) returns (n: nat)
    requires Inv(s) && s.producer.Check? && s.consumed == s.published && !Stuck(s)
    ensures Produce(s, n).producer.Write? && Produce(s, n).calls == s.calls
  {
    DoneInside(s);
    AllKept(s);
    hide Inv, Produce, Kept;
    n := BeginsToWrite(s);
  }

  lemma AllKept(s: State)
    requires s.reclaimed <= |s.published| && 0 <= Done(s) <= |Blocks(s)| && s.consumed == s.published
    ensures Kept(s) == FromEmpty(Blocks(s))
  {
    assert Blocks(s)[..Done(s)] == Blocks(s) && Blocks(s)[Done(s)..] == [];
  }

  /** From the middle of a round the producer comes to write or to the next round. */
  lemma BackToCheck(s: State) returns (n: nat)
    requires Inv(s) && (s.producer.ReadSize? || s.producer.Decide?) && s.consumed == s.published && !Stuck(s)
    ensures var t := Produce(s, n);
            && t.calls == s.calls
            && (t.producer.Write? || (t.producer.Check? && t.consumed == t.published && !Stuck(t)))
  {
    DoneInside(s);
    hide *;
    if s.producer.Decide? {
      n := DecidesOnce(s);
    } else {
      var m := ReadsOnce(s);
      var t := Produce(s, m);
      if t.producer.Check? {
        n := m;
      } else {
        ProduceInv(s, m);
        n := DecidesOnce(t);
        ProduceAdds(s, m, n);
        n := m + n;
      }
    }
  }

  lemma ReadsOnce(s: State) returns (n: nat)
    requires Inv(s) && s.producer.ReadSize? && s.consumed == s.published && !Stuck(s)
    ensures var t := Produce(s, n);
            t.calls == s.calls && (t.producer.Check? || t.producer.Decide?) && t.consumed == t.published && !Stuck(t)
  {
    DoneInside(s);
    n := ReadsSize(s);
    hide Inv, Produce, ProducerSafe, Advance, Span;
    var t := Produce(s, n);
    assert Blocks(t) == if t.producer.Check? then Blocks(s)[1..] else Blocks(s);
  }

  lemma DecidesOnce(s: State) returns (n: nat)
    requires Inv(s) && s.producer.Decide? && s.consumed == s.published && !Stuck(s)
    ensures var t := Produce(s, n);
            && t.calls == s.calls
            && (t.producer.Write? || (t.producer.Check? && t.consumed == t.published && !Stuck(t)))
  {
    InvSafe(s);
    n := 1;
    var t := ProducerStep(s);
    DoneInside(s);
    assert Produce(t, 0) == t;
    assert Blocks(t) == Blocks(s);
    hide Inv, Occupied, Span;
  }

  /** Every string handed to the producer can still be printed, in some continuation of a run, exactly if the
      producer is not stuck. */
  lemma DeliveredUnlessStuck(states: seq<State>)
    requires Run(states)
    ensures (exists more: seq<State> :: Run(more) && states <= more && states[|states| - 1].calls <= more[|more| - 1].consumed)
            <==> !Stuck(states[|states| - 1])
  {
    hide *;
    var s := RunEnds(states);
    if Stuck(s) {
      forall more: seq<State> | Run(more) && states <= more ensures !(s.calls <= more[|more| - 1].consumed) {
        NeverPrinted(states, more);
      }
    } else {
      var more := CanBePrinted(states);
    }
  }

  lemma NeverPrinted(states: seq<State>, more: seq<State>)
    requires Run(states) && Run(more) && states <= more && Stuck(states[|states| - 1])
    ensures !(states[|states| - 1].calls <= more[|more| - 1].consumed)
  {
    var s := RunEnds(states);
    var t := RunEnds(more);
    StuckForever(more, |states| - 1);
    CallsAre(s);
    CallsAre(t);
  }

  lemma CanBePrinted(states: seq<State>) returns (more: seq<State>)
    requires Run(states) && !Stuck(states[|states| - 1])
    ensures Run(more) && states <= more && states[|states| - 1].calls <= more[|more| - 1].consumed
  {
    var s := RunEnds(states);
    var next := Drains(states);
    var t := RunEnds(next);
    NotStuckDrained(s, t);
    hide *;
    next := Emits(next);
    more := Drains(next);
    var u := RunEnds(more);
    PrintedAll(next[|next| - 1], u);
  }

  lemma NotStuckDrained(s: State, t: State)
    requires OnlyConsumed(s, t) && !Stuck(s)
    ensures !Stuck(t) && t.calls == s.calls
  {
    if s.reclaimed <= |s.published| {
      assert Blocks(t) == Blocks(s);
    }
  }

  lemma PrintedAll(s: State, t: State)
    requires Inv(t) && s.producer.Idle? && OnlyConsumed(s, t) && t.consumed == t.published
    ensures t.consumed == s.calls
  {
  }
}
