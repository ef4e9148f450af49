/** Runs of the decode cache: when cached decoding agrees with uncached decoding. */
module CacheRuns {
  import opened DecodeCache
  import opened Wrappers

  datatype Command = DecodeAt(addr: nat, insn: Insn) | InvalidateEntry(addr: nat) | InvalidateAll

  /** The codes given to the decoder are those of the instruction set. */
  predicate Proper(isa: Isa, commands: seq<Command>) {
    forall i :: 0 <= i < |commands| ==> commands[i].DecodeAt? ==> isa.IsCode(commands[i].insn)
  }

  function Apply(isa: Isa, cache: Cache, command: Command): Cache
    requires 0 < isa.unit
  {
    match command
    case DecodeAt(addr, insn) => AfterDecode(isa, cache, addr, insn)
    case InvalidateEntry(addr) => cache - {isa.PageKey(addr)}
    case InvalidateAll => map[]
  }

  function CacheAfter(isa: Isa, commands: seq<Command>): Cache
    requires 0 < isa.unit
  {
    if commands == [] then map[]
    else Apply(isa, CacheAfter(isa, commands[..|commands| - 1]), commands[|commands| - 1])
  }

  /** What each command of a run returns. */
  function Results(isa: Isa, commands: seq<Command>): (r: seq<Option<Operation>>)
    requires 0 < isa.unit
    ensures |r| == |commands|
  {
    if commands == [] then []
    else
      var n := |commands| - 1;
      var last := commands[n];
      Results(isa, commands[..n])
      + [if last.DecodeAt? then Some(Decoded(isa, CacheAfter(isa, commands[..n]), last.addr, last.insn)) else None]
  }

  /** Executes a run on a new decoder: the page table goes through the caches of the run. */
  method Execute(isa: Isa, commands: seq<Command>) returns (decoder: Decoder, results: seq<Option<Operation>>)
    requires isa.Valid()
    ensures fresh(decoder) && decoder.Valid() && decoder.isa == isa
    ensures decoder.cache == CacheAfter(isa, commands)
    ensures results == Results(isa, commands)
  {
    decoder := new Decoder(isa);
    results := [];
    for i := 0 to |commands|
      invariant fresh(decoder) && fresh(decoder.decodeHashTable) && fresh(decoder.repr)
      invariant decoder.Valid() && decoder.isa == isa
      invariant decoder.cache == CacheAfter(isa, commands[..i]) && results == Results(isa, commands[..i])
    {
      assert commands[..i + 1][..i] == commands[..i];
      match commands[i]
      case DecodeAt(addr, insn) =>
        var operation := decoder.Decode(addr, insn);
        results := results + [Some(operation)];
      case InvalidateEntry(addr) =>
        decoder.InvalidateDecodingCacheEntry(addr);
        results := results + [None];
      case InvalidateAll =>
        decoder.InvalidateDecodingCache();
        results := results + [None];
    }
    assert commands[..|commands|] == commands;
  }

  // ---------- the history of an instruction

  /** What the cache holds for the instruction at an address. */
  function Held(isa: Isa, cache: Cache, b: nat): Option<Operation>
    requires 0 < isa.unit
  {
    if isa.PageKey(b) in cache then cache[isa.PageKey(b)][isa.Slot(b)] else None
  }

  /** What decoding gives when an operation is remembered: that one, if it is of the same address and its code
      begins like the one given. */
  function Returned(isa: Isa, remembered: Option<Operation>, addr: nat, insn: Insn): Operation {
    if remembered.Some?
       && remembered.value.addr == addr
       && remembered.value.length <= |insn| && remembered.value.length <= |remembered.value.encoding|
       && insn[..remembered.value.length] == remembered.value.encoding[..remembered.value.length]
    then remembered.value
    else isa.ncDecode(addr, insn)
  }

  /** What is remembered for the instruction at an address, told from the commands without pages: what was last
      decoded for it, unless its block of 4096 instructions or everything has been invalidated since. */
  ghost function Remembered(isa: Isa, commands: seq<Command>, b: nat): Option<Operation>
    requires 0 < isa.unit
  {
    if commands == [] then None
    else
      var n := |commands| - 1;
      var front := commands[..n];
      match commands[n]
      case DecodeAt(addr, insn) =>
        if addr / isa.unit == b / isa.unit then Some(Returned(isa, Remembered(isa, front, b), addr, insn))
        else Remembered(isa, front, b)
      case InvalidateEntry(addr) => if OneBlock(isa, addr, b) then None else Remembered(isa, front, b)
      case InvalidateAll => None
  }

  lemma ApplyHeld(isa: Isa, cache: Cache, command: Command, b: nat)
    requires 0 < isa.unit
    ensures Held(isa, Apply(isa, cache, command), b) ==
            match command
            case DecodeAt(addr, insn) =>
              if addr / isa.unit == b / isa.unit then Some(Returned(isa, Held(isa, cache, b), addr, insn)) else Held(isa, cache, b)
            case InvalidateEntry(addr) => if OneBlock(isa, addr, b) then None else Held(isa, cache, b)
            case InvalidateAll => None
  {
    if !command.InvalidateAll? {
      SlotMeans(isa, command.addr, b);
      PageMeans(isa, command.addr, b);
      hide Isa.PageKey, Isa.Slot, OneBlock;
    }
  }

  /** The pages of a run hold exactly what its history says, and decoding returns it. */
  lemma {:induction false} HistoryDecides(isa: Isa, commands: seq<Command>, b: nat)
    requires 0 < isa.unit
    ensures Held(isa, CacheAfter(isa, commands), b) == Remembered(isa, commands, b)
    ensures forall insn :: Decoded(isa, CacheAfter(isa, commands), b, insn) == Returned(isa, Remembered(isa, commands, b), b, insn)
    decreases |commands|
  {
    hide Isa.PageKey, Isa.Slot, OneBlock;
    if commands != [] {
      var n := |commands| - 1;
      HistoryDecides(isa, commands[..n], b);
      hide Held, Returned, Decoded, Apply;
      ApplyHeld(isa, CacheAfter(isa, commands[..n]), commands[n], b);
    }
    DecodedIsReturned(isa, CacheAfter(isa, commands), b);
  }

  lemma DecodedIsReturned(isa: Isa, cache: Cache, b: nat)
    requires 0 < isa.unit
    ensures forall insn :: Decoded(isa, cache, b, insn) == Returned(isa, Held(isa, cache, b), b, insn)
  {
    hide Isa.PageKey, Isa.Slot;
  }

  /** Invalidating an entry forgets what is decoded at another address exactly if both are in one block. */
  lemma EntryForgets(isa: Isa, commands: seq<Command>, b: nat, d: Insn, a: nat)
    requires 0 < isa.unit
    ensures var after := CacheAfter(isa, commands + [DecodeAt(b, d), InvalidateEntry(a)]);
            && Held(isa, after, b) == if OneBlock(isa, a, b) then None
                                      else Some(Decoded(isa, CacheAfter(isa, commands), b, d))
  {
    var once, twice := commands + [DecodeAt(b, d)], commands + [DecodeAt(b, d), InvalidateEntry(a)];
    assert once[..|commands|] == commands && twice[..|once|] == once;
    HistoryDecides(isa, commands, b);
    HistoryDecides(isa, twice, b);
    hide Isa.PageKey, Isa.Slot, OneBlock, Returned, Decoded, Held, CacheAfter;
    assert Remembered(isa, once, b) == Some(Returned(isa, Remembered(isa, commands, b), b, d));
    assert Remembered(isa, twice, b) == if OneBlock(isa, a, b) then None else Remembered(isa, once, b);
  }

  /** The same operation at the same address with the same length and operands; only the codes may differ. */
  predicate Same(a: Operation, b: Operation) {
    a == b.(encoding := a.encoding)
  }

  /** What is decoded depends on no bit past the length of the operation decoded. */
  ghost predicate PrefixDetermined(isa: Isa) {
    forall a, c, d :: isa.IsCode(c) && isa.IsCode(d) && isa.Match(isa.ncDecode(a, c), a, d) ==>
      Same(isa.ncDecode(a, c), isa.ncDecode(a, d))
  }

  /** After any run, decoding anything through the cache gives what uncached decoding gives. */
  ghost predicate AlwaysAgrees(isa: Isa)
    requires 0 < isa.unit
  {
    forall commands, addr, insn :: Proper(isa, commands) && isa.IsCode(insn) ==>
      Same(Decoded(isa, CacheAfter(isa, commands), addr, insn), isa.ncDecode(addr, insn))
  }

  /** Everything in the cache was decoded from a code of the instruction set. */
  ghost predicate Genuine(isa: Isa, cache: Cache) {
    forall k, s :: k in cache && 0 <= s < NUM_OPERATIONS_PER_PAGE && cache[k][s].Some? ==>
      var op := cache[k][s].value;
      isa.IsCode(op.encoding) && op == isa.ncDecode(op.addr, op.encoding)
  }

  lemma ApplyGenuine(isa: Isa, cache: Cache, command: Command)
    requires isa.Valid() && Genuine(isa, cache) && Proper(isa, [command])
    ensures Genuine(isa, Apply(isa, cache, command))
  {
    match command
    case DecodeAt(addr, insn) =>
      assert [command][0].DecodeAt?;
      var key, slot := isa.PageKey(addr), isa.Slot(addr);
      var op := Decoded(isa, cache, addr, insn);
      assert isa.IsCode(op.encoding) && op == isa.ncDecode(op.addr, op.encoding) by {
        if !Hit(isa, cache, addr, insn) {
          assert op == isa.ncDecode(addr, insn);
        }
      }
    case _ =>
  }

  lemma {:induction false} RunGenuine(isa: Isa, commands: seq<Command>)
    requires isa.Valid() && Proper(isa, commands)
    ensures Genuine(isa, CacheAfter(isa, commands))
    decreases |commands|
  {
    if commands != [] {
      var n := |commands| - 1;
      RunGenuine(isa, commands[..n]);
      ApplyGenuine(isa, CacheAfter(isa, commands[..n]), commands[n]);
    }
  }

  /** The cache is transparent exactly for the instruction sets that are determined by prefixes. */
  lemma AgreesIffDetermined(isa: Isa)
    requires isa.Valid()
    ensures AlwaysAgrees(isa) <==> PrefixDetermined(isa)
  {
    if PrefixDetermined(isa) {
      forall commands, addr, insn | Proper(isa, commands) && isa.IsCode(insn)
        ensures Same(Decoded(isa, CacheAfter(isa, commands), addr, insn), isa.ncDecode(addr, insn))
      {
        var cache := CacheAfter(isa, commands);
        RunGenuine(isa, commands);
        if Hit(isa, cache, addr, insn) {
          var op := cache[isa.PageKey(addr)][isa.Slot(addr)].value;
          assert op == isa.ncDecode(addr, op.encoding);
        }
      }
    }
    if AlwaysAgrees(isa) {
      forall a, c, d | isa.IsCode(c) && isa.IsCode(d) && isa.Match(isa.ncDecode(a, c), a, d)
        ensures Same(isa.ncDecode(a, c), isa.ncDecode(a, d))
      {
        var once := [DecodeAt(a, c)];
        DecodedOnce(isa, a, c, d);
        assert Proper(isa, once);
        assert Same(Decoded(isa, CacheAfter(isa, once), a, d), isa.ncDecode(a, d));
      }
    }
  }

  lemma DecodedOnce(isa: Isa, a: nat, c: Insn, d: Insn)
    requires isa.Valid() && isa.Match(isa.ncDecode(a, c), a, d)
    ensures Decoded(isa, CacheAfter(isa, [DecodeAt(a, c)]), a, d) == isa.ncDecode(a, c)
  {
    var once := [DecodeAt(a, c)];
    assert once[..0] == [];
    assert CacheAfter(isa, once) == AfterDecode(isa, map[], a, c);
  }

  /** A fixed-length instruction set is determined by prefixes, as the prefix is the whole code. */
  lemma FixedLengthAgrees(isa: Isa)
    requires isa.Valid() && forall a, c :: isa.IsCode(c) ==> isa.ncDecode(a, c).length == isa.maxsize
    ensures AlwaysAgrees(isa)
  {
    forall a, c, d | isa.IsCode(c) && isa.IsCode(d) && isa.Match(isa.ncDecode(a, c), a, d) ensures c == d {
      assert c[..isa.maxsize] == c && d[..isa.maxsize] == d;
    }
    hide AlwaysAgrees;
    AgreesIffDetermined(isa);
  }
}
