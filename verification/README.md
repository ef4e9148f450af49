# GenISSLib decoders and the shmidcat ring, in Dafny

GenISSLib turns the description of an instruction set into a decoder: every operation is a list of bit
fields, its opcode fields make a pattern (mask and bits), the patterns are ordered by specificity and by the
user's `specialize` directives, and the emitted decoder takes the first entry of the sorted table that
matches. The project models that compiler, the runtime that it emits (byte buffers used as bit strings,
operand encoding and decoding, variable-length decoding by stretching, the decode cache), the two scanners of
its input, and the shared-memory ring of shmidcat.

Code that updates fields, arrays and lists in place is modelled by classes and methods with loops, proved
against functions and predicates; what the source promises is proved about those.

| file | what it holds |
|---|---|
| `Words`, `Wrappers`, `Sequences` | machine words as bit sequences of a fixed width, bit 0 first; optional values; reversal |
| `Patterns` | operation codes, the words they match, `locate` |
| `Reachability`, `Specificity` | paths in the specificity graph, well-ordered instruction sets, first-match decoding |
| `OpNodes`, `Declarations`, `TopologicalSort`, `Finalize`, `RepeatedRequest` | the graph under construction, the calls that build it, the sort loop, `finalize` as a whole, and an input on which it fails |
| `BitAddressing`, `FieldLayout`, `Reorder` | bit ranges in byte buffers, field positions, sizes and codes, field order |
| `CodeBuffer`, `DecodeTable`, `Pipeline` | the emitted `CodeType`, the decode table and its scan, the generator from end to end |
| `Operands`, `VariableLength`, `ScalarBackEnd` | encoding and decoding in the buffer back end, sub-operations of variable length, agreement of the two back ends |
| `DecodeCache`, `CacheRuns`, `CachedDecoding` | the page table with move-to-front, runs of the cache, and the cache on an instruction set given by its patterns |
| `RingBuffer`, `RingProgress` | producer and consumer of shmidcat, interleaved at every access to a shared byte; what they reach, alone and together |
| `Clex`, `ScriptScanner`, `ScriptSource` | the scanner of the C++ tool and that of the Python tool, and a grammar of source code between braces |

## Main results

- `Pipeline.GenerateAndDecode`, through `Finalize.Isa.Finalize`, `DecodeTable.BuildTable` and
  `DecodeTable.NCDecode`: there is an answer for every instruction set that is accepted (and has an operation
  that is not empty), and only for those. A set whose operations have their opcodes first is accepted if and
  only if its names are known, its requests legal, its declarations well ordered and no call of `ontopof`
  overcounts. The answer is an operation exactly when the bytes mean it, that is when it is on top of every
  other enabled operation that matches, whatever bytes follow.
  `Specificity.TablesAgree`: the order of declaration, of set iteration and of the sort do not show.
- `Specificity.ReductionKeepsPaths`: edge reduction loses no ordering. `TopologicalSort.Sort` succeeds if and
  only if the graph is acyclic and every count is an in-degree.
- `VariableLength.Decode`: decoding at fixed positions with stretching is the parse from left to right.
- `Operands.EncodeDecode`, `Operands.DecodeEncode`: the two round trips, in both endiannesses; the first one
  includes that an encoded code is one that the decoder can select the operation for.
- `CachedDecoding.TransparentIffNothingHides`: exactly for which patterns the cache is transparent over every
  run, on the page table of `CacheRuns.Execute`. `CachedDecoding.FixedLengthIsTransparent`: on fixed-length
  instruction sets it always is, whatever the sub-decoders do.
- `Finalize.Isa.Finalize`: which verdict comes when, on every input, with the first offending pair or directive
  in the order of the loops (`Finalize.Judged`).
- `CacheRuns.HistoryDecides`: the page table holds exactly what the commands of a run say, told without pages.
- `RingBuffer.Delivery`, `RingBuffer.NothingOverwritten`, `RingBuffer.Proceeds`: delivery in order and byte for
  byte in every interleaving, safety of the memory, and exact accounting of the space, whatever is consumed so
  far. `RingProgress.DeliveredUnlessStuck`: exactly in which states all strings handed over can still be printed.
- `ScriptSource.ReadSourceCode`, through `ScriptScanner.Scanner.GetSourceCode`: brace counting over lexemes returns
  exactly the text of the grammar that a closing brace follows, and goes on for ever exactly if there is none.

## Where the code does not do what is promised

- **A pair requested twice.** `ontopof` stops at the first related edge. When it replaces a coarser edge
  although the pair is there already, it counts the lower node twice; its count never reaches zero and the
  sort fails its assertion, although the instruction set is well ordered. `Finalize.Isa.Finalize` accepts a
  well-ordered set with legal requests if and only if none of the calls it makes overcounts. On the inputs
  alone: some choice among the effects open to the calls overcounts if and only if a pair is exposed, that is
  the calls for the pairs before it can lead to a graph in which it is an edge already, next to a coarser edge
  (`Declarations.CalledPairsMayOvercount`; `OpNodes.OvercountCondition` is the condition on one call). So a
  well-ordered set with legal requests is accepted if no pair is exposed, and no overlapping pair requested
  twice is enough for that. `RepeatedRequest` gives directives for which a pair is exposed, the calls do
  overcount and the sort fails.
- **Prefix comparison in the cache.** `Match` compares only the length of the cached operation. With
  self-delimiting sub-decoders the cache is transparent if and only if no code from which an operation is
  decoded agrees, up to the decoded length, with the pattern of an operation above it
  (`CachedDecoding.TransparentIffNothingHides`). It suffices that operations above another one constrain no bit
  past its end (`CachedDecoding.MasksWithinSuffices`). `CachedDecoding.ShortHidesLong` is a failing case: with
  an 8-bit operation 01 and a 16-bit operation 01 02, decoding 01 03 and then 01 02 gives the short one twice.
- **Empty strings in the ring.** The zero size of an empty string is taken for the sentinel: its block is
  never reclaimed (`RingBuffer.EmptyBlocksForever`), and all space is reclaimed if and only if no string there
  is empty (`RingBuffer.ReclaimsAll`). `RingBuffer.EmptyRun` is a run that gets there. The producer gets
  no space, whatever the consumer does, if and only if its string does not fit beside the blocks from the first
  empty one on
  (`RingProgress.DeliveredUnlessStuck`); without empty strings that is only one too long for the whole ring.
- **Long strings in the ring.** The producer takes any string that leaves the guard band, the consumer copies it
  to a local buffer of 32769 bytes. The copies of a run stay inside it if and only if every string that the
  consumer comes to copy has at most 32768 bytes (`RingBuffer.LocalBufferFits`); `RingBuffer.LongStringOverruns`
  is a run that goes past its end.
- **Literals in the scalar back end.** `riscgenerator.cc` prints the opcode of a table entry and the mask of an
  operand with the format for 32-bit integers, although both have 64 bits (the mask of a table entry is
  printed in full). Modelled is the usual effect, that the bits from 32 on are lost; by the C standard the
  mismatch is undefined. The emitted test agrees with the bytewise one on all codes if and only if the opcode
  has no bit there, and rejects every code of the operation otherwise (`ScalarBackEnd.MatchAgrees`,
  `ScalarBackEnd.OwnCodesRejected`, `ScalarBackEnd.HighOpcodeIsLost`). The script prints both in full.
- **Sign extension in the scalar back end.** It shifts in the promoted type of the code, which is undefined
  when the member is wider than that type (`ScalarBackEnd.WideSignExtensionIsUndefined`). The two back ends
  give an operand the same value for all codes if and only if its field has at most 32 bits and the shift is
  defined (`ScalarBackEnd.OperandsAgree`).
- **Specialized operands.** Encoding ors the member into the opcode bits. The encoded code is one that the
  decoder can select the operation for, and decodes to the same members, if and only if every specialized
  operand has the value that the operation is specialized for (`Operands.EncodeDecode`). With another value
  the members may still read back from a code that is no longer the operation's (`Operands.SpecializedIsLost`).
- **Single quotes.** Between single quotes the C++ scanner has no escape for a single quote
  (`Clex.WritableStrings`).
- The Python tool is followed only where named: its `--inf_loop_tracker` option does nothing, so the sort is
  that of `isa.cc`; its byte-buffer encoder does not advance, so encoding is that of `ciscgenerator.cc`.

## Model

| member | source | states |
|---|---|---|
| `Patterns.Locate` | unisim_tools/genisslib/operation.cc:197-221 | each of the five answers is given if and only if the two sets of matching words stand in that relation (disjoint, equal, strict subset either way, overlapping) |
| `Patterns.FreeBitWitness` | unisim_tools/genisslib/operation.cc:207-210 | a bit that only one code constrains gives a word that separates the two, behind every strictness claim |
| `Patterns.NoClashMeets` | unisim_tools/genisslib/operation.cc:205-206 | codes without a contradicting bit share a word |
| `Specificity.CoveredPairJoined` | unisim_tools/genisslib/isa.cc:585-604 | in an acyclic graph that keeps, for every declared pair, a successor equal to or within the lower operation, the ends of every pair are joined by a path |
| `Specificity.ReductionKeepsPaths` | unisim_tools/genisslib/isa.cc:585-604 | the reduced graph, if acyclic, has exactly the paths of all declared pairs |
| `Specificity.MatchesAreOrdered` | unisim_tools/genisslib/isa.cc:735-751 | any two operations of a well-ordered instruction set that match one word are ordered one way, and one way only |
| `Specificity.IntendedUnique` | unisim_tools/genisslib/generator.cc:857-884 | a word means at most one enabled operation |
| `Specificity.FirstMatchIntended` | unisim_tools/genisslib/generator.cc:857-884 | the first match of any table that respects the order is the operation on top of all enabled matching ones |
| `Specificity.FirstMatch` | unisim_tools/genisslib/generator.cc:857-884 | the scan: nothing before the answer matches, the answer does |
| `Specificity.TablesAgree` | unisim_tools/genisslib/genisslib.py:605-724 | two ordered tables of the same operations decode every word alike |
| `OpNodes.OpNode.constructor` | unisim_tools/genisslib/isa.cc:578-583 | a node starts with nothing below and count 0 |
| `OpNodes.OpNode.Related` | unisim_tools/genisslib/isa.cc:587-601 | the comparison loop, for any iteration order: keep because an equal or finer node is below, replace one coarser node, or add because no node below is related |
| `OpNodes.OpNode.OnTopOf` | unisim_tools/genisslib/isa.cc:585-604 | the new graph is the old one after that effect; the counts stay exact if and only if they were and the call does not overcount |
| `OpNodes.OnTopOfCovers` | unisim_tools/genisslib/isa.cc:585-604 | whatever its effect, a call keeps all pairs covered and covers its own |
| `OpNodes.OvercountCondition` | unisim_tools/genisslib/isa.cc:587-603 | some iteration order overcounts if and only if the pair is an edge already and a coarser edge is there too |
| `OpNodes.CountsFollow` | unisim_tools/genisslib/isa.cc:597-603 | counts changed as the call does bound the in-degrees, and equal them exactly when they did and the call did not overcount |
| `OpNodes.OpNode.Expand` | unisim_tools/genisslib/isa.cc:612-626 | one round of the search finds the target in the front, or yields all unseen successors of the front |
| `OpNodes.OpNode.Above` | unisim_tools/genisslib/isa.cc:606-629 | the breadth-first search answers true if and only if there is a path |
| `OpNodes.OpNode.Unlink` | unisim_tools/genisslib/isa.cc:631-636 | exactly the edges below the node go, each of those nodes counts one less, exactness is kept |
| `TopologicalSort.NextReady` | unisim_tools/genisslib/isa.cc:762-776 | the circular walk ends at an operation with nothing above it, or runs out of its tracker exactly when all remaining operations are blocked |
| `TopologicalSort.PlaceOne` | unisim_tools/genisslib/isa.cc:777-779 | placing an unblocked operation keeps every operation in one of the two tables, once, and those above it already placed |
| `TopologicalSort.Move` | unisim_tools/genisslib/isa.cc:776-780 | one placement keeps the invariant of the loop: waiting operations, their edges and their counts |
| `TopologicalSort.Sort` | unisim_tools/genisslib/isa.cc:753-782 | the loop ends; it sorts if and only if the graph is acyclic and the counts are the in-degrees, placing each operation once and after all those below it |
| `TopologicalSort.LinearExtensionOrders` | unisim_tools/genisslib/isa.cc:777-781 | a table that respects every edge respects every path |
| `Declarations.TightUnlessOvercounted` | unisim_tools/genisslib/isa.cc:585-604 | the counts after any calls bound the in-degrees, and equal them if and only if no call overcounted |
| `Declarations.OvercountingExposes` | unisim_tools/genisslib/isa.cc:585-604 | calls that overcount do so first at a pair that is an edge already, next to a coarser edge, after possible calls for the pairs before it |
| `Declarations.OvercountingPairs` | unisim_tools/genisslib/isa.cc:585-604 | for any pairs, some choice among the effects open to the calls overcounts if and only if a pair is exposed |
| `Declarations.CalledPairsMayOvercount` | unisim_tools/genisslib/isa.cc:645-733 | the same for the pairs that `finalize` calls: whether it may overcount depends on the operations, the order of the node map and the requests alone |
| `Finalize.Declare` | unisim_tools/genisslib/isa.cc:660-661 | declaring a pair keeps the graph covering all declared pairs, and is one more call; counts stay exact for a new pair |
| `Finalize.AddImplicit` | unisim_tools/genisslib/isa.cc:645-664 | for any order of the node map: the first pair of the double loop with the same words is reported; if there is none the calls are those of the nested pairs in that order, the graph covers all specializations and the counts are exact |
| `Finalize.Request` | unisim_tools/genisslib/isa.cc:713-730 | one pair of a user ordering: refused if and only if it would hide its lower operation, an edge only if the two overlap |
| `Finalize.AddPairs` | unisim_tools/genisslib/isa.cc:708-732 | all pairs of one user ordering, in order, up to the first illegal one |
| `Finalize.AddOrdering` | unisim_tools/genisslib/isa.cc:683-733 | one directive: what is wrong with it first, its upper name, a lower name or a pair; otherwise its overlapping pairs are covered |
| `Finalize.AddExplicit` | unisim_tools/genisslib/isa.cc:683-733 | the first directive that is not fine is reported; otherwise the graph covers the overlapping pairs of all user orderings |
| `Finalize.AllFine` | unisim_tools/genisslib/isa.cc:683-733 | all directives are fine if and only if all names are known and all requests are legal |
| `Finalize.CheckOverlaps` | unisim_tools/genisslib/isa.cc:735-751 | accepted if and only if a path joins the two of every overlapping pair; otherwise the first pair of the double loop without one is reported |
| `Finalize.BuiltMeans` | unisim_tools/genisslib/isa.cc:645-751 | the built graph is acyclic if and only if the declared edges are, and then has their paths and resolves the same overlaps |
| `Finalize.MakeNodes` | unisim_tools/genisslib/isa.cc:639-643 | one node for every operation, no edges |
| `Finalize.Isa.constructor` | unisim_tools/genisslib/isa.cc:755-756 | the operation table holds every operation once, in the order of declaration |
| `Finalize.Isa.Finalize` | unisim_tools/genisslib/isa.cc:575-783 | the verdict on every input: the first two operations with the same words; else the first directive with an unknown name or an illegal pair, and what is wrong with it; else the first overlap that no path of the built graph decides, which for declared edges without a cycle is an overlap they leave open; else the failed assertion if and only if the declared edges have a cycle or a call of `ontopof` overcounts, which none does if no pair is exposed, or for distinct requests; else acceptance, with a table sorted by the declared order |
| `RepeatedRequest.SampleWellOrdered` | unisim_tools/genisslib/isa.cc:683-751 | the sample instruction set and its requests are legal and well ordered |
| `RepeatedRequest.RequestsOfSample` | unisim_tools/genisslib/isa.cc:684-711 | three directives give the requests of the sample |
| `RepeatedRequest.PairsOfSample` | unisim_tools/genisslib/isa.cc:645-733 | the pairs that `finalize` calls `ontopof` for on the sample |
| `RepeatedRequest.RepeatedRequestOvercounts` | unisim_tools/genisslib/isa.cc:585-604 | the well-ordered sample exposes a pair, and has feasible calls for its directives after which the counts are not the in-degrees of an acyclic graph |
| `RepeatedRequest.SortFails` | unisim_tools/genisslib/isa.cc:769-775 | on nodes that overcounting calls leave behind the sort fails |
| `BitAddressing.Extract` | unisim_tools/genisslib/operation.cc:148-164 | the bytewise loop reads exactly the bits of the range, in either numbering |
| `BitAddressing.Deposit` | unisim_tools/genisslib/operation.cc:166-180 | the bytewise loop ors exactly the bits of the range and leaves all others |
| `FieldLayout.Sizes` | unisim_tools/genisslib/isa.cc:521-544 | the size is the sum of the maximum field sizes; the lengths are all sums of one size per field |
| `FieldLayout.LongestIsOffset` | unisim_tools/genisslib/isa.cc:533-540 | the largest of all sums of alternative sizes is the end of the last field |
| `FieldLayout.FieldIterator.constructor` | unisim_tools/genisslib/isa.cc:815-817 | the iterator starts before the first field, at 0 |
| `FieldLayout.FieldIterator.Next` | unisim_tools/genisslib/isa.cc:822-834 | each step moves to the range between the sums of the maximum sizes |
| `FieldLayout.RangesTile` | unisim_tools/genisslib/isa.cc:822-834 | every position of an operation lies in one range and no other |
| `FieldLayout.CodeField` | unisim_tools/genisslib/isa.cc:560-571 | one opcode field reads back its value under a full mask, and the fields before it still do |
| `FieldLayout.BuildCode` | unisim_tools/genisslib/isa.cc:546-573 | succeeds if and only if no opcode follows a field of variable size; then opcode fields read back under a full mask, other fields have mask 0, and no bit lies past the operation |
| `FieldLayout.BuiltCodeValid` | unisim_tools/genisslib/isa.cc:546-573 | a built code meets what `locate` relies on |
| `Reorder.ReverseRange` | unisim_tools/genisslib/isa.cc:505-506 | reversal of a range in place |
| `Reorder.ReverseFields` | unisim_tools/genisslib/isa.cc:503-507 | every run between separators reversed, separators kept |
| `Reorder.Reorder` | unisim_tools/genisslib/isa.cc:488-509 | the list after the two stages, for all flags |
| `Reorder.ReversedJoined` | unisim_tools/genisslib/isa.cc:494-500 | reversing the whole list reverses the order of words and each word |
| `Reorder.RunsJoined` | unisim_tools/genisslib/isa.cc:501-508 | reversing the runs reverses each word and keeps their order |
| `Reorder.ReorderAgrees` | unisim_tools/genisslib/genisslib.py:297-315 | the recursive order and the two stages in place agree for all four flags, up to one separator at the end walked towards |
| `Reorder.EveryListHasWords` | unisim_tools/genisslib/genisslib.py:297-303 | every list of fields and separators is the words of some word list |
| `CodeBuffer.CodeType.constructor` | unisim_tools/genisslib/ciscgenerator.cc:77-81 | the first bits of a buffer, cut at the capacity, zeros behind |
| `CodeBuffer.CodeType.StartsWith` | unisim_tools/genisslib/ciscgenerator.cc:95-104 | matches if and only if the other bit string is a prefix, for any size modulo 8; asks for more if and only if this one is shorter |
| `CodeBuffer.CodeType.StretchFront` | unisim_tools/genisslib/ciscgenerator.cc:105-113 | in place, every bit moves later by the shift and zeros come in, in both endiannesses |
| `CodeBuffer.CodeType.Complete` | unisim_tools/genisslib/ciscgenerator.cc:126-130 | the copy with the first bits of a partial byte in front |
| `CodeBuffer.CodeType.Extend` | unisim_tools/genisslib/ciscgenerator.cc:123-137 | the bit string becomes the concatenation, cut at the capacity |
| `DecodeTable.PrefixSize` | unisim_tools/genisslib/ciscgenerator.cc:173-182 | the last constrained bit of the mask |
| `DecodeTable.MakeEntry` | unisim_tools/genisslib/ciscgenerator.cc:184-202 | the shortened entry stands for the whole code |
| `DecodeTable.MatchMask` | unisim_tools/genisslib/ciscgenerator.cc:87-94 | true if and only if all completions of the bytes match the code, false if and only if none does, otherwise more bytes are asked for |
| `DecodeTable.BuildTable` | unisim_tools/genisslib/generator.cc:820-833 | the table holds exactly the operations whose condition holds, in an order no path contradicts |
| `DecodeTable.NCDecode` | unisim_tools/genisslib/generator.cc:846-907 | an operation is found if and only if the bytes mean it, none if and only if they mean none, whatever bytes follow |
| `Pipeline.MakeOperations` | unisim_tools/genisslib/isa.cc:519-573 | codes of all operations at the capacity of the longest; fails if and only if some opcode follows a field of variable size |
| `Pipeline.Generate` | unisim_tools/genisslib/isa.cc:513-783 | for every declaration order, node order and outcome of the conditions: a table is emitted if and only if opcodes come first, names are known, requests are legal, the set is well ordered and no call overcounts; it holds the enabled operations and is one that the scan is correct on, at the capacity returned |
| `Pipeline.GenerateAndDecode` | unisim_tools/genisslib/generator.cc:846-907 | end to end: there is an answer if and only if some operation is not empty and the set is accepted, with the same exact conditions as above; then an operation is found if and only if it is on top of all enabled operations that match, whatever bytes follow, and none if and only if none matches |
| `Operands.LeastCtypeSize` | unisim_tools/genisslib/generator.cc:1065-1071 | the least of 8, 16, 32 and 64 that is large enough; an error if and only if more than 64 bits are asked for |
| `Operands.MemberSize` | unisim_tools/genisslib/generator.cc:442-449 | for a word size that is a C size: the least C size for the shifted field, the final size and the word size |
| `Operands.MemberSizeIsLeast` | unisim_tools/genisslib/generator.cc:37-43 | with the word size of the generator, a C size is large enough for a member if and only if it is for its shifted field, its final size, and the word sizes of the options and of the instruction set |
| `Operands.DecodeOperand` | unisim_tools/genisslib/ciscgenerator.cc:311-345 | the bits of the field, sign- or zero-extended, shifted left |
| `Operands.SignExtend` | unisim_tools/genisslib/ciscgenerator.cc:338-341 | shifting up and arithmetically down replicates the top bit of the field |
| `Operands.EncodeField` | unisim_tools/genisslib/ciscgenerator.cc:236-255 | one operand or-ed into its field, all other bits kept |
| `Operands.EncodeFields` | unisim_tools/genisslib/ciscgenerator.cc:229-256 | the loop over the fields: every operand in its field |
| `Operands.Encode` | unisim_tools/genisslib/ciscgenerator.cc:210-257 | fails if and only if there is a sub-operation; otherwise opcode bits or-ed with every operand in its field, nothing past the operation, in a code of the endianness and the size given |
| `Operands.FieldEncodeDecode` | unisim_tools/genisslib/ciscgenerator.cc:236-255 | one field of an encoded code decodes to its member, up to the bits it cannot hold, if and only if the opcode adds no bit |
| `Operands.EncodedMatches` | unisim_tools/genisslib/ciscgenerator.cc:218-255 | an encoded code matches its operation if and only if no member has a bit that its opcode lacks |
| `Operands.EncodeDecode` | unisim_tools/genisslib/ciscgenerator.cc:210-347 | an encoded code matches its operation and decodes to the members it was made from, up to bits their fields cannot hold, if and only if every specialized operand has the value it is specialized for |
| `Operands.SpecializedIsLost` | unisim_tools/genisslib/ciscgenerator.cc:218-255 | a specialized operand whose member reads back from a code that is not one of the operation |
| `Operands.DecodedIsCanonical` | unisim_tools/genisslib/ciscgenerator.cc:311-345 | members that decoding produces are those that encoding and decoding keep |
| `Operands.DecodeEncode` | unisim_tools/genisslib/ciscgenerator.cc:210-347 | encoding the members decoded from a code of the operation gives back every opcode and operand bit |
| `VariableLength.SubCode` | unisim_tools/genisslib/ciscgenerator.cc:284-299 | the bytes for a sub-decoder hold the bits of the code from the field on |
| `VariableLength.DecodeSub` | unisim_tools/genisslib/ciscgenerator.cc:277-309 | a sub-operation followed by the stretch keeps the items and position those of the parse |
| `VariableLength.DecodeMember` | unisim_tools/genisslib/ciscgenerator.cc:311-345 | an operand read at its fixed position in the stretched code is the one at its actual position |
| `VariableLength.DecodeFields` | unisim_tools/genisslib/ciscgenerator.cc:275-346 | the loop over the fields yields the items and length of the parse |
| `VariableLength.Decode` | unisim_tools/genisslib/ciscgenerator.cc:259-347 | NotEnoughBytes if and only if the code is shorter than the longest form; otherwise the members, sub-operations and length of a parse from left to right with actual lengths |
| `VariableLength.ParseFixed` | unisim_tools/genisslib/ciscgenerator.cc:259-347 | without sub-operations every operand is parsed from its fixed position |
| `VariableLength.EncodeThenDecode` | unisim_tools/genisslib/ciscgenerator.cc:214-347 | through the two methods: the encoded code is one of the operation and all members come back if and only if every specialized operand has the value that the operation is specialized for |
| `ScalarBackEnd.Whole` | unisim_tools/genisslib/riscgenerator.cc:149-163 | the integer value of opcode or mask holds the same bits as the bytes |
| `ScalarBackEnd.Literals` | unisim_tools/genisslib/riscgenerator.cc:149-163 | the mask is printed in full, the opcode without its bits from 32 on |
| `ScalarBackEnd.WholeMatchAgrees` | unisim_tools/genisslib/riscgenerator.cc:173-177 | comparison with the whole opcode holds if and only if the bytewise test does |
| `ScalarBackEnd.OwnCodesRejected` | unisim_tools/genisslib/riscgenerator.cc:149-177 | with an opcode bit from 32 on, the emitted test rejects every code of the operation |
| `ScalarBackEnd.MatchAgrees` | unisim_tools/genisslib/riscgenerator.cc:149-177 | the emitted test agrees with the bytewise one on every code if and only if the opcode has no bit from 32 on |
| `ScalarBackEnd.HighOpcodeIsLost` | unisim_tools/genisslib/riscgenerator.cc:154 | 0xAB in bits 40 to 47 is printed as 0 |
| `ScalarBackEnd.ScalarOperand` | unisim_tools/genisslib/riscgenerator.cc:121-145 | the emitted expression gives the operand of the low 32 bits of the field, or is undefined when sign-extended into a member wider than the promoted type of the code |
| `ScalarBackEnd.SameOperandIff` | unisim_tools/genisslib/riscgenerator.cc:127-142 | for one code the two back ends give the same value if and only if the shift is defined and no set bit of the field is lost in print |
| `ScalarBackEnd.OperandsAgree` | unisim_tools/genisslib/riscgenerator.cc:127-142 | for all codes they do if and only if the field has at most 32 bits and the shift is defined |
| `ScalarBackEnd.WideSignExtensionIsUndefined` | unisim_tools/genisslib/riscgenerator.cc:133-137 | an 8-bit field sign-extended to 64 bits in a 32-bit code is undefined |
| `ScalarBackEnd.WideFieldIsCut` | unisim_tools/genisslib/riscgenerator.cc:131 | a 40-bit field of ones decodes to 32 ones, in the buffer back end to 40 |
| `DecodeCache.DecodeMapPage.constructor` | unisim_tools/genisslib/generator.cc:1041-1043 | a new page is empty and unlinked |
| `DecodeCache.Decoder.constructor` | unisim_tools/genisslib/generator.cc:806-818 | an empty table |
| `DecodeCache.Decoder.Search` | unisim_tools/genisslib/generator.cc:992-1019 | the list walk finds a key if and only if it is present, with its predecessor |
| `DecodeCache.Decoder.FindPage` | unisim_tools/genisslib/generator.cc:980-1020 | finds a key if and only if present; the table stays well formed and one bucket at most is permuted, the page moving to its front |
| `DecodeCache.Decoder.Touch` | unisim_tools/genisslib/generator.cc:1009-1013 | a page becomes first of its bucket and most recently used |
| `DecodeCache.Decoder.Relink` | unisim_tools/genisslib/generator.cc:1009-1011 | the pointer updates move one page to the front of its list |
| `DecodeCache.Decoder.InvalidateDecodingCacheEntry` | unisim_tools/genisslib/generator.cc:940-978 | exactly the key of the address goes, the table stays well formed |
| `DecodeCache.Decoder.Unlink` | unisim_tools/genisslib/generator.cc:957-973 | the pointer updates take one page out of its list |
| `DecodeCache.Decoder.InvalidateDecodingCache` | unisim_tools/genisslib/generator.cc:910-936 | the cache is empty and the pages it had are still the decoder's own |
| `DecodeCache.Decoder.PageOf` | unisim_tools/genisslib/generator.cc:1037-1048 | the page of a key, which is found, or empty and new |
| `DecodeCache.Decoder.AddPage` | unisim_tools/genisslib/generator.cc:1041-1047 | an empty page for a new key, first in its bucket |
| `DecodeCache.Decoder.PutInFront` | unisim_tools/genisslib/generator.cc:1044-1047 | the pointer updates make a page first of its bucket and most recently used |
| `DecodeCache.Decoder.SetSlot` | unisim_tools/genisslib/generator.cc:1059 | one slot of one page changes |
| `DecodeCache.Decoder.Decode` | unisim_tools/genisslib/generator.cc:1022-1061 | the result and the new cache are those of the cache seen as a map from keys to pages |
| `DecodeCache.SlotMeans` | unisim_tools/genisslib/generator.cc:1033-1059 | two addresses have one slot of one page if and only if they are addresses of one instruction |
| `DecodeCache.PageMeans` | unisim_tools/genisslib/generator.cc:940-946 | they have one page if and only if they lie in one block of 4096 instructions |
| `CacheRuns.Execute` | unisim_tools/genisslib/generator.cc:909-1061 | a run of decodings and invalidations on the page table returns what the cache seen as a map returns, and leaves that cache |
| `CacheRuns.HistoryDecides` | unisim_tools/genisslib/generator.cc:909-1061 | after any run the cache holds for an address what was last decoded for its instruction, unless its block or everything was invalidated since; decoding returns that if address and code prefix agree |
| `CacheRuns.EntryForgets` | unisim_tools/genisslib/generator.cc:940-978 | invalidating an entry forgets what was decoded at another address if and only if both lie in one block |
| `CacheRuns.ApplyGenuine` | unisim_tools/genisslib/generator.cc:909-1061 | every command keeps the cache holding only what uncached decoding produced |
| `CacheRuns.RunGenuine` | unisim_tools/genisslib/generator.cc:909-1061 | so does every run |
| `CacheRuns.AgreesIffDetermined` | unisim_tools/genisslib/genisslib.py:2220-2234 | for any uncached decoding: agreement over every run comes down to two decodings that the comparison takes for the same |
| `CacheRuns.FixedLengthAgrees` | unisim_tools/genisslib/generator.cc:846-1061 | for any uncached decoding that gives every code of the full size the full length, cached and uncached decoding always agree |
| `CachedDecoding.MatchesInOrder` | unisim_tools/genisslib/ciscgenerator.cc:87-94 | the bytewise masked comparison, bit by bit in stream order |
| `CachedDecoding.KindIsMeaning` | unisim_tools/genisslib/generator.cc:846-907 | uncached decoding finds an operation if and only if it matches and nothing on top of it in the table does, which is what the scan of the table finds |
| `CachedDecoding.ParseOfPrefix` | unisim_tools/genisslib/ciscgenerator.cc:259-347 | members, sub-operations and length depend on no bit past that length, if those of sub-decoders do not |
| `CachedDecoding.OpcodesBeforeLength` | unisim_tools/genisslib/isa.cc:554-571 | an operation has no opcode bit past any length it can be decoded with |
| `CachedDecoding.HiddenIsLost` | unisim_tools/genisslib/genisslib.py:2227-2233 | an operation that agrees up to the decoded length with a code of one below it is lost behind that one in the cache |
| `CachedDecoding.MasksWithinSuffices` | unisim_tools/genisslib/genisslib.py:2227-2233 | if operations above others constrain no bit past the end of those they overlap, nothing is lost |
| `CachedDecoding.TransparentIffNothingHides` | unisim_tools/genisslib/genisslib.py:2220-2234 | cached decoding agrees with uncached decoding after every run if and only if no code agrees, up to the length decoded from it, with the pattern of an operation above the one decoded |
| `CachedDecoding.FixedParsesAlike` | unisim_tools/genisslib/ciscgenerator.cc:259-347 | where all forms of all operations have one length, codes that agree up to it are parsed alike by any sub-decoders |
| `CachedDecoding.FixedLengthIsTransparent` | unisim_tools/genisslib/genisslib.py:2220-2234 | on an instruction set where all forms of all operations have one length, cached decoding agrees with uncached decoding after every run |
| `CachedDecoding.ShortHidesLong` | unisim_tools/genisslib/genisslib.py:2227-2233 | a run on 01 03 and then 01 02 that gives the wrong operation |
| `RingBuffer.ValueOfBe32` | extra/shmidcat/shmidcat.c:63-91 | reading a size gives back the size written |
| `RingBuffer.InvSafe` | extra/shmidcat/shmidcat.c:53-91 | every wrapped address of the next step lies in the ring |
| `RingBuffer.CheckStep` | extra/shmidcat/shmidcat.c:130 | the flag read at the top is set if and only if the first block there is not consumed; then the producer looks at the space, otherwise at the size there |
| `RingBuffer.Reclaim` | extra/shmidcat/shmidcat.c:132-138 | moving the top over a consumed block keeps the invariant |
| `RingBuffer.DecideStep` | extra/shmidcat/shmidcat.c:146-158 | the space computed is exactly that of the blocks not reclaimed |
| `RingBuffer.WriteStep` | extra/shmidcat/shmidcat.c:174-186 | writing a byte of a record keeps the chain of blocks and the record so far |
| `RingBuffer.PublishStep` | extra/shmidcat/shmidcat.c:187-194 | setting the flag appends a whole block and leaves a zero sentinel |
| `RingBuffer.ProducerKeepsInv` | extra/shmidcat/shmidcat.c:121-199 | every producer step keeps the invariant |
| `RingBuffer.PollStep` | extra/shmidcat/shmidcat.c:98 | the flag is set if and only if a published string is not consumed |
| `RingBuffer.ReleaseStep` | extra/shmidcat/shmidcat.c:110-115 | releasing a block marks it consumed and moves to the next |
| `RingBuffer.ConsumerKeepsInv` | extra/shmidcat/shmidcat.c:93-119 | every consumer step keeps the invariant |
| `RingBuffer.RunInv` | extra/shmidcat/shmidcat.c:93-199 | the invariant holds after every interleaving |
| `RingBuffer.Delivery` | extra/shmidcat/shmidcat.c:93-199 | in every interleaving the strings printed are a prefix of those emitted, in order and byte for byte, and no access leaves the ring |
| `RingBuffer.NothingOverwritten` | extra/shmidcat/shmidcat.c:158-187 | no producer step changes a byte of a block that is not reclaimed |
| `RingBuffer.Reclaims` | extra/shmidcat/shmidcat.c:130-144 | whatever is consumed so far, the producer reclaims all consumed blocks up to the first empty string, and no more, and comes to look at the space |
| `RingBuffer.Proceeds` | extra/shmidcat/shmidcat.c:130-173 | from there it begins to write if and only if its string fits, with the guard band, beside the blocks kept; otherwise it starts again |
| `RingBuffer.BeginsToWrite` | extra/shmidcat/shmidcat.c:130-173 | a string that fits beside the blocks kept comes to be written |
| `RingBuffer.ReclaimsAll` | extra/shmidcat/shmidcat.c:128-158 | once all is consumed all space is free again if and only if no string there is empty, and a string is accepted if and only if it fits with the guard band of 16 bytes |
| `RingBuffer.EmptyStaysAtTop` | extra/shmidcat/shmidcat.c:132-143 | no step of either side moves the top off the block of an empty string |
| `RingBuffer.EmptyBlocksForever` | extra/shmidcat/shmidcat.c:132-143 | nor does any run |
| `RingBuffer.Publishes` | extra/shmidcat/shmidcat.c:173-196 | a record begun is published by the producer alone |
| `RingBuffer.EmptyRun` | extra/shmidcat/shmidcat.c:121-199 | a run from the start that leaves an empty string at the top |
| `RingBuffer.FirstPublished` | extra/shmidcat/shmidcat.c:121-199 | every string that leaves the guard band can be the first one published |
| `RingBuffer.BeginsToCopy` | extra/shmidcat/shmidcat.c:93-107 | the consumer alone comes to copy a string that is published |
| `RingBuffer.CopiedString` | extra/shmidcat/shmidcat.c:98-107 | what the consumer copies has the length of the next string emitted |
| `RingBuffer.LocalBufferFits` | extra/shmidcat/shmidcat.c:93-107 | in every run, the copies stay inside the local buffer if and only if all strings that the consumer comes to copy have at most 32768 bytes |
| `RingBuffer.LongStringOverruns` | extra/shmidcat/shmidcat.c:93-107 | a run with a string of 32769 bytes, whose copy goes past the end of the local buffer |
| `RingProgress.Consumes` | extra/shmidcat/shmidcat.c:93-119 | from wherever it is the consumer alone prints the next published string and releases its block |
| `RingProgress.Drains` | extra/shmidcat/shmidcat.c:93-119 | every run can go on until all that is published is printed |
| `RingProgress.Emits` | extra/shmidcat/shmidcat.c:121-199 | once that is so, a producer that is not stuck ends its call |
| `RingProgress.StuckForever` | extra/shmidcat/shmidcat.c:121-199 | a stuck producer is stuck for the rest of any run |
| `RingProgress.DeliveredUnlessStuck` | extra/shmidcat/shmidcat.c:93-199 | all strings handed over can still be printed in some continuation of a run if and only if the producer is not stuck |
| `Clex.Scanner.constructor` | unisim_tools/genisslib/clex.hh:45 | the whole text is still to be read |
| `Clex.Scanner.NextChar` | unisim_tools/genisslib/clex.cc:74-83 | the next character of the text, one put back first |
| `Clex.Scanner.PutBack` | unisim_tools/genisslib/clex.cc:159 | the character in hand is still to be read |
| `Clex.Scanner.GetChar` | unisim_tools/genisslib/clex.cc:99-104 | fails if and only if the text has ended |
| `Clex.Scanner.SkipBlock` | unisim_tools/genisslib/clex.cc:156 | a block comment ends at its first closing mark, and fails if and only if there is none |
| `Clex.Scanner.SkipLine` | unisim_tools/genisslib/clex.cc:157 | a line comment ends behind its first newline, and fails if and only if there is none |
| `Clex.Scanner.Next` | unisim_tools/genisslib/clex.cc:140-166 | the token, the character in hand and the rest of the text |
| `Clex.BlanksAreSkipped` | unisim_tools/genisslib/clex.cc:143-164 | spaces and comments before a token change nothing |
| `Clex.OnlyBlanksAreSkipped` | unisim_tools/genisslib/clex.cc:143-164 | nothing else is skipped |
| `Clex.TokensAreSpelled` | unisim_tools/genisslib/clex.cc:106-138 | every character begins exactly the token it spells, and is an error if it spells none |
| `Clex.SpacesAreSkipped` | unisim_tools/genisslib/clex.cc:143-144 | the six spaces are skipped |
| `Clex.SlashIsSpelled` | unisim_tools/genisslib/clex.cc:158-161 | a slash that begins no comment is a token |
| `Clex.Scanner.AppendDigits` | unisim_tools/genisslib/clex.cc:196 | the longest run of digits |
| `Clex.Scanner.GetNumber` | unisim_tools/genisslib/clex.cc:184-222 | the number at the start of the text, the character after it pending, or the error |
| `Clex.NumbersAreOfTheGrammar` | unisim_tools/genisslib/clex.cc:184-222 | only words of the number grammar are read as numbers |
| `Clex.NumbersAreReadWhole` | unisim_tools/genisslib/clex.cc:184-222 | a word of the grammar is read whole if and only if the text after it does not continue it |
| `Clex.Scanner.GetString` | unisim_tools/genisslib/clex.cc:297-328 | the string up to its closing quote, escapes replaced, or the error |
| `Clex.StringAtInvertsEscape` | unisim_tools/genisslib/clex.cc:297-328 | reading undoes escaping |
| `Clex.NoSingleQuoteWithin` | unisim_tools/genisslib/clex.cc:307-324 | no text between single quotes reads as a string with a single quote |
| `Clex.WritableStrings` | unisim_tools/genisslib/clex.cc:297-328 | the strings that some quoted text reads as, exactly |
| `ScriptScanner.Scanner.constructor` | unisim_tools/genisslib/genisslib.py:764-770 | the text to be cut is the source without its escaped newlines |
| `ScriptScanner.Scanner.Read1` | unisim_tools/genisslib/genisslib.py:781-793 | the next character, escaped newlines dropped |
| `ScriptScanner.Scanner.TakeRun` | unisim_tools/genisslib/genisslib.py:801-808 | the longest run of spaces, or of word characters |
| `ScriptScanner.Scanner.TakeBlock` | unisim_tools/genisslib/genisslib.py:814-817 | a block comment to its closing mark; none if the script would read for ever |
| `ScriptScanner.Scanner.TakeLine` | unisim_tools/genisslib/genisslib.py:818-821 | a line comment to its newline; none if the script would read for ever |
| `ScriptScanner.Scanner.TakeQuoted` | unisim_tools/genisslib/genisslib.py:841-850 | a string to its closing quote, escapes kept; none if the script would read for ever |
| `ScriptScanner.Scanner.NextLexeme` | unisim_tools/genisslib/genisslib.py:796-867 | the next lexeme is cut off the front of the text, and nothing is lost |
| `ScriptScanner.Lossless` | unisim_tools/genisslib/genisslib.py:796-867 | the lexemes in a row are the text |
| `ScriptScanner.WalkOverLexeme` | unisim_tools/genisslib/genisslib.py:796-867 | a lexeme that is no brace hides no brace from the walk, and one without an end hides them all |
| `ScriptScanner.Scanner.GetSourceCode` | unisim_tools/genisslib/genisslib.py:909-919 | exactly the text up to the first unbalanced closing brace outside strings and comments, the text behind it still to be read |
| `ScriptSource.StringLexeme` | unisim_tools/genisslib/genisslib.py:841-850 | a text between double or single quotes, its own quote only behind a backslash, is one lexeme |
| `ScriptSource.LineLexeme` | unisim_tools/genisslib/genisslib.py:818-821 | so is a line comment |
| `ScriptSource.BlockLexeme` | unisim_tools/genisslib/genisslib.py:814-817 | so is a block comment |
| `ScriptSource.WordLexeme` | unisim_tools/genisslib/genisslib.py:832-839 | so is a longest run of letters, digits and underscores |
| `ScriptSource.SpaceLexeme` | unisim_tools/genisslib/genisslib.py:801-808 | so is a longest run of spaces |
| `ScriptSource.WalkOverSource` | unisim_tools/genisslib/genisslib.py:909-919 | the walk passes over source code before a closing brace, with the depth unchanged |
| `ScriptSource.SourceIsGrammar` | unisim_tools/genisslib/genisslib.py:909-919 | the walk stops at a place if and only if source code stands before it and a closing brace there |
| `ScriptSource.ReadSourceCode` | unisim_tools/genisslib/genisslib.py:909-919 | `getSourceCode` returns exactly the source code before the brace that closes it, and goes on for ever if and only if there is none |

## Left out

- OpNodes.OpNode.OnTopOf: `belowlist` holds the numbers of operations instead of pointers to their nodes, and the comparison loop is a method of its own, because a quantifier over nodes in a set of objects adds frames without adding a fact.
- TopologicalSort.Sort: the count of nodes above is an integer, not `uintptr_t`; the wrap of an overcounted value is not modelled, as no count falls below the in-degree.
- Finalize.Isa.Finalize: which of its feasible effects a call of `ontopof` has is left open, as it depends on the iteration order of sets of pointers; if a pair is exposed, some choice of effects overcounts, and the set is accepted exactly for the choices that do not.
- FieldLayout.BuildCode: the values of opcode and specialized fields are words of 64 bits; the C++ tool takes them as `unsigned int` and so would cut those from 32 bits on before the code is built, which the script does not.
- Operands.DecodeOperand: a left shift is not negative; in the C++ tool it is an `int`, and a negative one would shrink the member without shifting anything.
- DecodeCache.DecodeMapPage.constructor: the slots of a page are a field of type `seq`, replaced at every update, so the array in a page is not modelled as an object of its own.
- DecodeCache.Decoder.Decode: pages and operations are not freed; neither the exception of `Match` on a code shorter than the cached operation nor that of uncached decoding, which comes after the old operation is deleted, is modelled, as codes are given at full size.
- VariableLength.Decode: a sub-decoder is a function from the bits it is given to an operation and one of its declared lengths.
- CachedDecoding.TransparentIffNothingHides: sub-decoders must delimit themselves on codes of the size they are given, which is the same condition on their own instruction sets; without sub-operations, and on fixed-length sets (`CachedDecoding.FixedLengthIsTransparent`), nothing is asked.
- ScalarBackEnd.ScalarOperand: fields of size 0 are not modelled here, nor are scalar `op_match` and scalar decoding of sub-operations.
- RingBuffer.Delivery: memory is sequentially consistent, waiting is a step that changes nothing, and lengths are unbounded integers, so overflow of the C `int` is not modelled.
- Clex.Scanner.Next: line and column numbers of diagnostics, the escaped newlines that the file reader drops, and bounded sinks are not modelled.
- ScriptScanner.Scanner.NextLexeme: space and word characters are those of ASCII; positions are not modelled; where the script would read an empty string for ever the model answers none.
- `shrink_front` and the printing of `CodeType`; nothing shown calls the former.
- Groups are given as a map from names to operations; expansion of specializations, templates, actions, comments, includes and command lines are not modelled.
- Logging and `match_info`; the layout of the emitted text.
- `get_name`, `get_double`, `get_u64`, `get_s64` and `gcd` are not modelled.
- The process code of shmidcat, the Java wrapper, and `extra/cacti`, which is physical estimation in floating point.
