# Impala: verified models of the query engine's hardest algorithms

This project models parts of Impala in Dafny and proves what they are meant to do: the
delimited text parser and its vectorised form, the search for sync markers in sequence files and
the split of such files among scan ranges, the catalog server's deltas for the statestore topic,
the cross join and aggregation operators, three pieces of the code generator, and the dependency
resolver of the shell. `dafny verify dfyconfig.toml` checks everything.

Code that the source writes with loops and mutable state is written that way here: classes with
the source's fields, methods with loops, arrays where the source works in place. Each of them is
proved against a specification function or a property, and what the system promises is then
proved about those. What is a loop over pointers in the source is a loop over positions here.

## The parts

**Delimited text** (`TextFormat`, `SseMask`, `TextParser`, `TextMeaning`, `TextBatches`, `TextBuffers`). `Scan` is
the scalar loop over the characters. The vectorised parser works on blocks of sixteen characters,
with masks from the string comparison instructions and a carry for the escape character; it is
proved to give exactly what `Scan` gives: locations with the sign that marks escapes, row ends,
counts, position and parser state. `ParseIsProjection` says what that is without mentioning the
loop: the buffer's grid of rows and fields, cut at its active delimiters, projected to the
materialized columns. Cutting a parse into batches changes nothing, cutting the input into buffers
changes no row, row end or carried state, and the output arrays of the callers are large enough.

**Sequence files** (`StringSearch`, `ScannerStream`, `SequenceScanner`, `SyncSkip`, `SyncSplits`). The
stream delivers a scan range in io buffers that end anywhere; a boundary buffer holds bytes that
span two of them. `SkipToSync` finds the first marker that its search sees. Not every marker
is seen: after the peek of 30 bytes across two buffers the search takes the whole boundary buffer
with the next `GetBuffer`, so 15 of these bytes are in neither view. For every chunking,
`SeenUnlessBlind` says which markers a search misses: those that start in one of its gaps, where the
first gap is at the end of the buffer in which the search starts, but at least 15 bytes behind the
start, and each next one is found in the same way from the end of the one before. `SeesAllWhen` says when there is no gap.
When the buffers hold at least 30 bytes, `MissesOpeningMarkers` says it in closed form: apart from the first
gap, the missed markers are those in the first 15 bytes of a later buffer. `MarkerMissed` and `BlockLost`
give an instance. For a file that is split among ranges, no block is started twice, whatever errors
occur (`NoneStartedTwice`), and `ExactlyOnceWhen` says when none is lost: every block of every good file of the
same size is processed by exactly one range if and only if in no range a gap starts with room for a block, of
whatever least size, and its markers, which depends on the header's size and the buffer ends only.

**Catalog** (`CatalogTopic`, `CatalogServer`, `CatalogProtocol`, `CatalogKeys`). The catalog is a
log of versions. `CatalogProtocol` interleaves the gathering thread, heartbeats, catalog changes
and statestore resets one lock operation and one shared assignment at a time; in every run the
topic is the catalog at the version sent last. A reset of the statestore is a topic at version 0.

**Cross join** (`CrossJoin`) and **aggregation** (`Aggregation`, `AggSlots`, `AggTuple`). Both are proved
over whole runs, for any batching of the input and any capacities of the output batches, with the
limit (`Batches`). `AggSlots` compares the generated and the interpreted update of a slot, on every row
sequence, and `GroupedQuery` and `Query` put the parts together: what a grouped query leaves in each slot, and
what the rows are that it delivers. `Folding` has the device that keeps a definition folded in a proof.

**Code generation** (`CodegenIr`, `CodegenRuns`, `SubExprForm`, `SubExprSound`, `SubExprKept`, `SubExprExact`,
`SubExprElimination`, `SubExprExamples`, `ArithmeticCodegen`; `Crc32c`, `HashCodegen`). The elimination of repeated slot
references is proved to keep what a function does, after any number of steps on every input and for any control flow
graph, loops included, on the code that `Eliminable` describes. Null flags are in stack slots, and the children of an
expression share the slot of the expression, so this is a condition on paths. On every path to a repeated call the
first one has been called with the same row. Its slot still holds its flag: it was last written by a call of the same
column, or both flags have been found false. The slot of the call that goes is the same, or is written before it is
read again. And the call's result is not used in the first call's own block, where LLVM's SSAUpdater takes the value
that comes in from the block's predecessors. Paths on which tests of a flag contradict each other do not count.

The code generator does not guarantee these conditions. `ArithmeticEliminable` proves them for the code of every
arithmetic expression, whatever its columns are and however often they repeat; colA + colA is `SameColumnTwice`. Where
one of them fails the pass can change results: `FlagNeeded` is a IN (b, a) with b NULL, `RereadMatters` is
sum(a), sum(a * c) with a NULL, `DominanceNeeded` is a first call that other paths go around, as b is in
sum(a + b), sum(b), and `OneCallNeeded` is a block with two calls. `ReturnedFlag` and `StraightExactly` say exactly when
a function that returns the flag keeps its meaning. The code of compound predicates has two calls and then two loads,
so it does not have the form that the pass relies on.

The generated hash functions compute the CRC of exactly the bytes they are made for; the crc32 instructions are
defined by polynomial division.

**Shell packages** (`PkgResolve`, `PkgVersion`, `PkgSpec`). Resolution over cyclic requirement graphs, the order of
version keys, and when a list of version specifiers means their conjunction.

## Model

| member | source | states |
|---|---|---|
| TextFormat.ActiveIsUnescaped | be/src/exec/delimited-text-parser.cc:257-288 | a character is active by counting the escape characters before it backwards exactly if the toggling flag is off there |
| TextFormat.QuietStretch | be/src/exec/delimited-text-parser.cc:136-185 | a stretch without active delimiter only moves the position and brings the two escape flags up to date |
| TextFormat.ParseCoherent | be/src/exec/delimited-text-parser.cc:110-198 | a parse leaves flags that the next call may start from |
| SseMask.ProcessEscapeMask | be/src/exec/delimited-text-parser.inline.h:27-49 | the bits left are the delimiters that the toggling automaton, run over the block from the carried flag, does not escape; the flag handed on is the automaton's after sixteen characters |
| TextParser.SearchesDelims | be/src/exec/delimited-text-parser.cc:68-83 | the search register finds exactly the delimiters of the format |
| TextParser.EscapedIsEscapeAfter | be/src/exec/delimited-text-parser.inline.h:27-49 | the automaton over a block's mask is the scalar loop's flag |
| TextParser.MaskFindsNext | be/src/exec/delimited-text-parser.inline.h:148-157 | the lowest bit of the cleaned mask is the next active delimiter |
| TextParser.RangeMasks | be/src/exec/delimited-text-parser.cc:55-62 | entry n of the two tables covers the bits up to n and from n on |
| TextParser.DelimitedTextParser.constructor | be/src/exec/delimited-text-parser.cc:23-96 | a valid parser in its reset state for the given format and schema |
| TextParser.DelimitedTextParser.ParserReset | be/src/exec/delimited-text-parser.cc:102-107 | the state at the start of a range |
| TextParser.DelimitedTextParser.AddColumn | be/src/exec/delimited-text-parser.inline.h:51-67 | the column is appended if it is materialized, with a negative length if it holds escapes |
| TextParser.DelimitedTextParser.FillColumns | be/src/exec/delimited-text-parser.inline.h:69-81 | the missing columns of a row |
| TextParser.DelimitedTextParser.ParseSse | be/src/exec/delimited-text-parser.inline.h:96-211 | goes through a state of the scalar loop: it has stopped where that stops, or the scalar loop goes on from here with the same result |
| TextParser.DelimitedTextParser.SseBlock | be/src/exec/delimited-text-parser.inline.h:124-210 | the same for one block |
| TextParser.DelimitedTextParser.ParseChar | be/src/exec/delimited-text-parser.cc:138-181 | one character of the scalar loop |
| TextParser.DelimitedTextParser.ParseTail | be/src/exec/delimited-text-parser.cc:136-185 | the scalar loop to the end of the buffer or a full batch |
| TextParser.DelimitedTextParser.ParseFieldLocations | be/src/exec/delimited-text-parser.cc:110-198 | with or without vector instructions, locations, row ends, counts, position and state are those of the scalar parse |
| TextParser.DelimitedTextParser.FindFirstInstance | be/src/exec/delimited-text-parser.cc:203-301 | one behind the first delimiter that an even number of escape characters precedes, -1 if there is none, for buffers without carriage return |
| TextMeaning.RowEndsExactly | be/src/exec/delimited-text-parser.cc:141-177 | the row ends are exactly the row breaks, a carriage return and line feed counting once, in order |
| TextMeaning.ScanMeans | be/src/exec/delimited-text-parser.cc:136-185 | the loop keeps, for every buffer, that its state is the projection of the grid of what it has read |
| TextMeaning.ParseIsProjection | be/src/exec/delimited-text-parser.cc:110-198 | a whole parse gives the projection of the buffer's grid of rows and fields to the materialized columns, and its row ends |
| TextMeaning.ParseUndelimited | be/src/exec/delimited-text-parser.cc:187-196 | without row delimiter the buffer is one row |
| TextBatches.ScanResumes | be/src/exec/delimited-text-parser.cc:159-177 | where a batch is full, going on gives what an unbounded call gives |
| TextBatches.BatchesResume | be/src/exec/delimited-text-parser.cc:114-122 | every sequence of calls stays on the way of the unbounded call |
| TextBatches.BatchingIsInvisible | be/src/exec/delimited-text-parser.cc:110-198 | any calls with nonzero sizes that reach the end deliver together what one unbounded call delivers, and as many calls as characters do reach it |
| TextBuffers.CutIsInvisible | be/src/exec/delimited-text-parser.cc:110-198 | two buffers, the second parsed from the state the first leaves, have the rows, the row ends, the number of fields and the final state of the one they make up, wherever the cut is |
| TextBatches.FieldsFit | be/src/exec/hdfs-text-scanner.cc:338-342 | a call writes at most max_tuples rows' worth of locations, and exactly the materialized columns between its two positions |
| StringSearch.Searcher.constructor | be/src/runtime/string-search.h:89-105 | the mask holds every character of the pattern, the skip is safe |
| StringSearch.Searcher.Search | be/src/runtime/string-search.h:110-168 | the first occurrence, or -1 if there is none |
| ScannerStream.Stream.GetNextBuffer | be/src/exec/scanner-context.cc:103-144 | the io buffer that follows |
| ScannerStream.Stream.GetBuffer | be/src/exec/scanner-context.cc:146-184 | the first available bytes of the range, whether from the boundary buffer, the io buffer or the next one |
| ScannerStream.Stream.GetBytes | be/src/exec/scanner-context.inline.h:31-50 | the requested bytes of the file at the position, or as many as there are; a peek moves nothing |
| ScannerStream.Stream.GetBytesInternal | be/src/exec/scanner-context.cc:186-250 | the same when buffers have to be stitched together |
| ScannerStream.Stream.SkipBytes | be/src/exec/scanner-context.inline.h:70-80 | the position moves by that many bytes or to the end of the file |
| SyncSkip.SeesAllWhen | be/src/exec/base-sequence-scanner.cc:215-275 | from every state of the stream, a search sees every position of the range if and only if the buffer it starts in, or its first 15 bytes, reach the end of the range |
| SyncSkip.SeenUnlessBlind | be/src/exec/base-sequence-scanner.cc:222-255 | for every chunking and start, a position is seen if and only if it lies in none of the gaps of 15 bytes |
| SyncSkip.MissesOpeningMarkers | be/src/exec/base-sequence-scanner.cc:226-252 | with buffers of at least 30 bytes, the second one also counted from the first gap, a position is missed if and only if it is in the first gap or in the first 15 bytes of a buffer behind the second |
| SyncSkip.MarkerMissed | be/src/exec/base-sequence-scanner.cc:226-252 | a file of two buffers of 32 bytes whose marker is not seen |
| SequenceScanner.Scanner.FindSyncBlock | be/src/exec/base-sequence-scanner.cc:197-213 | the end of the first marker in a buffer, or -1 |
| SequenceScanner.Scanner.SearchRound | be/src/exec/base-sequence-scanner.cc:222-255 | one buffer and the span to the next: the first marker seen there, or the search goes on with the same markers in view |
| SequenceScanner.Scanner.SkipToSync | be/src/exec/base-sequence-scanner.cc:215-275 | the stream is behind the first marker of the range that is seen, or finished is set because there is none |
| SequenceScanner.Scanner.ReadSync | be/src/exec/base-sequence-scanner.cc:172-195 | whether the marker is there, finished exactly at the end of the range or file, and the block accounting |
| SequenceScanner.Scanner.ReadPastSize | be/src/exec/base-sequence-scanner.cc:287-306 | the division is defined, and the size is within its bounds and reaches the end of an average block |
| SequenceScanner.Scanner.ReadBlock | be/src/exec/hdfs-avro-scanner.cc:501-553 | a block and the marker behind it; ok exactly if both are good |
| SequenceScanner.Scanner.ProcessRange | be/src/exec/hdfs-avro-scanner.cc:494-557 | the blocks started are behind markers of the range, in order and once; in a good file they are all of them |
| SequenceScanner.Scanner.Resync | be/src/exec/base-sequence-scanner.cc:159-165 | after an error the next block is behind a marker not before the current position |
| SequenceScanner.Scanner.ProcessBlocks | be/src/exec/base-sequence-scanner.cc:139-166 | with errors at any points, no block is started twice, and the accounting holds |
| SequenceScanner.Scanner.ProcessSplit | be/src/exec/base-sequence-scanner.cc:95-170 | the blocks started are behind markers of the range; in a good file exactly those from the first marker seen on |
| SyncSplits.BlockOwner | be/src/exec/base-sequence-scanner.cc:131-195 | for any contiguous ranges, only the range in which a block's marker starts processes it, and that one if and only if it sees this or an earlier marker |
| SyncSplits.EveryBlockOnce | be/src/exec/base-sequence-scanner.cc:131-195 | if every range sees its first marker, every block is processed by exactly one range |
| SyncSplits.NoneStartedTwice | be/src/exec/base-sequence-scanner.cc:95-170 | with errors at any points, no block is started by two ranges, or twice by one |
| SyncSplits.NoGapsSuffice | be/src/exec/base-sequence-scanner.cc:131-195 | if no range has a gap, every block of a good file is processed by exactly one range |
| SyncSplits.GapLosesBlock | be/src/exec/base-sequence-scanner.cc:222-255 | if a range has a gap, a good file of the same size has a block that is not |
| SyncSplits.ExactlyOnceWhen | be/src/exec/base-sequence-scanner.cc:131-275 | for ranges and buffers of any sizes and any least size of a block, every block of every good file of this size is processed by exactly one range if and only if no range has a gap |
| SyncSplits.BlockLost | be/src/exec/base-sequence-scanner.cc:226-252 | a file and a range by which a block is not processed |
| CatalogTopic.Unchanged | be/src/catalog/catalog.h:51-56 | an object is as it was at its version |
| CatalogTopic.DeltaCatchesUp | be/src/catalog/catalog-server.cc:206-266 | a topic at the version sent last becomes the topic at the snapshot's version, for every history |
| CatalogServer.Server.UpdateCatalogTopicCallback | be/src/catalog/catalog-server.cc:166-272 | nothing without the lock or without news, else the delta from the known keys and the version sent last, and the new state |
| CatalogServer.Server.UpdateItems | be/src/catalog/catalog-server.cc:206-246 | one update per newer object, and the keys left over |
| CatalogServer.Server.DeletionItems | be/src/catalog/catalog-server.cc:248-262 | one deletion per key left over |
| CatalogServer.Server.Gather | be/src/catalog/catalog-server.cc:274-296 | the new snapshot and the version it was gathered from; after a failure the old snapshot |
| CatalogProtocol.StepInv | be/src/catalog/catalog-server.cc:166-296 | every step of every thread keeps the invariant |
| CatalogProtocol.RunInv | be/src/catalog/catalog-server.cc:166-296 | it holds in every state of every run |
| CatalogProtocol.TopicIsCatalog | be/src/catalog/catalog-server.cc:206-266 | in every run, once a heartbeat has returned since the last reset, the topic has exactly the known keys, each with its value at the version sent last |
| CatalogProtocol.NoOverlap | be/src/catalog/catalog-server.cc:173-179 | the unlocked section of a heartbeat never overlaps a write to the gathered objects |
| CatalogProtocol.SnapshotIsCurrent | be/src/catalog/catalog-server.cc:264-295 | a heartbeat uses a snapshot gathered from the version sent last, or what it has sent last if that gather failed |
| CatalogProtocol.GatherStepsAreGather | be/src/catalog/catalog-server.cc:274-296 | undisturbed, the steps of the gathering thread from its wake-up to its next wait are one call of Gather |
| CatalogProtocol.HeartbeatIsCallback | be/src/catalog/catalog-server.cc:166-272 | undisturbed, the steps of a heartbeat are one call of the callback |
| CatalogKeys.RoundTrip | be/src/catalog/catalog-util.cc:44-130 | parsing an object's key restores it if and only if the last name is not empty and, except for a database, the database name has no dot |
| CatalogKeys.KeysDistinct | be/src/catalog/catalog-util.cc:107-130 | restorable objects with one key are the same object |
| CatalogKeys.DottedNamesCollide | be/src/catalog/catalog-util.cc:107-130 | with dots in database names keys collide |
| CrossJoin.OverlayTuples | be/src/exec/blocking-join-node.cc:186-202 | an output row has the build tuples in their places and the left tuples elsewhere |
| CrossJoin.BuildNext | be/src/exec/row-batch-list.h:57-63 | the iterator goes through the rows of all batches |
| CrossJoin.CrossJoinNode.ConstructBuildSide | be/src/exec/cross-join-node.cc:52-71 | the kept batches hold all rows of the right child, and none is empty |
| CrossJoin.CrossJoinNode.Open | be/src/exec/blocking-join-node.cc:132-152 | after any empty batches, what remains to be produced is the whole product |
| CrossJoin.CrossJoinNode.CreateOutputRow | be/src/exec/blocking-join-node.cc:186-202 | the output row of a pair |
| CrossJoin.CrossJoinNode.Next | be/src/exec/row-batch-list.h:57-63 | one build row further |
| CrossJoin.CrossJoinNode.ProcessLeftChildBatch | be/src/exec/cross-join-node.cc:131-166 | the rows written, in the window and nowhere else, are the next rows of the product; fewer than the window only if the left batch is used up |
| CrossJoin.CrossJoinNode.GetNext | be/src/exec/cross-join-node.cc:77-120 | the rows added to the batch are the next ones, within the limit; eos only at the limit or when nothing remains |
| CrossJoin.CrossJoinNode.Run | be/src/exec/cross-join-node.cc:77-120 | the outputs of any calls, joined, are a prefix of the first limit rows, all of them at eos |
| CrossJoin.CrossJoinNode.Execute | be/src/exec/cross-join-node.cc:52-166 | from the two inputs, batched in any way, to the first limit rows of the filtered nested loop, left rows first |
| CodegenIr.NotAgain | be/src/codegen/subexpr-elimination.cc:86-94 | on a path to a point that d dominates, a strict dominator of d does not come again after the last d |
| CodegenRuns.RunIsFeasible | be/src/exprs/expr.cc:659-669 | on the way of a run, two tests of a flag without a write in between go the same way |
| SubExprSound.BothFresh | be/src/codegen/subexpr-elimination.cc:125-127 | where the result of a repeated call is used, the row has not changed since it and since the first call |
| SubExprSound.ResultsSame | be/src/codegen/subexpr-elimination.cc:173-178 | there the results of the two calls are the same, in every run |
| SubExprSound.KeptIsThere | be/src/codegen/subexpr-elimination.cc:181-189 | the condition on paths makes the slot of the first call hold the flag of the repeated one in every run that comes to it, with slots shared by any calls and stores |
| SubExprSound.StepSame | be/src/codegen/subexpr-elimination.cc:104-119 | the same step of the original and of the rewritten code leaves the two runs alike but for the erased result and, where it is stale, its slot |
| SubExprSound.SimulationSound | be/src/codegen/subexpr-elimination.cc:173-191 | on every input and after any number of steps, the function with one call replaced does the same, if the flag is there in every run |
| SubExprSound.ReplacementSound | be/src/codegen/subexpr-elimination.cc:173-191 | the same under the condition on paths |
| SubExprKept.FeasibleBefore | be/src/codegen/subexpr-elimination.cc:181-191 | a path without contradictory tests in the rewritten code had none before |
| SubExprKept.KeepsEliminable | be/src/codegen/subexpr-elimination.cc:146-191 | after a replacement all conditions still hold for the calls that are left |
| SubExprElimination.IrFunction.ReplaceAllUses | be/src/codegen/subexpr-elimination.cc:104-119 | every use of the one result is a use of the other, in the first call's own block of what comes in from its predecessors, and the call is gone |
| SubExprElimination.IrFunction.ReplaceCall | be/src/codegen/subexpr-elimination.cc:178-191 | in addition the null load reads the first call's slot |
| SubExprElimination.IrFunction.Run | be/src/codegen/subexpr-elimination.cc:121-197 | the function is equivalent to what it was, and no two calls have the same function and row |
| SubExprExact.DominatingSuffices | be/src/codegen/subexpr-elimination.cc:86-94 | a first call that dominates the other has been called with the same row |
| SubExprExact.OneCallSuffices | be/src/exprs/expr.cc:659-669 | with one call in a block, no use of a repeated call's result that control gets to is in the first call's block |
| SubExprExact.UpdaterSubstitutes | be/src/codegen/subexpr-elimination.cc:104-119 | then wherever control gets, the updater's rule is substitution of the first result |
| SubExprExact.NullsLeaveSuffices | be/src/exprs/expr.cc:659-677 | if since the first call control goes on only when the flags of what was evaluated are false, the slot holds the first call's flag, whoever wrote it last |
| SubExprExact.ReturnedFlag | be/src/codegen/subexpr-elimination.cc:181-191 | if the function returns the repeated call's flag, the replacement keeps what it does if and only if in every run that comes to the call the first call's slot holds that flag |
| SubExprExact.StraightExactly | be/src/codegen/subexpr-elimination.cc:181-191 | without branches, and with parameters as rows, if and only if that slot was last written by a call with the same function and row |
| SubExprExact.RereadShows | be/src/codegen/subexpr-elimination.cc:118-119 | where the erased call's slot, which nothing else writes, is loaded again and returned, the result changes |
| SubExprExamples.DominanceNeeded | be/src/codegen/subexpr-elimination.cc:86-94 | without a dominating first call the replacement changes the result |
| SubExprExamples.OneCallNeeded | be/src/codegen/subexpr-elimination.cc:104-119 | with two calls in one block, and all other conditions met, the replacement changes the result |
| SubExprExamples.FlagNeeded | be/src/exprs/in-predicate.cc:76-113 | for a IN (b, a), with all conditions met but that the slot holds the first call's flag, the replacement changes the result |
| SubExprExamples.RereadMatters | be/src/exprs/arithmetic-expr.cc:195-206 | for sum(a), sum(a * c), with all conditions met but that the slot is not read again, the replacement changes the result |
| ArithmeticCodegen.Codegen | be/src/exprs/arithmetic-expr.cc:63-208 | the code of any expression: operands in order, each tested before the next is evaluated, all flags in one slot, one block that returns |
| ArithmeticCodegen.EvaluatedBefore | be/src/exprs/arithmetic-expr.cc:91-102 | on every path to a column without contradictory tests, all columns before it have been evaluated and were not NULL |
| ArithmeticCodegen.ArithmeticEliminable | be/src/codegen/subexpr-elimination.cc:43-55 | the code of every arithmetic expression meets all conditions of the pass |
| ArithmeticCodegen.SameColumnTwice | be/src/codegen/subexpr-elimination.cc:47-83 | for colA + colA, whose two calls share a slot, the second is replaced and the function does the same |
| ArithmeticCodegen.OptimizeFunctionWithExprs | be/src/codegen/llvm-codegen.cc:532-536 | for every arithmetic expression the function after the pass does what it did, and calls no column twice |
| Crc32c.InstructionSplits | be/src/codegen/llvm-codegen.cc:917-967 | dividing a whole operand is dividing its first part and then the rest |
| Crc32c.InstructionShifts | be/src/codegen/llvm-codegen.cc:917-967 | the instruction on an operand of any size is the shift register on its bits |
| Crc32c.WordIsBytes | be/src/codegen/llvm-codegen.cc:917-967 | the instruction on a little-endian word is the byte by byte CRC of its bytes |
| HashCodegen.Word64Hashes | be/src/codegen/llvm-codegen.cc:926-931 | one more 8 byte chunk |
| HashCodegen.ChunkHashes | be/src/codegen/llvm-codegen.cc:939-957 | a chunk of 4 or 2 bytes |
| HashCodegen.LastByteHashes | be/src/codegen/llvm-codegen.cc:959-964 | the last byte |
| HashCodegen.SseHashes | be/src/codegen/llvm-codegen.cc:917-920 | the crc32 instructions on the memory lead from the CRC of a prefix to that of the longer one |
| HashCodegen.SizeUnique | be/src/codegen/llvm-codegen.cc:898-901 | a generated function serves one size only |
| HashCodegen.LlvmCodeGen.EmitWords | be/src/codegen/llvm-codegen.cc:922-937 | the code hashes all whole 8 byte chunks, fewer than 8 bytes are left |
| HashCodegen.LlvmCodeGen.EmitHash | be/src/codegen/llvm-codegen.cc:903-971 | the code returns the rotated CRC of the first n bytes and loads exactly these, each once, in order |
| HashCodegen.LlvmCodeGen.GetHashFunction | be/src/codegen/llvm-codegen.cc:890-982 | after any earlier requests, the function for n bytes, n at least 1, computes their rotated CRC; for 0 bytes it does if and only if no function for another size has been generated last |
| HashCodegen.CrcHash | be/src/util/hash-util.h:44-65 | the general loop computes the same |
| Aggregation.TupleIsFold | be/src/exec/aggregation-node-ir.cc:34-47 | a group's running tuple is the fold of exactly that group's rows |
| Aggregation.GroupsAre | be/src/exec/aggregation-node-ir.cc:34-47 | the groups are the keys of the rows |
| Aggregation.AllAggregated | be/src/exec/aggregation-node-ir.cc:34-47 | after all rows the table has one tuple per distinct key, holding that fold |
| Aggregation.PassingAre | be/src/exec/aggregation-node.cc:220-233 | a row is delivered if and only if it is the finalized tuple of a visited group and passes the conjuncts |
| Aggregation.PassingOnce | be/src/exec/aggregation-node.cc:220-233 | no group is delivered twice |
| Aggregation.AggregationNode.ProcessRowBatchWithGrouping | be/src/exec/aggregation-node-ir.cc:34-47 | a batch brings the table up to date |
| Aggregation.AggregationNode.ProcessRowBatchNoGrouping | be/src/exec/aggregation-node-ir.cc:28-32 | a batch brings the only tuple up to date |
| Aggregation.AggregationNode.Open | be/src/exec/aggregation-node.cc:147-203 | for any batching, one tuple per key with the fold of its rows; without grouping one tuple, also on empty input |
| Aggregation.AggregationNode.Visit | be/src/exec/aggregation-node.cc:220-233 | the tuple at the iterator is finalized, once, and delivered if it passes; the iterator stays at the limit |
| Aggregation.AggregationNode.GetNext | be/src/exec/aggregation-node.cc:205-238 | the rows delivered so far are the passing ones of the tuples visited, each finalized once; at eos they are the first limit ones of all |
| Aggregation.AggregationNode.Run | be/src/exec/aggregation-node.cc:147-238 | a whole run with any capacities |
| AggSlots.SelectedIs | be/src/codegen/llvm-codegen.cc:698-758 | the generated function is the minimum or maximum, for integers and booleans |
| AggSlots.GeneratedAggregates | be/src/exec/aggregation-node.cc:350-437 | from the sentinel values, the generated updates compute COUNT, SUM, MIN and MAX of the inputs that are not NULL; a nullable result is NULL if and only if all inputs are |
| AggSlots.InterpretedAggregates | be/src/exprs/aggregate-functions.cc:49-77 | so do the interpreted updates |
| AggSlots.CodegenAgrees | be/src/exec/aggregation-node.cc:295-305 | on every row sequence the two leave the same slot |
| AggTuple.NoneSkipped | be/src/exec/aggregation-node.cc:105-117 | no materialized slot is left out |
| AggTuple.Prepare | be/src/exec/aggregation-node.cc:105-117 | evaluator i gets the i-th materialized slot behind the grouping slots |
| AggTuple.ConstructAggTuple | be/src/exec/aggregation-node.cc:245-293 | the grouping values, and each evaluator's initial value in that same slot |
| AggTuple.CodegenUpdateAggTuple | be/src/exec/aggregation-node.cc:460-575 | one piece of code per evaluator, for that same slot; none if and only if a slot's type is not supported |
| AggTuple.AppliedOnce | be/src/exec/aggregation-node.cc:545-571 | the pieces update their own slots and no others |
| AggTuple.TupleAggregates | be/src/exec/aggregation-node.cc:545-571 | after any rows each slot holds what its evaluator alone would leave |
| AggTuple.GroupingKept | be/src/exec/aggregation-node.cc:545-571 | the grouping values stay |
| AggTuple.GroupedQuery | be/src/exec/aggregation-node-ir.cc:34-47 | with generated updates, every evaluator's slot of every group holds the aggregate of exactly that group's rows, and the grouping slots hold its key |
| AggTuple.Query | be/src/exec/aggregation-node.cc:147-238 | for any batches and capacities, every row delivered is the finalized tuple of a group whose slots held its key and the aggregates of exactly its rows, no group comes twice, and at the end without a limit every group that passes the conjuncts has come |
| AggTuple.Aggregate | be/src/exec/aggregation-node.cc:245-575 | construction and generated updates give every evaluator's aggregate in its slot |
| PkgResolve.Closed | shell/pkg_resources.py:534-563 | when nothing is open, everything reachable is done |
| PkgResolve.OnePerKey | shell/pkg_resources.py:543-560 | a resolution has no two distributions with one key |
| PkgResolve.Choose | shell/pkg_resources.py:543-557 | the distribution used before for the key, the active one, or the best match |
| PkgResolve.Round | shell/pkg_resources.py:534-563 | one round keeps the invariant or names the failure, and gets closer to the end |
| PkgResolve.Resolve | shell/pkg_resources.py:529-565 | ends on every finite graph; the distributions are one per key, chosen for reachable requirements, and meet every reachable requirement; a failure names a reachable requirement that is not met |
| PkgVersion.ParseVersion | shell/pkg_resources.py:1892-1932 | the key of a version |
| PkgVersion.DottedKey | shell/pkg_resources.py:1880-1932 | of a dotted numeric version: the padded components without trailing zeros and the end mark |
| PkgVersion.CompareIsNumeric | shell/pkg_resources.py:1885-1886 | padded components compare as numbers |
| PkgVersion.VersionOrder | shell/pkg_resources.py:1880-1932 | the keys of two dotted numeric versions compare as the component sequences extended with zeros |
| PkgSpec.Contains | shell/pkg_resources.py:2527-2542 | the loop over the state machine |
| PkgSpec.FromIsConjunction | shell/pkg_resources.py:2572-2580 | with the upper bound last, the loop decides the conjunction |
| PkgSpec.ExactlyWhen | shell/pkg_resources.py:2527-2542 | for at most one lower bound, at most one upper bound and exclusions, the loop is the conjunction for every version if and only if nothing is sorted behind the upper bound |

## Left out

- TextParser.DelimitedTextParser.FindFirstInstance: promises nothing about the result for buffers with a carriage return, because the vector search looks for the row delimiter only and the scalar search for both.
- TextParser.DelimitedTextParser.ParseFieldLocations: buffers without NUL bytes only, since the string instructions stop at them; last_row_delim_offset_ is an unbounded integer here.
- ParseSingleTuple: its scalar tail toggles the escape flag before it tests the delimiter and so does not agree with its vectorised part.
- The start pointers of filled-in missing columns; only their zero length has a meaning.
- SequenceScanner.Scanner.ReadPastSize: a tenth of the average block size is an integer division here and a floating point product in the source.
- SequenceScanner.Scanner.ReadBlock: ReadBlock, ProcessRange and the layout of a good file are those of the Avro scanner; sequence files and RCFile place their markers differently, and their ProcessRange is not modelled. Decoding and the contents of a block are given from outside, as its length or the point where it breaks; io errors and cancellation do not occur.
- SequenceScanner.Scanner.ProcessRange: the early return when the scan node has reached its limit.
- SyncSkip.MissesOpeningMarkers: this closed form is for buffers of at least 30 bytes; for smaller ones the gaps are those of SyncSkip.SeenUnlessBlind.
- CatalogServer.Server.UpdateCatalogTopicCallback: serialization does not fail; a failure would drop the whole delta.
- CatalogProtocol.TopicIsCatalog: the first gather succeeds; that the threads make progress is not shown, since a notification can come before the wait.
- CrossJoin.CrossJoinNode.CreateOutputRow: both rows are present, as in a cross join; eos is false when GetNext stops at a resource limit, where the source leaves it as it was.
- CrossJoin.CrossJoinNode.Open: the left child delivers at least one batch, as its first GetNext does.
- SubExprElimination.IrFunction.Run: code that is not Eliminable, on which the pass can change results; other contradictions between branches than those of null flags are not seen, so some code on which the pass is right does not count as Eliminable. What the updater finds at the end of a block's predecessors is the value of the result at the entry of the block, not the phi nodes it inserts; inlining before and after is not modelled, and an erased instruction leaves an empty place.
- ArithmeticCodegen.Codegen: one operation stands for the opcodes, and constants are parameters; the blocks of an inlined child and its parent are one block where nothing branches in between.
- TextBuffers.CutIsInvisible: a column that spans the cut is one location of the whole and has its end only in the second buffer; the scanner's joining of its bytes is not modelled.
- HashCodegen.LlvmCodeGen.GetHashFunction: the generated function passes verification; the FNV hash is not modelled.
- AggSlots.GeneratedAggregates: integer and boolean slots; sums and counts are 64-bit and wrap. Floating point, string and timestamp slots and merge mode need evaluators that are not part of this model.
- Aggregation.AggregationNode.Begin: the hash table is a map with any iteration order; hashing and buckets are not modelled.
- AggTuple.CodegenUpdateAggTuple: expressions that have no generated code, user-defined aggregates and distinct estimates, for which the source also generates nothing; its loop over the types and its loop that generates are one here.
- PkgResolve.Resolve: the replacement of setuptools by distribute; extras have no order.
- PkgVersion.VersionOrder: components of at most eight digits, as the padding demands.
- PkgSpec.Contains: versions are places in the order of the keys, and the list is sorted already.
- Memory pools, timers, counters, logging, flags, JNI, Thrift, web pages, the JIT compiler and module loading.
- Exchange nodes, data sinks, the shell itself and the build and data loading scripts.
