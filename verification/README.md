# A Dafny model of ALICE

ALICE explores the states a crash can leave on disk. A tracer records system calls and
dumps the bytes they write. A parser turns the trace into logical *micro operations*. A
file system model compiles these into *disk operations* and says which disk operation
depends on which. The explorer leaves operations out, asks whether the rest is a legal
crash state, and replays it.

This project models that chain from the tracer's process table to the replayed directory
and proves what the parts promise each other. `dafny verify dfyconfig.toml` checks it all.

## Modules

| module | models |
|---|---|
| `Ops`, `Deps`, `Closure`, `DefaultFsDeps` | disk operations, the two dependency calculators, their merge, and the closed form it has |
| `TestSuite`, `Combos` | the dependency suite as an object; validity, counting, dropping and keeping of combinations |
| `Slices`, `Compiler`, `CompilerProof`, `CrashStates` | compiling micro operations to disk operations, in both split modes |
| `Files`, `Replay` | symbolic file contents, the effect of disk operations, block-wise filling, the cached replay |
| `Flat`, `Legality`, `Replayer`, `Explorer` | the replayer object, `is_legal`, and the three exploration phases |
| `WritePath`, `Syscalls`, `Parser`, `TraceParser`, `StaleNames` | the write branch; the calls as the parser and as POSIX see them; whole traces; the parser as an object; a trace it gets wrong |
| `Flushing`, `Pipeline` | what every call makes durable and prints; from parsed traces to explored states |
| `Memregions` | the map of file-backed memory regions, `msync`, memory writes |
| `DumpLog`, `ProcessTable` | the tracer's byte dump and its table of traced processes |

A file is a sequence of symbolic cells: a byte of the initial snapshot, a zero, random filler,
or a position in a dump file. Random filler is one symbol, so equalities of contents are exact.
The name space is a map from (parent inode, name) to inode. Dependency lists are sequences of
sets of operation numbers; the bit vectors of the counter are modelled beside them.

## Main results

- **Closed form of the dependencies** (`DefaultFsDeps.SetFsClosedForm`, `Replayer.Replayer.SetFs`).
  After a file system is set, operation k depends on d exactly when d is an earlier sync or
  stdout, or some sync after d and not after k flushes d. The dirty-set cache, the early break
  of the backward scan and the single forward pass lose nothing, and the suite's own
  dependencies add nothing.
- **Counting** (`Combos.CountAllIsBruteForce`, `Legality.CrashStateCount`). The recursive counter
  counts every non-empty valid combination once, although blocked operations never enter its
  drop vector; for the default file system the count is the sum of 2^(k - |deps(k)|).
- **Compiler correctness** (`CompilerProof.CompileAllMeaning`, `CompilerProof.CompileCorrect`). Whatever
  sizes were recorded, the compiled program has one meaning in every split mode, and it is that of
  the micro operations, after each of them, if and only if each recorded size is harmless in its state.
- **Traces end to end** (`Parser.TraceExact`, `Parser.TraceToDisk`, `Parser.ParsedIsRecorded`). For traces of
  open, close, write, pwrite, lseek, truncate, link, unlink, rename, fsync, sync and print calls that
  the parser accepts: after every call its sizes are true and the micro operations have done what the
  calls did, if and only if every call is harmless, a condition on the parser's own state before the
  call. Then every truncate and append starts at the true end of its file, and replaying the disk
  operations in any split mode gives the file system of the calls, name by name.
- **Durability** (`Flushing.CallFlushesExactly`, `Flushing.TraceFlushes`, `Flushing.TracePrints`). Over a whole
  trace, a disk operation is flushed if and only if a later fsync of its file, sync(), or write through
  O_SYNC makes it durable, told from the file system at that call; and the trace prints exactly the
  texts of its print calls.
- **Crash states** (`CrashStates.AppendCrashStates`, `CrashStates.GrowCrashStates`,
  `CrashStates.UnlinkCrashStates`, `CrashStates.RenameCrashStates`). The exact state after every prefix of the
  disk operations of an append, truncate, overwrite, unlink or rename.
- **Exploration** (`Explorer.PrefixStates`, `Explorer.OrderingStates`, `Explorer.AtomicityStates`).
  The phases build exactly the states described by closed conditions on the micro operations: runs of
  the trace, runs that skip one micro operation, and torn micro operations. On a parsed trace the first
  phase shows the file system after each call (`Pipeline.ExploreTrace`).
- **Tracer** (`ProcessTable.TcbTable.Run`, `DumpLog.OffsetsAgree`). The table stays sound over every
  stream of wait statuses; the parser finds every call's bytes in the dump, under an exact condition.

## Where the code does not do what it seems to

Each of the first five comes with an exact condition and a concrete case.

- Renaming one name of a file onto another name of the same file removes a name, and the compiled
  rename of the only name of a file onto itself empties the file, while rename() does nothing
  (`CrashStates.RenameMatchesPosix`, `CrashStates.RenameOntoOwnLink`).
- Sizes are looked up by the name a descriptor was opened under. When that name moved to another
  file, a write can overwrite existing bytes with zeros (`Parser.StepExact`, `StaleNames.StaleNameLosesData`).
- Unmapping the middle of a memory region loses its right remainder (`Memregions.UnmapExactness`,
  `Memregions.RightRemainderIsLost`).
- Bytes dumped by a call that never returned shift all later calls (`DumpLog.OffsetsAgree`,
  `DumpLog.LostByteShiftsTheRest`).
- A cached replay rewrites the stdout file from the suffix only (`Replay.ReplayCache.ReplayDiskOps`,
  `Replay.CachedTextIsLost`).
- Pairs that point forward are not closed by the single pass (`Closure.ForwardPairsAreNotClosed`);
  the file system model only produces backward pairs.
- The last failing state of a longer run is not counted as inside the atomic patch, a single
  failing state is (`Explorer.AtomicPatches`).
- The omission loop of the third phase was meant to be skipped in aligned mode, but compares a
  number with a string and is never skipped; the model follows the code.
- In the block-wise filling the case of a head longer than the write cannot occur
  (`Replay.PlanBlocks`).

## Model

| member | source | states |
|---|---|---|
| TestSuite.Suite.constructor | _aliceautotest.py:314-344 | building the suite alone yields the closed form: earlier syncs, and everything a sync up to the operation has flushed, with matching bit vectors |
| TestSuite.Suite.AddOperation | _aliceautotest.py:104-148 | one more operation keeps the closed form, the meaning of the dirty table (waiting for a sync) and the latest sync |
| TestSuite.Suite.UpdateDirtyWriteCollection | _aliceautotest.py:171-179 | an operation waits for a sync of an inode exactly if it did before, or is the new one, dirties something and belongs to that inode (its parent, for directory entries) |
| TestSuite.Suite.CalculateDependencies | _aliceautotest.py:230-249 | dirty set and latest sync together give the dependencies a full scan of the history would |
| TestSuite.Suite.CollectFlushed | _aliceautotest.py:234-238 | exactly the dirty operations in the sync range, and all they depend on |
| TestSuite.Suite.ClearDirtyWriteCollection | _aliceautotest.py:184-198 | an operation still waits exactly if it did before and this is not a sync of its inode that flushed it; a sync becomes the latest one |
| TestSuite.DirtyStep | _aliceautotest.py:171-198 | after marking and clearing, the table again holds exactly the operations no sync has flushed |
| TestSuite.NewSuiteDeps | _aliceautotest.py:230-249 | what an earlier sync flushed comes back through the latest sync, so clearing the dirty set loses nothing |
| TestSuite.Suite.StoreDepsAsBitVectors | _aliceautotest.py:252-256 | every vector has exactly the bits of its dependency set |
| TestSuite.Suite.AddDepsToOps | _aliceautotest.py:519-532 | inserting pairs and one forward pass in place, refreshing the vectors |
| TestSuite.Suite.AbsorbRow | _aliceautotest.py:529-531 | one row gains the dependencies of the dependencies it started with |
| TestSuite.Suite.TestComboValidity | _aliceautotest.py:264-271 | accepts exactly the combinations closed under dependencies |
| TestSuite.Suite.CountCombos | _aliceautotest.py:397-414 | the bit-vector recursion adds the specified count to the running total |
| TestSuite.Suite.CountAllCombos | _aliceautotest.py:443-448 | for closed lists the total is the number of combinations brute force finds |
| TestSuite.Suite.DropListOfOps | _aliceautotest.py:457-476 | terminates with the greatest valid combination without the given operations, whatever the order of visits; for closed lists these are the operations that do not depend on a dropped one |
| TestSuite.Suite.Sweep | _aliceautotest.py:467-472 | one round drops only doomed operations and all direct dependents |
| TestSuite.Suite.KeepListOfOps | _aliceautotest.py:484-498 | the operations with their dependencies; the closing assertion holds exactly if these form a valid combination, and for closed lists they are the least one |
| Closure.WithPairsIsLeastClosure | _aliceautotest.py:519-532 | for backward pairs the result is the least transitively closed list with the old dependencies and the pairs |
| Closure.PairOrderIsIrrelevant | _aliceautotest.py:520-526 | the order of insertion does not matter |
| Closure.RecomputeCloses | _aliceautotest.py:529-531 | after n rounds of the forward pass the first n rows are closed and the rest untouched |
| Closure.ForwardPairsAreNotClosed | _aliceautotest.py:519-532 | three forward pairs for which one pass is not enough |
| Combos.CountAllIsBruteForce | _aliceautotest.py:281-300 | for every closed backward list the count equals the number of non-empty subsets that pass the validity check |
| Combos.CountFromIsExact | _aliceautotest.py:409-414 | from any prefix the loop counts all valid extensions except the prefix itself |
| Combos.BlockedStep | _aliceautotest.py:410-414 | a skipped operation is in no extension although it was not dropped |
| Combos.FreeStep | _aliceautotest.py:410-414 | an included operation splits the extensions into two disjoint families |
| Combos.DisjointBits | _aliceautotest.py:410 | no common bit if and only if the sets are disjoint |
| Combos.LargestDecides | _aliceautotest.py:264-271 | in growing lists a combination is valid if and only if it has the dependencies of its largest operation |
| Combos.CountAllIsPowerSum | _aliceautotest.py:443-448 | for growing closed lists the count is the sum over k of 2^(k - number of dependencies of k) |
| Combos.SurvivorsAreGreatest | _aliceautotest.py:457-476 | operations neither dropped nor depending on a dropped one form the greatest valid combination |
| Combos.NeededIsLeast | _aliceautotest.py:484-498 | operations with their dependencies form the least valid combination |
| Combos.DropKeepDuality | _aliceautotest.py:457-498 | j survives dropping i if and only if keeping j does not need i |
| Deps.SuiteDepsClosed | _aliceautotest.py:230-249 | construction alone gives a backward, transitively closed, growing list |
| Deps.FsDepsClosed | alicedefaultfs.py:218-277 | so does the closed form of the file system |
| Deps.SuiteWithinFs | _aliceautotest.py:151-168 | the suite's reading of sync ranges never flushes more than the file system's |
| DefaultFsDeps.GetDeps | alicedefaultfs.py:218-277 | hidden dependencies are the last barrier and what the scan reaches and flushes |
| DefaultFsDeps.ScanBack | alicedefaultfs.py:229-277 | everything flushed down to the first covering sync; the assertions inside hold |
| DefaultFsDeps.ClosedFormIsReached | alicedefaultfs.py:223-241 | every closed list with these pairs has all dependencies of the closed form |
| DefaultFsDeps.SetFsClosedForm | alice.py:380-395 | suite dependencies, pairs and forward pass add up to exactly the closed form |
| DefaultFsDeps.EarlyBreakLosesNothing | alicedefaultfs.py:236-241 | breaking at a covering sync gives the relation of a full scan |
| Slices.SlicesTile | alicedefaultfs.py:66-77 | non-empty slices follow each other over the whole range |
| Slices.CountModeBound | alicedefaultfs.py:68-76 | count mode makes at most the requested number of slices |
| Slices.CountModeIsEven | alicedefaultfs.py:68-76 | all slices have one length n and only the last may be shorter; n is the smallest length that needs no more slices than asked for |
| Slices.AlignedModeStaysInBlocks | alicedefaultfs.py:73-74 | in aligned mode no slice crosses a boundary |
| Slices.AlignedModeCutsAtBoundaries | alicedefaultfs.py:73-74 | every slice ends at a block boundary or at the end of the range |
| Compiler.EmitSlices | alicedefaultfs.py:71-127 | the loop visits the slices in order and ends at the end of the range; overwrites share it |
| Compiler.TruncDiskOps | alicedefaultfs.py:39-136 | growing, shrinking and appending produce the specified operations |
| Compiler.ReverseAndSwap | alicedefaultfs.py:129-134 | the cuts from the far end, each from its upper to its lower size |
| Compiler.UnlinkDiskOps | alicedefaultfs.py:138-146 | produces the specified cuts and then the removal of the name, whose crash states are those of CrashStates.UnlinkCrashStates |
| Compiler.GetDiskOps | alicedefaultfs.py:150-216 | every micro operation compiles to its specified disk operations |
| CompilerProof.JobEffect | alicedefaultfs.py:96-122 | all layers of all slices together are one write of the final bytes |
| CompilerProof.ShrinkEffect | alicedefaultfs.py:79-85 | the chain of cuts is one truncation |
| CompilerProof.TruncEffect | alicedefaultfs.py:168-169 | a compiled truncate writes zeros from the recorded size on, or cuts, whatever the file holds |
| CompilerProof.TruncExact | alicedefaultfs.py:66-136 | it is ftruncate() if and only if nothing but zeros lies beyond the recorded size and nothing beyond the final one |
| CompilerProof.CompileMeaning | alicedefaultfs.py:150-216 | the effect of every compiled micro operation in every state, for any recorded sizes |
| CompilerProof.CompileOne | alicedefaultfs.py:150-216 | replaying the disk operations of a micro operation is running it if and only if its recorded sizes are harmless |
| CompilerProof.CompileAllMeaning | alicedefaultfs.py:36-216 | the effect of every compiled program, for any recorded sizes |
| CompilerProof.CompileCorrect | alicedefaultfs.py:36-216 | after every micro operation the replay is the state of running them if and only if each compiles exactly in its turn |
| CompilerProof.GranularityIsInvisible | alicedefaultfs.py:30-34 | the final state of every program is the same in any two split modes |
| CrashStates.CrashInsideJob | alicedefaultfs.py:71-125 | exact contents after every prefix of a sliced operation: final bytes, then zeros, random bytes or data in the current slice, as the kind of operation says |
| CrashStates.AppendCrashStates | alicedefaultfs.py:87-122 | old bytes intact, finished slices final, current slice zeros, filler or data |
| CrashStates.GrowCrashStates | alicedefaultfs.py:96-112 | after every prefix of a growing truncate: old bytes intact, finished slices zeros, current slice missing, random or zeros |
| CrashStates.OverwriteCrashStates | alicedefaultfs.py:176-193 | after every prefix of an overwrite: a prefix of its data, one disk operation per slice |
| CrashStates.LayerCounts | alicedefaultfs.py:71-122 | two disk operations per slice for growing, three for appending |
| CrashStates.IndivisibleOps | alicedefaultfs.py:147-214 | creating, linking, syncing one file and printing are single disk operations |
| CrashStates.ShrinkChains | alicedefaultfs.py:129-134 | consecutive cuts chain sizes strictly down from the initial to the final one |
| CrashStates.ShrinkCrashStates | alice.py:175-181 | every prefix of a shrinking truncate leaves a prefix of the old file |
| CrashStates.UnlinkCrashStates | alicedefaultfs.py:138-146 | until its last disk operation an unlink keeps every name; with the last link the file is a strictly shrinking prefix of itself and empty before the name goes, otherwise untouched |
| CrashStates.RenameCrashStates | alicedefaultfs.py:156-167 | the names after every prefix of a rename: all, without target, without both, target renamed; the cuts of the target come first |
| CrashStates.RenameMatchesPosix | alicedefaultfs.py:156-167 | equals rename() if and only if the target is absent, another file, or the same name with nothing to lose |
| CrashStates.RenameOntoOwnLink | alicedefaultfs.py:156-167 | a rename between two links that loses a name |
| Replay.ReplayOneFile | alice.py:175-259 | writes and truncates of one inode change that file only |
| Replay.PlanBlocks | alice.py:185-217 | head, blocks and tail partition the write in order, blocks are aligned and of the size the count asks for, every assertion holds |
| Replay.WriteSpecial | alice.py:184-243 | the up to three filling writes are one write |
| Replay.ApplyRow | alice.py:152-264 | one row has the effect of its disk operation |
| Replay.ReplayRows | alice.py:149-264 | a fresh replay folds all rows and prints every stdout row |
| Replay.ReplayCache.ReplayDiskOps | alice.py:129-147 | over any sequence of calls the tree is the full replay of this call's rows; a hit prints the new rows only, so stdout is complete if and only if no cached row printed |
| Replay.CachedTextIsLost | alice.py:134-149 | the second of two cached replays of a printing row prints nothing |
| Flat.Single | alice.py:445-452 | the running index finds the pair's disk operation in the flat list |
| Flat.Double | alice.py:435-444 | the only pair with that running index; its closing assertion is unreachable |
| Flat.PairUnique | alice.py:435-452 | no two pairs share a running index, so the two conversions are inverse to each other |
| Legality.PrefixIsLegal | alice.py:276-294 | without omissions every prefix is a valid combination |
| Legality.OmissionWindow | alice.py:276-294 | leaving out non-barriers is valid if and only if no sync in the prefix flushed one of them |
| Legality.OmissionIsLegal | alice.py:276-294 | the same for is_legal, in terms of micro operations |
| Legality.OmittedSyncIsIllegal | alice.py:276-294 | a missing sync makes every later state illegal |
| Legality.CrashStateCount | _aliceautotest.py:443-448 | for every list of disk operations: closed-form count, brute force, and the largest operation decides |
| Legality.BarriersOf | alicedefaultfs.py:198-214 | sync and print operations compile to barriers only, others to none |
| Flushing.CompiledFlushes | alicedefaultfs.py:198-212 | the compiled micro operation flushes exactly the changes of the recorded file, range or list of files, in every split mode |
| Flushing.CompiledCall | alicedefaultfs.py:198-212 | every compiled sync carries the kind of call it came from |
| Flushing.CompiledPrints | alicedefaultfs.py:213-214 | the compiled micro operation prints its text, if it is a print, and nothing otherwise |
| Replayer.PairsOf | alice.py:391-394 | the tuples are exactly the hidden dependencies |
| Replayer.Disguise | alice.py:380-382 | stdout operations become writes to inode -1 and nothing else changes |
| Replayer.CompileTrace | alice.py:363-378 | the flat list is the compiled program, all flags are cleared |
| Replayer.Replayer.SetFs | alice.py:363-395 | whatever the trace and split mode, the suite ends with exactly the closed-form dependencies of the compiled trace, and no operation is omitted |
| Replayer.Replayer.DopsOmit | alice.py:411-415 | exactly the running index of that disk operation joins the omitted ones, and none does for a stdout operation |
| Replayer.Replayer.DopsInclude | alice.py:416-419 | exactly the running index of that disk operation leaves the omitted ones |
| Replayer.CollectIncluded | alice.py:287-293 | the included indices of one micro operation, or failure on a partial sync() |
| Replayer.IncludedOps | alice.py:284-293 | the indices below the end that are not omitted |
| Replayer.Replayer.IsLegal | alice.py:276-294 | decides exactly whether the chosen state is legal |
| Replayer.BuildDir | alice.py:340-349 | the replay that stays is that of all included operations |
| Replayer.Replayer.ConstructCrashedDir | alice.py:340-349 | the same for the replayer's own state; no directory without any disk operation |
| Explorer.PrefixState | alicedefaultexplorer.py:128-132 | an un-omitted prefix is legal and is what its micro operations do through their recorded sizes |
| Explorer.PrefixStates | alicedefaultexplorer.py:128-132 | the first phase builds the state after every micro operation of every trace, all of them legal |
| Explorer.AtomicPatches | alicedefaultexplorer.py:135-153 | exactly the maximal runs of failing states become patches |
| Explorer.OrderingLegal | alicedefaultexplorer.py:163-177 | with micro operation i omitted, legal at j if and only if i is a print, or neither a sync nor flushed up to j |
| Explorer.ReorderWindow | alicedefaultexplorer.py:170-177 | legality is downward closed in the end point |
| Explorer.OrderingState | alicedefaultexplorer.py:167-176 | what remains with one micro operation omitted is the compiled program without it |
| Explorer.OrderingOf | alicedefaultexplorer.py:170-177 | for one omitted micro operation: exactly the legal ends, and at each the directory of the run without it |
| Explorer.OrderingStates | alicedefaultexplorer.py:163-180 | the second phase builds exactly the states of the reorderable pairs, each the run of the trace up to j without i, and puts all flags back |
| Explorer.OmitAll | alicedefaultexplorer.py:167-168 | all flags of one micro operation are set, except for prints |
| Explorer.IncludeAll | alicedefaultexplorer.py:179-180 | all flags of one micro operation are cleared |
| Explorer.AtomicityLegal | alicedefaultexplorer.py:208-219 | inside one micro operation every cut and omission is legal, except inside sync() |
| Explorer.AtomicityState | alicedefaultexplorer.py:208-221 | what remains at a cut is the compiled program before and a piece of the row, with or without a hole |
| Explorer.AtomicityOf | alicedefaultexplorer.py:208-223 | for one cut: the directory with the torn micro operation, and with each earlier disk operation of it missing |
| Explorer.AtomicityStates | alicedefaultexplorer.py:204-223 | the third phase builds exactly all cuts and all cuts with one hole, each the run before the micro operation and a torn piece of it, never inside sync() |
| WritePath.WriteBranch | _aliceparsesyscalls.py:545-577 | the step-by-step branch emits overwrite, gap and append, moves the position by the count, and leaves the scratch size at the new end |
| WritePath.WriteEffect | _aliceparsesyscalls.py:545-577 | exact contents after a compiled write for any believed size |
| WritePath.WriteMatchesPosix | _aliceparsesyscalls.py:545-577 | equals pwrite() if and only if the write starts within the believed size or only zeros lie in between |
| WritePath.EndToEndWrite | _aliceparsesyscalls.py:545-577 | with the true size every write is pwrite(): overwritten bytes, zero gap, data from the right dump positions |
| StaleNames.StaleNameLosesData | _aliceparsesyscalls.py:543-545 | open, two renames and a pwrite, all accepted: the replay has zeros where the file system still has data, in every split mode |
| Parser.StepExact | _aliceparsesyscalls.py:439-717 | one call: the scratch copy stays in step and the micro operations do what the call did if and only if the call is harmless |
| Parser.WriteStep | _aliceparsesyscalls.py:492-577 | for write and pwrite: the name still is the file's own, or the write stays inside both files |
| Parser.TruncStep | _aliceparsesyscalls.py:653-675 | for ftruncate: the name still is the file's own, or both files already have the size; truncate always |
| Parser.RenameStep | _aliceparsesyscalls.py:602-624 | for rename: not between two names of one file |
| Parser.OpenStep | _aliceparsesyscalls.py:454-486 | opening, creating and truncating on open always |
| Parser.LinkStep | _aliceparsesyscalls.py:589-599 | link always |
| Parser.UnlinkStep | _aliceparsesyscalls.py:625-647 | unlink always: only contents without a name are discarded |
| Parser.TraceExact | _aliceparsesyscalls.py:1031-1038 | over every accepted trace the parser keeps up after every call if and only if every call is harmless in its turn |
| Parser.TraceToDisk | _aliceparsesyscalls.py:1031-1038 | for harmless traces and every split mode the replay equals the traced file system, name by name, and all sizes are true |
| Parser.ParsedIsRecorded | _aliceparsesyscalls.py:545-577 | for harmless traces every recorded size and link count is true in its state: truncates and appends start at the end of the file, overwrites stay inside, sync() lists every named file at its size |
| Parser.SyncCovers | _aliceparsesyscalls.py:711-717 | sync() covers every file that has a name, at its true size |
| Syscalls.ParserAccepts | _aliceparsesyscalls.py:439-717 | the parser stops exactly at the calls that break one of its assumptions about names, links and descriptors |
| Flushing.CallFlushesExactly | _aliceparsesyscalls.py:701-717 | every accepted call flushes exactly what it makes durable: fsync the whole file at its true size, sync() all the walk finds, a write through O_SYNC the range it writes, others nothing |
| Flushing.WriteFlushes | _aliceparsesyscalls.py:555-575 | a write flushes the range it writes if and only if its descriptor has O_SYNC |
| Flushing.OsyncWriteIsFlushed | _aliceparsesyscalls.py:555-575 | when a write through O_SYNC is over, all its own data is flushed |
| Flushing.SyncFlushesNamed | _aliceparsesyscalls.py:711-717 | sync() makes every file durable that has a name |
| Flushing.FlushedByCall | _aliceparsesyscalls.py:701-717 | of all earlier disk operations one more call flushes exactly those it makes durable |
| Flushing.TraceFlushes | _aliceparsesyscalls.py:1031-1038 | over a whole trace a disk operation is flushed if and only if it was by the end of its call or some later call makes it durable |
| Flushing.TracePrints | _aliceparsesyscalls.py:521-528 | a trace prints the texts of its print calls in order and nothing else |
| Parser.RecordedCompilesExactly | alicedefaultfs.py:36-216 | with true recorded sizes a program compiles to exactly its own meaning |
| TraceParser.TraceParser.OpenFileCall | _aliceparsesyscalls.py:454-486 | the step-by-step branch refines the parse of open |
| TraceParser.TraceParser.WriteFileCall | _aliceparsesyscalls.py:515-577 | the same for write and pwrite |
| TraceParser.TraceParser.RenameFileCall | _aliceparsesyscalls.py:602-624 | the same for rename, which first moves a target aside that loses its last name |
| TraceParser.TraceParser.GetMicroOp | _aliceparsesyscalls.py:439-717 | from any state in step with a file system: the parser stays in step and its new micro operations do what the call did if and only if the call is harmless; they flush exactly what the call makes durable |
| TraceParser.TraceParser.GetMicroOps | _aliceparsesyscalls.py:1031-1038 | all calls in order up to the first failure; it keeps up throughout exactly for harmless traces, and then the disk ends as the calls left it; the texts printed are those of the calls |
| Pipeline.StateAfterCall | _aliceparsesyscalls.py:1031-1038 | after the micro operations of a call the state is the file system after that call |
| Pipeline.ExploreTrace | alicedefaultexplorer.py:128-132 | the first phase on a parsed trace: all states legal, those at the ends of calls are the file systems between the calls |
| Memregions.MemregionTracker.FindOverlap | _aliceparsesyscalls.py:142-157 | finds a region that meets the range if there is one |
| Memregions.MemregionTracker.Insert | _aliceparsesyscalls.py:160-162 | regions stay pairwise disjoint |
| Memregions.MemregionTracker.RemoveOverlaps | _aliceparsesyscalls.py:164-182 | terminates with nothing in the range; other regions untouched, left remainders kept |
| Memregions.RemovedIsClear | _aliceparsesyscalls.py:164-182 | no address of the range stays mapped, and a mapped address keeps its file position |
| Memregions.KeptAddress | _aliceparsesyscalls.py:164-182 | if no met region reaches beyond the range where it would be lost, every mapped address outside the range survives with its file position |
| Memregions.LostAddress | _aliceparsesyscalls.py:173-182 | an address of a met region right of the range, or left of it when whole regions go, is lost although it is outside the range |
| Memregions.UnmapExactness | _aliceparsesyscalls.py:173-182 | exactly the range goes if and only if no met region reaches beyond it |
| Memregions.RightRemainderIsLost | _aliceparsesyscalls.py:178 | a region that loses its tail |
| Memregions.MemregionTracker.ResolveRange | _aliceparsesyscalls.py:190-205 | exactly the mapped addresses of the range, in order and cut to it |
| Memregions.MemregionTracker.OverlapsInOrder | _aliceparsesyscalls.py:192-193 | all regions that meet the range, by address |
| Memregions.MemregionTracker.MWrite | _aliceparsesyscalls.py:862-878 | a byte of the range is stored at a file position from its place in the dump if and only if it is mapped there; each dumped byte is read at most once and none outside those of the call |
| Memregions.MemregionTracker.MSync | _aliceparsesyscalls.py:849-861 | exactly the file bytes behind the range are synced |
| DumpLog.Tracer.DumpIov | alice-strace/io.c:152-198 | all buffers are dumped in order and the total is returned |
| DumpLog.Tracer.Trace | alice-strace/io.c:54-65 | the size on the line is the number of bytes dumped; the other write calls alike |
| DumpLog.Tracer.TraceAll | alice-strace/io.c:218-307 | the log and the dump of a whole trace |
| DumpLog.LineRoundTrip | _aliceparsesyscalls.py:530-541 | descriptor, count and position that the tracer prints are those the parser reads |
| DumpLog.AssignOffsets | _aliceparsesyscalls.py:986-1015 | the offset of a call is the sum of the sizes on the finished lines before it |
| DumpLog.OffsetsAgree | _aliceparsesyscalls.py:1003-1015 | all finished calls are found if and only if no unfinished call dumped bytes before one |
| DumpLog.ReadBack | _aliceparsesyscalls.py:1003-1015 | reading a finished call's size at its offset returns exactly its bytes |
| DumpLog.LostByteShiftsTheRest | _aliceparsesyscalls.py:1003-1015 | an unfinished and a finished write of one byte each: the parser reads the wrong one |
| ProcessTable.TcbTable.Expand | alice-strace/alice-strace.c:692-710 | doubles the table and keeps every slot in place |
| ProcessTable.TcbTable.Attach | alice-strace/alice-strace.c:712-746 | takes a free slot, grows only when full, never reaches the error exit, other slots unchanged |
| ProcessTable.TcbTable.Drop | alice-strace/alice-strace.c:748-781 | frees one slot and keeps the count right |
| ProcessTable.TcbTable.Pid2Tcb | alice-strace/alice-strace.c:1925-1940 | finds the slot of a traced process if there is one |
| ProcessTable.TcbTable.ExecSwitch | alice-strace/alice-strace.c:2122-2165 | the thread takes over pid and logs, the leader's slot is freed, pids stay distinct and logs stay paired |
| ProcessTable.TcbTable.FindOrAttach | alice-strace/alice-strace.c:2086-2097 | unknown processes are attached |
| ProcessTable.TcbTable.Locate | alice-strace/alice-strace.c:2086-2172 | the slot that carries the reported pid after attach and execve |
| ProcessTable.TcbTable.Answer | alice-strace/alice-strace.c:2231-2383 | swallows SIGSTOP exactly when one is due, passes other signals on unchanged |
| ProcessTable.TcbTable.Step | alice-strace/alice-strace.c:2086-2383 | one round keeps the table sound, changes the traced processes exactly as the status says, and answers it: ends free the slot, a SIGSTOP is swallowed exactly when due, other signals pass unchanged |
| ProcessTable.TcbTable.Run | alice-strace/alice-strace.c:1986-2386 | over every stream of statuses until no process is left, one answer each: the table stays sound, its processes are those the statuses leave alive, and the process count is their number |
| ProcessTable.PidCount | alice-strace/alice-strace.c:738-753 | with distinct pids the number of slots in use is the number of traced processes |
| ProcessTable.OneSigstopPerLifetime | alice-strace/alice-strace.c:2279-2291 | between two swallowed SIGSTOPs of a slot a new process was attached to it |

## Left out

- Directories in replay (`mkdir`, `rmdir`, directory rename): the name space holds regular files under existing directories.
- Real file-system calls, file modes, permission toggling and subprocesses: only contents and entries are kept.
- Text handling: parsing of lines, quoting, path normalisation, atomicity descriptions, printing, stack traces, report texts.
- The tuples emitted by the combination generator: they still contain skipped operations; the counting form is modelled.
- Limits on the number of combinations, and the pickled command-line driver of the suite.
- Floating-point rounding in ceilings: sizes are exact integers. The block number passed to the filling command is taken as an exact integer.
- The record of reverse dependencies kept by the dependency scan, which nothing reads.
- Saving and loading replayer states.
- `fallocate`, zero-length writes, `O_APPEND`, duplicated descriptors, descriptor sharing across fork, symbolic links, open flags other than creation, truncation and synchronisation.
- Parser.TraceToDisk: is stated for harmless traces, since Parser.TraceExact shows that the parser does not keep up on any other; files without a name are not compared, since no crash state shows them.
- Closure.WithPairsIsLeastClosure: is stated for backward pairs, which is all the file system model produces; the general method is specified for all pairs.
- Sorting of the dependency pairs: the result is proved for every order.
- Memory regions are not part of the traces of Parser; they have their own module.
- The tracer with fork following switched off, detaching on execve, interrupts, ptrace errors, and the final clean-up loop.
- All other system-call decoders, architecture code and configuration of the tracer; the scenario builder and the documentation scripts.
