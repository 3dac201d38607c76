# Verification of a PLC runtime

A model, in Dafny 4.11, of the parts of the PLC runtime that carry real invariants, with proofs of what they promise.
`dafny verify dfyconfig.toml` checks the whole project.

- **Dynamic linker** (`ModuleImage`, `LinkSpec`, `LinkProgress`, `UdynLink`, `LinkResults`, `LinkExample`, over `Bytes`):
  memory is one sequence of bytes that also holds the module file and the tables the loop reads while it patches.
  `LinkSpec` gives the relocation table a declarative meaning, slot by slot, and an address-free linker that all three
  load modes refine;
  `UdynLink` is the C code's own steps on memory, heap and handle, proved against it;
  `LinkWords` restates what a load leaves by the words of the module file alone, and `LinkExample` loads a concrete one.
- **Trace pipeline** (`RingBuffers`, `TraceSpec`, `PlcDebug`, `PlcTracer`): a byte ring with contiguous claims, publishing
  and reading as functions of the ring, laws over whole histories, and the imperative operations on the runtime's arrays.
- **Run/stop and cycle protocol** (`PlcProtocol`): the main task, the restartable debug thread and the caller of start and
  stop as interleaved atomic steps over two semaphores of limit 1 with saturating give. Each safety result comes with the
  steps that must not happen, and with a proof that after such a step it does fail.
- **Chunked upload** (`UploadSpec`, `UploadResults`, `PlcUpload`): the upload table, the running digest and the files, for
  any digest. A use of a closed file or of a finished digest is recorded as a fault. `UploadExample` is a concrete
  transfer.
- **Printers and parsers**: the eRPC struct shims (`ErpcSpec`, `ErpcShims`, `ErpcWire`, `ErpcCut`), WebSocket frames (`WebSocket`) against
  RFC 6455, and the log file (`LogSpec`, `PlcLog`).
- **Chunked loading** (`ChunkLoad`): reading a module file into the load buffer, its CRC check, and flashing.

Hypotheses are stated where they are used. The main ones: a module file is well formed (`LinkSpec.WellFormed`: sizes
as announced, names inside the symbol table, targets inside the module, size sums below 2^32); an allocated block lies
apart from the module file and from live blocks, and only a live block is freed; variable sizes are stable while they
are traced; start and stop are called one at a time; the digest has 16 bytes and does not collide on the strings a
history hashes (`UploadSpec.Scope`), seeds are distinct and of one length, and temporary names are fresh; log messages
contain no newline, fit a line of 255 characters and carry seconds below 2^32. In `LogSpec` a character stands for a
byte of the file.

What the code does where its intent is different is modelled as written and proved as a result of its own:
`LinkResults.OccupiedHandle`, `TraceSpec.PaddingDropsUnread`, `TraceSpec.OtherSizesLose`, `TraceSpec.UntracedMisreads`,
`TraceSpec.UntracedNeverInOrder`, `PlcProtocol.RetracingInCycleOverlaps`,
`PlcProtocol.RestartWhilePublishingOverlaps`, `PlcProtocol.RoughStepsUnpark`,
`PlcProtocol.InconsiderateStepsRun`, `UploadResults.UnknownExtraFails`, `UploadResults.PrefixPasses`,
`UploadResults.ClosingFaults`, `UploadResults.EmptyIdAfterPurge`,
`UploadResults.FullTableFaults`, `UploadResults.FullTableRefuses`, `UploadResults.FullTableStoresNothing`,
`UploadResults.BlankNewPlc`, `UploadResults.SpentUploadFaults`, `ErpcSpec.EmptyForceIsDropped`,
`WebSocket.HeaderRoundTrip` (a 64-bit length is sent in network order and read in the CPU's). Comments in the source that
disagree with the code: publish_debug is said to return 1 on success (app/src/plc_debug.c:205) and returns 0;
GetLogMessage is said to return 1 on failure (app/src/plc_rte_log.c:209) and always returns 0, and when no log file exists
yet it leaves the message NULL instead of answering "Message not found!".

## Model

| member | source | states |
|---|---|---|
| `UdynLink.Machine.LoadModule` | app/udynlink/udynlink.c:168-329 | On any handle, free or in use, the status is the error of the first failing stage or relocation, else OK; only the module's own RAM is written; a failing load zeroes the handle and restores the heap, less the block it frees of a handle in use; a successful one leaves the linked module in place and the heap grown by its block at most |
| `UdynLink.Machine.UnloadModule` | app/udynlink/udynlink.c:351-366 | Frees the module's RAM unless the caller owns it, zeroes the handle, and refuses a NULL or unloaded handle without effect |
| `UdynLink.Machine.LoadImage` | app/udynlink/udynlink.c:191-310 | From RAM reservation to the last relocation: status, heap, handle and memory, with the handle still naming any RAM to be released on error |
| `UdynLink.Machine.ReserveRam` | app/udynlink/udynlink.c:191-222 | The RAM stage, on any handle: which block the module gets, when it is out of memory or too short, and who owns it |
| `UdynLink.Machine.Link` | app/udynlink/udynlink.c:224-310 | Copying and relocating write only the module's RAM, and success leaves every slot with its declarative meaning |
| `UdynLink.Machine.CopyToRam` | app/udynlink/udynlink.c:224-250 | After the copy every section of the layout is in place, the BSS is zero, and every slot holds its initial word |
| `UdynLink.Machine.CopySections` | app/udynlink/udynlink.c:224-247 | Exactly the part of the file the mode asks for is copied behind the LOT, and the header moves with it only when everything is copied |
| `UdynLink.Machine.Relocate` | app/udynlink/udynlink.c:252-310 | The loop, which reads its table from the memory it patches, ends with the status and the memory of the table as it was in the module file |
| `UdynLink.Machine.ApplyRelocation` | app/udynlink/udynlink.c:261-309 | One table entry patches exactly its own slot, or rejects and writes nothing |
| `UdynLink.Machine.ResolveSymbol` | app/udynlink/udynlink.c:274-309 | The value a plain entry stores, or the error that rejects it |
| `UdynLink.Machine.RebaseWord` | app/udynlink/udynlink.c:264-272 | A top-bit entry adds the data base less the value to the word, modulo 2^32 |
| `UdynLink.Machine.GetSymAt` | app/udynlink/udynlink.c:110-142 | Succeeds exactly on the entries of the table, and on none if entry 0 is not the module name |
| `UdynLink.Machine.OffsetSym` | app/udynlink/udynlink.c:146-163 | Only local and exported symbols become absolute, at their section's base, modulo 2^32 |
| `UdynLink.Machine.LookupSymbol` | app/udynlink/udynlink.c:426-442 | Terminates, and finds the symbol of least index with the name, made absolute, or none |
| `UdynLink.Machine.GetSymbolValue` | app/udynlink/udynlink.c:444-453 | The absolute value of the first symbol of the name, or 0 |
| `ModuleImage.LayoutTiles` | app/udynlink/udynlink.c:45-83 | In each mode LOT, copied header and tables, code, data and BSS are consecutive, disjoint, and fill exactly the RAM asked for |
| `LinkResults.RamSizeIsExact` | app/udynlink/udynlink.c:373-392 | For a well-formed module the 32-bit RAM size does not wrap and is the size of the tiling |
| `LinkSpec.LinkStatusMeaning` | app/udynlink/udynlink.c:259-310 | The table is accepted if and only if every entry is good; otherwise the status is the first bad entry's |
| `LinkSpec.LastTarget` | app/udynlink/udynlink.c:259-310 | The last entry that targets a slot decides it, on top of what the entries before it left |
| `LinkSpec.LinkRefinesSymbolic` | app/udynlink/udynlink.c:259-310 | Linking at concrete addresses is the address-free linker's linear form read at those addresses |
| `LinkSpec.StoringForgets` | app/udynlink/udynlink.c:281-297 | A slot that some entry stores to does not depend on what it held before the load |
| `LinkSpec.LinkIsEquivariant` | app/udynlink/udynlink.c:146-163 | In the relocation list: moving code and data shifts every slot by the multiples of the two deltas its linear form has |
| `LinkSpec.SingleTargetShift` | app/udynlink/udynlink.c:259-310 | In the relocation list: a slot targeted once moves with the code, with the data, or not at all (extern) |
| `LinkSpec.FindNameIsLeast` | app/udynlink/udynlink.c:426-442 | The index found is the least with the name; none is found if and only if no symbol has it |
| `LinkSpec.LookupAgrees` | app/udynlink/udynlink.c:282-288 | The slot of an exported symbol that is first of its name holds the lookup's answer for that name |
| `LinkProgress.PatchesHaveMeaning` | app/udynlink/udynlink.c:259-310 | After any number of entries, patched memory still has its sections in place and each slot its meaning so far |
| `LinkProgress.ReadsModuleTables` | app/udynlink/udynlink.c:254-274 | All through the loop the header, symbols and entries read from memory are the module file's, even when they lie in the block being patched |
| `LinkProgress.StartIsLaid` | app/udynlink/udynlink.c:224-250 | The copy lays the module out: sections in place, BSS zero, nothing else changed, slots at their initial words |
| `UdynLink.EntriesRead` | app/udynlink/udynlink.c:259-274 | Before each entry the loop decodes the entry of the module file and computes its target's address |
| `LinkResults.VerdictMeaning` | app/udynlink/udynlink.c:175-328 | OK if and only if signature, RAM and every relocation are good; each error names its stage or the first bad entry |
| `LinkResults.UnloadUndoesLoad` | app/udynlink/udynlink.c:351-366 | Unload after load restores the heap, never frees the caller's RAM, and is refused exactly for a module left in place at address 0 |
| `LinkResults.OccupiedHandle` | app/udynlink/udynlink.c:175-328 | A load into a handle that still names a block frees that block exactly when memory runs out, or the signature is bad and the handle owns it; otherwise, success included, the block stays allocated and is forgotten; a handle that names none loses nothing |
| `LinkResults.LoadedTables` | app/udynlink/udynlink.c:224-310 | After a load the tables and section bases reached through the handle are those of the module file and of the relocations |
| `LinkResults.ModesAgree` | app/udynlink/udynlink.c:52-83 | In every mode and at every address a slot has one meaning, read at that load's code and data addresses |
| `LinkResults.MovedModule` | app/udynlink/udynlink.c:224-310 | Two loads of one file, in any modes, at any addresses and into any memories, give words that differ by the multiples of the code and data deltas of the slot's meaning, modulo 2^32 |
| `LinkResults.MovedSlot` | app/udynlink/udynlink.c:259-310 | A slot with a single relocation moves with the code, with the data, or not at all (extern), between any two loads |
| `LinkResults.LoadedSlotIsLookup` | app/udynlink/udynlink.c:281-288 | After a load, memory at an exported symbol's slot equals what looking its name up returns |
| `LinkWords.TopBitWord` | app/udynlink/udynlink.c:264-272 | By the words of the file: a .data word that one top-bit entry targets holds, after a load, the file's word plus the address of .data less the entry's low 31 bits, modulo 2^32 |
| `LinkWords.SectionWord` | app/udynlink/udynlink.c:110-163 | By the words of the file: a slot that one entry targets, naming a local or exported symbol, holds the symbol's word plus the address of the code, if bit 30 is set, or of .data |
| `LinkWords.ExternWord` | app/udynlink/udynlink.c:290-297 | By the words of the file: a slot that one entry targets, naming an extern symbol, holds the host's address of that name |
| `LinkWords.StatusByWords` | app/udynlink/udynlink.c:274-309 | By its words, an entry is good, refers to a bad symbol, or names one the host does not offer |
| `LinkWords.VerdictByWords` | app/udynlink/udynlink.c:175-328 | By the words of the file, a load succeeds if and only if there is RAM for the sizes announced and every entry is good; else the RAM's error or the first bad entry's |
| `LinkWords.LoadedCode` | app/udynlink/udynlink.c:45-59 | In every mode the code at the code pointer is the file's, octet for octet |
| `LinkWords.LoadedData` | app/udynlink/udynlink.c:224-250 | The .bss is zero, and a .data word that no entry targets is the file's |
| `LinkWords.LoadedLookup` | app/udynlink/udynlink.c:426-453 | After a load, udynlink_get_symbol_value answers 0 for a name no symbol reports, else the first such symbol's word, from the start of the code or of .data if it is local or exported |
| `LinkExample.FileIsExample` | app/udynlink/udynlink.h:34-48 | A concrete module file, with sections of different sizes, a local, an exported and an extern symbol and a top-bit entry, meets every hypothesis the linker's results make |
| `LinkExample.LoadAndUnload` | app/udynlink/udynlink.c:168-366 | Loading that file leaves these four words in the slots, as numbers; looking up its exported name and an unknown one answers these numbers; and unloading it succeeds |
| `RingBuffers.CommitAppends` | app/src/plc_debug.c:298 | Finishing a claim appends exactly the bytes written into it |
| `RingBuffers.DropRemovesOldest` | app/src/plc_debug.c:234 | Reading without a destination removes the oldest bytes |
| `RingBuffers.ClaimShowsOldest` | app/src/plc_debug.c:446 | A read claim shows the oldest bytes |
| `RingBuffers.RingBuffer.PutClaim` | app/src/plc_debug.c:225 | The grant is the least of request, free space and distance to the physical end |
| `RingBuffers.RingBuffer.GetClaim` | app/src/plc_debug.c:446 | The grant is the least of request, used space and distance to the physical end |
| `RingBuffers.RingBuffer.Write` | app/src/plc_debug.c:246 | Writes the claimed bytes and no others |
| `RingBuffers.RingBuffer.Consume` | app/src/plc_debug.c:465 | Consumes up to the given number of the oldest bytes |
| `TraceSpec.RoomCostsOldest` | app/src/plc_debug.c:226-237 | Making room drops the oldest queued bytes, not the padding; nothing is lost if and only if the first claim is full or empty or the ring is empty |
| `TraceSpec.PaddingDropsUnread` | app/src/plc_debug.c:226-237 | A concrete ring in which the next publish drops half of the oldest sample |
| `TraceSpec.PublishAppends` | app/src/plc_debug.c:223-300 | A publish that loses nothing appends exactly one record or reports -1 and changes nothing |
| `TraceSpec.PublishVerdict` | app/src/plc_debug.c:223-300 | For any ring: a publish reports 0 if and only if the record fits the free bytes, wherever they lie, and all variables can be read; exactly if it fits, the record stands behind the room made |
| `TraceSpec.SmoothVerdict` | app/src/plc_debug.c:225-243 | A publish that loses nothing succeeds if and only if the record fits the ring and the ring is empty or grants the first claim |
| `TraceSpec.PublishHolds` | app/src/plc_debug.c:223-300 | Such a publish keeps the ring a queue of whole samples, none straddling the physical end |
| `TraceSpec.ReadTakesAll` | app/src/plc_debug.c:428-467 | A read returns every queued sample as it was published and fills exactly the elements it allocates |
| `TraceSpec.FifoRoundTrip` | app/src/plc_debug.c:209-301 | Over every interleaving of publishes that lose nothing and of reads: delivered, then queued, samples are the published ones, in order, without loss or duplication |
| `TraceSpec.AlignedClaim` | app/src/plc_debug.c:225-237 | In a ring of whole records a claim is granted in full or not at all, and not at all exactly when the ring is full |
| `TraceSpec.FullRingRefuses` | app/src/plc_debug.c:237-242 | A publish on a full ring returns -1 and leaves the ring unchanged |
| `TraceSpec.RefusalLeavesNoClaim` | app/src/plc_debug.c:237-242 | A publish refused without losing a byte leaves no claim open, unless the record exceeds the ring |
| `TraceSpec.DividingSizeIsSmooth` | app/include/config.h:81 | If the record size divides the capacity, no publish of any history loses a byte |
| `TraceSpec.DividingSizeFifo` | app/include/config.h:81 | With such a size the FIFO law needs no condition on the interleaving |
| `TraceSpec.OtherSizesLose` | app/include/config.h:81 | If the capacity holds a record but is no multiple of its size, filling the empty ring makes the next publish drop queued bytes |
| `TraceSpec.SizesThatWork` | app/include/config.h:81 | From an empty ring at index 0, every history is smooth if and only if the record size divides the capacity or exceeds it |
| `TraceSpec.UntracedBreaksFrames` | app/src/plc_debug.c:223-295 | With nothing traced, one publish that succeeds without losing a byte on a ring of whole samples of the reader's size leaves no queue of such samples |
| `TraceSpec.UntracedBalance` | app/src/plc_debug.c:223-295 | Over every history with nothing traced whose publishes lose nothing, five bytes come with each sample published and four go with each delivered |
| `TraceSpec.UntracedNeverInOrder` | app/src/plc_debug.c:223-467 | Over every such history, the samples delivered and then queued are those published, in order, if and only if none was published |
| `TraceSpec.UntracedMisreads` | app/src/plc_debug.c:421-467 | Reading two or more such records in one piece returns a quarter more samples; the first is right, and the second shifted by a byte, right only for tick 0 |
| `TraceSpec.UntracedReadsMisframe` | app/src/plc_debug.c:421 | The instance of ticks 1 and 2, read as 1 and 512 |
| `PlcDebug.SetListIsCoherent` | app/src/plc_debug.c:314-384 | A new list keeps the total size equal to the sum of the sizes of its first entries, also when it stops half-way |
| `PlcDebug.CoherentRecords` | app/src/plc_debug.c:249-288 | The bytes collected for a record never exceed, and when complete equal, the size the reader expects |
| `PlcDebug.CollectedIff` | app/src/plc_debug.c:252-288 | Every value is collected if and only if every traced variable can be read |
| `PlcDebug.CollectedAt` | app/src/plc_debug.c:252-288 | The bytes of each variable stand in the record behind those of the variables before it in the list |
| `PlcDebug.ListIsTraced` | app/src/plc_debug.c:314-384 | A new list is entered up to its first unreadable variable: indexes, sizes, their sum and the count; the answer is the new token if all are readable, 2^32 - 5 for an empty list, and 2^32 - 1 otherwise |
| `PlcDebug.ReadableListIsTraced` | app/src/plc_debug.c:341-384 | A list of at most 64 readable variables is traced as it is: these variables, their sizes and the sum, answered by the new token |
| `PlcDebug.CurrentTokenIsServed` | app/src/plc_debug.c:426-470 | With the current token a fetch waits if and only if fewer bytes than one record are queued, and otherwise answers what it read |
| `PlcDebug.FetchTakesAll` | app/src/plc_debug.c:426-470 | With the current token and whole samples queued the answer is all of them, in order, and the ring is left empty |
| `PlcDebug.StaleTokenIsRefused` | app/src/plc_debug.c:335-421 | After a new list a client with the old token is refused, takes nothing, and finds the ring empty |
| `PlcDebug.After` | app/src/plc_debug.c:182-473 | Over every run of Set, publish, Get and PLC start with stable variable sizes the layout stays coherent |
| `PlcDebug.RecordsFollowList` | app/src/plc_debug.c:245-298 | In any coherent state and any ring without an open claim, a publish makes room at the cost of the oldest bytes, then reports -1 or writes the tick and the values of the current list in order, complete and of the reader's length if and only if it reports 0 |
| `PlcDebug.MixedFifo` | app/src/plc_debug.c:182-473 | Over every run of Set, publish and Get calls and PLC starts in which publishes lose nothing: the samples fetched since the latest list or start, then those in the ring, are exactly the samples published since, in order and of that list's size |
| `PlcDebug.GetCompletes` | app/src/plc_debug.c:182-473 | After every such run one fetch with the current token completes the delivery: all that was published since the latest list or start has been fetched |
| `PlcTracer.WriteValues` | app/src/plc_debug.c:252-288 | The copy loop writes exactly the collected values and stops at the first unreadable one |
| `PlcTracer.TakeBlocks` | app/src/plc_debug.c:446-468 | The read loop returns exactly the whole blocks the ring grants |
| `PlcTracer.Tracer.WrapRing` | app/src/plc_debug.c:226-234 | The short claim is zero-filled, finished, and as many of the oldest bytes dropped |
| `PlcTracer.Tracer.InitDebug` | app/src/plc_debug.c:182-188 | A PLC start empties the ring and keeps the list, the sizes and the token |
| `PlcTracer.Tracer.PublishDebug` | app/src/plc_debug.c:209-301 | The publish on the buffer is the publish on its queue, with the same return value |
| `PlcTracer.Tracer.SetTraceVariablesList` | app/src/plc_debug.c:314-384 | Sets list, sizes, count, total and token, resets the ring, and answers the token or an error code |
| `PlcTracer.Tracer.GetTraceVariables` | app/src/plc_debug.c:395-473 | Answers Broken, waits, or returns the samples, with the number of elements it allocates |
| `PlcProtocol.CycleToken` | app/src/plc_debug.c:109-187 | In every run from boot the cycle count is at most 1, and once debugging was initialised count plus holders is at least 1; careful runs never overlap config_run__ and publish_debug |
| `PlcProtocol.TokenNeverLost` | app/src/plc_task.c:114-116 | Every step keeps the cycle token |
| `PlcProtocol.CarefulRunsDoNotOverlap` | app/src/plc_task.c:101-128 | If the debug thread is never launched while the main task is in config_run__ with the count at 1, and debugging never initialised while the debug thread owns the cycle, they never overlap |
| `PlcProtocol.CarelessStepsOverlap` | app/src/plc_debug.c:165-184 | Conversely, after either of those two steps an overlap is reachable, from every state |
| `PlcProtocol.ClearFlagSparesGiving` | app/src/plc_debug.c:113-152 | A debug thread about to give that finds plc_run clear leaves without publishing, and its surplus give is absorbed |
| `PlcProtocol.SurplusGiveIsAbsorbed` | app/src/plc_debug.c:152 | The debug thread's give on leaving without the token changes nothing outside config_run__, and inside is absorbed by the main task's own give |
| `PlcProtocol.RetracingInCycleOverlaps` | app/src/plc_debug.c:325-371 | A run from boot in which setting the traced variables during a cycle leads to an overlap |
| `PlcProtocol.RestartWhilePublishingOverlaps` | app/src/plc_debug.c:182-184 | A run from boot in which a stop and restart during a publish leads to an overlap |
| `PlcProtocol.HandshakeHolds` | app/src/plc_loader.c:587-636 | Every smooth step keeps the handshake: one run token exactly while the PLC runs or a stop is pending, and outputs zeroed before it is given back |
| `PlcProtocol.RunToken` | app/src/plc_loader.c:587-636 | In every smooth run from boot the run token is in play exactly from a completed start to a completed stop, and an unload outside a call finds the main task parked |
| `PlcProtocol.StoppedIsQuiet` | app/src/plc_task.c:128-137 | After a successful stop and until the next start the main task stays parked, outputs stay zeroed, and nothing is written |
| `PlcProtocol.RunningDrives` | app/src/plc_task.c:103-131 | While the run flag is set, over every run of steps, the main task stays in its loop and the outputs at the end of every cycle are the program's |
| `PlcProtocol.CycleDrives` | app/src/plc_task.c:115-118 | From config_run__ with the run flag set, every run without a stop or a new program that ends at the loop's test ends with the program's outputs driven |
| `PlcProtocol.TracingGoesOn` | app/src/plc_debug.c:113-154 | Over every run in which the run flag stays set, nobody asks the debug thread to leave and its publishes succeed, it stays in its loop |
| `PlcProtocol.PublishIsReached` | app/src/plc_debug.c:113-131 | From every such state a publish can be reached without disturbing it |
| `PlcProtocol.FailedPublishEnds` | app/src/plc_debug.c:143-163 | A failed publish ends the debug thread with the cycle token given back, and it can be launched again |
| `PlcProtocol.RequestedThreadCanRestart` | app/src/plc_debug.c:118-163 | A thread asked to leave does so from its wait, clears the request, gives the token back and can be launched again |
| `PlcProtocol.ResetAfterTimeout` | app/src/plc_loader.c:622-629 | Whatever happens between a stop's timeout and the reset, the reset leaves the PLC stopped with the semaphore empty, and the handshake sound if and only if the main task has parked meanwhile |
| `PlcProtocol.RoughStepsUnpark` | app/src/plc_rpc.c:659 | Conversely, after a stop that times out or a program received while not stopped, the PLC can be stopped without the main task being parked |
| `PlcProtocol.NeverRunsUnloaded` | app/src/plc_loader.c:564-580 | In every smooth run in which modules are unloaded only with no start or stop in progress and no load fails over an initialised module, the main task never runs without a module |
| `PlcProtocol.InconsiderateStepsRun` | app/src/plc_loader.c:568-621 | Conversely, after any unload with a call in progress, or any load that fails over an initialised module, config_run__ is reachable with the module gone |
| `PlcProtocol.UnloadDuringStop` | app/src/plc_loader.c:615-621 | Such a state is reached from boot: a stop is pending, unloading is possible, and config_run__ is running |
| `PlcProtocol.Helpful` | app/src/plc_task.c:81-137 | While a stop is pending some step is possible that brings it closer: no deadlock |
| `PlcProtocol.StopCanComplete` | app/src/plc_loader.c:615-636 | From every reachable state with a pending stop there is a run that completes it with the main task parked |
| `UploadSpec.FindId` | app/src/plc_rpc.c:303-332 | The lookup answers the first entry with the ID, or none |
| `UploadSpec.IdsDiffer` | app/src/plc_rpc.c:543-607 | If the digest does not collide on the strings in scope, two uploads with distinct seeds of one length never share an ID |
| `UploadSpec.FoundById` | app/src/plc_rpc.c:303-332 | Every live upload is found by its final ID, with its own file and bytes |
| `UploadResults.UploadIntegrity` | app/src/plc_rpc.c:525-627 | Over every orderly history each live entry's file holds exactly its own chunks in order, seed excluded, under its final ID, and no closed file or finished digest is used |
| `UploadResults.SeedReflects` | app/src/plc_rpc.c:453-470 | A seed finishes the open upload, enters a new empty one and touches no other |
| `UploadResults.AppendReflects` | app/src/plc_rpc.c:583-627 | A chunk goes to the last upload only, which then has the digest of seed and chunks as its ID; the call reports success |
| `UploadResults.NewPlcVerdict` | app/src/plc_rpc.c:640-739 | For any ID of at most 16 bytes and any extra files: a prefix of the last upload's ID (the empty one only if no entry was purged) installs that upload, and the call succeeds if and only if the extra files name different earlier uploads; any other ID fails and changes no file and no flag; a closed file is used exactly for an earlier upload's ID |
| `UploadResults.UnknownExtraFails` | app/src/plc_rpc.c:659-709 | Instances: an extra file with an ID in no entry, with the last upload's ID, or with an ID used before makes NewPLC report failure with the new program installed, the PLC marked stopped and no reload requested |
| `UploadResults.DeliverableSucceeds` | app/src/plc_rpc.c:659-709 | Every extra file can be moved if and only if each names an upload before the last, and no two the same |
| `UploadResults.PrefixPasses` | app/src/plc_rpc.c:650 | Any proper prefix of the right ID, the empty one if no entry was purged, installs the upload as well, and the call succeeds exactly if the extra files can be moved |
| `UploadResults.TransferInstalls` | app/src/plc_rpc.c:640-739 | A whole transfer: the program, every extra file and the MD5 file end up holding exactly their own uploads |
| `UploadResults.Untouched` | app/src/plc_rpc.c:677-710 | A file that is neither source nor destination of an extra file is left alone |
| `UploadResults.PlaceByExtension` | app/src/plc_rpc.c:691-703 | The place of an extra file, as a path: five web extensions behind its last dot lead to the web root, everything else to the PLC's files |
| `UploadResults.IndexIsServed` | app/src/plc_rpc.c:691-703 | For instance "index.htm" goes to "/lfs:/www//index.htm" |
| `UploadResults.PurgeSpares` | app/src/plc_rpc.c:480-532 | A purge deletes every temporary upload, and leaves the installed program, the MD5 file and every installed extra file as they are |
| `UploadResults.ClosingFaults` | app/src/plc_rpc.c:425-435 | NewPLC closes a file twice exactly when it is given the ID of an earlier upload |
| `UploadResults.EmptyIdAfterPurge` | app/src/plc_rpc.c:525-532 | With a purged entry in the table the empty ID passes the check, installs nothing, and deletes the installed program if the MD5 file exists; without extra files the call reports success |
| `UploadResults.FullTableFaults` | app/src/plc_rpc.c:269-277 | With 20 uploads since boot and the last one open, a further seed is not entered and its first chunk is written to a closed file |
| `UploadResults.FullTableRefuses` | app/src/plc_rpc.c:269-277 | With 20 uploads since boot and a purged table, a further seed is not entered, its chunk is answered with status 3, its file stays empty and nothing faults |
| `UploadResults.FullTableStoresNothing` | app/src/plc_rpc.c:525-532 | A full table once purged: over every run of purges, seeds and chunks no byte is stored |
| `UploadResults.BlankNewPlc` | app/src/plc_rpc.c:640-739 | On a purged table NewPLC installs nothing, reports success exactly for a prefix of the digest without extra files, and then deletes the program if the MD5 file exists |
| `UploadResults.SpentUploadFaults` | app/src/plc_rpc.c:648-649 | Once NewPLC has run with a 16-byte ID, exactly the calls other than a purge use the closed file or the finished digest |
| `UploadExample.TransferWorks` | app/src/plc_rpc.c:525-739 | A concrete digest and history of two uploads meet every hypothesis, and install the program and the page that were sent |
| `PlcUpload.Uploads.FindEntry` | app/src/plc_rpc.c:303-332 | The loop finds the first entry with the ID |
| `PlcUpload.Uploads.UpdateLastBlobId` | app/src/plc_rpc.c:287-294 | Only the last entry's ID changes |
| `PlcUpload.Uploads.FinishFileUpload` | app/src/plc_rpc.c:425-435 | Renames the last entry's ID, closes the first match, and reports whether there was one |
| `PlcUpload.Uploads.PrepareFileUpload` | app/src/plc_rpc.c:453-470 | Finishes the upload in progress and enters the new one if there is room |
| `PlcUpload.Uploads.PurgeBlobs` | app/src/plc_rpc.c:525-532 | Clears every entry and the temporary files but keeps the number of uploads |
| `PlcUpload.Uploads.SeedBlob` | app/src/plc_rpc.c:543-571 | Restarts the digest with the seed, answers its digest, and prepares the upload |
| `PlcUpload.Uploads.AppendChunkToBlob` | app/src/plc_rpc.c:583-627 | Digest, last ID, file and status after one chunk |
| `PlcUpload.Uploads.MoveExtraFiles` | app/src/plc_rpc.c:677-710 | Moves the extra files one by one and stops at the first that cannot be moved |
| `PlcUpload.Uploads.ReceivePlc` | app/src/plc_rpc.c:640-740 | NewPLC on the runtime's table and files |
| `ErpcSpec.TextRoundTrip` | app/erpc/erpc_PLCObject_client.cpp:69-73 | A string reads back as the bytes before its first NUL, newly terminated; unchanged if and only if it ends there |
| `ErpcSpec.BinaryRoundTrip` | app/erpc/erpc_PLCObject_server.cpp:56-81 | Binary data reads back, an empty one always as NULL; unchanged if and only if NULL means empty |
| `ErpcSpec.ExtraFilesRoundTrip` | app/erpc/erpc_PLCObject_client.cpp:79-91 | Server read after client write returns every extra file as its string and binary read back and consumes exactly the bytes written; the list comes back unchanged if and only if every name ends at its NUL and every ID is NULL exactly when empty |
| `ErpcSpec.TraceOrdersRoundTrip` | app/erpc/erpc_PLCObject_client.cpp:107-119 | The same for the list of trace orders, unchanged if and only if every forced value is NULL exactly when empty |
| `ErpcSpec.TraceSamplesRoundTrip` | app/erpc/erpc_PLCObject_server.cpp:282-294 | The same for the list of trace samples, unchanged if and only if every buffer is NULL exactly when empty |
| `ErpcSpec.TraceVariablesRoundTrip` | app/erpc/erpc_PLCObject_server.cpp:269-294 | Client read after server write returns the status and every trace sample, consuming exactly the bytes written, and unchanged if and only if every buffer is NULL exactly when empty |
| `ErpcSpec.LogMessageRoundTrip` | app/erpc/erpc_PLCObject_server.cpp:198-216 | The same for a log message |
| `ErpcSpec.PskIdRoundTrip` | app/erpc/erpc_PLCObject_server.cpp:219-237 | The same for the PLC's identity |
| `ErpcSpec.PlcStatusRoundTrip` | app/erpc/erpc_PLCObject_server.cpp:240-253 | The same for the status and its four log counts |
| `ErpcSpec.ManyRoundTrip` | app/erpc/erpc_PLCObject_client.cpp:87-90 | A list of any length reads back if each of its elements does |
| `ErpcSpec.EmptyForceIsDropped` | app/erpc/erpc_PLCObject_server.cpp:65-80 | A forced value of no bytes arrives as NULL, which means not forced |
| `ErpcWire.ExtraFileWire` | app/erpc/erpc_PLCObject_client.cpp:51-76 | On the wire: length and characters of the name without its NUL, then length and octets of the blob ID |
| `ErpcWire.TraceOrderWire` | app/erpc/erpc_PLCObject_client.cpp:94-104 | On the wire: index, then length and octets of the forced value |
| `ErpcWire.TraceSampleWire` | app/erpc/erpc_PLCObject_server.cpp:256-266 | On the wire: tick, then length and octets of the values |
| `ErpcWire.LogMessageWire` | app/erpc/erpc_PLCObject_server.cpp:198-216 | On the wire: length and characters of the text, tick, seconds, nanoseconds |
| `ErpcWire.PskIdWire` | app/erpc/erpc_PLCObject_server.cpp:219-237 | On the wire: length and characters of the ID, then of the key |
| `ErpcWire.PlcStatusWire` | app/erpc/erpc_PLCObject_server.cpp:240-253 | On the wire: the status in two's complement, then the four counts in order |
| `ErpcWire.ListWire` | app/erpc/erpc_PLCObject_client.cpp:79-91 | On the wire: the count, then the elements in order |
| `ErpcCut.ExtraFilesCut` | app/erpc/erpc_PLCObject_server.cpp:111-128 | Of a message cut anywhere, the reader fails if and only if bytes the list takes are missing, and otherwise reads the same list |
| `ErpcCut.TraceOrdersCut` | app/erpc/erpc_PLCObject_server.cpp:144-161 | The same for the list of trace orders |
| `ErpcCut.TraceVariablesCut` | app/erpc/erpc_PLCObject_client.cpp:277-310 | The same for the trace variables' reply |
| `ErpcCut.LogMessageCut` | app/erpc/erpc_PLCObject_client.cpp:173-201 | The same for a log message |
| `ErpcCut.PskIdCut` | app/erpc/erpc_PLCObject_client.cpp:204-242 | The same for the PLC's identity |
| `ErpcCut.PlcStatusCut` | app/erpc/erpc_PLCObject_client.cpp:245-261 | The same for the status |
| `ErpcShims.SendExtraFiles` | app/erpc/erpc_PLCObject_client.cpp:79-91 | What the writing side's shim writes (extra files) is what the reading side's shim reads, and what follows is left |
| `ErpcShims.SendTraceOrders` | app/erpc/erpc_PLCObject_client.cpp:107-119 | What the writing side's shim writes (trace orders) is what the reading side's shim reads, and what follows is left |
| `ErpcShims.SendTraceVariables` | app/erpc/erpc_PLCObject_server.cpp:269-294 | What the writing side's shim writes (trace variables) is what the reading side's shim reads, and what follows is left |
| `ErpcShims.SendLogMessage` | app/erpc/erpc_PLCObject_server.cpp:198-216 | What the writing side's shim writes (log message) is what the reading side's shim reads, and what follows is left |
| `ErpcShims.SendPskId` | app/erpc/erpc_PLCObject_server.cpp:219-237 | What the writing side's shim writes (identity) is what the reading side's shim reads, and what follows is left |
| `ErpcShims.SendPlcStatus` | app/erpc/erpc_PLCObject_server.cpp:240-253 | What the writing side's shim writes (status) is what the reading side's shim reads, and what follows is left |
| `ErpcShims.Strlen` | app/erpc/erpc_PLCObject_client.cpp:70 | The index of the first NUL |
| `ErpcShims.ContinueStep` | app/erpc/erpc_PLCObject_server.cpp:122-127 | Reading one more element of a list continues the decoding of the whole list |
| `ErpcShims.WriteText` | app/erpc/erpc_PLCObject_client.cpp:69-73 | Appends exactly the wire form of its argument |
| `ErpcShims.WriteBinary` | app/erpc/erpc_PLCObject_client.cpp:51-59 | Appends exactly the wire form of its argument |
| `ErpcShims.WriteExtraFile` | app/erpc/erpc_PLCObject_client.cpp:62-76 | Appends exactly the wire form of its argument |
| `ErpcShims.WriteExtraFiles` | app/erpc/erpc_PLCObject_client.cpp:79-91 | Appends exactly the wire form of its argument |
| `ErpcShims.WriteTraceOrder` | app/erpc/erpc_PLCObject_client.cpp:94-104 | Appends exactly the wire form of its argument |
| `ErpcShims.WriteTraceOrders` | app/erpc/erpc_PLCObject_client.cpp:107-119 | Appends exactly the wire form of its argument |
| `ErpcShims.WriteTraceSample` | app/erpc/erpc_PLCObject_server.cpp:256-266 | Appends exactly the wire form of its argument |
| `ErpcShims.WriteTraceSamples` | app/erpc/erpc_PLCObject_server.cpp:282-294 | Appends exactly the wire form of its argument |
| `ErpcShims.WriteTraceVariables` | app/erpc/erpc_PLCObject_server.cpp:269-279 | Appends exactly the wire form of its argument |
| `ErpcShims.WriteLogMessage` | app/erpc/erpc_PLCObject_server.cpp:198-216 | Appends exactly the wire form of its argument |
| `ErpcShims.WritePskId` | app/erpc/erpc_PLCObject_server.cpp:219-237 | Appends exactly the wire form of its argument |
| `ErpcShims.WritePlcStatus` | app/erpc/erpc_PLCObject_server.cpp:240-253 | Appends exactly the wire form of its argument |
| `ErpcShims.ReadText` | app/erpc/erpc_PLCObject_server.cpp:91-105 | Decodes its value and consumes exactly its bytes, or leaves the codec failed if the bytes end too soon |
| `ErpcShims.ReadBinary` | app/erpc/erpc_PLCObject_server.cpp:56-81 | Decodes its value and consumes exactly its bytes, or leaves the codec failed if the bytes end too soon |
| `ErpcShims.ReadExtraFile` | app/erpc/erpc_PLCObject_server.cpp:84-108 | Decodes its value and consumes exactly its bytes, or leaves the codec failed if the bytes end too soon |
| `ErpcShims.ReadExtraFiles` | app/erpc/erpc_PLCObject_server.cpp:111-128 | Decodes its value and consumes exactly its bytes, or leaves the codec failed if the bytes end too soon |
| `ErpcShims.ReadTraceOrder` | app/erpc/erpc_PLCObject_server.cpp:131-141 | Decodes its value and consumes exactly its bytes, or leaves the codec failed if the bytes end too soon |
| `ErpcShims.ReadTraceOrders` | app/erpc/erpc_PLCObject_server.cpp:144-161 | Decodes its value and consumes exactly its bytes, or leaves the codec failed if the bytes end too soon |
| `ErpcShims.ReadTraceSample` | app/erpc/erpc_PLCObject_client.cpp:264-274 | Decodes its value and consumes exactly its bytes, or leaves the codec failed if the bytes end too soon |
| `ErpcShims.ReadTraceSamples` | app/erpc/erpc_PLCObject_client.cpp:293-310 | Decodes its value and consumes exactly its bytes, or leaves the codec failed if the bytes end too soon |
| `ErpcShims.ReadTraceVariables` | app/erpc/erpc_PLCObject_client.cpp:277-290 | Decodes its value and consumes exactly its bytes, or leaves the codec failed if the bytes end too soon |
| `ErpcShims.ReadLogMessage` | app/erpc/erpc_PLCObject_client.cpp:173-201 | Decodes its value and consumes exactly its bytes, or leaves the codec failed if the bytes end too soon |
| `ErpcShims.ReadPskId` | app/erpc/erpc_PLCObject_client.cpp:204-242 | Decodes its value and consumes exactly its bytes, or leaves the codec failed if the bytes end too soon |
| `ErpcShims.ReadPlcStatus` | app/erpc/erpc_PLCObject_client.cpp:245-261 | Decodes its value and consumes exactly its bytes, or leaves the codec failed if the bytes end too soon |
| `WebSocket.BuildFrame` | app/src/plc_http.c:356-409 | The frame is the header for the message's length followed by the message |
| `WebSocket.ReadHeader` | app/src/plc_http.c:430-473 | The header fields, or nothing if the frame is too short for them |
| `WebSocket.Unmask` | app/src/plc_http.c:475-478 | The in-place loop combines each received payload octet with its octet of the key, changes no other octet, and writes behind the received bytes once for each missing one |
| `WebSocket.ParseFrame` | app/src/plc_http.c:428-479 | Header decoding and unmasking of any bytes; no write leaves them if and only if the announced payload was received whole |
| `WebSocket.CutClientFrame` | app/src/plc_http.c:464-479 | Of a client's frame cut short behind its header, the received part is restored and the loop's stray writes are as many as the bytes missing |
| `WebSocket.ShortestHeader` | app/src/plc_http.c:361-406 | By section 5.2 of RFC 6455 the sender's header announces exactly the message's length, and no frame with a shorter header can |
| `WebSocket.HeaderRoundTrip` | app/src/plc_http.c:436-462 | The parser recovers FIN, opcode, masking and payload offset of the sender's frames, and the length if and only if it is at most 65535 |
| `WebSocket.ClientRoundTrip` | app/src/plc_http.c:464-479 | Parsing a client's masked frame recovers its fields, restores its payload, and changes no octet of the header or behind the payload |
| `WebSocket.XorBitsTwice` | app/src/plc_http.c:477 | Masking twice with one key restores the octet |
| `LogSpec.FieldsScanBack` | app/src/plc_rte_log.c:227 | Scanning the printed fields gives back the numbers, whatever text follows |
| `LogSpec.TextFollowsFields` | app/src/plc_rte_log.c:232-239 | Skipping five brackets leads to the text, whatever brackets it contains |
| `LogSpec.LineText` | app/src/plc_rte_log.c:190-195 | A line is the ID, tick, seconds, nanoseconds and level, each in brackets and in this order, and the text |
| `LogSpec.LateMessage` | app/src/plc_rte_log.c:227 | Seconds that do not fit 32 bits are read back as 2^32 - 1, everything else as it was |
| `LogSpec.LineIsRead` | app/src/plc_rte_log.c:224 | A line that fits the buffer is read whole |
| `LogSpec.FindInFile` | app/src/plc_rte_log.c:224-263 | The search finds the id-th message of the level, and nothing if there are not that many |
| `PlcLog.LogMirrorsHistory` | app/src/plc_rte_log.c:172-201 | In every history the file holds the messages since the last reset with per-level IDs 0, 1, 2, … in file order |
| `PlcLog.LogRoundTrip` | app/src/plc_rte_log.c:211-282 | In every history GetLogMessage answers that message's text, tick and time, or 'Message not found!' if and only if the ID was never issued; only before the first message is there no answer |
| `PlcLog.CountsAreUnread` | app/src/plc_rte_log.c:267-271 | The entry counters are the messages issued less the successful reads, modulo 2^32 |
| `PlcLog.LogAnswers` | app/src/plc_rte_log.c:172-201 | LogMessage answers 1 exactly for a valid level, and then moves the ID and the counter of that level only |
| `PlcLog.LogStore.LogMessage` | app/src/plc_rte_log.c:172-201 | Appends one line under the level's next ID and counts it; an invalid level or a file that does not open changes nothing |
| `PlcLog.LogStore.GetLogMessage` | app/src/plc_rte_log.c:211-282 | The loop answers the first matching line and lowers its level's counter |
| `PlcLog.LogStore.ResetLogCount` | app/src/plc_rte_log.c:290-322 | Deletes the log file, if that succeeds, and zeroes every ID and counter |
| `ChunkLoad.File.Read` | app/src/plc_loader.c:443 | A block read takes the next bytes of the file, up to its end |
| `ChunkLoad.ReadModule` | app/src/plc_loader.c:443-451 | No write leaves the buffer, and the whole file is read if and only if it is within reach of the early break |
| `ChunkLoad.LoadFile` | app/src/plc_loader.c:434-460 | check_crc sees exactly the file if it has a header and is within reach, otherwise the part read; for a file shorter than its header the size wraps around |
| `ChunkLoad.EveryFileInReach` | app/src/plc_loader.c:446-450 | Every file smaller than the buffer is within reach exactly for buffers under one block or at most one byte over a whole number of blocks |
| `ChunkLoad.CrcIsOfTheRest` | app/src/plc_loader.c:129-141 | The check passes if and only if the CRC of the bytes behind the header equals the header's second word, least significant byte first |
| `ChunkLoad.FlashStatusMeaning` | app/src/plc_loader.c:765-858 | Each status of the flash command holds exactly when its own stage is the first to fail, by the bytes "UDLM" and the sizes; 0 exactly when all succeed |
| `ChunkLoad.FlashedBlocks` | app/src/plc_loader.c:824-843 | Of a file that does not fit, the header and the whole blocks of 128 bytes that fit reach the flash |
| `ChunkLoad.FlashModule` | app/src/plc_loader.c:779-858 | The status for each failing stage; a file that fits the partition is copied exactly; of one that does not, the header and whole blocks that fit; an invalid header or a partition that fails to open or erase leaves the flash alone |
| `ChunkLoad.FlashRest` | app/src/plc_loader.c:824-843 | The chunk loop |
| `ChunkLoad.WriteFlash` | app/src/plc_loader.c:832 | A write that does not fit is refused whole |

## Left out

- Zephyr, mbedtls, newlib and the eRPC runtime: the ring buffer, semaphores, allocator, file system, digest, CRC, string
  functions and codec calls are modelled by the contracts the code relies on; the codec's primitives are little-endian
  words and counted byte strings.
- The loaded PLC program, register r9 and function-pointer casts: a traced variable is a value of stable size.
- Memory of the linker is one sequence field reassigned at each write, not an array of its own; a symbol name is the bytes
  up to its NUL.
- UdynLink.Machine.LoadModule: does not cover a load of an ill-formed module file, which the code accepts unseen.
- The symbol resolution of load_plc_module after a failed link (app/src/plc_loader.c:511-529): its guard is always true, so
  it does not separate the cases.
- RingBuffers.RingBuffer.PutClaim: a claim that is not finished is not part of the ring state. The one a refused publish
  makes (app/src/plc_debug.c:237-242) stays open in the code, so that a later publish would start behind it;
  `TraceSpec.RefusalLeavesNoClaim` says when it is empty.
- PlcDebug.RecordsFollowList: for that reason starts from a ring without an open claim.
- The waiting loops of GetTraceVariables and SetTraceVariablesList: the former is one pass, answering "wait"; the latter is
  a step of the protocol model only.
- PlcTracer.Tracer.SetTraceVariablesList: does not model forcing, set_trace and trace_reset, which act inside the PLC
  program.
- PlcTracer.Tracer.GetTraceVariables: does not model a failed allocation of a sample, after which the loop would take the
  same block again.
- TraceSpec.FifoRoundTrip: does not cover a publish that finds a short, non-empty claim while samples are queued, or an
  unreadable variable, because both break the framing; `TraceSpec.RoomCostsOldest` and
  `PlcDebug.RecordsFollowList` say what they cost.
- UploadSpec.Destination: does not model the 48-byte buffer the code builds the path in (app/src/plc_rpc.c:679-703).
- UploadResults.UploadIntegrity: does not cover failing file operations, or histories on whose strings the digest collides.
- PlcUpload.Uploads.ReceivePlc: does not model an ID longer than the digest, which the code compares past the end of it.
- ErpcShims: NULL arguments, failed allocations and freeing are not modelled; a failed read leaves its value unspecified.
- WebSocket.ParseFrame: counts the writes behind the received bytes but does not model the memory they hit, and nothing
  after the unmasking.
- WebSocket.Unmask: the same.
- LogSpec.FieldsScanBack: scanning is modelled for digits without a sign, which LogMessage never writes for a message
  that fits; `LogSpec.Stored` clamps a number too large for 32 bits.
- PlcLog.LogStore.ResetLogCount: does not model the log's state file (SaveLogState, LoadLogState).
- ChunkLoad.LoadFile: for a file shorter than its own header, says how many bytes the CRC check is asked for, not what
  they hold.
- ChunkLoad.FlashModule: does not model write alignment or a flash device that fails while writing.
- ChunkLoad.FlashRest: the same.
- ChunkLoad.WriteFlash: the same.
- plc_time_rtc.c, plc_io.c, plc_settings.c, plc_util.c, plc_filesys.c, plc_network.c, plc_usb.c, plc_cli.c, main.c, HTTP
  file serving, eRPC dispatch, boards and build files: input and output, configuration, or one-branch forwarding.
