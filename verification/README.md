# Verification of the emulator's memory layer, shader back ends and small protocols

A Dafny model of the parts of SharpEmu and of the FEX test tooling where a mistake is hard to see: the
guest write tracker, the POSIX region table, static and dynamic thread-local storage, the integer part of
the Metal shader translator, the SPIR-V module builder, command-line quoting, the one-time initialisation
guards, the shutdown hand-off, the chunked string read, the binary test configuration and the updater.

`dafny verify dfyconfig.toml` checks everything. `Words.dfy`, `Bits.dfy` and `LittleEndian.dfy` hold the
word arithmetic the rest is built on.

Code that changes state step by step is written as classes and methods with loops, each proved equal to a
pure step or specification function. What the code is for is then proved of those functions, for every
input, every run or every interleaving, in terms a caller knows: bytes and pages asked for, instructions read
back, numbers meant. Where a promised property does not hold of the code, the model
keeps the code as it is. The failing input is a lemma, and a second lemma says exactly when the property
holds.

| files | component |
|---|---|
| `WriteTrackingModel`, `WriteTrackingSafety`, `WriteTrackingGenerations`, `WriteTrackingBytes`, `GuestImageWriteTracker` | write protection behind GPU images: range objects, published snapshot, fault handler |
| `HostMemoryModel`, `HostMemoryRequests`, `HostMemory` | reserved and committed host memory on POSIX: sorted regions with sparse overrides |
| `GuestTlsLayout`, `GuestTlsModel`, `GuestTlsTemplate` | TLS variant II layout and the dynamic thread vectors (section 3 of "ELF Handling For Thread-Local Storage") |
| `Gen5Isa`, `MetalTarget`, `MetalEmission`, `Metal*` | integer instructions, their meaning on a 32-lane wave, the emitted statements and their meaning |
| `SpirvWords`, `SpirvModel`, `SpirvProperties`, `SpirvLayout`, `SpirvModuleBuilder` | SPIR-V modules (sections 2.2.1, 2.3, 2.4 and 2.8 of the SPIR-V Specification) |
| `CommandLine` | both copies of the argument quoter, and the C runtime's argument parser |
| `GuardModel`, `CxxGuards` | `__cxa_guard_*` (section 3.3.2 of the Itanium C++ ABI) |
| `HostSession`, `CpuContext` | shutdown hand-off; string read from guest memory |
| `TestConfigModel`, `TestConfig` | the FEX test configuration file and its hexadecimal data |
| `Updater` | applying an update with rollback |

In the Metal part, a `Wave` is what the instruction set sees (one scalar file and condition bit, a vector
file per lane) and a `Machine` is what the generated shader sees (a private copy of everything in each
lane). `Relates` says that the lanes represent the wave. `Accepted` lists the instructions covered,
`Sound` is the condition under which the code emitted for one is right, and `SoundRun` asks that of every
step of a run. `Gen5Isa` gives the meaning of the instructions in unbounded arithmetic or bit by bit,
after the AMD RDNA Instruction Set Architecture guide, and not from the emitted text. Where the text reads
an operand otherwise than the guide, `Rendered` is what it reads: `Sound` asks that both readings come to
the same through the instruction (`ReadAlike` is a check of the operand and two registers that is enough)
and that the condition of the opcode holds.

## Model

| member | source | states |
|---|---|---|
| GuestImageWriteTracker.Expand | desktop/src/SharpEmu.HLE/GuestImageWriteTracker.cs:412-433 | the growing loop of the fault handler ends, and the interval it ends with encloses every range it meets |
| GuestImageWriteTracker.Tracker.FaultHull | desktop/src/SharpEmu.HLE/GuestImageWriteTracker.cs:386-436 | the loops find a hull exactly when some range holds the fault, and it is the least interval around all ranges reachable from the fault by chains of overlaps |
| GuestImageWriteTracker.Tracker.TryHandleWriteFault | desktop/src/SharpEmu.HLE/GuestImageWriteTracker.cs:379-488 | over the dictionary of range objects and the snapshot, one handler call is one fault step |
| GuestImageWriteTracker.Tracker.NotifyManagedWrite | desktop/src/SharpEmu.HLE/GuestImageWriteTracker.cs:320-352 | rejecting by the snapshot's bounds and stopping where the next page would wrap lose nothing: the call equals faulting on every page of the span |
| GuestImageWriteTracker.Tracker.Track | desktop/src/SharpEmu.HLE/GuestImageWriteTracker.cs:137-203 | tracking, with a fresh object when the size changes, is one track step, and the snapshot stays in agreement with the dictionary |
| GuestImageWriteTracker.Tracker.Untrack | desktop/src/SharpEmu.HLE/GuestImageWriteTracker.cs:205-221 | untracking is one untrack step |
| GuestImageWriteTracker.Tracker.ConsumeDirty | desktop/src/SharpEmu.HLE/GuestImageWriteTracker.cs:228-245 | reading and clearing the dirty mark is one consume step |
| GuestImageWriteTracker.Tracker.Rearm | desktop/src/SharpEmu.HLE/GuestImageWriteTracker.cs:271-285 | rearming is one arm step |
| WriteTrackingModel.HullIsUnion | desktop/src/SharpEmu.HLE/GuestImageWriteTracker.cs:386-436 | the hull has no gaps: an address lies in it exactly when a reached range holds it |
| WriteTrackingModel.MeetsHullIffReachable | desktop/src/SharpEmu.HLE/GuestImageWriteTracker.cs:441-485 | a range that can hold a byte is dirtied exactly when a chain of overlaps leads to it |
| WriteTrackingModel.HollowMeetsHullIff | desktop/src/SharpEmu.HLE/GuestImageWriteTracker.cs:441-485 | a range whose end wrapped is dirtied exactly when reached ranges hold its start and the byte below its end |
| WriteTrackingSafety.HandledFaultEffect | desktop/src/SharpEmu.HLE/GuestImageWriteTracker.cs:379-488 | the whole effect of a handled fault: exactly the pages of the reached ranges become writable, and exactly the reached and the hollow ranges between them are dirtied, disarmed and counted |
| WriteTrackingSafety.HollowRangeIsDirtied | desktop/src/SharpEmu.HLE/GuestImageWriteTracker.cs:540-546 | an input for which a range without a byte is armed and then dirtied |
| WriteTrackingSafety.RetireKeepsOwnersIff | desktop/src/SharpEmu.HLE/GuestImageWriteTracker.cs:205-221 | untracking leaves every read-only page with an armed owner exactly when the range was not armed, the kernel granted the unprotect, or other armed ranges hold its pages |
| WriteTrackingSafety.ResizeKeepsOwnersIff | desktop/src/SharpEmu.HLE/GuestImageWriteTracker.cs:137-203 | the same for a resize, where the new range may take the pages over |
| WriteTrackingSafety.RefusedUnprotectOrphansPage | desktop/src/SharpEmu.HLE/GuestImageWriteTracker.cs:517-533 | an input for which a page stays read-only for ever and no later fault on it is resolved |
| WriteTrackingSafety.RunOwnedIff | desktop/src/SharpEmu.HLE/GuestImageWriteTracker.cs:137-533 | in every run, each read-only page has an armed owner after every step exactly when every retired range met that condition |
| WriteTrackingSafety.ProtectedFaultResolved | desktop/src/SharpEmu.HLE/GuestImageWriteTracker.cs:379-488 | a write fault on a protected page is resolved by one handler call, except at address 0 |
| WriteTrackingSafety.ManagedWriteIsPrepared | desktop/src/SharpEmu.HLE/GuestImageWriteTracker.cs:320-352 | after the pre-visit no page of the written span is read-only, exactly unless the span starts at address 0 over a protected page |
| WriteTrackingSafety.AddressZeroIsNotHandled | desktop/src/SharpEmu.HLE/GuestImageWriteTracker.cs:320-488 | a run after which page 0 is read-only, and neither a fault at address 0 nor the pre-visit of a write there gives it back |
| WriteTrackingGenerations.RetireKeepsProtectionIff | desktop/src/SharpEmu.HLE/GuestImageWriteTracker.cs:517-533 | untracking leaves the other armed ranges write-protected exactly when it unprotects nothing they share |
| WriteTrackingGenerations.ResizeKeepsProtectionIff | desktop/src/SharpEmu.HLE/GuestImageWriteTracker.cs:137-203 | the same for a resize, read off the ranges and the kernel's answers before the call |
| WriteTrackingGenerations.RunProtectedIff | desktop/src/SharpEmu.HLE/GuestImageWriteTracker.cs:137-533 | in every run, whatever the kernel refuses, an armed range has all its pages read-only after every step exactly when no step unprotects a page that another armed range shares |
| WriteTrackingGenerations.NeighbourIsUnprotected | desktop/src/SharpEmu.HLE/GuestImageWriteTracker.cs:517-533 | a run after which a range is armed and its page writable, because a neighbour was untracked |
| WriteTrackingGenerations.StoreIsSeen | desktop/src/SharpEmu.HLE/GuestImageWriteTracker.cs:456-485 | no store into an armed range lands before the range is dirty, disarmed and one generation on |
| WriteTrackingGenerations.GenerationCountsWrites | desktop/src/SharpEmu.HLE/GuestImageWriteTracker.cs:137-203 | over a run, across resizes, the generation advances by exactly the arm periods a write ended, and every arm period is accounted for |
| WriteTrackingBytes.RangeCoversIff | desktop/src/SharpEmu.HLE/GuestImageWriteTracker.cs:540-546 | a range holds every byte asked for exactly when the bytes and one page fit below 2^64, and then each byte it holds shares a page with one asked for |
| WriteTrackingBytes.TrackEffect | desktop/src/SharpEmu.HLE/GuestImageWriteTracker.cs:137-203 | after tracking [a, a + n) the range holds those bytes, is armed exactly when it was or the kernel protects the pages that hold them, keeps its mark when its size is unchanged and its generation always; no other range changes |
| WriteTrackingBytes.TrackPages | desktop/src/SharpEmu.HLE/GuestImageWriteTracker.cs:137-203 | exactly the pages that hold a byte of [a, a + n) become read-only, and only a resized range's own pages are given back |
| WriteTrackingBytes.TrackedBytesAreProtected | desktop/src/SharpEmu.HLE/GuestImageWriteTracker.cs:137-203 | after a granted request every byte asked for lies in an armed range and on a read-only page |
| WriteTrackingBytes.TrackedStoreIsSeen | desktop/src/SharpEmu.HLE/GuestImageWriteTracker.cs:379-488 | in every run that keeps neighbours' pages, a store to any byte of [a, a + n) of an armed range lands only with the range disarmed, marked and one generation on, and the next reading of the mark answers yes |
| WriteTrackingBytes.StoreLandsIff | desktop/src/SharpEmu.HLE/GuestImageWriteTracker.cs:379-488 | a store lands exactly when its page is writable in the end, and where it always was, changes nothing |
| WriteTrackingBytes.FaultHandledIff | desktop/src/SharpEmu.HLE/GuestImageWriteTracker.cs:379-488 | exactly when a fault is handled: not at address 0, inside some range, and with the kernel's leave if an armed range is dirtied |
| WriteTrackingBytes.ManagedWriteTouches | desktop/src/SharpEmu.HLE/GuestImageWriteTracker.cs:320-352 | the pre-visit changes a range only if a fault at the start of the write, or at the start of a page that holds one of its bytes, would reach it |
| WriteTrackingBytes.RearmEffect | desktop/src/SharpEmu.HLE/GuestImageWriteTracker.cs:271-285 | rearming arms exactly when the kernel protects the pages of the bytes, and changes nothing else |
| WriteTrackingBytes.UntrackEffect | desktop/src/SharpEmu.HLE/GuestImageWriteTracker.cs:205-221 | untracking forgets the range, leaves the others alone and gives exactly its pages back, when it was armed and the kernel agrees |
| WriteTrackingBytes.ConsumeEffect | desktop/src/SharpEmu.HLE/GuestImageWriteTracker.cs:228-245 | the answer is the mark, only the mark is cleared, and the next call answers no |
| WriteTrackingBytes.MarkUntilRead | desktop/src/SharpEmu.HLE/GuestImageWriteTracker.cs:228-245 | in every run a mark stays until it is read, and none appears without a write |
| HostMemory.Posix.TryFindRegion | desktop/src/SharpEmu.HLE/HostMemory.cs:408-437 | the binary search finds a region exactly when one holds the page, and then that one |
| HostMemory.Posix.OverlapsTrackedRegion | desktop/src/SharpEmu.HLE/HostMemory.cs:394-406 | the scan answers whether the span, whose end may wrap, meets a region |
| HostMemory.Posix.Alloc | desktop/src/SharpEmu.HLE/HostMemory.cs:163-265 | reserve and commit on the region list are the steps on a plain page map, with regions sorted and disjoint and overrides sparse |
| HostMemory.Posix.Free | desktop/src/SharpEmu.HLE/HostMemory.cs:267-282 | freeing forgets exactly the pages of the region based at the address, whatever munmap answers |
| HostMemory.Posix.Protect | desktop/src/SharpEmu.HLE/HostMemory.cs:284-311 | protecting is the step on the page map, and the old protection is that of the first page |
| HostMemory.Posix.Query | desktop/src/SharpEmu.HLE/HostMemory.cs:313-392 | on a tracked page the maximal run of equal allocation and protection, as a page-by-page walk finds it; on any other a free block up to the next region |
| HostMemoryModel.ProtectIsExact | desktop/src/SharpEmu.HLE/HostMemory.cs:284-311 | a successful protect changes exactly the requested pages, and one that wraps at most its own first page |
| HostMemoryModel.ProtectOverflowsIff | desktop/src/SharpEmu.HLE/HostMemory.cs:284-311 | protecting throws, and changes nothing, exactly when the end of the span lies in the last page of the address space |
| HostMemoryModel.ProtectRejectsTopPage | desktop/src/SharpEmu.HLE/HostMemory.cs:284-311 | an input the checked rounding rejects: the highest page a region can end in |
| HostMemoryModel.AllocOverflowsIff | desktop/src/SharpEmu.HLE/HostMemory.cs:163-265 | allocating throws, and changes nothing, exactly when the size reaches into the last page, or the end of a commit of tracked memory does |
| HostMemoryModel.RefusedFreeKeepsIff | desktop/src/SharpEmu.HLE/HostMemory.cs:267-282 | a release that answers false leaves the regions as they were exactly when the address is no region's base or the kernel unmapped the region |
| HostMemoryModel.RefusedFreeForgets | desktop/src/SharpEmu.HLE/HostMemory.cs:267-282 | an input for which a refused unmap forgets the region |
| HostMemoryModel.CommitIsExactIff | desktop/src/SharpEmu.HLE/HostMemory.cs:163-265 | a commit changes exactly the requested pages precisely when the address is aligned, rounding the size first reaches no further page, or that page would not change |
| HostMemoryModel.CommitChangesFurtherPage | desktop/src/SharpEmu.HLE/HostMemory.cs:163-265 | an input for which committing half a page changes the next page too |
| HostMemoryModel.SetRangeRefines | desktop/src/SharpEmu.HLE/HostMemory.cs:439-461 | changing a range of one region changes those pages of the map and leaves no redundant override |
| HostMemoryModel.ScanVisitsEveryRegion | desktop/src/SharpEmu.HLE/HostMemory.cs:313-392 | a scan that advances by the reported size stops at the base of every region above where it starts |
| HostMemoryModel.TableScanVisits | desktop/src/SharpEmu.HLE/HostMemory.cs:313-392 | so does a scan of a region list, which is what the queries walk |
| HostMemoryRequests.ReserveReturns | desktop/src/SharpEmu.HLE/HostMemory.cs:163-265 | a reserving request returns a place exactly when it has the reserve bit, the place asked for meets no region and the host maps it there; otherwise it returns 0 and changes nothing |
| HostMemoryRequests.ReserveEffect | desktop/src/SharpEmu.HLE/HostMemory.cs:163-265 | exactly the pages that hold a byte of the place are new, as one allocation with the protection asked for, and every other page is as it was |
| HostMemoryRequests.OverlapsIff | desktop/src/SharpEmu.HLE/HostMemory.cs:394-406 | the overlap test is that a tracked page meets the span, or for a span that wraps, that one region holds its start and begins below its end |
| HostMemoryRequests.CommitReturns | desktop/src/SharpEmu.HLE/HostMemory.cs:163-265 | a commit that does not throw succeeds exactly when the host grants it and the rounded request does not wrap; otherwise nothing changes |
| HostMemoryRequests.FreeEffect | desktop/src/SharpEmu.HLE/HostMemory.cs:267-282 | a release of a base answers what the host does and removes exactly that allocation's pages; any other answers no and changes nothing |
| HostMemoryRequests.ProtectReturns | desktop/src/SharpEmu.HLE/HostMemory.cs:284-311 | exactly when a protect that does not throw succeeds, and that it changes nothing otherwise |
| HostMemoryRequests.FreeBlockIs | desktop/src/SharpEmu.HLE/HostMemory.cs:313-392 | an untracked page is reported as free up to the next tracked page, or alone when there is none |
| HostMemoryModel.AllocationProtectKeptIff | desktop/src/SharpEmu.HLE/HostMemory.cs:439-461 | the protection reported for the allocation survives a change exactly when the change is not of the whole region or sets that value |
| HostMemoryModel.AllocationProtectChanges | desktop/src/SharpEmu.HLE/HostMemory.cs:439-461 | an input for which it does not |
| GuestTlsLayout.StaticOffsetIsLeast | desktop/src/SharpEmu.HLE/GuestTlsTemplate.cs:410-418 | the offset leaves room for the block, has the alignment's congruence, and is the least that does |
| GuestTlsLayout.CongruentIff | desktop/src/SharpEmu.HLE/GuestTlsTemplate.cs:410-418 | the congruence computed by masks says that the alignment divides offset plus bias |
| GuestTlsLayout.RegisterAllKeepsLayout | desktop/src/SharpEmu.HLE/GuestTlsTemplate.cs:130-194 | after any sequence of registrations the blocks are pairwise disjoint and fit the reservation |
| GuestTlsLayout.RegisterTrichotomy | desktop/src/SharpEmu.HLE/GuestTlsTemplate.cs:130-194 | a registration is rejected without effect, repeats one without effect, or adds one module at the top |
| GuestTlsLayout.RegisterStores | desktop/src/SharpEmu.HLE/GuestTlsTemplate.cs:130-194 | an accepted request is stored with its image, size, bias and alignment, and the other modules stay as they were |
| GuestTlsLayout.RegisterAcceptedIff | desktop/src/SharpEmu.HLE/GuestTlsTemplate.cs:130-194 | a first registration is accepted exactly when its numbers are legal and some admissible offset lies in the 64 KiB reservation, and is answered with the least one |
| GuestTlsLayout.RegisterRepeatedIff | desktop/src/SharpEmu.HLE/GuestTlsTemplate.cs:154-165 | a repeated registration is accepted exactly when every field equals the stored one, and nothing changes |
| GuestTlsLayout.RegisterErrors | desktop/src/SharpEmu.HLE/GuestTlsTemplate.cs:130-194 | which number a rejected registration is blamed on |
| GuestTlsLayout.RegisterAllKeepsMaximum | desktop/src/SharpEmu.HLE/GuestTlsTemplate.cs:186-186 | after any registrations the recorded alignment is the greatest of all modules, or 1 |
| GuestTlsModel.AlignUpIsMask | desktop/src/SharpEmu.HLE/GuestTlsTemplate.cs:404-408 | rounding up by a mask cuts the remainder off, for a power of two |
| GuestTlsModel.CreateDynamicBlock | desktop/src/SharpEmu.HLE/GuestTlsTemplate.cs:328-350 | a fresh aligned host block that reads as the image followed by zeros, or nothing changed |
| GuestTlsModel.FreeDynamicEntries | desktop/src/SharpEmu.HLE/GuestTlsTemplate.cs:352-367 | frees exactly the thread's blocks, each of them live when it is freed |
| GuestTlsModel.BuildTable | desktop/src/SharpEmu.HLE/GuestTlsTemplate.cs:369-402 | a new table holds the generation, the slot count and one slot for each entry |
| GuestTlsTemplate.Template.RegisterModule | desktop/src/SharpEmu.HLE/GuestTlsTemplate.cs:130-194 | the class's registration is the layout's |
| GuestTlsTemplate.Template.CreateStaticOrDynamicEntry | desktop/src/SharpEmu.HLE/GuestTlsTemplate.cs:309-326 | the block is seeded in place when it can be written and in a host block otherwise, and nothing outside the module's own bytes changes |
| GuestTlsTemplate.Template.SeedThreadBlock | desktop/src/SharpEmu.HLE/GuestTlsTemplate.cs:234-257 | every module's block reads as its image then zeros, later modules clobber none, and the table lists them all |
| GuestTlsTemplate.Template.RebuildGuestDtv | desktop/src/SharpEmu.HLE/GuestTlsTemplate.cs:369-402 | on success the control block's pointer word decodes to a table that holds every entry at the current generation, and no image moved; on failure nothing changed and the reason is named |
| GuestTlsTemplate.InstalledWords | desktop/src/SharpEmu.HLE/GuestTlsTemplate.cs:369-402 | in an installed table the first word is the generation, the second the greatest module id, and the word after id others the address of module id's block |
| GuestTlsTemplate.RegisterThenSeed | desktop/src/SharpEmu.HLE/GuestTlsTemplate.cs:130-257 | after a registration and a successful seeding, byte k of the module's block is byte k of the image that was registered, and zero behind it |
| GuestTlsTemplate.Template.ResolveAddress | desktop/src/SharpEmu.HLE/GuestTlsTemplate.cs:263-307 | the address is the entry's plus the offset, entries are never moved, and each slot of the table is right exactly unless it was stuck before a lookup with nothing to rebuild; failures are explained |
| GuestTlsTemplate.SlotHoldsIff | desktop/src/SharpEmu.HLE/GuestTlsTemplate.cs:263-307 | in a current table the slot of an entry is right exactly when the table was built after the entry was added |
| GuestTlsTemplate.StuckRun | desktop/src/SharpEmu.HLE/GuestTlsTemplate.cs:263-307 | a run, with a host that has room, in which a lookup succeeds while its slot in the guest's table is wrong, because the lookup before it could not install its table |
| GuestTlsTemplate.Template.DropThread | desktop/src/SharpEmu.HLE/GuestTlsTemplate.cs:234-257 | reseeding a thread frees its blocks once and leaves the other threads alone |
| GuestTlsTemplate.Template.Reset | desktop/src/SharpEmu.HLE/GuestTlsTemplate.cs:213-228 | forgets all modules and threads and leaves no host block live |
| MetalTranslation.TranslationPreservesMeaning | desktop/src/SharpEmu.ShaderCompiler.Metal/Gen5MslTranslator.Alu.cs:49-1433 | for straight-line programs of any length, from entry, the emitted code ends in lanes that represent the wave the instructions reach, in every run whose steps meet their conditions |
| MetalTranslation.ProgramRelates | desktop/src/SharpEmu.ShaderCompiler.Metal/Gen5MslTranslator.Alu.cs:49-1433 | the same from any lanes that represent a wave |
| MetalTranslation.StepEmits | desktop/src/SharpEmu.ShaderCompiler.Metal/Gen5MslTranslator.Alu.cs:49-1433 | what the code of one instruction does to the wave, right or wrong |
| MetalTranslation.EntryRelates | desktop/src/SharpEmu.ShaderCompiler.Metal/Gen5MslTranslator.cs:895-1013 | after the entry code the register file and the cached masks agree in every lane |
| MetalFlaws.StepSoundIff | desktop/src/SharpEmu.ShaderCompiler.Metal/Gen5MslTranslator.Alu.cs:49-1433 | the code of any accepted instruction reaches the wave the instruction reaches exactly when its operands, as the text reads them, come to the same through the instruction and the condition of its opcode on registers and operands holds |
| MetalReadings.EmittedSoundIff | desktop/src/SharpEmu.ShaderCompiler.Metal/Gen5MslTranslator.Alu.cs:49-1531 | the same of the wave the emitted code reaches, with one condition on both at once for a carry into EXEC and a shifted addition |
| MetalReadings.NeverCancels | desktop/src/SharpEmu.ShaderCompiler.Metal/Gen5MslTranslator.Alu.cs:49-1531 | for every other instruction, code that is right had the condition of its opcode met: a misread operand never makes up for a flaw |
| MetalReadings.AlikeExecutes | desktop/src/SharpEmu.ShaderCompiler.Metal/Gen5MslTranslator.cs:1880-1917 | an instruction does the same on either reading of its operands when no status bit of a mask is read with only the upper half of that mask set, no 64-bit operand is a floating-point constant, and no signed extract reaches above a negative literal |
| MetalReadings.MisreadShows | desktop/src/SharpEmu.ShaderCompiler.Metal/Gen5MslTranslator.Alu.cs:1512-1531 | that condition is exact for scalar moves, complements, reversals and counts, sums and differences with one operand misread, vector moves with an enabled lane, 64-bit moves and complements, and signed extracts of a literal |
| MetalEmission.EmitRendered | desktop/src/SharpEmu.ShaderCompiler.Metal/Gen5MslTranslator.cs:1880-1917 | an instruction and the same one with its operands as the text reads them are emitted alike |
| MetalFlaws.StatusBitFails | desktop/src/SharpEmu.ShaderCompiler.Metal/Gen5MslTranslator.cs:1880-1917 | waves in which VCCZ or EXECZ is read as 0 although the mask's lanes are all off |
| MetalFlaws.MoveMisread | desktop/src/SharpEmu.ShaderCompiler.Metal/Gen5MslTranslator.cs:1880-1917 | a move of VCCZ or EXECZ is right exactly unless the mask's low half is zero and its upper half is not |
| MetalFlaws.WideOperandFails | desktop/src/SharpEmu.ShaderCompiler.Metal/Gen5MslTranslator.Alu.cs:1512-1531 | in every wave, a 64-bit move of 1.0 stores the single, and a signed extract of a whole negative literal is not negative |
| MetalFlaws.PairToNullFails | desktop/src/SharpEmu.ShaderCompiler.Metal/Gen5MslTranslator.Alu.cs:1290-1433 | in every wave with an enabled lane, storing a pair at the null register clears EXEC |
| MetalEmitted.SccSoundIff | desktop/src/SharpEmu.ShaderCompiler.Metal/Gen5MslTranslator.Alu.cs:920-1433 | for each scalar opcode, the condition bit comes out right exactly when the operands and the old bit say so |
| MetalEmitted.Mul24Iff | desktop/src/SharpEmu.ShaderCompiler.Metal/Gen5MslTranslator.Alu.cs:214-217 | the full product is the 24-bit one exactly when the dropped high bytes contribute nothing |
| MetalFlaws.UnaryConditionFails | desktop/src/SharpEmu.ShaderCompiler.Metal/Gen5MslTranslator.Alu.cs:1003-1217 | inputs for which bit reversal and find-first overwrite the condition bit they should keep |
| MetalFlaws.AddConstantFails | desktop/src/SharpEmu.ShaderCompiler.Metal/Gen5MslTranslator.Alu.cs:920-943 | an input for which adding a constant keeps a condition bit it should clear |
| MetalFlaws.ShiftedAddFails | desktop/src/SharpEmu.ShaderCompiler.Metal/Gen5MslTranslator.Alu.cs:1003-1217 | an input for which a shifted addition keeps a condition bit it should clear |
| MetalFlaws.FieldMaskFails | desktop/src/SharpEmu.ShaderCompiler.Metal/Gen5MslTranslator.Alu.cs:1290-1433 | an input for which building a field mask clears the condition bit it should keep |
| MetalFlaws.CompareConstantFails | desktop/src/SharpEmu.ShaderCompiler.Metal/Gen5MslTranslator.Alu.cs:920-943 | an input for which an unsigned compare with a 16-bit constant sees a sign-extended one |
| MetalFlaws.MaskStoreFails | desktop/src/SharpEmu.ShaderCompiler.Metal/Gen5MslTranslator.Alu.cs:729-807 | inputs for which storing a lane mask clears a live register, VCC or EXEC above it |
| MetalFlaws.CarryToExecFails | desktop/src/SharpEmu.ShaderCompiler.Metal/Gen5MslTranslator.Alu.cs:313-373 | an input for which a carry into EXEC keeps the sum from the lanes it disables |
| MetalFlaws.SelectByteFails | desktop/src/SharpEmu.ShaderCompiler.Metal/Gen5MslTranslator.Alu.cs:117-128 | an input for which a select into one byte overwrites the whole register |
| MetalFlaws.Multiply24Fails | desktop/src/SharpEmu.ShaderCompiler.Metal/Gen5MslTranslator.Alu.cs:214-217 | an input for which the 24-bit multiplication yields a product of more bits |
| MetalFlaws.ExtractDefinedIff | desktop/src/SharpEmu.ShaderCompiler.Metal/Gen5MslTranslator.Alu.cs:207-299 | a bit-field extract is its field, whatever the undefined value is, exactly when the field lies in the word |
| MetalFlaws.ExtractOutside | desktop/src/SharpEmu.ShaderCompiler.Metal/Gen5MslTranslator.Alu.cs:207-299 | an input whose extract asks for bits the word does not have |
| MetalFlaws.SteadyTranslation | desktop/src/SharpEmu.ShaderCompiler.Metal/Gen5MslTranslator.Alu.cs:49-1433 | a class of programs, told by the opcodes, destinations and constants alone, is translated right with nothing asked of the run |
| MetalChains.ChainComputes | desktop/src/SharpEmu.ShaderCompiler.Metal/Gen5MslTranslator.Alu.cs:313-373 | in each enabled lane, n carried additions or subtractions compute the n-limb sum or difference and the final carry or borrow |
| MetalChains.EmittedChainComputes | desktop/src/SharpEmu.ShaderCompiler.Metal/Gen5MslTranslator.Alu.cs:313-373 | so does the emitted code |
| MetalChains.ScalarChainComputes | desktop/src/SharpEmu.ShaderCompiler.Metal/Gen5MslTranslator.Alu.cs:1048-1157 | the same for scalar chains through the condition bit |
| MetalChains.EmittedScalarChainComputes | desktop/src/SharpEmu.ShaderCompiler.Metal/Gen5MslTranslator.Alu.cs:1048-1157 | so does the emitted code, in every lane |
| MetalChains.MbcntCounts | desktop/src/SharpEmu.ShaderCompiler.Metal/Gen5MslTranslator.Alu.cs:207-299 | the high prefix count applied to the low one counts the bits of a 64-bit mask below the lane, for all 64 lanes |
| MetalChains.EmittedMbcntCounts | desktop/src/SharpEmu.ShaderCompiler.Metal/Gen5MslTranslator.Alu.cs:207-299 | so do the emitted expressions, on either wave size |
| Metal64Meaning.WholeQuadsByMultiplication | desktop/src/SharpEmu.ShaderCompiler.Metal/Gen5MslTranslator.Alu.cs:1343-1360 | gathering the bits of each group of four and multiplying by fifteen is whole-quad mode |
| Metal64Meaning.SignExtendByXor | desktop/src/SharpEmu.ShaderCompiler.Metal/Gen5MslTranslator.Alu.cs:1361-1389 | exclusive-or and subtraction of the sign bit sign-extend a field of any width |
| MetalVectorSimulation.StoreResultRelates | desktop/src/SharpEmu.ShaderCompiler.Metal/Gen5MslTranslator.Alu.cs:531-566 | the destination masks and shifts merge a byte or half into the register as the instruction asks |
| MetalValues.MoveOfInteger | desktop/src/SharpEmu.ShaderCompiler/Gen5InlineConstants.cs:14-30 | for every integer from -16 to 64 at its encoding, the emitted move ends in every lane with that integer in the register |
| MetalValues.WideMoveOfInteger | desktop/src/SharpEmu.ShaderCompiler.Metal/Gen5MslTranslator.Alu.cs:1512-1531 | so does the emitted 64-bit move, in the pair |
| MetalValues.MoveOfConstant | desktop/src/SharpEmu.ShaderCompiler.Metal/Gen5MslTranslator.Alu.cs:920-943 | for every integer from -2^15 to 2^15 - 1 the emitted move of the 16-bit constant ends in every lane with that integer |
| MetalValues.MultiplicationsMean | desktop/src/SharpEmu.ShaderCompiler.Metal/Gen5MslTranslator.Alu.cs:207-299 | the vector multiplications yield the low and high words of the unsigned, signed and 24-bit products |
| MetalValues.CountsMean | desktop/src/SharpEmu.ShaderCompiler.Metal/Gen5MslTranslator.Alu.cs:207-299 | the bit counts are the number of ones in the word, and below the lane, plus the addend |
| MetalValues.VectorsCovered | desktop/src/SharpEmu.ShaderCompiler.Metal/Gen5MslTranslator.Alu.cs:49-410 | every vector and carry opcode on registers is covered |
| MetalValues.LanesCovered | desktop/src/SharpEmu.ShaderCompiler.Metal/Gen5MslTranslator.Alu.cs:49-130 | so are the compares and the lane reads and writes |
| MetalValues.ScalarsCovered | desktop/src/SharpEmu.ShaderCompiler.Metal/Gen5MslTranslator.Alu.cs:905-1433 | so is every scalar opcode |
| MetalValues.OtherScalarsCovered | desktop/src/SharpEmu.ShaderCompiler.Metal/Gen5MslTranslator.Alu.cs:905-1433 | and the unary, constant, 64-bit and compare forms |
| MetalValues.FileSizes | desktop/src/SharpEmu.ShaderCompiler.Metal/Gen5MslTranslator.cs:1876-1877 | a wave has 128 scalar registers and 256 vector registers in each of 32 lanes |
| MetalValues.ConstantsCovered | desktop/src/SharpEmu.ShaderCompiler/Gen5InlineConstants.cs:12-53 | exactly the null, integer, floating-point and status encodings are accepted as constants |
| MetalValues.FloatConstants | desktop/src/SharpEmu.ShaderCompiler/Gen5InlineConstants.cs:32-51 | the encodings 240 to 247 mean 0.5, 1, 2, 4 and their negatives, in single and in double precision |
| MetalValues.InverseOfTwoPi | desktop/src/SharpEmu.ShaderCompiler/Gen5InlineConstants.cs:32-51 | encoding 248 is 1 / (2 pi) within half a unit in the last place in single precision, and within one in double |
| MetalValues.CompareStores | desktop/src/SharpEmu.ShaderCompiler.Metal/Gen5MslTranslator.Alu.cs:666-673 | after the emitted compare, bit l of the SDWA scalar destination, or of VCC without one, is enabled lane l's answer |
| MetalValues.CarryStores | desktop/src/SharpEmu.ShaderCompiler.Metal/Gen5MslTranslator.Alu.cs:715-722 | after an emitted addition or subtraction, bit l of the VOP3 scalar destination, or of VCC without one, is enabled lane l's carry or borrow |
| MetalMeaning.VectorMeaning | desktop/src/SharpEmu.ShaderCompiler.Metal/Gen5MslTranslator.Alu.cs:207-299 | every vector expression computes the value of the opcode it is emitted for, for all operands |
| MetalTranslator.Translator.TryEmit | desktop/src/SharpEmu.ShaderCompiler.Metal/Gen5MslTranslator.Alu.cs:49-1433 | the emitter with its body and temporary counter appends exactly the instruction's statements |
| MetalTranslator.Translator.TryEmitAll | desktop/src/SharpEmu.ShaderCompiler.Metal/Gen5MslTranslator.cs:1803-1820 | a program appends the statements of its instructions in order, with temporaries numbered on |
| SpirvWords.WalkRecoversIff | desktop/src/SharpEmu.ShaderCompiler.Vulkan/SpirvModuleBuilder.cs:851-855 | walking words by their length fields recovers the instructions exactly when each has fewer than 65536 words |
| SpirvWords.LongInstruction | desktop/src/SharpEmu.ShaderCompiler.Vulkan/SpirvModuleBuilder.cs:851-855 | an instruction that does not |
| SpirvWords.StringRoundTripIff | desktop/src/SharpEmu.ShaderCompiler.Vulkan/SpirvModuleBuilder.cs:893-899 | a string literal reads back, with the words after it, exactly when it has no zero byte |
| SpirvWords.ZeroInString | desktop/src/SharpEmu.ShaderCompiler.Vulkan/SpirvModuleBuilder.cs:893-899 | a literal that does not |
| SpirvWords.EntryPointRoundTripIff | desktop/src/SharpEmu.ShaderCompiler.Vulkan/SpirvModuleBuilder.cs:383-398 | an entry point decodes to its model, function, name and interface exactly when its name has no zero byte |
| SpirvModel.RunKeeps | desktop/src/SharpEmu.ShaderCompiler.Vulkan/SpirvModuleBuilder.cs:354-846 | in every run of calls each identifier is defined once below the header's bound, and the dictionaries match the declared instructions |
| SpirvModel.OneDefinition | desktop/src/SharpEmu.ShaderCompiler.Vulkan/SpirvModuleBuilder.cs:354-354 | two definitions of one identifier, in any sections, are the same instruction |
| SpirvProperties.DeclaredOnce | desktop/src/SharpEmu.ShaderCompiler.Vulkan/SpirvModuleBuilder.cs:435-702 | no type or constant but an aggregate is declared twice |
| SpirvProperties.KeysDiffer | desktop/src/SharpEmu.ShaderCompiler.Vulkan/SpirvModuleBuilder.cs:314-350 | the dictionaries are injective |
| SpirvProperties.AppendOrderedIff | desktop/src/SharpEmu.ShaderCompiler.Vulkan/SpirvModuleBuilder.cs:435-702 | types stay declared before use exactly when a new instruction refers to declared identifiers only |
| SpirvProperties.EveryGoodRun | desktop/src/SharpEmu.ShaderCompiler.Vulkan/SpirvModuleBuilder.cs:354-846 | all of this in every run that passes only returned identifiers and asks for constants of their type's width, and any request is then answered by its own declaration |
| SpirvProperties.AnsweredIff | desktop/src/SharpEmu.ShaderCompiler.Vulkan/SpirvModuleBuilder.cs:614-702 | a request is answered by its own declaration exactly when its key was free or taken by the same request |
| SpirvProperties.KeysClashIff | desktop/src/SharpEmu.ShaderCompiler.Vulkan/SpirvModuleBuilder.cs:614-702 | exactly which requests share a key |
| SpirvProperties.NullSharesItsKey | desktop/src/SharpEmu.ShaderCompiler.Vulkan/SpirvModuleBuilder.cs:656-702 | an input for which the null constant is answered by the greatest 64-bit one |
| SpirvProperties.ModuleReadsBackIff | desktop/src/SharpEmu.ShaderCompiler.Vulkan/SpirvModuleBuilder.cs:779-831 | the finished bytes read back as the header and the emitted instructions in section order, exactly when each has fewer than 65536 words |
| SpirvProperties.LongModule | desktop/src/SharpEmu.ShaderCompiler.Vulkan/SpirvModuleBuilder.cs:779-831 | a run of the builder whose module does not |
| SpirvLayout.ModuleIsLaidOut | desktop/src/SharpEmu.ShaderCompiler.Vulkan/SpirvModuleBuilder.cs:779-831 | read back, the finished bytes are the header's five words and then every section as one slice, in the order of the logical layout, with nothing between or beside them |
| SpirvLayout.EmittedIsRead | desktop/src/SharpEmu.ShaderCompiler.Vulkan/SpirvModuleBuilder.cs:354-846 | every instruction a section held at any point of a run is read back, at its place in that section's slice |
| SpirvLayout.ContentDeclares | desktop/src/SharpEmu.ShaderCompiler.Vulkan/SpirvModuleBuilder.cs:435-702 | what is emitted for a request reads, by opcode, as a declaration of that request |
| SpirvLayout.GoodAnswerDeclares | desktop/src/SharpEmu.ShaderCompiler.Vulkan/SpirvModuleBuilder.cs:435-702 | in every good run a request is answered with an identifier that reads as declared for it, an array's length as the 32-bit constant of its count |
| SpirvLayout.GoodRunExample | desktop/src/SharpEmu.ShaderCompiler.Vulkan/SpirvModuleBuilder.cs:354-846 | a run that meets every condition asked of callers |
| SpirvLayout.StructDeclares | desktop/src/SharpEmu.ShaderCompiler.Vulkan/SpirvModuleBuilder.cs:580-588 | a structure reads as declared with its members |
| SpirvLayout.CompositeDeclares | desktop/src/SharpEmu.ShaderCompiler.Vulkan/SpirvModuleBuilder.cs:680-688 | a composite reads as declared with its type and constituents |
| SpirvLayout.VariableDeclares | desktop/src/SharpEmu.ShaderCompiler.Vulkan/SpirvModuleBuilder.cs:704-727 | a variable reads as declared with its pointer type, storage class and initialiser |
| SpirvLayout.ContentUses | desktop/src/SharpEmu.ShaderCompiler.Vulkan/SpirvModuleBuilder.cs:435-702 | a declaration refers to the identifiers its request was made with, and an array to its length |
| SpirvLayout.AggregateUses | desktop/src/SharpEmu.ShaderCompiler.Vulkan/SpirvModuleBuilder.cs:580-727 | a structure, composite or variable refers to exactly the identifiers it names |
| SpirvLayout.StatementsAre | desktop/src/SharpEmu.ShaderCompiler.Vulkan/SpirvModuleBuilder.cs:729-777 | the instructions without a result are the fifteen named ones |
| SpirvLayout.BodyDefines | desktop/src/SharpEmu.ShaderCompiler.Vulkan/SpirvModuleBuilder.cs:729-777 | labels and results define the identifier they are answered with, and statements none |
| SpirvModuleBuilder.FunctionKeysDiffer | desktop/src/SharpEmu.ShaderCompiler.Vulkan/SpirvModuleBuilder.cs:606-621 | the text used as a key tells function types apart |
| SpirvModuleBuilder.StringOperands | desktop/src/SharpEmu.ShaderCompiler.Vulkan/SpirvModuleBuilder.cs:857-891 | the copying loops put the string behind the first operands and the rest behind the string |
| SpirvModuleBuilder.Builder.TypeArray | desktop/src/SharpEmu.ShaderCompiler.Vulkan/SpirvModuleBuilder.cs:553-566 | an array asks for its length constant first and is then one request to the builder |
| SpirvModuleBuilder.Builder.ConstantNull | desktop/src/SharpEmu.ShaderCompiler.Vulkan/SpirvModuleBuilder.cs:690-702 | the dictionary lookup and the declaration are one request to the builder, with the key it shares |
| SpirvModuleBuilder.Builder.AddEntryPoint | desktop/src/SharpEmu.ShaderCompiler.Vulkan/SpirvModuleBuilder.cs:383-398 | appends the entry point's instruction, the one `EntryPointRoundTripIff` reads back |
| SpirvModuleBuilder.Builder.TypeFunction | desktop/src/SharpEmu.ShaderCompiler.Vulkan/SpirvModuleBuilder.cs:605-621 | the dictionary keyed by text answers as one keyed by the function type |
| SpirvModuleBuilder.Builder.Build | desktop/src/SharpEmu.ShaderCompiler.Vulkan/SpirvModuleBuilder.cs:779-831 | the bytes are the header and the sections in order, with a memory model added when there is none |
| CommandLine.TailParses | desktop/src/SharpEmu.GUI/EmulatorProcess.cs:448-507 | the text after the program name parses into exactly the arguments, by either runtime's rule for doubled quotes |
| CommandLine.ArgumentsArriveIff | desktop/src/SharpEmu.GUI/EmulatorProcess.cs:448-507 | the started process sees exactly the arguments exactly when none has a zero |
| CommandLine.ZeroIsCut | desktop/src/SharpEmu.GUI/EmulatorProcess.cs:448-507 | an argument that does not arrive |
| CommandLine.ProgramNameArrivesIff | desktop/src/SharpEmu.GUI/EmulatorProcess.cs:448-507 | the program name arrives exactly when it needs no quotes or does not end in a backslash |
| CommandLine.ProgramNameGains | desktop/src/SharpEmu.GUI/EmulatorProcess.cs:448-507 | a path that gains a backslash |
| EmulatorProcess.QuoteArgument | desktop/src/SharpEmu.GUI/EmulatorProcess.cs:460-507 | the launcher's quoting loop produces the quoted text |
| EmulatorProcess.BuildCommandLine | desktop/src/SharpEmu.GUI/EmulatorProcess.cs:448-458 | the launcher's command line is the quoted path and the tail that `TailParses` reads |
| CommandLineProgram.QuoteArgument | desktop/src/SharpEmu.CLI/Program.cs:966-1024 | the front end's quoting loop produces the same text |
| CommandLineProgram.BuildCommandLine | desktop/src/SharpEmu.CLI/Program.cs:926-937 | the front end's command line is the launcher's |
| GuardModel.RunKeeps | desktop/src/SharpEmu.Libs/CxxAbiExports.cs:41-171 | with each pass, release and abort as one step, in every run at most one thread initialises, the upper 48 bits stay, and the guard is complete exactly when a release succeeded |
| GuardModel.EveryRun | desktop/src/SharpEmu.Libs/CxxAbiExports.cs:41-171 | from any word: in every legal run at most one thread is initialising, the upper 48 bits stay, and the lowest bit is set exactly when some thread has finished |
| GuardModel.NeverAgain | desktop/src/SharpEmu.Libs/CxxAbiExports.cs:41-141 | after the first release no acquire returns 1 |
| GuardModel.AcquireAnswers | desktop/src/SharpEmu.Libs/CxxAbiExports.cs:41-92 | in every reachable state: 1 exactly when nobody has initialised or is initialising and the mark can be written, 0 exactly when somebody has or the caller is, and waiting for another thread alone |
| GuardModel.FinishAnswers | desktop/src/SharpEmu.Libs/CxxAbiExports.cs:109-171 | a release or abort is refused exactly while another thread is initialising; otherwise the release completes the guard exactly when the word can be written, and the abort gives it up |
| GuardModel.PassIsItsAccesses | desktop/src/SharpEmu.Libs/CxxAbiExports.cs:41-92 | the single accesses of a pass nobody interrupts are the acquire step |
| GuardModel.FinishIsItsAccesses | desktop/src/SharpEmu.Libs/CxxAbiExports.cs:109-171 | those of a release or abort are its step |
| GuardModel.NestedPassIsItsAccesses | desktop/src/SharpEmu.Libs/CxxAbiExports.cs:41-92 | a nested acquire by the initialising thread changes nothing |
| GuardModel.MarkedKeptIff | desktop/src/SharpEmu.Libs/CxxAbiExports.cs:158-171 | the word is marked pending exactly while it has an owner, kept by every step exactly unless it is an abort whose write is refused |
| GuardModel.AbortLeavesMark | desktop/src/SharpEmu.Libs/CxxAbiExports.cs:158-171 | a run of an acquire and a refused abort after which the word is pending without an owner |
| GuardModel.MutualExclusion | desktop/src/SharpEmu.Libs/CxxAbiExports.cs:41-171 | with every access a step of its own, any number of threads and any interleaving, at most one thread is initialising |
| GuardModel.InitialisedAgainIff | desktop/src/SharpEmu.Libs/CxxAbiExports.cs:41-92 | a complete guard can be initialised again exactly when a thread read the word before and has not added its entry |
| GuardModel.InitialisedTwice | desktop/src/SharpEmu.Libs/CxxAbiExports.cs:41-92 | an interleaving in which two threads initialise one guard and its complete mark is lost |
| CxxGuards.Guards.AcquirePass | desktop/src/SharpEmu.Libs/CxxAbiExports.cs:41-92 | one pass over the shared dictionary and guest memory is one acquire step of its guard and leaves every other guard alone |
| CxxGuards.Guards.Release | desktop/src/SharpEmu.Libs/CxxAbiExports.cs:109-141 | the same for a release |
| CxxGuards.Guards.Abort | desktop/src/SharpEmu.Libs/CxxAbiExports.cs:158-171 | the same for an abort |
| HostSession.HandOff | desktop/src/SharpEmu.HLE/HostSessionControl.cs:50-88 | in every interleaving of one installation with any number of requests, once all have finished at least one reason was delivered, none twice, only requested ones, and none is left behind |
| HostSession.SingleRequest | desktop/src/SharpEmu.HLE/HostSessionControl.cs:50-88 | a single request is delivered exactly once |
| HostSession.AllDeliveredIff | desktop/src/SharpEmu.HLE/HostSessionControl.cs:50-88 | in every interleaving, once all have finished, every reason was delivered exactly when no request left its reason behind while another one was waiting there |
| HostSession.OneIsLost | desktop/src/SharpEmu.HLE/HostSessionControl.cs:66-88 | an interleaving in which an earlier reason is overwritten and never delivered |
| HostSession.Session.SetShutdownHandler | desktop/src/SharpEmu.HLE/HostSessionControl.cs:50-64 | installing, with turns of other threads between its accesses, is a run of the model after which the installer has finished; clearing drops the handler and a waiting reason |
| HostSession.Session.RequestShutdown | desktop/src/SharpEmu.HLE/HostSessionControl.cs:66-88 | a request, with turns of other threads between its accesses, is a run of the model after which that request has finished |
| CpuContext.TryReadNullTerminatedUtf8 | desktop/src/SharpEmu.HLE/CpuContext.cs:240-305 | the chunked read with its fallback answers what a byte loop answers, for every address and capacity |
| CpuContext.ReadStringIff | desktop/src/SharpEmu.HLE/CpuContext.cs:240-305 | a string is the answer exactly when its bytes are nonzero, can be read one after the other and end before a zero byte or fill the capacity |
| TestConfigModel.ConfigReadsBackIff | fex-emu/Scripts/json_config_parse.py:323-392 | following the header's four offset and count pairs recovers everything that was written exactly when no environment string has a zero byte |
| TestConfigModel.WritesIff | fex-emu/Scripts/json_config_parse.py:323-392 | writing succeeds exactly when every option, address, size, key and value is below its field's power of two, the environment starts below 2^32 and it has fewer than 2^32 variables |
| TestConfigModel.EnvironmentReadsBackIff | fex-emu/Source/Tools/CommonTools/HarnessHelpers.h:103-115 | the reader's loop over environment strings recovers them exactly when none has a zero byte |
| TestConfig.WriteConfig | fex-emu/Scripts/json_config_parse.py:323-392 | the script's loops and running offset write the specified file |
| LittleEndian.EncodeAt | fex-emu/Scripts/json_config_parse.py:328-392 | byte k of a packed number is its digit of 256 to the k |
| TestConfig.SingleTokenValue | fex-emu/Scripts/json_config_parse.py:178-189 | one token of digits gives half as many bytes, rounded up, whose little-endian value is the number |
| TestConfig.HexDigits | fex-emu/Scripts/json_config_parse.py:178-189 | the digits are the sixteen in either case, each worth its place |
| TestConfig.PairsIff | fex-emu/Scripts/json_config_parse.py:178-189 | a token is read exactly when it has digits alone |
| TestConfig.TokensReadIff | fex-emu/Scripts/json_config_parse.py:178-189 | several tokens are read as meant exactly when all or none have the prefix |
| TestConfig.SecondTokenIsMisread | fex-emu/Scripts/json_config_parse.py:178-189 | an input for which a token without the prefix loses its digits |
| TestConfig.ParseHexString | fex-emu/Scripts/json_config_parse.py:178-189 | the two loops compute the specified bytes and their count, or fail |
| Updater.TryApply | desktop/src/SharpEmu.GUI/Updater.cs:133-230 | the update succeeds exactly when nothing failed, and then every file that is not excluded is in place; otherwise each file but the error log is what it was unless its undo was refused; excluded files are never written |
| Updater.ExcludedIff | desktop/src/SharpEmu.GUI/Updater.cs:161-168 | an update leaves alone, in any spelling, exactly the settings file and the files whose first folder is the user's, the logs' or the languages' |
| Updater.Rollback | desktop/src/SharpEmu.GUI/Updater.cs:133-230 | undoing in reverse restores every changed file whose undo succeeds and touches no other |

## Findings

What the proofs show not to hold. Each has its exact condition, named first, and an input.

- Write tracker: a refused unprotect is ignored, so a page can stay read-only with nothing tracked
  (`RetireKeepsOwnersIff`, `ResizeKeepsOwnersIff`, `RunOwnedIff`; `RefusedUnprotectOrphansPage`). A fault or
  a managed write at address 0 is never handled (`ProtectedFaultResolved`, `ManagedWriteIsPrepared`;
  `AddressZeroIsNotHandled`). Disarming does not protect a neighbour's shared pages again
  (`RetireKeepsProtectionIff`, `ResizeKeepsProtectionIff`, `RunProtectedIff`; `NeighbourIsUnprotected`). A
  byte count just below 2^64 makes an armed range with no byte, which a neighbour's fault dirties
  (`HollowMeetsHullIff`; `HollowRangeIsDirtied`).
- Region table: a commit rounds the size before it adds the address, and so may change a page that was not
  asked for (`CommitIsExactIff`; `CommitChangesFurtherPage`). The checked rounding adds a whole page first,
  and throws for an end in the last page, aligned or not (`ProtectOverflowsIff`, `AllocOverflowsIff`;
  `ProtectRejectsTopPage`). A whole-region protect rewrites the allocation's reported protection
  (`AllocationProtectKeptIff`; `AllocationProtectChanges`). A refused munmap still forgets the region
  (`RefusedFreeKeepsIff`; `RefusedFreeForgets`).
- Thread-local storage: an entry added just before the installation of a rebuilt table fails is never
  written to the guest's table while the generation stays the same (`SlotHoldsIff`; `StuckRun`).
- Metal translator, opcodes: `SBrevB32`, `SFF1I32B32` and `SBfmB64` set the condition bit, and
  `SLshlNAddU32` and `SAddkI32` do not; unsigned `SCmpk` compares sign-extend their constant
  (`SccSoundIff`; `UnaryConditionFails`, `FieldMaskFails`, `ShiftedAddFails`, `AddConstantFails`,
  `CompareConstantFails`). Storing a lane mask clears the register above it, which above the null register
  is EXEC, and so does storing a pair at the null register (`StepSoundIff`; `MaskStoreFails`,
  `PairToNullFails`). A carry into EXEC guards its own result (`StepSoundIff`; `CarryToExecFails`). A select
  ignores its SDWA destination (`StepSoundIff`; `SelectByteFails`). `VMulU32U24` is a full product, which a
  merge into part of a register hides (`Mul24Iff`; `Multiply24Fails`). A bit-field extract past the end of
  the word is undefined (`ExtractDefinedIff`; `ExtractOutside`).
- Metal translator, operands: VCCZ and EXECZ look at both halves of the mask, where a wave of 32 lanes has
  the lower one (`MoveMisread`; `StatusBitFails`). A 64-bit operand takes the single for a floating-point
  constant, and a signed 64-bit extract zero-extends its literal (`MisreadShows`; `WideOperandFails`).
  `StepSoundIff` says that these and the opcodes above are all.
- SPIR-V builder: the length field drops high bits at 65536 words (`WalkRecoversIff`, `ModuleReadsBackIff`;
  `LongInstruction`, `LongModule`). A string with a zero does not read back (`StringRoundTripIff`;
  `ZeroInString`). Constants of one type share keys across widths, and the null constant shares its key with
  2^64 - 1 (`KeysClashIff`; `NullSharesItsKey`).
- Quoting: a zero in an argument cuts the command line (`ArgumentsArriveIff`; `ZeroIsCut`), and a quoted
  program path that ends in backslashes gains as many (`ProgramNameArrivesIff`; `ProgramNameGains`).
- Guards: an abort whose write is refused leaves the pending mark behind (`MarkedKeptIff`;
  `AbortLeavesMark`). Reading the word and adding the entry are two accesses, so a guard can be initialised
  twice (`InitialisedAgainIff`; `InitialisedTwice`).
- Shutdown: a later reason overwrites an earlier one that waits for the handler (`AllDeliveredIff`;
  `OneIsLost`).
- Test configuration: whether the prefix of hexadecimal tokens is cut off is decided by the first token
  alone (`TokensReadIff`; `SecondTokenIsMisread`).

## Left out

- Write tracker: the wrap of the generation counter, the switch that disables tracking, `PeekDirty`,
  `TryGetWriteGeneration`, warm-up, and lifetime tracing. Each gate-protected method is one step, so races
  inside `ArmLocked` with the signal handler are not seen.
- HostMemory.Posix.Alloc: takes as given that mmap answers with an aligned range free of tracked regions,
  and that mprotect either acts on its whole range or fails without effect.
- Region table: the Win32 half, the translation of protection bits for the system call, and tracing.
- Thread-local storage: host and guest memory are disjoint maps, and whether the guest accepts a write is a
  parameter. `TryGetStaticOffset`, the single-module `Set` and the start-up self checks are not modelled. A
  thread's vector is replaced in its map, not updated in place.
- GuestTlsModel.CreateDynamicBlock: aligns the block itself and ignores the module's bias, as the code does.
- Metal translator: floating point, texture, memory, lane permutation and DPP instructions, the 64-lane
  form of everything but the prefix counts, control flow, and `VNop`. Expressions are trees and not text.
- Metal translator, modifiers: `Control` cannot carry the clamp bit of VOP3 and SDWA, the operand selection
  of VOP3, or absolute value and negation on integer VOP3 operands, all of which the translator ignores on
  the instructions modelled, the select among them. SDWA's absolute value and negation of integer operands
  are taken as the translator takes them, and so is a null register that an instruction reads and writes.
  Compares in the VOP3 encoding are not covered; the decoder names no opcode for them.
- Metal translator, stages: the single-lane form of `VReadfirstlane` and `VReadlane` in graphics stages.
- MetalTranslator.Translator.TryEmit: does not model the lines already written when an operand makes the
  translator throw half-way through an instruction; here such an instruction appends nothing.
- MetalTranslation.TranslationPreservesMeaning: asks `SoundRun` of the run, because the steps that break it
  are translated wrongly; `StepSoundIff` shows the condition exact for each step.
- SpirvModel.RunKeeps: covers runs in which the identifier counter does not wrap at 2^32; after that the
  builder would hand identifiers out again.
- SPIR-V builder: the conversion of text to UTF-8 is a parameter, and single-precision constants are their
  bit patterns. Instruction-specific rules of validity are not part of this model.
- Guards: the recursion depth, whose branch is never taken, the waiting between passes, and logging.
- GuardModel.MutualExclusion: says nothing of completeness, which the interleaving with single accesses does
  not keep.
- Shutdown: clearing the handler or resetting the request while requests are under way, and an exception
  thrown by the handler.
- CpuContext: the registers and typed reads; the decoding of the bytes as UTF-8 is applied to equal bytes
  and left out.
- Test configuration: the reading of the JSON text, signs and underscores that Python's `int` accepts in a
  hexadecimal token, and the partly written file an error leaves behind.
- Updater.TryApply: waiting for the old process, every copy and every undo succeed or fail as parameters.
  Directories, file modes, case folding beyond ASCII and the download itself are left out, and source,
  target and backup are taken to be apart.
