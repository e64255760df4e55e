# Early allocator and trap system: a verified model

This project models the hard core of a small RISC-V kernel written in Rust: its early heap allocator,
the handover of that heap to a later memory manager, and its trap machinery (entry code, handler
registry, dispatch, error manager and error log). Everything is stated for all inputs, all reachable
states or all runs.

**The heap.** `EarlyAllocator` is a first-fit allocator. Each block starts with a checksummed 48-byte
header; free blocks also hold the node of a doubly linked, address-ordered list; blocks are split on
allocation and merged with both neighbours on release; a ledger of counters is kept up piecemeal. The
model has three levels:

- `Layout`, `HeapModel` and `HeapRuns` describe the heap as the sequence of blocks a physical walk
  meets, the steps on it, the invariant every step keeps, and the laws of whole runs. Headers that
  merges leave behind are kept (`stale`), because double-free detection rests on them.
- `Memory` and `Shapes` describe raw memory, where every write destroys whatever it
  overlaps, and when such a memory represents a layout.
- `Allocator` is the allocator as an object that writes headers and links one at a time; each method
  refines its step of `HeapModel`. `Global` is the raw `alloc`/`dealloc`/`realloc` interface on top.

`Walkers` holds the two independent heap checkers, `Handover` the table of live blocks and its
validation, `Fragmentation` the sort-and-scan analysis of such a table, `Metadata` headers and ledger.

**The trap system.** `TrapEntry` runs the entry and return code on a small RISC-V interpreter and joins
them to dispatch; `TrapPath` serves a whole trap on the objects. `Priorities` shows that visiting
per-priority lists is visiting a stable sort. `Registry` is the handler registry as a state machine over
its two indices, `HandlerManager` the object that updates both in place, together with the dispatch and
the reporting of unhandled traps. `RingBuffers` is the circular log, `ErrorManager` the error manager,
`TrapTypes` causes and error codes.

Where the code does not do what it seems meant to do, the model follows the code:

- `dealloc` looks for the header 48 bytes below the pointer, but `alloc_aligned` may pad. However long it
  has been held, a pointer can be freed exactly when its block's address + 48 is a multiple of the
  alignment it was requested with (`HeapRuns.FreeableGrants`). A run on one granule guarantees that
  (`HeapRuns.GranularRunsFree`); on any fresh heap with room, two requests already produce a pointer that
  cannot be freed (`HeapRuns.PaddedPointerStuck`).
- `prepare_handover` passes the heap size where the heap end is expected. `Handover.HandoverAsCoded`
  says exactly when such a record still validates, `Handover.IntendedHandover` what holds with the end.
- `unregister` searches by priority and description, not by trap type. It removes the named entry exactly
  when no lower trap type has the same slot (`Registry.UnregisterExact`); the default page-fault handlers
  break that (`Registry.SharedDescriptionMisfires`), and so can a user-level entry that shares a slot with
  a kernel-level one (`Registry.SharedSlotEvicts`). `unregister_for_context` is exact under a condition of
  the same kind (`Registry.ContextExact`) and otherwise takes foreign entries along (`Registry.ContextEvicts`).
- Merges leave headers behind, and these can come to lie in live payloads (`HeapRuns.StaleInPayloadReached`)
  and be copied by `realloc`; freeing behind such a copy reports a double free (`HeapRuns.CopiedHeaderMisleads`).
- The entry code saves the lowered stack pointer, although its comment calls it the original one
  (`TrapEntry.SavedSpIsLowered`).

## Model

| member | source | states |
|---|---|---|
| Metadata.ChecksumCatches | src/init/alloc/metadata.rs:74-106 | a changed status, purpose or magic number always invalidates a valid header; a changed size, id or timestamp does exactly when the sum of its two halves changes, so always below 2^32 |
| Layout.Canonical | src/init/alloc/allocator.rs:363-396 | a layout without adjacent free blocks is determined by its set of allocated blocks |
| Layout.CarveKeeps | src/init/alloc/allocator.rs:106-157 | taking a free block, split or whole, keeps an exact tiling without free neighbours, adds one allocated block, and says what happens to counters and list |
| Layout.ReleaseKeeps | src/init/alloc/allocator.rs:363-396 | release with two-sided merging keeps an exact tiling without free neighbours and removes exactly the released block from the allocated ones |
| Layout.FreeNodesFacts | src/init/alloc/allocator.rs:332-361 | the free-list nodes are exactly the free blocks, strictly increasing, a whole block apart, as many as counted |
| Layout.FreeAtMostOneMore | src/init/alloc/allocator.rs:363-396 | free blocks outnumber allocated ones by at most one |
| HeapModel.AlignUp | src/init/alloc/allocator.rs:312-315 | the least multiple of the alignment that is not below the address, equal to it exactly when it was aligned |
| Bits.MaskAligns | src/init/alloc/allocator.rs:312-315 | the masked sum that is computed equals that least multiple for every power of two, as long as it does not wrap around |
| HeapModel.PowerIff | src/init/alloc/allocator.rs:100-104 | the alignment test accepts exactly the powers of two, however large |
| HeapModel.FirstFit | src/init/alloc/allocator.rs:294-310 | the block found fits and no earlier block does |
| HeapModel.AllocInv | src/init/alloc/allocator.rs:95-165 | every allocation request, granted or refused, keeps the invariant |
| HeapModel.DeallocInv | src/init/alloc/allocator.rs:168-205 | releasing an arbitrary pointer keeps the invariant |
| HeapModel.CarveLedger | src/init/alloc/allocator.rs:116-159 | the counters updated piecemeal during an allocation equal those recomputed from the blocks |
| HeapModel.ReleaseLedger | src/init/alloc/allocator.rs:188-202 | the same for a release with up to two merges; no subtraction underflows |
| HeapRuns.DeallocSucceeds | src/init/alloc/allocator.rs:168-205 | for every pointer: success exactly on payload addresses of live blocks; exactly that block goes; a failure changes counters only |
| HeapRuns.DeallocExact | src/init/alloc/allocator.rs:168-187 | what is answered to every pointer, and the one counter that each failure moves by one |
| HeapRuns.FirstFitExact | src/init/alloc/allocator.rs:95-165 | for every request: success iff not frozen, size positive, alignment a power of two and some free block has room for padding, 48 and max(size, 16); the lowest such block is taken and all others left alone; a refusal adds one failed request and nothing else |
| HeapRuns.ReleasesCommute | src/init/alloc/allocator.rs:168-205 | releasing two live blocks in either order gives the same state, ledger and stale headers included |
| HeapRuns.FreesCommute | src/init/alloc/allocator.rs:168-205 | two successful frees of different pointers commute |
| HeapRuns.FreeOrderIrrelevant | src/init/alloc/allocator.rs:168-205 | any number of live pointers freed in any two orders lead to the same state |
| HeapRuns.AllocThenDealloc | src/init/alloc/allocator.rs:95-205 | freeing what was just allocated succeeds iff no padding was needed, and then restores layout and block counters |
| HeapRuns.EmptyHeapIsOneBlock | src/init/alloc/allocator.rs:363-396 | with nothing live the heap is one free block of the heap size less 48 |
| HeapRuns.LedgerBalances | src/init/alloc/metadata.rs:192-217 | used + free + 48 * live = total; free count is the list's length and at most live + 1; allocations - frees = live blocks; live + free = 1 + splits - merges = blocks of the walk |
| HeapRuns.FragmentationBound | src/init/alloc/allocator.rs:106-120 | when a valid request is refused, free space is below (live + 1) * (max(size,16) + align + 95) |
| HeapRuns.StepGood | src/init/alloc/allocator.rs:95-205 | every client action keeps the invariant and the match between live blocks and what clients hold |
| HeapRuns.GrantsDisjoint | src/init/alloc/allocator.rs:95-205 | after any run every granted region is aligned, inside the heap, and disjoint from every other region and every header |
| HeapRuns.RunExtremes | src/init/alloc/metadata.rs:192-202 | after any run the recorded smallest and largest allocation bound all live sizes |
| HeapRuns.RunAccount | src/init/alloc/metadata.rs:192-221 | over every run the statistics count what the calls answered: grants, refusals, frees, double frees, corrupted headers; extremes are those of the granted sizes, the peak the highest use after any step |
| HeapRuns.RunsAreCounted | src/init/alloc/metadata.rs:168-190 | the same from a new heap on, where all counters start at zero |
| HeapRuns.FreeableGrants | src/init/alloc/allocator.rs:171-177 | in any state, a pointer still held can be freed iff its block's address + 48 is a multiple of its requested alignment, that is iff it is that address; otherwise only counters move |
| HeapRuns.GranularRunsFree | src/init/alloc/allocator.rs:107-202 | in any run on one granule of 8 or 16 all headers stay on it and every live pointer can be freed |
| HeapRuns.SecondPointerFreeable | src/init/alloc/allocator.rs:312-315 | exactly when two word-aligned requests on a fresh word-aligned heap are both granted, and that the second pointer can then be freed iff max(first size, 16) is a multiple of 8 |
| HeapRuns.PaddedPointerStuck | src/init/alloc/allocator.rs:171-187 | with room for both and a first size that is no multiple of 8, both requests are granted and freeing the second pointer fails and releases nothing |
| HeapRuns.CopiedHeaderMisleads | src/init/alloc/global.rs:146-149 | inside the destination of a raw copy, freeing reports a double free exactly behind the copies of stale headers of the source, and a corrupted header elsewhere |
| HeapRuns.StaleInPayloadReached | src/init/alloc/allocator.rs:363-396 | from every fresh heap with room, two grants, two frees and one covering grant put an intact stale header inside a live payload |
| HeapRuns.DoubleFreeCaught | src/init/alloc/allocator.rs:168-205 | after a free and any actions that grant nothing, a second free of the pointer reports a double free, adds one to the double frees and changes nothing else |
| Memory.FollowIsList | src/init/alloc/allocator.rs:318-361 | links followed forwards from the head or backwards from the end spell out the same finite list |
| Memory.UnlinkFacts | src/init/alloc/allocator.rs:318-330 | the two link writes of a removal give the list without that node and touch no header and no live payload |
| Memory.InsertFacts | src/init/alloc/allocator.rs:332-361 | the three link writes of an insertion give the list with that node and touch no live payload |
| Shapes.ReadHeader | src/init/alloc/allocator.rs:177-187 | the header read below any pointer validates iff a live, free or stale header is there, and its status tells which |
| Shapes.ReleaseIsMerges | src/init/alloc/allocator.rs:363-396 | marking, merging with the successor, then with the list predecessor is the one-step release of the layout |
| Shapes.SplitShape | src/init/alloc/allocator.rs:120-147 | the header and link writes of a split represent the carved layout |
| Shapes.MergeShape | src/init/alloc/allocator.rs:363-396 | unlinking the second node and growing the first header represent the merged layout, the second header left stale |
| Walkers.CoverIsWalk | src/init/alloc/allocator.rs:213-230 | if any blocks cover a heap they are the ones the walk meets |
| Walkers.IntegrityCheck | src/init/alloc/allocator.rs:213-230 | for arbitrary memory: accepts iff valid headers tile the heap exactly; which error otherwise |
| Walkers.BlockIterator.Next | src/init/alloc/metadata.rs:339-350 | yields headers by magic number and steps over the whole block |
| Walkers.ValidateHeap | src/init/alloc/metadata.rs:356-368 | for arbitrary memory: accepts exactly what the integrity check accepts |
| Walkers.ViewsAgree | src/init/alloc/allocator.rs:213-230 | header walk, linked list in both directions, and counters agree in every allocator state |
| Allocator.EarlyAllocator.RemoveFromFreeList | src/init/alloc/allocator.rs:318-330 | the list loses exactly that node; headers and live payloads stay |
| Allocator.EarlyAllocator.InsertIntoFreeList | src/init/alloc/allocator.rs:332-361 | the list gains the node at its place in address order; live payloads stay |
| Allocator.EarlyAllocator.FindFreeBlock | src/init/alloc/allocator.rs:294-310 | walking the list finds the first fitting block of the physical order, or none when none fits |
| Allocator.EarlyAllocator.TakeBlock | src/init/alloc/allocator.rs:106-157 | memory represents the carved layout; live payloads and headers stay; the block gets the next id |
| Allocator.EarlyAllocator.AllocAligned | src/init/alloc/allocator.rs:95-165 | refines the first-fit step for every request; live payloads and headers stay; the new block gets the next id and the time and keeps the purpose its header had; a refusal writes nothing |
| Allocator.EarlyAllocator.Alloc | src/init/alloc/allocator.rs:90-92 | the same with the alignment of a machine word |
| Allocator.EarlyAllocator.Absorb | src/init/alloc/allocator.rs:370-378 | one merge: layout, list, stale header and counters; no live payload or header changes |
| Allocator.EarlyAllocator.Coalesce | src/init/alloc/allocator.rs:363-396 | merges with both free neighbours, found through the next header and the list predecessor |
| Allocator.EarlyAllocator.Dealloc | src/init/alloc/allocator.rs:168-205 | refines the release step for every pointer; payloads and headers of all other live blocks stay |
| Allocator.EarlyAllocator.Freeze | src/init/alloc/allocator.rs:268-270 | sets the frozen flag and nothing else |
| Allocator.EarlyAllocator.SetPurpose | src/init/alloc/allocator.rs:273-283 | succeeds exactly on live blocks, changes that header's purpose and checksum only |
| Allocator.EarlyAllocator.IntegrityCheck | src/init/alloc/allocator.rs:213-230 | accepts every state the allocator can be in |
| Allocator.EarlyAllocator.New | src/init/alloc/allocator.rs:52-87 | refuses a null start or a heap under two minimal blocks; otherwise one free block |
| Global.RawAlloc | src/init/alloc/global.rs:160-165 | the allocation step, with null exactly on refusal |
| Global.RawDealloc | src/init/alloc/global.rs:167-178 | the release step; null is ignored |
| Global.RepresentableIff | src/init/alloc/global.rs:136-139 | a layout is formed exactly for powers of two to which the size can be rounded up within `isize` |
| Global.Realloc | src/init/alloc/global.rs:122-156 | null allocates, size zero frees; else null with layout and memory untouched, or a new live region with the common bytes, the old block released iff the pointer was unpadded, all other payloads unchanged |
| Handover.OverlapIsSharing | src/init/alloc/handover.rs:228-235 | for nonempty blocks the overlap test finds a common address exactly when there is one |
| Handover.TableTotals | src/init/alloc/allocator.rs:237-262 | the table's sizes and length are the ledger's used size and live count |
| Handover.TablePlaces | src/init/alloc/allocator.rs:237-262 | entries are in address order, nonempty, apart and inside the heap |
| Handover.TableIds | src/init/alloc/allocator.rs:237-262 | every entry repeats address, size, purpose, id and timestamp of a live block, and no two share an id |
| Handover.HandoverInfo.CalculateChecksum | src/init/alloc/handover.rs:603-622 | the wrapping sum over the fields and the first sixteen entries |
| Handover.SumIsPlain | src/init/alloc/handover.rs:603-622 | wrapping after every addition equals the plain sum of all entries taken modulo 2^32 |
| Handover.TamperUnnoticed | src/init/alloc/handover.rs:603-622 | changing one entry leaves the checksum alone iff it is beyond the first sixteen or its low words add up to the same |
| Handover.BoundsSealed | src/init/alloc/handover.rs:603-622 | changing a recorded heap bound or the count leaves the checksum alone iff its low word stays the same |
| Handover.HandoverInfo.AllocatedSize | src/init/alloc/handover.rs:434-440 | the sum of the table's sizes |
| Handover.HandoverInfo.Validate | src/init/alloc/handover.rs:700-753 | for an arbitrary record, which check fails first, or acceptance |
| Handover.AcceptedIsSound | src/init/alloc/handover.rs:700-753 | blocks of an accepted record lie in the heap, share no address and add up to the used size; magic, version, count and checksum are right |
| Handover.PrepareHandover | src/init/alloc/allocator.rs:233-265 | the record holds the address-ordered allocated part of the walk, first 512, under a fresh checksum, with the heap size as its end |
| Handover.BuildHandover | src/init/alloc/allocator.rs:233-265 | the same for any recorded end |
| Handover.PreparedDecision | src/init/alloc/handover.rs:700-753 | for a prepared record with any end: exactly the range, blocks beyond the end and the 512 limit decide |
| Handover.IntendedHandover | src/init/alloc/handover.rs:700-753 | with the heap end recorded: accepted iff at most 512 live blocks, else a statistics mismatch |
| Handover.HandoverAsCoded | src/init/alloc/allocator.rs:235-235 | with the heap size recorded: accepted iff the heap starts below its size, all live blocks end below it, and there are at most 512 |
| Fragmentation.SortIndices | src/init/alloc/handover.rs:909-925 | the index array becomes a permutation that reads the blocks in address order |
| Fragmentation.CalculateAdvancedFragmentation | src/init/alloc/handover.rs:895-945 | the gaps of the blocks taken in address order; for disjoint nonempty in-heap blocks in any order, gaps plus sizes are the heap and the largest gap is the longest uncovered stretch |
| Fragmentation.AnalysisExact | src/init/alloc/handover.rs:926-945 | for disjoint nonempty in-heap blocks: gaps plus sizes are the heap; the largest gap is the longest uncovered stretch; the gaps are as many as the maximal uncovered stretches |
| Fragmentation.HandoverFragmentation | src/init/alloc/handover.rs:926-945 | on the complete table of a heap the gaps are free size + 48 * live count of the ledger |
| RingBuffers.PushFull | src/trap/collections/ring_buffer.rs:45-60 | overwriting the oldest slot of a full circular window drops the oldest and appends the new element |
| RingBuffers.LastNIsSuffix | src/trap/collections/ring_buffer.rs:45-60 | the last n are a suffix of length min(length, n) |
| RingBuffers.RingBuffer.Push | src/trap/collections/ring_buffer.rs:45-60 | the contents become the last `capacity` of the old contents and the item |
| RingBuffers.RingBuffer.Pop | src/trap/collections/ring_buffer.rs:63-76 | takes the oldest element, or nothing from an empty buffer |
| RingBuffers.RingBuffer.Front | src/trap/collections/ring_buffer.rs:79-85 | the oldest element |
| RingBuffers.RingBuffer.Back | src/trap/collections/ring_buffer.rs:88-96 | the newest element |
| RingBuffers.RingBuffer.Clear | src/trap/collections/ring_buffer.rs:119-126 | no contents and no slot filled |
| RingBuffers.Iter.Next | src/trap/collections/ring_buffer.rs:146-159 | yields the contents oldest to newest, one at a time |
| Priorities.VisitIsSort | src/trap/infrastructure/handler_manager.rs:143-158 | visiting per-priority lists in key order is visiting the registrations stably sorted by priority |
| Priorities.StableSortUnique | src/trap/infrastructure/handler_manager.rs:143-158 | a sequence has only one stable sort |
| TrapTypes.FromIndex | src/trap/ds/types.rs:75-96 | inverts the declaration order and rejects all other indices |
| TrapTypes.TypeIffCause | src/trap/ds/types.rs:23-153 | every register value gets the type of the interrupt or exception it numbers, and is unknown exactly when it numbers none |
| TrapTypes.PackUnpack | src/trap/ds/error.rs:52-86 | source, level and number packed into a code are read back unchanged; a code is fatal iff made so |
| TrapTypes.UnpackAny | src/trap/ds/error.rs:57-82 | what is read from arbitrary bits, with the defaults for bytes that name nothing |
| ErrorManager.AskedFacts | src/trap/infrastructure/error_manager.rs:91-114 | the handlers called are a prefix of the matching ones in order; only the last can have handled; if none did, it is all of them |
| ErrorManager.MatchingExact | src/trap/infrastructure/error_manager.rs:46-58 | which handlers match an error of a given source and level: exactly those whose filters are missing or equal |
| ErrorManager.RunLaws | src/trap/infrastructure/error_manager.rs:81-132 | over any run panic mode stays on once on and is on iff entered or a fatal error came; every error is logged once, in order |
| ErrorManager.PanicSilences | src/trap/infrastructure/error_manager.rs:81-90 | once in panic mode no error that is not fatal reaches a handler, whatever happened since |
| ErrorManager.HeapErrorManager.RegisterHandler | src/trap/infrastructure/error_manager.rs:62-79 | the handler joins the registrations, behind its equals |
| ErrorManager.HeapErrorManager.Consult | src/trap/infrastructure/error_manager.rs:91-114 | who is called and with what result: the stable sort's matching handlers up to the first that handles |
| ErrorManager.HeapErrorManager.LogError | src/trap/infrastructure/error_manager.rs:121-124 | the circular log stays the suffix of length min(n, 256) of everything reported |
| ErrorManager.HeapErrorManager.HandleError | src/trap/infrastructure/error_manager.rs:81-119 | refines the report step: handlers asked, result, panic mode, log entry |
| Registry.UnregisterExact | src/trap/infrastructure/handler_manager.rs:68-115 | removes exactly the named entry iff no lower trap type has that priority and description |
| Registry.LeavesOnUnregister | src/trap/infrastructure/handler_manager.rs:88-109 | a registration leaves on a successful call iff it is in the named slot and none of that slot has a lower trap type |
| Registry.UnregisterPermitted | src/trap/ds/handler.rs:91-97 | succeeds exactly for known handles and ids 0, 1 for system-level entries, and the current owner for user-level ones; otherwise nothing changes |
| Registry.TransferMoves | src/trap/infrastructure/handler_manager.rs:117-137 | exactly the owner or the kernel can transfer, and of a user-level entry exactly the new owner and the kernel can then unregister it |
| Registry.RegisterNames | src/trap/infrastructure/handler_manager.rs:42-66 | fails exactly for a duplicate; otherwise the returned handle names the entry, which is the last of its type |
| Registry.UnregisterOneType | src/trap/infrastructure/handler_manager.rs:68-115 | with one trap type per description: succeeds iff known and permitted, and removes exactly the named entry |
| Registry.ContextExact | src/trap/infrastructure/handler_manager.rs:166-193 | removes exactly the context's entries iff no other entry shares priority and description with one |
| Registry.ContextOneType | src/trap/infrastructure/handler_manager.rs:166-193 | with one trap type per description it always removes exactly those and keeps agreement |
| Registry.StepAgrees | src/trap/infrastructure/handler_manager.rs:42-193 | every call keeps agreement and one trap type per description |
| Registry.RunAgrees | src/trap/infrastructure/handler_manager.rs:42-193 | over any disciplined run dispatch lists and handle map hold the same entries, once each |
| Registry.EntrySurvives | src/trap/infrastructure/handler_manager.rs:42-193 | an entry of any protection survives any disciplined run in which nobody entitled to it at the time unregisters anything and its context stays |
| Registry.SystemEntrySurvives | src/trap/ds/handler.rs:91-97 | a system-level entry without context survives any run in which ids 0 and 1 unregister nothing |
| Registry.KernelEntrySurvives | src/trap/ds/handler.rs:91-97 | a kernel-level entry without context survives any run in which the kernel id unregisters nothing |
| Registry.SharedDescriptionMisfires | src/trap/infrastructure/di/mod.rs:152-154 | after the default page-fault registrations, unregistering one handle removes another type's handler |
| Registry.SharedSlotEvicts | src/trap/infrastructure/handler_manager.rs:68-115 | a user-level entry that joins the slot of a lower-typed entry of any protection takes that one out of dispatch when its owner unregisters it |
| Registry.ContextEvicts | src/trap/infrastructure/handler_manager.rs:166-193 | an entry of a context that joins the slot of a foreign entry, kernel-level ones included, takes that one out of dispatch and leaves its handle behind |
| HandlerManager.HeapHandlerManager.RegisterHandler | src/trap/infrastructure/handler_manager.rs:42-66 | refines the registration step in both maps, a duplicate handle being refused |
| HandlerManager.HeapHandlerManager.FindTrapType | src/trap/infrastructure/handler_manager.rs:88-97 | the lowest trap type with that description in that priority's list |
| HandlerManager.HeapHandlerManager.UnregisterHandler | src/trap/infrastructure/handler_manager.rs:68-115 | refines the removal step, its failures included |
| HandlerManager.HeapHandlerManager.Transfer | src/trap/infrastructure/handler_manager.rs:117-137 | changes the owner of the shared cell iff requested by the owner or the kernel |
| HandlerManager.HeapHandlerManager.UnregisterContext | src/trap/infrastructure/handler_manager.rs:166-193 | removing handle by handle is the one-step removal for the context |
| HandlerManager.HeapHandlerManager.DispatchTrap | src/trap/infrastructure/handler_manager.rs:139-164 | equals the fold with early stop over the type's handlers stably sorted by priority |
| HandlerManager.ListsAreSorted | src/trap/infrastructure/handler_manager.rs:143-158 | the lists of a trap type, visited in order, are its registrations stably sorted |
| HandlerManager.TrapSystem.HandleTrap | src/trap/infrastructure/di/container.rs:45-84 | a trap is handled and nothing reported, or exactly one critical trap error is, with the trap value as address, the saved program counter, and the low 16 bits of the cause as number; panic mode is unchanged |
| TrapEntry.LoadStored | src/trap/infrastructure/asm/trap_entry.asm:19-62 | a word stored byte by byte is loaded back, also across the end of the address space |
| TrapEntry.EntrySaves | src/trap/infrastructure/asm/trap_entry.asm:14-65 | from any machine the entry code builds the context of all registers and CSRs below the stack pointer; memory outside keeps its bytes |
| TrapEntry.ReturnRestores | src/trap/infrastructure/asm/trap_entry.asm:74-122 | from any machine the return code loads the context back, with `sp` 288 above its word; memory is unchanged |
| TrapEntry.TrapRoundTrip | src/trap/infrastructure/asm/trap_entry.asm:14-122 | for every handler that keeps `sp`, wherever it writes: at `sret` the machine is what the context says, memory is as the handler left it, and an untouched context gives back the interrupted machine |
| TrapEntry.SavedSpIsLowered | src/trap/infrastructure/asm/trap_entry.asm:16-20 | the word saved for `sp` is never the interrupted `sp`, and whatever word the handler leaves there, `sp` ends 288 above it |
| TrapEntry.DispatchedTrap | src/trap/infrastructure/handler_manager.rs:139-164 | entry code, dispatch and return code together: the hart resumes with what the handlers of its cause left in the context, or as interrupted if there are none |
| TrapEntry.ContextWritten | src/trap/ds/context.rs:17-30 | a context written through its pointer is read back through it, and no other memory changes |
| TrapPath.ServeTrap | src/trap/infrastructure/di/mod.rs:101-113 | entry code, trap system and return code in sequence on the objects: resumed registers and CSRs, memory outside the context, and the one report, with its fields, or none |
| TrapEntry.RiscvHart.TrapEntry | src/trap/infrastructure/asm/trap_entry.asm:14-65 | running the entry listing on the hart leaves the context of the old state at the new `sp`, also in `a0` |
| TrapEntry.RiscvHart.TrapReturn | src/trap/infrastructure/asm/trap_entry.asm:74-122 | running the return listing leaves the registers and CSRs of the context |

## Left out

- Wrap-around of addresses at 2^64 in the allocator: `heap_end + size + align` is taken to fit.
- Memory outside the heap: `dealloc` of a pointer less than 48 above the heap start reads a header there, and the
  model takes it to fail validation.
- Pointers below 48, for which the header address of `dealloc` and `set_purpose` would wrap around.
- Client bytes that imitate a header: reading a header where none is intact yields one that fails validation;
  a header survives a raw copy only as a whole.
- Partial header writes: the field updates and the checksum update of one header are one write.
- Timestamps are one counter; ages, health, leak scores, percentages and averages are not modelled.
- `max_free_block_size` and `avg_alloc_size` of the statistics: the first is never updated, the second is no average.
- Spin locks, the uninitialised global wrapper and the boxing of the handover record through the global allocator.
- Memory maps, purpose groupings, block searches and the handover protocol: easy members only.
- `alloc_zeroed`, `safe_alloc` and `safe_dealloc`: thin wrappers.
- Fragmentation.CalculateAdvancedFragmentation: takes at most 512 blocks, because the code's index array is that long; internal fragmentation and score are not modelled.
- Handle hashing: a handle is the pair of description and trap type, so collisions of the 64-bit hash do not occur.
- Handlers are functions of context or error; of a shared handler entry only the owner changes after registration.
- A ring buffer of capacity zero: the source panics when it is made.
- HandlerManager.TrapSystem.HandleTrap: has no branch for a failed dispatch, which dispatch never returns; message texts are not modelled.
- TrapEntry.TrapRoundTrip: `sret` itself, write masks of `sstatus` and faulting stack accesses are not modelled; memory is plain bytes.
- Console, SBI calls, CSR access, interrupt masking, context management and dependency injection: I/O or no logic to prove.
