# Verified model of the marimba kernel

marimba is a small x86_64 kernel. This project models the parts of it where correctness is a matter of
invariants that no line of code checks, and proves those invariants over every run.

**Memory.** At boot the kernel's sections are sorted, rounded to pages and merged, and are removed from the
RAM map; what is left feeds a frame allocator that keeps its free list inside the free frames; a 4-level page
table (Intel SDM Vol. 3A section 4.5, "4-Level Paging") takes its tables from that allocator and fills its
leaves on page faults; `kmalloc` carves size classes from the pages. The model goes from words in physical
memory up to an abstract address space: a FIFO queue of free frames, a tree of tables, a flat map of pages.
`kmalloc` runs on top of it, its headers being words that are stored and loaded through the page tables.

The kernel reaches its own tables and free-list links by physical address, through an identity map of the first
gigabyte. Operations that touch a frame out of that reach get stuck in the model as they do in the kernel, and
for each of them it is proved exactly when that is.

**Scheduling.** Cooperative scheduling with a ready queue, wait queues and device interrupts is a transition
system whose states are the points between critical sections, where an interrupt can arrive if the processor's
interrupt flag is set: by the running process, or by the handler of the trap that switched to it and has not
returned yet. Process creation and exit are joined with the memory they take and give back.

**Drivers.** The ATA read protocol and the PS/2 keyboard are transition systems on top of the scheduler,
with any number of readers and any arrival of interrupts.

Each imperative part of the kernel is a class or method in its own form, proved against a specification on
values; the theorems about runs are lemmas about that specification.

| file | models |
|---|---|
| `Basics.dfy` | an optional value, sequences without repetition |
| `PhysicalMemory.dfy`, `FrameQueue.dfy`, `FramePool.dfy` | words, links inside frames, the allocator as one queue, runs of its clients |
| `AddressSpace.dfy`, `PageTable.dfy`, `Mmu.dfy`, `KernelReach.dfy` | the abstract address space and its runs, how words encode it, the code of `mmu.c` and `paging.c`, and which frames that code can touch |
| `KernelSections.dfy`, `RoundRam.dfy`, `SubtractExclusions.dfy`, `FreeSegments.dfy`, `BootMap.dfy` | the boot memory map, from sections and RAM segments to the allocator's first frames |
| `VirtualMemory.dfy`, `KmallocHeap.dfy`, `Kmalloc.dfy` | words at virtual addresses; `kmalloc`: blocks and pools, and its code on those words |
| `IntrusiveList.dfy`, `ProcessQueues.dfy` | the circular list of `list.c`, and the scheduler's queue operations on it |
| `Scheduler.dfy`, `Kernel.dfy`, `Processes.dfy`, `StackRuns.dfy`, `BootedStacks.dfy` | the scheduler as a transition system, the code of `proc.c` and of the interrupt counter, the memory of processes, their stacks over runs, and those runs from boot |
| `AtaProtocol.dfy`, `Ata.dfy`, `Ps2Protocol.dfy`, `Ps2.dfy`, `Serial.dfy` | drivers: protocols and code |

## Where the code does less than it is meant to

The model keeps the code as it is. For each of these there is a statement of exactly when the intent is met.

- The loop that removes exclusions from RAM (`src/mmu.c:138-170`) is right exactly when `Good` holds, empty
  exclusions left by sections of length zero included (`SubtractExact`); `SecondExclusionSurvives`,
  `EmptyExclusionBlocks` and `SwallowedSegment` are inputs where it is not. An empty section at address 0 keeps
  every other section from being removed.
- Shrinking RAM to pages (`src/mmu.c:115-136`) is right exactly when every segment contains a page boundary
  and no two neighbours both lack a whole page (`RoundExact`, `RoundingGoesWrong`).
- On a machine with memory above the first gigabyte the kernel gets stuck exactly when a frame up there is to become
  a page table or is given back (`GoesThroughExact`, and the contracts of `Mmu`); it does not even boot exactly when
  no free page is below (`Boot`). `HighMemoryHangs` is a boot map on which no page can ever be allocated. Pages mapped
  to such frames are fine until they are freed. Without such memory nothing gets stuck (`SmallRunReaches`).
- A `kmalloc` block holds header and payload exactly when the size is at most 2032, or below 2^44 and between 1 and
  4080 modulo 4096 (`EveryRunDisjoint`, for every 64-bit size). `LargeOverrun` is a size that is a multiple of 4096;
  at 0xFFFFFFFFFFFFFFF0 adding the header wraps (`SizeWraps`), at 2^44 + 1 the page count does (`PagesTruncate`).
- `MMU_free_stack` keeps to its own stack exactly when the nine pages above are unmapped (`FreeStackWalksUp`);
  freeing the second stack of the system after both were used unmaps a page of the first (`SecondStackTakesFirst`).
- `process_exit` frees the stack it runs on: its top page is neither mapped nor reserved any more, so the next touch
  of it faults for ever (`FreeStackUnmapsTop`). It leaves its nine lower pages behind and takes those of the stack
  created before: over every run of creations and exits a process keeps the stack pages it uses, beyond the top one,
  exactly as long as the process created next lives (`LiveStackIntact`).
- `PT_addr_virt_to_phys` is right exactly for page-aligned addresses (`VirtToPhys`).
- A keyboard reader misses nothing exactly when fewer than 128 characters were outstanding (`SliceIsHistory`), and
  a sleeping one has nothing unread exactly when fewer than 128 were outstanding as it went to sleep
  (`EveryRunWakesReaders`): with exactly 128 it is put to sleep having read none of them (`SleepsOnUnread`).
- While a disk reader is between removing its request and issuing the next command, requests can wait with no
  command in flight and their owner asleep (`NeverStalls` says exactly when, `StallHappens` is a run that gets there).
- A new process starts with zero saved flags, which stay so until it first leaves a critical section
  (`MaskedUntilSection`). Until then interrupts reach it, at depth 0, in the tail of the traps that switch to it, where
  the handler has executed STI, and nowhere else (`MaskedTakesTail`); `KeyInTail` is the kernel's own first switch.
- A device interrupt inside `process_exit` resumes the process that has just exited and drives the interrupt
  counter to -1 (`ExitInterrupted`).
- `MMU_alloc_page` returns an address even when its page could not be reserved, and nothing but the page fault
  handler notices that a page has no frame: a touch of such a page faults for ever. `Kmalloc.KernelHeap.Execute` says
  exactly when a run gets stuck so, `MallocNeeds` in terms of the frames left before the call.
- `MMU_alloc_page` and `MMU_alloc_pages` leave interrupts disabled when heap addresses run out, and a request that does
  not fit uses up the addresses left (`GrantedNoMore`).
- The exhaustion test of `MMU_alloc_stack` never holds; stacks stay in the addresses set aside for them exactly for the
  first 26843545 (`StackInRegion`).
- `docs/x86_64_vmap.md` gives a P4 entry 0x10000000000 bytes and calls that 512 GB; it is 1 TB, so the
  heap and the stacks lie under two P4 entries each. The model follows the code.

## Model

| member | source | states |
|---|---|---|
| PhysicalMemory.UnpackPack | src/arch/x86_64/paging.c:15-30 | the bit fields of a page-table entry are read back from the 64-bit word they are packed into |
| PhysicalMemory.PackUnpack | src/arch/x86_64/paging.c:15-30 | every 64-bit word is determined by its bit fields |
| PhysicalMemory.PointerIsByteAddress | src/arch/x86_64/paging.c:40-50 | storing a page-aligned pointer over an entry and setting two bits gives the frame's byte address plus 3 |
| FrameQueue.BumpKeepsQueue | src/mmu.c:215-222 | taking a frame from the first segment is taking the head of the one queue made of segments and free list |
| FrameQueue.UnlinkKeepsQueue | src/mmu.c:224-229 | following the link stored in the head frame is taking the head of the queue; the head is NULL exactly when the queue is empty |
| FrameQueue.RelinkAppends | src/mmu.c:232-242 | writing the links into the old tail and the freed frame appends to the queue and changes no word outside queued frames |
| FrameQueue.QueueFrame | src/mmu.c:211-242 | writes by the holders of allocated frames do not affect the queue |
| FramePool.RunConserves | src/mmu.c:211-242 | over every run of clients, free and held frames partition the initial set and frames are served first in, first out |
| AddressSpace.OffsetIsChildNumber | src/arch/x86_64/paging.c:66-73 | the shifted and masked address is the index of the next node on the way to the page |
| AddressSpace.IndicesDetermineAddress | src/arch/x86_64/paging.c:66-73 | the four 9-bit indices and the offset determine a 48-bit address |
| AddressSpace.DemandWellFormed | src/arch/x86_64/paging.c:155-180 | demand allocation, out of memory half way included, keeps the tree and the uses of frames intact and changes the state of the named page only |
| AddressSpace.DemandExact | src/arch/x86_64/paging.c:155-180 | demand allocation succeeds if and only if the page is not mapped and there is a free frame for every table missing on the way to it; it takes exactly that many from the front of the queue; when frames run out it has used them all |
| AddressSpace.DemandEachExact | src/mmu.c:263-283 | for any number of fresh pages one after the other: all are reserved if and only if there are as many free frames as tables missing on all the ways together, shared tables counted once |
| AddressSpace.StepWellFormed | src/arch/x86_64/paging.c:102-201 | every paging operation keeps the invariant, neither gains nor loses a frame, and leaves all other pages as they were |
| AddressSpace.RunSeparates | src/arch/x86_64/paging.c:85-201 | over every run: the tables form a tree rooted in the P4 table, without sharing; table frames, mapped frames and free frames are pairwise disjoint; no two pages share a frame; the set of frames is that of boot |
| AddressSpace.RunLocality | src/arch/x86_64/paging.c:85-201 | a page no operation of the run names keeps its state |
| AddressSpace.ReleaseRangeUnmaps | src/mmu.c:293-303 | freeing a range unmaps exactly the mapped pages in it |
| AddressSpace.DoubleReleaseIsHarmless | src/mmu.c:293-303 | freeing a range a second time changes nothing, so each frame is released at most once |
| AddressSpace.ReleaseKeepsReservation | src/arch/x86_64/paging.c:182-201 | freeing a reserved page that was never touched leaves the reservation, and a later fault still maps it |
| AddressSpace.SmallRunReaches | src/arch/x86_64/paging.c:130-145 | with no memory above the first gigabyte no run gets stuck |
| PageTable.AddTableEncodes | src/arch/x86_64/paging.c:167-176 | clearing a frame and entering it as a table changes no other entry of the tree |
| PageTable.AddTableRepresents | src/arch/x86_64/paging.c:167-176 | one turn of the table-building loop adds exactly the missing table to the address space in memory |
| PageTable.PageEntryRepresents | src/arch/x86_64/paging.c:40-45 | a new word in one page's entry changes that page and nothing else |
| PageTable.UnmapRepresents | src/mmu.c:285-291 | clearing the entry and freeing its frame unmaps the page and appends the frame to the queue |
| PageTable.StoreRepresents | src/arch/x86_64/paging.c:102-128 | client stores to mapped frames are invisible to tables and free list |
| Mmu.TranslateAgrees | src/arch/x86_64/paging.c:66-100 | the hardware's walk through the words in memory translates every managed address as the flat map says |
| PageTable.AddTableKept | src/arch/x86_64/paging.c:167-176 | installing a table writes only in frames the kernel manages and in no mapped page |
| PageTable.UnmapKept | src/mmu.c:285-291 | freeing a page writes only in frames the kernel manages and in no page that stays mapped |
| PageTable.IdentityKept | src/arch/x86_64/paging.c:130-145 | steps confined to the kernel's frames leave the tables of the identity map alone |
| Mmu.IdentityTranslates | src/arch/x86_64/paging.c:130-153 | through the two tables the hardware translates the first gigabyte to itself and nothing else under P4 entry 0 |
| Mmu.OtherTranslationsUnchanged | src/arch/x86_64/paging.c:155-201 | a paging operation changes the translation of no address of the 48-bit space outside the named page, the identity map's huge pages included |
| Mmu.GrantedDisjoint | src/mmu.c:244-283 | ranges granted over a whole run are inside the heap, ascending and pairwise disjoint |
| Mmu.GrantedAll | src/mmu.c:244-283 | while there is room each request is granted, right behind the one before |
| Mmu.GrantedNoMore | src/mmu.c:271-279 | a request that does not fit uses up all addresses left: nothing is granted any more |
| Mmu.RangeReserved | src/mmu.c:263-283 | all pages of a fresh range are reserved if and only if there are frames for the tables missing |
| Mmu.StackReserved | src/mmu.c:317-321 | the same for the pages of a stack, downwards |
| Mmu.RegionsApart | src/arch/x86_64/mmap.h:7-19 | physical memory, stacks and heap have two P4 entries each, so they share no table below the P4 table |
| Mmu.FreeStackWalksUp | src/mmu.c:327-338 | which pages are released, and exactly when they all belong to the stack |
| Mmu.StepSpares | src/arch/x86_64/paging.c:102-201 | what the kernel does for one page changes no word of any other mapped page |
| Mmu.SecondStackTakesFirst | src/mmu.c:305-338 | two stacks allocated at boot and touched: freeing the second unmaps a page of the first |
| Mmu.FreeStackUnmapsTop | src/proc.c:103-114 | after a process has freed its stack, the page it runs on is neither mapped nor reserved |
| KernelReach.ReachExact | src/arch/x86_64/paging.c:130-153 | in every state, a frame that backs no page is at its physical address for the hardware if and only if it lies in the first gigabyte |
| KernelReach.GoesThroughExact | src/arch/x86_64/paging.c:75-201 | for every state and operation: all frames the kernel touches (tables on the way, new tables, head and tail of the free list, the freed frame) are accessible if and only if `Reaches` |
| Mmu.Mmu.AllocFrame | src/mmu.c:211-230 | returns and removes the head of the queue, NULL exactly when it is empty |
| Mmu.Mmu.FreeFrame | src/mmu.c:232-242 | appends to the queue, with the words it writes; stuck exactly when the frame is out of reach |
| Mmu.Mmu.Serve | src/mmu.c:211-242 | any run of allocations, frees and client stores hands out frames in queue order and conserves them; it stops exactly at the first frame given back out of reach |
| Mmu.Mmu.InitEmptyPageTable | src/arch/x86_64/paging.c:35-38 | all 512 words of the frame are zero, no other word changed; stuck exactly when the frame is out of reach |
| Mmu.Mmu.PtWalk | src/arch/x86_64/paging.c:85-100 | the depth is that of the first missing table, 3 for an unmapped page, 4 exactly for a mapped one, and the entry returned is the one the walk stopped at |
| Mmu.Mmu.PageFault | src/arch/x86_64/paging.c:102-128 | maps a reserved page to the first free frame by writing the one word of its entry; changes nothing otherwise |
| Mmu.Mmu.DemandAllocate | src/arch/x86_64/paging.c:155-180 | adds the missing tables and reserves the page; -1 when it was mapped or frames ran out; writes to no mapped page, no frame that stays free and nothing outside the kernel's frames, so to tables only; stuck exactly when a frame that is to become a table is out of reach |
| Mmu.Mmu.GrowTable | src/arch/x86_64/paging.c:167-176 | one new table from the head of the queue, cleared and entered, with every word of memory after it; or out of memory, or stuck exactly when that frame is out of reach |
| Mmu.Mmu.PtFree | src/arch/x86_64/paging.c:182-201 | returns the frame of an aligned mapped address and clears two bits of its entry; NULL and no change otherwise |
| Mmu.Mmu.VirtToPhys | src/arch/x86_64/paging.c:204-211 | the address it returns, and that it is right exactly for page-aligned addresses |
| Mmu.Mmu.FreePage | src/mmu.c:285-291 | unmaps the page and queues its frame if it was mapped; stuck exactly when that frame is out of reach |
| Mmu.Mmu.FreePages | src/mmu.c:293-303 | the same for a range; nothing for an unaligned address; stuck exactly when the frame of a mapped page of the range is out of reach |
| Mmu.Mmu.AllocPage | src/mmu.c:244-261 | the next heap address, its page demand-allocated; NULL at the end of the heap with the interrupt depth one too high; stuck exactly when the demand allocation is |
| Mmu.Mmu.AllocPages | src/mmu.c:263-283 | a contiguous range of demand-allocated pages exactly when it fits; NULL with the depth two too high otherwise; stuck exactly when one of the demand allocations is |
| Mmu.Mmu.AllocStack | src/mmu.c:305-325 | ten demand-allocated pages downwards from the address returned; the exhaustion test never holds; the interrupt depth is restored |
| Mmu.Mmu.FreeStack | src/mmu.c:327-338 | releases ten pages upwards from the top page; nothing for an address elsewhere in a page; stuck exactly when a mapped one has its frame out of reach |
| Mmu.Mmu.StoreWord | src/arch/x86_64/paging.c:66-100 | a store through the tables reaches the mapped frame and keeps the invariant |
| Mmu.Mmu.Perform | src/arch/x86_64/paging.c:85-201 | one event makes its step, writes only in the kernel's frames, and changes no word of any other mapped page; stuck exactly when not `Reaches` |
| Mmu.Mmu.Execute | src/arch/x86_64/paging.c:85-201 | after any run of operations and stores, memory represents the address space of that run, no word outside the kernel's frames has changed, every word is still one of 64 bits, and a mapped page no event is about has its frame and all its words; the run gets stuck exactly at an operation that touches a frame out of reach |
| Mmu.Mmu.PtInit | src/arch/x86_64/paging.c:130-145 | the two tables of the identity map are set up and no other frame is written |
| Mmu.Mmu.Init | src/mmu.c:183-209 | from given free segments: a P4 table in the first frame, the identity map under entry 0, everything else free; heap addresses start at the start of the heap and stacks eight bytes below the end of theirs; stuck exactly when that frame is out of reach |
| KernelSections.SortSections | src/utils.c:4-55 | in place: sorted by base and a permutation of the input |
| KernelSections.RoundOutExact | src/mmu.c:62-74 | a rounded section, of length zero or not, covers exactly the pages the section touches |
| KernelSections.MergeInPlace | src/mmu.c:76-85 | the in-place loop ends and computes the merge |
| KernelSections.ComputeExcluded | src/mmu.c:43-88 | rounds and merges the sections |
| KernelSections.ExcludedExact | src/mmu.c:43-88 | for sorted sections the result is page-aligned, ascending with gaps, and covers exactly the rounded sections |
| KernelSections.ExcludedUnique | src/mmu.c:43-88 | the exclusions depend neither on the order of the sections nor on how sorting breaks ties |
| KernelSections.ExcludeSections | src/utils.c:4-55 | sections in any order: sorted in place, then aligned segments with gaps that cover exactly the pages some section of the input touches |
| RoundRam.RoundInExact | src/mmu.c:117-127 | a RAM segment with a page boundary is shrunk to exactly its whole pages |
| RoundRam.RoundInWraps | src/mmu.c:117-127 | without one its length wraps to all but one page of the address space |
| RoundRam.ReachFull | src/mmu.c:128-135 | because an unlinked node is kept as `prev`, no empty node stays linked exactly when no two neighbours are empty |
| RoundRam.RoundExact | src/mmu.c:115-136 | for all RAM lists, exactly when the rounding loop leaves non-empty segments holding the whole pages of RAM: every segment has a page boundary and no two neighbours both lack a whole page |
| RoundRam.RoundingGoesWrong | src/mmu.c:115-136 | two inputs for which it does not |
| SubtractExclusions.SubtractExact | src/mmu.c:138-170 | for all RAM and exclusion lists, the loop ends with exactly RAM minus exclusions in non-empty segments if and only if `Good` |
| SubtractExclusions.CorrectSplit | src/mmu.c:141-153 | splitting a segment is right unless a later exclusion reaches the part cut off |
| SubtractExclusions.SwallowIsWrong | src/mmu.c:154-164 | a segment inside an exclusion makes the loop run forever or leaves an empty segment |
| SubtractExclusions.StuckExact | src/mmu.c:166-169 | once RAM lies behind the current exclusion nothing more is removed |
| SubtractExclusions.EmptyExclusionBlocks | src/mmu.c:166-169 | an input with an empty exclusion that hands the kernel out as free memory |
| SubtractExclusions.SecondExclusionSurvives | src/mmu.c:141-153 | an input whose second exclusion is handed out as free memory |
| SubtractExclusions.SwallowedSegment | src/mmu.c:154-164 | inputs on which the loop does not end or leaves an empty segment |
| FreeSegments.RoundInPlace | src/mmu.c:102-136 | following the links after both loops visits exactly the nodes `Reach` says |
| FreeSegments.WorkIsSubtract | src/mmu.c:138-170 | the loop with its end fields never set on cut-off nodes computes `Subtract` |
| FreeSegments.SplitsAreInside | src/mmu.c:143-151 | the loop takes no more nodes than there are exclusions strictly inside RAM segments |
| FreeSegments.UnlinkingNeverEnds | src/mmu.c:155-160 | after a turn that unlinks the current node, the state never changes again and the loop is never left |
| FreeSegments.RemoveInPlace | src/mmu.c:138-170 | on linked nodes, for every input: the loop is left with exactly that list, or after every number of turns goes on, or needs a node beyond the array, and exactly when |
| BootMap.DropPageZeroExact | src/mmu.c:172-180 | removes exactly the page at address 0 |
| BootMap.FreeFramesExact | src/mmu.c:43-181 | the allocator's frames are exactly the whole RAM pages no section touches, without page 0, each once |
| BootMap.ComputeFree | src/mmu.c:43-181 | the whole computation yields those frames |
| BootMap.Boot | src/mmu.c:183-209 | for sections in any order the memory manager starts with exactly those frames, with the identity map, and with heap and stack addresses at their starts; -1 exactly for more than 128 sections or no free page; stuck exactly when no free page is in the first gigabyte |
| BootMap.BootAndRun | src/mmu.c:183-303 | from boot through any run of paging operations and stores: no word outside those frames changes, the frames in any use are exactly those, the first gigabyte still translates to itself, and with all memory in it nothing gets stuck |
| BootMap.BootAndMalloc | src/kmalloc.c:45-127 | the same from boot through any run of `kmalloc`, `kfree` and client stores, with the addresses `kmalloc` returned |
| BootMap.HighMemoryHangs | src/arch/x86_64/paging.c:167-176 | a boot map both loops handle, with memory above the first gigabyte: no demand allocation ever goes through |
| BootMap.NoKernelFrameEver | src/mmu.c:211-242 | over every run, no frame in any use overlaps a kernel section or page 0 |
| KmallocHeap.MallocWellFormed | src/kmalloc.c:83-112 | allocation keeps blocks disjoint, each in one place, each of the kind its size asks for |
| KmallocHeap.FreeWellFormed | src/kmalloc.c:114-127 | so does freeing a live block, which returns to its own pool |
| KmallocHeap.MallocResult | src/kmalloc.c:83-112 | for every heap and size: NULL exactly when nothing was asked for or there is neither a free block of the right size nor room for pages; otherwise 16 bytes behind the header of a block nobody held, the smallest that holds header and payload or of as many pages as were counted, the first free one of its pool or at the next heap address; nothing else becomes live |
| KmallocHeap.FreeResult | src/kmalloc.c:114-127 | nobody holds the block any more and all others hold what they held; the next request of that size gets it; a block of pages is gone |
| KmallocHeap.FreeUndoesMalloc | src/kmalloc.c:83-127 | freeing what was just allocated gives the heap there was before, with the blocks carved for it free |
| KmallocHeap.RefillExact | src/kmalloc.c:45-68 | a refill adds exactly the blocks that fill four pages without a gap, in ascending order, or nothing when four pages do not fit |
| KmallocHeap.RunHeld | src/kmalloc.c:83-127 | over every run the live blocks, with their sizes, are those below the addresses returned and not freed, told from requests and results |
| KmallocHeap.EveryRunDisjoint | src/kmalloc.c:45-127 | over every run all blocks are disjoint, and for every 64-bit size exactly when a live block holds its payload |
| KmallocHeap.LargeOverrun | src/kmalloc.c:99-109 | two one-page allocations: the first payload ends in the second header |
| KmallocHeap.FitsExact | src/kmalloc.c:91-104 | pool choice with its 64-bit wrap-around and page count in 32 bits: the block fits exactly when the size is `Served` |
| KmallocHeap.SizeWraps | src/kmalloc.c:91-97 | a size at which adding the header wraps: the client gets a block of 32 bytes |
| KmallocHeap.PagesTruncate | src/kmalloc.c:99-103 | a size of sixteen terabytes that is served with one page |
| VirtualMemory.BacksStore | src/arch/x86_64/paging.c:66-100 | storing a word through the page tables changes that word alone |
| VirtualMemory.BacksRelease | src/mmu.c:293-303 | releasing a range of pages changes no word outside the range |
| VirtualMemory.Touch | src/arch/x86_64/paging.c:102-128 | an access goes through exactly when the page is mapped, or reserved with a frame free |
| VirtualMemory.Load | src/arch/x86_64/paging.c:66-100 | a word that was stored is read back |
| VirtualMemory.Store | src/arch/x86_64/paging.c:102-128 | stores the word, after a fault if need be, unless the page gets no frame |
| VirtualMemory.TouchRangeExact | src/arch/x86_64/paging.c:102-128 | touching fresh pages in order goes through exactly when each was reserved and there is a frame for each |
| Kmalloc.StoreRepresents | src/kmalloc.c:8-11 | a client inside its payload touches no header |
| Kmalloc.CarveKeepsPayload | src/kmalloc.c:45-68 | carving a block writes to no payload of a live block |
| Kmalloc.FreeLargeRepresents | src/kmalloc.c:114-122 | the pages of a large block take no word of another header with them |
| Kmalloc.KernelHeap.IncreasePool | src/kmalloc.c:45-68 | carves four pages into linked blocks of the pool, -1 when there are no pages; no payload changes; exactly when it gets stuck, and the address space after it |
| Kmalloc.KernelHeap.PoolAlloc | src/kmalloc.c:70-81 | the first free block, from a refilled pool if need be |
| Kmalloc.KernelHeap.Alloc | src/kmalloc.c:83-112 | computes `Malloc`; NULL exactly when `NoBlock`, else the block `Given` to the client; changes no word in the payload of a live block; exactly when it gets stuck, at a frame out of reach or for want of one; the address space after it; the interrupt depth it leaves, two too high when heap addresses run out |
| Kmalloc.MallocFrames | src/kmalloc.c:45-112 | on fresh pages it goes through for want of frames exactly when the pages touched could be reserved and as many frames are left |
| Kmalloc.MallocNeeds | src/kmalloc.c:45-112 | in terms of the state before the call: it finds its frames if and only if there is one for every table missing on the way to the pages asked for and one for every page touched |
| Kmalloc.FreshStays | src/mmu.c:255-257 | every operation leaves the pages from the next heap address on unreserved, which that condition rests on |
| Kmalloc.FreeReleasesPages | src/kmalloc.c:119-122 | `kfree` unmaps exactly the mapped pages of a large block; a block of a pool keeps its pages |
| Kmalloc.KernelHeap.Dealloc | src/kmalloc.c:114-127 | computes `Free` from the header alone, releases the pages of a large block, and changes no word in the payload of another live block; stuck exactly when such a page has its frame out of reach, never for a block of a pool |
| Kmalloc.KernelHeap.Perform | src/kmalloc.c:45-127 | one operation and what it returns, exactly when it gets stuck, the address space after it, and that every other word stored in a live block is still there |
| Kmalloc.KernelHeap.Execute | src/kmalloc.c:45-127 | any run on demand-paged memory keeps the words in step with the heap; clients hold exactly the blocks below the addresses returned to them and not freed; a word stored in a block is read back at the end unless the block was freed or the word stored to; nothing is written outside the kernel's frames; the run stops early if and only if a page touched first gets no frame or paging is out of reach, the latter never with all memory in reach |
| Kmalloc.KernelHeap.ClientLoad | src/kmalloc.c:8-11 | a client reads back through the page tables the word it stored |
| Kmalloc.KernelHeap.AllocStack | src/mmu.c:305-325 | allocating a stack leaves the heap as it is |
| Kmalloc.KernelHeap.FreeStack | src/mmu.c:327-338 | so does freeing one |
| IntrusiveList.LlAdd | src/list.c:3-10 | links a header between two neighbours, also when they are the same |
| IntrusiveList.LlDel | src/list.c:12-19 | unlinks a header |
| IntrusiveList.LinkedList.Append | src/list.c:55-68 | the list's sequence grows by the header at its end; three headers change |
| IntrusiveList.LinkedList.Dequeue | src/list.c:70-80 | removes and returns the first, NULL when empty |
| IntrusiveList.LinkedList.Del | src/list.c:50-53 | removes any element; it and its two neighbours change |
| IntrusiveList.LinkedList.Next | src/list.c:21-30 | the cyclic successor, never the sentinel |
| IntrusiveList.LinkedList.GoRound | src/list.c:21-30 | repeated from any element it visits every element once and ends at the start |
| IntrusiveList.LinkedList.Traverse | src/list.h:13-16 | the forward links give the sequence, the backward links its reverse |
| IntrusiveList.LinkedList.Empty | src/list.c:40-43 | true exactly for the empty sequence |
| IntrusiveList.LinkedList.Head | src/list.c:32-38 | the first element or NULL |
| IntrusiveList.Enter | src/proc.h:11-13 | entering a list through one header leaves a list held through another header alone |
| IntrusiveList.Leave | src/proc.h:11-13 | so does leaving it |
| ProcessQueues.UnblockHead | src/proc.c:76-89 | on the links of the two lists, what the scheduler does to the two sequences |
| ProcessQueues.UnblockAll | src/proc.c:91-101 | the same for the loop |
| ProcessQueues.PickNext | src/proc.c:116-129 | the queue part of rescheduling on the links |
| Scheduler.StepInv | src/proc.c:65-134 | every event keeps the invariant |
| Scheduler.EveryRunOnePlace | src/proc.c:65-134 | in every reachable state each process is running and unqueued, running and queued once on its way to sleep, or queued once; main is never queued |
| Scheduler.BoundedWaiting | src/proc.c:76-134 | a process at position k of the ready queue is dispatched by exactly the (k+1)-th rescheduling, whatever else happens |
| Scheduler.RunFifo | src/proc.c:65-134 | over every run: those who waited in a queue and those who came are, in order, those who were woken and those who still wait; those who were or became ready are, in order, those who were dispatched and those who still are ready |
| Scheduler.ReadyFifo | src/proc.c:116-129 | a rescheduling runs the first of those ready, and main exactly when there is none; nothing else changes who runs |
| Scheduler.RunLive | src/proc.c:103-188 | the processes that exist are those created and not exited, told from the events |
| Scheduler.EveryRunFlags | src/proc.c:65-74 | in every reachable state a process on its way to sleep has the interrupt flag set, and so has main |
| Scheduler.MaskedUntilSection | src/proc.c:155-188 | a process whose flag is off gets it set exactly by leaving a critical section itself |
| Scheduler.MaskedTakesTail | src/arch/x86_64/interrupts.c:148-155 | while a process with its flag off runs, interrupts arrive in the tail of the trap that chose it, any number of them, and nowhere else |
| Kernel.Kernel.IrqEnable | src/arch/x86_64/interrupts.c:172-181 | only leaving the outermost section enables interrupts |
| Kernel.Kernel.IrqDisable | src/arch/x86_64/interrupts.c:183-189 | entering the outermost section disables them |
| Kernel.Kernel.BlockOn | src/proc.c:65-74 | at any depth: queues the running process and, if asked to, leaves one critical section, with the yield still to come |
| Kernel.Kernel.UnblockHead | src/proc.c:76-89 | moves the first waiting process to the ready queue, at any interrupt depth |
| Kernel.Kernel.UnblockAll | src/proc.c:91-101 | moves all of them in order |
| Kernel.Kernel.Reschedule | src/proc.c:116-134 | the next process, and interrupts off exactly when a switch is due |
| Kernel.Kernel.SwitchIfDue | src/arch/x86_64/interrupts.c:148-155 | switches, exchanges the saved flags and re-enables interrupts exactly when the next process differs |
| Kernel.Kernel.YieldTrap | src/arch/x86_64/interrupts.c:135-159 | depth 0 and no pending switch before and in its tail; every process will resume with the interrupt flag it was switched out with, a new one with none |
| Kernel.Kernel.Trap | src/arch/x86_64/interrupts.c:148-155 | who runs next, whose flags are saved and whose will be loaded; in its tail the depth is 0, no switch is pending and the interrupt flag is set, whoever was chosen |
| Kernel.Kernel.Return | src/arch/x86_64/isr.asm:28 | the return from the trap loads the flag of the process chosen |
| Kernel.Kernel.DeviceInterrupt | src/arch/x86_64/interrupts.c:135-159 | in a process or in the tail of a trap: wakes processes, never switches context, restores depth and flag |
| Kernel.Kernel.CreateProcess | src/proc.c:155-188 | the new process is ready and live, and the creator has its flag set, or -1 and nothing changed when memory is short |
| Kernel.Kernel.CreateInterrupted | src/proc.c:179-180 | an interrupt between the two unprotected insertions has the outcome of one after both |
| Kernel.Kernel.ExitProcess | src/proc.c:103-114 | the process is gone and another one runs |
| Kernel.Kernel.ExitInterrupted | src/proc.c:103-114 | what an interrupt in its window does |
| Kernel.Kernel.RunMain | src/proc.c:190-200 | main goes to sleep without entering a queue |
| Kernel.Kernel.Execute | src/proc.c:65-200 | any run of the code is a run of the transition system |
| Processes.CreateProcess | src/proc.c:155-188 | with `kmalloc` and `MMU_alloc_stack`: structure, stack with its three first words, and place in the queue; -1 exactly when the heap has no block, with the interrupt depth two too high; nothing is queued when memory gives out half way; what clients stored stays |
| Processes.ExitProcess | src/proc.c:103-114 | with `MMU_free_stack` and `kfree`: stack and structure are given back and another process runs; stuck exactly when giving back is |
| StackRuns.RunKeepsPage | src/mmu.c:305-338 | over every run of creations, touches, exits and heap operations: a stack page in use stays mapped if and only if no exit takes it |
| StackRuns.LiveStackIntact | src/proc.c:103-114 | so a live process keeps its used stack pages beyond the top one if and only if the process created next lives |
| BootedStacks.Execute | src/mmu.c:263-338 | any run of calls of the memory manager from boot is a run of `StackRuns`; the j-th stack is handed out at 4096 * Top(j) + 4088, the heap ranges are those granted in order, and no stack page lies in one; stuck exactly at a call that touches a frame out of reach |
| BootedStacks.BootAndExecute | src/mmu.c:183-338 | the same starting with `MMU_init`, on the frames of the boot map; while stack addresses are left a process can be created |
| BootedStacks.StackInRegion | src/mmu.c:312-321 | a stack lies in the addresses set aside for stacks exactly for the first 26843545; the exhaustion test stops none of the others |
| AtaProtocol.ResumedOwnsHead | src/drivers/disk/ata.c:173-180 | a reader that runs again owns the head request, and the device holds the block it asked for |
| AtaProtocol.StepInv | src/drivers/disk/ata.c:130-190 | every step keeps request queue, wait queue and device in lockstep |
| AtaProtocol.EveryReadGetsItsBlock | src/drivers/disk/ata.c:159-190 | over every run the i-th read to complete is the i-th call, by the process that made it, and gets the block whose number the call passed; calls and completions are told from the events; none fails |
| AtaProtocol.RunRecords | src/drivers/disk/ata.c:164-181 | from any state: the requests queued in a run are exactly the calls made in it, with caller and block number; the reads served are those copied |
| AtaProtocol.Projects | src/drivers/disk/ata.c:130-190 | to the scheduler a run of the protocol is one of its own |
| AtaProtocol.NeverStalls | src/drivers/disk/ata.c:167-188 | exactly when waiting requests have a command in flight or a reader about to serve them; the command in flight is that of the head request |
| AtaProtocol.TakeOpensWindow | src/drivers/disk/ata.c:180-188 | with two readers waiting that window is entered |
| AtaProtocol.StallHappens | src/drivers/disk/ata.c:180-188 | a run from boot into that window |
| AtaProtocol.BoundedService | src/drivers/disk/ata.c:159-190 | a read with k requests before it is served with its own block, or its data is there and its process woken, once k + 1 completion interrupts have come |
| AtaProtocol.WokenIsDispatched | src/drivers/disk/ata.c:173-181 | a woken reader with p processes before it runs after exactly p + 1 reschedulings and can take its request |
| Ata.AtaDevice.ReadBegin | src/drivers/disk/ata.c:164-173 | makes the step `Ask`: the request with the caller and the block number is queued, and its command issued if it is the only one |
| Ata.AtaDevice.Isr | src/drivers/disk/ata.c:130-145 | makes the step `Complete` |
| Ata.AtaDevice.ReadData | src/drivers/disk/ata.c:120-128 | copies all 256 words of the device's block |
| Ata.AtaDevice.TakeRequest | src/drivers/disk/ata.c:175-180 | makes the step `Take`, and never fails in a state the protocol reaches |
| Ata.AtaDevice.CopyBlock | src/drivers/disk/ata.c:181 | makes the step `Copy` and fills the buffer with the device's block |
| Ata.AtaDevice.IssueNext | src/drivers/disk/ata.c:183-188 | makes the step `Issue` |
| Ata.AtaDevice.ReadEnd | src/drivers/disk/ata.c:175-190 | in every state the protocol reaches it returns 0 with the block asked for and the next command issued |
| Ata.AtaDevice.Execute | src/drivers/disk/ata.c:130-190 | any run, interrupts in the middle of a read included, is a run of the protocol, and the i-th completed read delivered the words of the block whose number the i-th call passed |
| Ps2Protocol.ProduceHolds | src/drivers/keyboard/ps2.c:70-74 | the ring holds the last 128 characters produced |
| Ps2Protocol.SliceIsHistory | src/drivers/keyboard/ps2.c:63-79 | what a reader gets, wrap-around included, and exactly when it misses nothing |
| Ps2Protocol.StepInv | src/drivers/keyboard/ps2.c:176-185 | every step keeps the invariant |
| Ps2Protocol.EveryRunWakesReaders | src/drivers/keyboard/ps2.c:266-282 | in every reachable state the position of a sleeping reader's file is the device's, what was not read from it is a multiple of 128 characters, and nothing exactly when fewer than 128 were outstanding as the reader went to sleep; every read returned the right characters |
| Ps2Protocol.EveryReadInSequence | src/drivers/keyboard/ps2.c:246-282 | over every run from boot, told from the events: the characters produced are those typed, the first reading of a file starts where the device was when the file was opened, and each one goes on where the last of that file ended |
| Ps2Protocol.RunReturns | src/drivers/keyboard/ps2.c:271-281 | exactly those reads return that find characters, each with the number asked for or outstanding modulo 128, whichever is less |
| Ps2Protocol.OpenThenRead | src/drivers/keyboard/ps2.c:256-275 | whoever reads a file right after opening it goes to sleep, whatever was typed before |
| Ps2Protocol.Projects | src/drivers/keyboard/ps2.c:176-282 | to the scheduler a run of the driver is one of its own |
| Ps2Protocol.SleepsOnUnread | src/drivers/keyboard/ps2.c:271-275 | open, 128 keys, read: a run from boot that puts the reader to sleep with 128 characters unread |
| Ps2Protocol.KeyInTail | src/arch/x86_64/interrupts.c:148-155 | a run from boot: a key in the tail of the trap into a process with its flag off wakes a reader |
| Ps2.Ps2Device.ProducerAdd | src/drivers/keyboard/ps2.c:70-74 | writes at the position and advances it |
| Ps2.Ps2Device.ConsumerReadNext | src/drivers/keyboard/ps2.c:63-68 | reads at the reader's position and advances it |
| Ps2.Ps2Device.ConsumerHasBytes | src/drivers/keyboard/ps2.c:76-79 | true exactly when characters are available |
| Ps2.Ps2Device.CopyOut | src/drivers/keyboard/ps2.c:277-278 | copies as many as asked for and available, in order |
| Ps2.Ps2Device.Isr | src/drivers/keyboard/ps2.c:176-185 | makes the step `Key`, or none for a code without a character |
| Ps2.Ps2Device.Open | src/drivers/keyboard/ps2.c:246-264 | the file starts at the device's position, with all typed so far behind it, and is counted; -1 and no change without memory |
| Ps2.Ps2Device.ReadAttempt | src/drivers/keyboard/ps2.c:266-282 | blocks exactly when nothing is available, else makes the step `Attempt` and returns its characters |
| Ps2.Ps2Device.Execute | src/drivers/keyboard/ps2.c:176-282 | any run is a run of the protocol, and the readers' buffers hold the characters it says |
| Serial.RunInOrder | src/drivers/serial/x86.c:36-81 | over every run the port emits a prefix of the accepted characters |
| Serial.RunExact | src/drivers/serial/x86.c:36-81 | over every run, told from the events: accepted are exactly the characters written with fewer than 1023 queued, and sent are as many of them, in order, as events found the transmitter empty and a character to send |
| Serial.StepExact | src/drivers/serial/x86.c:59-81 | the same for one event, with the number queued after it |
| Serial.Drains | src/drivers/serial/x86.c:59-65 | as many transmit interrupts as characters are queued send them all |
| Serial.SerialDevice.Execute | src/drivers/serial/x86.c:36-81 | any run of writes and interrupts on the ring in memory is such a run, and the wire carries what it says |
| Serial.AddHolds | src/drivers/serial/x86.c:49-57 | the ring is full exactly at 1023 characters; adding appends |
| Serial.EmitHolds | src/drivers/serial/x86.c:36-47 | equal positions mean empty; emitting takes the first |
| Serial.SerialDevice.ProducerAddChar | src/drivers/serial/x86.c:49-57 | appends, or drops exactly when 1023 are queued |
| Serial.SerialDevice.ConsumerWriteNext | src/drivers/serial/x86.c:36-47 | writes the first queued character to the port |
| Serial.SerialDevice.Write | src/drivers/serial/x86.c:67-81 | adds, then writes the first queued character to the port exactly if the transmitter is empty |
| Serial.SerialDevice.Isr | src/drivers/serial/x86.c:59-65 | emits if the transmitter is empty |

## Left out

- Port I/O, PIC, PCI and PS/2 controller set-up, busy-wait loops, register save and load, TLB, accessed and dirty bits, GDT, IDT: hardware plumbing; the disk is a device that is idle, busy or holding data, with one interrupt per command.
- Errors reported by the disk (`src/drivers/disk/ata.c:139-142`, `src/drivers/disk/ata.c:176-179`): they leave a request queued for good, so the protocol is modelled for error-free completions.
- Mmu.Mmu.FreeFrame: with memory above 512 GB the address of a frame out of reach can lead to another frame instead of faulting (`KernelReach.AddressLeads`); the model ends there too.
- Operations on addresses under P4 entry 0: those entries map huge pages, which `pt_walk` is not written for; the operations are modelled for all other pages of the 48-bit space, heap and stacks included, and translation for all of them.
- Sorting of RAM segments (`src/utils.c:57-85`), which swaps by the wrong structure: RAM is taken as sorted, without overlap and below 2^52.
- BootMap.Boot: the boot map must satisfy `Bootable`, whose parts `RoundExact` and `SubtractExact` show to be needed, with room for the nodes; on other maps the loops are modelled one by one (`RoundInPlace`, `RemoveInPlace`), not what the allocator does with a wrong list.
- Mmu.Mmu.AllocStack: stated while stack addresses are above P4 entry 0, because the exhaustion test never stops them from running into it.
- Mmu.Mmu.Execute: `MMU_alloc_pages` enters runs through its demand allocations; the order of its heap addresses is `GrantedDisjoint` and `GrantedAll`, and whole calls are run in `BootedStacks.Execute`.
- Kmalloc.KernelHeap.Alloc: a pointer to pool i is the word i + 1; a page count of 2^31 - 1 that is incremented wraps, which C leaves undefined.
- Kernel.Kernel.CreateProcess: an interrupt in the middle of one insertion is not modelled, only between the two (`CreateInterrupted`); memory is joined to it in `Processes.CreateProcess`, and what runs on with the interrupt depth a failure leaves is not followed; in the failing path the use of the name of a process that was not allocated is not.
- Kernel.Kernel.ExitProcess: clearing `curr_proc` and the trap are one step; `ExitInterrupted` shows why.
- Processes.CreateProcess: the contents of the process structure are not modelled, except its saved interrupt flag.
- Processes.ExitProcess: that the process goes on running on the page it has freed, as long as the TLB remembers it, is not modelled; `FreeStackUnmapsTop` says what the tables say.
- Ps2.Ps2Device.Open: set-up of the controller at the first open is hardware plumbing.
- The return value of the loop in `PROC_run`, process names, contents of stacks beyond their first three words, and the dump functions: nothing else depends on them.
- `ps2_close` and scan-code translation: `ps2_close` frees the file instead of the reader's state, and the translation is a table.
- The file system, FAT, `printk`, VGA, string routines, boot and ELF parsing: the directory code is unfinished, the rest moves bytes; what boot and ELF parsing produce is the model's input.
