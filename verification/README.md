# The kernel memory stack, the boot information and the text output, modelled and proved

The kernel's memory management has five layers, and each one relies on the one below it. The boot
block allocator builds a bitmap of physical blocks from the loader's memory map; the boot paging code
takes five of these blocks and builds the first address space, whose directory names itself; the
runtime block allocator inherits the bitmap; the page manager and `brk`/`sbrk` edit page tables
through the window that the self-entry opens; and on top of `sbrk` stands a K&R heap with a circular,
address-ordered, coalescing free list. Two smaller parts stand beside the stack: the walk over the
Multiboot2 boot information together with its relocation, and the way from a format string to the
screen (`itoa`, `vprintf`, the scrolling display).

Every operation that changes state is a method of a class whose fields are the source's variables,
proved equal to a function of the old state. What the source promises is then proved about these
functions: invariants of every step and of whole runs, round trips, conservation laws, and, where the
code falls short of a promise, the exact condition under which it keeps it.

## How to read the model

- **Heap** (`Tilings`, `HeapModel`, `HeapProofs`, `MallocProofs`, `SearchLoop`, `Allocator`,
  `NextFit`, `HeapRuns`, `HeapFrame`, `HeapMisfire`, `HeapWraps`, `HeapOnBreak`). The heap is the
  free list as a sequence of header addresses, the size fields, the set of live headers and the
  rover. The two adjacency tests of `free` (`libc/stdlib/malloc.c:97` and `:105`) add a byte count
  to a header pointer, so C multiplies the count by eight. All operations take a flag `scaled`: true
  is the file as it is written, false compares byte addresses as line 62 of the same file does.
  Results about single calls hold for both readings, with the exact condition for the written one;
  results about whole runs are for byte addresses and requests that are multiples of the header
  size. `HeapMisfire` runs the written file into an overlap of a free and a live block, and into a
  remainder too short for a header. All sums are sums modulo 2^32: `HeapWraps` follows the search
  with any 32-bit request and says exactly which requests break the promise of `malloc` on an sbrk
  that may grant any break; `HeapOnBreak` says the same for the kernel's own sbrk, which grants no
  break in a lower page. The other results are for requests that the guard of `HeapWraps` lets
  through (`HeapModel.Sane` and `MallocProofs.Clear`, which a heap in the upper half of the address
  space meets for all requests below two gigabytes). The answers of `sbrk` are an arbitrary
  sequence, except in `HeapOnBreak`, where they are those of the break with its pages and blocks.
  The class carries ghost fields that count the requests to sbrk and collect the headers that are
  written.
- **Blocks** (`Words`, `Bitmap`, `BlockAllocator`, `BootBitmap`, `BootAllocator`). Machine words are
  numbers below 2^32 with `|`, `&`, `~`, `>>` defined bit by bit; counters wrap.
- **Pages** (`PageTables`, `PageManager`, `HeapPages`, `ProgramBreak`, `BootPaging`, `Handover`).
  All of physical memory is one array of 2^20 frames of 1024 words, and the hardware's walk is the
  two-level one of section 4.3 of the Intel SDM volume 3A. The page manager reads and writes entries
  only through virtual addresses in the window. `Handover` shows that what the boot code leaves is
  what the kernel's heap starts from, and puts all layers together.
- **Boot information** (`Multiboot2`, `BootInfo`). The tag list is a sequence of tags and its
  encoding as bytes, after sections 3.6.1 to 3.6.8 of the Multiboot2 Specification version 2.0.
- **Output** (`Numerals`, `Printf`, `Display`). A recursive specification of formats, and a terminal
  that keeps every row, of which the screen shows a window of 25. The printer writes on the screen,
  character by character, so that the contract of `vprintf` speaks of the terminal.

Some promises turn out not to hold of the code as it is, and the lemmas say when they do. `free`
keeps the tiling exactly when its tests join blocks that touch (`HeapProofs.ReleaseKeepsTilingIff`,
`HeapProofs.ScaledMergesAreWrong`). Unmapping undoes mapping exactly when the page table goes as it
came, because a new table is not cleared (`PageManager.MapAddsOneBindingIff`,
`PageManager.UnmapUndoesMapIff`). `brk` leaves the heap exact exactly when there are enough blocks:
without any, it maps physical block 0 and may even report success, and a break that moves to a lower
page takes every free block and fails (`ProgramBreak.BrkIsExactIff`,
`HeapPages.OutOfBlocksMapsNull`, `ProgramBreak.LoweringTakesEverything`). With byte
addresses and sizes in multiples of the header, `malloc` keeps its promise exactly when neither of
its sums wraps and the break it asks for does not come back into the page of the old one
(`HeapOnBreak.CallsKeepTheirPromiseIff`). And a tab is four blanks exactly when the screen does not
move under it (`Display.TabIsFourBlanksIff`).

## Model

| member | source | states |
|---|---|---|
| Tilings.EveryByteOnce | libc/stdlib/malloc.c:23-31 | blocks that tile a range put every byte of it, and no other byte, into exactly one block |
| HeapProofs.ReleaseKeepsTilingIff | libc/stdlib/malloc.c:86-113 | for either reading of the adjacency tests: `free` of a live block keeps ring, address order and tiling if and only if its merges join blocks that touch |
| HeapProofs.BytewiseMergesAreExact | libc/stdlib/malloc.c:96-110 | with byte addresses the tests succeed exactly for the free neighbours that touch the block |
| HeapProofs.ScaledMergesAreWrong | libc/stdlib/malloc.c:97-105 | as written, every merge that happens joins blocks that do not touch, except into the lone static header |
| HeapModel.SlotIsUnique | libc/stdlib/malloc.c:90-94 | the place where a block belongs in the ordered ring is unique |
| Allocator.KernelHeap.FindPlace | libc/stdlib/malloc.c:90-94 | from any rover the search loop of `free` ends at that place |
| Allocator.KernelHeap.Coalesce | libc/stdlib/malloc.c:96-110 | the links and sizes after both merge steps |
| Allocator.KernelHeap.Free | libc/stdlib/malloc.c:86-113 | the new heap is the released one, it satisfies the invariant exactly when the merges are sound, only headers that a call may write are written, and `_next_free` is the listed header next below the block |
| MallocProofs.BytewiseReleaseStaysCoalesced | libc/stdlib/malloc.c:86-113 | with byte addresses `free` keeps the invariant and leaves no two touching free blocks |
| MallocProofs.ServeKeepsTilingIff | libc/stdlib/malloc.c:56-68 | serving a request keeps the invariant if and only if the remainder is nothing or at least a header |
| MallocProofs.MallocKeepsTilingIff | libc/stdlib/malloc.c:43-77 | the same for a whole call, with up to two growths, whose 32-bit sums stay clear |
| MallocProofs.MallocHandsOutNewBlock | libc/stdlib/malloc.c:43-77 | for such a call: the block handed out was not live, has the size asked for, and all other live blocks keep their sizes |
| MallocProofs.NullMeansRefused | libc/stdlib/malloc.c:71-76 | for such a call: at most two requests to sbrk, and NULL only after one that was refused |
| MallocProofs.HighHeapsAreClear | libc/stdlib/malloc.c:129-139 | with the heap in the upper half of the address space the sums of every request below two gigabytes stay clear |
| SearchLoop.HuntIsSearch | libc/stdlib/malloc.c:54-77 | the loop, which goes on from the block that morecore returns and not from the rover, ends, and finds the first fit, the grown block at the top, or nothing; for sums that stay clear |
| Allocator.KernelHeap.Morecore | libc/stdlib/malloc.c:129-145 | one request to sbrk, of size plus a header in 32 bits; when granted, the region is freed into the list, and the region's header comes back even if it was merged |
| Allocator.KernelHeap.Malloc | libc/stdlib/malloc.c:43-81 | the program on linked headers computes the outcome that the lemmas above are about, asks sbrk exactly as often as they say and at most twice, writes only the headers that a call may write, and leaves `_next_free` at the header before the block that served the call, whose upper end the pointer is |
| MallocProofs.FreeUndoesMalloc | libc/stdlib/malloc.c:56-113 | with byte addresses, `free` of a block just served restores list, sizes and live blocks, for splits and exact matches |
| MallocProofs.FreeUndoesMallocCall | libc/stdlib/malloc.c:43-113 | the same for a whole call of `malloc` when something fits |
| NextFit.MallocLeavesOff | libc/stdlib/malloc.c:54-67 | the request is cut off the upper end of the block where the search ends, or takes that block out of the list, and `_next_free` is then the header before it in the list that was searched |
| NextFit.FreeLeavesOff | libc/stdlib/malloc.c:90-112 | whatever `free` merges, `_next_free` is then the listed header next below the block |
| NextFit.SecondCallGoesOn | libc/stdlib/malloc.c:48-66 | next fit: a call that is served without sbrk takes the lowest block that fits above the header before the one that served the last call, and only without any the lowest of all |
| NextFit.ThirdCallGoesOn | libc/stdlib/malloc.c:48-66 | as written, malloc(8) after malloc(48) and malloc(1000) takes the 16 bytes that the second call left, and not the first block that fits |
| MallocProofs.ScaledFreeUndoesMallocIff | libc/stdlib/malloc.c:56-113 | as written, it does so if and only if the match was exact and the release makes no wrong merge |
| HeapRuns.RunsKeepGood | libc/stdlib/malloc.c:43-145 | over every run of `malloc`, with sums that stay clear, and of `free` on live blocks: invariant, no touching free blocks, sizes multiples of the header |
| HeapRuns.RunsTileTheHeap | libc/stdlib/malloc.c:43-145 | after every such run from the empty heap each byte from sbrk lies in exactly one block, free or live but not both |
| HeapFrame.StepSparesLiveBlocks | libc/stdlib/malloc.c:43-145 | no header that a call may write, by the contracts of the program, shares a byte with a block that stays live, and such blocks keep their sizes |
| HeapMisfire.FreeOverlapsLiveBlock | libc/stdlib/malloc.c:96-110 | as written, malloc(48), malloc(0) and `free` of the second leave a free block that reaches into the first |
| HeapMisfire.SplinterIsLeft | libc/stdlib/malloc.c:60-63 | malloc(48) and then malloc(955) leave a remainder of 5 bytes, and the invariant is lost |
| HeapWraps.KeptWithAnySbrkIff | libc/stdlib/malloc.c:43-145 | for every 32-bit size that is a multiple of the header, on an sbrk that may answer as it likes and also grant a lower break: a new block with room for it in a heap in order, or NULL with nothing lost, after at most two requests, if and only if the guard on the two sums and on the break holds |
| HeapWraps.WrappedSumHitsLiveBlock | libc/stdlib/malloc.c:45-63 | after malloc(48), malloc(2^32 - 8) looks for 0 bytes and hands out the live block, with its size set to 0 |
| HeapWraps.WrappedRequestAsksOn | libc/stdlib/malloc.c:129-133 | malloc(2^32 - 16) asks sbrk for 1024 bytes, and again after every grant |
| HeapWraps.WrappedBreakOverlaps | libc/stdlib/malloc.c:129-143 | after malloc(48), malloc(2^32 - 80) asks for a break 64 bytes below the old one, and a grant leaves the heap out of order |
| HeapOnBreak.RunsStayCoupled | libc/stdlib/malloc.c:129-145 | over every run of `malloc` and `free` on the kernel's own break, with enough blocks: the break of the heap is the program break, and both layers keep their invariants |
| HeapOnBreak.RunsAreBacked | kernel/arch/i386/memory.c:78-90 | after every such run the blocks tile the memory from the heap's base to the break, and each of their bytes is mapped, in a page whose frame no other page shows |
| HeapOnBreak.KernelStarts | kernel/kernel/kernel.c:28-30 | the kernel's first `brk`, to the heap's base, succeeds if it finds its blocks, and leaves what such a run can start from |
| HeapOnBreak.CallsKeepTheirPromiseIff | libc/stdlib/malloc.c:43-145 | the same on the kernel's own break, with the answers of its sbrk, whatever blocks there are: if and only if neither sum wraps and the break, where one is asked for, does not come back within the page of the old one |
| HeapOnBreak.BreakComesBack | kernel/arch/i386/memory.c:64-66 | the kernel's sbrk grants the request of malloc(2^32 - 80) after malloc(48), without taking a block, and returns the old break |
| Bitmap.MarkMarks | kernel/arch/i386/balloc.c:40-45 | the or with a shifted one sets the bit of that block and leaves all others |
| Bitmap.UnmarkUndoesMark | kernel/arch/i386/balloc.c:47-52 | clearing the bit just set restores the bitmap word for word |
| Bitmap.FirstFree | kernel/arch/i386/balloc.c:26-38 | the nested scan returns the least free block below 32 times the number of whole units, or reports that there is none |
| Bitmap.SearchableBlocks | kernel/arch/i386/balloc.c:26-29 | the search looks at all blocks but those of a last unit that is not whole |
| Bitmap.MarkedBit | kernel/arch/i386/balloc.c:40-58 | the bit of block 32 i + j is the one of value 2^j in unit i |
| BlockAllocator.AllocateBlockTakesLeast | kernel/arch/i386/balloc.c:60-69 | NULL exactly if no searchable block is free or block 0 is; otherwise the least free block, and only its bit changes |
| BlockAllocator.DeallocateUndoesAllocate | kernel/arch/i386/balloc.c:60-80 | bitmap and counter are restored |
| BlockAllocator.DeallocateBlockGives | kernel/arch/i386/balloc.c:71-80 | exactly the block's bit is cleared, and only if the block exists |
| BlockAllocator.AllocatesIffFree | kernel/arch/i386/balloc.c:60-69 | with block 0 in use, a block is handed out exactly if the count of free ones is not zero, and the count falls by one |
| BlockAllocator.RunsStayAccounted | kernel/arch/i386/balloc.c:26-80 | over every run the bitmap is the first one plus the outstanding blocks, each handed out once, and the counter keeps its distance from it |
| BlockAllocator.RunsRestoreTheMap | kernel/arch/i386/balloc.c:26-80 | a run that gives everything back leaves the bitmap as it was |
| BlockAllocator.Allocator.AllocateBlock | kernel/arch/i386/balloc.c:60-69 | the program on the array does what the lemmas are about |
| BlockAllocator.Allocator.DeallocateBlock | kernel/arch/i386/balloc.c:71-80 | likewise, with the bit test before the range test |
| BootInfo.Walker.FindTag | kernel/init/init/multiboot/mboot2.c:184-212 | the first tag of the kind, or NULL exactly if there is none; the walk ends and stays inside the structure |
| BootInfo.Walker.NextMmap | kernel/init/init/multiboot/mboot2.c:215-245 | one step of the iterator over the first memory map, and none without a map |
| BootInfo.EntriesComeOnce | kernel/init/init/multiboot/mboot2.c:102-124 | repeated reads yield every entry once, in order, and then nothing for ever |
| BootInfo.ReadDeliversEntry | kernel/init/init/multiboot/mboot2.c:102-124 | read k delivers base, length and type from the bytes where the loader wrote them, in this order |
| BootInfo.MapRoundTrips | kernel/init/init/multiboot/mboot2.c:102-124 | the iterator reads back, entry by entry, the map that the loader wrote |
| Multiboot2.LowByteFirst | kernel/init/init/multiboot/mboot2.c:39-46 | numbers are stored with the lowest byte first |
| BootInfo.EntriesAreFoundIff | kernel/init/init/multiboot/mboot2.c:231-234 | the iterator, with its fixed step of 24 bytes, delivers the loader's entries in every memory map of that entry size and count if and only if 24 is the entry size, or there is at most one entry |
| BootInfo.Walker.CheckTags | kernel/init/init/multiboot/mboot2.c:150-179 | success exactly if both required tags are there, and which error otherwise |
| BootInfo.Walker.GetMemorySize | kernel/init/init/multiboot/mboot2.c:90-100 | lower plus upper memory of the first size tag in 32 bits, or none |
| BootInfo.Memcpy | kernel/init/init/kutils.c:17-24 | what the ascending copy leaves when the ranges overlap: the head repeated |
| BootInfo.RelocationKeepsInfoIff | kernel/init/init/multiboot/mboot2.c:126-146 | the structure survives the move if and only if its old place is at or below the kernel's end, at or above the new place, or it happens to repeat itself |
| BootInfo.ShiftedInfoIsLost | kernel/init/init/multiboot/mboot2.c:126-146 | a structure that lies 8 bytes above the kernel's end does not survive, unless its length is a multiple of 256 |
| BootInfo.EmptyInfoIsLost | kernel/init/init/multiboot/mboot2.c:126-146 | a memory in which that happens |
| BootInfo.Walker.Relocate | kernel/init/init/multiboot/mboot2.c:126-146 | the program computes that copy and moves its own address along |
| BootBitmap.InitializedMap | kernel/init/init/memory/kmemlow.c:89-108 | a block is free exactly if an available entry covers it and it lies above the low megabyte and the kernel with its bitmap |
| BootBitmap.CoveredBlocks | kernel/init/init/memory/kmemlow.c:92-102 | an entry covers, if its type is 1, as many pages of 4096 bytes as its length has, from the page of its base on, both cut to 32 bits |
| BootBitmap.EntryOrderDoesNotMatter | kernel/init/init/memory/kmemlow.c:89-108 | the bitmap depends on the set of entries alone |
| BootBitmap.CounterAgainstMap | kernel/init/init/memory/kmemlow.c:178-204 | the number of marked blocks after initialization, in the quantities that the counter adds up |
| BootAllocator.Allocator.ReserveRegion | kernel/init/init/memory/kmemlow.c:178-191 | the bits of the range are set one by one, and the counter grows by the whole range |
| BootAllocator.Allocator.FreeMap | kernel/init/init/memory/kmemlow.c:92-102 | the loop over the memory map frees every available entry |
| BootAllocator.Allocator.InitAllocator | kernel/init/init/memory/kmemlow.c:51-118 | a block for every whole 4 kilobytes of memory, the least number of units with a bit for each, the kernel's end at the next page boundary above them, bitmap and counter; the boot information, where its place survives the move, is valid and lies above the bitmap |
| BootAllocator.Allocator.Alloc | kernel/init/init/memory/kmemlow.c:140-153 | the least free block, which the counter does not hear of; block 0 comes back as NULL, and stays free only if an earlier error is pending |
| BootAllocator.Allocator.Free | kernel/init/init/memory/kmemlow.c:156-174 | the bit of a block below the number of blocks is cleared |
| BootAllocator.DriftAfterInit | kernel/init/init/memory/kmemlow.c:51-118 | counter minus marked blocks is the number of reserved blocks that were marked already |
| Handover.DriftFromBootOn | kernel/init/init/memory/kmemlow.c:140-153 | five less after the setup of paging, and constant over every run of the kernel's allocator |
| PageTables.WindowReachesEntries | kernel/init/init/memory/paging.c:90 | with the self-entry, the walk through the window reaches exactly the entry of the table, and in its last page that of the directory |
| PageTables.WindowHasHoles | kernel/init/init/memory/paging.c:90 | where there is no table, nothing is mapped in the window |
| PageTables.WritingAnEntry | kernel/arch/i386/pagemngr.c:65-71 | writing an entry of a private table changes that entry and no other |
| PageTables.WritingTheDirectory | kernel/arch/i386/pagemngr.c:61 | writing a directory entry puts the words of one frame, or nothing, in place of one table, and changes nothing else |
| PageManager.MapFailsIff | kernel/arch/i386/pagemngr.c:52-69 | when mapping fails; a binding is never overwritten |
| PageManager.FailureKeepsTable | kernel/arch/i386/pagemngr.c:56-69 | a mapping that fails after it has made a table keeps the table and its block |
| PageManager.MapAddsOneBindingIff | kernel/arch/i386/pagemngr.c:52-74 | mapping adds its binding, and no other exactly if the table was there or its frame holds no entries |
| PageManager.StaleFrameStrays | kernel/arch/i386/pagemngr.c:56-62 | every sound machine without the table and with a free block has a sound variant, different in that block alone, on which mapping binds a second page and unmapping does not undo it |
| PageManager.UnmapRemovesOneBinding | kernel/arch/i386/pagemngr.c:76-102 | unmapping removes exactly that binding |
| PageManager.UnmapReturnsFlags | kernel/arch/i386/pagemngr.c:83-101 | what comes back for a block mapped at a page boundary is 1, the flag and not the frame; NULL if nothing was mapped |
| PageManager.UnmapFreesTableIff | kernel/arch/i386/pagemngr.c:86-97 | table and frame go exactly with the last entry |
| PageManager.UnmapUndoesMapIff | kernel/arch/i386/pagemngr.c:52-102 | after any successful mapping, memory, bitmap and counter are restored if and only if the table goes as it came |
| PageManager.MapKeepsSound | kernel/arch/i386/pagemngr.c:52-74 | self-entry, private tables, and frames in use behind all pages are kept |
| PageManager.UnmapKeepsSound | kernel/arch/i386/pagemngr.c:76-102 | the same for unmapping |
| HeapPages.UnmapKeepsGood | kernel/arch/i386/pagemngr.c:86-97 | unmapping gives back page tables that hold only zeros |
| PageManager.Pager.MapBlock | kernel/arch/i386/pagemngr.c:52-74 | the program, which reaches all entries through the window, computes the mapping, for all addresses |
| PageManager.Pager.UnmapBlock | kernel/arch/i386/pagemngr.c:76-102 | likewise for unmapping, with the scan for an entry that is left, for all pages but the last |
| HeapPages.GrowsExactlyIff | kernel/arch/i386/memory.c:92-110 | the loop adds exactly the pages asked for, each with a block of its own, if and only if the free blocks suffice for pages and missing tables, and takes just those |
| HeapPages.OutOfBlocksMapsNull | kernel/arch/i386/memory.c:94-109 | without a block the first page is mapped to block 0, with success reported for a single page |
| HeapPages.RollBackFreesBlockZero | kernel/arch/i386/memory.c:96-103 | where the page that the way out unmaps is mapped, the flag that comes back is freed as an address: block 0 becomes free |
| ProgramBreak.BrkIsExactIff | kernel/arch/i386/memory.c:33-76 | a new break is granted with the heap exact if and only if it is not in a lower page and there are enough blocks; also for breaks so far up that the blocks run out before |
| ProgramBreak.BreakMapsItsPage | kernel/arch/i386/memory.c:33-76 | a granted break maps the page that it lies in, also where it begins one, and none above |
| ProgramBreak.Refusals | kernel/arch/i386/memory.c:34-90 | which error a call without a base or below it leaves, that sbrk turns into ENOMEM, and that an increment of 0 changes nothing |
| ProgramBreak.LoweringTakesEverything | kernel/arch/i386/memory.c:58-72 | a break in a lower page: the call takes every free block and fails, with the break as before, and the heap stays exact if and only if there was neither a table for its next page nor a block to spare for one |
| ProgramBreak.SbrkGrants | kernel/arch/i386/memory.c:33-90 | sbrk grants nothing in a lower page or below the base, and always grants what needs no more than one new page, with a block or without |
| ProgramBreak.SbrkRangeIsMapped | kernel/arch/i386/memory.c:78-90 | the range that sbrk returns is mapped, to frames that no other page shows |
| ProgramBreak.RunsKeepHeapExact | kernel/arch/i386/memory.c:33-90 | over every run with enough blocks the mapped heap pages are exactly those up to the break, and stay mapped |
| ProgramBreak.HeapEnds | kernel/arch/i386/memory.c:33-76 | nothing is mapped between the heap and the stack page |
| ProgramBreak.Kernel.Brk | kernel/arch/i386/memory.c:33-76 | the program, with its three cases and its unsigned count of pages, computes the new break |
| ProgramBreak.Kernel.Sbrk | kernel/arch/i386/memory.c:78-90 | the old break, or -1 and ENOMEM |
| ProgramBreak.Kernel.AllocateNewBrk | kernel/arch/i386/memory.c:92-110 | the loop with its way out computes the growth |
| BootPaging.EntryForIsOr | kernel/init/init/memory/paging.c:7-9 | the flags or-ed into a frame address are added to it |
| BootPaging.WalkIsPromisedIff | kernel/init/init/memory/paging.c:41-165 | the walk is identity on the first megabyte, linear on the kernel, one stack page, the window, and nothing else, if and only if the kernel ends within its one table |
| BootPaging.ChosenFrames | kernel/init/init/memory/paging.c:73-165 | the five frames are distinct, were free, and are all that is taken |
| BootPaging.Setup.SetupPaging | kernel/init/init/memory/paging.c:41-63 | success exactly if five blocks are free, and memory is then the one whose walk is described above; otherwise an error code, with every free block taken and nothing written outside these |
| BootPaging.Setup.MapKernelPages | kernel/init/init/memory/paging.c:140-142 | the loop fills the one table, with its index wrapping |
| Handover.InitializedIsPrepared | kernel/init/init/memory/kmemlow.c:104-108 | the bitmap of the boot allocator reserves everything below the kernel's end |
| Handover.HeapStartsExact | kernel/init/init/kinit.c:35-37 | what the boot code hands over is a sound address space with an empty, exact heap at the kernel's end |
| Handover.KernelHeapIsBacked | kernel/kernel/kernel.c:27-30 | all layers in one: from the tables of the boot code, through the first `brk` and any run of `malloc` and `free` with enough blocks, the heap's blocks tile the memory from the kernel's end to the break, and each byte of them is mapped to a frame that no other page shows |
| Numerals.NumeralRoundTrips | kernel/kernel/itoa.c:19-50 | the numeral parses back to the number and has no leading zero |
| Numerals.NumeralFits | kernel/kernel/itoa.c:36-45 | at most 32 digits, so that the overflow exit is never taken |
| Numerals.Itoa | kernel/kernel/itoa.c:19-50 | the buffer holds the numeral and a terminator, the length comes back, and a bad base gives an empty string and ERANGE |
| Numerals.CopyDown | kernel/kernel/itoa.c:47-48 | the ascending copy within the buffer is right although it overlaps |
| Numerals.MakeUlongString | kernel/init/init/kutils.c:38-58 | the same in lower case, with zero printed before the base is looked at |
| Numerals.LowerNumeral | kernel/init/init/kutils.c:32-58 | its numerals read back in the digits 0-9 and a-f of the base alone |
| Numerals.SameDigits | kernel/init/init/kutils.c:32-58 | the two printers agree up to letter case |
| Printf.Literal | libc/stdio/vprintf.c:40-62 | the branch for ordinary text consumes it up to the next percent sign and prints what the specification prints for it |
| Printf.Conversion | libc/stdio/vprintf.c:65-156 | the same for conversions, unknown specifiers and a percent sign at the end |
| Printf.Printer.Vprintf | libc/stdio/vprintf.c:36-159 | the text of the recursive specification is typed on the terminal that the screen shows, and its length comes back, exactly if that fits an int and the text holds no 0xff; otherwise -1 after a part of it, with EOVERFLOW if the length was the reason |
| Printf.Printer.Putchar | libc/stdio/putchar.c:7-14 | a character goes to the screen as the unsigned form of a signed char, and EOF comes back for 0xff alone |
| Printf.EscapedTextStands | libc/stdio/vprintf.c:36-62 | text printed on a cleared screen stands there from the first cell on, 80 characters in a row |
| Printf.EscapedPrintsItself | libc/stdio/vprintf.c:40-62 | text with its percent signs doubled prints as itself |
| Printf.NumbersReadBack | libc/stdio/vprintf.c:88-141 | every number conversion prints the numeral of the 32-bit pattern, in digits 0-9 and A-Z without a leading zero: base 16 for x and X, 10 for u, d and i, 8 for o, 2 for b |
| Printf.TextComesOut | libc/stdio/vprintf.c:65-87 | %s and %c print the argument itself |
| Printf.UnknownComesOut | libc/stdio/vprintf.c:144-156 | from an unknown specifier on, and from a percent sign at the end, the format is printed as it is |
| Printf.AddressInHex | libc/stdio/vprintf.c:88-106 | 0x%x prints 0xc0200000 as 0xC0200000 |
| Display.NextRow | kernel/arch/i386/display.c:92-104 | completing a row, with or without scrolling, shows the terminal with one more row |
| Display.PlainTextWraps | kernel/arch/i386/display.c:57-60 | character k of plain text stands in row k / 80 and column k % 80 |
| Display.NewlineGoesDown | kernel/arch/i386/display.c:49-57 | a newline or carriage return takes the cursor to column 0 of the row below, blanks the cell where it stood and no other, and comes to the row that is there or to an empty one |
| Display.LineBegins | kernel/arch/i386/display.c:49-60 | text behind a newline begins a row of its own and wraps at the width from there |
| Display.TextStands | kernel/arch/i386/display.c:43-62 | in text with newlines on a cleared screen every other character stands where the newlines and the characters before it put it |
| Display.CellBytes | kernel/arch/i386/display.c:49-60 | the attribute is the high byte of a cell and the character the low one; the cursor is a blinking underscore |
| Display.ColorStays | kernel/arch/i386/display.c:43-62 | no character changes the colour, and the cursor is drawn in it after each |
| Display.ClearedIsBlank | kernel/arch/i386/display.c:119-126 | a cleared screen is blank in the current colour, with the cursor in its first cell |
| Display.CompleteRowsStay | kernel/arch/i386/display.c:43-62 | without backspaces, complete rows never change |
| Display.BackspacesUndoTextIff | kernel/arch/i386/display.c:70-83 | as many backspaces as characters take any text back, across the ends of rows, if and only if the text, with the columns before it in its first row, is shorter than a screen |
| Display.ScreenfulStays | kernel/arch/i386/display.c:70-83 | 2000 blanks on a cleared screen are not taken back |
| Display.BackspaceBlanks | kernel/arch/i386/display.c:70-83 | a backspace blanks the cell of the cursor and the one before it, where it goes, and no other on the screen |
| Display.TabIsFourBlanksIff | kernel/arch/i386/display.c:85-90 | a tab is four blanks if and only if the screen does not move before the last of them |
| Display.TabMovesScreen | kernel/arch/i386/display.c:85-90 | after 1999 blanks on a cleared screen a tab is not four blanks |
| Display.BehindCells | kernel/arch/i386/display.c:85-90 | the cells behind the screen that a tab writes |
| Display.Screen.Write | kernel/arch/i386/display.c:43-62 | for every character: the screen keeps showing 25 rows of the terminal, with the cursor on top, a newline ends in column 0 of the next row, and what goes into the memory around the screen is named |
| Display.Screen.Backspace | kernel/arch/i386/display.c:70-83 | the cell before the cursor goes, also at the end of the row above; in the first cell of the screen the cursor stays, and the cell before the screen is written |
| Display.Screen.Tabulate | kernel/arch/i386/display.c:85-90 | four turns with a location that is not moved when the screen is, so that the last of them write behind the screen |
| Display.Screen.ScrollDisplay | kernel/arch/i386/display.c:128-144 | every row moves up by one, and the last is blank in the current colour |
| Display.Screen.ChangeColor | kernel/arch/i386/display.c:64-68 | nothing on the screen changes, not even the cursor |
| Display.Screen.Clear | kernel/arch/i386/display.c:119-126 | the screen shows an empty terminal |

## Left out

- Allocator.KernelHeap.Malloc: is for requests whose sums stay clear in 32 bits; the search with any request is a function, `HeapWraps.Loop`, which stops where the break has come back below itself, and says nothing about what the program does on a list that a wrapped sum has broken.
- Allocator.KernelHeap.Morecore: as written, a wrong merge inside a growth is excluded by the precondition; what the search does on a list that such a merge has broken is not followed further.
- Allocator.KernelHeap.Sbrk: grants or refuses as an arbitrary oracle says, unless the break would come to lie below the heap's base; that the kernel's own `sbrk` gives such answers, and mapped memory, is `HeapOnBreak.RunsAreBacked`.
- HeapRuns.RunsTileTheHeap: is for byte addresses, for requests that are multiples of eight and for sums that stay clear, because the file as written misfires, splits off remainders shorter than a header and wraps; the lemmas about single calls say exactly when.
- BlockAllocator.Allocator.DeallocateBlock: the bit that the source reads beyond the bitmap for an address outside it does not matter, as the range test then fails; the read itself is not modelled.
- BootAllocator.Allocator.InitAllocator: the units array stands for the memory from the bitmap on, and entries must lie within it; the source has no bound check. That entries of the memory map which reach beyond the bitmap do not hit the moved boot information is not shown, nor what is read from a structure that the move has destroyed.
- BootBitmap.InitializedMap: base and length of an entry are cut to 32 bits as in the source, and the partial pages at both ends are treated as the source treats them.
- PageManager.MapAddsOneBindingIff: what mapping does to the bindings is stated for addresses below the window, as all callers use; in the window it would write the directory.
- PageManager.Pager.UnmapBlock: not for the last page, whose entry is the self-entry: without it the scan for an entry that is left faults. What is returned are the flag bits of the entry, not the address of the frame; nothing is claimed about it beyond that.
- ProgramBreak.AfterBrk: is for breaks that do not lead the loop into the page of the kernel stack, because they lie below it or the blocks run out before.
- HeapPages.GrowsExactlyIff: rests on free blocks holding zeros, because the source does not clear the frame of a new page table; `PageManager.MapAddsOneBindingIff` says what happens otherwise.
- BootPaging.Setup.SetupPaging: frames are cleared word by word where the source clears bytes.
- Printf.Printer.Vprintf: the kernel's build only, with arguments that match the format; string lengths are not cut to 32 bits.
- The bitmap and the page tables are separate arrays in the model; that the loader's memory keeps them apart is assumed.
- Access rights in page table entries, TLB invalidation and loading CR3.
- Multiboot 1 (`mboot.c`), the dispatch in `api.c`, and printing of debug messages.
- `calloc`, `itoa_s`, the string functions, the boot terminal, the character device registry and all port I/O.
- `balloc_initialize` and the counters' getters, which only store and return values.
