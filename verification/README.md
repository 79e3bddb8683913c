# A verified model of the kernel's state-changing parts

The kernel is a small 32-bit x86 system. This project models the six parts of it in which one call's
bookkeeping is what the next call depends on, and proves what those parts keep over whole runs:

- **Physical pages and heap** (`Bintools`, `PhysicalPages`, `HeapAllocator`, `AllocatorRuns`): the
  first-fit page bitmap, the bitmap that boot builds, the first-fit word heap above it, and the mutual
  recursion of `kmalloc` and `heap_alloc`. Outstanding blocks never overlap, heap words are zero when
  granted, and kernel pages are never granted.
- **Paging** (`Paging`, `Translation`, `Entries`): physical memory as words, the MMU walk, and every edit made through the
  self-mapped window. The window shows what the MMU sees, each operation changes exactly the translations
  it names, and the kernel's own mapping survives every run.
- **Scheduler and context switch** (`Lists`, `Scheduling`, `ThreadQueue`, `Fairness`, `Interrupts`): the linked ready queue
  and the interrupt handlers as a step relation. Waiting is bounded, shares are equal, and a thread resumes at
  the address where it stopped.
- **Clement file system** (`Vfs`, `FileSystem`, `LongWrites`): FAT entries heading chains of data blocks. Every operation within its bounds
  keeps the disk well formed, every operation touches one file only, and what a text of any length leaves is told.
- **Tokenizer** (`CStrings`, `Tokenizer`): `strtok` with its hidden position finds exactly the maximal
  delimiter-free runs.
- **Console** (`Console`, `Transcript`): the character grid is a window on the unbounded transcript.
- `Boot` and `KernelRuns` join them: thread 0 cannot be killed because heap words are zero, and allocator and page
  tables keep each other in order over every joint run, with tables taken from `kmalloc`.

Code that updates state is written as classes with methods over arrays, linked nodes and fields, each proved
against a function of the old state; the theorems are about those functions. `dafny verify dfyconfig.toml`
checks everything.

## What the code does where one might expect something else

Each of these is a theorem below, with its exact condition.

- A null result of `kmalloc`'s page path means that nothing fits exactly when no run fits at page 0
  (`PhysicalPages.NullMeansNoRun`). The search covers 131072 pages, an eighth of the bitmap.
- `kfree` rounds the length down, so it undoes `kmalloc` exactly for whole pages and otherwise leaves one page marked
  (`PhysicalPages.FreeAfterAllocate`).
- Boot frees the page in which a free memory slot ends. A slot that reaches no page boundary has its length
  wrap around, and the page above it is freed as well (`PhysicalPages.SlotFreesItsPages`). The kernel's pages are all
  claimed exactly when its start offset does not push its end into one more page (`PhysicalPages.KernelIsCovered`).
- `memory_init` compares only the low 32 bits of a slot's base with the kernel. Memory remapped to 4 GB exactly is set
  aside for that reason; any other slot from 4 GB up to 16 TB sends boot outside its bitmap unless its low half lies below the kernel
  (`PhysicalPages.BootStaysInBitmap`, `PhysicalPages.RemappedMemory`).
- When no page is left, `heap_alloc` builds its node at address 0, does not find it again, and answers every
  request with address 8: the one way in which two blocks overlap (`AllocatorRuns.ExhaustionRepeatsAddress`,
  `AllocatorRuns.OutstandingBlocksAreDisjoint`). The end check of `heap_allocate_from_node` lets word 984 through,
  whose mark lies in byte 4095 of the page, behind the cleared structure; requests of 3937 to 3940 bytes depend
  on what that byte held, larger heap requests fail.
- `map_page` does not clear a new table, contrary to its comment, so other pages of that 4 MB keep their
  translation exactly when the frame is blank at their entry (`Translation.OtherPagesKeepTranslation`). It does
  not raise an existing directory entry, so a user page behind a supervisor entry stays out of reach
  (`Translation.MappedPageAccess`).
- The guard of `unmap_page_table` looks at one address of the 4 MB that it unmaps, so it protects a table of the kernel
  exactly when every page of it holds a byte of the kernel (`Translation.GuardedTables`, `Translation.KernelLosesTable`).
- `map_page` uses what `kmalloc` returns unchecked: with no page left it makes the page at address 0 a table
  (`KernelRuns.MapNeedsAPage`), and a second time so it has one frame as two tables (`Translation.MapPageKeepsTables`).
- `set_memory_range_dpl` with length 0 still visits a page when its address is not page-aligned
  (`Translation.EmptyRangeVisits`).
- `pm_new_thread` subtracts the negative `PM_ESP_OFFSET`, so the initial frame starts at the end of the stack, never
  inside it; it fits the pages granted for the stack exactly when the last one has room
  (`Fairness.NewThreadFrame`).
- `pm_init` never sets thread 0's privilege; that this is not user privilege rests on zeroed heap words
  (`Boot.InitNeedsPrivilege`).
- `write` rounds its block count down, so a text of 508 characters or more leaves no NUL and keeps the entry's old block
  count. The disk stays well formed exactly when the text has at least as many whole blocks as the file and no
  block is free (`LongWrites.FullBlockOverwrite`). With more whole blocks than the file and the free space can hold, the
  remaining passes overwrite the boot block (`LongWrites.LongOverwrite`).
- `mkfile` stores a longer name without a NUL, which no search can tell from what follows it
  (`FileSystem.LongNameBreaksEntry`).

## Model

| member | source | states |
|---|---|---|
| Bintools.SetTest | Source/tools/bintools.c:3-7 | after a bit is set it tests as set, and every other bit of the byte tests as before |
| Bintools.ClearTest | Source/tools/bintools.c:9-13 | after a bit is cleared it tests as clear, and every other bit of the byte tests as before |
| Bintools.SetBit | Source/tools/bintools.c:3-7 | seen as one array of bits, the bitmap changes at position 8·byte + bit only |
| Bintools.ClearBit | Source/tools/bintools.c:9-13 | clearing changes the array of bits at position 8·byte + bit only |
| Bintools.SetBitOf | Source/tools/bintools.c:3-7 | for a bitmap inside a structure, the new bytes are the old ones but for the bit set |
| PhysicalPages.LowestFrom | Source/mem/mem.c:192-223 | the lowest start of a run of enough free pages in the scanned range, or its end when there is none |
| PhysicalPages.LowestIsUnique | Source/mem/mem.c:192-223 | being the lowest fitting start, or there being none, determines the result |
| PhysicalPages.NullMeansNoRun | Source/mem/mem.c:210-225 | null means that no run fits, if and only if no run fits at page 0 |
| PhysicalPages.AllocateIsFirstFit | Source/mem/mem.c:192-219 | no fitting run lies below the one granted, and the one granted fits |
| PhysicalPages.SkipIsSafe | Source/mem/mem.c:201-205 | resuming behind a used page skips no fitting run |
| PhysicalPages.FillThenClear | Source/mem/mem.c:212-215 | marking free pages and clearing all but at most the last gives back the bitmap but for that page |
| PhysicalPages.FreeAfterAllocate | Source/mem/mem.c:228-242 | `kfree` of a grant restores the bitmap if and only if the length is a multiple of 4096; otherwise exactly one page stays marked |
| PhysicalPages.PageMap.TestBlock | Source/mem/mem.c:281-294 | reads the bit of one page |
| PhysicalPages.PageMap.MarkBlock | Source/mem/mem.c:260-279 | changes the bit of one page and no other |
| PhysicalPages.PageMap.MarkRange | Source/mem/mem.c:212-215 | marks or clears exactly a range of pages |
| PhysicalPages.PageMap.Probe | Source/mem/mem.c:198-221 | decides whether a run starts here, and on failure that none starts anywhere it skips |
| PhysicalPages.PageMap.FindRun | Source/mem/mem.c:192-223 | with its skipping, the search finds the lowest fitting run |
| PhysicalPages.PageMap.AllocPages | Source/mem/mem.c:175-226 | the address and the whole new bitmap are those of first fit |
| PhysicalPages.PageMap.Kfree | Source/mem/mem.c:228-242 | rejects exactly the misaligned bases, and otherwise clears the pages of the length rounded down |
| PhysicalPages.PageMap.Kunfree | Source/mem/mem.c:244-258 | rejects exactly the misaligned bases, and otherwise marks the pages of the length rounded down |
| PhysicalPages.EndWithModules | Source/mem/mem.c:48-57 | the end is at or above the kernel's and every module's, and is one of them |
| PhysicalPages.PageMap.ExtendOverModules | Source/mem/mem.c:48-57 | the module loop finds that end |
| PhysicalPages.PageMap.TrimSlots | Source/mem/mem.c:64-107 | every slot is trimmed or reserved by its own original contents |
| PhysicalPages.TrimmedSlot | Source/mem/mem.c:91-97 | every kept slot starts at the first page boundary from its start on and has its whole pages, a slot without a boundary one below zero, whatever its 64-bit base and length |
| PhysicalPages.TrimmedPages | Source/mem/mem.c:133-135 | the first and last page that a kept slot clears, as the page numbers of its first boundary and of its end truncated to 32 bits |
| PhysicalPages.BootStaysInBitmap | Source/mem/mem.c:129-145 | boot writes inside its bitmap, if and only if every kept slot starts and ends on page numbers that, truncated, have a bit |
| PhysicalPages.HasBitsBelow4GB | Source/mem/mem.c:67-68 | for memory up to 16 TB that holds of a slot, if and only if it lies below 4 GB or its base truncated to 32 bits lies below the kernel |
| PhysicalPages.RemappedMemory | Source/mem/mem.c:67-104 | a slot at 4 GB exactly is set aside and harmless; one that starts 2 MB higher sends boot out of its bitmap |
| PhysicalPages.SlotFreesItsPages | Source/mem/mem.c:66-144 | for memory up to 16 TB: a slot of another kind, or whose truncated base lies below the kernel, frees nothing, and any other exactly the pages wholly in it, the page its end lies in, and, if it reaches no boundary, the page above |
| PhysicalPages.PageZeroIsSpared | Source/mem/mem.c:129-145 | boot clears page 0 for no slot, if and only if no kept slot starts or ends on a page number that truncates to 0 |
| PhysicalPages.SpanSparesPageZero | Source/mem/mem.c:67-145 | with memory up to 16 TB and a kernel above the first two pages no slot does |
| PhysicalPages.PageMap.ClearSlots | Source/mem/mem.c:129-145 | a page is used afterwards exactly when it was and no free slot clears it |
| PhysicalPages.PageMap.FillBitmap | Source/mem/mem.c:125 | every page is used |
| PhysicalPages.PageMap.MemoryInit | Source/mem/mem.c:31-165 | for every page of the bitmap, exactly when it is used after boot; the slots are left trimmed |
| PhysicalPages.RangeInBitmap | Source/mem/mem.c:147-162 | the marks for kernel and memory map stay inside the bitmap |
| PhysicalPages.MapIsCovered | Source/mem/mem.c:154-162 | every page that meets the memory map is claimed, wherever it starts |
| PhysicalPages.KernelIsCovered | Source/mem/mem.c:148-152 | every page that meets the kernel is claimed, if and only if its start offset leaves room in the last page |
| PhysicalPages.KernelClaimsNoMore | Source/mem/mem.c:148-152 | no page before the kernel, and none a page or more behind it, is claimed for it |
| PhysicalPages.MapClaimsNoMore | Source/mem/mem.c:154-162 | no page before the memory map, and none three pages or more behind it, is claimed for it |
| PhysicalPages.BootFreesTheRest | Source/mem/mem.c:64-162 | every page wholly in a kept slot and clear of kernel and memory map is free after boot |
| HeapAllocator.LowestRun | Source/mem/heap.c:87-122 | the lowest start of a run of free words within 985, or 984 when there is none |
| HeapAllocator.LowestRunIsUnique | Source/mem/heap.c:87-122 | that description determines the result |
| HeapAllocator.FirstAccepting | Source/mem/heap.c:36-57 | the first node that passes the byte count and has a fitting run |
| HeapAllocator.FirstAcceptingIsUnique | Source/mem/heap.c:36-57 | that description determines the result |
| HeapAllocator.HeapNode.constructor | Source/mem/heap.c:66 | a cleared node: all words zero, all marks clear except those in the byte behind the structure |
| HeapAllocator.HeapNode.TestWord | Source/mem/heap.c:89 | reads the mark of one word |
| HeapAllocator.HeapNode.MarkBits | Source/mem/heap.c:126-132 | marks exactly the words of a run |
| HeapAllocator.HeapNode.Probe | Source/mem/heap.c:92-111 | decides whether a run starts here, and on failure that none starts anywhere it skips |
| HeapAllocator.HeapNode.FindRun | Source/mem/heap.c:87-122 | with its skipping, the search finds the lowest fitting run |
| HeapAllocator.HeapNode.Allocate | Source/mem/heap.c:78-124 | succeeds exactly when a run fits, takes the lowest, and otherwise changes nothing |
| HeapAllocator.Heap.constructor | Source/mem/heap.c:7-20 | the heap starts as one cleared node on the lowest free page |
| HeapAllocator.Heap.TryNode | Source/mem/heap.c:40-52 | one node serves the request or nothing changes |
| HeapAllocator.Heap.TryNodes | Source/mem/heap.c:33-57 | the first accepting node in list order serves the request; without one nothing changes |
| HeapAllocator.HeapNode.Clear | Source/mem/heap.c:66 | a node in use cleared where it is keeps nothing but the marks in the byte behind the structure |
| HeapAllocator.Heap.StartAgain | Source/mem/heap.c:64-73 | when the new node is the first node at address 0, the list ends with it and its words are granted anew |
| HeapAllocator.Heap.Grow | Source/mem/heap.c:64-75 | a cleared node is linked last and serves the request; with a null page it serves but is not linked, and clears the first node if that lies there |
| HeapAllocator.Heap.HeapAlloc | Source/mem/heap.c:22-76 | address and whole new state are those of first node, then first fit, then a new node; the recursion with `kmalloc` ends |
| HeapAllocator.Heap.Kmalloc | Source/mem/mem.c:170-226 | address and whole new state from the side of `kmalloc`, with large lengths going to the page map |
| HeapAllocator.Heap.Kfree | Source/mem/mem.c:228-242 | the page map changes as `kfree` says, the nodes do not |
| HeapAllocator.Heap.StoreWord | Source/mem/heap.c:119 | a client's store changes one data word of one node and no bookkeeping |
| AllocatorRuns.OnesAfterFill | Source/mem/heap.c:116-118 | granting a free run raises the number of marked words by its length |
| AllocatorRuns.RequestPages | Source/mem/mem.c:175-226 | a page request keeps the allocator's invariant |
| AllocatorRuns.TakeKeepsNode | Source/mem/heap.c:112-119 | granting keeps `memory_allocated` at four times the granted words and ungranted words zero |
| AllocatorRuns.FreshNodeOk | Source/mem/heap.c:64-66 | a new node on a free page starts out in order |
| AllocatorRuns.TakeKeepsBlocks | Source/mem/heap.c:112-119 | words granted are apart from every outstanding block |
| AllocatorRuns.RequestWordsOfNode | Source/mem/heap.c:36-57 | a request served by an existing node keeps the invariant |
| AllocatorRuns.NewNodeKeepsInv | Source/mem/heap.c:64-66 | adding a node on a free page keeps the invariant |
| AllocatorRuns.GrowThenTake | Source/mem/heap.c:64-75 | serving from a new node is adding the node and then serving from the list |
| AllocatorRuns.FreshRun | Source/mem/heap.c:87-111 | a cleared node serves 984 words, and 985 exactly when the byte behind it allows |
| AllocatorRuns.RequestWordsOfNewNode | Source/mem/heap.c:64-75 | a request served by a new node keeps the invariant |
| AllocatorRuns.RequestWordsExhausted | Source/mem/heap.c:64-75 | with no page left the linked nodes and the page map stay as they were |
| AllocatorRuns.WordsFreeNoPage | Source/mem/mem.c:234 | `kfree` of any heap block frees no page |
| AllocatorRuns.ReleaseKeepsInv | Source/mem/mem.c:228-242 | releasing any outstanding block keeps the invariant |
| AllocatorRuns.ReleaseUndoesRequest | Source/mem/mem.c:170-242 | releasing a page request gives the whole state back, if and only if its length is a number of pages |
| AllocatorRuns.StoreKeepsInv | Source/mem/heap.c:119 | whatever clients store into their words, words not yet granted stay zero |
| AllocatorRuns.StepKeepsInv | Source/mem/mem.c:170-242 | every request, release and store keeps the invariant |
| AllocatorRuns.Run | Source/mem/mem.c:170-242 | so does every run of them |
| AllocatorRuns.GrantAddress | Source/mem/mem.c:219 | the address returned is the base of the block granted and never null for a grant |
| AllocatorRuns.OutstandingBlocksAreDisjoint | Source/mem/heap.c:64-75 | two outstanding non-empty blocks share a byte if and only if both came from the node at address 0 |
| AllocatorRuns.BlockInPages | Source/mem/heap.c:119 | a block lies in its pages, and a heap block inside the first 985 data words of its node |
| AllocatorRuns.GrantedWordsAreZero | Source/mem/heap.c:64-66 | every word of a heap block is zero when granted |
| AllocatorRuns.StoreReachesItsWord | Source/mem/heap.c:119 | a client's store into a block changes the word it names and no other word of any outstanding block |
| AllocatorRuns.PreCheckNeverRejects | Source/mem/heap.c:40-43 | the byte count test accepts a node exactly when its bitmap has a run |
| AllocatorRuns.SmallRequestsSucceed | Source/mem/heap.c:22-124 | 1 to 3936 bytes are granted while a node fits or a page is free, at the lowest run of the first such node, or at word 0 of a new last node |
| AllocatorRuns.LargeHeapRequestsFail | Source/mem/heap.c:104-110 | heap requests above 3940 bytes return null |
| AllocatorRuns.NullBlockWhenExhausted | Source/mem/heap.c:36-75 | a request of 1 to 3936 bytes is served at address 0, if and only if no linked node has a fitting run and every scanned page is used |
| AllocatorRuns.ExhaustionRepeatsAddress | Source/mem/heap.c:64-75 | in such a state every such request returns 8 and changes nothing |
| AllocatorRuns.FirstNodeAtZero | Source/mem/heap.c:64-75 | if `heap_init` got null, exhaustion loses all other nodes, and grants from word 0 of the first again |
| AllocatorRuns.BootEstablishesInv | Source/mem/heap.c:7-20 | the invariant holds after `heap_init` on a bitmap with a free page |
| AllocatorRuns.BootLeavesMemory | Source/mem/mem.c:64-226 | with such a page in the scanned part, the page allocator, `heap_init` and the first heap request all succeed |
| AllocatorRuns.KernelPagesAreNeverGranted | Source/mem/mem.c:48-162 | from the firmware's slots on, no run ever grants or frees a page of the kernel, its modules or the memory map, for every kernel that boot claims completely |
| Paging.ValueRoundTrip | Source/mem/paging.h:13-45 | the bit-field view and the 32-bit value of an entry determine each other |
| Paging.AlignedValue | Source/mem/paging.c:121 | assigning a masked address sets the frame and clears every flag |
| Paging.WindowShowsTable | Source/mem/paging.c:97-98 | entry i of table p seen through the window is the very word the MMU consults |
| Paging.EntryKeeps | Source/mem/paging.c:141-144 | writing an entry of one table changes that entry of that table only and keeps the tables well mapped |
| Paging.LinkKeeps | Source/mem/paging.c:117-126 | linking an unused frame keeps the tables distinct and the self-map in place |
| Paging.RaiseKeeps | Source/mem/paging.c:179-180 | raising a directory entry keeps the tables well mapped |
| Paging.EditStays | Source/mem/paging.c:121-125 | between the field writes of one entry the window keeps reaching that entry |
| Paging.Machine.GetPhysAddr | Source/mem/paging.c:91-107 | returns what the MMU walk gives for every address, and 0 exactly where the walk fails (or gives 0) |
| Paging.Machine.InitPaging | Source/mem/paging.c:10-89 | leaves 1024 identity tables, all but the last in the directory, and the directory in its own last slot |
| Paging.Machine.FillTable | Source/mem/paging.c:35-47 | one more table maps its 4 MB to itself, the earlier ones still do |
| Paging.Machine.SetDirectory | Source/mem/paging.c:21-32 | a directory write disturbs no table |
| Paging.Machine.LoadEntry | Source/mem/paging.c:97-104 | a read through the window is a read of the table |
| Paging.Machine.StoreEntry | Source/mem/paging.c:141 | a write through the window is a write of the table |
| Paging.Machine.WriteFields | Source/mem/paging.c:141-144 | the four assignments through the window add up to one entry with cleared flags |
| Paging.Machine.DoMapPage | Source/mem/paging.c:108-147 | memory afterwards: a linked table if there was none, and the new entry unless one is present and force is off |
| Paging.Machine.DoSetPageDpl | Source/mem/paging.c:161-183 | memory afterwards, and the tables stay well mapped |
| Paging.Machine.DoSetMemoryRangeDpl | Source/mem/paging.c:148-160 | memory afterwards is that of the pages visited in turn, wrapping sums included |
| Paging.Machine.DoSetPagePresent | Source/mem/paging.c:211-228 | only a present entry behind a present table changes |
| Paging.Machine.DoUnmapPage | Source/mem/paging.c:229-244 | a guarded address changes nothing; any other loses its mapping |
| Paging.Machine.DoSwapPage | Source/mem/paging.c:297-341 | memory and returned value; nothing changes and 0 is returned when either level is absent or either guard strikes |
| Paging.Machine.DoSwapPageTable | Source/mem/paging.c:261-296 | the directory entry and returned value; nothing changes and 0 is returned when it is absent or either guard strikes |
| Paging.Machine.DoSetPageTableDpl | Source/mem/paging.c:184-197 | only a present directory entry changes, in its user bit |
| Paging.Machine.DoSetPageTablePresent | Source/mem/paging.c:198-210 | only a present directory entry changes, in its present bit |
| Paging.Machine.DoUnmapPageTable | Source/mem/paging.c:245-260 | a guarded address changes nothing; any other takes its table out of the directory |
| Translation.WalkAfterEntry | Source/mem/paging.c:141-144 | writing a page's entry changes the translation of that page and of no other |
| Translation.WalkAfterLink | Source/mem/paging.c:117-126 | linking a frame makes its contents the translations of that 4 MB, and changes no other |
| Translation.WalkAfterRaise | Source/mem/paging.c:179-180 | raising a directory entry changes no translation |
| Translation.MapPageKeepsTables | Source/mem/paging.c:117-126 | whatever frame but the directory `map_page` links, the self-map and the distinct tables survive, if and only if it was no table yet |
| Translation.MappedPageTranslates | Source/mem/paging.c:108-147 | after a forced mapping every offset of the page translates to the same offset of the frame |
| Translation.OtherPagesKeepTranslation | Source/mem/paging.c:115-126 | every other page keeps its translation, if and only if no table was linked over it with a present entry |
| Translation.UnforcedMapLeavesMapped | Source/mem/paging.c:135-139 | without force a mapped page is left alone, and all of memory with it |
| Translation.UnforcedMapKeepsMapped | Source/mem/paging.c:135-139 | without force no mapped page changes its translation |
| Translation.DplKeepsTranslation | Source/mem/paging.c:161-183 | changing a privilege changes no translation |
| Translation.RangeDplKeepsTranslation | Source/mem/paging.c:148-160 | nor does changing a range |
| Translation.GuardIsExact | Source/mem/paging.c:231-241 | the guard strikes, if and only if the page of the address holds a byte of the kernel or the address is the kernel's end rounded up to a page |
| Translation.GuardOfPages | Source/mem/paging.c:326-327 | a page-aligned address is guarded, if and only if it is one of the kernel's pages or the one behind |
| Translation.GuardCoversKernel | Source/mem/paging.c:231-241 | the guard rejects every address in a page that holds a byte of the kernel |
| Translation.PresentTranslation | Source/mem/paging.c:211-228 | `set_page_present` can only unmap its own page |
| Translation.UnmapTranslation | Source/mem/paging.c:229-244 | `unmap_page` unmaps its page unless guarded, and no other page |
| Translation.SwapTranslation | Source/mem/paging.c:297-341 | `swap_page` redirects its page alone, and the value it returns holds the old frame |
| Translation.StepKeepsKernel | Source/mem/paging.c:108-341 | no operation of the run changes a mapped kernel address |
| Translation.RunKeepsKernel | Source/mem/paging.c:108-341 | over any run of unmap, swap, unforced map and privilege changes below the window, every page that holds a byte of the kernel keeps its translation |
| Translation.EntryAccess | Source/mem/paging.c:335-338 | user and write access after an entry is replaced, for its page and for every other |
| Translation.MappedPageAccess | Source/mem/paging.c:123-144 | a forced mapping gives the access asked for only as far as an existing directory entry allows |
| Translation.OtherPagesKeepAccess | Source/mem/paging.c:108-147 | with the table in place, mapping or swapping a page changes no other page's access |
| Translation.DplEffect | Source/mem/paging.c:161-183 | the user bit of a mapped page, and the directory bit that is raised for it |
| Translation.RangeDplEffect | Source/mem/paging.c:148-160 | exactly the mapped pages visited get the user bit, and a directory entry is raised, if and only if user access is asked for and a mapped page visited lies in its 4 MB |
| Translation.RangeDplOutside | Source/mem/paging.c:148-183 | with no assumption on the directory: visited pages end up as asked, and any other keeps its access, if and only if it is not a hidden user page whose directory entry is raised for the range |
| Translation.VisitedPages | Source/mem/paging.c:149-158 | the pages visited are exactly those that meet a non-empty range |
| Translation.RangeDplAccess | Source/mem/paging.c:148-183 | user access changes for exactly the mapped pages that meet the range, if no user page hid under a supervisor entry; and none does afterwards |
| Translation.EmptyRangeVisits | Source/mem/paging.c:149-158 | length 0 visits a page if and only if the address is not page-aligned |
| Translation.SwapTableTranslation | Source/mem/paging.c:261-296 | swapping in an unused frame redirects that 4 MB alone, to what the frame holds |
| Translation.TablePresentTranslation | Source/mem/paging.c:198-210 | `set_page_table_present` can only unmap its own 4 MB, and keeps the tables well mapped |
| Translation.UnmapTableTranslation | Source/mem/paging.c:245-260 | a mapped byte keeps its translation, if and only if the very address given is guarded or lies in another 4 MB |
| Translation.GuardedTables | Source/mem/paging.c:247-257 | the guard covers every address of a table, if and only if each of its 1024 pages holds a byte of the kernel |
| Translation.KernelLosesTable | Source/mem/paging.c:245-260 | a kernel from 1 MB to 2 MB is unmapped by `unmap_page_table(0)` |
| Translation.TableDplAccess | Source/mem/paging.c:184-197 | user access is opened for the user pages of the 4 MB or closed for all of them, and changes nowhere else |
| Translation.InitialTablesAreIdentity | Source/mem/paging.c:35-89 | what `init_paging` leaves is well mapped, translates every address below the window to itself and admits no user |
| Entries.EntryLayout | Source/mem/paging.h:13-45 | present, write and user access are bits 0, 1 and 2 of an entry's value, and the frame starts at bit 12 |
| Entries.MapPageStores | Source/mem/paging.c:108-147 | `map_page` stores at most two words: the absent directory entry and the page's entry, each the masked address with the access bits asked for and nothing else |
| Entries.UnforcedMapMapsUnmapped | Source/mem/paging.c:135-144 | without force an unmapped page becomes mapped to the frame asked for, unless a table linked for it held an entry already |
| Entries.DplStores | Source/mem/paging.c:161-183 | a privilege change stores to two words of a mapped page, and only their user bits |
| Entries.UserBitOfValue | Source/mem/paging.c:176-180 | that is bit 2 of the value and no other |
| Entries.RangeDplStores | Source/mem/paging.c:148-160 | over a range, all of memory but user bits in the directory and tables in use stays |
| Entries.DplKeepsWriteAccess | Source/mem/paging.c:161-183 | no page gains or loses write access by it |
| Entries.RangeDplKeepsWriteAccess | Source/mem/paging.c:148-160 | nor over a range |
| Entries.UnmapStores | Source/mem/paging.c:229-244 | `unmap_page` clears bit 0 of one word, if and only if the page is mapped and its address outside the guard; otherwise memory stays |
| Entries.PresentStores | Source/mem/paging.c:211-228 | `set_page_present` clears that bit of a mapped page, and setting it never changes anything |
| Entries.SwapStores | Source/mem/paging.c:297-341 | `swap_page` replaces one word and returns its old value, if and only if the page is mapped and neither it nor its frame is next to the kernel; otherwise it returns 0, which no success does, and stores nothing |
| Entries.SwapTableStores | Source/mem/paging.c:261-296 | the same for a directory entry |
| Entries.TableEditStores | Source/mem/paging.c:184-210 | the edits of a directory entry change its one bit in one word |
| Entries.InitialTablesAreWritable | Source/mem/paging.c:35-47 | after `init_paging` the kernel may write every page below the window and user mode may use none |
| Lists.ListAddNode | Source/tools/list.c:4-24 | the list is the old one with one new last node, whose position is returned |
| Lists.ListAccessNode | Source/tools/list.c:98-108 | the node at a position, the head for a negative one, null past the end |
| Lists.ListRemoveNode | Source/tools/list.c:72-96 | the list is the old one without that node; null for the only node |
| Lists.ListMoveToEnd | Source/tools/list.c:162-185 | the list is the old one rotated by one |
| Lists.Last | Source/tools/list.c:172-180 | the walk ends at the last node |
| Scheduling.ChargeKeeps | Source/pm/pm.c:257-266 | a tick keeps quanta in order, ids distinct and thread 0 queued |
| Scheduling.KillKeeps | Source/pm/pm.c:249-253 | a kill of a user head leaves another thread and keeps the invariant |
| Scheduling.SaveKeeps | Source/pm/pm.c:209-244 | saving registers keeps the invariant |
| Scheduling.CreateKeeps | Source/pm/pm.c:75-201 | a new thread keeps the invariant, if and only if the counter does not wrap |
| Scheduling.StepKeepsInv | Source/cpu/idt.c:192-299 | every interrupt and creation keeps: non-head quanta are 10, the head's is 1 to 10, ids are distinct, thread 0 is queued and cannot be killed |
| ThreadQueue.ProcessManager.constructor | Source/pm/pm.c:33-58 | the queue starts as thread 0 alone, with privilege as the memory had it |
| ThreadQueue.ProcessManager.ProcSave | Source/pm/pm.c:209-244 | the head holds the saved registers; the ring-0 stack follows the code segment |
| ThreadQueue.ProcessManager.ProcKillActive | Source/pm/pm.c:249-253 | the linked queue loses its head and nothing else |
| ThreadQueue.ProcessManager.ProcSchedule | Source/pm/pm.c:255-281 | the linked queue follows the specification, no node is lost, and the new head's frame address is returned |
| ThreadQueue.ProcessManager.ChargeHead | Source/pm/pm.c:257-266 | the head pays one unit, or goes to the end with a full quantum |
| ThreadQueue.ProcessManager.PmNewThread | Source/pm/pm.c:75-201 | one new thread at the end of the linked queue, with its id returned |
| ThreadQueue.ProcessManager.FillDescriptor | Source/pm/pm.c:88-138 | the descriptor of a new thread, with fields not set left as the memory had them |
| ThreadQueue.ProcessManager.HandleIsr | Source/cpu/idt.c:192-299 | kills a user head on an exception, halts for a kernel head, and otherwise saves and schedules |
| ThreadQueue.ProcessManager.HandleIrq | Source/cpu/idt.c:369-417 | saves, and schedules on timer ticks only |
| Fairness.Run | Source/cpu/idt.c:192-417 | every run keeps the scheduler's invariant |
| Fairness.ChargeAdvances | Source/pm/pm.c:255-266 | one call takes exactly one unit off what a waiting thread has ahead |
| Fairness.StepAdvances | Source/cpu/idt.c:192-417 | any step brings a waiting thread nearer by its ticks or makes it the head and resumes it, changing nothing of it but the quantum |
| Fairness.WaitingIsBounded | Source/pm/pm.c:255-281 | a waiting thread is the head, and resumed, within as many calls as there are quanta ahead of it, whatever is created or killed; until then its registers and privilege stay |
| Fairness.AheadPositive | Source/pm/pm.c:255-266 | a waiting thread always has quanta ahead |
| Fairness.ChargedSplits | Source/pm/pm.c:255-266 | charges of consecutive windows add up |
| Fairness.HeadRuns | Source/pm/pm.c:257-258 | fewer calls than its quantum leave the head in place |
| Fairness.HeadTurn | Source/pm/pm.c:257-266 | as many calls as its quantum send it to the end with a full one, all charged to it |
| Fairness.FullTurn | Source/pm/pm.c:262-266 | one turn of ten from any rotation |
| Fairness.FullTurns | Source/pm/pm.c:262-266 | k turns rotate by k and charge exactly the first k threads |
| Fairness.EqualShares | Source/pm/pm.c:255-266 | in any window of 10 calls per thread every thread is charged exactly 10, and the queue is as before |
| Fairness.ShapeDecides | Source/pm/pm.c:255-266 | registers have no influence on who is charged |
| Fairness.RunCharges | Source/cpu/idt.c:243-417 | a run of interrupts that kill nothing charges like its ticks alone |
| Fairness.RunsShareEqually | Source/cpu/idt.c:243-417 | any such run of 10 ticks per thread charges every thread exactly 10 |
| Fairness.ResumeUndoesPush | Source/pm/pm.c:280 | the resume address undoes the offset at which the stubs save the stack pointer |
| Fairness.ChargeKeepsStops | Source/pm/pm.c:255-266 | scheduling changes no saved registers |
| Fairness.StepResumesAtStop | Source/cpu/idt.c:192-417 | whoever a step resumes, it resumes at its last frame with the registers saved there; waiting threads keep theirs |
| Fairness.RunResumesAtStops | Source/cpu/idt.c:192-417 | the same after any run |
| Fairness.NewThreadFrame | Source/pm/pm.c:97-142 | a new thread first resumes where its frame was copied, at the end of its stack; the frame lies in the granted pages if and only if the last one has 76 bytes left |
| Interrupts.HaltsExactly | Source/cpu/idt.c:195-241 | the machine halts, if and only if an exception strikes a thread that is not a user thread |
| Interrupts.FaultRemovesThread | Source/cpu/idt.c:195-204 | an exception in a user thread removes it alone, keeps the others in order, and resumes the next one where it stopped |
| Interrupts.InterruptKeepsThreads | Source/cpu/idt.c:243-417 | every other interrupt keeps every thread, the interrupted one with the registers of its frame |
| Interrupts.DeviceInterruptReturns | Source/cpu/idt.c:369-417 | a device interrupt other than the timer returns to the frame it came with and leaves the queue |
| Interrupts.RingZeroStack | Source/pm/pm.c:239-278 | whoever resumes in user code does so with its own ring-0 stack in place |
| Interrupts.InitialRegistersAreOverwritten | Source/pm/pm.c:45-58 | the stack that `pm_init` stores for thread 0 never matters |
| Interrupts.NewThreadIsAsAsked | Source/pm/pm.c:75-201 | the new last thread has the entry point, privilege, selectors, ring-0 stack and enabled interrupts asked for, and cleared registers; the others stay |
| Interrupts.NewThreadStarts | Source/pm/pm.c:75-281 | in every run with enough ticks, the event that first makes it the head resumes it at its initial frame, at that entry point, with its own ring-0 stack |
| Boot.InitNeedsPrivilege | Source/pm/pm.c:39-46 | the scheduler starts in order, if and only if the descriptor memory did not say user privilege |
| Boot.ThreadZeroIsPrivileged | Source/pm/pm.c:34-46 | after any allocator run the descriptor memory is zero, so it does start in order |
| Boot.StackBytesAreGranted | Source/pm/pm.c:97 | the bytes reckoned as a stack are the whole pages granted for it |
| Boot.NewTableIsUnused | Source/mem/paging.c:119 | while the tables in use are outstanding, a page from `kmalloc` is aligned and used by none of them |
| Boot.PagingBlocksFit | Source/mem/paging.c:10-19 | the two blocks that `init_paging` asks for, when granted, are aligned and apart |
| KernelRuns.BlocksGranted | Source/mem/paging.c:10-19 | when neither request of `init_paging` returns null, the two blocks are aligned, in memory, apart and outstanding |
| KernelRuns.PagingStarts | Source/mem/paging.c:10-89 | the blocks then are what `init_paging` needs, and after it directory and tables are outstanding, well mapped and the identity |
| KernelRuns.NodesAreNoTables | Source/mem/heap.c:64-66 | the page of a heap node is never a table, so clearing it reaches none |
| KernelRuns.AllocateKeepsInv | Source/mem/mem.c:170-226 | an allocation leaves every table outstanding |
| KernelRuns.FreeKeepsInv | Source/mem/mem.c:228-242 | so does the release of a block that holds no table |
| KernelRuns.WriteElsewhere | Source/mem/paging.c:91-107 | a client's store into a frame that is no table changes no table and no translation |
| KernelRuns.EditKeepsTables | Source/mem/paging.c:148-341 | unmapping, swapping pages and privilege changes leave the directory's tables the same |
| KernelRuns.MapTables | Source/mem/paging.c:117-126 | `map_page` changes no directory entry but an absent one, which it links |
| KernelRuns.MapNewTable | Source/mem/paging.c:117-126 | with a page left, the table that `map_page` gets from `kmalloc` is unused before and outstanding after |
| KernelRuns.MapFrameZero | Source/mem/paging.c:119-121 | with none left it links frame 0, which nobody was granted |
| KernelRuns.MapNeedsAPage | Source/mem/paging.c:108-147 | `map_page` keeps allocator and tables in order, if and only if it needs no table or a page is left |
| KernelRuns.StepKeepsInv | Source/mem/paging.c:108-341 | every allocation, release, store and paging call keeps both in order together |
| KernelRuns.StepKeepsKernel | Source/mem/paging.c:108-341 | and, unless it forces a mapping, every mapped kernel address |
| KernelRuns.Run | Source/mem/paging.c:108-341 | so does every run of them, with no assumption on the frames that become tables |
| KernelRuns.RunKeepsKernel | Source/mem/paging.c:108-341 | over every such run without a forced mapping, each mapped page that holds a byte of the kernel keeps its translation |
| Vfs.ChainLinks | Source/fs/clement_vfs.c:186-193 | each block of a chain names the next, the last one the end mark |
| Vfs.ChainIsUnique | Source/fs/clement_vfs.c:186-193 | a block heads at most one chain |
| Vfs.ChainTail | Source/fs/clement_vfs.c:186-193 | the rest of a chain is a chain |
| Vfs.ChainHasNoRepeats | Source/fs/clement_vfs.c:186-193 | chains are acyclic |
| Vfs.TruncateAndFree | Source/fs/clement_vfs.c:265-275 | cutting a chain behind its first block and freeing the rest leaves the first block's contents alone |
| Vfs.CopyName | Source/fs/clement_vfs.c:102-106 | a name that fits the entry is matched by what is stored, over whatever the slot held |
| Vfs.FindEntry | Source/fs/clement_vfs.c:392-412 | the first entry in use with the name, or none |
| Vfs.FreeEntry | Source/fs/clement_vfs.c:83-92 | the first entry not in use, or none |
| Vfs.FreeBlock | Source/fs/clement_vfs.c:415-427 | the first data block marked free, or none |
| Vfs.Disk.FindFatEntry | Source/fs/clement_vfs.c:392-412 | the search by string comparison finds that entry |
| Vfs.Disk.FindFreeBlock | Source/fs/clement_vfs.c:415-427 | finds that block, or 0 |
| Vfs.Disk.WriteFatBlock | Source/fs/clement_vfs.c:370 | replaces the 32 entries of one FAT block and no other |
| Vfs.Disk.CopyChars | Source/fs/clement_vfs.c:102-106 | copies up to and including the NUL |
| Vfs.Disk.DoMkfile | Source/fs/clement_vfs.c:66-140 | result and whole disk afterwards, each failure path leaving it unchanged |
| Vfs.Disk.CollectChain | Source/fs/clement_vfs.c:178-193 | collects exactly the blocks of the chain in order |
| Vfs.Disk.DeleteDataBlock | Source/fs/clement_vfs.c:377-389 | zeroes a block on the disk and fails beyond it; for blocks 1 to 8 that clears exactly 32 FAT entries |
| Vfs.Disk.DeleteBlocks | Source/fs/clement_vfs.c:195-198 | zeroes exactly the collected blocks |
| Vfs.Disk.DeleteFatEntry | Source/fs/clement_vfs.c:340-374 | zeroes the slot of the name, through its FAT block, and no other |
| Vfs.Disk.DoDelfile | Source/fs/clement_vfs.c:143-204 | result and whole disk afterwards |
| Vfs.Disk.CopyText | Source/fs/clement_vfs.c:300-314 | copies up to the NUL or the end of the block, and says which |
| Vfs.Disk.KeepFirstBlock | Source/fs/clement_vfs.c:265-275 | leaves the first block as a chain of its own and zeroes the rest |
| Vfs.Disk.WritePass | Source/fs/clement_vfs.c:285-316 | one pass: block, link and, at a NUL, FAT entry afterwards |
| Vfs.Disk.WritePasses | Source/fs/clement_vfs.c:277-316 | the block loop for every text, each pass on the block that `find_free_block` gives it |
| Vfs.Disk.DoOverwrite | Source/fs/clement_vfs.c:207-317 | result and whole disk afterwards, for every text and every name |
| FileSystem.ChainFrame | Source/fs/clement_vfs.c:186-193 | a chain depends on nothing but the marks and links of its own blocks |
| FileSystem.OtherFilesStay | Source/fs/clement_vfs.c:66-317 | a change to one file leaves every other file's chain |
| FileSystem.ChainsStayApart | Source/fs/clement_vfs.c:66-317 | taking only free blocks keeps chains disjoint |
| FileSystem.MarksFollow | Source/fs/clement_vfs.c:66-317 | which blocks are held after a change to one file |
| FileSystem.ChangeKeepsWellFormed | Source/fs/clement_vfs.c:66-317 | a change to one file that takes own or free blocks, keeps marks in step and clashes with no name keeps the disk well formed |
| FileSystem.MkfileEffect | Source/fs/clement_vfs.c:66-140 | a successful `mkfile` adds one file of one formerly free block in a free slot |
| FileSystem.CopyKeepsRest | Source/fs/clement_vfs.c:102-106 | the stored name is the one given up to its NUL or the end of the slot, and what lay behind the NUL stays |
| FileSystem.LongNameBreaksEntry | Source/fs/clement_vfs.c:102-106 | a name without a NUL among its first eleven characters leaves an entry that holds no C string |
| FileSystem.MkfileKeepsWellFormed | Source/fs/clement_vfs.c:66-140 | `mkfile` keeps the disk well formed, if and only if it fails or the name fits the entry |
| FileSystem.MkfileSucceeds | Source/fs/clement_vfs.c:66-140 | it succeeds if and only if the name is new, a slot is free and some block is in no chain; a failure changes nothing |
| FileSystem.MkfileLeavesOthers | Source/fs/clement_vfs.c:66-140 | every existing file keeps entry, blocks and characters |
| FileSystem.FoundByName | Source/fs/clement_vfs.c:392-412 | the search succeeds if and only if a file has the name, and finds that file |
| FileSystem.DelfileEffect | Source/fs/clement_vfs.c:143-204 | exactly the file's blocks and slot are cleared |
| FileSystem.DelfileKeepsWellFormed | Source/fs/clement_vfs.c:143-204 | `delfile` keeps the disk well formed |
| FileSystem.DelfileFrees | Source/fs/clement_vfs.c:143-204 | it succeeds if and only if the name exists, frees exactly that file, and leaves every other file's bytes |
| FileSystem.WrittenReadsBack | Source/fs/clement_vfs.c:300-314 | a text written into a block reads back as a C string, and what lay behind it stays |
| FileSystem.OverwriteEffect | Source/fs/clement_vfs.c:253-317 | a short text leaves a one-block chain and clears exactly the file's other blocks |
| FileSystem.OverwriteKeepsWellFormed | Source/fs/clement_vfs.c:253-317 | an overwrite with a short text keeps the disk well formed |
| FileSystem.OverwriteReadsBack | Source/fs/clement_vfs.c:207-317 | for a chain of any length: the file reads back as the text, its other blocks are free, every other file's bytes stay |
| FileSystem.Step | Source/fs/clement_vfs.c:66-317 | every in-bound operation keeps the disk well formed |
| FileSystem.Run | Source/fs/clement_vfs.c:66-317 | and so does every run of them |
| FileSystem.FormattedIsWellFormed | Source/fs/clement_vfs.c:19-63 | a disk with no entry in use and all data blocks zero is well formed |
| FileSystem.MakeThenDelete | Source/fs/clement_vfs.c:66-204 | making a new file and deleting it gives back the live files and the set of free blocks |
| FileSystem.RunKeepsZero | Source/fs/clement_vfs.c:377-389 | over every run free blocks stay zero, as they are cleared when freed |
| FileSystem.NewFileIsEmpty | Source/fs/clement_vfs.c:66-140 | so a file made after any run on a formatted disk reads as the empty text |
| FileSystem.StepLeavesFile | Source/fs/clement_vfs.c:66-317 | an operation on another name leaves a file's entry, blocks and characters |
| FileSystem.FilesPersist | Source/fs/clement_vfs.c:66-317 | so does every run of them |
| LongWrites.FullPass | Source/fs/clement_vfs.c:295-315 | a pass without a NUL takes its block from the free ones and names the lowest that is left |
| LongWrites.PassesOnBootBlock | Source/fs/clement_vfs.c:288-315 | with no block free every pass goes to block 0, and the last one stays there |
| LongWrites.PassesFrame | Source/fs/clement_vfs.c:284-316 | the passes change only their own and free blocks, and block 0, if and only if they outnumber those |
| LongWrites.PassesChain | Source/fs/clement_vfs.c:284-316 | fewer passes than blocks leave no chain of any length; otherwise all the blocks are linked and hold the parts of the text in order |
| LongWrites.CutFrees | Source/fs/clement_vfs.c:262-275 | cutting a file adds all its blocks but the first to the free ones |
| LongWrites.LongOverwrite | Source/fs/clement_vfs.c:253-317 | for every text of a block or more: the entry, the chain or its absence, the other blocks, and when block 0 is overwritten |
| LongWrites.LongOverwriteEntry | Source/fs/clement_vfs.c:277-316 | the entry still heads a chain of its block count, if and only if there are at least as many passes as blocks and no block was free |
| LongWrites.FullBlockOverwrite | Source/fs/clement_vfs.c:277-316 | the disk stays well formed, if and only if that is so |
| LongWrites.FullDisk | Source/fs/clement_vfs.c:284-316 | then the file has the same blocks as before and holds as many parts of the text |
| LongWrites.FullDiskStaysWellFormed | Source/fs/clement_vfs.c:284-316 | and no other part of the disk falls out of order |
| LongWrites.OverwriteLeavesOthers | Source/fs/clement_vfs.c:207-317 | every other file keeps entry, blocks and characters, whatever text is written |
| CStrings.Length | Source/string.c:47-55 | the position of the first NUL |
| CStrings.Strlen | Source/string.c:47-55 | finds that position |
| CStrings.Strchr | Source/string.c:67-74 | finds a character exactly when it is in the text; never the NUL |
| CStrings.Strcmp | Source/string.c:13-27 | 0 exactly when the second buffer begins with the first string and its NUL; otherwise the order at the first difference |
| CStrings.MatchesIsEquality | Source/string.c:13-27 | on terminated strings that is equality of the texts |
| Tokenizer.Seek | Source/string.c:83-91 | the first position with, or without, a delimiter, or the end |
| Tokenizer.Call | Source/string.c:76-101 | after a call the resume position still heads a string with the same end |
| Tokenizer.Strtok.Skip | Source/string.c:83-91 | the scanning loops find that position |
| Tokenizer.Strtok.Next | Source/string.c:76-101 | word, buffer and hidden position after one call, whether or not a string is given |
| Tokenizer.Strtok.All | Source/string.c:76-101 | calling until null terminates and yields the words of the split, in order |
| Tokenizer.SplitPeelsOneCall | Source/string.c:76-101 | the words of a string are the word of one call and the words of what it leaves |
| Tokenizer.CallTakesFirstRun | Source/string.c:83-98 | a call takes the first maximal run and leaves the others maximal runs |
| Tokenizer.SplitFindsMaximalRuns | Source/string.c:76-101 | the words are exactly the maximal delimiter-free runs of the original string |
| Tokenizer.WordsAreDelimited | Source/string.c:76-101 | in terms of the delimiter string: the words are exactly the stretches without its characters, bounded by them or by the ends of the string |
| Tokenizer.SplitIsOrdered | Source/string.c:76-101 | in order and apart |
| Tokenizer.SplitOverwritesDelimiters | Source/string.c:93-95 | only delimiters are overwritten, by NUL |
| Tokenizer.SplitLeavesWords | Source/string.c:76-101 | every word reads back from the final buffer as a C string, and later calls return null and change nothing |
| Console.PutChar | Source/console.c:53-151 | for every character whatsoever the cursor ends inside the grid, on a cell that shows it |
| Console.GridOf | Source/console.c:161-170 | the same for every string |
| Console.Screen.Reset | Source/console.c:19-28 | all cells blank, cursor at the origin |
| Console.Screen.WriteChar | Source/console.c:30-34 | one cell changes |
| Console.Screen.ConsolePutChar | Source/console.c:53-151 | grid and cursor follow the specification |
| Console.Screen.ConsoleWrite | Source/console.c:161-170 | and so do they for a whole buffer |
| Console.Screen.Move | Source/console.c:67-94 | the effect of each control character before correction |
| Console.Screen.Scroll | Source/console.c:115-139 | every row moves up by one and the last is blank |
| Console.Screen.MoveRows | Source/console.c:116-123 | in-place copying moves every row to its old neighbour's contents |
| Console.Screen.MoveRow | Source/console.c:118-122 | one row moved, the rows below still as before |
| Console.Screen.ClearRow | Source/console.c:136-139 | exactly one row is blanked |
| Transcript.CursorIsAtEnd | Source/console.c:146-147 | the cursor stands where the transcript ends |
| Transcript.ScrollShows | Source/console.c:115-139 | scrolling moves the window on the transcript down by one row |
| Transcript.TypedShows | Source/console.c:63-94 | the cells show the extended transcript before any scrolling |
| Transcript.PutCharShows | Source/console.c:53-151 | one character keeps the grid a window on the transcript |
| Transcript.GridShowsTranscript | Source/console.c:53-170 | after any string of printable characters and newlines the grid shows the last rows of the wrapped transcript, with `_` at the cursor |
| Transcript.PlainTextIsLog | Source/console.c:90-106 | the transcript of a string without newlines is that string |
| Transcript.NewlinePads | Source/console.c:68-73 | a newline fills the transcript's row with blanks |
| Transcript.NewlineGoesDown | Source/console.c:68-144 | newline and return alike go to the start of the next row, scrolling on the last |
| Transcript.EscapeGoesUp | Source/console.c:81-112 | an escape goes two rows up, or home from the first two rows, erasing nothing else |
| Transcript.BackOne | Source/console.c:78-100 | backspace and bell alike go one cell back, across the start of a row too |
| Transcript.FeedOne | Source/console.c:74-144 | where a form feed goes from any cell |
| Transcript.BackspaceTakesBack | Source/console.c:78-144 | a backspace takes back the character before it, across the end of a row too, losing only the cell behind the cursor; after the last cell the screen stays scrolled |
| Transcript.FormFeedGoesBelow | Source/console.c:74-144 | a form feed goes to the row below the last character, which stays, and right below it, if and only if that did not scroll from the middle of the last row |

## Left out

What the contracts deliberately do not say:

- Paging.Machine.GetPhysAddr: the TLB, the accessed and dirty bits and `invalidate_page` are not modelled; walks always see memory.
- Paging.Machine.DoMapPage: addresses at or above 0xFFC00000 are excluded here and in every other edit, because there the code edits the directory itself; the frame of a new table is a parameter, and must be one that no table uses.
- Paging.Machine.DoSwapPageTable: keeps the tables well mapped only when given an unused frame, and its guard looks at one address of the 4 MB, so it is not part of the kernel-safety run; neither are `unmap_page_table` and a forced `map_page`.
- Paging.Machine.InitPaging: the two blocks are parameters; entering paging mode and the kernel page counts that the function computes without using are left out.
- Paging.Value: entries are kept as their bit fields, with one-bit fields assigned as booleans; the byte order of a word is not modelled.
- PhysicalPages.PageMap.MemoryInit: the slots are an array of records that is not the bitmap itself; the total memory counter and the printing are left out; memory maps for which boot writes outside its bitmap are excluded, which PhysicalPages.BootStaysInBitmap characterises exactly.
- PhysicalPages.PageMap.Kfree: the pages must have bits in the bitmap; the original checks nothing.
- HeapAllocator.Heap.HeapAlloc: what byte 4095 of a new node's page held is a parameter; an unlinked node at address 0 is not kept, as every use clears it again.
- HeapAllocator.HeapNode.Allocate: the node's address is its page; heap words are natural numbers.
- KernelRuns.Run: stores are to whole words of page blocks that hold no table; heap words are not tied to the words of memory that the walks see, and freeing or overwriting a table, a forced mapping of the kernel and edits of whole tables are not operations of the run.
- AllocatorRuns.Run: `kunfree` and frees with a base or length other than the block's own are not operations of the run; a client stores only inside its own blocks.
- ThreadQueue.ProcessManager.PmNewThread: the descriptor is kept by value in its list node instead of behind a pointer; what the calls of `kmalloc` return is a parameter; the copy of the frame is modelled by its address and contents only, and the call of `set_memory_range_dpl` is left out.
- ThreadQueue.ProcessManager.ProcKillActive: the wrong node is freed by the code; such a `kfree` frees no page, as AllocatorRuns.WordsFreeNoPage says, so it is left out.
- ThreadQueue.ProcessManager.HandleIrq: registered handlers, the end-of-interrupt command and what lies on the ring-0 stacks are left out.
- Lists.ListRemoveNode: a position past the end is excluded; there the code dereferences null.
- Lists.ListAddNode: a failing `kmalloc` is not modelled; the code does not check for it.
- Scheduling.StepKeepsInv: assumes of a creation that the 32-bit thread counter does not wrap, which Scheduling.CreateKeeps shows to be necessary; runs assume it of each of theirs.
- Vfs.Disk.DoOverwrite: append mode is left out.
- Vfs.Disk.DoMkfile: names must be C strings whose comparison with each slot ends inside it, as that of any name of up to ten characters does; the disk has at most 65536 blocks of 512 bytes.
- Vfs.Disk.ReadFatBlock: FAT entries and data blocks are kept as the structures that the code lays over their bytes; the ATA driver is taken to move blocks exactly.
- Vfs.Disk.DoDelfile: entries in use must head proper chains; on a corrupted disk the code reads and writes outside its buffers.
- Tokenizer.Strtok.All: uses the same delimiters in every call, and gives a string in the first.
- Transcript.GridShowsTranscript: right after a reset and before the first character no cursor is drawn.
- Console.Screen.Scroll: the redraw of every cell with its own contents is left out.

What the repository does and this project does not model:

- Port I/O of the ATA, PIC, RTC and keyboard drivers, drawing and fonts, assembly stubs and boot code.
- `clement_vfs_format` and append mode: the first overruns its buffer, the second is unwritten.
- `ramdisk.c`, `fat16.c`, `fs.c`, `multiboot_dump`: unfinished, or reading and printing only.
- `list_count_nodes`, `list_add_child` and list printing, `lock.c`, descriptor table packing: unused, or of no state to speak of.
- `math.c` and line drawing: floating point.
- `console_heartbeat`, `console_set_xy` and the pixel half of the console.
