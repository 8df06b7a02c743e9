# OS-v3 memory subsystem: a verified model

This project models the memory subsystem of the OS-v3 kernel and proves what it
keeps: the four-level page tables, the bitmap page-frame allocator, the
first-fit heap that backs its blocks with both, and the descriptor table and
port list of the AHCI driver.

`dafny verify dfyconfig.toml` checks everything.

## How the model is laid out

| files | models |
|---|---|
| `PageEntry`, `Words` | entry encoding, the address mask, index fields; page and frame numbers as words |
| `Radix` | the radix tree as a graph: walks, the tree invariant, what one new edge changes |
| `PageTables`, `PageMapping` | the tree in a flat memory of 64-bit words; one update as a function on trees, and runs of them |
| `PageBits` | every word an update stores, and the writable bits |
| `PageSteps`, `PageMapper` | the update as a function of memory in any state, and that on a tree it is the former; the update and the lookup as they load and store |
| `BootTables` | the tables the boot code leaves: a start for every run, with low memory mapped but not reserved |
| `Bitmap`, `MemoryMap`, `FrameTable`, `FrameRuns` | the byte table read as bits; the E820 map; init, alloc and free; every run of them |
| `HeapList`, `HeapRuns`, `KernelHeap` | the list of tail records by address; alloc and free as steps and runs; the code itself |
| `HeapNested`, `SpareReuse` | a `mem_alloc` called from within another; a spare table linked before it is replaced |
| `Paging`, `Pager`, `KernelRuns` | backing pages with frames: page map and frame table together; runs of the heap with the pages it backs |
| `Prdt`, `PortList` | the descriptor loop and the list of ports |
| `Options`, `Division` | an option type; facts about remainders |

Each piece of code that changes state is a class or a method over an array,
proved equal to a step function or a step relation; the properties are lemmas
about those steps and about all runs of them. In a proof, `hide` keeps the
definitions of bit operations away from the reasoning about trees.

The code is modelled as written, also where it departs from what it seems meant
to do. In those places a lemma says exactly when the result is right:

- `page_map_PML4` scales the top-level index by eight twice. A page in slot `i`
  below 64 is mapped in slot `8 * i`; the page mapped is the page asked for
  exactly in slot 0 (`MapThenWalk`); from slot 64 on the store leaves the root
  table (`MapSlotInRoot`).
- A spare table is linked without being cleared. All lookups keep their results
  exactly if no walk from the spare down to a frame succeeds
  (`LinkKeepsWalksIff`); for a page table that means that it holds no present
  entry (`LinkKeepsWalksIffClear`). The owners kept describe a tree afterwards
  exactly if the spare became a page table or holds no present entry
  (`LinkKeepsTreeIff`); if an upper spare still refers to a table of the tree,
  no owners do (`StaleEntrySharesTable`).
- A page check passes flags that make a leaf writable but no table it links: a page
  is writable at every level exactly if it had a page table under writable entries
  (`CheckedWritableIff`).
- `page_map_PML4` calls `mem_alloc` again while a `mem_alloc` may be under way.
  It does so once for each missing upper level (`MapTakesSpares`), so for an
  ordinary page exactly if its page table is missing (`NoNestedAllocationIff`),
  and for a block exactly if one of its page tables is (`CheckPage`, `Alloc`).
  Of an outer and an inner call that find places which fit, both records stay
  exactly if the places differ, or both chose one gap and the inner record ends
  before the outer block (`NestedKeptIff`). When both append, the inner record is
  lost and its block may lie inside the outer one (`NestedAppendIsLost`); a first
  request of two megabytes shows it (`NestedAppendOverlaps`, `BootRequestNests`).
- The spare page table is replaced only after that nested call returns. If the
  nested call maps a page without a page table, the same spare is linked twice,
  and the tables are no tree any more, under any owners; otherwise they are one
  (`ReuseIff`).
- `mem_palloc` scans an eighth of each entry's share (`FoundIff`,
  `SixtyThreeFreePages`). `mem_pfree` accepts pages that have no bit, and marks
  pages of another entry free exactly if the range ends past its entry's share,
  starts before the end of all shares, and a later entry has one
  (`FreeReachesOtherEntryIff`, `FreeOfUntrackedPage`). It accepts a range outside
  its entry exactly if the range's end passes 2^64 (`AcceptedRangeInsideIff`,
  `WrappedRangeIsAccepted`). The table has no room for a last entry that is RAM
  unless rounding left some (`SharesFitIff`).
- The frame table reserves the kernel alone. A page check gives out a frame that
  is mapped already exactly if the first page the scan finds is mapped
  (`CheckSharesIff`). Where no mapped page within reach of the scan is marked free,
  that never happens, and page checks keep it so (`NewFramesAreNew`,
  `BackingKeepsTaken`); but the boot code maps low memory, whose frames stay
  marked free (`BootMapIsNotTaken`), and the first page check gives its page the
  frame of page 0 (`FirstCheckSharesFrame`).
- In the top-level slots 1 to 63 a page check takes a frame and leaves the page
  unmapped (`UpperPageTakesFrameInVain`). From slot 64 on an update walks from
  whatever follows the root table: on the boot code's tables the first page of
  slot 64 overwrites the word at address 0 (`SlotSixtyFourWritesPageZero`).
- `mem_alloc` puts the record of a block that fills a gap 24 times its size
  away (`AllocOkIff`, `SixteenBytesOverrun`), so that freeing a block and asking
  for its size again can close the list to a circle (`FreeThenAlloc`,
  `FreeThenAllocLoops`); counted in bytes every allocation is sound
  (`ByteArithmeticAlwaysFits`).
- `mem_free` stores through null pointers at the ends of the list
  (`UnlinkNullStores`) and breaks the list exactly when it frees the first of
  several records (`UnlinkOkIff`).
- The descriptor loop steps 4 KiB per 8 KiB descriptor (`TilesIff`), and the
  command asks for the count the loop has lowered (`FisCountIff`).

Comments that disagree with the code they stand beside: the kernel's record is
said to start at address 0 but gets 0x2000 (alloc.c line 17); `bits_left` counts
bytes (palloc.c line 108). The model follows the code.

## Assumptions

- The address mask keeps bits 12 to 47 and no offset bit: an address width of at
  least 36 (`FilterExact`). Protection bits must stay clear of the mask, which
  all do up to a width of 47 and the kernel's own value 0 always does.
- RAM entries of the memory map do not overlap, are shorter than 8 TiB and end
  below 2^64. Where frames are mapped, they also start on page boundaries and
  end below 2^48.
- The kernel occupies contiguous physical memory (`ReservedIsInitial`).
- What the nested calls `mem_alloc(0x1000, 0x1000)` return is a given supply. An
  update in any state is `Update`; the results about trees are for a supply of
  distinct, aligned, empty tables.
- The memory of the frame table reaches to the last byte the walks touch, which
  may lie past the table (`SharesFitIff`).
- CPUID, the page lookup used while reserving the kernel, the initial contents
  of memory and the memory map are parameters.

## Model

| member | source | states |
|---|---|---|
| PageEntry.FilterExact | kernel/src/code/mem/page_map.c:29-32 | the mask built from the address width keeps every index bit exactly from width 36 on, and misses all protection bits exactly up to width 47 |
| PageEntry.FilterBits | kernel/src/code/mem/page_map.c:29-32 | the mask has the bits from 12 on, as many as the address width, that fit 64 bits |
| PageEntry.MaskParts | kernel/src/code/mem/page_map.c:96-97 | a masked word has no bit outside the mask and its own bits inside |
| PageEntry.LeafRoundTrip | kernel/src/code/mem/page_map.c:73-78 | a page-table entry gives back present bit and flags always, the frame for every frame exactly if the protection bits miss the mask, and the five protection bits up to width 47 |
| PageEntry.LeafBits | kernel/src/code/mem/page_map.c:73-78 | and it holds nothing besides these |
| PageEntry.TableDecodes | kernel/src/code/mem/page_map.c:46-69 | an upper-level entry is present and gives back the table address |
| PageEntry.TableBits | kernel/src/code/mem/page_map.c:46-69 | its low byte is the flags with the present bit, bit 63 the protection bit, and no other bit is set outside the address field |
| PageEntry.PageIndices | kernel/src/code/mem/page_map.c:82-92 | two addresses lie in the same page of the low 2^48 bytes exactly if their four indices agree |
| PageEntry.PageFromIndices | kernel/src/code/mem/page_map.c:82-92 | the indices, shifted to bits 39, 30, 21 and 12, make up the page's address |
| PageEntry.SlotParts | kernel/src/code/mem/page_map.c:106-121 | an entry's address is that of its table with the index, times eight, as offset |
| PageEntry.MapSlotParts | kernel/src/code/mem/page_map.c:99 | the top-level address of an update is 64 bytes for each index past the root |
| PageEntry.MapSlotInRoot | kernel/src/code/mem/page_map.c:99 | the top-level slot of an update lies in the root table exactly below index 64 |
| PageEntry.AliasSame | kernel/src/code/mem/page_map.c:99 | the page an update reaches is the page asked for exactly in top-level slot 0 |
| Radix.DescendInside | kernel/src/code/mem/page_map.c:143-164 | walks from a table of the tree stay in the tree and go down one level a step |
| Radix.DescendInjective | kernel/src/code/mem/page_map.c:105-121 | two walks meet in a table only if they took the same indices: no table is shared |
| Radix.TreeIsReachable | kernel/src/code/mem/page_map.c:99-122 | the recorded tables are exactly those that walks reach, each by one walk |
| Radix.LinkKeepsTree | kernel/src/code/mem/page_map.c:100-103 | linking an empty outside table into a free entry keeps the tree, so each table has one referring entry |
| Radix.LinkKeepsWalk | kernel/src/code/mem/page_map.c:100-118 | and changes the result of no full walk |
| Radix.LeafChangesOneWalk | kernel/src/code/mem/page_map.c:120-122 | the last store changes the walk of its own path and no other |
| Radix.LinkKeepsWalksIff | kernel/src/code/mem/page_map.c:100-118 | linking a spare of any content at any of the three levels keeps all full walks exactly if no walk from the spare down to a frame succeeds |
| Radix.LinkKeepsWalksIffClear | kernel/src/code/mem/page_map.c:114-118 | for a spare linked as page table: exactly if it holds no present entry |
| Radix.LinkKeepsTreeIff | kernel/src/code/mem/page_map.c:100-118 | the tree with the spare adopted is a tree exactly if the spare became a page table or holds no present entry |
| Radix.StaleEntrySharesTable | kernel/src/code/mem/page_map.c:100-112 | a spare PDPT or page directory that refers to a table of the tree, or to itself, leaves no tree under any owners |
| Radix.TraceFromAnswers | kernel/src/code/mem/page_map.c:142-164 | the lookup reports a frame exactly if the walk succeeds, and otherwise the level where it first fails |
| PageTables.StoreFrame | kernel/src/code/mem/page_map.c:106-121 | a store into an entry changes no other entry of any aligned table |
| PageTables.StoreIsEdge | kernel/src/code/mem/page_map.c:101-122 | storing a present entry adds one edge to the graph of tables |
| BootTables.BootTreeHolds | boot/PM/kernel-PM.s:69-207 | the five tables of the boot code satisfy the tree invariant |
| BootTables.BootEntry | boot/PM/kernel-PM.s:69-207 | the words stored at 0x70000, 0x71000, 0x72000 and 0x723F8 are the only present entries of the three upper tables |
| BootTables.KernelPageStoresAt | kernel/src/code/mem/page_map.c:94-123 | on those tables the update of page 0xFE5_0000 stores its leaf entry at 0x76280 and nothing else |
| BootTables.BootIsReady | kernel/src/code/mem/page_map.c:10-41 | with three empty spares apart from it, the boot code's tree is a state from which every run of updates is sound |
| BootTables.BootMapIsNotTaken | boot/PM/kernel-PM.s:82-88 | after the boot code's mapping of low memory and the reservation of a kernel further up, frame 0 is mapped and marked free |
| BootTables.FirstCheckSharesFrame | kernel/src/code/mem/alloc.c:34-38 | from that state the first check of an unmapped page gives it the frame of page 0 |
| BootTables.BootRequestNests | kernel/src/code/mem/page_map.c:100-118 | page 0x1000_0000 has no page table after boot, so its update calls `mem_alloc`, while the pages around a record at 0xFE5_0000 have one |
| BootTables.SlotSixtyFourWritesPageZero | kernel/src/code/mem/page_map.c:99-122 | on the boot code's tables an update of the first page of slot 64 changes the word at address 0 and nothing else, and the page stays unmapped |
| PageMapping.GrowKeepsReady | kernel/src/code/mem/page_map.c:100-118 | one linking step keeps the tree and the spares outside it, and uses one spare at most |
| PageMapping.MapKeepsReady | kernel/src/code/mem/page_map.c:94-123 | an update keeps the tree, never unlinks a table, and keeps all spares distinct, empty and unlinked |
| PageMapping.MapRefinesFlatUpdate | kernel/src/code/mem/page_map.c:94-123 | an update gives the aliased page its frame and leaves every other page's frame, or lack of one, as it was |
| PageBits.MapStores | kernel/src/code/mem/page_map.c:94-123 | every word an update stores: the leaf entry; for each upper level missing, the entry that links the spare of that level with the flags given; and no other word |
| PageBits.MapKeepsLeaves | kernel/src/code/mem/page_map.c:94-123 | the update of an unmapped page leaves the entries of all mapped pages as they were |
| PageBits.CheckedWritableIff | kernel/src/code/mem/alloc.c:38 | with the flags of a page check a page is writable at every level exactly if it had a page table and all upper entries were writable |
| PageMapping.MapThenWalk | kernel/src/code/mem/page_map.c:94-164 | after mapping a page its lookup sees the new frame exactly in slot 0, or if it saw that frame before |
| PageMapping.UpperPageStaysUnmapped | kernel/src/code/mem/page_map.c:99-147 | in the slots 1 to 63 an unmapped page stays unmapped and another page gets the frame |
| PageMapping.SlotOneIsMappedInSlotEight | kernel/src/code/mem/page_map.c:99-122 | an update of the first page of slot 1 leaves it as it was and maps the first page of slot 8 |
| PageMapping.MapTakesSpares | kernel/src/code/mem/page_map.c:102-116 | the number of nested allocations is the number of missing upper levels |
| PageMapping.NoNestedAllocationIff | kernel/src/code/mem/page_map.c:100-118 | for a page of slot 0 no nested allocation happens exactly if its page table exists |
| PageMapping.MapKeepsTables | kernel/src/code/mem/page_map.c:94-123 | an update removes no page table from under any page |
| PageMapping.MapAddsNoTable | kernel/src/code/mem/page_map.c:100-122 | an update that takes no spare adds no page table under any page |
| PageMapping.FrameNeedsTable | kernel/src/code/mem/page_map.c:143-164 | a page that has a frame has a page table |
| PageMapping.RunRefinesFlatMap | kernel/src/code/mem/page_map.c:94-164 | over every run of updates the tree answers like a flat map in which the last update of a page wins |
| PageMapping.Run | kernel/src/code/mem/page_map.c:94-122 | every run keeps the tree and the spares sound |
| PageMapping.TraceAnswers | kernel/src/code/mem/page_map.c:143-164 | the lookup agrees with the flat map, and names the level below which the walk finds nothing |
| PageSteps.UpdateIsMap | kernel/src/code/mem/page_map.c:94-123 | in every state with a sound tree, and for a top-level slot in the root table, the loads and stores give the memory of the update of the aliased page |
| SpareReuse.ReuseIff | kernel/src/code/mem/page_map.c:114-118 | an update made while a spare page table is linked and not yet replaced leaves a tree under some owners exactly if its page had a page table |
| SpareReuse.TwoWalks | kernel/src/code/mem/page_map.c:114-118 | one table linked into two free entries leaves no tree under any owners |
| PageMapper.Mapper.ConstructTableEntry | kernel/src/code/mem/page_map.c:46-69 | builds an upper-level entry in place |
| PageMapper.Mapper.ConstructLeafEntry | kernel/src/code/mem/page_map.c:73-78 | builds a page-table entry in place |
| PageMapper.Mapper.NeedPdpt | kernel/src/code/mem/page_map.c:100-105 | in any state links the spare PDPT if the entry is free, replaces the spare, and returns the table the entry then leads to |
| PageMapper.Mapper.NeedPd | kernel/src/code/mem/page_map.c:107-112 | likewise for the page directory |
| PageMapper.Mapper.NeedPt | kernel/src/code/mem/page_map.c:114-120 | likewise for the page table |
| PageMapper.Mapper.Map | kernel/src/code/mem/page_map.c:94-123 | the loads and stores of the update in any state, for every address and whatever the spares hold; on a sound tree, proved to be the update function |
| PageMapper.Mapper.TracePage | kernel/src/code/mem/page_map.c:143-164 | the loads of the lookup, proved to be the lookup function |
| Bitmap.OverwriteBack | kernel/src/code/mem/palloc.c:123-127 | clearing a run of set bits and setting it again gives back the same bytes |
| Bitmap.CountAfter | kernel/src/code/mem/palloc.c:123-172 | clearing or setting a run changes the number of set bits by exactly its length |
| Bitmap.ClearRun | kernel/src/code/mem/palloc.c:77-82 | the clearing loop clears exactly its run |
| Bitmap.SetRun | kernel/src/code/mem/palloc.c:167-172 | the setting loop sets exactly its run |
| MemoryMap.OffsetWithinRam | kernel/src/code/mem/palloc.c:36-44 | the shares of the entries never exceed one byte for 32 KiB of RAM |
| MemoryMap.RamBelowCounts | kernel/src/code/mem/palloc.c:36-42 | the RAM counted is the number of addresses that lie in RAM entries |
| MemoryMap.TableSizeIs | kernel/src/code/mem/palloc.c:43-44 | the table has one byte for every 32 KiB of it, rounded down |
| MemoryMap.StepsAgree | kernel/src/code/mem/palloc.c:85-150 | the three walks advance by the same number of bytes for each entry |
| MemoryMap.SharesFitIff | kernel/src/code/mem/palloc.c:36-44 | the table holds all shares exactly if the last entry is not RAM or its share fits what rounding left |
| MemoryMap.LastRamEntryOverruns | kernel/src/code/mem/palloc.c:36 | a map whose last entry has no room in the table |
| MemoryMap.SharesDisjoint | kernel/src/code/mem/palloc.c:98-150 | entry and page index determine the bit, and the bit determines them |
| FrameTable.ScanHit | kernel/src/code/mem/palloc.c:117-132 | a set bit lengthens the current run and completes no earlier one |
| FrameTable.ScanMiss | kernel/src/code/mem/palloc.c:133-139 | a clear bit starts a new run and completes none |
| FrameTable.FindRegion | kernel/src/code/mem/palloc.c:158-175 | the first entry that holds a freed range, its end taken modulo 2^64 |
| FrameTable.FrameAllocator.constructor | kernel/src/code/mem/palloc.c:36-55 | sizes the table by the RAM of all entries but the last, marks every page in it free and writes nothing past it |
| FrameTable.FrameAllocator.ReserveKernel | kernel/src/code/mem/palloc.c:46-93 | moves the kernel's end to the first page boundary past the table and one more byte, clears exactly the kernel's bits, also where they lie past the table, or halts exactly if a lookup fails or no RAM entry holds the kernel |
| FrameTable.FrameAllocator.ScanRegion | kernel/src/code/mem/palloc.c:107-147 | finds the earliest run of free bits in one eighth of a share, or shows there is none |
| FrameTable.FrameAllocator.Alloc | kernel/src/code/mem/palloc.c:96-153 | first fit over all entries: takes exactly the pages returned, or fails and changes nothing |
| FrameTable.FrameAllocator.Free | kernel/src/code/mem/palloc.c:155-178 | sets exactly the bits of the range, which may lie past its entry's share or past the table, in the first entry that holds it by 64-bit arithmetic, or changes nothing |
| FrameRuns.FoundIff | kernel/src/code/mem/palloc.c:99-152 | a call succeeds exactly if it asks for a page at least and some RAM entry has that many free pages in a row in its first 8 * (pages / 64) |
| FrameRuns.SixtyThreeFreePages | kernel/src/code/mem/palloc.c:108-113 | an entry of 63 pages, all 56 bits of which are set, in which no page is found, in a table with room for all entries |
| FrameRuns.FindsOwnRegion | kernel/src/code/mem/palloc.c:158-165 | the address of a page range leads the free walk to the entry and bit it came from |
| FrameRuns.RangeInEntry | kernel/src/code/mem/palloc.c:128-131 | a page range starts whole pages into its entry, is as long as its pages and ends in the entry |
| FrameRuns.FreeFindsIff | kernel/src/code/mem/palloc.c:158-165 | a range that does not pass 2^64 is accepted exactly if it lies in the whole pages of some RAM entry |
| FrameRuns.AllocThenFree | kernel/src/code/mem/palloc.c:123-173 | an allocation and the free of its result restore the table byte for byte |
| FrameRuns.AllocRefinesFreeSet | kernel/src/code/mem/palloc.c:123-132 | of all pages with a bit, an allocation takes those it returns out of the set of free pages and no other |
| FrameRuns.FreeReachesOtherEntryIff | kernel/src/code/mem/palloc.c:164-175 | a free sets the bit of some page of another entry exactly if the range ends past page 8 * (pages / 8) of its entry, starts before the end of all shares, and a later entry has one; also for ranges that pass 2^64, as far as page numbers fit the counters |
| FrameRuns.SpillMarksOtherPage | kernel/src/code/mem/palloc.c:164-175 | and then a page of another entry is marked free |
| FrameRuns.FreeRefinesFreeSet | kernel/src/code/mem/palloc.c:155-178 | otherwise it adds the pages of the range to the set of free pages and no other |
| FrameRuns.SpillsInsideIff | kernel/src/code/mem/palloc.c:164-175 | for a range that does not pass 2^64: exactly if it ends among its entry's pages without a bit and some later entry has pages with one |
| FrameRuns.AcceptedRangeInsideIff | kernel/src/code/mem/palloc.c:162-165 | an accepted range lies in the entry it is found in exactly if its end does not pass 2^64 |
| FrameRuns.WrappedRangeIsAccepted | kernel/src/code/mem/palloc.c:162-170 | the last page below 2^64 is accepted in a low entry, and the byte index of its bit is -1 |
| FrameRuns.FreeOfUntrackedPage | kernel/src/code/mem/palloc.c:164-170 | in a table with room for all entries, freeing the ninth page of an entry, which has no bit, marks another entry's page free |
| FrameRuns.TableApartIsMemoryApart | kernel/src/code/mem/palloc.c:128-131 | ranges that share no bit share no byte of memory |
| FrameRuns.ReservedIsInitial | kernel/src/code/mem/palloc.c:56-83 | the reservation leaves a safe start, and covers exactly the kernel's bytes if and only if it starts whole pages into its entry |
| FrameRuns.LiveCanBeFreed | kernel/src/code/mem/palloc.c:155-172 | a range handed out is found in its own entry, does not wrap, lies in the table and spills into no other entry |
| FrameRuns.StepKeepsInv | kernel/src/code/mem/palloc.c:96-178 | every allocation and matching free keeps the bits of live ranges and kernel taken and apart |
| FrameRuns.RunsAreSafe | kernel/src/code/mem/palloc.c:56-178 | over every interleaving, live ranges lie in single RAM entries and meet neither each other nor the kernel in memory |
| FrameRuns.PagesConserved | kernel/src/code/mem/palloc.c:96-178 | free bits plus pages handed out are constant over every run |
| HeapList.BlocksDisjoint | kernel/src/code/mem/alloc.c:48-104 | blocks with their records lie in address order without overlap |
| HeapList.ChainUnique | kernel/src/include/mem/alloc.h:3-7 | the links determine the list |
| HeapList.PlaceIsAligned | kernel/src/code/mem/alloc.c:55-59 | a block's start is a multiple of the alignment, past the previous record by at least one byte and at most the alignment |
| HeapList.GapFitsIff | kernel/src/code/mem/alloc.c:55-63 | a gap fits exactly if some multiple of the alignment past the record leaves room for block and record |
| HeapList.InsertKeepsInv | kernel/src/code/mem/alloc.c:64-75 | a record that ends before the next block keeps list and spacing |
| HeapList.InsertOkIff | kernel/src/code/mem/alloc.c:63-75 | an insertion keeps the heap sound exactly if its record ends before the next block |
| HeapList.AppendKeepsInv | kernel/src/code/mem/alloc.c:85-103 | an append always keeps the heap sound |
| HeapList.AppendStores | kernel/src/code/mem/alloc.c:97-101 | it stores the new record and one link |
| HeapList.UnlinkKeepsInv | kernel/src/code/mem/alloc.c:110-114 | removing any record but the first keeps the heap sound |
| HeapList.UnlinkOkIff | kernel/src/code/mem/alloc.c:112-113 | a removal keeps the heap sound exactly if it is not that of the first of several records |
| HeapList.UnlinkStores | kernel/src/code/mem/alloc.c:112-113 | a removal stores the neighbours' two links, with null for a missing neighbour, and nothing else |
| HeapList.UnlinkNullStores | kernel/src/code/mem/alloc.c:112-114 | a removal writes at address 0 at the ends of the list and nowhere else |
| HeapList.InsertThenUnlink | kernel/src/code/mem/alloc.c:64-114 | removing the record just inserted restores all other records and the list |
| HeapList.StartsDiffer | kernel/src/code/mem/alloc.c:107-118 | an address names at most one block |
| HeapList.FreedGapIsReused | kernel/src/code/mem/alloc.c:48-121 | after an interior block is freed the next unaligned allocation of its size takes a gap at or below it |
| HeapNested.NestedKeptIff | kernel/src/code/mem/alloc.c:48-104 | of an outer and a nested call both records stay on a sound list exactly if they chose different places, or one gap in which the inner record ends before the outer block |
| HeapNested.NestedOkIff | kernel/src/code/mem/alloc.c:48-104 | the list is sound afterwards exactly then or if both append |
| HeapNested.NestedAppendIsLost | kernel/src/code/mem/alloc.c:84-103 | when both calls append, the list is the old one with the outer record alone; a later free finds the inner block exactly if both got the same start |
| HeapNested.NestedAppendOverlaps | kernel/src/code/mem/alloc.c:84-103 | a first request of two megabytes whose nested allocation gets a page inside them and leaves no record |
| HeapRuns.AllocOkIff | kernel/src/code/mem/alloc.c:48-104 | an allocation keeps the heap sound exactly if it appends or its scaled record fits the gap |
| HeapRuns.ByteArithmeticAlwaysFits | kernel/src/code/mem/alloc.c:63-65 | with byte arithmetic every allocation keeps it sound |
| HeapRuns.SixteenBytesOverrun | kernel/src/code/mem/alloc.c:65-70 | reachable from `mem_init`: a 16-byte block in a 104-byte gap breaks the heap |
| HeapRuns.AllocThenFree | kernel/src/code/mem/alloc.c:64-121 | freeing a block just put in a gap restores nodes and links |
| HeapRuns.FreeThenAlloc | kernel/src/code/mem/alloc.c:48-121 | after an interior block is freed, an unaligned allocation of at most its size starts at or below it; the heap is sound then exactly if the scaled record fits that gap, and in that case the last record stays the last |
| HeapRuns.FreeThenAllocInBytes | kernel/src/code/mem/alloc.c:48-121 | with byte arithmetic it is always sound and keeps its last record |
| HeapRuns.FreeThenAllocLoops | kernel/src/code/mem/alloc.c:64-121 | reachable from `mem_init`: freeing 16 bytes and asking for them again makes the links run in a circle |
| HeapRuns.RunsKeepBlocksApart | kernel/src/code/mem/alloc.c:48-121 | over every run of guarded calls the list stays sound and no block or record overlaps another |
| KernelHeap.Allocator.constructor | kernel/src/code/mem/alloc.c:11-17 | the list starts as the kernel's record alone |
| KernelHeap.Allocator.FindPlace | kernel/src/code/mem/alloc.c:49-92 | the walk ends, at the first gap that fits or at the last record, with the aligned start |
| KernelHeap.Allocator.PutBefore | kernel/src/code/mem/alloc.c:64-75 | backs and links a block in a gap; halts exactly if a page of block and record stays without a frame, and then none is left; otherwise a nested allocation happens exactly if a page table of them is missing |
| KernelHeap.Allocator.PutAfter | kernel/src/code/mem/alloc.c:84-103 | the same after the last record |
| KernelHeap.Allocator.Alloc | kernel/src/code/mem/alloc.c:48-104 | first fit; halts exactly if a page of block and record stays without a frame, and then none is left; otherwise the block is linked, the heap is sound afterwards exactly if the record fits, and nothing is allocated in between exactly if the block's page tables exist; no page outside the block is mapped |
| KernelHeap.Allocator.Free | kernel/src/code/mem/alloc.c:106-121 | returns 1 exactly if no block starts at the address; otherwise 0: a block that is not the first is removed and the heap stays sound, while for the first of several records nothing is removed and the list is broken |
| KernelRuns.AllocRuns | kernel/src/code/mem/alloc.c:48-104 | what an allocation ensures is a step of a run of the heap with its pages |
| KernelRuns.RunKeepsLive | kernel/src/code/mem/alloc.c:32-121 | a guarded call keeps every page of every live block and record mapped |
| KernelRuns.RunsKeepBlocksMapped | kernel/src/code/mem/alloc.c:32-121 | over every run of guarded heap calls, page checks and frame allocations, live blocks and records stay mapped and apart, and each page of memory was taken once |
| Words.PageWords | kernel/src/code/mem/alloc.c:33 | pages below 512 GiB have different addresses, all in slot 0 |
| Words.PageWordCounts | kernel/src/code/mem/alloc.c:33 | page 0 starts at address 0 and each page 0x1000 after the one before |
| Words.FrameWords | kernel/src/code/mem/page_map.c:97 | frames below 2^48 pass the mask unchanged and differ |
| Words.FrameWordCounts | kernel/src/code/mem/alloc.c:36-38 | frame 0 starts at address 0 and each frame 0x1000 after the one before |
| Paging.BacksOne | kernel/src/code/mem/alloc.c:34-38 | one allocation mapped at an unmapped page maps that page only and takes one free RAM page |
| Paging.CheckedLeaf | kernel/src/code/mem/alloc.c:38 | the entry stored is present, writable and has no other flag, with the frame allocated; the entries of pages mapped before stay |
| Paging.DistinctFrames | kernel/src/code/mem/alloc.c:36-38 | pages mapped by page checks have different frames |
| Paging.NewFrameIsSharedIff | kernel/src/code/mem/alloc.c:34-38 | a page gets a frame that some page had before exactly if the RAM page taken for it was mapped |
| Paging.CheckSharesIff | kernel/src/code/mem/alloc.c:34-38 | for one page check: exactly if the first page the scan finds is mapped |
| Paging.NewFramesAreNew | kernel/src/code/mem/alloc.c:34-38 | where no mapped page within reach of the scan is marked free, a new frame differs from the frame of every page mapped before |
| Paging.BackingKeepsTaken | kernel/src/code/mem/alloc.c:32-46 | page checks keep it so |
| Paging.MappingsStay | kernel/src/code/mem/alloc.c:34-35 | page checks change no mapping that was there |
| Paging.Compose | kernel/src/code/mem/alloc.c:32-46 | the effects of two page checks add up, on different pages and frames |
| Paging.RunBacksOnce | kernel/src/code/mem/alloc.c:32-46 | over every run of page checks, with other allocations of frames in between, no two checks map the same page, and each bit cleared was cleared for one page or by one of those allocations, never both |
| Paging.MapLowTables | kernel/src/code/mem/page_map.c:100-118 | backing a page keeps all page tables, and adds one exactly if it takes a spare, which is exactly if the page's own is missing |
| Paging.UpperPageTakesFrameInVain | kernel/src/code/mem/alloc.c:34-38 | in the slots 1 to 63 a check of an unmapped page takes one free page and leaves the page unmapped |
| Pager.PageSource.CheckOne | kernel/src/code/mem/alloc.c:33-45 | one page gets a frame, by a present and writable entry, unless it has one, or no frame is left |
| Pager.PageSource.CheckPage | kernel/src/code/mem/alloc.c:32-46 | it halts exactly if a page that meets the range stays without a frame, and then none is left; pages newly mapped meet the range and have present, writable entries for the frames taken; when it returns, nothing was allocated in between exactly if the range's page tables existed |
| Prdt.LengthInRange | kernel/src/code/disk/ahci.c:239-263 | for 1 to 1048560 sectors: one descriptor for every 16, and 1 to 16 sectors in the last |
| Prdt.BytesConservedIff | kernel/src/code/disk/ahci.c:239-264 | the descriptors' bytes add up to the sectors asked for exactly for 1 to 1048560 sectors |
| Prdt.FieldsAreOdd | kernel/src/code/disk/ahci.c:255-263 | every byte-count field is odd and fits 22 bits |
| Prdt.AddressHalves | kernel/src/code/disk/ahci.c:253-262 | the address halves are 32-bit words and give the buffer address, 4 KiB further for each descriptor before; every descriptor raises an interrupt |
| Prdt.SectorsHeld | kernel/src/code/disk/ahci.c:239-287 | for 1 to 1048560 sectors every descriptor holds 16 sectors but the last, which holds what the command asks for |
| Prdt.TilesIff | kernel/src/code/disk/ahci.c:251-262 | segments tile the buffer with a step of a whole descriptor, and with the step taken exactly up to 16 sectors |
| Prdt.FisCountIff | kernel/src/code/disk/ahci.c:286-287 | for 1 to 1048560 sectors the command asks for the sectors of the table exactly up to 16 |
| Prdt.SeventeenSectors | kernel/src/code/disk/ahci.c:251-287 | two overlapping segments and a command for one sector |
| Prdt.Build | kernel/src/code/disk/ahci.c:239-264 | the loop fills the table as specified and lowers the count to what the last descriptor holds |
| PortList.NoRepeats | kernel/src/code/disk/ahci.c:108-118 | no record occurs twice on a list that ends |
| PortList.AppendOkIff | kernel/src/code/disk/ahci.c:108-118 | an append ends the list at the new record, order kept, exactly if it was not on the list |
| PortList.AppendKeepsFields | kernel/src/code/disk/ahci.c:108-118 | an append changes one link and no other field of any record |
| PortList.AppendsInOrder | kernel/src/code/disk/ahci.c:108-118 | appending distinct records one after the other gives the list of just those in that order, with the ids they had |
| PortList.List.Append | kernel/src/code/disk/ahci.c:108-118 | the append as it runs |
| PortList.List.Find | kernel/src/code/disk/ahci.c:218-223 | the search ends, and finds the earliest record with the id exactly if there is one |

## Left out

- Nested `mem_alloc` inside `page_map_PML4`: spare tables come from a supply, which stays unused exactly where the page tables exist; elsewhere `HeapNested` follows one nested call through the list, and `SpareReuse` one nested update through the tables; deeper nesting is not followed.
- PageMapper.Mapper.NeedPdpt: the next spare is the head of that supply, not the result of a nested `mem_alloc`.
- PageMapper.Mapper.NeedPd: likewise.
- PageMapper.Mapper.NeedPt: likewise; the screen it clears is not part of the model.
- PageMapper.Mapper.Map: at most three spares are taken, and the supply holds as many; a nested update that finds the linked spare still in place is `ReuseIff`.
- PageMapping.UpperPageStaysUnmapped: in slots from 64 on the store goes by whatever follows the root table, of which `SlotSixtyFourWritesPageZero` shows one case.
- Paging.UpperPageTakesFrameInVain: likewise.
- HeapNested.NestedKeptIff: both places are chosen on the same list and both records fit; one nested call.
- Pager.PageSource.CheckPage: ranges end at 512 GiB or below, because pages of other top-level slots are never mapped where the lookup looks (`UpperPageStaysUnmapped`).
- KernelHeap.Allocator.Alloc: addresses stay below 512 GiB and the supply suffices for the block, so 64-bit wrap-around of sizes and alignments is not modelled.
- KernelHeap.Allocator.PutBefore: the same bounds.
- KernelHeap.Allocator.PutAfter: the same bounds.
- HeapList.InsertOkIff: records are whole values by address; a record that overlaps another's bytes is shown to break the spacing, not followed byte by byte.
- FrameTable.FrameAllocator.Free: the bits written lie in the modelled memory, which may reach past the table, and page counts fit the source's `int` counters; `WrappedRangeIsAccepted` shows an input that does neither.
- FrameTable.FrameAllocator.ReserveKernel: the same for the kernel's bits.
- FrameTable.FrameAllocator.constructor: the modelled memory holds the table and every byte the walks reach.
- Heap records, page tables and the frame table live in separate stores: that blocks of the heap, tables and the frame table do not overlap each other in linear memory is not part of the model.
- The halt loops: a halted call promises only that nothing was linked, or that no frame is left.
- `page_map_init` reads CPUID and CR3; only its mask is modelled.
- `page_map_PML5`, `page_trace_PML5`: never called; a fifth level adds nothing to the four-level proof.
- PortList.List.Append: of a port's record only the link, the id and two addresses are modelled, not the command-table addresses.
- `ahci_port_rebase`, command slots, register polling and the rest of the command: they depend on a device.
- Screen, interrupts, timer, PCI scan, checksum and `mem_write`: short routines with shallow properties.
- Translation caches, and whether hardware walks what the code stores.
