# Kernel memory and timer verification

This project models the memory management of the kernel, from the firmware memory map to the kernel
heap, its per-CPU timer, and the checksum of the image tool, and proves what these parts promise over
all inputs, all states and whole runs. Code that updates arrays, records and lists in place is
modelled by classes and methods with loops; what they compute is stated through functions and
predicates on values, and the properties of those are proved as lemmas.

| file | what it models |
|---|---|
| `Machine.dfy` | the page size, and facts about quotients that several modules share |
| `Bitmap.dfy`, `PageSearch.dfy`, `Physmem.dfy`, `PageRuns.dfy` | the physical page manager: two bitmaps, the acquisition scan, claiming, releasing, reserving; runs of these |
| `Pte.dfy`, `PageTable.dfy` | page table entries, four-level tables as physical frames, the walk |
| `Regions.dfy` | the list of virtual memory regions of an address space |
| `Vmm.dfy`, `DemandPaging.dfy`, `WrappedPages.dfy` | tables acquired on demand, static mapping, the page fault handler, runs of accesses; a machine on which page addresses wrap |
| `Descriptors.dfy`, `SortDomain.dfy`, `MemmapSort.dfy`, `Canonical.dfy`, `MemmapInit.dfy` | sorting the firmware map and building the canonical map |
| `DirectWindow.dfy`, `DirectMap.dfy`, `DirectMapInit.dfy`, `Boot.dfy`, `Startup.dfy` | the direct map of physical memory, how it follows from the firmware map, and the start of memory management as one chain |
| `HeapBlocks.dfy`, `HeapMemory.dfy`, `Heap.dfy`, `HeapRuns.dfy`, `HeapCases.dfy` | the kernel heap: the header list, the bytes it lies in, the operations, runs of a client, states in which it fails |
| `TimerQueue.dfy`, `TimerBooks.dfy`, `Timer.dfy`, `TimerRuns.dfy` | the timer queues, the books of what is due and what fired, `SetTimer` and the timer interrupt, runs |
| `Crc.dfy` | the table-driven CRC-32 of the image tool |

`dafny verify dfyconfig.toml` checks everything.

How the main parts are stated:

- **Pages.** `taken`, `reserved` and `initial` are sets of page ids; `Consistent` says that the two
  bitmaps show `taken` and `reserved`, and `Valid` adds that the counter is the number of pages
  acquired and not yet released. A page's address is a product of 32 bits; results that need it to be
  right ask for at most 2^20 pages. A run of page operations is a list of states, each of which
  follows from the one before by the answer given.
- **Page tables.** Memory is a map from physical frames to 512 entries. `Tree` says that the tables
  reachable from the root form a tree; `Lookup` is the walk for an address, with the rights that all
  entries read on the way leave, `Translate` its physical address. What an operation does to memory is
  stated by what it does to every walk. `PathRights` is what the tables above a page allow, the missing
  ones taken as the kernel links them; adding tables never changes it.
- **Heap.** Headers, back words and client data share one memory of bytes. A byte remembers what was
  stored over it last, so a header can be loaded only where nothing has overwritten it. A run of a
  client is a list of states, as for pages.
- **Timers.** `Stepped` says what a step does to the queue, the time, and the `Books`, which record when
  each timer is due and in which interrupt it fired. A run is the list of worlds that its steps
  determine; the timer goes through them, and the theorems about runs are about that list.

## Model

| member | source | states |
|---|---|---|
| Bitmap.BitPlace | Kernel/Source/Memory/Physmemmgmt.c:346-354 | the bit of a page is the one with the weight 2 to the power of its id modulo 8 |
| Bitmap.SetPageStatus | Kernel/Source/Memory/Physmemmgmt.c:366-443 | the 64/32/16/8-bit stores set exactly the pages of the range, or the call is refused when the range passes the last page and no bit changes |
| Bitmap.PaintBulk | Kernel/Source/Memory/Physmemmgmt.c:396-422 | one width of the bulk loop paints exactly the bytes it passes and leaves less than one unit of that width |
| Bitmap.PaintAligned | Kernel/Source/Memory/Physmemmgmt.c:396-440 | the widths one after the other and the bits that remain paint exactly the aligned rest of the range |
| PageSearch.NextFit | Kernel/Source/Memory/Physmemmgmt.c:194-237 | a one-page sparse scan finds the free page that comes first in cyclic order from the start, and nothing exactly when no page is free |
| PageSearch.SparseFree | Kernel/Source/Memory/Physmemmgmt.c:194-237 | a sparse scan lists free pages only, and never a page right after itself |
| PageSearch.SparseDistinct | Kernel/Source/Memory/Physmemmgmt.c:194-237 | a sparse scan lists no page twice if and only if the request is no larger than the number of free pages or no free page shares the start's byte at or above it |
| Physmem.PageManager.Hunt | Kernel/Source/Memory/Physmemmgmt.c:194-224 | one pass over the bitmap: a dense pass gives the lowest run in what it covers, or, if and only if there is none, the free pages at its end; a sparse pass extends the list by the free pages in order |
| Physmem.PageManager.AcquirePages | Kernel/Source/Memory/Physmemmgmt.c:165-298 | what every combination of modes returns, as a function of the taken pages and the start, for a request of the base only if it is dense, refused or for one page; a dense request gets the lowest run at or above the start, else the lowest one in the bytes through that of the start, else the shorter run that ends where the last pass stops; exactly the pages found are claimed, the counter and the hint move accordingly |
| Physmem.DenseDetermined | Kernel/Source/Memory/Physmemmgmt.c:184-237 | that leaves no choice: the taken pages and the request determine the pages of a dense answer |
| Physmem.PageManager.CountOnly | Kernel/Source/Memory/Physmemmgmt.c:211-221 | a request of the base only that is not dense counts what the scan finds and stores only its first page |
| Physmem.BaseOnlyExactly | Kernel/Source/Memory/Physmemmgmt.c:274-291 | the slots it is then claimed from hold the pages found, whatever they held before, if and only if at most one was found |
| Physmem.PageManager.AcquirePage | Kernel/Source/Memory/Physmemmgmt.c:300-305 | fails if and only if no page is free or the start lies past the last page; otherwise claims the next free page in cyclic order and nothing else |
| Physmem.PageManager.RelinquishPage | Kernel/Source/Memory/Physmemmgmt.c:307-364 | accepts exactly a taken page that is not reserved, or a padding bit behind the last page; the state stays valid if and only if it was not a padding bit |
| Physmem.PageManager.ReservePage | Kernel/Source/Memory/Physmemmgmt.c:469-495 | reserves exactly taken pages, and counts them as unusable |
| Physmem.PageManager.SetAcquisitionHint | Kernel/Source/Memory/Physmemmgmt.c:497-505 | accepts exactly ids of existing pages |
| Physmem.PageManager.MarkGroups | Kernel/Source/Memory/Physmemmgmt.c:274-288 | claiming by runs of consecutive ids takes exactly the pages listed |
| Physmem.PageManager.Init | Kernel/Source/Memory/Physmemmgmt.c:26-109 | both bitmaps show the same set, everything except the pages of the canonical map and without the kernel and the first MiB; nothing is counted as acquired; the hint left is that of the canonical map |
| Physmem.ClosedPagesMeaning | Kernel/Source/Memory/Physmemmgmt.c:69-97 | which pages are free after initialization, region by region, the ranges that do not fit being skipped whole |
| Physmem.Discover | Kernel/Source/Memory/Physmemmgmt.c:33-53 | the highest page and the number of unusable pages of a firmware map |
| PageRuns.Serve | Kernel/Source/Memory/Physmemmgmt.c:165-505 | over every run of acquisitions, dense ones, releases, reservations and hints: each answer is the one the state at that point demands, the states follow from each other by the answers, and the counter is the number of pages out by the answers |
| PageRuns.OutExactly | Kernel/Source/Memory/Physmemmgmt.c:165-364 | at each point of a run the pages handed out and not given back are the pages taken since initialization, each once; reserved pages stay taken |
| PageRuns.NotHandedOutTwice | Kernel/Source/Memory/Physmemmgmt.c:165-364 | no page is handed out while it is out, nor twice by one answer, nor if it was unavailable from the start |
| Physmem.AddressExactly | Kernel/Source/Memory/Physmemmgmt.c:445-452 | the addresses of all pages are right if and only if there are at most 2^20 pages, and no two pages share one if and only if the same holds |
| PageRuns.DenseMissesStraddlingRun | Kernel/Source/Memory/Physmemmgmt.c:226-237 | a free run that crosses the start of a dense scan is not found |
| PageRuns.SparseTwice | Kernel/Source/Memory/Physmemmgmt.c:194-237 | a sparse request for four pages, two of which are free, lists both twice |
| PageRuns.PaddingReleased | Kernel/Source/Memory/Physmemmgmt.c:307-364 | right after initialization the release of an id behind the last page is accepted, and the counter is below zero |
| PageRuns.OpenAfterInit | Kernel/Source/Memory/Physmemmgmt.c:69-97 | on a machine of 100 pages the first page stays free, and so does the kernel if its area ends behind the last page |
| PageRuns.HintPastEnd | Kernel/Source/Memory/Physmemmgmt.c:184-192 | in every state with the last page and some other page free, claiming the last page, and nothing else, leaves the manager dry without a hint |
| PageRuns.HintRunsOut | Kernel/Source/Memory/Physmemmgmt.c:290-291 | such a state is reached from a firmware map of one region by one request |
| Pte.DecodeEncode | Kernel/Source/Memory/PTE.c:17-38 | an entry encoded for an aligned base below 2^52 fits its word and decodes to that base, its protection, its caching selection and its kind, for every kind of entry |
| Pte.MisalignedRefused | Kernel/Source/Memory/PTE.c:17-26 | the failure word comes out if and only if the base is not a multiple of the page size of the kind, or, for the invalid kind, is not zero |
| Pte.FailureWord | Kernel/Include/Memory/PTE.h:18-18 | the failure word has all its 64 bits set |
| Pte.ParentAbove | Kernel/Source/Memory/PTE.c:160-177 | the parent of a kind is the pointer one level up, and only the root's kind and the invalid one have none |
| Pte.SelectsType | Kernel/Source/CPU/PAT.c:19-58 | the selection bits for a memory type select that type in the page attribute table as the kernel loads it |
| Pte.WordRoundTrip | Kernel/Source/Memory/PTE.c:220-261 | the entry is recovered from its 64-bit word |
| Pte.WordBits | Kernel/Source/Memory/PTE.c:220-261 | the fields stand at the bits of the word at which the processor reads them |
| PageTable.WriteLeafWalk | Kernel/Source/Memory/Virtmemmgmt.c:374-374 | writing a slot that holds no table changes exactly the walks through it |
| PageTable.LinkWalk | Kernel/Source/Memory/PTE.c:50-73 | linking a fresh zeroed table changes no walk but the one that ends at the new table |
| PageTable.LinkTree | Kernel/Source/Memory/PTE.c:50-73 | linking a fresh frame keeps the tables a tree |
| PageTable.AboveSlot | Kernel/Source/Memory/PTE.c:112-143 | the indices of two addresses agree down to a level if and only if one lies below the other's slot |
| PageTable.LinkSamePaths | Kernel/Source/Memory/PTE.c:50-73 | linking a table as the kernel does leaves what the tables above any page allow as it was |
| Vmm.Tables.LinkPage | Kernel/Source/Memory/PTE.c:50-73 | on any machine: a new table is linked and cleared at the address computed for a page that was free, wherever that is |
| Vmm.Tables.GetOrAcquire | Kernel/Source/Memory/PTE.c:50-73 | with at most 2^20 pages: returns the table of the slot; a new one is a page that was free and allows what the tables above it and its flags do, no walk to a page changes, every page taken is a table, and it fails only when no page can be acquired |
| WrappedPages.HighPageAcquired | Kernel/Source/Memory/Physmemmgmt.c:445-452 | on a machine whose only usable page lies at 4 GiB, the page acquired gets the address of the taken page 0 |
| WrappedPages.RootCleared | Kernel/Source/Memory/PTE.c:50-73 | there, acquiring a table clears a root at frame 0, and nothing translates any more |
| Vmm.Tables.TableFor | Kernel/Source/Memory/Virtmemmgmt.c:343-372 | the descent of three levels reaches the table that holds the entry of the address, adding tables from free pages only, losing none, and none that restricts the kernel |
| Vmm.Tables.MapStatic | Kernel/Source/Memory/Virtmemmgmt.c:323-378 | for physical ranges below 2^52: exactly the first 4 KiB of every page-size step mapped so far translate anew, to their place behind the physical start, with the rights and the memory type the region asks for as far as the tables above allow; all other walks are as before; every page taken is a table; it stops early only for a misaligned start, a region that is not static, or want of pages |
| DemandPaging.StaticTranslation | Kernel/Source/Memory/Virtmemmgmt.c:323-378 | in a small-page region a finished static mapping translates every byte to its place; it can be written if and only if the region and the tables that were there allow it, is no-execute if and only if one of them says so, and is write-back, uncacheable or write-combining by the protocol |
| DemandPaging.StaticPromise | Kernel/Source/Memory/Virtmemmgmt.c:323-378 | a finished static mapping translates every byte of a region if and only if the region has small pages |
| DemandPaging.LargeRegion | Kernel/Source/Memory/Virtmemmgmt.c:337-376 | of a region of 2 MiB pages exactly the first 4 KiB of every 2 MiB translate |
| DemandPaging.UserReaches | Kernel/Source/Memory/Virtmemmgmt.c:343-372 | user mode reaches a page of another address space if and only if all its tables were there before and let it through |
| Vmm.Tables.HandlePageFault | Kernel/Source/Intmgmt/PageFault.c:34-126 | a handled fault maps one page that was free, zeroed, with the rights and the memory type of a region that holds the address as far as the tables above allow, never for user mode, and changes no other walk; a meltdown has one of the causes the code checks, or pages ran out; either way every page taken is that page or a table, and after a meltdown a table |
| DemandPaging.ServedIsolated | Kernel/Source/Intmgmt/PageFault.c:53-118 | a served fault keeps demand-paged pages apart from each other and from the tables |
| DemandPaging.Touch | Kernel/Source/Intmgmt/PageFault.c:34-126 | an access makes its address translate, and takes no page from another address |
| DemandPaging.Access | Kernel/Source/Intmgmt/PageFault.c:34-126 | over every sequence of accesses: all of them translate at the end, no two pages share a frame, no frame is a table, pages once mapped stay, those served are as their regions ask for them, and every page taken is a demand-paged one or a table; it stops only for an address of the sequence that did not translate and that no region serves, for an uninitialized manager, or for want of pages |
| DemandPaging.StoreSucceeds | Kernel/Source/Intmgmt/PageFault.c:80-118 | so a kernel store to a page that was not there succeeds in the end, and user mode is kept out, if its regions are writable and no table that was there restricts it |
| Regions.AddressSpace.Locate | Kernel/Source/Memory/Virtmemmgmt.c:89-108 | finds a region of the address, or none exactly when none holds it |
| Regions.AddressSpace.RangeOverlapsAny | Kernel/Source/Memory/Virtmemmgmt.c:127-153 | on an ordered list, true if and only if some region overlaps the range |
| Regions.AddressSpace.FindInsertPoint | Kernel/Source/Memory/Virtmemmgmt.c:155-200 | on an ordered list, succeeds if and only if the range does not overlap the last region; the place is a gap when no region overlaps |
| Regions.AddressSpace.AcquireRegion | Kernel/Source/Memory/Virtmemmgmt.c:243-314 | exactly when a region is created; the list grows by it, linked both ways; it stays ordered if and only if the range overlapped nothing |
| Regions.AddressSpace.Kernel | Kernel/Source/Memory/Virtmemmgmt.c:461-502 | the two regions of the kernel, linked in the order of their starts; the end of the frame buffer follows from the start of the binary, and when the list is nevertheless in order |
| Regions.InnerOverlap | Kernel/Source/Memory/Virtmemmgmt.c:155-314 | in that address space a region that overlaps the first one is accepted, and the list is out of order |
| SortDomain.SafeIsLowest | Kernel/Source/Init/KrInitMemmap.c:34-50 | if the quicksort stays in the array, the lowest base occurs once, before an occurrence of the second lowest |
| SortDomain.LowestIsSafe | Kernel/Source/Init/KrInitMemmap.c:34-50 | and the converse |
| SortDomain.SafeExactly | Kernel/Source/Init/KrInitMemmap.c:34-50 | the quicksort stays in the array if and only if the map has at most one entry, or its lowest base occurs once and before an occurrence of the second lowest |
| SortDomain.LowestFirst | Kernel/Source/Init/KrInitMemmap.c:34-50 | a map that starts with its one lowest descriptor is sorted safely |
| SortDomain.DescendingUnsafe | Kernel/Source/Init/KrInitMemmap.c:34-50 | a map of two entries in descending order is not sorted safely |
| MemmapSort.Partition | Kernel/Source/Init/KrInitMemmap.c:15-32 | permutes the range around its last element; the left part is, in order, what was smaller |
| MemmapSort.Quicksort | Kernel/Source/Init/KrInitMemmap.c:34-50 | succeeds exactly on the inputs of SafeExactly; then the range is sorted, it is a permutation in any case, and calls nest to a depth logarithmic in its length |
| MemmapSort.SortMap | Kernel/Source/Init/KrInitMemmap.c:62-62 | the whole map: success if and only if it has one entry or the lowest base condition holds; then sorted, always a permutation |
| Canonical.Coalesce | Kernel/Source/Init/KrInitMemmap.c:70-111 | of a sorted map with disjoint descriptors: the list of maximal usable regions, covering exactly the usable bytes |
| Canonical.CanonicalUnique | Kernel/Source/Init/KrInitMemmap.c:70-111 | there is only one such list for a given set of usable bytes |
| MemmapInit.InitMemmap | Kernel/Source/Init/KrInitMemmap.c:52-113 | from any firmware map with disjoint descriptors that sorts safely, the canonical map covers exactly the usable bytes |
| DirectMap.Builder.AcquireStruct | Kernel/Source/Memory/PrivateVMM/DmapInit.h:223-255 | a zeroed frame that is no table, from the arena while it lasts and then from the page manager; its address is what the counters say |
| DirectMap.Builder.GetOrAcquireStruct | Kernel/Source/Memory/PrivateVMM/DmapInit.h:193-221 | the table of the slot, at most one new table, no translation changed; every page acquired so far is a table and reserved |
| DirectMap.ChosenFits | Kernel/Source/Memory/PrivateVMM/DmapInit.h:110-126 | the leaf size chosen is aligned, fits what remains, and covers pages not mapped yet |
| DirectMap.Greedy | Kernel/Source/Memory/PrivateVMM/DmapInit.h:108-173 | taking the largest leaf at every step maps each page of the region by the largest leaf that fits into the region |
| DirectMap.Builder.MapStep | Kernel/Source/Memory/PrivateVMM/DmapInit.h:110-173 | one round maps exactly its block in addition, writable, for the kernel only and by one leaf of the size planned, keeps every other walk, and counts it |
| DirectMap.Builder.MapRegion | Kernel/Source/Memory/PrivateVMM/DmapInit.h:103-174 | one region maps exactly its pages in addition |
| DirectMap.Builder.MapList | Kernel/Source/Memory/PrivateVMM/DmapInit.h:98-187 | the loop maps exactly the regions of its list |
| DirectMap.LeafStep | Kernel/Source/Memory/PrivateVMM/DmapInit.h:129-173 | writing a 1 GiB, 2 MiB or 4 KiB leaf over an unmapped block keeps the window exact and no table empty |
| DirectWindow.WindowExactly | Kernel/Include/Memory/Vmmdef/Indices.h:7-8 | the window is the higher half of the address space up to the slot of the kernel |
| DirectWindow.ExactTranslation | Kernel/Source/Memory/PrivateVMM/DmapInit.h:45-191 | in an exact window every mapped byte translates to its own physical address, through whichever leaf size, writable, for the kernel only, write-back and not executable, and every other byte to nothing |
| DirectMapInit.InitDirectMap | Kernel/Source/Memory/PrivateVMM/DmapInit.h:45-191 | the finished direct map: bytes of canonical and ACPI NVS regions translate to themselves, writable, for the kernel only, write-back and no-execute, each by the largest leaf that fits into its region; the rest of the window translates to nothing, nothing outside changed, the three counters add up to the pages of the regions, and every page acquired is a table and reserved; it fails only without an arena or without free pages |
| Boot.FirmwareTargets | Kernel/Source/Memory/PrivateVMM/DmapInit.h:98-187 | the regions taken from a firmware map with disjoint aligned descriptors never share a page, as the direct map needs |
| Boot.MapFirmware | Kernel/Source/Memory/PrivateVMM/DmapInit.h:45-191 | from the firmware map: a byte of the window translates, to itself and for the kernel's data, if and only if the firmware calls it usable or ACPI NVS |
| Boot.InitiallyFreeMeaning | Kernel/Source/Memory/Physmemmgmt.c:26-109 | a page is free at the start if and only if the firmware calls it usable, and it is neither the kernel's nor in the first MiB |
| Startup.StartMemory | Kernel/Source/Init/KrKernelStart.c:78-80 | from the raw firmware map, in any order, through sorting, the canonical map and the page manager to the direct map: exactly the bytes of the UEFI types 1 to 4, 7, 9 and 10 translate, each to itself and for the kernel's data; a page is free then if and only if its type is 1 to 4, 7 or 9 and it is neither the kernel's, nor in the first MiB of a machine that has one, nor a table, and no page that is taken can be released; it fails only where the sort leaves the array, without an arena, or for want of pages |
| Heap.PayloadIs | Kernel/Source/Memory/Krnlheap.c:188-217 | the payload is aligned, leaves room for the back word, and loses at most one byte more than the alignment |
| Heap.NeverWraps | Kernel/Source/Memory/Krnlheap.c:194-205 | the subtraction of the fit test never wraps, at any place and size, if and only if the alignment is at most 16 |
| Heap.RequestRounds | Kernel/Source/KRTL/Krnlmem.c:32-35 | rounding a request up keeps it at least as large if and only if the sum does not wrap |
| Heap.OversizedGrant | Kernel/Source/Memory/Krnlheap.c:70-102 | what a request that wraps is granted |
| Heap.GrantsApart | Kernel/Source/Memory/Krnlheap.c:70-102 | a grant and its back word meet no byte of another block |
| Heap.KernelHeap.Init | Kernel/Source/Memory/Krnlheap.c:36-63 | one free block over the whole region, 256 GiB from the start of the kernel's slot, whatever its bytes were |
| Heap.PassesExactly | Kernel/Source/Memory/Krnlheap.c:194-205 | a free block passes the fit test if and only if the request fits into it or the subtraction wraps |
| Heap.KernelHeap.Locate | Kernel/Source/Memory/Krnlheap.c:188-217 | the first block in the list that passes the test, wrapping included, and its payload address, or none exactly when none does |
| Heap.KernelHeap.TrySplit | Kernel/Source/Memory/Krnlheap.c:219-261 | the list after the cut, or unchanged when the rest cannot stand alone; still linked; only header bytes are written |
| Heap.KernelHeap.Acquire | Kernel/Source/Memory/Krnlheap.c:70-102 | null if and only if the request is senseless or nothing fits; otherwise the first fit is cut and granted, with the distance to its header stored as far as 16 bits hold it; the list stays linked, coalesced and tiling the heap, and no byte of an earlier grant or its back word changes |
| Heap.BackWordExactly | Kernel/Source/Memory/Krnlheap.c:91-97 | the back word leads back to the header if and only if the distance fits 16 bits |
| Heap.NamesHeader | Kernel/Source/Memory/Krnlheap.c:91-97 | it does so at every place if and only if the alignment is at most 2^15 |
| HeapCases.FarGrant | Kernel/Source/Memory/Krnlheap.c:91-97 | on a fresh heap a request of alignment 65536 is granted with a back word of zero |
| Heap.KernelHeap.Relinquish | Kernel/Source/Memory/Krnlheap.c:114-155 | a held pointer near enough to its header leads back to it; the block is freed and merged with free neighbours; the bytes of all other grants are kept; the null write happens exactly for the last block behind a free one |
| Heap.KernelHeap.Write | Kernel/Source/Memory/Krnlheap.c:70-102 | a caller that writes into its grant damages neither headers nor back words nor other grants |
| HeapBlocks.ReleaseRestores | Kernel/Source/Memory/Krnlheap.c:114-155 | releasing right after acquiring restores the list exactly |
| HeapBlocks.ListComplete | Kernel/Source/Memory/Krnlheap.c:208-217 | following the links from the root visits every block |
| HeapBlocks.ListTiles | Kernel/Source/Memory/Krnlheap.c:219-261 | in address order, without a gap, to the end of the heap, and each block points back to the one before |
| HeapBlocks.GrantedTail | Kernel/Source/Memory/Krnlheap.c:219-261 | a cut moves the last block up by what it takes at most, and leaves it free |
| HeapBlocks.FreedTail | Kernel/Source/Memory/Krnlheap.c:114-155 | while the last block is free, a release keeps it free and is never one of the last block |
| HeapRuns.AcquireThenRelease | Kernel/Source/Memory/Krnlheap.c:70-155 | and restores list and grants from every placed request |
| HeapRuns.AllReturned | Kernel/Source/Memory/Krnlheap.c:114-155 | with nothing granted, the heap is one free block |
| HeapRuns.Perform | Kernel/Source/Memory/Krnlheap.c:70-155 | one step of a client: take, give back or write; a take is refused exactly when it is senseless or nothing fits, and otherwise granted in the first block that can hold it; a release frees its block; exactly when the step crashes |
| HeapRuns.Run | Kernel/Source/Memory/Krnlheap.c:70-155 | over every run: the heap goes through the states that the steps lead to; what the client owns follows from its steps and the pointers it got; the pieces and their back words never meet, each piece still holds every byte the client wrote last, and when nothing is owned the heap is whole again; it ends early exactly at the release of a last block behind a free one |
| HeapRuns.WithinRoom | Kernel/Source/Memory/Krnlheap.c:70-155 | in every run, as long as all takes together do not exceed the room there is, no release crashes and no sensible take is refused, whatever is given back in between |
| HeapRuns.GivenAligned | Kernel/Source/Memory/Krnlheap.c:70-102 | every pointer given is a multiple of the alignment asked for |
| HeapCases.NullWriteAhead | Kernel/Source/Memory/Krnlheap.c:135-142 | two acquisitions and a release lead to a heap whose last block is taken behind a free one, in the hands of a caller |
| HeapCases.NullWriteHappens | Kernel/Source/Memory/Krnlheap.c:135-142 | and releasing it is the null write |
| HeapCases.WrapReachable | Kernel/Source/Memory/Krnlheap.c:194-205 | four acquisitions and a release reach a heap in which a request of alignment 32 wraps |
| TimerInterrupt.Queue.FindInsertPoint | Kernel/Source/CPU/PerCpu.c:184-198 | the last node with fewer ticks, or none |
| TimerQueue.PointUnique | Kernel/Source/CPU/PerCpu.c:184-198 | that place is determined by the counts alone |
| TimerInterrupt.Queue.Splice | Kernel/Source/CPU/PerCpu.c:113-122 | the node joins the list at its place, and the list stays a list without repetition |
| TimerQueue.InsertedSorted | Kernel/Source/CPU/PerCpu.c:109-123 | insertion keeps the queue sorted |
| TimerInterrupt.TimerInfo.SetTimer | Kernel/Source/CPU/PerCpu.c:82-133 | the timer joins the main queue, or in a callback the deferred one, with the ticks given or the microseconds times the calibration value modulo 2^64, and nothing else changes in either; ticks already counted are lost |
| TimerBooks.AccountsDebit | Kernel/Source/Intmgmt/Timer.c:45-49 | debiting every pending count by the countdown keeps what each timer is due |
| TimerBooks.RequestsRecorded | Kernel/Source/Intmgmt/Timer.c:20-39 | every request of every callback that runs in an interrupt is recorded, due its ticks from then, and does not fire in it |
| TimerBooks.AccountsInterrupted | Kernel/Source/Intmgmt/Timer.c:10-69 | the books after an interrupt account for the queue after it; nothing recorded before is changed |
| TimerInterrupt.TimerInfo.FireRoot | Kernel/Source/Intmgmt/Timer.c:20-39 | the root leaves the queue, and if it has a callback exactly its requests have joined the deferred queue, in order |
| TimerInterrupt.TimerInfo.Interrupt | Kernel/Source/Intmgmt/Timer.c:10-69 | the queue afterwards: what was not due, debited, and every request of the callbacks of what was; the counter is armed again |
| TimerBooks.FiredExactly | Kernel/Source/Intmgmt/Timer.c:10-69 | with no pending timer overdue, a timer has fired if and only if it is due by now, and then in the interrupt that completed its ticks |
| TimerBooks.StalledExactly | Kernel/Source/Intmgmt/Timer.c:63-66 | the counter stands still while timers wait if and only if one of them is overdue |
| TimerRuns.Perform | Kernel/Source/CPU/PerCpu.c:82-133 | one step takes the timer from a world to the one that Stepped determines |
| TimerRuns.SoundAt | Kernel/Source/Intmgmt/Timer.c:10-69 | in every world of a run the books account for the sorted queue, and the time is clock, present countdown and uncounted ticks together |
| TimerRuns.SetRecords | Kernel/Source/CPU/PerCpu.c:82-133 | a call of SetTimer sets a new timer for exactly the ticks asked for, and gives up the countdown begun |
| TimerRuns.FireRecords | Kernel/Source/Intmgmt/Timer.c:20-61 | so does every call in a callback that runs |
| TimerRuns.Lateness | Kernel/Source/CPU/PerCpu.c:82-133 | a timer fires its ticks after it was set, later by exactly the ticks that were not counted in between: on time if and only if there were none |
| TimerRuns.MicrosecondTimer | Kernel/Source/CPU/PerCpu.c:86-91 | over every run a timer set for microseconds fires their product with the calibration value after it was set, later by what was not counted in between, and early if and only if the product passes 64 bits |
| TimerRuns.TickTimer | Kernel/Source/CPU/PerCpu.c:92-96 | and one set for ticks fires them after it was set, later by what was not counted |
| TimerRuns.OverdueExactly | Kernel/Source/Intmgmt/Timer.c:63-66 | at any point of a run some timer is overdue if and only if one has been set for zero ticks, by a call or in a callback that ran |
| TimerRuns.Accounting | Kernel/Source/Intmgmt/Timer.c:10-69 | at any point of a run the counter stands still while timers wait if and only if one has been set for zero ticks; if none has, each timer ever set has fired if and only if it is due, in the interrupt it was due in |
| TimerRuns.NonzeroNeverStalls | Kernel/Source/Intmgmt/Timer.c:63-66 | steps whose requests are all of at least one tick never stall the timer |
| TimerRuns.Run | Kernel/Source/Intmgmt/Timer.c:10-69 | over every run: the timer goes through the worlds that the steps determine, one after the other, and ends in the last; its counter stands still while timers wait if and only if one of the steps set a timer for zero ticks |
| TimerRuns.Drain | Kernel/Source/Intmgmt/Timer.c:10-69 | interrupts alone empty the queue, within a bound computed from it |
| Crc.TableByte | Tools/Imgtool/Source/Imgtool.c:70-72 | one table look-up does what eight single-bit steps do |
| Crc.InitTable | Tools/Imgtool/Source/Imgtool.c:43-61 | the table holds the eight-step value of every byte |
| Crc.Checksum | Tools/Imgtool/Source/Imgtool.c:63-75 | the checksum of every buffer is CRC-32, defined bit by bit |
| Crc.CheckValue | Tools/Imgtool/Source/Imgtool.c:43-75 | of the nine bytes "123456789" the checksum is 0xCBF43926, as it is for CRC-32 |

## Findings

Where the code does not do what its names, comments or callers suggest, the model follows the code,
and a theorem says exactly when.

- **The memory map sort leaves the array.** When a partition ends with the pivot at index 0, `pi - 1`
  wraps and the next loop runs over memory below the map. SortDomain.SafeExactly gives the exact
  inputs: it happens unless the lowest base occurs once and before an occurrence of the second lowest
  (or there is one entry). An empty map fails as well. MemmapSort.SortMap carries the condition;
  SortDomain.DescendingUnsafe is the smallest map that fails.
- **Page addresses wrap at 4 GiB.** The product of page id and page size is one of 32 bits. Addresses
  are right and distinct if and only if there are at most 2^20 pages (Physmem.AddressExactly). Beyond,
  tables and pages are placed on frames that belong to others: WrappedPages.HighPageAcquired and
  WrappedPages.RootCleared show a table acquired over the root.
- **The heap writes through a null pointer.** Releasing the last block when the block before it is
  free writes `pMyNext->pPrev` with `pMyNext` null. Heap.KernelHeap.Relinquish says exactly when;
  HeapCases.NullWriteAhead reaches the state. It takes a heap that has been used to its end:
  HeapRuns.WithinRoom excludes it for runs that take less than the room there is.
- **The check of the back word refuses nothing.** The largest distance is computed as the complement of
  a promoted 16-bit zero, so it is 2^64 - 1, and a longer distance is cut to 16 bits. The back word
  leads to its header if and only if the distance fits (Heap.BackWordExactly), and does so everywhere
  if and only if the alignment is at most 2^15 (Heap.NamesHeader); HeapCases.FarGrant shows one that
  does not.
- **The heap's fit test wraps.** The padding is subtracted from the block size before the comparison.
  Heap.NeverWraps: safe everywhere if and only if the alignment is at most 16. A block too small for
  its padding passes (Heap.PassesExactly); HeapCases.WrapReachable builds a heap in which alignment 32
  wraps.
- **Oversized requests are granted.** Rounding a request near 2^64 wraps to zero (Heap.RequestRounds).
  Heap.OversizedGrant: the first free block is cut so that the pointer returned is the address of the
  next header, and the list is broken.
- **An acquisition fails although pages are free.** Claiming the last page leaves the hint one past it,
  and the next acquisition without a hint refuses that start: Physmem.PageManager.AcquirePage,
  PageRuns.HintPastEnd, PageRuns.HintRunsOut.
- **A request of the base only claims pages it did not find.** Without the dense mode only the first
  slot is written, and all of them are read: Physmem.BaseOnlyExactly.
- **Releasing a padding bit is accepted.** An id behind the last page but inside the last bitmap byte
  is released, and the counter is wrong from then on: Physmem.PageManager.RelinquishPage,
  PageRuns.PaddingReleased.
- **A sparse request can list a page twice.** The second pass covers the whole byte of the start:
  PageSearch.SparseDistinct has the exact condition, PageRuns.SparseTwice an example.
- **A dense request misses a run that crosses its start.** PageRuns.DenseMissesStraddlingRun.
- **Initialization skips a range it cannot close.** The kernel or the first MiB stays open when the
  range passes the last page: Physmem.ClosedPagesMeaning, PageRuns.OpenAfterInit.
- **Static mapping ignores large pages.** The test uses the constant 4096 instead of the page size
  flag, so a 2 MiB region gets one 4 KiB page per 2 MiB: DemandPaging.StaticPromise,
  DemandPaging.LargeRegion.
- **User mode cannot use what is mapped for it.** Tables are linked without the user bit, so a page of
  another address space is reachable from user mode only where all its tables were there before:
  DemandPaging.UserReaches.
- **The direct map is no-execute on every processor.** The bit is dropped only once the manager is
  initialized, which is after the direct map is built; without the feature the bit is reserved
  (section 4.5 of the Intel SDM, Volume 3A). The condition `!initialized || noExecuteSupport` in
  DirectMapInit.InitDirectMap says so.
- **Long times wrap.** Microseconds times the calibration value is a product of 64 bits; past them the
  timer fires early, and only then: TimerRuns.MicrosecondTimer.
- **A region may overlap an inner one.** The insertion point search looks at the last region only:
  Regions.AddressSpace.FindInsertPoint and AcquireRegion say exactly when that is accepted, and that
  the list is then out of order; Regions.InnerOverlap does it in the kernel's own address space.
- **The frame buffer ends where the binary says.** Its size is added to the start of the kernel's
  binary: Regions.AddressSpace.Kernel.
- **A timer for zero ticks stops the timer for good.** A count of zero does not start the counter, so
  no interrupt comes to fire the timer: TimerBooks.StalledExactly, TimerRuns.Accounting, TimerRuns.Run.
- **`SetTimer` loses ticks.** It stops and restarts the counter without debiting what had elapsed;
  all pending timers fire that much later, and no more than that: TimerRuns.Lateness.

## Left out

- PmAcquirePages: filling the unused rest of the output array, and the page metadata of the later
  initialization stage.
- Spin locks, and interrupts that arrive in the middle of an operation.
- Physmem.PageManager.Init: exhaustion of the bootstrap arena, and a total of more than 2^32 - 8 pages, for
  which the size of the bitmaps wraps.
- Physmem.PageManager.AcquirePages: a request of the base only, not dense, for more than one page; what it
  claims depends on the caller's memory, as Physmem.BaseOnlyExactly says.
- Vmm.Tables.GetOrAcquire: more than 2^20 pages, here and in all that is built on it (static mapping, page
  faults, the direct map); Physmem.AddressExactly is the reason, Vmm.Tables.LinkPage what happens then.
- Physmem.PageManager.RelinquishPage: ids behind the bitmap.
- MemmapSort.Partition: descriptor counts of 2^31 and more, where its signed counter overflows.
- Canonical.Coalesce: a firmware page size other than 4096; the bound is the page size the callers assume.
- Encoding failures are modelled, the development counter for them is not; of the reserved bits only
  those of the root entry are. Memory types are those of the page attribute table, without the range
  registers; rights are those of the entries, without SMEP, SMAP and protection keys.
- KrMakeVirtual and the offset field of KrUnmakeVirtual.
- DirectMapInit.InitDirectMap: tables are written at their physical frames, so that reaching them through the half
  built direct map is not modelled; the debug switches are off.
- Vmm.Tables.HandlePageFault: the text of the report; Meltdown stands for the halt.
- Vmm.Tables.MapStatic: a region without address space, and physical ranges that pass 2^52, the end of the
  addresses an entry can hold; caching protocol 3 gives the encoding failure entry, as in the code.
- Regions.AddressSpace.AcquireRegion: where the record comes from is a flag; region tags.
- Startup.StartMemory: the descriptor tables, the bootstrap arena's own set-up and the test page in between.
- Heap.KernelHeap.Acquire: excludes sizes whose rounding wraps and states of the heap in which the fit test wraps; the
  findings above say what happens there.
- Heap.KernelHeap.Relinquish: pointers inside the heap that were never granted or lie more than 65535 bytes
  behind their header, for which the code reads whatever bytes there are; the state after the null write.
- HeapRuns.Run: alignments above 16, with which a run can reach a heap in which the fit test wraps.
- HeapReAcquire is unfinished in the code; the heap's own region is taken as acquired and mapped.
- TimerInterrupt.TimerInfo.SetTimer: the branch in which no event can be allocated, and `Sleep`.
- TimerRuns.Stepped: time that passes while no countdown runs counts as uncounted; time that would pass the end
  of a countdown is no step, the end of a countdown being one of its own.
- Interrupt controllers, processors, video, device trees, the boot loaders and the rest of the image
  tool.
