# Ferrum OS in Dafny

A model of the parts of the Ferrum OS kernel that keep strong invariants, with proofs in Dafny 4.11.
`dafny verify dfyconfig.toml` checks the whole project.

**Physical memory.** `BuddyBlocks` describes the buddy allocator as a value (which aligned blocks are free) and proves its
canonical form; `BuddyAllocator` is the allocator itself, with free lists threaded through the free pages of `PhysMem`;
`BuddyRuns` proves conservation over whole runs; `Regions` is the boot-time subtraction that seeds it, with the exact
condition under which the seeded blocks are coalesced; `SlabHeap` is the kernel heap on top.

**Virtual memory.** `EntryWord` is the 64-bit page-table word and its parts; `PageTable` and `Paging` are the 4-level radix
tree in physical frames and its operations, refining a flat map from pages to frames and permissions; what the processor
grants over the levels together is what the flat map says. `Spans` says which pages of a range get 2 MB entries and which
tables that takes. `PageMaps` detaches what a tree stands for from
memory. `VmaList` is the sorted, merged list of areas; `UserMemory` the frames behind area pages; `AddressSpace` the class
with fault handling, hole punching and teardown; `Sweep` the page loop of `munmap`; `TableTeardown` the loops that free
tables; `UpperHalf` the root of a new address space, and `UpperPages` what mapping a page in either half does to others;
`Fork` the memory part of fork, and `ForkCost` the free pages it needs. `Isolation` puts many address spaces side by side
and proves, over all runs, that a step of one is never seen by another. `Limits` holds concrete runs, from an empty
machine, in which the kernel loses a frame or reaches memory that is not the caller's.

**Processes.** `Processes` states the invariants of the process table (pid forest, no lost wakeups), `Scheduling` the
scheduler with fork, wait4 and exit as atomic steps up to their call of `schedule`, and what holds over all runs of them.
`Pipes` is the descriptor tables and the end counters of pipes; `ProcessFiles` joins the two, so that end of file means
that no live process can write, and follows the bytes of every pipe through whole runs of system calls.

**Program image.** `ElfHeader` reads the headers of an executable, `LoadPlan` says which pages its segments cover and when
they can be loaded, `LoadCost` counts the free pages that takes, and `Elf` loads them; `StackImage` says how a program reads its initial stack, and `InitStack` builds
it in user memory through the page table.

How the model reads the source:

- Physical memory is a map from frame number to contents: a table of 512 unpacked entries, 4096 bytes, the link word of a
  free block, or nothing known. Addresses are unbounded naturals; where a width matters (the 2^64 checks of `map_range`
  and of the ELF headers) it is written out. Elsewhere address arithmetic is taken not to overflow.
- Ghost fields (`lists`, `blocks`, `free`, `walks`, `tabs`, `image`, `slabs`, `owner`, `live`, `log`, `pipes`) mirror the state for the proofs.
  `births`, `id`, `parentId` and `target` in the process table are bookkeeping of the model: they number processes, and
  keep the argument of the `wait4` a process sleeps in.
- Steps are atomic because the kernel runs them with interrupts off on one CPU. A blocked `wait4` or pipe read is one
  pass of its loop; the caller's next step is another pass.
- `requires` clauses beyond the source's own checks are the kernel's working assumptions: areas are not empty, have
  page-aligned bounds and lie in the user half; ranges given to `map_range` are page-aligned and at most 2^48 bytes long;
  new areas and loaded segments keep off the kernel image, which is mapped in the lower half; `Tidy` holds (no user page
  outside the areas and the image is mapped), which every operation keeps, `munmap` under the condition below;
  `Unmap` is not aimed into a 2 MB page, because the source does not test for one; blocks given to `Free` are outstanding;
  `Dealloc` gets the layout of its `Alloc`.
- The range of `munmap` is not restricted: it may reach over the kernel image, into the upper half and around the end of
  the address space. Of the pages it meets, `Freeable` asks only what `Unmap` and `Free` ask: none lies in a 2 MB page,
  and a frame mapped outside the areas is outstanding, no table, and mapped once. Pages of areas satisfy this by
  themselves (`Sweep.OwnFreeable`).
- `Limits` shows what happens without the conditions on addresses.
- Panics are outcomes: `ForkMemory` returns `Panicked` where the source calls `expect`, and `AddRegionExcluding` returns
  false where a ninth interval would run past the array of eight.
- Conservation of frames reads: free frames together with those an address space owns are the same before and after.

Where the code does not do what a reader might expect, the code is followed and the exact condition is proved:

- A page fault whose mapping fails loses the frame it took. That happens exactly when between one page and as many as
  there are tables missing are free (`AddressSpace.AddressSpace.HandlePageFault`, `Limits.FaultLosesFrame`); the same in
  the ELF loader (`Elf.LoadPage`, `LoadPlan.StopsOnce`).
- `munmap` removes the whole area that starts at the address, whatever the size. Pages stay mapped under no area exactly
  when a touched page of that area is not in the range (`Sweep.MunmapTidies`, `AddressSpace.MunmapExact`,
  `Limits.MunmapLosesFrame`).
- `munmap` also frees whatever else is mapped in its range. It is confined to the address space exactly when it meets no
  page mapped outside the areas, that is, of the kernel image or of the upper half (`Sweep.MunmapConfined`,
  `Limits.MunmapReachesImage`). Free and owned frames together stay the same exactly when that and the condition before
  hold (`Sweep.MunmapConserves`).
- A fork first takes its kernel stack. The stack is lost exactly when it was all that was free; the fork panics exactly
  when more than the stack but less than the stack and what the copy needs is free (`Fork.ForkProcess`).
- `add_region` does not coalesce with earlier regions. The blocks are coalesced afterwards exactly when they were before
  and no aligned block takes free pages from both sides (`BuddyAllocator.Buddy.AddRegion`, `Regions.Seed`,
  `BuddyAllocator.AdjacentRegions`, `Regions.EmptyExclusionCuts`); the canonical-form results assume coalesced blocks.
- A page-fault kill and `tgkill` mark a process dead without waking its parent. The invariants survive exactly when nobody
  was waiting for the victim (`Processes.KillLosesWakeup`, `Scheduling.KillStrandsParent`). The results over whole runs
  are therefore about runs in which processes end by `exit`.
- `F_DUPFD` does not count pipe ends (`Pipes.DupFdCounts`).
- `mmap` at a fixed address and the ELF loader do not check that they stay in the user half and off the kernel image.
  Mapping a page is confined to the address space exactly when the page lies in the user half or its level-3 table is
  new (`UpperPages.MapConfined`); below a level-3 table that others share, they see the page too
  (`UpperPages.UpperPageSeen`, `Limits.UpperPageShared`). What is spent on a page above is lost: the frame given to it,
  and its tables unless all were there (`UpperPages.MapConserves`, `UpperPages.GiveConserves`, `Limits.UpperPageLost`).
  An area is sound exactly when it keeps off the image (`Limits.AreaMustAvoidImage`).
- `mmap` of zero bytes adds an empty area, after which the list of areas is sorted and merged exactly when that area
  vanished into a neighbour (`AddressSpace.EmptyFacts`).
- `schedule` may return with the executing process marked Ready, so the invariant is that at most one process is Running.

## Model

| member | source | states |
|---|---|---|
| Bits.FlipBit | kernel/src/allocator.rs:196-198 | the exclusive-or of `buddy_of` gives the other half of the enclosing block, is aligned, and is its own inverse |
| Bits.MaskTest | kernel/src/allocator.rs:199-206 | the mask test of `max_order_for` is alignment to the order |
| BuddyBlocks.AllocStepSound | kernel/src/allocator.rs:92-109 | splitting removes exactly one aligned block of the order asked for from the free pages and keeps the free blocks disjoint and coalesced |
| BuddyBlocks.CoalesceSound | kernel/src/allocator.rs:111-130 | merging adds exactly the freed pages and keeps the free blocks disjoint and coalesced |
| BuddyBlocks.Canonical | kernel/src/allocator.rs:111-130 | two coalesced states with the same free pages have the same free blocks |
| BuddyBlocks.AllocComplete | kernel/src/allocator.rs:92-97 | from a coalesced state, no block is large enough exactly when no aligned block of that order is wholly free |
| BuddyBlocks.AllocThenFree | kernel/src/allocator.rs:92-130 | freeing what was just allocated restores the free blocks |
| BuddyAllocator.Buddy.constructor | kernel/src/allocator.rs:32-37 | an empty allocator has well-formed, empty lists |
| BuddyAllocator.Buddy.PushBlock | kernel/src/allocator.rs:132-142 | the block joins the lists, the link words still spell them out, only its first page is written |
| BuddyAllocator.Buddy.PopBlock | kernel/src/allocator.rs:144-155 | some block of that order leaves the lists |
| BuddyAllocator.Buddy.RemoveFromList | kernel/src/allocator.rs:158-177 | the walk ends and finds the block if and only if it is free at that order, and then unlinks exactly it |
| BuddyAllocator.Buddy.Alloc | kernel/src/allocator.rs:92-109 | takes a smallest sufficient block and splits it; fails exactly when every free block is smaller |
| BuddyAllocator.Buddy.Free | kernel/src/allocator.rs:111-130 | the free blocks become those of the coalescing function |
| BuddyAllocator.Buddy.AllocPage | kernel/src/paging.rs:70-74 | one free page leaves the free set; fails exactly when no page is free |
| BuddyAllocator.Buddy.FreePage | kernel/src/paging.rs:75-77 | exactly that page joins the free set, and coalesced states stay coalesced |
| BuddyAllocator.MaxOrderFor | kernel/src/allocator.rs:199-206 | the largest order that fits and is aligned |
| BuddyAllocator.Buddy.AddRegion | kernel/src/allocator.rs:76-90 | the free pages grow by exactly the whole pages of the region; the blocks are coalesced afterwards if and only if they were and no aligned block takes pages from both |
| BuddyAllocator.FillCoalesced | kernel/src/allocator.rs:76-90 | registering a range leaves the blocks coalesced if and only if they were and no aligned block that is then wholly free takes pages from the range and from outside |
| BuddyAllocator.MixedStraddles | kernel/src/allocator.rs:76-90 | such a block is one that straddles an end of the range |
| BuddyAllocator.AdjacentRegions | kernel/src/allocator.rs:76-90 | two adjacent one-page regions stay two blocks where one region of both pages is one |
| BuddyAllocator.Buddy.CheckIntegrity | kernel/src/allocator.rs:50-74 | in every valid state each list walk ends with the counted length, so the check never panics |
| BuddyRuns.RunsConserve | kernel/src/allocator.rs:92-130 | in every run of allocations and matched frees, free and outstanding blocks are aligned, pairwise disjoint and tile the pages it began with |
| BuddyRuns.RunsAgree | kernel/src/allocator.rs:92-130 | two runs that end with the same outstanding blocks end with the same free blocks |
| BuddyRuns.FreeOrderIrrelevant | kernel/src/allocator.rs:111-130 | the order in which a batch is freed does not affect the free blocks |
| Regions.SubtractAll | kernel/src/main.rs:491-515 | the remaining intervals are ordered and hold exactly the windows of the region that meet no excluded interval; it panics exactly when at some round more than eight remain |
| Regions.CutRound | kernel/src/main.rs:496-515 | one round over the fixed arrays cuts every interval; it runs past the array exactly when more than eight are left |
| Regions.AddRegionExcluding | kernel/src/main.rs:491-524 | the free pages grow by exactly the whole pages inside the region and outside every excluded interval; the blocks are coalesced afterwards if and only if they were and every aligned free block lies in the old pages or in the region clear of all exclusions, which is always so on an empty allocator with exclusions that are not empty |
| Regions.SevenFit | kernel/src/main.rs:492-515 | each exclusion adds at most one interval, so seven exclusions never overflow the array |
| Regions.EmptyExclusionCuts | kernel/src/main.rs:500-508 | an empty exclusion at a page boundary cuts a free block in two |
| Regions.Seed | kernel/src/main.rs:452-479 | seeding an empty allocator from the memory map frees exactly the usable pages; the blocks end up coalesced if and only if no aligned block of usable pages spans two entries or an exclusion |
| SlabHeap.LiveSound | kernel/src/heap.rs:111-148 | live allocations are long enough, aligned as asked, and share no byte with one another |
| SlabHeap.AllocationsApart | kernel/src/heap.rs:34-64 | two allocations at different addresses share no byte, across classes and large blocks |
| SlabHeap.WellAligned | kernel/src/heap.rs:111-112 | taking the larger of size and alignment makes every address a multiple of the alignment |
| SlabHeap.LongEnough | kernel/src/heap.rs:111-119 | class or block is at least as large as the size asked for |
| SlabHeap.SizeToSlab | kernel/src/heap.rs:85-87 | the smallest class whose objects hold the size, or none above 4096 |
| SlabHeap.PagesToOrder | kernel/src/heap.rs:75-83 | the smallest order with that many pages |
| SlabHeap.KernelHeap.Alloc | kernel/src/heap.rs:111-133 | a fresh allocation joins the live ones, every object of a slab page is either listed or live, no page is lost; fails exactly when the list and the allocator have nothing, and then the live ones are unchanged |
| SlabHeap.KernelHeap.SlabAlloc | kernel/src/heap.rs:24-32 | the object at the head of the list that the link words spell out, or one from a new page; fails exactly with an empty list and no free page |
| SlabHeap.KernelHeap.Grow | kernel/src/heap.rs:34-64 | the new page is cut into disjoint objects, the first handed out and all others listed |
| SlabHeap.KernelHeap.Carve | kernel/src/heap.rs:53-61 | every later object of the page is listed once, and the first is not |
| SlabHeap.KernelHeap.Dealloc | kernel/src/heap.rs:135-147 | the allocation leaves the live ones and goes back to the front of its class or as the block it came from, and nothing is lost |
| SlabHeap.PushThreaded | kernel/src/heap.rs:66-70 | storing the old head in the object and making it the head puts it in front of the list that the words spell out, and disturbs no other list |
| SlabHeap.PopThreaded | kernel/src/heap.rs:24-32 | the word of the head object is the next head |
| SlabHeap.InsideUnlisted | kernel/src/heap.rs:111-148 | no listed object begins inside a live allocation |
| SlabHeap.KernelHeap.Scribble | kernel/src/heap.rs:8-11 | whatever the holder of an allocation writes in it, every free list stays as it was |
| EntryWord.DecodeEncode | kernel/src/paging.rs:121-140 | an entry comes back out of its 64-bit word, so the present, huge and user tests of the word are those of the entry |
| EntryWord.HardwareBits | kernel/src/paging.rs:7-20 | the five flags of an entry are bits 0, 1, 2, 7 and 63 of its word |
| EntryWord.EncodeDecode | kernel/src/paging.rs:121-140 | a word comes back from the entry it is read as, up to bits that no entry has |
| EntryWord.OpenedDecodes | kernel/src/paging.rs:478-482 | rebuilding a word from its address and its flags with the user flag sets the user bit of the entry and nothing else |
| EntryWord.StoreRepresents | kernel/src/paging.rs:134-140 | storing a word into a table of words is storing the entry into the table it stands for |
| EntryWord.OpenRepresents | kernel/src/paging.rs:478-482 | so is opening a table to user mode |
| EntryWord.ZeroRepresents | kernel/src/paging.rs:148-152 | a table of zero words stands for the table of empty entries |
| PageTable.PartsOfPage | kernel/src/paging.rs:173-181 | the shifts and masks of an address are the four indices of its page number |
| PageTable.GrantedIsLeaf | kernel/src/paging.rs:272-280 | what the entries of all levels grant together (write and user access if every level allows it, execution if none forbids it) is what the leaf says: a table entry takes nothing away |
| PageTable.OpenShrinks | kernel/src/paging.rs:466-493 | writing an entry keeps that so, if a pointer to a table is writable, executable and not closed to user mode where it was open, and a user entry is reached through user entries |
| Paging.TranslateIsFlat | kernel/src/paging.rs:363-399 | translation of a byte is the flat map on its page with the offset kept, through 4 KB and 2 MB leaves alike |
| Paging.PageTableManager.EnsureTable | kernel/src/paging.rs:466-493 | the child table exists afterwards, at the price of exactly one free page if it was missing, no other table appears, no translation and no permission changed, no user bit was lost, and table entries still take no access away; fails exactly on a 2 MB entry or when a page is needed and none is free |
| Paging.PageTableManager.Map4K | kernel/src/paging.rs:264-297 | succeeds if and only if the page lies in no 2 MB page and as many pages are free as tables are missing on its way; then exactly that many are used and exactly one page changes, to that frame with those permissions, and the four levels together grant exactly the flags on it and on every other page what they did; on failure no translation and no access changes |
| Paging.PageTableManager.Map2M | kernel/src/paging.rs:299-327 | succeeds if and only if as many pages are free as upper tables are missing; then exactly the 512 pages change, to consecutive frames with those permissions, the three levels together grant exactly the flags on them and elsewhere what they did, and a level-1 table that was there hangs nowhere any more; on failure no translation and no access changes |
| Spans.BigTest | kernel/src/paging.rs:239-250 | the loop uses a 2 MB entry for exactly the 2 MB that lie wholly inside the range, when both addresses have the same offset in their 2 MB |
| Paging.PageTableManager.MapRange | kernel/src/paging.rs:224-252 | succeeds if and only if the range is empty, or ends below 2^64, no page of it that gets a 4 KB entry lies in a 2 MB page, and as many pages are free beforehand as it needs tables that are not there; then exactly that many are used and exactly the range maps to consecutive frames with the permissions asked for; on failure an initial part of it is mapped, one page short at least; on success the levels together grant exactly the flags on the range and elsewhere what they did |
| Paging.PageProgress | kernel/src/paging.rs:245-249 | one more 4 KB page costs exactly the tables missing on its way, and leaves the pages still to come as they were |
| Paging.HugeProgress | kernel/src/paging.rs:241-244 | the same for a 2 MB page, though it drops a level-1 table |
| Paging.PageTableManager.Unmap | kernel/src/paging.rs:329-361 | returns the page's frame and clears exactly that page; nothing is granted on it any more, and on every other page what was |
| UpperHalf.CopyUpper | kernel/src/paging.rs:585-590 | the root becomes its own lower half with the other's upper half |
| UpperHalf.UpperShown | kernel/src/paging.rs:204-222 | tables and translations after sharing an upper half: the lower half's own, the upper half the other's |
| UpperHalf.NewUser | kernel/src/paging.rs:204-222 | a new root maps nothing below and what the kernel maps above; exactly one free page is spent, it is the root, and nothing is disturbed; fails exactly without memory |
| TableTeardown.FreePt | kernel/src/paging.rs:453-462 | exactly that table becomes free |
| TableTeardown.FreePd | kernel/src/paging.rs:442-451 | exactly the table and those below it become free, each once |
| TableTeardown.FreePdpt | kernel/src/paging.rs:431-440 | exactly the table and those below it become free, each once |
| TableTeardown.FreeUserTables | kernel/src/paging.rs:417-428 | exactly the tables below the first 256 root entries become free, read from tables still intact |
| VmaList.CanonicalUnique | kernel/src/vma.rs:97-160 | a sorted, merged list is determined by its map from addresses to attributes |
| AddressSpace.AddressSpace.LowerBound | kernel/src/vma.rs:115-117 | binary search splits the list at the start address |
| AddressSpace.AddressSpace.AddVma | kernel/src/vma.rs:119-160 | succeeds exactly when no address of the area is taken, then the map gains exactly that area and the list stays canonical; an empty area leaves the list canonical if and only if it vanishes into a neighbour with its attributes |
| AddressSpace.EmptyFacts | kernel/src/vma.rs:119-160 | adding an empty area keeps the list as it is when a neighbour with its attributes touches it, and otherwise leaves a list that is not sorted and merged |
| AddressSpace.AddressSpace.FindVma | kernel/src/vma.rs:162-174 | binary search agrees with lookup in the map |
| AddressSpace.AddressSpace.RemoveVma | kernel/src/vma.rs:176-183 | removes exactly the area that starts there, if there is one |
| AddressSpace.AddressSpace.FindFreeArea | kernel/src/vma.rs:414-436 | the lowest gap of the zone, or none exactly when there is none |
| AddressSpace.AddressSpace.Mmap | kernel/src/vma.rs:219-238 | exact first fit for address 0, and at a given address exactly when that range is vacant; the new bytes read as zero and no other byte changes, no frame is lost, no other address space is touched, nothing stale is mapped |
| AddressSpace.AddressSpace.HandlePageFault | kernel/src/vma.rs:185-217 | at any address: no byte of the process changes; on an untouched area page it is out of memory exactly without a free page, fails to map exactly with at most as many free pages as missing tables and then loses exactly one frame, and otherwise gives the page a free frame with its area's permissions and loses none; no other address space is touched; handled on an area page, ring 3 may read it, write it exactly if the area may be written, and execute it exactly if the area may be executed; not handled, ring 3 does not reach it |
| AddressSpace.AddressSpace.GivePage | kernel/src/vma.rs:200-213 | the page reads as the given bytes and every other address as before, or the outcome that the counts of free pages and missing tables decide; conserved, or exactly one frame lost |
| Limits.FaultLosesFrame | kernel/src/vma.rs:200-213 | from an empty machine: a fault with one free page and no tables ends with that page neither free nor owned |
| AddressSpace.AddressSpace.PunchHole | kernel/src/vma.rs:333-375 | never fails; the map loses exactly the hole, exactly the frames of its area pages become free, every byte outside the hole reads as before, no frame is lost, nothing stale is left mapped and no other address space is touched |
| AddressSpace.AddressSpace.MmapFixed | kernel/src/vma.rs:377-391 | never fails; the map is overwritten on exactly the range, which reads as zero while every other byte reads as before; the frames there are freed, none lost |
| AddressSpace.AddressSpace.Munmap | kernel/src/vma.rs:240-260 | for any address and size: removes the area that starts there and unmaps and frees exactly what is mapped in the range; bytes of the area are gone, bytes of other areas in the range read as zero, others as before; confined if and only if nothing outside the areas is mapped in the range, nothing stale left if and only if every touched page of the area is in it, no frame lost if and only if both; fails exactly when no area starts there |
| Sweep.MunmapConfined | kernel/src/vma.rs:251-258 | no frame but the address space's own changes hands if and only if the range meets no page that is mapped for anyone but an area |
| Sweep.MunmapConserves | kernel/src/vma.rs:240-260 | free and owned frames together are the same if and only if moreover every touched page of the removed area is in the range |
| Sweep.MunmapTidies | kernel/src/vma.rs:240-260 | under the latter condition, and only then, no user page outside the areas and the image stays mapped |
| Sweep.UserRange | kernel/src/vma.rs:240-260 | a range in the user half that keeps off the kernel image meets no such page |
| Limits.MunmapReachesImage | kernel/src/syscall.rs:1187-1195 | from an empty machine: an area right below the kernel image is unmapped with a larger size, and a page of the kernel becomes free |
| Limits.MunmapLosesFrame | kernel/src/vma.rs:240-260 | from an empty machine: two pages mapped, the second touched, the first unmapped, and a frame is lost |
| AddressSpace.MunmapExact | kernel/src/vma.rs:249-249 | the map loses exactly the range asked for if and only if the range covers the area and meets no other |
| AddressSpace.MunmapTakesWholeArea | kernel/src/vma.rs:249-249 | an area of two pages of which the first is unmapped disappears altogether |
| AddressSpace.AddressSpace.ClearUser | kernel/src/vma.rs:263-277 | exactly the frames of area pages become free, though each is freed before it is unmapped; none lost, nothing stale left mapped |
| AddressSpace.AddressSpace.Destroy | kernel/src/vma.rs:315-331 | the free set grows by exactly the frames of area pages, the lower-half tables and the root; only frames that end up free are written |
| AddressSpace.AddressSpace.WriteToUser | kernel/src/syscall.rs:1958-1978 | memory becomes that of the page-by-page write, also where pages are missing or belong to no area; true exactly when every page has a frame |
| Isolation.AreaAccess | kernel/src/vma.rs:39-48 | in a sound address space ring 3 reaches an area page exactly if it has been touched, and may then write and execute it exactly as the area's flags say |
| Isolation.NoOtherAccess | kernel/src/vma.rs:185-217 | a user page that belongs neither to an area nor to the image grants nothing |
| Isolation.StoredAt | kernel/src/syscall.rs:1958-1978 | the bytes written, across pages, are those before the first page without a frame, and no other byte changes |
| Isolation.StoredConfined | kernel/src/syscall.rs:1958-1978 | such a write touches no frame that the address space does not own |
| Isolation.Undisturbed | kernel/src/vma.rs:97-113 | a confined step of one address space leaves another sound, byte for byte the same, and apart |
| Isolation.ShrinkConserved | kernel/src/vma.rs:333-375 | when pages leave an address space and their frames become free, free and owned frames together stay the same |
| Isolation.GrowConserved | kernel/src/vma.rs:185-217 | the same when a page gains a frame that was free |
| Isolation.MoveIsolated | kernel/src/vma.rs:185-391 | a step, a teardown or a creation keeps every other address space as it was |
| Isolation.RunIsolated | kernel/src/process.rs:399-437 | in every run, an address space that no step was about reads the same at the end |
| Fork.PrefixAdded | kernel/src/process.rs:404-405 | adding the parent's areas in order rebuilds its list |
| Fork.CopyPage | kernel/src/process.rs:406-433 | a touched page gets a frame of its own with the same bytes, at the price of one frame and the tables it lacks; fails only if there were too few pages for the whole fork |
| Fork.CopyAreas | kernel/src/process.rs:400-437 | the child has the parent's areas and a copy of every touched page |
| ForkCost.PagePrice | kernel/src/process.rs:410-431 | what one more page adds to the price of a fork is its frame and exactly the tables missing so far |
| Fork.MapKernelImage | kernel/src/paging.rs:564-583 | the image's pages map to themselves and no area page changes |
| Fork.ForkMemory | kernel/src/process.rs:386-452 | the child has the same areas and the same byte at every address, the parent is unchanged, they share no frame they own, the frames that left the free set are exactly those the child now owns, and nothing stale is mapped in the child; fails exactly when no page is free, and then nothing changes; panics exactly when some page is free but fewer than a root, a frame for each touched page and every table on the way to a touched or image page; otherwise exactly that many are used; ring 3 has the same access in the child as in the parent, except that it reaches no page of the image |
| Fork.ForkProcess | kernel/src/process.rs:349-452 | fails without effect exactly when no block of eight pages is free for the kernel stack; loses the stack exactly when nothing else was free; panics exactly when more is free but not enough for the copy; otherwise the child is a fork as above, beside a zeroed stack, with the same access for ring 3 |
| Fork.ForkAccess | kernel/src/paging.rs:564-583 | a copied address space with the image mapped grants ring 3 what the original does, and on the image only kernel access |
| Processes.SomeoneCanRun | kernel/src/syscall.rs:1093-1115 | from a waiting process, live matching children of larger pid lead to one that is Ready or Running |
| Processes.NobodyLeft | kernel/src/process.rs:698-731 | with nothing Ready or Running, every process is dead |
| Processes.ForkSound | kernel/src/syscall.rs:821-842 | a child with a pid above all others keeps the pid forest and all waits, and adopts nobody |
| Processes.ExitSound | kernel/src/syscall.rs:1118-1137 | after an exit nobody waits for the dead |
| Processes.WaitSound | kernel/src/syscall.rs:1093-1112 | a process that begins to wait has a live matching child and no dead one |
| Processes.ReapSound | kernel/src/syscall.rs:1061-1075 | removing a dead child keeps the forest and all waits |
| Processes.KillLosesWakeup | kernel/src/interrupts.rs:287-307 | a kill without wakeup keeps all invariants if and only if nobody was waiting for the victim |
| Scheduling.AroundIs | kernel/src/process.rs:573-579 | the modular index arithmetic visits the slots in cyclic order after the current one |
| Scheduling.BoundedBypass | kernel/src/process.rs:571-593 | in every run, while a slot stays Ready, schedule is called fewer times than the table has slots, even if the table grows |
| Scheduling.PassedOver | kernel/src/process.rs:571-593 | the number of calls and the remaining cyclic distance together never exceed the distance at the start and the slots added since |
| Scheduling.CloserWhilePassed | kernel/src/process.rs:571-593 | every dispatch of another slot brings a Ready slot strictly closer |
| Scheduling.Scheduler.AddProcess | kernel/src/process.rs:559-569 | the first empty slot, or a new one at the end |
| Scheduling.Scheduler.AllocPid | kernel/src/process.rs:602-610 | one more than the largest pid in the table |
| Scheduling.Scheduler.NextProcess | kernel/src/process.rs:571-593 | the nearest Ready slot in cyclic order, or none exactly when none is Ready |
| Scheduling.Scheduler.Schedule | kernel/src/process.rs:663-746 | switches exactly when something is Ready, to the next in order; stays only with a live caller; goes idle only when every process left is dead |
| Scheduling.Scheduler.Tick | kernel/src/process.rs:663-746 | a timer tick always leaves a live process executing, and is a step of the run relation |
| Scheduling.Scheduler.ForkProcess | kernel/src/syscall.rs:821-842 | the child's pid exceeds every pid and parent pid in the table; all invariants are kept |
| Scheduling.Scheduler.Wait4 | kernel/src/syscall.rs:1050-1116 | reaps the first dead child of this very process that was asked for, with the pid asked for if it is positive and the exit code in the second byte of the status, and logs it once; reports no child exactly if no process has the caller as its parent and the pid asked for, and none yet only if it was told not to wait; otherwise sleeps, with a live child of the pid asked for, and somebody else runs |
| Scheduling.MeansAnswers | kernel/src/syscall.rs:1061-1098 | what each answer says of the fields of the table: which child was taken, that there is none, or that there is one and all that were asked for live |
| Scheduling.WaitersAreOwed | kernel/src/syscall.rs:1107-1142 | at every moment of every run after boot, whoever waits has a live child and no dead one of those it asked for, of exactly the pid if it asked for one |
| Scheduling.Scheduler.Sleep | kernel/src/syscall.rs:1107-1114 | a process that blocks always hands the CPU to another |
| Scheduling.Scheduler.Exit | kernel/src/syscall.rs:1118-1142 | the process is dead with its code, its parent is not waiting, another process runs or every process is dead |
| Scheduling.LoggedReap | kernel/src/syscall.rs:1073-1092 | every reaped process was reaped by its own parent's process, once, and is gone for good |
| Scheduling.RunsFromBoot | kernel/src/process.rs:663-746 | at every moment of every run of forks, waits, exits and ticks after boot: pids form a forest, nobody waits for the dead, whoever waits has a matching child, each process was reaped at most once and by its own parent, and either a live process executes or all are dead |
| Scheduling.FollowsGood | kernel/src/syscall.rs:1050-1142 | each of the four steps keeps all of that |
| Scheduling.ScheduleSound | kernel/src/process.rs:663-746 | one call keeps every invariant, returns only to a live caller and goes idle only when all are dead |
| Scheduling.KillStrandsParent | kernel/src/syscall.rs:303-314 | a run from boot after which killing the child leaves its waiting parent with nothing left to run |
| Scheduling.Scheduler.RegisterInit | kernel/src/main.rs:312-316 | the first process stands alone in the table, Ready, with pid 1 |
| Pipes.NoEnds | kernel/src/fd.rs:146-166 | the counted ends are zero exactly when no descriptor of any process holds one |
| Pipes.Descriptors.NewStdio | kernel/src/fd.rs:125-133 | a new table has the three standard descriptors and no pipe end, so all counts stay right |
| Pipes.Descriptors.Close | kernel/src/fd.rs:146-166 | counters keep counting descriptors and never saturate; false exactly when the descriptor was not open |
| Pipes.Descriptors.CountDown | kernel/src/fd.rs:153-159 | the saturating subtraction is an exact one |
| Pipes.Descriptors.ForkClone | kernel/src/fd.rs:167-187 | the child has the same descriptors and every end is counted once more |
| Pipes.Descriptors.Dup | kernel/src/syscall.rs:1708-1723 | opens the lowest free descriptor for the file, counted; succeeds exactly when the old one is open and one is free |
| Pipes.Descriptors.Dup2 | kernel/src/syscall.rs:1725-1747 | the new descriptor is closed and replaced, with counts exact throughout |
| Pipes.Descriptors.MakePipe | kernel/src/syscall.rs:1496-1532 | opens both ends at the two lowest free descriptors with one of each counted; fails exactly when fewer than two are free, and then changes nothing |
| Pipes.Descriptors.CloseAll | kernel/src/syscall.rs:1124-1127 | after a death no descriptor of the process is open and all counts are right |
| Pipes.Descriptors.PipeRead | kernel/src/syscall.rs:464-486 | end of file exactly when the buffer is empty and no descriptor anywhere holds a write end; otherwise the oldest bytes; what is read, then buffered, is what was written |
| Pipes.Descriptors.PipeWrite | kernel/src/syscall.rs:549-563 | broken pipe exactly when no descriptor anywhere holds a read end; otherwise all bytes are appended |
| Pipes.NewPipeEnds | kernel/src/syscall.rs:1496-1532 | of the two descriptors of a new pipe one reads it and cannot write, the other writes it and cannot read |
| Pipes.Descriptors.ReadFd | kernel/src/syscall.rs:377-486 | which descriptors can be read, and for a pipe end: end of file exactly when the buffer is empty and no descriptor holds a write end, otherwise the oldest bytes; no other pipe changes |
| Pipes.Descriptors.WriteFd | kernel/src/syscall.rs:490-563 | which descriptors can be written, and for a pipe end: broken exactly when no descriptor holds a read end, otherwise all bytes are appended; no other pipe changes |
| Pipes.Descriptors.AllocFrom | kernel/src/syscall.rs:798-812 | opens the lowest free descriptor from the minimum on; succeeds exactly when the old one is open and one is free there; the counters are wrong afterwards exactly when the file is a pipe end |
| Pipes.DupFdCounts | kernel/src/fd.rs:209-218 | opening a file once more without counting keeps the counters right if and only if it is no pipe end |
| ProcessFiles.HolderLives | kernel/src/syscall.rs:1124-1127 | an end is held by some descriptor exactly when a live process holds it |
| ProcessFiles.Kernel.Fork | kernel/src/syscall.rs:821-842 | the step of the run relation, with a copy of the descriptor table for the child; all invariants of both tables are kept, and what every pipe holds |
| ProcessFiles.Kernel.Exit | kernel/src/syscall.rs:1118-1142 | the step of the run relation, with every descriptor of the process closed; every pipe holds what it held |
| ProcessFiles.Kernel.Wait4 | kernel/src/syscall.rs:1050-1116 | the step of the run relation; no descriptor and no pipe changes |
| ProcessFiles.Kernel.Tick | kernel/src/process.rs:663-746 | the same for a timer tick |
| ProcessFiles.Kernel.MakePipe | kernel/src/syscall.rs:1496-1532 | a new pipe that holds nothing, at the two lowest free descriptors of the running process; every other pipe holds what it held; fails exactly when fewer than two are free |
| ProcessFiles.Kernel.Close | kernel/src/fd.rs:146-166 | the descriptor is closed; every pipe holds what it held; false exactly when it was not open |
| ProcessFiles.Kernel.Dup2 | kernel/src/syscall.rs:1725-1747 | the new descriptor stands for the file of the old one; every pipe holds what it held |
| ProcessFiles.Kernel.Dup | kernel/src/syscall.rs:1708-1723 | the lowest free descriptor of the running process, with all invariants of both tables kept; succeeds exactly when the old one is open and one is free; every pipe holds what it held |
| ProcessFiles.Kernel.Read | kernel/src/syscall.rs:377-486 | gives data exactly when the pipe holds some, as many of the oldest bytes as asked for and there; the pipe is at its end exactly when it holds nothing and no live process holds a write end; no other pipe changes |
| ProcessFiles.Kernel.Write | kernel/src/syscall.rs:490-563 | a pipe is broken exactly when no live process holds a read end; otherwise all bytes are appended and their number is returned; no other pipe changes |
| ProcessFiles.Kernel.SnapGood | kernel/src/syscall.rs:1118-1142 | between calls the state of the kernel is one that the run results are about |
| ProcessFiles.PipesConserve | kernel/src/syscall.rs:464-563 | in every run of system calls, for every pipe: what it held at first, followed by the bytes that write calls gave it, is the bytes that read calls returned from it, followed by what it holds |
| ProcessFiles.CallRunsStayGood | kernel/src/syscall.rs:1118-1142 | at every moment of every such run all invariants of both tables hold: descriptors belong to live processes only |
| ProcessFiles.StartGood | kernel/src/fd.rs:125-133 | they hold when the first process starts |
| ProcessFiles.EndStaysClosed | kernel/src/fd.rs:146-187 | once no live process can write to a pipe, none ever can again |
| ProcessFiles.EofIsFinal | kernel/src/syscall.rs:464-486 | a read that finds a pipe at its end comes after reads that returned every byte that writes gave it anywhere in the run |
| ProcessFiles.PipeCarries | kernel/src/syscall.rs:1496-1532 | what is written at one descriptor of a new pipe is read at the other |
| ElfHeader.HeaderInside | kernel/src/elf.rs:81-101 | after the header checks every program header lies inside the file |
| ElfHeader.EhdrReads | kernel/src/elf.rs:54-103 | a file header laid out field after field is refused for the first field that is wrong, or read as its entry point and the place of its program headers |
| ElfHeader.PhdrReads | kernel/src/elf.rs:35-45 | a program header laid out field after field reads back as its type, permissions, file range and address range |
| ElfHeader.TableReads | kernel/src/elf.rs:115-131 | so does a whole table of them |
| LoadPlan.CoversIs | kernel/src/elf.rs:143-146 | the pages between the rounded bounds of a segment are those in which it has an address |
| LoadPlan.StopMeans | kernel/src/elf.rs:132-207 | a file at one of whose segments loading stops cannot be loaded |
| LoadPlan.StopsOnce | kernel/src/elf.rs:132-207 | where loading stops, and for which reason, is settled by the state before |
| LoadCost.CostAdds | kernel/src/elf.rs:155-206 | giving frames to two sets of pages one after the other costs as much as at once |
| LoadCost.OutOfPages | kernel/src/elf.rs:155-206 | no page is left exactly when those before use up all, and too few for the tables when they fall short |
| Elf.PageBytes | kernel/src/elf.rs:163-198 | the intersection arithmetic gives each byte of the page the file's byte or zero |
| Elf.LoadSegment | kernel/src/elf.rs:132-207 | on success the segment's pages read as specified and everything readable before reads the same; each error exactly for its reason; no frame is lost unless a page could not be mapped, and then exactly one |
| Elf.LoadPage | kernel/src/elf.rs:155-206 | out of memory exactly without a free page, cannot map exactly with at most as many free pages as missing tables, losing one frame; otherwise the page reads as the file says |
| Elf.Load | kernel/src/elf.rs:105-213 | succeeds if and only if beforehand every segment to be loaded has its data in the file, their pages lie in no area and no two share one, and as many pages are free as they cover and lack tables; then exactly that many are used, every address of their pages holds the file's byte or zero, ring 3 may write and execute them exactly as their flags say, and the entry point is returned; a failure names the first segment that breaks this and the reason; whatever the outcome the address space stays sound, nothing stale is mapped, no other is touched, and at most the one frame of a page that could not be mapped is lost |
| UpperPages.MapConfined | kernel/src/paging.rs:264-297 | mapping a page is confined to the address space if and only if the page lies in the user half or its level-3 table was not there |
| UpperPages.MapConserves | kernel/src/paging.rs:264-297 | mapping a page outside the areas loses no frame if and only if the page lies in the user half or none of its tables was missing |
| UpperPages.GiveConserves | kernel/src/vma.rs:200-213 | giving an unmapped page a free frame loses none if and only if the page lies in the user half |
| UpperPages.UpperPageSeen | kernel/src/paging.rs:215-217 | a page mapped below a shared level-3 table appears in every address space that shares it |
| Limits.UpperPageShared | kernel/src/elf.rs:155-204 | from an empty machine: a page that a user address space maps above appears in the kernel's |
| Limits.UpperPageLost | kernel/src/vma.rs:200-213 | from an empty machine: the first page above is confined, but its frame and three tables belong to nobody |
| Limits.AreaMustAvoidImage | kernel/src/paging.rs:564-583 | a new area leaves the address space sound if and only if it keeps off the kernel image |
| StackImage.DecodeUnique | kernel/src/syscall.rs:2161-2213 | NUL-free arguments, environment and vector that a program reads from a stack are determined by its bytes |
| StackImage.StackDecodes | kernel/src/syscall.rs:2185-2213 | words laid out this way read back as the strings and the vector |
| StackImage.LeVal | kernel/src/syscall.rs:2079-2086 | a word's bytes, least significant first, give back the word |
| StackImage.LeByte | kernel/src/syscall.rs:2079-2086 | byte `i` of a word counts 256 to the power `i` |
| StackImage.LookupIsFirst | kernel/src/syscall.rs:2165-2181 | what a program finds that skips the count, the arguments and the environment and then goes pair by pair is the first pair with that tag |
| InitStack.PushStrings | kernel/src/syscall.rs:2109-2123 | every string ends up NUL-terminated at its pointer, below the earlier ones, without disturbing them |
| InitStack.PushTable | kernel/src/syscall.rs:2185-2213 | the words lie in reading order from the returned address up, and nothing above them changes |
| InitStack.BuildStack | kernel/src/syscall.rs:2067-2214 | whatever fits the mapped stack decodes back, only bytes between the stack pointer and the top change: argument count, arguments, environment, vector up to its null tag, random bytes; the stack pointer is a multiple of 16; a program that looks up its vector finds the program headers under 3, their size and number under 4 and 5, 4096 under 6, the entry point under 9, the random bytes under 25, zero under eight more tags and nothing under any other |

## Left out

- Register-level effects: context switch, trampolines, interrupt stubs, descriptor tables, TLB flushes and CR3 loads; `do_switch` is a change of the current slot.
- The accessed and dirty bits of a page-table word: apart from `EntryWord`, entries are unpacked records with the bits the operations test or set.
- SlabHeap.KernelHeap.Grow: does not model the zeroing of a new page, nor any word of heap pages but the first of each object; the kernel never reads the others.
- ElfHeader.ParseHeader: section headers and the fields that the loader does not read are not interpreted.
- AddressSpace.AddressSpace.Mmap: a size of zero, with which the source adds an empty area, is modelled in `AddVma` only; `MmapFixed` likewise.
- Paging.PageTableManager.MapRange: addresses that are not page-aligned are not modelled; every caller aligns them.
- Paging.PageTableManager.Unmap: pages inside a 2 MB entry are not modelled; the source then reads data as a table.
- Regions.SubtractAll: exclusions whose end lies before their start are not modelled.
- Scheduling.Scheduler.ForkProcess: whether the memory could be copied is a parameter; the copy is `Fork.ForkMemory`.
- Scheduling.Scheduler.Wait4: does not write the status word to user memory nor call `Destroy` on the reaped process; the two are modelled apart.
- Fork.ForkProcess: does not copy the system-call frame to the kernel stack or clone the descriptor table (`Pipes.Descriptors.ForkClone` is separate).
- Pipes.Descriptors.PipeRead: does not call `schedule` when it has to wait; it returns `Block`, and the caller's next step is another pass.
- Processes.KillLosesWakeup: runs with page-fault kills or `tgkill` have no liveness result beyond this condition.
- `extend_heap`, `write_to_phys_page`, `map_identity` and the other boot-time mapping loops: they would add only easy members.
- File systems, procfs, the initramfs parser, serial and APIC drivers, page-owner log: outside the four components.
- Memory ordering of the spin locks: every modelled step is already atomic.
- The choice of the 16 random bytes: they are a parameter.
