# Memory stack of crusty_os

A Dafny model of the kernel's memory stack, with proofs about it: the binary buddy
allocator, the TLSF heap and the slab cache of `abalone`, the 4-level page tables of
`mantle`, and the boot-time hand-over of memory to the buddy. `dafny verify dfyconfig.toml`
checks everything; nothing was executed.

Code that changes state is a class or a method with the same fields, branches and loops as
the original, proved against a description on values (sets of blocks, rows of blocks, walks
through a tree of tables); the descriptions carry the laws.

| files | what they hold |
|---|---|
| `Bits`, `Arith`, `Wrappers` | words as numbers with shifts and single bits, division facts, `Option` |
| `FreeList` | doubly linked lists threaded through the memory they describe, used by all three allocators |
| `Blocks`, `BuddyTheory` | aligned power-of-two blocks, buddies, layouts, canonical form |
| `BuddyMachine`, `BuddyRuns` | the buddy allocator as a state machine, and all its runs |
| `Buddy` | `BuddyAllocator`: list heads, bitmaps, nodes in free pages, counters |
| `Paging`, `PageTree`, `PhysMemory` | page-table entries, walks, what one entry write changes, tables as arrays |
| `Descent`, `HugePages` | following entries without the huge test, and two trees on which that goes astray |
| `Walker`, `BootTables` | the run-time walker with a TLB, and the boot builders |
| `TlsfIndex`, `TlsfBitmaps`, `TlsfHeap`, `Tlsf` | size classes, two-level bitmaps, boundary tags, `TlsfInner` |
| `SlabLayout`, `SlabMachine`, `Slab` | slot addresses, the cache over the buddy as a state machine, `SlabCacheInner` |
| `Handover` | memory-map regions, heap initialisation, release of boot memory |
| `Scenarios` | short runs that reach the states named under Findings |

## Conventions

- Addresses and counters are unbounded naturals; bounds the code relies on are preconditions.
  The maximum buddy order is a parameter `m`. The index space of the buddy is bounded by
  `PageLimit`, the number of pages whose pair has a bit at every order.
- A page is named by its index from the buddy's base. The nodes of free lists are a map from
  pages (or addresses) to `prev`/`next` words; `NIL` is the null pointer.
- A panic on exhaustion (`expect`, out-of-range index) is a result of `None` or `false`. An
  assertion on the caller is a precondition, unless a caller in the model can violate it.
- Entry encoding, decoding and index extraction follow section 4.5 of the Intel SDM, Vol. 3A;
  the `bitwise` crate is not part of this model.
- Page-table frames are order-0 allocations of the modelled buddy, as in the code: `Pool()` is
  the set of frames of its free pages, and every table taken is a live block.
- The TLB is a ghost map that may drop entries and cache any page of the current tables at
  every step; `invlpg` removes one page.
- Mutexes are taken as sequential, atomic operations.

## Findings

- After a merge, `dealloc` of the TLSF heap sets the next block's prev-free flag but leaves its
  back link at a block that no longer exists. `FreedAllLinked` says exactly when back links stay
  true, `MergeLeavesStaleLink` shows the failing case, `StaleBackLink` reaches it with three
  allocations and two frees, and `Dealloc` asks for the one back link it follows to be true.
- A slab of one slot is never given back: it is full before the last free and empty after
  (`ReleasedIff`; `OneSlotSlab` reaches it with slots of 4000 bytes in slabs of one page).
- `alloc` then `dealloc` of a buddy block restores the free blocks exactly when the block taken
  had no free buddy, which separate `add_region` calls do not guarantee
  (`AllocDeallocRoundTrip`; `MergedRoundTrip` reaches it with two one-page regions).
- `descend_or_create` takes a huge page for a table. `map` therefore writes the entry the address
  selects exactly when no huge page lies on its path (`FollowOnPath`, an if-and-only-if). With one,
  a single entry of the frame the descent ends at is written, and two things can happen. If that
  frame is no table of the tree, no translation changes, whatever `map` reports
  (`PageTableWalker.Map`, reached in `DataPageWritten`). If it is a table, the tree itself is
  overwritten, for exactly the addresses that select the entry there (`TableHit`); in
  `RootOverwritten` the address loses its translation. The kernel maps MMIO ranges
  (`src/main.rs`) while the loader's tables, which may hold huge entries, are still in use.
- The release loop skips regions below 1 MiB on the ground that they precede the buddy's base;
  what keeps `add_region` from panicking is the base itself (`Release`, `HandOver`);
  `ReleaseBelowBase` panics on a region at 1 MiB below a usable page at 2 MiB.
- The frame count in the documentation of `install_kernel_pml4` is a special case;
  `InstallKernelPml4` succeeds exactly when the frames for the root and for every table path of
  the window and the image are there, and `BootBound` bounds those by a formula.

## Model

| member | source | states |
|---|---|---|
| Blocks.PairSymmetric | abalone/src/buddy.rs:185-186 | `page ^ (1 << order)` is an involution on aligned blocks that keeps the pair's bit index and its merged block |
| Blocks.Laminar | abalone/src/buddy.rs:184-203 | two aligned blocks that share a page are nested, the smaller inside the larger |
| BuddyTheory.RunInsideBlock | abalone/src/buddy.rs:134-138 | in a coalesced layout an aligned run of free pages lies inside one free block |
| BuddyTheory.CanonicalForm | abalone/src/buddy.rs:101-225 | a coalesced layout consists of exactly the maximal aligned runs of its pages |
| BuddyTheory.HistoryIndependence | abalone/src/buddy.rs:101-225 | two coalesced layouts over the same pages are the same set of blocks |
| BuddyTheory.MaximalRunsLaid | abalone/src/buddy.rs:101-225 | the maximal aligned runs of any finite set of pages are such a layout: the canonical form exists |
| BuddyMachine.SplitsTile | abalone/src/buddy.rs:150-156 | the upper halves left by splitting and the block kept tile the block that was split |
| BuddyMachine.AllocEffect | abalone/src/buddy.rs:134-167 | an allocation moves exactly the returned block's pages from free to live, the block is aligned and new |
| BuddyMachine.AllocKeepsCoalesced | abalone/src/buddy.rs:150-156 | splitting leaves no mergeable pair |
| BuddyMachine.CoalesceKeepsLayout | abalone/src/buddy.rs:184-205 | merging upward keeps one disjoint layout over the old pages and the returned ones |
| BuddyMachine.CoalesceCoalesces | abalone/src/buddy.rs:184-205 | after merging upward no mergeable pair is left |
| BuddyMachine.DeallocEffect | abalone/src/buddy.rs:173-211 | a free moves exactly the block's pages back and keeps the layout coalesced |
| BuddyMachine.AllocComplete | abalone/src/buddy.rs:134-167 | in a coalesced state allocation fails exactly when no aligned run of that many pages is free, and then changes nothing |
| BuddyRuns.GreedyOrderLargest | abalone/src/buddy.rs:109-120 | the order chosen is the largest that is aligned, fits and is below the maximum |
| BuddyRuns.CutTiles | abalone/src/buddy.rs:105-126 | the blocks of a region are aligned, disjoint and cover exactly its pages |
| BuddyRuns.CutCoalesced | abalone/src/buddy.rs:105-126 | no two blocks of one region are buddies below the top order |
| BuddyRuns.AllocDeallocRoundTrip | abalone/src/buddy.rs:134-211 | allocating and freeing restores pages always, and the free blocks exactly when the block taken had no free buddy |
| BuddyRuns.StepKeeps | abalone/src/buddy.rs:134-211 | every call keeps the layout, the owned pages, free and live disjoint, and coalescedness |
| BuddyRuns.RunsAreCanonical | abalone/src/buddy.rs:101-225 | in every state of every run from one region the free blocks are the maximal aligned runs of the free pages |
| BuddyRuns.RunsAgree | abalone/src/buddy.rs:101-225 | two runs from one region that leave the same pages free leave the same free blocks |
| BuddyRuns.FreeingAllRestores | abalone/src/buddy.rs:101-225 | a run that ends with nothing live ends in the state right after `add_region` |
| BuddyRuns.RunsAllocComplete | abalone/src/buddy.rs:134-167 | in every run a request fails exactly when no aligned run of that many pages is free |
| FreeList.PushAll | abalone/src/buddy.rs:213-223 | pushing a node keeps every list of the table acyclic, with matching links, and disjoint from the others |
| FreeList.UnlinkAll | abalone/src/buddy.rs:191-196 | unlinking a node does the same and leaves all other lists as they were |
| Buddy.BuddyAllocator.constructor | abalone/src/buddy.rs:68-84 | an allocator with no pages is valid, its counters zero |
| Buddy.BuddyAllocator.ToggleBit | abalone/src/buddy.rs:40-43 | flips the named bit of the named order and no other |
| Buddy.BuddyAllocator.ReadBit | abalone/src/buddy.rs:45-48 | reads the named bit |
| Buddy.BuddyAllocator.TogglePair | abalone/src/buddy.rs:147-148 | one toggle keeps every pair's bit equal to (left free) xor (right free) when one half changes |
| Buddy.BuddyAllocator.SetBase | abalone/src/buddy.rs:90-94 | sets the base of an allocator without pages |
| Buddy.BuddyAllocator.FreeBlock | abalone/src/buddy.rs:213-225 | adds one block to its list, keeps lists and bits in agreement, writes no other unlisted page |
| Buddy.BuddyAllocator.RemoveBlock | abalone/src/buddy.rs:188-197 | takes a block that really is on its list off it, keeping lists and bits in agreement |
| Buddy.BuddyAllocator.CutRegion | abalone/src/buddy.rs:108-126 | the loop terminates and adds exactly the greedy blocks of the range |
| Buddy.BuddyAllocator.AddRegion | abalone/src/buddy.rs:101-131 | the whole new state: greedy blocks added, pages owned, counters, list nodes written into pages that are free afterwards, nowhere else |
| Buddy.BuddyAllocator.FindOrder | abalone/src/buddy.rs:137-138 | the least order at or above the request with a free block, or none if there is none |
| Buddy.BuddyAllocator.PopBlock | abalone/src/buddy.rs:140-148 | removes a free block of that order from list and bitmap |
| Buddy.BuddyAllocator.SplitDown | abalone/src/buddy.rs:150-156 | frees exactly the upper halves, writing list nodes into pages that were free only |
| Buddy.BuddyAllocator.TakeBlock | abalone/src/buddy.rs:137-156 | performs one allocation step of the state machine on lists, bits and memory |
| Buddy.BuddyAllocator.AllocPages | abalone/src/buddy.rs:134-167 | one allocation step, page-aligned address, list nodes written into pages that were free, nowhere else; 4096 bytes a page move from free to used, the peak is the larger of the old peak and the bytes now used |
| Buddy.BuddyAllocator.TestPair | abalone/src/buddy.rs:185-188 | the bit read during a free is set exactly when the buddy is free |
| Buddy.BuddyAllocator.MergeUp | abalone/src/buddy.rs:181-203 | the merge loop, reading the bits alone, ends with the block that merging as sets of blocks ends with |
| Buddy.BuddyAllocator.ReturnBlock | abalone/src/buddy.rs:181-205 | performs one free step of the state machine using only the bits |
| Buddy.BuddyAllocator.DeallocPages | abalone/src/buddy.rs:173-211 | one free step, list nodes written into pages that are free afterwards, nowhere else; 4096 bytes a page move from used to free, the peak stays |
| Paging.SamePathSameSpan | mantle/src/walker.rs:111-113 | canonical addresses share their table indices down to a level exactly when they lie in the same span |
| Paging.IndexFields | mantle/src/walker.rs:111-113 | the four table indices and the page offset are the low 48 bits of the address, in order |
| Paging.EncodeDecode | mantle/src/walker.rs:117-154 | an encoded entry is present and decodes to the frame it was made from, at every page size; bit by bit it is the address in bits 12 to 51, the flags outside, and bit 0 |
| Paging.EntryFields | mantle/src/walker.rs:117-154 | for any entry: present is bit 0, huge is bit 7, the address is its bits from the page size up to 51 |
| PageTree.WalkThrough | mantle/src/walker.rs:196-226 | the walk of an address is the walk from any table on its path |
| PageTree.WalkFrame | mantle/src/walker.rs:150-155 | an entry write changes no walk that does not read that entry |
| PageTree.LeafWrite | mantle/src/walker.rs:150-155 | on a tree without sharing a leaf write changes the translation of its own page only, changes its own entry only and keeps the tree unshared |
| PageTree.WriteUnreached | mantle/src/walker.rs:95-101 | whatever is written over a frame outside the tree changes no path, no entry and no walk |
| PageTree.LinkZeroTable | mantle/src/walker.rs:116-123 | linking a zeroed fresh frame into an absent entry changes no translation and keeps the tree unshared; the one new entry is present and writable, with no other flag |
| PhysMemory.PageTable.Read | mantle/src/table.rs:22-24 | the entry at the index |
| PhysMemory.PageTable.Write | mantle/src/table.rs:28-30 | changes one entry |
| PhysMemory.PageTable.Zero | mantle/src/table.rs:34-41 | all 512 entries become zero |
| PhysMemory.PhysMem.WriteEntry | mantle/src/walker.rs:122 | changes one entry of one table in memory |
| PhysMemory.PhysMem.AllocTableFrame | mantle/src/walker.rs:95-101 | a free page of the buddy becomes a live block and its frame a zeroed table, every other table as before; the buddy gives nothing back and writes nodes into pages that were free only; none exactly when no page is free |
| PhysMemory.PoolCount | mantle/src/walker.rs:95-101 | there are as many frames to take as the buddy has free pages |
| PhysMemory.ReachedLive | mantle/src/walker.rs:95-101 | a table of the tree in a page of the buddy is in a live one, so no node lands in it |
| Walker.ProtectionsOk | mantle/src/prot.rs:11-53 | no protection touches the address field, and the flag bits of each of the six: 1 writable, 3 and 4 cache, 7 memory type, 8 global, 63 no-execute |
| Walker.PageTableWalker.DescendOrCreate | mantle/src/walker.rs:111-125 | for any frame: follows a present entry whatever its huge bit, links a zeroed frame below an absent one, fails exactly when none is free; the TLB agrees if no walk can tell; the buddy only hands out pages and writes nodes into free ones |
| Walker.PageTableWalker.CreateTable | mantle/src/walker.rs:118-124 | links a zeroed buddy page below an absent entry: the two writes, the frame taken, failure exactly when no page is free |
| Descent.DescendFollows | mantle/src/walker.rs:111-125 | below a present entry the address returned is the next table of the path exactly when the entry maps no huge page; under a huge entry the path has no table |
| Descent.FollowOnPath | mantle/src/walker.rs:145-148 | where the descents end is the table whose entry the address selects exactly when no huge page lies on its path |
| Descent.DescendOnPath | mantle/src/walker.rs:111-125 | on a path without huge pages a descent reaches the next table, taking a frame exactly when there was none; no translation changes |
| Descent.DescendAstray | mantle/src/walker.rs:111-125 | a descent that only reads, or starts outside the tree, leaves paths and translations alone |
| Descent.TableHit | mantle/src/walker.rs:150-154 | an entry written into any table of the tree decides the translation of exactly the addresses that select it there |
| Walker.PageTableWalker.LeafTable | mantle/src/walker.rs:145-148 | the three descents, on any path: where they end, what they wrote, what they took |
| Walker.PageTableWalker.Map | mantle/src/walker.rs:140-158 | for every canonical address. Without a huge page on the path: the page translates to the frame by a leaf that is the frame with the flags asked for and the present bit, every other canonical address as before; no other entry changes but absent ones that now link a table, writable and with no other flag; the frame returned is the old translation; it runs out of frames exactly when the buddy has fewer free pages than the path lacks tables, and failure changes no translation. With one: if the frame the descent ends at is outside the tree no translation changes; in any case one entry of that frame is all that is written beside frames taken from the buddy, success means that the leaf is that entry or lies in a frame just taken, and running out means that no frame is left. The TLB agrees while the tree is safe |
| Walker.PageTableWalker.WriteLeaf | mantle/src/walker.rs:150-156 | the entry is replaced; on the path of the address its page alone is retranslated, outside the tree nothing is; the TLB agrees in both |
| HugePages.DataPageWritten | mantle/src/walker.rs:140-158 | a tree with a huge page over a data page: the leaf lands in the data page, the address keeps the translation of the huge page |
| HugePages.RootOverwritten | mantle/src/walker.rs:140-158 | a tree with a huge page over its own root: the leaf replaces an entry of the root and the address loses its translation |
| Walker.PageTableWalker.WalkExisting | mantle/src/walker.rs:181-190 | follows present, non-huge entries only |
| Walker.PageTableWalker.Unmap | mantle/src/walker.rs:167-178 | with 4 KiB tables on the path the page alone loses its translation, its entry becomes zero and no other entry and no frame outside the tree changes; otherwise, under a huge entry too, nothing changes; the TLB agrees |
| Walker.PageTableWalker.Translate | mantle/src/walker.rs:196-226 | computes the hardware walk, huge pages included |
| Walker.PageTableWalker.MapMmio | mantle/src/walker.rs:240-254 | success maps the whole range linearly; failure leaves exactly a mapped prefix, the longest there are frames for; every leaf mapped, in either case, has the flags asked for and the present bit, and every other leaf is as before; no frame is written but those of the tree and those the buddy had free; it runs out exactly when the buddy has fewer free pages than the range lacks tables; misalignment is reported exactly when the range is not empty and not aligned |
| Walker.PageTableWalker.MmioPage | mantle/src/walker.rs:248-252 | one turn of the loop: one page more, with the flags asked for, paid for by exactly its missing tables |
| Walker.LeafFlags | mantle/src/walker.rs:153-154 | the leaves of a linear mapping have, outside the address field, the bits of the protection and bit 0 |
| Walker.LeavesStep | mantle/src/walker.rs:248-252 | one more leaf extends a linear mapping and replaces none of its leaves |
| Walker.UnmapEffective | mantle/src/walker.rs:167-190 | a translated address that 4 KiB tables do not lead to is under a present huge entry |
| Walker.LeafTlb | mantle/src/walker.rs:155-156 | after the leaf write and `invlpg` a TLB that filled at any moment agrees with the tables |
| BootTables.AllocZeroFrame | mantle/src/pml4.rs:72-78 | a zeroed buddy page; none exactly when none is free |
| BootTables.DescendOrCreate | mantle/src/pml4.rs:85-97 | the next table, at the cost of a frame exactly when the path had none; fails exactly for want of it |
| BootTables.MapHugePage | mantle/src/pml4.rs:103-116 | one turn of the loop: the window grows by 2 MiB, exactly the missing tables are created; it fails only when the tables so far outnumber the frames |
| BootTables.MapHhdm2m | mantle/src/pml4.rs:101-117 | the window is exact, each of its entries present, writable, huge, global and not executable; succeeds exactly when the frames for the missing tables are there and takes just those; in a fresh root, from a 512 GiB boundary, these are ceil(n/512) page directories and ceil(n/512^2) PDPTs |
| BootTables.NextTable | mantle/src/pml4.rs:103-107 | the i-th huge page opens a new table at a level exactly when the formula grows there |
| BootTables.TableCount | mantle/src/pml4.rs:101-117 | n huge pages from a 512 GiB boundary lie below ceil(n/512^2) PDPTs and ceil(n/512) page directories |
| BootTables.MapRange4k | mantle/src/pml4.rs:120-139 | maps exactly the range, page for page with the flags asked for, leaving every other translation; succeeds exactly when the frames for the missing tables are there and takes just those |
| BootTables.MapPage | mantle/src/pml4.rs:121-138 | one turn of the loop: the next page is mapped, exactly the missing tables are created |
| BootTables.InstallKernelPml4 | mantle/src/pml4.rs:32-65 | the final translation of every canonical address: window, kernel image, nothing else; the window is writable, huge, global and not executable (bits 0, 1, 7, 8, 63), the image writable, executable and global (bits 0, 1, 8), and every entry above grants both; only frames the buddy had free are written, and the buddy only hands out pages; succeeds exactly when there are as many frames as the root and the distinct table paths of window and image |
| BootTables.FillRoot | mantle/src/pml4.rs:39-54 | both maps of a fresh root: exact translations, exact rights, exact number of frames |
| BootTables.RightsOk | mantle/src/pml4.rs:39-54 | the rights of window and image after both maps: the second leaves the entries of the first alone |
| BootTables.GrantedBy | mantle/src/pml4.rs:85-97 | below a root all of whose tables are linked writable, the flags of the last entry of a walk decide |
| BootTables.BootBound | mantle/src/pml4.rs:26-28 | from a 512 GiB boundary ceil(n/512) + ceil(n/512^2) + 3 per kernel page frames suffice |
| TlsfIndex.MappingBounds | abalone/src/tlsf.rs:90-98 | a size lies in the interval of its class |
| TlsfIndex.FloorOrder | abalone/src/tlsf.rs:90-98 | classes are ordered as their smallest sizes |
| TlsfIndex.MappingMonotone | abalone/src/tlsf.rs:90-98 | larger sizes have no smaller class |
| TlsfIndex.SearchRoundsUp | abalone/src/tlsf.rs:101-106 | the search class starts at or above the request, by at most a 32nd |
| TlsfIndex.SearchSound | abalone/src/tlsf.rs:101-106 | every block of the search class or above is large enough |
| TlsfIndex.SearchComplete | abalone/src/tlsf.rs:101-106 | every block with a 32nd to spare is of the search class or above |
| TlsfIndex.GoodFit | abalone/src/tlsf.rs:139-151 | a block of the least class is at most a 32nd larger than any of a class at or above it |
| TlsfIndex.SearchInRange | abalone/src/tlsf.rs:139-141 | the table has a list for the request exactly up to 2^30 - 2^24 |
| TlsfIndex.MappingInRange | abalone/src/tlsf.rs:90-98 | sizes below 2^30 have a list |
| TlsfBitmaps.BitmapsSet | abalone/src/tlsf.rs:117-118 | both bits set keeps both levels in agreement with the lists |
| TlsfBitmaps.BitmapsClear | abalone/src/tlsf.rs:131-134 | clearing an emptied list's bit, and its word's with the last one, keeps agreement |
| TlsfBitmaps.ScanWord | abalone/src/tlsf.rs:141-143 | a non-zero shifted word yields the first non-empty list of that row |
| TlsfBitmaps.ScanFirstLevel | abalone/src/tlsf.rs:144-149 | otherwise the first level yields the first non-empty list above, or none exists |
| TlsfHeap.PayloadsDisjoint | abalone/src/tlsf.rs:46-58 | payloads share no byte and stay clear of the sentinel |
| TlsfHeap.TakenSplit | abalone/src/tlsf.rs:160-174 | a block is handed out from its start with less than 64 bytes to spare; the rest becomes a block exactly when it has 64 bytes or more |
| TlsfHeap.TakenRowOk | abalone/src/tlsf.rs:162-174 | after a split the blocks still tile the pool with no two free neighbours |
| TlsfHeap.FreedRowOk | abalone/src/tlsf.rs:189-203 | after merging the blocks still tile the pool with no two free neighbours |
| TlsfHeap.TakeThenFree | abalone/src/tlsf.rs:153-209 | freeing what was just taken restores the row, and needs no back link |
| TlsfHeap.TakenLive | abalone/src/tlsf.rs:153-181 | taking adds one live block and touches no other |
| TlsfHeap.FreedLive | abalone/src/tlsf.rs:183-209 | freeing removes one live block and touches no other |
| TlsfHeap.BordersMiss | abalone/src/tlsf.rs:108-137 | header and link writes at block borders of two rows reach into the payload of no block that both rows hold |
| TlsfHeap.TakenKeeps | abalone/src/tlsf.rs:153-181 | taking a block writes into no payload handed out before |
| TlsfHeap.FreedKeeps | abalone/src/tlsf.rs:183-209 | freeing a block writes into no payload that stays handed out |
| TlsfHeap.TakenTags | abalone/src/tlsf.rs:165-177 | sizes, free flags and prev-free flags are true after an allocation |
| TlsfHeap.FreedTags | abalone/src/tlsf.rs:189-207 | and after a free |
| TlsfHeap.TakenLinks | abalone/src/tlsf.rs:165-177 | which back links are true after an allocation, one by one |
| TlsfHeap.FreedLinks | abalone/src/tlsf.rs:189-207 | which back links are true after a free, one by one |
| TlsfHeap.FreedAllLinked | abalone/src/tlsf.rs:205-207 | from true back links a free leaves all true exactly when it merges with neither side; only the link behind a merge is lost |
| TlsfHeap.MergeLeavesStaleLink | abalone/src/tlsf.rs:205-207 | after a merge the block behind says its predecessor is free but names another address |
| TlsfHeap.SpliceFree | abalone/src/tlsf.rs:160-203 | which addresses are free after a stretch of the row is replaced |
| Tlsf.TlsfInner.constructor | abalone/src/tlsf.rs:81-87 | empty lists and bitmaps agree |
| Tlsf.TlsfInner.AddPool | abalone/src/tlsf.rs:211-240 | one free block and a sentinel, all links true, headers exact, no other word written; fails exactly on sizes the code panics on |
| Tlsf.TlsfInner.InsertFree | abalone/src/tlsf.rs:108-121 | the block joins the list of its class; lists, both bitmaps and classes agree; links are written at the block and at listed places only |
| Tlsf.TlsfInner.RemoveFree | abalone/src/tlsf.rs:123-137 | the block leaves its list; lists, both bitmaps and classes agree; links are written at listed places only |
| Tlsf.TlsfInner.FindFree | abalone/src/tlsf.rs:139-151 | a listed block at least as large, of the least sufficient class, so at most a 32nd larger than any with a 32nd to spare; none only if every listed block is below s + s/32 |
| Tlsf.TlsfInner.Alloc | abalone/src/tlsf.rs:153-181 | the whole new state (row, headers, lists), heap well formed, back links kept true, no header or link word written inside a payload already handed out, link words written at free blocks only; the block taken is at most a 32nd larger than any that has the request and a 32nd to spare; failure changes nothing and means every free block is short |
| Tlsf.TlsfInner.TakeBlock | abalone/src/tlsf.rs:160-177 | takes a given free block, splitting exactly when 64 bytes or more are left over |
| Tlsf.TlsfInner.Dealloc | abalone/src/tlsf.rs:183-209 | the whole new state, heap well formed, one live block less, no header or link word written inside a payload still handed out, link words written at free blocks only, back links all kept exactly when nothing merged |
| Tlsf.TlsfInner.MergeAndInsert | abalone/src/tlsf.rs:189-207 | merges with both neighbours as the tags say and lists the result |
| Tlsf.TlsfInner.AllocLayout | abalone/src/tlsf.rs:269-282 | for every power-of-two alignment the first aligned address of the new block's payload, with room for the size; that payload has less than 72 bytes beyond size and alignment; it fails only when no free block has such a size and a 32nd to spare |
| Scenarios.StaleBackLink | abalone/src/tlsf.rs:183-209 | three allocations and two frees on a 1024-byte pool end with a used block whose header says its predecessor is free and names a block that is gone |
| Scenarios.MergedRoundTrip | abalone/src/buddy.rs:101-211 | two one-page regions, one page allocated and freed: two free blocks of order 0 have become one of order 1 |
| Scenarios.OneSlotSlab | abalone/src/slab.rs:243-250 | slots of 4000 bytes in one-page slabs: after one allocation and its free nothing is live and the slab is still held |
| Scenarios.ReleaseBelowBase | src/limine_data.rs:379-410 | a usable page at 2 MiB and a reclaimable one at 1 MiB: the release loop panics |
| SlabLayout.StrideOk | abalone/src/slab.rs:96-101 | the first slot clears the header and is aligned for header and type, at the least such offset |
| SlabLayout.CapacityExact | abalone/src/slab.rs:104-113 | the capacity is exactly the number of slots that fit |
| SlabLayout.SlotInside | abalone/src/slab.rs:225-233 | a slot lies behind the header and inside the slab |
| SlabLayout.SlotFound | abalone/src/slab.rs:219-235 | masking any byte of a slot finds the header, dividing finds the index |
| SlabLayout.SlotsDisjoint | abalone/src/slab.rs:186 | no byte is in two slots, of one slab or of two |
| SlabLayout.SlotAligned | abalone/src/slab.rs:91-101 | every slot is aligned for its type |
| SlabMachine.GrownAligned | abalone/src/slab.rs:273 | the misalignment test fails exactly when the buddy's base is misaligned |
| SlabMachine.GrowIff | abalone/src/slab.rs:260-280 | the cache grows exactly when the buddy has a large enough block and its base is aligned to the slab size |
| SlabMachine.GrowKeeps | abalone/src/slab.rs:260-305 | growing adds one new live block, or leaves slabs, live blocks and free pages alone |
| SlabMachine.FailedGrow | abalone/src/slab.rs:268-280 | on a coalesced buddy a failed grow, the misaligned exit included, changes nothing at all |
| SlabMachine.AllocObjKeeps | abalone/src/slab.rs:164-207 | an allocation makes exactly the returned slot live; other clients' blocks and owned pages stay |
| SlabMachine.DeallocObjKeeps | abalone/src/slab.rs:211-256 | a free ends exactly that slot's life; other clients' blocks and owned pages stay |
| SlabMachine.ReleasedIff | abalone/src/slab.rs:243-250 | the last free of a slab gives it back exactly when slabs have two slots or more |
| SlabMachine.CacheRunsKeep | abalone/src/slab.rs:164-256 | in every run, with calls of other buddy clients anywhere in between, the live slots are those handed out and not freed, and the others hold what they had, took and did not give back |
| SlabMachine.OtherKeeps | abalone/src/slab.rs:164-305 | a buddy call of another client, on blocks that are not slabs, keeps every slab and every live slot |
| SlabMachine.EmptiedCacheReturnsAll | abalone/src/slab.rs:164-256 | with two slots or more a run that ends with no live slot leaves exactly the blocks of the other clients live and every other page free; if they hold what they held at first, a coalesced buddy is back block for block |
| SlabMachine.SoleClient | abalone/src/slab.rs:164-305 | in every state of every run the live blocks are the slabs and, apart from them, what the others hold; as only client, the slabs alone |
| SlabMachine.ChainCount | abalone/src/slab.rs:283-287 | a duplicate-free chain is no longer than the slab and a shorter one leaves a slot live |
| Slab.PopHolds | abalone/src/slab.rs:188-191 | reading the link out of the popped slot gives the rest of the chain |
| Slab.PushHolds | abalone/src/slab.rs:239-241 | writing the head into the freed slot extends the chain and disturbs no other slab |
| Slab.SlabCacheInner.constructor | abalone/src/slab.rs:134-160 | an empty cache over any valid buddy is valid, its counters zero |
| Slab.SlabCacheInner.LinkPartial | abalone/src/slab.rs:309-318 | the slab becomes the head of the partial list, which names exactly the slabs with room |
| Slab.SlabCacheInner.UnlinkPartial | abalone/src/slab.rs:320-328 | the slab leaves the partial list, which names exactly the slabs with room |
| Slab.SlabCacheInner.ThreadSlots | abalone/src/slab.rs:283-287 | the loop chains all slots in order and writes nothing outside the slab |
| Slab.SlabCacheInner.Attach | abalone/src/slab.rs:281-303 | header, chain, list and counters of a fresh slab |
| Slab.SlabCacheInner.GetBlock | abalone/src/slab.rs:268-279 | an aligned live buddy block, or the buddy and cache as a failed grow leaves them; list nodes written into pages that were free only |
| Slab.SlabCacheInner.Grow | abalone/src/slab.rs:260-305 | performs one grow step of the state machine; no byte of a live slot is written, nor a list node of the buddy into a page that was not free |
| Slab.SlabCacheInner.Alloc | abalone/src/slab.rs:164-207 | performs one allocation step; the address is that of the slot, in the first slab with room if there is one; all six counters; no byte of a live slot is written, and none outside the slabs of the cache, by header, list or link; nodes of the buddy go into pages that were free only |
| Slab.SlabCacheInner.Dealloc | abalone/src/slab.rs:211-256 | performs one free step from the address alone; all six counters; no byte of a slot still live is written, and none outside the slabs of the cache, by header, list or link; nodes of the buddy go into pages free afterwards only |
| Slab.SlabCacheInner.Settle | abalone/src/slab.rs:243-250 | relists a full slab, gives back an empty one, leaves any other listed |
| Handover.LowestBaseLeast | src/memory/heap.rs:34-39 | the buddy's base is page aligned, at or below every usable region and the aligned base of one of them |
| Handover.RoundedInwards | src/limine_data.rs:103-106 | a region's ends are rounded to the nearest page borders inside it |
| Handover.PunchedOut | src/memory/heap.rs:60-79 | the two spans cut from a region hold exactly its whole pages outside the kernel |
| Handover.FedNext | src/memory/heap.rs:46-80 | a region adds its own pages, none of which an earlier one added |
| Handover.Init | src/memory/heap.rs:27-81 | the buddy owns exactly the usable pages outside the kernel; no base assertion fires; nodes are written into owned pages only; it fails exactly when nothing is usable |
| Handover.FindBootStack | src/main.rs:122-141 | the reclaimable region under the stack, or none if there is none |
| Handover.Release | src/limine_data.rs:379-410 | adds exactly the reclaimable pages of the regions it does not skip, never the page the stack pointer is in; writes list nodes into owned pages that are not live only; panics exactly when one lies below the base |
| Handover.ReturnedSplit | src/main.rs:130-134 | what must come back is what the loop releases plus at most one region set aside |
| Handover.Reclaim | src/main.rs:122-194 | release and the deferred region together add every whole reclaimable page of regions based at or above 1 MiB once |
| Handover.HandOver | src/main.rs:122-194 | from an empty buddy: afterwards it owns exactly usable and reclaimable pages, each counted once; exact condition for a panic |
| Handover.SeedHeap | src/memory/heap.rs:83-88 | the TLSF heap gets a well-formed 4 MiB pool that is a live buddy block; header and link words are written at its two ends only; fails exactly when the buddy has no block of that order |

## Left out

- Buddy.BuddyAllocator.AddRegion: pages from `PageLimit` on are excluded, because splitting or merging their blocks would index past the bitmaps.
- Walker.PageTableWalker.Map: the frame the descent ends at must be memory; when it is another table of the tree only the write itself is stated, since the tree need not be one afterwards. Non-canonical addresses and frames from 2^52 up, which no entry can hold, are excluded.
- Walker.PageTableWalker.MapMmio: ranges that leave a canonical half or cross a huge entry are excluded; `Map` says what each page of one does.
- Walker.PageTableWalker.Unmap: the address must be page aligned and canonical, as its safety contract asks; paging-structure caches are not modelled, only translations.
- BootTables.InstallKernelPml4: the write to CR3 and the survival of global TLB entries are not modelled; the kernel range and the window must not overlap.
- Tlsf.TlsfInner.Alloc: requests above 2^30 - 2^24, for which the code indexes past its table, are excluded by the precondition.
- Tlsf.TlsfInner.AddPool: one pool only, at an 8-aligned address and of a size divisible by 8, as its one caller passes; the two flag bits of a header are fields beside the size.
- Tlsf.TlsfInner.Dealloc: freeing through a stale back link is excluded, because what the code then unlinks is no block; over-aligned pointers are excluded, because the code takes payload - 32 for the header; well-formedness over runs with merges is not claimed, because it does not hold for back links.
- Slab.SlabCacheInner.Dealloc: the free-byte counter is only bounded below; the code never reduces it on allocation.
- Slab.SlabCacheInner.constructor: a cache without room for one slot, whose first allocation panics, and slot counts of 2^32 and more, which the header would truncate, are excluded; one typed word per address stands for memory, so an unaligned link word of a type aligned below 8 is not modelled.
- Handover.Init: indices beyond the buddy's bitmap are excluded by a precondition, as in `Release` and `HandOver`; the stack must lie in the direct map.
- Coalescing across separate `add_region` calls: the code does not do it, so canonical form is for one region.
- Word sizes: `u64` counters and addresses do not wrap.
- GDT, IDT, APIC, PIC, MSRs (`init_pat`), port I/O, stack switching, interrupts: hardware.
- The guard page of the kernel stack: the boot tables map the whole direct map later, so it does not stay unmapped.
- Harvesting of the Limine responses, framebuffer, serial and VGA writers, keyboard, timer, statistics output: small or I/O.
- `pincer`, `seastar`, process tables: not part of this model.
