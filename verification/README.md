# Verified model of GEVisor and the Bareflank hypervisor

GEVisor runs on a bundled copy of the Bareflank hypervisor. This project models
the parts whose behaviour spans many calls, and proves what holds over all
inputs, all runs and all reachable states. `dafny verify dfyconfig.toml` checks
everything.

## The parts

**Memory** (`NextPowerOfTwo`, `BuddyTree`, `BuddyPool`, `BuddyAllocator`,
`SlabModel`, `SlabAllocator`, `SlabRuns`, `MemoryModel`, `MemoryManager`). The buddy
allocator is a tree value with its laws, and a class that keeps the tree in a
node array and updates it in place. The slab allocator is a pair of stacks of
addresses, and a class with linked records and blocks of pages taken from a buddy
allocator. The memory manager is nine slabs, a page pool that feeds them and a
huge pool. The client programs of `SlabRuns` and of `MemoryManager` (`Serve`) are
not in the source: they stand for every sequence of requests.

**Descriptors** (`MemoryDescriptors`). The two maps between virtual and physical
pages. They do not always stay inverse: a rejected `add_md` erases both keys it
was given, also those of other pairs. The exact condition is proved.

**Unwinder** (`Leb128`, `Cfi`, `CfiMeaning`, `Unwind`, `StandardFrame`, `EhFrame`).
The byte decoders, the call frame interpreter against the table of section 6.4 of
DWARF 4, the register update, and the search for the frame description entry.
`CfiMeaning` holds an assembler for the call frame instructions and proves what each
of them means; `StandardFrame` takes an ordinary function from the bytes of its
frame to the registers of its caller. Assembler, layouts and frame are not in the
source: they are what it is measured against.

**ELF loader** (`ElfHash`, `ElfSymbols`, `ElfRelocation`). The symbol hash, lookup
in one file and over all files, and relocation of the images.

**Driver** (`Driver`). The life cycle with every platform call free to fail.
Every request to the platform is logged with its outcome. `MakeCall` and `MakeCalls`
are not in the source: they stand for every sequence of calls; `Ideal` is the life
cycle when every request is granted.

**Smaller pieces** (`CallOnce`, `GuestPaging`). `call_once` on the
compare-and-swap mutex as interleaved steps of any number of threads, and GEVisor's
page walk against its scan of all page tables.

`Bits` holds the facts about 64-bit words that several modules need.

## Where the code does not keep what one would expect

- `add_md` with half of a stored pair breaks the inverse property
  (`RejectedAddCanDangle`); it is kept iff the pair is stored together or absent
  (`AddKeepsInverse`, `InverseThroughoutIff`).
- The call frame loop is the table look-up, for every target, iff no advance wraps
  and no location that is set goes back (`LookupIffAscends`,
  `OverflowDefeatsLookup`). What it returns in every case is
  `LoopStopsAtFirstBeyond`. `DW_CFA_set_loc` stores an absolute pointer in a
  location relative to the function, and is modelled so.
- `DW_CFA_def_cfa` and its kin do not end a CFA by expression: they take effect iff
  the CFA was none (`DefineCfaWorksIff`).
- `DW_CFA_register` copies the rule of the other register, not its place. No row ever
  has a register rule, so it works iff both registers are the same and keep their
  value (`InRegisterWorksIff`, `RowForSetsNone`).
- A record of the `.eh_frame` scan moves on iff its end stays in the address space
  or goes more than once around it (`RecordMovesOn`); otherwise the scan can stall
  (`WrappedLengthStalls`). Whether a search ends can be decided: it ends iff no scan
  goes over more records than the section has bytes, and one (`SearchEndsIff`).
- The symbol hash is the standard one for 7-bit names, and never for a name with
  one high character (`StandardIff7Bit`). With several, the differences can cancel
  (`HighCharactersCanCancel`).
- A name resolves differently for some order of the loaded files iff it is
  ambiguous (`ResolvesAlikeIffUnambiguous`); without such names the order does not
  change what relocation writes (`ShuffleKeepsWrites`). A file has a number that
  stands for its address, so that reordering files does not change the files.
- `common_add_module` accepts 75 modules, `bfelf_load` rejects 75, so such a load
  always fails (`Load`). After a failed load the added modules are gone.
- `common_init` with cores up forgets them (`Init`): a later start initialises
  cores that are up. What is held stays accounted for even then (`MakeCalls`).
- The node array of the buddy allocator is bounded by a byte count in the source;
  `RunOnlyGrows` proves the bound by the element count.

## Model

| member | source | states |
|---|---|---|
| `NextPowerOfTwo.NextPower2IsLeast` | bareflank/bfvmm/include/memory_manager/buddy_allocator.h:38-51 | for every request of 1 .. 2^63 the bit smearing yields the least power of two that is not smaller; for 0 and above 2^63 it yields 0 |
| `BuddyTree.UnusedIffEmpty` | bareflank/bfvmm/include/memory_manager/buddy_allocator.h:335-475 | coalescing: a consistent node is unused exactly when nothing below it is live, and then everything below it is unused |
| `BuddyTree.BlockOnGrid` | bareflank/bfvmm/include/memory_manager/buddy_allocator.h:320-333 | every live block lies in the buffer, is a power-of-two number of pages, and is aligned to its own size relative to the start of the buffer |
| `BuddyTree.BlocksDisjoint` | bareflank/bfvmm/include/memory_manager/buddy_allocator.h:335-475 | live blocks are pairwise disjoint |
| `BuddyTree.AllocAddsBlock` | bareflank/bfvmm/include/memory_manager/buddy_allocator.h:335-424 | a successful search adds exactly one block that was not live and keeps the four-state tags consistent; a failed one leaves the tree as it was; an unused tree always serves |
| `BuddyTree.AllocComplete` | bareflank/bfvmm/include/memory_manager/buddy_allocator.h:335-424 | the search fails iff every aligned block of the size overlaps a live one |
| `BuddyTree.FreeKeepsShape` | bareflank/bfvmm/include/memory_manager/buddy_allocator.h:428-475 | freeing any address at all keeps shape, consistency and node count |
| `BuddyTree.FreeRemovesBlock` | bareflank/bfvmm/include/memory_manager/buddy_allocator.h:428-475 | freeing the address of a live block removes exactly that block, and size tells its size |
| `BuddyTree.FreeMisses` | bareflank/bfvmm/include/memory_manager/buddy_allocator.h:428-475 | freeing an address of the buffer that no live block covers changes nothing, and its size is 0 |
| `BuddyTree.CountWithinBudget` | bareflank/bfvmm/include/memory_manager/buddy_allocator.h:315-333 | a tree of 2^k pages never has more nodes than the node array |
| `BuddyTree.AllocCountsNodes` | bareflank/bfvmm/include/memory_manager/buddy_allocator.h:320-396 | the node index is the number of nodes, and an allocation only adds nodes |
| `BuddyPool.RoundingPicksLevel` | bareflank/bfvmm/include/memory_manager/buddy_allocator.h:222-237 | the rounded size is the smallest power-of-two number of pages that holds the request |
| `BuddyPool.SizeLimits` | bareflank/bfvmm/include/memory_manager/buddy_allocator.h:303-316 | the node array has 2^(k+1) - 1 nodes, and buffer sizes stay below the type bits of the size word |
| `BuddyPool.Allocate` | bareflank/bfvmm/include/memory_manager/buddy_allocator.h:222-237 | every call on a valid pool leaves a valid pool |
| `BuddyPool.Deallocate` | bareflank/bfvmm/include/memory_manager/buddy_allocator.h:246-254 | every call on a valid pool, with any address, leaves a valid pool |
| `BuddyPool.AllocateAdds` | bareflank/bfvmm/include/memory_manager/buddy_allocator.h:222-237 | a successful request adds one block of at least the requested size, disjoint from all live ones, at the returned address |
| `BuddyPool.AllocateFailsIffCovered` | bareflank/bfvmm/include/memory_manager/buddy_allocator.h:222-237 | a request of at least one byte fails iff every aligned block of the rounded size overlaps a live block |
| `BuddyPool.DeallocateRemoves` | bareflank/bfvmm/include/memory_manager/buddy_allocator.h:246-274 | freeing a live block removes exactly it; size of its address is its size |
| `BuddyPool.RunTracksLedger` | bareflank/bfvmm/include/memory_manager/buddy_allocator.h:222-254 | in every run in which the client frees only what it holds, the live leaves are exactly the client's ledger |
| `BuddyPool.RunIsSafe` | bareflank/bfvmm/include/memory_manager/buddy_allocator.h:189-475 | in every such run what is held is in the buffer, aligned, pairwise disjoint; all nodes are unused again iff nothing is held; the node array never overflows |
| `BuddyPool.RunOnlyGrows` | bareflank/bfvmm/include/memory_manager/buddy_allocator.h:320-396 | in any run, legal or not, a node gets children at most once, and the node index never exceeds 2^(k+1) - 1 |
| `BuddyAllocator.Allocator.constructor` | bareflank/bfvmm/include/memory_manager/buddy_allocator.h:189-201 | the zeroed node array holds the empty tree |
| `BuddyAllocator.SetTag` | bareflank/bfvmm/include/memory_manager/buddy_allocator.h:112-149 | the tag bits and the size bits of the word do not disturb each other |
| `BuddyAllocator.Allocator.GetNodes` | bareflank/bfvmm/include/memory_manager/buddy_allocator.h:320-333 | two fresh array slots become the halves of the node; nothing else in use changes |
| `BuddyAllocator.Allocator.PrivateAllocate` | bareflank/bfvmm/include/memory_manager/buddy_allocator.h:335-396 | the in-place recursion refines the search on the tree value: same result, same node index, nodes outside the subtree untouched |
| `BuddyAllocator.Allocator.PrivateAllocateNext` | bareflank/bfvmm/include/memory_manager/buddy_allocator.h:398-424 | one guarded descent into a child, with the child's slots updated in place |
| `BuddyAllocator.Allocator.PrivateDeallocate` | bareflank/bfvmm/include/memory_manager/buddy_allocator.h:428-459 | the in-place release refines the release on the tree value |
| `BuddyAllocator.Allocator.PrivateDeallocateNext` | bareflank/bfvmm/include/memory_manager/buddy_allocator.h:461-475 | the descent towards an address and the retagging on the way back |
| `BuddyAllocator.Allocator.PrivateSize` | bareflank/bfvmm/include/memory_manager/buddy_allocator.h:479-499 | the in-place walk finds the size that the tree value has |
| `BuddyAllocator.Allocator.Allocate` | bareflank/bfvmm/include/memory_manager/buddy_allocator.h:222-237 | the node array implements the request on values |
| `BuddyAllocator.Allocator.Deallocate` | bareflank/bfvmm/include/memory_manager/buddy_allocator.h:246-254 | the node array implements the release on values, for any address |
| `BuddyAllocator.Allocator.Size` | bareflank/bfvmm/include/memory_manager/buddy_allocator.h:264-274 | the node array answers as the value does |
| `BuddyAllocator.Allocator.Contains` | bareflank/bfvmm/include/memory_manager/buddy_allocator.h:287-292 | true exactly for the addresses of the buffer |
| `SlabModel.CarvedPushesSlots` | bareflank/bfvmm/include/memory_manager/object_allocator.h:574-585 | the carving loop pushes each slot of the page exactly once, floor(4096 / size) of them |
| `SlabModel.RefillKeepsPartition` | bareflank/bfvmm/include/memory_manager/object_allocator.h:574-585 | a refill keeps free and live slots a partition of the carved slots and adds floor(4096 / size) free ones |
| `SlabModel.TakeKeepsPartition` | bareflank/bfvmm/include/memory_manager/object_allocator.h:291-297 | allocating hands out a carved slot that was not live |
| `SlabModel.GiveKeepsPartition` | bareflank/bfvmm/include/memory_manager/object_allocator.h:306-312 | freeing a live address restores the partition whichever record carries it |
| `SlabModel.LiveDisjoint` | bareflank/bfvmm/include/memory_manager/object_allocator.h:291-312 | live objects of a slab are pairwise disjoint |
| `SlabAllocator.Allocator.constructor` | bareflank/bfvmm/include/memory_manager/object_allocator.h:200-216 | an empty allocator; size 0 becomes 1 |
| `SlabAllocator.Allocator.GetNextPage` | bareflank/bfvmm/include/memory_manager/object_allocator.h:488-506 | a page of the pool is listed in the top block, which is replaced when its 255 entries are used up |
| `SlabAllocator.Allocator.GetNextObject` | bareflank/bfvmm/include/memory_manager/object_allocator.h:508-515 | a record that is on neither stack |
| `SlabAllocator.Allocator.FreeStackPush` | bareflank/bfvmm/include/memory_manager/object_allocator.h:517-521 | the record is linked in at the top of the free stack with its address |
| `SlabAllocator.Allocator.FreeStackPop` | bareflank/bfvmm/include/memory_manager/object_allocator.h:523-535 | the top of the free stack, refilled from a new page when it was empty; a fault only with an empty stack and an exhausted pool |
| `SlabAllocator.Allocator.UsedStackPush` | bareflank/bfvmm/include/memory_manager/object_allocator.h:537-541 | the record is linked in at the top of the used stack |
| `SlabAllocator.Allocator.UsedStackPop` | bareflank/bfvmm/include/memory_manager/object_allocator.h:543-556 | the top of the used stack, or a new record when it was empty |
| `SlabAllocator.Allocator.ExpandPageStack` | bareflank/bfvmm/include/memory_manager/object_allocator.h:558-564 | a new block on the page stack, in a page of the pool |
| `SlabAllocator.Allocator.ExpandRecordStack` | bareflank/bfvmm/include/memory_manager/object_allocator.h:566-572 | a new block on the object stack, in a page of the pool |
| `SlabAllocator.PagesTaken` | bareflank/bfvmm/include/memory_manager/object_allocator.h:488-572 | no block holds more than 255 entries, every page taken is a backing page or holds one block, and a block of either kind is added only when the others are full: the pages tell the page blocks, the records handed out the record blocks |
| `SlabAllocator.Allocator.AddToFreeStack` | bareflank/bfvmm/include/memory_manager/object_allocator.h:574-585 | the linked stacks implement the refill on values, with the pages it took recorded |
| `SlabAllocator.Allocator.Allocate` | bareflank/bfvmm/include/memory_manager/object_allocator.h:291-297 | the linked stacks implement allocate on values, and no record is lost; it cannot fault while a slot is free |
| `SlabAllocator.Allocator.Deallocate` | bareflank/bfvmm/include/memory_manager/object_allocator.h:306-312 | the linked stacks implement deallocate of any address on values, and no record is lost; it cannot fault while something is used |
| `SlabAllocator.Allocator.Contains` | bareflank/bfvmm/include/memory_manager/object_allocator.h:322-341 | true exactly for the addresses in a backing page |
| `SlabRuns.TakeOne` | bareflank/bfvmm/include/memory_manager/object_allocator.h:291-297 | a slot that was not held; the free and held slots still partition the carved ones, on live pages of the pool |
| `SlabRuns.ReturnOne` | bareflank/bfvmm/include/memory_manager/object_allocator.h:306-312 | exactly the slot goes, without a page being needed |
| `SlabRuns.Run` | bareflank/bfvmm/include/memory_manager/object_allocator.h:291-312 | over every sequence of requests to one slab of any size 1 .. 4096: no slot is handed out while it is held; free and held addresses are exactly the carved slots, each once; one used record per held address; free + used = pages * floor(4096 / size), and there are no other records; what is held is disjoint; unless the pool ran out |
| `MemoryModel.RegionsDisjoint` | bareflank/bfvmm/src/memory_manager/memory_manager.cpp:163-219 | all live regions, over nine slabs, huge pool and page pool, are pairwise disjoint |
| `MemoryModel.SlabObjectRoutes` | bareflank/bfvmm/src/memory_manager/memory_manager.cpp:253-299 | a live slab object is contained in its own slab and in no other |
| `MemoryModel.HugeBlockRoutes` | bareflank/bfvmm/src/memory_manager/memory_manager.cpp:253-299 | a live huge block is in no slab, but in the huge pool |
| `MemoryModel.DirectPageRoutes` | bareflank/bfvmm/src/memory_manager/memory_manager.cpp:253-306 | a page handed out directly is in no slab and not in the huge pool |
| `MemoryModel.NullRoutes` | bareflank/bfvmm/src/memory_manager/memory_manager.cpp:253-299 | null is in no slab and not in the huge pool |
| `MemoryModel.AnswersIsOwner` | bareflank/bfvmm/src/memory_manager/memory_manager.cpp:253-299 | the first allocator in the cascade that claims a live address is the one that served it |
| `MemoryModel.OwnerKnowsSize` | bareflank/bfvmm/src/memory_manager/memory_manager.cpp:315-373 | that allocator reports the size of the region |
| `MemoryModel.SlabAllocKeeps` | bareflank/bfvmm/src/memory_manager/memory_manager.cpp:163-200 | serving from a slab keeps the joint invariant, whatever pages the slab took from the page pool: each page serves one purpose and is a live leaf of the pool |
| `MemoryModel.SlabFreeKeeps` | bareflank/bfvmm/src/memory_manager/memory_manager.cpp:253-290 | returning a slab object keeps the joint invariant |
| `MemoryModel.PageAllocKeeps` | bareflank/bfvmm/src/memory_manager/memory_manager.cpp:221-237 | handing out a page keeps the joint invariant |
| `MemoryModel.PageFreeKeeps` | bareflank/bfvmm/src/memory_manager/memory_manager.cpp:301-306 | taking a page back keeps the joint invariant |
| `MemoryModel.SlabIndex` | bareflank/bfvmm/src/memory_manager/memory_manager.cpp:172-206 | the size cascade picks the smallest slab that holds the request |
| `MemoryModel.ServedSize` | bareflank/bfvmm/src/memory_manager/memory_manager.cpp:163-219 | every request is served with at least its size |
| `MemoryManager.Manager.constructor` | bareflank/bfvmm/src/memory_manager/memory_manager.cpp:505-518 | nine empty slabs beside the two pools; nothing live |
| `MemoryManager.Manager.AllocPage` | bareflank/bfvmm/src/memory_manager/memory_manager.cpp:221-237 | a new page-sized region, or null exactly when the page pool is exhausted |
| `MemoryManager.Manager.Alloc` | bareflank/bfvmm/src/memory_manager/memory_manager.cpp:163-219 | a new region of at least the size joins the live ones; null exactly for 0, for a page with the page pool exhausted, or for more with no aligned block free in the huge pool |
| `MemoryManager.Manager.Route` | bareflank/bfvmm/src/memory_manager/memory_manager.cpp:253-299 | the cascade of contains tests finds the first allocator that claims the address |
| `MemoryManager.Manager.FreePage` | bareflank/bfvmm/src/memory_manager/memory_manager.cpp:301-306 | exactly the page goes |
| `MemoryManager.Manager.Free` | bareflank/bfvmm/src/memory_manager/memory_manager.cpp:253-299 | freeing the address of a live region removes exactly that region; freeing null does nothing |
| `MemoryManager.Manager.Size` | bareflank/bfvmm/src/memory_manager/memory_manager.cpp:315-373 | the size of the live region at the address; 0 for null and anything outside the pools |
| `MemoryManager.ServeOne` | bareflank/bfvmm/src/memory_manager/memory_manager.cpp:163-306 | one request keeps the client's books in agreement with the live regions; what it grants is at an address not held, and it grants nothing iff the request is to be refused |
| `MemoryManager.Serve` | bareflank/bfvmm/src/memory_manager/memory_manager.cpp:163-361 | over every sequence of requests, returns by free and free_page and of null included, at every point: the live regions are exactly what the client was given and has not returned, each grant at an address not held, disjoint from the rest and as large as asked for, null iff refused; it stops only where the page pool runs out under a slab |
| `MemoryDescriptors.Descriptors.AddMd` | bareflank/bfvmm/src/memory_manager/memory_manager.cpp:445-476 | the new state of both maps and when it throws; a rejected pair is erased from both maps |
| `MemoryDescriptors.Descriptors.RemoveMd` | bareflank/bfvmm/src/memory_manager/memory_manager.cpp:478-490 | the new state of both maps and when it throws |
| `MemoryDescriptors.Descriptors.VirtToPhys` | bareflank/bfvmm/src/memory_manager/memory_manager.cpp:387-402 | translation by page, offset kept; an error when the page is not mapped |
| `MemoryDescriptors.Descriptors.PhysToVirt` | bareflank/bfvmm/src/memory_manager/memory_manager.cpp:416-431 | the same in the other direction |
| `MemoryDescriptors.AddKeepsInverse` | bareflank/bfvmm/src/memory_manager/memory_manager.cpp:445-476 | adding keeps the two maps inverse iff the pair is stored together or neither half is stored; an accepted add always does |
| `MemoryDescriptors.RejectedAddCanDangle` | bareflank/bfvmm/src/memory_manager/memory_manager.cpp:445-476 | a rejected duplicate leaves an entry in one map only: a concrete case |
| `MemoryDescriptors.RemoveKeepsInverse` | bareflank/bfvmm/src/memory_manager/memory_manager.cpp:478-490 | removing keeps them inverse iff it is rejected, or the pair is stored together or absent |
| `MemoryDescriptors.RunKeepsInverse` | bareflank/bfvmm/src/memory_manager/memory_manager.cpp:445-490 | the maps are inverse and page-aligned after every run whose calls each name a pair stored together or absent, or are rejected removals |
| `MemoryDescriptors.InverseThroughoutIff` | bareflank/bfvmm/src/memory_manager/memory_manager.cpp:445-490 | the maps are inverse after every prefix of a run iff each of its calls is of that kind |
| `MemoryDescriptors.MappedIff` | bareflank/bfvmm/src/memory_manager/memory_manager.cpp:445-490 | after every run a virtual page is mapped to a physical one, with its attributes, iff some call added the pair and none took the page out since |
| `MemoryDescriptors.MappedBackIff` | bareflank/bfvmm/src/memory_manager/memory_manager.cpp:445-490 | the same for the physical pages |
| `MemoryDescriptors.TranslatesAsAdded` | bareflank/bfvmm/src/memory_manager/memory_manager.cpp:387-490 | after every run an address in such a page translates to the same place in the page it was added with |
| `MemoryDescriptors.TranslationRoundTrip` | bareflank/bfvmm/src/memory_manager/memory_manager.cpp:387-431 | after every such run, virtual to physical to virtual is the identity on mapped addresses, and so is the way round |
| `Leb128.DecodeUleb128` | bareflank/bfunwind/src/dwarf4.cpp:1503-1519 | the loop computes the gathered value and the cursor |
| `Leb128.DecodeSleb128` | bareflank/bfunwind/src/dwarf4.cpp:1480-1501 | the loop computes the sign-extended value and the cursor |
| `Leb128.UnsignedRoundTrip` | bareflank/bfunwind/src/dwarf4.cpp:1503-1519 | every 64-bit value, minimally encoded anywhere in a buffer, decodes to itself with the cursor one past it |
| `Leb128.SignedRoundTrip` | bareflank/bfunwind/src/dwarf4.cpp:1480-1501 | the same for every signed 64-bit value |
| `Cfi.Fetch` | bareflank/bfunwind/src/dwarf4.cpp:1222-1435 | decoding an instruction, with any operands, always moves the cursor forward |
| `Cfi.ExecuteKeepsValid` | bareflank/bfunwind/src/dwarf4.cpp:1222-1435 | an instruction that does not abort keeps 32 registers and at most 10 remembered rows |
| `Cfi.ParseInstructions` | bareflank/bfunwind/src/dwarf4.cpp:1439-1462 | the instruction loop, with the row, location, cursor and stack it updates |
| `Cfi.LoopStopsAtFirstBeyond` | bareflank/bfunwind/src/dwarf4.cpp:1439-1462 | for every program: the row in front of the first table row beyond the target, an abort iff building the table aborts before any such row |
| `Cfi.SortedIffAscends` | bareflank/bfunwind/src/dwarf4.cpp:1248-1286 | the table is sorted by location iff no advance wraps and no location that is set lies in front of the current one |
| `Cfi.LoopIsTableLookup` | bareflank/bfunwind/src/dwarf4.cpp:1439-1462 | if the program ascends so, the single-row loop is the table look-up: the last row whose location is at most the target |
| `Cfi.LookupIffAscends` | bareflank/bfunwind/src/dwarf4.cpp:1439-1462 | from location 0 the loop stops at the row the look-up finds, for every target, iff the program ascends |
| `Cfi.OverflowDefeatsLookup` | bareflank/bfunwind/src/dwarf4.cpp:1248-1251 | a code alignment of 2^63 makes loop and look-up differ: a concrete program |
| `Cfi.BalancedKeepsStack` | bareflank/bfunwind/src/dwarf4.cpp:1320-1337 | a balanced stretch leaves the remember stack below it as it was |
| `Cfi.RememberRestore` | bareflank/bfunwind/src/dwarf4.cpp:1320-1337 | remember, balanced body, restore leaves row and stack as they were |
| `Cfi.RunsIffStackFits` | bareflank/bfunwind/src/dwarf4.cpp:1320-1337 | balanced code on existing registers runs through iff it never needs more than ten remember slots |
| `Cfi.LoopRunsBlock` | bareflank/bfunwind/src/dwarf4.cpp:1439-1462 | the loop over bytes does what the decoded instructions do |
| `Cfi.BlockLeavesRow` | bareflank/bfunwind/src/dwarf4.cpp:1320-1462 | in the byte stream, a balanced remember/restore block within depth 10 only moves the location, to where its instructions move it |
| `Cfi.DecodeCfi` | bareflank/bfunwind/src/dwarf4.cpp:1464-1474 | both passes: the row that the initial instructions leave is the start, and the restore target, of the frame's own |
| `CfiMeaning.PointerReads` | bareflank/bfunwind/src/eh_frame.cpp:37-128 | a pointer that was encoded absolute or relative to its own address, in each of the nine formats, is read back |
| `CfiMeaning.DecodesDirective` | bareflank/bfunwind/src/dwarf4.cpp:1222-1435 | decoding undoes assembling, for every instruction of the switch and all operands: the bytes of a directive decode to it and the cursor stops behind them |
| `CfiMeaning.StepObeys` | bareflank/bfunwind/src/dwarf4.cpp:1222-1435 | what every instruction means, from its bytes, for all registers, memory and CFA: the new location; the CFA as register plus offset or by expression; what the register is restored to, the word at or the address of CFA plus the factored offset, an expression, its own value, the initial rule; nothing else changes; it goes through iff its registers exist and the remember stack allows it |
| `CfiMeaning.DefineCfaWorksIff` | bareflank/bfunwind/src/dwarf4.cpp:1338-1360 | a new CFA register and offset take effect iff the CFA was not an expression before |
| `CfiMeaning.InRegisterWorksIff` | bareflank/bfunwind/src/dwarf4.cpp:1310-1315 | DW_CFA_register restores a register from another one iff they are the same and it keeps its value |
| `CfiMeaning.RowForSetsNone` | bareflank/bfunwind/src/dwarf4.cpp:1222-1474 | no row of any frame has a register rule |
| `Unwind.RegisterState.Set` | bareflank/bfunwind/include/registers_intel_x64.h:125-134 | writes go to the staged copy; an index outside the register file aborts |
| `Unwind.RegisterState.SetIp` | bareflank/bfunwind/include/registers_intel_x64.h:110-114 | writes go to the staged copy |
| `Unwind.RegisterState.Commit` | bareflank/bfunwind/include/registers_intel_x64.h:136-143 | the staged copy, with the stack pointer, becomes current |
| `Unwind.RegisterState.Stage` | bareflank/bfunwind/src/dwarf4.cpp:1537-1544 | every register with a rule is staged with the value that the old registers give it; aborts iff one has none; which value that is, rule by rule, is stated at UnwindRow |
| `Unwind.RegisterState.UnwindRow` | bareflank/bfunwind/src/dwarf4.cpp:1533-1546 | a simultaneous assignment, rule by rule from the old registers: the word at CFA + n, CFA + n, the register itself or another one, the value of or the word at an expression; the CFA is a register plus offset or an expression; the stack pointer is CFA + argument size, nothing stays pending, a register without a rule keeps what was staged for it; it aborts iff there is no such assignment |
| `Unwind.RegisterState.UnwindFrame` | bareflank/bfunwind/src/dwarf4.cpp:1526-1547 | the same with the row of the frame at the current instruction pointer; aborts iff there is no row or no such assignment |
| `Unwind.OrderDoesNotMatter` | bareflank/bfunwind/src/dwarf4.cpp:1537-1544 | staging the registers in any order, any number of times, gives the same values |
| `Unwind.AnyOrderIsSimultaneous` | bareflank/bfunwind/src/dwarf4.cpp:1537-1544 | any order that visits every register is the simultaneous assignment |
| `StandardFrame.FrameRow` | bareflank/bfunwind/src/dwarf4.cpp:1439-1474 | from its bytes: the row, at every instruction pointer, of a function that pushes rbp and makes it the frame pointer |
| `StandardFrame.FrameUnwinds` | bareflank/bfunwind/src/dwarf4.cpp:1526-1547 | the caller of such a frame: return address and saved rbp are read right below the CFA, wherever the function was interrupted |
| `StandardFrame.UnwindStandard` | bareflank/bfunwind/src/dwarf4.cpp:1526-1547 | on the registers: at the first instruction rip becomes the word at rsp and rsp moves up by 8; behind the push and in the body rip and rbp are found above rsp or rbp; aborts iff the CFA wraps around or lies too low |
| `EhFrame.RecordMovesOn` | bareflank/bfunwind/src/eh_frame.cpp:170-199 | a parsed record lies in the section, and ends behind its start iff its end stays in the address space or goes more than once around it |
| `EhFrame.WrappedLengthStalls` | bareflank/bfunwind/src/eh_frame.cpp:154-199 | an extended length of 2^64 - 12 makes the scan stay where it is |
| `EhFrame.CutOffSkipsOnlyWrapped` | bareflank/bfunwind/src/eh_frame.cpp:154-168 | within the last four bytes a record parses iff its length wraps around the address space: the cut-off skips nothing that fits |
| `EhFrame.NoWrapIsScannable` | bareflank/bfunwind/src/eh_frame.cpp:154-199 | if no length wraps, every record the scan reaches moves on |
| `EhFrame.ScanEndsIff` | bareflank/bfunwind/src/eh_frame.cpp:420-430 | the scan of a section of any bytes ends iff it ends within size + 1 records |
| `EhFrame.SearchEndsIff` | bareflank/bfunwind/src/eh_frame.cpp:415-443 | the search over all modules ends iff every scan that it starts ends within that many records |
| `EhFrame.ScannableSearches` | bareflank/bfunwind/src/eh_frame.cpp:415-443 | if every record of every module moves on, the search ends with the first match among all records |
| `EhFrame.FirstMatchIsFirst` | bareflank/bfunwind/src/eh_frame.cpp:415-443 | the first match: nothing in front of it matches, and there is none exactly when nothing matches |
| `EhFrame.ScanModule` | bareflank/bfunwind/src/eh_frame.cpp:420-430 | whenever the inner loop ends, it has found the first match among the records it visited |
| `EhFrame.FindFde` | bareflank/bfunwind/src/eh_frame.cpp:415-443 | whenever the search ends: the first match in module and record order, or an invalid entry exactly when no record visited matches |
| `EhFrame.ParsesItem` | bareflank/bfunwind/src/eh_frame.cpp:170-199 | a record with either length format is parsed as what it is: start, payload, end, kind |
| `EhFrame.LaidSearches` | bareflank/bfunwind/src/eh_frame.cpp:154-443 | the search over sections that were laid out record by record visits exactly their records, up to the first match |
| `EhFrame.FindCovering` | bareflank/bfunwind/src/eh_frame.cpp:415-443 | over such sections: the first record with begin < pc <= begin + length, and none iff no record has that; with disjoint ranges the record that covers pc |
| `ElfHash.PrivateHash` | bareflank/bfelf_loader/include/bfelf_loader.h:878-903 | the loop computes the hash of every name |
| `ElfHash.RoundsAgreeIff7Bit` | bareflank/bfelf_loader/include/bfelf_loader.h:883-899 | a round agrees with the 32-bit round of the gABI on exactly the characters below 0x80 |
| `ElfHash.HashIsStandard` | bareflank/bfelf_loader/include/bfelf_loader.h:878-903 | for every 7-bit name the 64-bit hash is the gABI hash |
| `ElfHash.HighCharacterDiffers` | bareflank/bfelf_loader/include/bfelf_loader.h:878-903 | a single high character, wherever it stands, changes the hash |
| `ElfHash.StandardIff7Bit` | bareflank/bfelf_loader/include/bfelf_loader.h:878-903 | a name with at most one high character hashes to the gABI value iff it has none |
| `ElfHash.HighCharactersCanCancel` | bareflank/bfelf_loader/include/bfelf_loader.h:878-903 | with several high characters the differences can cancel: a concrete name |
| `ElfHash.HashIsBounded` | bareflank/bfelf_loader/include/bfelf_loader.h:878-903 | every hash is below 2^28 |
| `ElfSymbols.GetSymByHash` | bareflank/bfelf_loader/include/bfelf_loader.h:905-930 | if the chain of the name's bucket ends, the walk finds the first symbol of the name along it, or there is none on it |
| `ElfSymbols.WellFormedServes` | bareflank/bfelf_loader/include/bfelf_loader.h:905-930 | in a well-formed table the chain of every name ends and lists every symbol of the name |
| `ElfSymbols.StandardTableServes` | bareflank/bfelf_loader/include/bfelf_loader.h:905-930 | a table built with the gABI hash over 7-bit names is well formed for the loader |
| `ElfSymbols.GetSymByScan` | bareflank/bfelf_loader/include/bfelf_loader.h:941-955 | the first symbol of the name |
| `ElfSymbols.GetSymByName` | bareflank/bfelf_loader/include/bfelf_loader.h:932-958 | with or without hash table, a name that occurs at most once, and on its chain if there is one, is found where the scan finds it |
| `ElfSymbols.ResolveIsChoice` | bareflank/bfelf_loader/include/bfelf_loader.h:960-1002 | the first strong definition with a value outside the ignored file, else the last weak one, else none |
| `ElfSymbols.OrderFreeIffUnambiguous` | bareflank/bfelf_loader/include/bfelf_loader.h:960-1002 | a list of definitions resolves alike in every order iff there is at most one strong definition and, without any, at most one weak one |
| `ElfSymbols.UnambiguousIsOrderFree` | bareflank/bfelf_loader/include/bfelf_loader.h:960-1002 | an unambiguous name resolves alike in every permutation of its definitions |
| `ElfRelocation.Store` | bareflank/bfelf_loader/include/bfelf_loader_reloc_x64.h:52-79 | a word is written to the image, least significant byte first |
| `ElfRelocation.GetSymGlobal` | bareflank/bfelf_loader/include/bfelf_loader.h:960-1002 | the loop over the files, each searched by hash or by scan, resolves the name |
| `ElfRelocation.WellFormedIsSearchable` | bareflank/bfelf_loader/include/bfelf_loader.h:905-958 | a well-formed hash table serves the search for every name |
| `ElfRelocation.ResolvesAlikeIffUnambiguous` | bareflank/bfelf_loader/include/bfelf_loader.h:960-1002 | a name resolves alike for every order of the loaded files iff its definitions in them are unambiguous |
| `ElfRelocation.FindSymbol` | bareflank/bfelf_loader/include/bfelf_loader_reloc_x64.h:59-73 | the address of the symbol: its own if it is strong and has a value, else the globally resolved one |
| `ElfRelocation.RelocateSymbol` | bareflank/bfelf_loader/include/bfelf_loader_reloc_x64.h:45-91 | what is written and what is reported, also for a missing symbol and an unsupported type |
| `ElfRelocation.RelocateSymbols` | bareflank/bfelf_loader/include/bfelf_loader.h:1041-1066 | the image receives the writes of the file up to the first error |
| `ElfRelocation.ShuffleKeepsWrites` | bareflank/bfelf_loader/include/bfelf_loader.h:960-1066 | if every symbol a file relocates against is its own strong one or unambiguous, the writes of the file are the same for every order of the loaded files |
| `ElfRelocation.Loader.Relocate` | bareflank/bfelf_loader/include/bfelf_loader.h:1826-1848 | each image receives the writes of its own file; files behind the first failure are untouched; a second call after success changes nothing |
| `ElfRelocation.LastWriteWins` | bareflank/bfelf_loader/include/bfelf_loader.h:1041-1066 | every byte holds what the last write to it gave |
| `ElfRelocation.OthersUnchanged` | bareflank/bfelf_loader/include/bfelf_loader.h:1041-1066 | bytes that no target covers are unchanged |
| `ElfRelocation.RelocationIsIdempotent` | bareflank/bfelf_loader/include/bfelf_loader.h:1041-1066 | repeating the writes changes nothing, overlapping targets included |
| `ElfRelocation.TargetHolds` | bareflank/bfelf_loader/include/bfelf_loader.h:1041-1066 | a target that no later write overlaps reads back as the word written |
| `ElfRelocation.FileTargetsHold` | bareflank/bfelf_loader/include/bfelf_loader_reloc_x64.h:45-91 | a target that no later relocation of its file overlaps holds S + A, S or B + A, by its type |
| `ElfRelocation.ByteOfIsDigit` | bareflank/bfelf_loader/include/bfelf_loader_reloc_x64.h:52-79 | byte k of the word written is its k-th digit to the base 256 |
| `ElfRelocation.ResolvedPlace` | bareflank/bfelf_loader/include/bfelf_loader.h:960-1002 | resolution delivers value and base of the first file with a strong symbol of the name, or without any the last with a weak one |
| `ElfRelocation.FoundIffRefers` | bareflank/bfelf_loader/include/bfelf_loader_reloc_x64.h:59-73 | a symbol is found iff the relocation refers to one: its own if strong with a value, else that of the chosen file |
| `ElfRelocation.TargetsHoldAddresses` | bareflank/bfelf_loader/include/bfelf_loader_reloc_x64.h:45-91 | after a successful run a target that no later relocation of its file overlaps holds the base of the defining file plus the value of its symbol, plus A for R_64; or B + A |
| `ElfRelocation.RelocateFiles` | bareflank/bfelf_loader/include/bfelf_loader.h:1826-1848 | the same of every target in every image after a successful call of the loader |
| `Driver.Driver.Reset` | bareflank/bfdriver/src/common.c:196-231 | everything is returned to the platform, each allocation once and with its size |
| `Driver.Driver.Init` | bareflank/bfdriver/src/common.c:233-246 | an empty driver; the cores that are up stay so, though the counter is 0 |
| `Driver.Driver.Fini` | bareflank/bfdriver/src/common.c:248-272 | it succeeds iff the driver was not corrupt and every request is granted; then nothing is held, and no core is up, if the counter told which were |
| `Driver.Driver.AddModule` | bareflank/bfdriver/src/common.c:274-301 | every result code, and the new module list |
| `Driver.Driver.SetupStack` | bareflank/bfdriver/src/common.c:57-72 | twice the stack size is allocated and accounted for, or nothing |
| `Driver.Driver.SetupTls` | bareflank/bfdriver/src/common.c:74-86 | one page per core is allocated and accounted for, or nothing |
| `Driver.Driver.LoadBinary` | bareflank/bfelf_loader/include/bfelf_loader.h:1913-1984 | the image of one module is accounted for, or there is none |
| `Driver.Driver.LoadBinaries` | bareflank/bfelf_loader/include/bfelf_loader.h:2058-2105 | all images, or an error with those loaded so far accounted for; with 1 .. 74 modules an error iff a request was refused |
| `Driver.Driver.Load` | bareflank/bfdriver/src/common.c:303-373 | all or nothing: it succeeds iff every request is granted and there are fewer than 75 modules, having asked for everything in order; a failure at any step leaves an empty unloaded driver |
| `Driver.Driver.Unload` | bareflank/bfdriver/src/common.c:375-407 | every result code; it succeeds iff the VMM does; a failing VMM leaves the driver corrupt with everything still held |
| `Driver.Driver.Start` | bareflank/bfdriver/src/common.c:409-447 | it succeeds iff every core does, asking cores 0, 1, ... in order up to the first that fails, and then those that came up to stop; all cores, or a roll-back to none, or corrupt with the cores that did not stop, if no core was up before |
| `Driver.Driver.Stop` | bareflank/bfdriver/src/common.c:449-482 | it succeeds iff every started core does, asking them in reverse order up to the first that fails, which leaves the driver corrupt; if the counter told which cores were up, only these are finalised, and a failure leaves the rest up |
| `Driver.MakeCall` | bareflank/bfdriver/src/common.c:233-482 | one call moves only along the life cycle, and does what it is for if every request is granted; the counter loses track of the cores exactly when common_init resets with some up |
| `Driver.MakeCalls` | bareflank/bfdriver/src/common.c:233-482 | over every call sequence and under arbitrary failures: every call moves only along the life cycle, all memory is accounted for, an unloaded driver holds nothing; and if no common_init found cores started, the counter tells which cores are up, an unloaded or loaded driver has none, a running one all, and cores were initialised only when down and finalised in reverse order; if every request is granted, status, modules and all codes are those of the ideal life cycle |
| `Driver.IdealLifeCycle` | bareflank/bfdriver/src/common.c:274-447 | in which adding 1 .. 74 modules, loading and starting ends with a running VMM, and with 75 the load fails |
| `CallOnce.StepKeepsInv` | bareflank/bfsdk/include/bfcallonce.h:36-50 | every atomic step of every thread keeps the lock, the flag and the completion count in agreement |
| `CallOnce.MutualExclusion` | bareflank/bfruntime/src/pthread/pthread.cpp:206-235 | in every interleaving of any number of threads at most one holds the lock |
| `CallOnce.UnlockIsByHolder` | bareflank/bfruntime/src/pthread/pthread.cpp:225-235 | a thread unlocks only while it holds the lock, and then nobody does |
| `CallOnce.BodyCompletesOnce` | bareflank/bfsdk/include/bfcallonce.h:41-50 | in every interleaving the body completes at most once, also when earlier attempts threw |
| `CallOnce.ReturnsAfterCompletion` | bareflank/bfsdk/include/bfcallonce.h:41-50 | whoever has returned normally did so after the body completed |
| `CallOnce.NoDeadlock` | bareflank/bfsdk/include/bfcallonce.h:41-50 | in every interleaving, while a thread is inside some thread can make a step |
| `CallOnce.FirstCall` | bareflank/bfsdk/include/bfcallonce.h:41-50 | an undisturbed call before completion runs the body, sets the flag and frees the lock |
| `CallOnce.LaterCall` | bareflank/bfsdk/include/bfcallonce.h:41-50 | an undisturbed call after completion returns without the body |
| `CallOnce.ThrowingCall` | bareflank/bfsdk/include/bfcallonce.h:41-50 | an undisturbed call whose body throws leaves everything as it was |
| `GuestPaging.WalkIsLeafPlusOffset` | gevisor/vmm/paging_utils.h:183-244 | the walk gives the frame of the mapping page plus the offset, and 0 where a level is missing |
| `GuestPaging.IndicesSpellAddress` | gevisor/vmm/paging_utils.h:193-235 | the four indices and the page offset spell the low 48 bits of the address |
| `GuestPaging.WalkFollowsIndices` | gevisor/vmm/paging_utils.h:183-244 | the walk of the address that four indices and an offset spell reads the entries at these indices, and adds what the page size leaves of the address to the frame |
| `GuestPaging.WalkIsLinear` | gevisor/vmm/paging_utils.h:183-244 | within one page of 4 KiB, 2 MiB or 1 GiB the walk is linear in the address |
| `GuestPaging.Scanner.AccessAllPt` | gevisor/vmm/paging_utils.h:46-106 | the EPC frames of a page table, present or not, are appended to the record; the result tells whether there was one |
| `GuestPaging.Scanner.AccessAllPdt` | gevisor/vmm/paging_utils.h:108-133 | the frames of all page tables below |
| `GuestPaging.Scanner.AccessAllPdpt` | gevisor/vmm/paging_utils.h:135-156 | the frames of all page directories below |
| `GuestPaging.Scanner.AccessAllPml4` | gevisor/vmm/paging_utils.h:159-181 | the frames of the whole four-level tree, in order |
| `GuestPaging.PathIsRecorded` | gevisor/vmm/paging_utils.h:46-181 | a frame at the end of a path of usable entries without a large page is recorded |
| `GuestPaging.RecordedHasPath` | gevisor/vmm/paging_utils.h:46-181 | nothing else is recorded |
| `GuestPaging.RecordedIff` | gevisor/vmm/paging_utils.h:46-181 | a frame is recorded iff some four indices lead to it, through usable entries without a large page, and it lies in the EPC, both ends included |
| `GuestPaging.ScanCoversWalk` | gevisor/vmm/paging_utils.h:46-244 | every EPC frame that the walk reaches through a 4 KiB page is recorded |
| `GuestPaging.ScanAll` | gevisor/vmm/paging_utils.h:159-244 | after a scan from a reset counter the array holds exactly these frames, and so every one that a walk reaches through a 4 KiB page, unless more than 100000 were recorded |

## Left out

- SlabAllocator.Allocator.Allocate: when the page pool is exhausted during a refill the source writes through a null page; the model reports `fault` and says nothing about the slab afterwards.
- SlabAllocator.Allocator.constructor: no page limit and no preallocation, as the memory manager uses none; nor the move and clean-up of an allocator.
- SlabAllocator.Allocator.GetNextPage: no page limit, for the same reason.
- SlabRuns.ReturnOne: only addresses that are held, as the client's contract with the slab demands; `SlabAllocator.Allocator.Deallocate` is modelled for any address.
- Records and blocks of the slab allocator are sequences indexed by number, not objects at addresses inside the pages.
- Buddy allocators with k above 47, whose sizes would reach the type bits of the size word, and buffers at address 0, where null is ambiguous.
- The third pool (`alloc_map`, `free_map`, `size_map`), a further buddy allocator on its own, and the C library wrappers around `alloc` and `free`.
- MemoryManager.Manager.Free: only null and addresses of live regions; what a client may free is its contract with the memory manager. The buddy and slab allocators below are modelled for any address.
- MemoryManager.Manager.FreePage: only null and pages handed out directly, for the same reason.
- Locks of the memory manager: its methods are modelled one at a time.
- DWARF expressions: the value of an expression is an arbitrary function of its address, the initial entry and the registers; memory read through a register rule is an arbitrary function of the address.
- The parsing of a common information entry: alignments and pointer encoding are given, the latter as its two bit fields.
- Decoding of a frame description entry beyond its header: its code range is an arbitrary function of the payload address.
- EhFrame.FindFde: says nothing of a search that does not end; it takes the records that the search visits as a ghost argument, which exists exactly when it ends (`SearchEndsIff` tells when).
- ElfSymbols.GetSymByHash: says nothing of a name on a cyclic chain, on which the walk need not end; `ElfRelocation` takes files in which every name has a chain that ends.
- Driver.Driver.LoadBinary: the segments copied into the image are not modelled.
- ELF tables are values beside the images, so targets that overlap the symbol, string, hash or relocation tables are not modelled; nor are `bfelf_loader_add`, which derives the tables from the file, the signature and support checks, AArch64 and `binaries_info`.
- Platform calls other than allocation and the VMM requests, among them the descriptor loops and the RSDP pointer: arbitrary success or failure. The number of cores does not change.
- Mutexes other than through `call_once`, reentrant `call_once`, and memory orders weaker than sequential consistency.
- The bits of a page table entry other than address, present and page size, among them the accessed and write bits that the scan sets: it sets them on local copies.
- The extended page table handlers, channel commands and platform drivers, control register, LAPIC, PCI and ENCLS helpers: thin wrappers or code resting on classes outside the repository.
