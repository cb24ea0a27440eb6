# Verified models of the Tomato kernel's memory manager, scheduler and formatter

Tomato is a small C kernel. This project models the parts of it whose correctness rests on invariants that no
single function shows, and proves those invariants and what follows from them.

* **Red-black tree** (`VmarNode`, `Rb*`). The tree of `src/lib/rbtree` on node objects, store by store: insertion and
  erasure with rotations and colour fix-up, the per-subtree maximum kept by the propagate, copy and rotate callbacks
  with its early exit, and the in-order `prev`/`next`/`leftmost` links. The proofs go through a ghost tree and a zipper
  (a subtree and its context); `RbLinked.Valid` ties it to the fields, and `RbMeaning` reads it back off them.
* **Address space** (`Vmar*`). Nested regions: placing by first fit over the maximum, linking, mapping, looking up an
  address through nested regions, and recursive unmapping. `VmarMachine` says what each call does without trees, links
  or gaps, and `VmarRuns` proves that every run of the code is a run of that machine, up to the first assertion that fails.
* **Physical memory** (`Buddy*`, `Phys*`, `Counters`, `Accounting`). The buddy allocator with free lists, a bitmap that is
  only meaningful at block heads, headers and zeroed memory; the coupling of its free blocks to the page counters;
  and the counters under every interleaving of their atomic operations.
* **Demand paging** (`PageTable`, `PageWalks`, `VirtMemory`, `VirtMappings`). Page walks by racing threads, the reserve,
  populate and free cycle of a mapping, and runs over any number of mappings.
* **Slab allocator** (`Slab`), **scheduler** (`Scheduler`, `SchedulerRuns`, and `SchedulerEffects` for what each operation
  achieves) and **formatter** (`Digits`, `Snprintf`, and `Standard`, which says what C11 prescribes without the code's
  own way of reading a format).

Code that changes things in place is a class with methods; each method is proved against functions and predicates of
the old state, and the lemmas about those carry the main results. Protocols between threads or CPUs are state machines
whose steps are the single atomic operations, with theorems over all runs.

Conventions of the model:

* The two mirrored halves of each rotation and fix-up case are one method with a `Side` parameter.
* The parent pointer and the colour, one word in the code, are two fields.
* Addresses of regions are page numbers; units of physical memory are the smallest blocks (64 bytes), counted from a
  base aligned to the largest block.
* Larger invariants are stated under a quantifier (`Valid`, `Sane`, `SpaceOk`, `Holding`, `Sound`, ...) with a lemma to open
  and one to fold them, so that proofs which only pass them on stay small.
* Locks are atomic sections, and atomics are sequentially consistent.

Where the code differs from its documentation, or a promised property fails, the model follows the code:

* `virt_free` loses physical page 0: its first loop leaves the bare address in the entry and its second takes 0 for an empty
  one. `VirtMemory.AddressSpace.Free` states exactly what comes back, and that it is everything if and only if no page of
  the range is backed by page 0; `VirtMemory.PageZeroIsLost` is an address space in which one is.
* `kvsnprintf` counts the length in a machine word. `Snprintf.TerminatorRight` states exactly when the terminator is in its
  place, and `Snprintf.WidthWraps` gives a format for which it is not.
* On formats that it supports and section 7.21.6.1 of C11 defines, `kvsnprintf` gives another text if and only if a `%c` is given a null
  character, a `%d` with the 0 flag a negative value and a width that pads it, or a conversion a width that a machine word
  does not hold (`Standard.RenderStandard`). `Standard.NullIsDropped`, `Standard.ZerosBeforeSign` and `Standard.WideIsCut`
  are inputs.
* The run queue is last in, first out, so a thread that yields goes on running: `SchedulerRuns.YieldRunsItself`.
* `unmapped` is never cleared. Linking a vmar that was unmapped before leaves a linked vmar that counts as unmapped, and
  only that does (`VmarNested.AliveAfterLink`). Unmapping it does nothing then, and unmapping a region above it fails the
  assertion on unmapped children (`VmarNested.MarkedStays`).
* Linking does not check for cycles: `VmarUnder.LinkRanked` says that there is one if and only if the parent is the child or
  under it.
* An unpark before the scheduler has loaded the state of a parking thread reaches the assertion on the state:
  `SchedulerRuns.EarlyUnparkFails`. The model therefore lets a thread be unparked once it is parked or its CPU has seen
  it parking.

## Model

| member | source | states |
|---|---|---|
| `VmarNode.ChangeChild` | src/lib/rbtree/rbtree_augmented.h:262-271 | the child pointer of the parent, or the root, is the only thing that changes |
| `RbRotate.RotateUp` | src/lib/rbtree/rbtree.c:73-79 | a rotation around any node in its context: pointers, parents and colours of the rotated tree, with both maxima recomputed |
| `RbRotate.RotateAug` | src/lib/rbtree/rbtree_augmented.h:197-203 | recomputing only the old root and copying its value to the new one leaves every maximum right |
| `RbInsert.InsertColor` | src/lib/rbtree/rbtree.c:82-214 | from any tree with one red-red edge at the new node, a red-black tree with the same order, right parents and right maxima; the loop climbs |
| `RbInsert.FlipKeepsInv` | src/lib/rbtree/rbtree.c:123-140 | the colour flip moves the only violation two levels up |
| `RbInsert.InsertTurnBalanced` | src/lib/rbtree/rbtree.c:142-208 | the one or two rotations of the other cases end with a balanced subtree of the same black height |
| `RbEraseColor.EraseColor` | src/lib/rbtree/rbtree.c:221-392 | from any tree that lacks one black node on the paths through the hole, a red-black tree with the same order, right parents and right maxima; the loop climbs |
| `RbEraseColor.EraseFix` | src/lib/rbtree/rbtree.c:253-304 | with a black sibling, cases 2 to 4 either finish or move the deficit one level up |
| `RbEraseColor.EraseRed` | src/lib/rbtree/rbtree.c:236-252 | with a red sibling, case 1 and one further case finish |
| `RbAugment.Propagate` | src/lib/rbtree/rbtree_augmented.h:183-191 | climbing with the early exit computes `Propagated` |
| `RbAugment.PropagatedAug` | src/lib/rbtree/rbtree_augmented.h:183-191 | although the climb stops at the first unchanged node, every maximum of the path is right for the new subtree |
| `VmarNode.ComputeMax` | src/lib/rbtree/rbtree_augmented.h:220-240 | stores the largest of the own gap and the children's maxima, and reports whether it was there already |
| `RbTree.AugIsMaximum` | src/lib/rbtree/rbtree_augmented.h:204-240 | the local equation of the maxima makes each the true maximum over its subtree |
| `RbErase.EraseOneChild` | src/lib/rbtree/rbtree_augmented.h:284-311 | erasing a node with at most one child: the order without it, and where a black node is missing, if one is |
| `RbSuccessor.EraseTwoChildren` | src/lib/rbtree/rbtree_augmented.h:312-373 | erasing a node with two children, with the successor near or deep: the order without it, maxima right after the copy and two propagations, and where a black node is missing |
| `RbEraseLinked.Erase` | src/lib/rbtree/rbtree_augmented.h:377-383 | erasing any node of any valid tree leaves a valid tree whose order is the old one without it |
| `RbLinked.LinkOrdered` | src/lib/rbtree/rbtree.h:236-256 | linking a leaf as left or right child threads it between its neighbours, and keeps the leftmost |
| `RbLinked.UnlinkOrdered` | src/lib/rbtree/rbtree.h:226-234 | unlinking a node closes the thread and keeps the leftmost |
| `RbSearch.Locate` | src/lib/rbtree/rbtree_augmented.h:93-112 | the descent ends at an overlapping member or at the one hole where the range belongs |
| `RbInsertLinked.FindAdd` | src/lib/rbtree/rbtree_augmented.h:93-122 | with an overlap, an overlapping member is returned and the tree, the root and the rejected node are as they were; without one, the tree is valid with the node at its sorted place |
| `RbEraseLinked.EraseLinked` | src/lib/rbtree/rbtree_augmented.h:394-400 | the tree is valid, its order is the old one without the node, the node is cleared, and the result tells whether any is left |
| `RbMeaning.PointersFit` | src/lib/rbtree/rbtree.c:16-28 | what valid means on the fields: black root, parents and children agree, no red-red edge, equal black height |
| `RbMeaning.LinksFit` | src/lib/rbtree/rbtree.h:216-256 | the links and the leftmost spell the nodes in order, which is address order |
| `RbMeaning.MaximumFits` | src/mem/vmar.c:80-94 | what valid means for the maximum: no node of the subtree has a larger gap and one has it |
| `RbHeight.LogarithmicDepth` | src/lib/rbtree/rbtree.c:25-28 | no path is longer than twice the black height, nor than 2 log2(n + 1) |
| `RbNeighbours.Neighbour` | src/lib/rbtree/rbtree.c:455-510 | walking the tree to the next or previous node gives what the links say |
| `RbNeighbours.LastNode` | src/lib/rbtree/rbtree.h:65-74 | the rightmost descent gives the last of the order |
| `RbNeighbours.Find` | src/lib/rbtree/rbtree.h:374-390 | a member that overlaps the range, and null only if none does |
| `RbFirstFit.FindFirstFit` | src/lib/rbtree/rbtree_augmented.h:135-170 | for any subtree test that is true wherever a fitting node is below, the first fitting node in order, or none if none fits |
| `VmarGaps.Conservation` | src/mem/vmar.c:102-120 | the gaps, the children and the tail gap add up to the region |
| `VmarGaps.FirstGapIsLeast` | src/mem/vmar.c:191-222 | no free range starts before the first gap that is large enough |
| `VmarGaps.GapIsFree` | src/mem/vmar.c:203-219 | the start of a gap that is large enough is free for the range |
| `VmarGaps.MovedLaid` | src/mem/vmar.c:229-270 | a region that has children is right at another range if and only if that starts at the same page and still holds them |
| `VmarRegion.GapUpdate` | src/mem/vmar.c:102-107 | the stored gap is the distance to the predecessor, and the tree stays valid with right maxima |
| `VmarRegion.LinkInternal` | src/mem/vmar.c:159-179 | children stay inside, disjoint and in order, with every stored gap right; the child is at its place in the order |
| `VmarRegion.UnlinkChild` | src/mem/vmar.c:492-497 | the children without the one, with every stored gap right |
| `VmarPlace.MaximumIsSound` | src/mem/vmar.c:195-201 | the stored maximum is a sound test for the first-fit search |
| `VmarPlace.TailGap` | src/mem/vmar.c:115-120 | size and first page of the gap behind the last child |
| `VmarPlace.FindGap` | src/mem/vmar.c:203-222 | the least page where the range is inside the region and touches no child; failure exactly if there is none |
| `VmarPlace.FindPlace` | src/mem/vmar.c:229-259 | success exactly if the wanted place exists, with the child at it: the least free page, or the fixed offset if it is aligned, inside and free |
| `VmarSpace.LinkInSpace` | src/mem/vmar.c:159-179 | any unlinked vmar, with what is under it, joins the region at its place in the order; only the tree of the region changes, and every region stays right |
| `VmarUnder.LinkRanked` | src/mem/vmar.c:159-171 | linking makes a cycle if and only if the parent is the child or under it |
| `VmarSpace.AdoptOk` | src/mem/vmar.c:161-161 | any unlinked vmar without children, marked as unmapped or not, can be taken into the address space before it is linked |
| `VmarSpace.AllocateStatic` | src/mem/vmar.c:261-270 | the status in each case; on success the child is at the wanted page and in the order, otherwise nothing changed |
| `VmarSpace.Allocate` | src/mem/vmar.c:274-296 | the status for every outcome of the allocation; on success a new empty region at the wanted page, neither locked nor unmapped, otherwise the address space is as it was |
| `VmarSpace.Map` | src/mem/vmar.c:298-326 | the status for every outcome of the allocation and the reservation; on success a new mapping at the wanted page, neither locked nor unmapped, otherwise the address space is as it was |
| `VmarSpace.RootSpaceOk` | src/mem/vmar.c:72-120 | an empty region that is linked nowhere is an address space |
| `VmarSpace.RegionBalance` | src/mem/vmar.c:102-120 | in every region of an address space the gaps, the children and the tail are as long as the region |
| `VmarRuns.Run` | src/mem/vmar.c:159-519 | every sequence of link (of any kind of vmar, locked or not), allocate, map and unmap from an empty region is a run of the machine on ranges, call by call, up to the first failed assertion; at the end every region is balanced |
| `VmarRuns.WantedIsWants` | src/mem/vmar.c:203-259 | the place the tree search finds is the one that the machine wants, which knows ranges only |
| `VmarRuns.FamilyIs` | src/mem/vmar.c:447-503 | what an unmap removes is exactly the vmar and all that is linked into it in any number of steps |
| `VmarRuns.Families` | src/mem/vmar.c:448-487 | the assertions of the unmapping hold if and only if nothing in that family is marked, locked or special |
| `VmarNested.FindMapping` | src/mem/vmar.c:388-439 | the one mapping under the root that holds the page, null exactly if there is none; the descent ends because nesting is finite |
| `VmarNested.UnmapInternal` | src/mem/vmar.c:447-503 | unless an assertion fails, the vmar and all below it leave the address space and are marked, nothing else does; each mapping among them is freed once and each vmar below it put once; its region's order lacks it, and every region stays right. An assertion that fails is about a vmar that is marked, locked or special, and then only vmars below have left |
| `VmarNested.Unmap` | src/mem/vmar.c:505-519 | the same, the vmar put too; an assertion fails if and only if the vmar is linked nowhere or something at or below it is marked, locked or special; for a vmar that is unmapped already nothing happens |
| `VmarNested.GoneIsBare` | src/mem/vmar.c:489-502 | what was unmapped is linked nowhere and has no children |
| `VmarNested.FreeVmar` | src/mem/vmar.c:521-527 | only an unmapped vmar is freed, and the address space is one without it |
| `VmarNested.AliveAfterLink` | src/mem/vmar.c:159-179 | after linking no linked vmar counts as unmapped if and only if the child did not, and none did before |
| `VmarNested.MarkedStays` | src/mem/vmar.c:462-470 | if a linked vmar that counts as unmapped is all that is in the way below a region, unmapping the region reaches the assertion that this vmar is not unmapped |
| `BuddyBlocks.XorIsBuddy` | src/mem/phys.c:199-201 | flipping the size bit of a block's address gives its buddy |
| `BuddyBlocks.BuddyOrder` | src/mem/phys.c:219-226 | the lower of two buddies is the address of the merged block |
| `BuddyBlocks.HeadIs` | src/mem/phys.c:144-157 | the block with index i of a level starts at i times its size |
| `BuddyState.SplitTiling` | src/mem/phys.c:144-157 | splitting a block keeps the blocks an exact, disjoint partition of the managed memory |
| `BuddyState.MergeTiling` | src/mem/phys.c:196-227 | so does merging two buddies |
| `BuddyState.CanonicalUnique` | src/mem/phys.c:196-235 | two sets of disjoint blocks without a pair of free buddies that cover the same memory are equal |
| `BuddySteps.MergeTest` | src/mem/phys.c:203-212 | the bit and the level are those of a free buddy of the same size exactly if the buddy is one, whatever stale bits there are |
| `BuddySteps.SplitStep` | src/mem/phys.c:147-157 | one split keeps partition, canonical form, bits, headers and zeroed memory |
| `BuddySteps.MergeStep` | src/mem/phys.c:214-226 | so does one merge |
| `BuddySteps.PutStep` | src/mem/phys.c:229-233 | and putting a block that cannot merge on its list |
| `BuddyHeap.Allocator.Search` | src/mem/phys.c:99-104 | the lowest level from the wanted one that has a free block |
| `BuddyHeap.Allocator.Carve` | src/mem/phys.c:134-162 | a zeroed block of the wanted level that was free, marked allocated; nobody else's memory is touched |
| `BuddyHeap.Allocator.MergeUp` | src/mem/phys.c:196-235 | the block ends up in a free block of the returned level, and every invariant holds |
| `BuddyHeap.Allocator.AddBlock` | src/mem/phys.c:184-236 | the same for a block of new memory |
| `BuddyPages.WholeIff` | src/mem/phys.c:21-27 | a page is wholly free exactly if the free block around it is at least a page |
| `BuddyPages.ShareOf` | src/mem/phys.c:118-132 | how many whole free pages an allocation or a free of a block changes, split and merged pages included |
| `BuddyPages.FreeDetermined` | src/mem/phys.c:196-235 | the free blocks depend on nothing but the managed memory and the allocated blocks |
| `Phys.PhysMem.AllocInternal` | src/mem/phys.c:96-163 | null exactly if no block is large enough or too few pages are available; otherwise the first free block of the lowest level that serves is split, and the zeroed block at its start given, with the right pages committed; a reserved page never fails |
| `Phys.PhysMem.Alloc` | src/mem/phys.c:165-173 | the same for a size, which the block holds |
| `Phys.PhysMem.AllocReserved` | src/mem/phys.c:175-179 | a reserved block of pages fails only if no block is large enough, a page never, and then the reserve is untouched |
| `Phys.PhysMem.FreeInternal` | src/mem/phys.c:184-236 | the block is free; its pages are counted as owed until they are uncommitted |
| `Phys.PhysMem.FreeBlock` | src/mem/phys.c:238-257 | the block is free and its pages are available or reserved again, a split page once it is whole |
| `Phys.PhysMem.OwedIsCommitted` | src/mem/phys.c:245-256 | what is owed is still committed, so the uncommit cannot underflow |
| `Phys.PhysMem.FreeReserved` | src/mem/phys.c:270-279 | the pages go back to the reserve |
| `Phys.PhysMem.AllocateAndFree` | src/mem/phys.c:96-257 | allocating and freeing a block restores exactly the free blocks and the counters |
| `Phys.PhysMem.AddMemory` | src/mem/phys.c:306-330 | the range is managed and free, and its pages are counted |
| `PhysSizes.LevelBySize` | src/mem/phys.c:39-51 | the level of the smallest block that holds the size, -1 if there is none |
| `PhysSizes.PageLevelBySize` | src/mem/phys.c:57-63 | the level whose block is exactly the size, if it is a block of pages |
| `PhysSizes.BestLevel` | src/mem/phys.c:285-304 | the largest level whose block is aligned at the start and fits the range |
| `PhysSizes.ByteSizes` | src/mem/phys.h:9-22 | the smallest block has 64 bytes, the largest 2 MiB, and a block of the page level 4096 |
| `Accounting.StepInv` | src/mem/accounting.c:33-92 | every atomic operation of every thread only moves pages, and the counters are what the threads hold; threads may hand over what they hold |
| `Accounting.CallDoes` | src/mem/accounting.c:50-92 | in every interleaving, each of the eight calls adds to the four counters, by its own steps, exactly what it is for, and nothing if it is refused |
| `Accounting.RunAlone` | src/mem/accounting.c:33-92 | a call without interference is over after at most four steps, and is refused exactly if it takes more than is available |
| `Accounting.RunBalanced` | src/mem/accounting.c:7-92 | in every interleaving no counter is negative, their sum never exceeds the total, and it is the total when no call is under way |
| `Accounting.NoUnderflow` | src/mem/accounting.c:45-48 | the checked subtraction never fails its assertion |
| `Accounting.TakenAtOnce` | src/mem/accounting.c:33-43 | the compare-exchange loop gives what it would give in one step at a moment of the call: if there are enough pages then they are taken at that moment, otherwise nothing changes |
| `Accounting.RefusedRightly` | src/mem/accounting.c:33-43 | a call that is refused saw fewer available pages at a moment while it ran |
| `PageTable.LeavesDiffer` | src/mem/virt.c:51-74 | different pages of the address space reach different leaf slots, for any number of levels |
| `PageTable.IndexIs` | src/mem/virt.c:57-58 | the index in the table of level i is v / 512^i mod 512 |
| `PageTable.Covered` | src/mem/virt.c:56-58 | 512 entries of 8 bytes fill a page; 4 levels reach exactly the pages below 2^36, 5 levels those below 2^45 |
| `PageTable.FourLevels` | src/mem/virt.c:51-74 | with 4 levels: the way through the tables, entry by entry, in literal numbers |
| `PageWalks.StepInv` | src/mem/virt.c:22-74 | every step of every walk keeps the tables a tree, every walk on its way, and every allocated page linked or held by one walk |
| `PageWalks.EntriesStay` | src/mem/virt.c:38-45 | an interior entry is set at most once |
| `PageWalks.WalksAgree` | src/mem/virt.c:51-74 | walks that end, at any times, end at the same slot exactly if they are to the same page |
| `PageWalks.OnePageCommitted` | src/mem/virt.c:38-45 | with no walk under way exactly one page is committed for each present interior entry |
| `PageWalks.StepNearer` | src/mem/virt.c:22-74 | each step brings a walk nearer to its end; it allocates only where it saw no entry, loses the page exactly if an entry is there by then, and gives it back |
| `PageWalks.WalkEnds` | src/mem/virt.c:51-74 | a walk is over after at most 4 steps for each level, whatever the others do |
| `PageWalks.FailsForMemory` | src/mem/virt.c:28-31 | a walk fails only for want of memory |
| `VirtMemory.AddressSpace.GetPte` | src/mem/virt.c:51-74 | the slot of the page, at its number mod 512 in its leaf table; failure only for want of memory; no leaf entry changes |
| `VirtMemory.AddressSpace.ReservePageTables` | src/mem/virt.c:92-105 | on success the tables are there and the pages reserved, on failure the whole reservation is given back |
| `VirtMemory.AddressSpace.Populate` | src/mem/virt.c:107-138 | every page is present, those that were keep their entry, and the reserve is down by those that were not |
| `VirtMemory.AddressSpace.Fault` | src/mem/virt.c:180-183 | the mapping goes on holding a reserved page for every page that is not present |
| `VirtMemory.AddressSpace.Free` | src/mem/virt.c:200-250 | the leaf entries are zero; reserved pages and backing pages are available again, except physical page 0; all of them if and only if no page of the range is on it |
| `VirtMemory.PageZeroIsLost` | src/mem/virt.c:216-248 | an address space with a page backed by page 0: after it is freed, no page is available and no entry is there |
| `VirtMemory.AddressSpace.MapFaultUnmap` | src/mem/virt.c:92-250 | reserve, any faults, free: all counters as before but for new interior tables, all leaf entries as before |
| `VirtMappings.Run` | src/mem/virt.c:92-250 | over any sequence of mapping, faults, populating and unmapping of any number of mappings, each call does what it should, the reserved pages are the sum over the mappings of the pages they miss, and a page that is no longer available belongs to a mapping or a table |
| `VirtMappings.FilledParts` | src/mem/virt.c:107-138 | populating any part of one mapping lowers that sum by the pages that part missed and touches no other mapping |
| `VirtMappings.EmptiedParts` | src/mem/virt.c:200-250 | freeing one mapping lowers it by what the mapping missed and touches no other |
| `Slab.ObjectFits` | src/mem/alloc.c:12-40 | the objects of a slab lie in its page behind the header, are aligned, and lead back to the slab |
| `Slab.AreaIs` | src/mem/alloc.c:29-29 | the objects start at the first aligned place behind the 48 bytes of the header |
| `Slab.StrideIs` | src/mem/alloc.h:84-92 | they stand at the least aligned distance that holds one |
| `Slab.PerSlabIs` | src/mem/alloc.h:93-94 | there are as many as the page has room for |
| `Slab.SlabCache.CreateSlab` | src/mem/alloc.c:16-42 | the free list of a new slab holds each of its objects once, the last one first; on a zeroed page each is zero but for its links, and the space behind it is filled |
| `Slab.SlabCache.Alloc` | src/mem/alloc.c:44-84 | the first free object of the first partial slab, else of the first empty one, and only if there is neither of a new slab in the page; it was not live and is zeroed although only its links are cleared here; a slab that is full now goes to the front of the full ones; null exactly if there is no slab to serve and no page |
| `Slab.SlabCache.Store` | src/mem/alloc.h:84-106 | an owner may store anything into its object; no other object changes |
| `Slab.SlabCache.Free` | src/mem/alloc.c:86-116 | the object is last in the free list of its slab and, whatever was stored in it, zero but for its links; the slab goes to the end of the list it belongs to now |
| `Slab.SlabCache.LiveApart` | src/mem/alloc.h:84-106 | live objects are aligned, inside their page, and do not overlap |
| `Scheduler.LoadStateInv` | src/thread/sched.c:142-172 | the state that the scheduler loads is one of the three it expects, and the step keeps the invariant |
| `Scheduler.SwitchToInv` | src/thread/sched.c:177-189 | the selected thread is ready, and the step keeps the invariant |
| `Scheduler.AfterScheduleInv` | src/thread/sched.c:104-140 | so does finishing a park, dropping a reference, or neither |
| `SchedulerRuns.StepInv` | src/thread/sched.c:90-193 | every step on every CPU keeps the invariant, and no assertion fails |
| `SchedulerRuns.RunInv` | src/thread/sched.c:90-193 | the same over every run |
| `SchedulerRuns.RunningOnce` | src/thread/thread.h:14-17 | a running thread is current on exactly one CPU |
| `SchedulerRuns.ReadyOnce` | src/thread/sched.c:104-122 | a ready thread is once in one queue, or chosen by one CPU, or owed one enqueue |
| `SchedulerRuns.DroppedOnce` | src/thread/sched.c:150-153 | the reference of a dead thread is dropped once, when its CPU runs another thread |
| `SchedulerRuns.UnparkFirst` | src/thread/sched.c:104-172 | in every run: after an unpark at any moment from the load of the parking state on, finish_park finds the thread ready and its CPU queues it, once |
| `SchedulerRuns.ParkFirst` | src/thread/sched.c:104-112 | an unpark after it leaves the thread queued once, by the unpark |
| `SchedulerRuns.EarlyUnparkFails` | src/thread/sched.c:146-172 | an unpark before the state is loaded makes the assertion fail |
| `SchedulerRuns.YieldRunsItself` | src/thread/runq.c:24-36 | a thread that yields is the next to run, with the queue as it was |
| `SchedulerEffects.StartQueues` | src/thread/thread.c:77-80 | in every run: a started thread was idle, is ready at once, and queued once by the next step of its CPU |
| `SchedulerEffects.UnparkQueues` | src/thread/sched.c:104-122 | the same for a parked thread that is unparked |
| `SchedulerEffects.PicksHead` | src/thread/runq.c:29-36 | the CPU runs the head of its queue next, or its idle thread if the queue is empty |
| `SchedulerEffects.ExitDies` | src/thread/thread.c:82-88 | an exiting thread is dead at once, and its reference is dropped, for the first time, when its CPU comes to scheduler_after_schedule |
| `SchedulerEffects.DeadForever` | src/thread/thread.c:82-88 | a dead thread stays dead |
| `SchedulerEffects.DeadNeverRuns` | src/thread/sched.c:150-153 | it is current only where it exited, until that CPU has left it |
| `SchedulerEffects.ParkParks` | src/thread/sched.c:104-112 | a park that is neither aborted nor unparked ends with the thread parked |
| `SchedulerEffects.ParkedUntil` | src/thread/sched.c:104-112 | it stays parked until it is unparked |
| `SchedulerEffects.ParkAborted` | src/thread/thread.h:36-58 | aborting takes the start of a park back |
| `SchedulerEffects.CreatedStarts` | src/thread/thread.c:37-75 | a created thread is idle, nowhere, and can be started |
| `SchedulerEffects.BootRuns` | src/thread/thread.c:111-118 | a CPU begins with its idle thread |
| `SchedulerEffects.IdleGivesWay` | src/thread/sched.c:160-168 | an idle thread that schedules is ready but on no queue |
| `SchedulerEffects.ScheduleEnds` | src/thread/sched.c:142-193 | in the scheduler a CPU has one step to make, and is back in a thread after at most seven |
| `SchedulerEffects.YieldEnters` | src/thread/sched.c:142-168 | the steps of a yield up to the run queue can be made, one after another |
| `SchedulerEffects.YieldLeaves` | src/thread/sched.c:174-193 | and so can the rest |
| `Digits.ReadText` | src/lib/snprintf.c:15-37 | reading the digits of a number gives the number |
| `Digits.DigitIs` | src/lib/snprintf.c:57-63 | the digits are those of 0123456789abcdef |
| `Digits.ReadSignedText` | src/lib/snprintf.c:39-50 | the same for signed values, the most negative one included |
| `Digits.Lengths` | src/lib/snprintf.c:77-77 | a 64-bit value has at most 20 decimal digits, 19 with a sign, and 16 hexadecimal ones |
| `Digits.U64ToA` | src/lib/snprintf.c:15-37 | the canonical decimal digits and a terminator, and nothing else is written |
| `Digits.I64ToA` | src/lib/snprintf.c:39-50 | sign, digits and terminator, and nothing else is written |
| `Digits.U64ToH` | src/lib/snprintf.c:52-68 | the canonical hexadecimal digits and a terminator, and nothing else is written |
| `Snprintf.Convert` | src/lib/snprintf.c:122-185 | every conversion fits the scratch buffer and gives the ideal text |
| `Snprintf.ReadSpec` | src/lib/snprintf.c:95-120 | flag, width and modifiers as the ideal rendering reads them |
| `Snprintf.Flush` | src/lib/snprintf.c:197-211 | the buffer holds what fits of the padded text, and all of it is counted |
| `Snprintf.Format` | src/lib/snprintf.c:70-228 | for every format, arguments and size, the buffer holds the ideal rendering up to the terminator and is unchanged behind it |
| `Snprintf.TerminatorRight` | src/lib/snprintf.c:224-227 | the terminator is behind all that fits if and only if the length does not wrap to less |
| `Snprintf.WidthWraps` | src/lib/snprintf.c:101-107 | a format whose length wraps, so that the buffer is left with the empty string |
| `Standard.SpecOf` | src/lib/snprintf.c:95-120 | a specification that is written as a percent sign, perhaps a 0, digits, any number of l or a z, and a conversion is read as just that: the flag, the width in a machine word, one l for each or for the z, and the position |
| `Standard.ConvertedIs` | src/lib/snprintf.c:122-185 | sign and digits of each conversion as section 7.21.6.1 of C11 has them, but for a null character |
| `Standard.FieldStandard` | src/lib/snprintf.c:95-211 | one conversion gives what that section says if and only if it is none of the three exceptions |
| `Standard.RenderStandard` | src/lib/snprintf.c:70-228 | the same for every list of directives that the section defines, written as a format; the text is never longer than the standard's |
| `Standard.BufferStandard` | src/lib/snprintf.c:224-227 | for such a format, if its text is shorter than 2^64, the buffer holds the standard's text cut to its size, and the terminator is behind it |
| `Standard.NullIsDropped` | src/lib/snprintf.c:147-150 | `%c` with a null character: it is missing |
| `Standard.ZerosBeforeSign` | src/lib/snprintf.c:197-203 | `%05d` with -1: the zeros are in front of the sign |
| `Standard.WideIsCut` | src/lib/snprintf.c:101-107 | a width of 2^64 is none |
| `Standard.UnknownIsKept` | src/lib/snprintf.c:176-182 | an unknown conversion is printed as it is written |
| `Standard.NullString` | src/lib/snprintf.c:166-170 | a null string is printed as (null) |

## Left out

- Boot, interrupts, descriptor tables, context switching and inline assembly: bootloader and processor plumbing.
- Mutex and rwlock internals: their slow paths are unfinished; a guard is an atomic section here.
- Memory orderings weaker than sequential consistency.
- TLB invalidation: the cross-core part is a stub.
- The packing of the buddy bitmap into bytes, and of parent and colour into a word: one element each here.
- Pages of the bitmap that are not backed by memory: the model has a bit for every unit.
- The contents of a list header inside a free block or a free object: one symbol here, not bytes.
- Intrusive list pointers other than those of the tree: lists are sequences.
- `vmar_lock`, `vmar_free`, `vmar_set_name`, the dump and tracing code, cached trees, postorder walks and `rb_replace_node`.
- Reference counts of vmars, and the release of a thread's stack.
- VmarNested.FindMapping: omits the reference and the page-table lock that the code takes on the result.
- VmarNested.UnmapInternal: names the mappings that `virt_free` is called for and the vmars that are put; what the first does to the page tables is in VirtMemory.AddressSpace.Free, and whether the second frees the vmar depends on references that are not modelled.
- VmarSpace.AllocateStatic: a child region with children of its own is left out: by VmarGaps.MovedLaid it would not stay right; LinkInSpace allows it.
- VmarSpace.LinkInSpace: the region must not be under the child, which the code does not check; by VmarUnder.LinkRanked it would make a cycle.
- VmarRuns.Run: `vmar_lock`, which locks vmars later, and linking a vmar that is not new, are not part of these runs.
- The flags of page-table entries other than present and global.
- Phys.PhysMem.Alloc: the counters are those of one call at a time; races between a commit and other threads are in Accounting.
- Slab.SlabCache.CreateSlab: the page is not marked as global.
- VirtMappings.Run: pinned (global) entries are not part of these runs, and a range is mapped only if it is free, which VmarRuns sees to.
- VirtMemory.AddressSpace.GetPte: walks alone; races between walks are in PageWalks.
- Snprintf.Format: reads a missing or mistyped argument as 0, which C leaves undefined, and takes widths modulo 2^64 as the code does.
- Fairness of the run queue: it does not hold.
