# CuteOS: a verified model of its core

CuteOS is a small single-core monolithic kernel. This project models the parts of it whose
correctness is not visible in any one function, and proves what they promise together. All
statements are for all inputs, all table contents, all interleavings or all reachable
states; nothing is bounded, and nothing here runs the kernel.

What is modelled, and the main results:

- **ext2 block trees and the bitmap allocator** (`Ext2Fs`, `Ext2File`, `Ext2Volume`,
  `BlockTree`, `BlockBitmap`). The disk is a map from block numbers to word arrays; a file is
  fifteen slots. Mapping on demand and recursive truncation keep, for any number of files,
  every block in one place of one file, marked used and counted, and change exactly the
  lookups they should.
- **Buddy allocator** (`Buddy`, `BuddyBlocks`). In every reachable state the free blocks are
  the unique canonical decomposition of the free frames, so allocation fails only when it must,
  freeing an allocation is accepted, and it undoes the allocation.
- **Areas of an address space** (`AddressSpace`, `VmaTable`, `VmaMerge`, `VmaChains`). The slot
  table refines a per-address map; munmap and mprotect are exact and all-or-nothing. Whether
  merging keeps file offsets is decided by the order of slots in the table it starts with.
- **Sleep/wake protocol and mutex** (`WaitMutex`). A state machine over every interleaving of
  the steps run under a spinlock: mutual exclusion, no lost wake-up.
- **Page cache** (`Pages`, `CacheState`, `CacheSupply`, `PageCache`, `FileView`, `FileIo`). The cache with
  its dirty list, associations, eviction, clustered write-back and truncation refines a plain
  map of last writes; files read and write as byte arrays on top of it. Every operation gives
  back the references it takes, so as long as memory is granted and one page is not held none
  fails for want of a page. `Resolver` shows that the block trees provide what the cache assumes
  of its resolver.
- **ext2 directories** (`DirBlock`, `DirRecords`, `DirNames`, `Directory`). On the bytes of the
  blocks: records always tile a block, the operations are those of a map from names to inodes,
  and reading can be stopped and resumed anywhere.
- **MLFQ scheduler** (`Mlfq`, `Scheduler`), **signals** (`Signals`, `SignalDelivery`), **kernel
  timers and clocks** (`Timers`, `Clock`), **pipes** (`PipeRing`, `PipeRuns`): consistency over
  every run, no starvation after a boost, never SIGCONT and a stop signal at once, exact
  firing and rounding, first in first out with atomic small writes.

Conventions. Code that updates state in place is a class with methods, or methods that loop,
each proved against a function or relation on values; the properties are lemmas about those.
`Wrappers`, `Seqs` and `Arith` hold an option type and a few facts on sequences and integers. The memory
allocator under the page cache is a sequence of answers, one for each request. Where an invariant is
written under a quantifier over a dummy argument (`Open`, `Peek`, `Audit`), that only keeps it
folded until a proof mentions the dummy. Lists, hash tables and bit masks of the kernel are
sequences, maps and sets; 64-bit and 32-bit arithmetic is written out where it can matter.

Where the code and its documentation or an expected property differ, the model follows the code:

- Merging two file-backed areas downwards moves the start but not the offset
  (`mm/vma.c:117-119`); `VmaChains.OffsetsKeptIffInOrder` gives the exact condition on the table
  and `VmaMerge.OffsetsCanBeSpoiled` an example.
- A tick count converts to a timespec and back unless its seconds exceed 63 bits, which needs
  a 1 Hz clock (`kernel/time.c:325`); `Clock.RoundTrip` states both directions.
- A group signal sent through a task that is not the group's leader would not reach the other
  threads' pending sets (`kernel/signal.c:736`); every caller passes a leader.
- A timer run at the largest tick value does not end while a periodic timer is queued
  (`kernel/time.c:153`); `Timers.RunEndsIff` shows that every other run ends.
- A write that stops early after some bytes does not extend the file's size
  (`fs/ext2/file.c:121-123`). `FileIo.ShortWriteKeepsSize` is such a write; `FileIo.WriteFile`
  says, from the state before it, whether a write completes and where it stops otherwise, as
  long as memory is not refused.
- A write of nothing behind the end of a file moves the end there (`fs/ext2/file.c:132-133`);
  `FileIo.EmptyWrite`. The system calls split a write into pieces that are not empty
  (`syscall/sys_file_io.c:235`), so none reaches this today.
- A block taken for a hole is not zeroed if no page can be had for it, and nobody looks
  (`fs/ext2/balloc.c:81-82`): the hole then shows what the block held before.
  `FileIo.StaleBytesShow` is such a run. It happens if and only if `CacheSupply.Fails` holds
  before the call (`PageCache.Cache.WriteIndex`): the block is not cached and no attempt at
  memory, of which there is at most one more than there are dirty pages, is granted.

## Model

| member | source | states |
|---|---|---|
| `Ext2Volume.FreeBlock` | fs/ext2/balloc.c:143-178 | releasing a block in use takes exactly that block out of the marked set and keeps bitmaps, group counters and the superblock counter in exact agreement; a block that is out of range or not in use leaves the set as it was |
| `Ext2Volume.FindClear` | fs/ext2/balloc.c:113-118 | the scan stops at the lowest clear bit of the group, or the group is full |
| `Ext2Volume.TakeBit` | fs/ext2/balloc.c:124-133 | marking one clear bit adds exactly that block and lowers both counters by one |
| `Ext2Volume.TryGroup` | fs/ext2/balloc.c:100-138 | a group gives its lowest free block, or nothing and then every block of it is in use |
| `Ext2Volume.FindBlock` | fs/ext2/balloc.c:90-141 | first fit from the inode's preferred group round all groups; 0 exactly when no block of the volume is free |
| `Ext2Volume.AllocBlock` | fs/ext2/balloc.c:76-141 | the block handed out was free, is now marked, and holds zeros |
| `BlockBitmap.RoundFull` | fs/ext2/balloc.c:100-107 | if every group the round visits is full, the volume is full |
| `BlockBitmap.FullGroup` | fs/ext2/balloc.c:106-107 | a group counter of zero means every bit of the group is set |
| `BlockTree.LookAfterTrunc` | fs/ext2/inode.c:151-207 | in any tree of any depth, with any holes, a truncated branch finds the old block below the cut and nothing at or above it |
| `BlockTree.TruncBlocks` | fs/ext2/inode.c:151-207 | truncating a branch keeps a subset of its blocks, still without sharing |
| `BlockTree.SizeIsCardinality` | fs/ext2/inode.c:124-149 | counting slot by slot counts every block of an unshared tree once |
| `BlockTree.LoadFrame` | fs/ext2/inode.c:27-99 | a tree read from the disk depends on no block outside it |
| `BlockTree.StoreEntry` | fs/ext2/inode.c:555-571 | storing a child into an indirect block changes exactly that child's subtree |
| `Ext2Volume.FreeChain` | fs/ext2/inode.c:73-99 | freeing an indirect chain releases exactly the blocks of the tree below it |
| `Ext2Volume.CountTree` | fs/ext2/inode.c:124-149 | the count is the number of blocks of the tree |
| `Ext2Volume.TruncateSlot` | fs/ext2/inode.c:151-207 | truncation in place leaves on the disk the truncated tree, releases exactly the blocks that fell out, and writes no block outside the old tree |
| `Ext2Volume.TruncateEntries` | fs/ext2/inode.c:177-192 | the loop over an indirect block truncates every child by its share of the budget and tells whether all became holes |
| `Ext2File.TruncateBranch` | fs/ext2/inode.c:209-220 | one top-level slot truncated, the other fourteen trees untouched |
| `Ext2File.TruncateSlots` | fs/ext2/inode.c:796-829 | the sequence of top-level truncations, with its running budget, is truncation of the whole file |
| `Ext2File.LookAfterTruncate` | fs/ext2/inode.c:792-829 | for every logical block of a file: unchanged below the cut, nothing from it on |
| `Ext2File.BmapReadonly` | fs/ext2/inode.c:732-765 | the read-only lookup finds what the trees mean, and 0 beyond the double-indirect range |
| `Ext2File.AllocBmapBlock` | fs/ext2/inode.c:524-534 | a new block is counted in i_blocks by eight sectors |
| `Ext2File.FillSlot` | fs/ext2/inode.c:660-683 | filling an empty top-level slot grows the file by one unused block and changes no other lookup |
| `Ext2File.FillEntry` | fs/ext2/inode.c:555-571 | filling an empty entry of an indirect block stores one fresh block there |
| `Ext2File.Bmap` | fs/ext2/inode.c:642-730 | mapping a logical block, creating whatever is missing on the way: the file gains exactly the newly marked blocks, the lookup at that index becomes the result, no other lookup moves, and 0 with create means the volume is full |
| `Ext2File.IndBmap` | fs/ext2/inode.c:536-576 | the same for the single-indirect step |
| `Ext2File.DindBmap` | fs/ext2/inode.c:688-729 | the same for the double-indirect step, through a possibly new second-level block |
| `Ext2Fs.Frame` | fs/ext2/inode.c:642-842 | the frame rule: a change that touches only one file's blocks and free blocks leaves every other file's tree, and all disjointness between files, intact |
| `Ext2Fs.MapBlock` | fs/ext2/inode.c:642-730 | on a volume with any number of files: consistency of the volume is kept and only this file changes |
| `Ext2Fs.MapTheorem` | fs/ext2/inode.c:642-765 | create returns the block the read-only lookup then finds; no other index moves; the superblock counter and each group's counter fall by exactly the blocks gained there; i_blocks is eight times the tree (modulo 2^32); failure only when nothing is free; a hole gets a block that was free |
| `Ext2Fs.CountFile` | fs/ext2/inode.c:623-640 | the recount of the whole inode is the size of its fifteen trees |
| `Ext2Fs.FreeInodeBlocks` | fs/ext2/inode.c:101-122 | deleting a file's contents releases exactly its blocks |
| `Ext2Fs.Truncate` | fs/ext2/inode.c:767-842 | EINVAL above 32 bits, no change at equal size, otherwise the truncated file in a consistent volume |
| `Ext2Fs.ShrinkTheorem` | fs/ext2/inode.c:784-841 | shrinking: lookups below keep_blocks unchanged and 0 from there on; the bits cleared are exactly the old tree's blocks minus the new tree's; group and superblock counters rise by exactly their number; i_blocks is eight times what is left (modulo 2^32) |
| `Ext2Fs.CountersFollow` | fs/ext2/balloc.c:143-178 | releasing a set of blocks raises each group's counter by the part in that group and the total by its size |
| `BuddyBlocks.RunInBlock` | mm/buddy.c:79-244 | in a canonical set of blocks every aligned free run lies inside one block |
| `BuddyBlocks.CanonicalIsMaximal` | mm/buddy.c:217-241 | the blocks of a canonical set are exactly the maximal aligned free runs |
| `BuddyBlocks.CanonicalUnique` | mm/buddy.c:217-241 | two canonical sets covering the same frames are equal |
| `BuddyBlocks.ServableIffRun` | mm/buddy.c:138-146 | a block of some order or above exists exactly when an aligned free run of that size does |
| `Buddy.Allocator.constructor` | mm/buddy.c:79-130 | the initial free blocks are the canonical decomposition of the free range |
| `Buddy.Allocator.PickOrder` | mm/buddy.c:114-119 | the largest order aligned at the index that still fits |
| `Buddy.Allocator.HandOver` | mm/buddy.c:111-126 | the greedy hand-over covers exactly the free range, canonically |
| `Buddy.Allocator.AddFreeBlock` | mm/buddy.c:52-69 | list, head page, counters and free set change together |
| `Buddy.Allocator.RemoveFreeBlock` | mm/buddy.c:71-77 | the same in reverse |
| `Buddy.Allocator.SplitDown` | mm/buddy.c:160-170 | splitting from one order to another leaves the upper halves free and covers the same frames |
| `Buddy.Allocator.GetFreePage` | mm/buddy.c:132-179 | NULL exactly when no aligned run of 2^order free frames exists; otherwise an aligned block that was free, now live and accepted by a later release, and the free set is canonical again |
| `Buddy.Allocator.MergeOnce` | mm/buddy.c:217-233 | one round joins a block with its free buddy of equal order or stops |
| `Buddy.Allocator.Coalesce` | mm/buddy.c:217-238 | the loop ends with no free buddy and the same frames covered |
| `Buddy.Allocator.FreePage` | mm/buddy.c:181-244 | accepts exactly the live blocks, with their order, that are no slab pages; the free set is canonical again; a refused release changes nothing |
| `Buddy.GuardsDecide` | mm/buddy.c:181-213 | the checks in front of a release let through exactly the live blocks with their own order that are no slab pages |
| `Buddy.Allocator.AllocateAndFree` | mm/buddy.c:132-244 | releasing an allocation straight away is accepted and restores the free-block set, the live allocations and the page counter |
| `Buddy.RoundTrip` | mm/buddy.c:132-244 | taking a run and giving it back leads to the very same free-block set, since only one canonical set covers those frames |
| `Buddy.ReleaseOrder` | mm/buddy.c:181-244 | releasing the same blocks, however many, in any order gives the same free-block set |
| `Buddy.FreeBlocksAreMaximalRuns` | mm/buddy.c:52-244 | in every valid allocator the free blocks are exactly the maximal aligned free runs |
| `Buddy.BlocksNeverOverlap` | mm/buddy.c:132-244 | free blocks and live allocations are aligned, in range and pairwise disjoint |
| `Buddy.PageCounter` | mm/buddy.c:52-77 | nr_free_pages is the sum of nr_free[o] * 2^o |
| `VmaTable.SplitFacts` | mm/vma.c:128-148 | cutting an area in two changes nothing a program sees at any address, file offsets included, and keeps areas disjoint |
| `VmaTable.CutOutFacts` | mm/vma.c:234-282 | taking a range out of one area unmaps exactly its addresses and keeps every other address as it was |
| `VmaMerge.MergeView` | mm/vma.c:103-126 | one merge keeps every address's mapping, flags, type, file and sharing, and shifts the offset only in the downward branch |
| `VmaMerge.MergeAllFacts` | mm/vma.c:103-126 | merging to the end leaves no mergeable pair, keeps disjointness and every address's attributes other than the offset |
| `VmaMerge.OffsetsKeptIff` | mm/vma.c:115-119 | file offsets survive merging at every address if and only if no merge of file-backed areas takes the downward branch |
| `VmaMerge.OffsetsCanBeSpoiled` | mm/vma.c:117-119 | a table where merging moves a file offset |
| `VmaChains.AllKeepIffInOrder` | mm/vma.c:103-126 | no merge of the run takes the downward branch if and only if, in the table at the start, the lowest area of every chain of mergeable file-backed areas sits in the chain's lowest slot |
| `VmaChains.OffsetsKeptIffInOrder` | mm/vma.c:103-126 | the same condition on the starting table decides whether every address keeps its file offset |
| `AddressSpace.Mm.AllocSlot` | mm/vma.c:31-38 | the first free slot |
| `AddressSpace.Mm.FindVma` | mm/mmap.c:508-516 | the first slot holding the address |
| `AddressSpace.Mm.FreeSlot` | mm/vma.c:40-45 | the slot is emptied and the file reference given back |
| `AddressSpace.Mm.FreeSlotCount` | mm/vma.c:47-57 | the number of free slots |
| `AddressSpace.Mm.MunmapSlotsNeeded` | mm/vma.c:150-171 | the number of areas the range lies strictly inside of |
| `AddressSpace.Mm.SplitAt` | mm/vma.c:128-148 | fails exactly when a split is needed and no slot is free; otherwise the split table, references balanced |
| `AddressSpace.Mm.UnmapRange` | mm/vma.c:234-282 | the cut-out table, or ENOMEM and nothing changed |
| `AddressSpace.Mm.UnmapRangeLocked` | mm/mmap.c:722-750 | munmap is all or nothing: ENOMEM exactly when the precheck fails and then nothing changes; otherwise exactly the range is unmapped, every other address keeps flags, type, file and offset, and references per file change with the slots naming it |
| `AddressSpace.Mm.MprotectSlotsNeeded` | mm/vma.c:173-190 | the precheck counts exactly the areas that contain either end |
| `AddressSpace.Mm.SplitAll` | mm/vma.c:202-219 | after the precheck splitting cannot fail, and uses exactly the counted slots |
| `AddressSpace.Mm.UpdateFlagsRange` | mm/vma.c:221-232 | areas inside the range get the new flags |
| `AddressSpace.Mm.RangeIsMapped` | mm/vma.c:192-200 | true exactly when every page of the range is mapped |
| `AddressSpace.Mm.MayWrite` | mm/mmap.c:1379-1389 | true exactly when no page belongs to a shared mapping of a file not open for writing |
| `AddressSpace.Mm.MergeAreas` | mm/vma.c:103-126 | the in-place loop computes the merged table and ends because each merge frees a slot |
| `AddressSpace.Mm.AbsorbSlot` | mm/vma.c:112-122 | one merge in place, with the absorbed slot's file reference given back |
| `AddressSpace.Mm.Protect` | mm/mmap.c:1366-1411 | mprotect fails without a change exactly in its three cases; otherwise precisely the mapped addresses of the range have the new flags and nothing else a program sees changes, file offsets included if and only if the chains of the split table are in order; that table is a function of the old one |
| `WaitMutex.WakeOne` | kernel/waitqueue.c:400-427 | wakes the first waiter that is asleep and takes its entry off the channel; none is woken only if none is asleep |
| `WaitMutex.UnlockKeeps` | kernel/mutex.c:72-84 | unlocking keeps the protocol's invariant: if a waiter stays asleep, another was woken |
| `WaitMutex.ProbeKeeps` | kernel/mutex.c:5-21 | a probe, before or after setting the sleep state, keeps the invariant |
| `WaitMutex.NextKeeps` | kernel/waitqueue.c:255-345 | every step of every task keeps the invariant |
| `WaitMutex.EveryRunKeeps` | kernel/waitqueue.c:180-345 | the invariant holds after every interleaving of lockers, unlockers and spurious wakes |
| `WaitMutex.MutualExclusion` | kernel/mutex.c:5-84 | at most one task holds the mutex, and the owner field names it |
| `WaitMutex.AcquiredOnce` | kernel/mutex.c:49-70 | each lock call that returns has taken the mutex exactly once, however often it slept |
| `WaitMutex.SleepersAreOnChannel` | kernel/waitqueue.c:180-209 | every sleeping waiter is on the channel |
| `WaitMutex.NobodySleepsOnAFreeMutex` | kernel/waitqueue.c:293-336 | whenever the mutex is free and a waiter is stuck asleep, another waiter is awake in its loop |
| `WaitMutex.ProbeComes` | kernel/waitqueue.c:293-336 | that waiter's own next steps are always possible and lead to a probe that takes the mutex |
| `Pages.ShowsLastWrite` | block/page_cache.c:163-229 | what a program sees in a block, cached bytes if up to date and else the disk, is the last write to it |
| `Pages.CleanMeansSynced` | block/page_cache_writeback.c:175-185 | with an empty dirty list the disk is the map of last writes |
| `Pages.HitIsResolved` | block/page_cache.c:246-261 | an association found leads to the block the resolver would return now |
| `Pages.EvictKeeps` | block/page_cache.c:105-120 | freeing a clean page, with its associations, keeps the invariant |
| `Pages.NewPageKeeps` | block/page_cache.c:136-161 | a new page for an uncached block keeps at most one page per block |
| `Pages.LoadKeeps` | block/page_cache.c:163-177 | reading a page that is not up to date brings in the last write |
| `Pages.SyncKeeps` | block/page_cache_writeback.c:61-81 | writing a page out and clearing its dirty flag keeps the invariant |
| `Pages.StoreKeeps` | block/page_cache_dirty.c:24-35 | changing a page and marking it dirty is one write to the map of last writes |
| `Pages.DropKeeps` | block/page_cache_alias.c:72-75 | clearing a page whose last association is gone forgets what was not yet on the disk, and nothing else |
| `Pages.FillKeeps` | fs/ext2/file.c:22-33 | filling a hole invalidates no association |
| `Pages.CutKeeps` | fs/ext2/inode.c:790-828 | cutting a block map is safe once the associations behind the cut are gone |
| `PageCache.Cache.Find` | block/page_cache.c:40-52 | the cached page of a block, if there is one |
| `PageCache.Cache.EvictOne` | block/page_cache.c:122-134 | evicts a clean page nobody holds, exactly when there is one; pages held keep their contents |
| `PageCache.Cache.FreePage` | block/page_cache.c:105-120 | the page, its LRU entry and its associations go together |
| `PageCache.Cache.Alloc` | block/page_cache.c:136-161 | a page for the block within the limit of 512 exactly when there is room, by a free slot or an eviction, and both requests for memory are granted; how many requests were made |
| `PageCache.Cache.SyncPage` | block/page_cache_writeback.c:61-81 | one page written out |
| `PageCache.Cache.FindOrAlloc` | block/page_cache.c:188-215 | the retry loop ends because each round shortens the dirty list; with the create flag it comes back without a page if and only if the state before it and the answers to its requests say so; no reference is taken or lost |
| `CacheSupply.AttemptTells` | block/page_cache.c:188-215 | what one attempt and the write-out after it tell about the whole search |
| `CacheSupply.NeverAsksIff` | block/page_cache.c:136-215 | a search asks for no memory exactly when every page of a full cache is held, however many pages are dirty |
| `CacheSupply.FailsIffCrowded` | block/page_cache.c:136-215 | if memory is granted, a search fails exactly when the block is not cached and every page is held |
| `PageCache.Cache.Get` | block/page_cache.c:179-229 | the held page of a block, up to date with the last write if reading was asked for; creating fails if and only if the state before the call and the answers for memory say so, and then memory was refused or the block is not cached and all 512 pages are held; one reference more if it succeeds, none if not |
| `CacheState.CrowdedIs` | block/page_cache.c:136-140 | all references out on 512 pages of other blocks is the same as a full cache of held pages without that block |
| `CacheState.TakenWasFree` | block/page_cache.c:179-229 | whoever was given a page for a block did not find all pages held by others |
| `PageCache.Cache.ReadPage` | block/page_cache.c:163-177 | after it the page holds the last write |
| `PageCache.Cache.Put` | block/page_cache.c:289-300 | gives one reference back |
| `PageCache.Cache.ZeroBlock` | fs/ext2/balloc.c:76-88 | the block reads as zeros afterwards if and only if a search for its page does not fail; otherwise nothing changed |
| `PageCache.Cache.ResolveIndex` | fs/ext2/file.c:12-34 | the block of an index; a hole is ENODATA, ENOSPC, or filled with the block given, zeroed if and only if a search for its page does not fail |
| `PageCache.Cache.FindMapping` | block/page_cache.c:82-103 | the first association of the index |
| `PageCache.Cache.AddAssoc` | block/page_cache_alias.c:24-56 | the new association is sound |
| `PageCache.Cache.GetMapping` | block/page_cache.c:231-281 | with any flags, hit or miss, the page returned is the one behind the index now; nothing but a hole being filled changes; no page only for ENODATA, ENOSPC without a block, or ENOMEM when memory was refused or the block is not cached and all pages are held |
| `PageCache.Cache.ReadIndex` | fs/ext2/file.c:69-82 | a block of a file reads as its last contents, a hole as zeros; if memory is not refused it fails exactly for a block not cached while all pages are held; references are as before |
| `PageCache.Cache.WriteIndex` | fs/ext2/file.c:107-127 | a block of a file is patched and no other block of any file changes; on failure the block shows what it showed; a hole filled with a block that could not be zeroed shows that block's old bytes, if and only if the search for its page fails; if memory is not refused the write succeeds exactly when a page can be had |
| `PageCache.Cache.RemoveAssoc` | block/page_cache.c:374-379 | an association goes, and its page is dropped if it was the last |
| `PageCache.Cache.TruncateMapping` | block/page_cache.c:343-383 | no association from the new end on is left; every surviving block reads as before, but for zeros behind the end in the last one |
| `PageCache.Cache.ZeroTail` | fs/ext2/inode.c:222-250 | the last block kept is zero behind the new end, on the disk too; fails only over a mapped last block for which no page can be had |
| `PageCache.Cache.Shrink` | fs/ext2/inode.c:790-828 | after a truncation the file reads as before up to the new end and as zeros behind it, and every other file is as it was; it gives up only over a partly kept last block when memory was refused or all pages are held, with the blocks to be kept intact |
| `PageCache.Cache.GatherRun` | block/page_cache_writeback.c:101-112 | a run is at most 32 dirty pages of consecutive blocks, beginning with the one given; the others are wanted pages from places further and further back in the dirty list, and unless the run is full no wanted page behind the last would continue it |
| `PageCache.Cache.WriteBlocks` | block/page_cache_writeback.c:124-127 | one device write puts every page of the run at its own block |
| `PageCache.Cache.WriteRun` | block/page_cache_writeback.c:83-136 | clustered write-back keeps the invariant and shortens the dirty list |
| `PageCache.Cache.SyncMapping` | block/page_cache_writeback.c:138-168 | ends with every page of the mapping on the disk |
| `PageCache.Cache.SyncAll` | block/page_cache_writeback.c:175-185 | terminates with the disk equal to the map of last writes |
| `FileIo.ReadFile` | fs/ext2/file.c:40-86 | the bytes returned are the file's bytes; if memory is not refused, all that were asked for inside the file come back exactly when every mapped block of the range is cached or some page is not held, and otherwise everything up to the first block for which that fails; references are as before |
| `FileIo.WriteFile` | fs/ext2/file.c:88-140 | after writing n bytes exactly those positions of that file hold those bytes and the holes up to there are filled in order; nothing else in any file changed, but for holes whose block could not be zeroed, which show its old bytes; if memory is not refused the write completes exactly when there are blocks for the holes in its range and a page can be had for each index, and otherwise stops at the first index where that fails; the size is stated exactly |
| `FileIo.FillHolesResolve` | fs/ext2/file.c:100-127 | which block every index of every file has once the holes of a range were filled in order |
| `FileIo.ShortWriteKeepsSize` | fs/ext2/file.c:121-133 | a write of two blocks into an empty file with one block left writes one block and leaves the size 0 |
| `FileIo.EmptyWrite` | fs/ext2/file.c:132-133 | a write of nothing changes no map, and changes the size exactly when it is behind the end and below the largest size, and then to its position |
| `FileIo.StaleBytesShow` | fs/ext2/balloc.c:76-88 | a run in which a hole that read as zeros shows the old bytes of its new block after a write to another byte of it |
| `Resolver.ResolverIsInjective` | fs/ext2/inode.c:732-765 | in a consistent volume no block belongs to two indices of any files |
| `Resolver.MappingFills` | fs/ext2/file.c:22-33 | mapping a hole on demand fills it in the resolver's map with a block no file had |
| `Resolver.TruncationCuts` | fs/ext2/inode.c:784-828 | truncating a file cuts exactly the indices from keep_blocks on out of the resolver's map |
| `DirBlock.InitFacts` | fs/ext2/dir.c:51-60 | a record written into a block's bytes reads back as that record and disturbs no byte outside it |
| `DirBlock.Rewrite` | fs/ext2/dir.c:80-286 | replacing the bytes of some records leaves every other record of the block as it was |
| `DirRecords.FindIn` | fs/ext2/dir.c:100-113 | finds the name in the block, or the block has no live record of that name |
| `DirRecords.AddIn` | fs/ext2/dir.c:147-193 | the first record with room, dead or with slack, takes the entry; the block stays tiled and gains exactly that entry; no room anywhere otherwise |
| `DirRecords.DeleteIn` | fs/ext2/dir.c:237-261 | the record is swallowed by the one before it, or marked dead if first; the block loses exactly that entry |
| `DirRecords.SplitFacts` | fs/ext2/dir.c:170-178 | splitting a record behind its own name keeps the tiling and adds one entry |
| `DirRecords.MergeFacts` | fs/ext2/dir.c:246-247 | swallowing the next record keeps the tiling and drops one entry |
| `DirNames.AddedMap` | fs/ext2/dir.c:119-218 | one more entry with a new name is an insertion into the name map |
| `DirNames.DroppedMap` | fs/ext2/dir.c:220-265 | one entry less is a removal from the name map |
| `Directory.Dir.FindEntry` | fs/ext2/dir.c:80-117 | finds a name exactly when the name map has it, bound as the map says |
| `Directory.Dir.AddEntry` | fs/ext2/dir.c:119-218 | EEXIST exactly when the name is bound; otherwise insertion, with a new block only if every block is full, or ENOSPC and no change; names stay unique across blocks |
| `Directory.Dir.DeleteEntry` | fs/ext2/dir.c:220-265 | exactly removal; ENOENT exactly when the name is not bound |
| `Directory.Dir.ReplaceEntry` | fs/ext2/dir.c:267-286 | exactly update of a bound name; ENOENT otherwise |
| `Directory.Dir.ReadDir` | fs/ext2/dir.c:705-751 | emits a prefix of the live entries left, and the position it stops at is where the rest begins |
| `Directory.Dir.ReadInParts` | fs/ext2/dir.c:705-751 | stopped and resumed at any refusals, the parts are the live entries in order, each once, exactly as many as the calls had room for, and the last call is not refused exactly when there was room for all |
| `Mlfq.NextKeeps` | sched/mlfq.c:57-177 | queues, bitmap, counter, level tags and slices agree after every operation, and queued are exactly the runnable tasks other than the current one |
| `Mlfq.AlwaysConsistent` | sched/sched.c:6-43 | that holds in every state reached from boot |
| `Mlfq.BoostPlaces` | sched/mlfq.c:124-152 | after a boost the top queue is the old queues 0, 1, 2, 3 end to end, all tasks at the top level |
| `Mlfq.SwitchAdvances` | sched/sched.c:29-40 | a switch dispatches the head of the top queue and moves everyone behind it up |
| `Mlfq.NoStarvation` | sched/sched.c:6-43 | a task at position k of the top queue runs within k+1 calls of schedule, whatever is started, woken, ticked, boosted or torn down meanwhile |
| `Scheduler.RunQueue.Enqueue` | sched/mlfq.c:57-68 | a task goes to the tail of its level, bit and counter with it |
| `Scheduler.RunQueue.Dequeue` | sched/mlfq.c:70-82 | a queued task leaves its queue; nothing happens if it is not queued |
| `Scheduler.RunQueue.FirstMarked` | sched/mlfq.c:105-114 | the lowest non-empty level |
| `Scheduler.RunQueue.Boost` | sched/mlfq.c:124-152 | the walk over all levels computes the concatenation, level by level and task by task |
| `Scheduler.RunQueue.Tick` | sched/mlfq.c:154-177 | one tick of the slice, a drop of a level at its end, a boost once a second |
| `Scheduler.RunQueue.Schedule` | sched/sched.c:6-43 | the switch: idle only when nothing is queued, a runnable previous task back on its queue |
| `Scheduler.RunQueue.WakeTask` | sched/sched.c:71-79 | a woken task is runnable, queued unless it is the current one, with a fresh slice |
| `Signals.SendThreadKeeps` | kernel/signal.c:661-686 | a thread-directed signal leaves its target without the opposite signals and no thread in conflict |
| `Signals.SendGroupKeeps` | kernel/signal.c:707-747 | a group signal through the leader leaves no thread with the opposite signals |
| `Signals.SendGroupKeepsIff` | kernel/signal.c:737-744 | through a task that is not the leader, no thread ends in conflict if and only if none but the target had an opposite signal of its own |
| `Signals.SendGroupCanConflict` | kernel/signal.c:737-744 | such a conflict; every caller in the kernel passes a leader |
| `Signals.KillIsDeliverable` | kernel/signal.c:1178-1201 | a pending SIGKILL or SIGSTOP is always deliverable |
| `Signals.SuspendGivesMaskBack` | kernel/signal.c:1122-1140 | sigsuspend gives the old mask back exactly: when its wait fails, on the way to user mode, or through a handler that leaves its frame alone and sigreturn; a running handler has its mask and, unless SA_NODEFER, its signal blocked |
| `Signals.NextKeeps` | kernel/signal.c:531-747 | every send, mask change, delivery, clone and exit keeps the invariant |
| `Signals.NeverInConflict` | kernel/signal.c:531-747 | over every run no thread sees SIGCONT and a stop signal pending at once, and no mask blocks SIGKILL or SIGSTOP |
| `SignalDelivery.ThreadGroup.SendSignal` | kernel/signal.c:661-686 | EINVAL, ESRCH, or exactly the thread-directed send |
| `SignalDelivery.ThreadGroup.SendGroupSignal` | kernel/signal.c:707-747 | EINVAL, ESRCH, or exactly the group send, by a loop over the thread list |
| `SignalDelivery.ThreadGroup.NextSignal` | kernel/signal.c:1178-1201 | the lowest deliverable signal, and whether only the shared set has it |
| `SignalDelivery.ThreadGroup.TakeFromSet` | kernel/signal.c:1104-1120 | the lowest wanted signal of the thread's own, else of the shared set, taken |
| `Clock.ProductsFit` | kernel/time.c:37-40 | no product in the conversions exceeds 64 bits |
| `Clock.DeltaIsLeast` | kernel/time.c:380-403 | the delta is the least tick count not shorter than the request, capped at the largest one |
| `Clock.OnlyOneHertzOverflows` | kernel/time.c:320-327 | the seconds of a tick count fit unless the frequency is 1 Hz and the count has its top bit set |
| `Clock.RoundTrip` | kernel/time.c:320-403 | ticks to timespec and back is the identity if and only if the seconds fit; otherwise it is EINVAL |
| `Clock.RoundTripCanFail` | kernel/time.c:325-325 | 2^63 ticks at 1 Hz do not come back |
| `Clock.Realtime.Set` | kernel/time.c:360-378 | refuses exactly the invalid values and those before the monotonic clock; the offset is the exact difference if and only if that is representable, as it is whenever the monotonic seconds are |
| `Clock.Realtime.Now` | kernel/time.c:329-358 | the carried sum, or the last representable time if it is later or the sum of the seconds overflows either way |
| `Clock.ReadsSetPlusElapsed` | kernel/time.c:329-378 | after every successful set the clock reads the set value plus the time elapsed, capped: if the monotonic seconds fitted at the set, exactly as long as they fit; if not, exactly if the difference could be stored or the time to read is the last one |
| `Timers.InsertSorts` | kernel/time.c:132-146 | insertion keeps the queue sorted and adds exactly one timer |
| `Timers.PeriodsIsLeast` | kernel/time.c:148-156 | the least positive number of intervals that passes now |
| `Timers.NextIntervalDeadline` | kernel/time.c:148-156 | the loop finds the least expires + k * interval above now, saturating |
| `Timers.RequeuedIsLater` | kernel/time.c:513-518 | a re-queued timer is later than now if and only if now is not the end of time |
| `Timers.RearmedFacts` | kernel/time.c:494-524 | what is left after a run is sorted, later than now, and is the timers not due plus each periodic timer that fired, once |
| `Timers.RunGoesOn` | kernel/time.c:494-524 | at the largest tick a queue with a periodic timer still has a periodic timer due after any number of rounds |
| `Timers.RunEndsIff` | kernel/time.c:494-524 | a run ends if and only if it is not at the largest tick or no timer is periodic |
| `Timers.TimerQueue.Insert` | kernel/time.c:132-146 | after every timer that expires no later, before every later one |
| `Timers.TimerQueue.Arm` | kernel/time.c:464-477 | a timer is queued once, at its new place |
| `Timers.TimerQueue.Cancel` | kernel/time.c:479-492 | the timer is gone, and whether it was queued is told |
| `Timers.TimerQueue.DetachFirstExpired` | kernel/time.c:158-172 | the head, if it is due |
| `Timers.TimerQueue.RunExpired` | kernel/time.c:494-524 | ends; fires exactly the timers due on entry, each once, in order of expiry and then arrival; one-shots go, periodic ones are queued again at their next expiry |
| `PipeRing.CopyAppends` | fs/pipe.c:186-201 | copying at the head of the ring, short of its end, appends |
| `PipeRing.TailDrops` | fs/pipe.c:179-184 | moving the tail drops the oldest bytes |
| `PipeRing.Pipe.CommitWrite` | fs/pipe.c:186-204 | the wrap loop ends with exactly the bytes appended |
| `PipeRing.Pipe.TakeChunk` | fs/pipe.c:272-281 | takes the oldest bytes that lie in one piece |
| `PipeRing.Pipe.WriteRegion` | fs/pipe.c:305-341 | one locked region of a write decides and writes as specified |
| `PipeRing.Pipe.ReadRegion` | fs/pipe.c:256-284 | one locked region of a read decides and takes as specified |
| `PipeRuns.NextKeeps` | fs/pipe.c:243-344 | every locked region of every call keeps the stream invariant |
| `PipeRuns.PipeIsFifo` | fs/pipe.c:243-344 | for every interleaving, bytes delivered followed by bytes buffered are the bytes written |
| `PipeRuns.SmallWritesAreAtomic` | fs/pipe.c:289-344 | a write of at most PIPE_BUF bytes is in the stream in one stretch or not at all |
| `PipeRuns.LongWritesStayInOrder` | fs/pipe.c:305-341 | a longer write's pieces are in order and are what it reports |
| `PipeRuns.ReadsReturnTheirPieces` | fs/pipe.c:243-287 | a read returns the pieces it took, in order |

## Left out

- Ext2Volume, Ext2File and Ext2Fs work on values: a method takes a volume and returns the changed one. Update in place of the cached pages is covered by the page-cache model, not there; sharing of page buffers is not modelled.
- Ext2Fs.Truncate: does not state the zeroing of the last block's tail, because data blocks have no contents there; `PageCache.Cache.Shrink` states it.
- Ext2File.Bmap: a failing device write while growing a file is not modelled; block I/O succeeds.
- Ext2Fs.MapTheorem, Ext2Fs.ShrinkTheorem: i_blocks is stated modulo 2^32, its width on disk.
- Ext2Volume.FindBlock, Ext2Volume.FreeBlock, Ext2Volume.FreeChain, Ext2Volume.AllocBlock: the bitmap and indirect blocks can always be read and a new block always zeroed. With memory refused the kernel finds no block on a volume that is not full (`fs/ext2/balloc.c:111-112`), releases nothing (`:163-164`), gives up a chain (`fs/ext2/inode.c:87-96`), and takes the old bytes of an indirect block that was not zeroed for pointers; `CacheSupply.Fails` says when a page cannot be had.
- Fast symlinks, device inodes, inode allocation and bg_used_dirs_count: outside the block-tree and counter invariants.
- Buddy.Allocator.FreePage: the conversion between addresses and frame numbers and the panics on corrupted lists are not modelled; a refused call is one the checks in front of the release reject.
- Page tables, page faults, mmap placement, brk, mremap, mlock, msync and populate: architecture code, or plumbing over the same area facts.
- WaitMutex: waits with a deadline, interruptible and killable waits, and waits on several channels; the mutex uses none of them.
- PageCache.Cache.TruncateMapping: asks that every associated page is up to date, which every complete operation establishes; a page caught between being associated and being filled is not covered.
- PageCache.Cache.GetMapping: the 2^32-byte limit on file indices (EFBIG) is applied in `FileIo`, not in the resolver.
- The hash buckets of the page cache, failing device I/O, the writeback flag and concurrent use of one page: the cache is used one operation at a time.
- FileIo.WriteFile: the data blocks the allocator would hand out are a parameter; the indirect blocks a hole may need besides are in `Ext2File`.
- Directory.Dir.AddEntry: whether a further block can be allocated is a parameter; a damaged block, at which the kernel's walks stop early, is outside the model because the operations keep every block tiled.
- Directory creation, rename, link counts and dot-dot updates: sequences of the operations modelled.
- Mlfq: the tick statistics (sched_ticks, enqueue_jiffies, CPU time) and the wrap of the 32-bit task counter.
- Signals: siginfo contents, signal frames, dispositions, stopping and waking of the target.
- Timers.TimerQueue.RunExpired: callbacks do not arm or cancel timers; a run that never ends is not a method but is described by `Timers.RunEndsIff`.
- Interval timers and POSIX timer tables: clients of the queue modelled.
- Pipe splicing to a file, polling, and liveness of several blocked readers.
- Trap entry, context switch, drivers, terminals, sessions, exec, futexes, event polling, system-call wrappers and formatting: hardware, ABI plumbing or easier members.
