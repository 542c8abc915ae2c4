# Verified models of the DeodeokOS kernel algorithms

DeodeokOS is a 64-bit teaching kernel written in C.  This project models its self-contained algorithms in
Dafny and proves what they keep and promise.

| component | files | main results |
|---|---|---|
| Buddy allocator | BlockGeometry, AllocationMap, MetadataLayout, BitBytes, Bitmaps, AllocatorSteps, DynamicMemory | the bitmaps always show exactly the largest free aligned runs; allocated and free blocks partition the pool; NULL exactly when nothing fits |
| Write-back cache | CacheTable, CachedArea | the cache always holds the blocks used last over the whole history; a cached area behaves as the uncached one; a flush makes the disk agree |
| Cluster-chain file system | LinkTable, FileContent, DiskFormat, FileSteps, FileHandles, DirectorySteps, FileStreams, FileSystem | links, directory and handles stay together over every operation; an open file acts as a byte sequence with a cursor and a fixed capacity; what is stored under a name is loaded under it |
| Tasks | TaskState, TaskSteps, Starvation, Reaper, TaskRuns, Turns, Endings, Task, List | every task is in one place over every run; every turn goes to the level that is due; no ready task starves; an ended task never runs again and is freed |
| FPU switch | FpuSwitch | lazy switching refines eager saving and restoring in every run until the id counter has gone round |
| Locks | Locks, LockProgress, SpinLock, SpinLocks, SpinProgress | mutual exclusion at single memory operations, nobody waits in vain, exactly when the 32-bit count breaks it, well-nested spin locks restore the interrupt flag in every interleaving |
| Serial transfer | SerialTransfer | no deadlock, bounded runs, complete file |
| Number text | NumberText, Utility | printing and parsing are inverse |

`Sequences` holds a few notions shared by all of them.

Code that changes state in place is a class whose methods are proved against functions of the old state; the
properties are lemmas about these functions and invariants that every method keeps.  Protocols between tasks,
cores or machines are step systems over single operations, and their theorems are about every run.

## Where the code departs from its intent

The model follows the code.  Each departure is stated exactly:

- `1024 << level` is an int shift, so the 2 GB block of a pool of 2^21 cells or more is never handed out (ShiftOverflowGap).
- The free-cluster search looks at none of the last 128 clusters when the total is a multiple of 128 (SearchIsComplete); a disk of 1032 sectors looks full from the start (SmallDiskLooksFull, CannotCreateOnSmallDisk).
- The bounds check of the link reader lets one sector too many through (GetClusterLinkData).
- The directory lookup compares only as many characters as the name given has (LookupIsExact, LookupTakesPrefix).
- A seek behind the end of file but into its last cluster is not filled with zeros (SeekFile).
- Removing a file with a name of no or too many characters reports 0 (RemoveFile).
- Discarding the cache leaves the change marks set (DiscardAllCacheBuffer).
- Priority 5 passes the bounds check and drops the task, and ids of dead tasks change the slot's new task (ChangePriorityExact, EndTaskExact); creation checks no priority (CreateExact).
- Removing the tail of a list leaves a stale pointer behind the new tail (RemoveList, RemovedTailIsFoundAgain).
- The lock count is 32 bits wide: an unlock at depth 2^32 k or 2^32 k + 1 gives the lock back too early, and that is the only way the lock fails (StepExact, WrappingBreaksExclusion).
- A task id given out again while the FPU still holds the registers of its first owner makes the new task see or lose registers, and that is the only way the lazy switch fails (FpuSwitch.CreateExact, ReissuedIdLeaks).
- Spin locks that are not released in reverse order turn interrupts on too early (WhenInterruptsComeBackTooEarly, TooEarlyInEveryRun).
- The least long is printed as a bare sign (LongRoundTrip).

## Model

| member | source | states |
|---|---|---|
| AllocationMap.PoolIsPartitioned | volumes/02.Kernel64/Source/DynamicMemory.c:114-152 | every cell of the pool lies in exactly one block: one allocated block of the index, or one free block shown by the bitmaps |
| AllocationMap.CellsAddUp | volumes/02.Kernel64/Source/DynamicMemory.c:114-152 | the sizes of the allocated blocks and the number of free cells add up to the pool |
| AllocationMap.AllocateStep | volumes/02.Kernel64/Source/DynamicMemory.c:114-152 | recording a block at a wholly free aligned place keeps all allocated blocks aligned, inside the pool and apart, and takes exactly its cells |
| AllocationMap.ReleaseStep | volumes/02.Kernel64/Source/DynamicMemory.c:285-319 | erasing a block frees exactly its cells and keeps the others |
| AllocationMap.AllFreeIsBinaryDecomposition | volumes/02.Kernel64/Source/DynamicMemory.c:41-69 | when nothing is allocated a block is shown exactly if it is the odd last one of its level: the binary decomposition of the pool size |
| AllocationMap.BuddyShows | volumes/02.Kernel64/Source/DynamicMemory.c:321-359 | the flag of the buddy of a block being freed is set exactly when that buddy is in the pool and wholly free, padding bits included |
| BlockGeometry.TakeCanonical | volumes/02.Kernel64/Source/DynamicMemory.c:195-206 | taking a largest free block out removes it from the set of largest free blocks and changes nothing else |
| BlockGeometry.HoldHalf | volumes/02.Kernel64/Source/DynamicMemory.c:195-206 | keeping half of a free block adds exactly the other half to the set of largest free blocks |
| BlockGeometry.BuddiesMerge | volumes/02.Kernel64/Source/DynamicMemory.c:321-359 | two free buddies in the pool are one free block of the next level |
| BlockGeometry.NoCanonicalBuddies | volumes/02.Kernel64/Source/DynamicMemory.c:321-359 | two buddies are never both largest free blocks |
| BlockGeometry.CanonicalCover | volumes/02.Kernel64/Source/DynamicMemory.c:167-210 | every free aligned run lies in a largest free block, which the upward search therefore meets |
| MetadataLayout.MetadataFits | volumes/02.Kernel64/Source/DynamicMemory.c:93-112 | index, bitmap descriptors and bitmaps of the pool that remains fit into the blocks set aside |
| MetadataLayout.BasesDisjoint | volumes/02.Kernel64/Source/DynamicMemory.c:41-69 | the bitmaps of different levels do not overlap |
| Bitmaps.MarkedDetermines | volumes/02.Kernel64/Source/DynamicMemory.c:260-283 | two bitmap areas with the same set bits are equal byte for byte |
| Bitmaps.CountsStep | volumes/02.Kernel64/Source/DynamicMemory.c:260-283 | setting or clearing a flag keeps every level counter equal to the number of set bits |
| Bitmaps.ZeroWord | volumes/02.Kernel64/Source/DynamicMemory.c:226-258 | a 64-bit word read as zero has no set bit of the level in its range |
| Bitmaps.FlagIsAt | volumes/02.Kernel64/Source/DynamicMemory.c:361-372 | the flag of block o of a level is bit o % 8, from the low end, of byte o / 8 of that level's bitmap |
| AllocatorSteps.ShiftOverflowGap | volumes/02.Kernel64/Source/DynamicMemory.c:154-165 | a request some aligned free run could serve is refused because of the int shift if and only if the pool has 2^21 cells or more, more than 1 GB is asked for, and the 2 GB block is free |
| AllocatorSteps.EarlyCheck | volumes/02.Kernel64/Source/DynamicMemory.c:123-131 | the used-size check passes for every request that a free block can serve |
| AllocatorSteps.EarlyRefusal | volumes/02.Kernel64/Source/DynamicMemory.c:123-131 | a request that the used-size check refuses has no free block |
| AllocatorSteps.SplitStep | volumes/02.Kernel64/Source/DynamicMemory.c:195-206 | one turn of the split loop keeps the bitmaps canonical |
| AllocatorSteps.MergeStep | volumes/02.Kernel64/Source/DynamicMemory.c:321-359 | one turn of the merge loop either merges or leaves exactly the canonical bitmaps |
| AllocatorSteps.NoneCanonicalNoneWhole | volumes/02.Kernel64/Source/DynamicMemory.c:167-193 | if no level from the asked one up shows a block, no aligned run of that size is free |
| AllocatorSteps.AddressToCell | volumes/02.Kernel64/Source/DynamicMemory.c:285-312 | the address handed out leads back to the index entry of the block |
| AllocatorSteps.BestFitIsHandedOut | volumes/02.Kernel64/Source/DynamicMemory.c:133-151 | the best fit is an aligned block of the least level that holds the size, all of whose cells are free |
| AllocatorSteps.SameIndexSameBitmaps | volumes/02.Kernel64/Source/DynamicMemory.c:114-152 | the index alone determines all bitmaps and counters, so a state is restored when the index is |
| DynamicMemory.CalculateMetaBlockCount | volumes/02.Kernel64/Source/DynamicMemory.c:93-112 | the loop over the levels computes the bookkeeping size the layout needs |
| DynamicMemory.SizePool | volumes/02.Kernel64/Source/DynamicMemory.c:7-40 | pool and bookkeeping divide the memory without remainder; the bookkeeping has just the blocks that index, descriptors and bitmaps of the whole memory need, so no smaller pool would do |
| DynamicMemory.Manager.Initialize | volumes/02.Kernel64/Source/DynamicMemory.c:7-76 | a fresh manager satisfies the invariant with nothing allocated |
| DynamicMemory.Manager.BuildBitmaps | volumes/02.Kernel64/Source/DynamicMemory.c:41-69 | the freshly built bitmaps and counters, byte for byte |
| DynamicMemory.Manager.SetFlagInBitmap | volumes/02.Kernel64/Source/DynamicMemory.c:260-283 | exactly one flag changes, and the counter of its level with it |
| DynamicMemory.Manager.GetFlagInBitmap | volumes/02.Kernel64/Source/DynamicMemory.c:361-372 | the flag is set exactly if the block is shown |
| DynamicMemory.Manager.FindFreeBlockInBitmap | volumes/02.Kernel64/Source/DynamicMemory.c:226-258 | the least set bit of a level, or -1 exactly when none is set, reading only inside the bitmap |
| DynamicMemory.Manager.GetBlockListIndexOfMatchSize | volumes/02.Kernel64/Source/DynamicMemory.c:212-224 | the least level whose block size, as the int shift computes it, is large enough |
| DynamicMemory.Manager.GetBuddyBlockSize | volumes/02.Kernel64/Source/DynamicMemory.c:154-165 | the size rounded up to a block size, or 0 |
| DynamicMemory.Manager.AllocationBuddyBlock | volumes/02.Kernel64/Source/DynamicMemory.c:167-210 | a best-fit block is taken out of the bitmaps, or -1 exactly when no run of the size is free |
| DynamicMemory.Manager.FreeBuddyBlock | volumes/02.Kernel64/Source/DynamicMemory.c:321-359 | the merge loop always ends by finding a buddy in use and leaves the canonical bitmaps of the freed pool |
| DynamicMemory.Manager.AllocateMemory | volumes/02.Kernel64/Source/DynamicMemory.c:114-152 | keeps the invariant; NULL if and only if the rounded size fits no usable level or no aligned run of it is free; else the address of a block of the least level that holds the size, aligned to its size, all of whose cells were free, entered in the index |
| DynamicMemory.Manager.FreeMemory | volumes/02.Kernel64/Source/DynamicMemory.c:285-319 | an address in the first cell of an allocated block frees it; any other address is refused and changes nothing |
| DynamicMemory.Manager.AllocateThenFree | volumes/02.Kernel64/Source/DynamicMemory.c:114-152 | an allocation followed by its free restores index, used size, every counter and every bitmap byte |
| DynamicMemory.Manager.FreedPoolIsFresh | volumes/02.Kernel64/Source/DynamicMemory.c:41-69 | whenever nothing is allocated any more, every bitmap byte and every counter is that of the freshly built pool, and the used size is 0 |
| DynamicMemory.Manager.RunRequests | volumes/02.Kernel64/Source/DynamicMemory.c:114-319 | any sequence of allocations and frees keeps the invariant and answers each request as the requests before it call for; the index at the end is what requests and answers make of it, and one that ends with nothing allocated ends with the fresh bitmaps and counters |
| DynamicMemory.Manager.IndexDetermines | volumes/02.Kernel64/Source/DynamicMemory.c:114-152 | two reachable states with the same index are the same state |
| CacheTable.UseBuffer | volumes/02.Kernel64/Source/CacheManager.c:93-100 | using a buffer at the current time keeps the order of access times equal to the order of last uses |
| CacheTable.LeastTimeIsLeastRecent | volumes/02.Kernel64/Source/CacheManager.c:174-196 | the live buffer with the least access time is the one whose last use is oldest in the history of uses |
| CacheTable.RenumberKeepsOrder | volumes/02.Kernel64/Source/CacheManager.c:145-153 | renumbering buffers sorted by time keeps the order of last uses |
| CacheTable.HeldPermuted | volumes/02.Kernel64/Source/CacheManager.c:120-143 | permuting the buffers keeps every tag, change mark and content |
| CacheTable.Table.CutDownAccessTime | volumes/02.Kernel64/Source/CacheManager.c:109-154 | below the limit nothing happens; at the limit the buffers are a permutation of the old ones, sorted by time and renumbered from 0 |
| CacheTable.Table.BubblePass | volumes/02.Kernel64/Source/CacheManager.c:122-143 | one pass puts the newest of the first buffers in place and reports sortedness exactly: true if and only if all buffers were in order |
| CacheTable.Table.FindCacheBuffer | volumes/02.Kernel64/Source/CacheManager.c:83-107 | finds the buffer of a tag if there is one and makes it the latest used |
| CacheTable.Table.AllocateCacheBuffer | volumes/02.Kernel64/Source/CacheManager.c:55-81 | takes the first invalid buffer and marks it pending; -1 exactly when all are in use |
| CacheTable.Table.GetVictimInCacheBuffer | volumes/02.Kernel64/Source/CacheManager.c:156-196 | always finds a victim: an invalid buffer or else the one least recently used over the whole history |
| CacheTable.Table.DiscardAllCacheBuffer | volumes/02.Kernel64/Source/CacheManager.c:198-210 | all tags become invalid; afterwards no stale change mark is left if and only if no buffer was marked changed before |
| CachedArea.WriteCached | volumes/02.Kernel64/Source/FileSystem.c:301-326 | caching a new content for a block changes that visible block and no other |
| CachedArea.WriteBack | volumes/02.Kernel64/Source/FileSystem.c:240-282 | writing a changed buffer back leaves the visible contents as they are |
| CachedArea.NothingToFlush | volumes/02.Kernel64/Source/FileSystem.c:1305-1350 | with no buffer marked changed the disk equals the visible contents |
| CachedArea.VisibleIsDetermined | volumes/02.Kernel64/Source/FileSystem.c:209-238 | cache and disk leave exactly one visible content |
| CachedArea.RecentAfterMiss | volumes/02.Kernel64/Source/CacheManager.c:156-196 | dropping the least recently used block for a new one keeps the cache the set of the blocks used last |
| CachedArea.Area.HoldsTheMostRecent | volumes/02.Kernel64/Source/CacheManager.c:156-196 | in every reachable state any block once used that is not cached was last used before every block that is, and then all buffers are in use |
| CachedArea.Area.AllocateCacheBufferWithFlush | volumes/02.Kernel64/Source/FileSystem.c:240-282 | an invalid buffer is taken and nothing else changes, or with none the least recently used one is dropped, written to the disk first if it was changed; what is visible stays |
| CachedArea.Area.ReadWithCache | volumes/02.Kernel64/Source/FileSystem.c:209-238 | a cached read returns the visible block; a hit changes neither contents nor disk, a miss brings the block in by replacing the least recently used; the block becomes the latest used |
| CachedArea.Area.WriteWithCache | volumes/02.Kernel64/Source/FileSystem.c:394-420 | a cached write changes the visible block and no other; the content goes into the block's buffer, marked changed, and not to the disk |
| CachedArea.Area.Read | volumes/02.Kernel64/Source/FileSystem.c:192-202 | with or without cache the visible block is read |
| CachedArea.Area.Write | volumes/02.Kernel64/Source/FileSystem.c:376-386 | with or without cache exactly one visible block is written |
| CachedArea.Area.Flush | volumes/02.Kernel64/Source/FileSystem.c:1305-1350 | after a flush the disk is what was visible, and every buffer is as before but unmarked |
| LinkTable.CreateKeeps | volumes/02.Kernel64/Source/FileSystem.c:654-682 | creating a file on a free cluster keeps the link table well formed |
| LinkTable.ExtendKeeps | volumes/02.Kernel64/Source/FileSystem.c:896-914 | linking a free cluster behind the last one of a file keeps the link table well formed |
| LinkTable.ExtendCounts | volumes/02.Kernel64/Source/FileSystem.c:896-914 | linking a free cluster behind the last one of a chain uses up that one free cluster and no other |
| LinkTable.TruncateKeeps | volumes/02.Kernel64/Source/FileSystem.c:740-767 | emptying a file to its first cluster keeps the link table well formed |
| LinkTable.RemoveKeeps | volumes/02.Kernel64/Source/FileSystem.c:1149-1193 | freeing a whole chain keeps the link table well formed |
| LinkTable.ChainIsDetermined | volumes/02.Kernel64/Source/FileSystem.c:684-707 | the links determine the chain from a cluster |
| LinkTable.UsedClusterHasOneOwner | volumes/02.Kernel64/Source/FileSystem.c:654-682 | a cluster is in use exactly if it is on a chain, and then on one chain only |
| FileContent.WritePiece | volumes/02.Kernel64/Source/FileSystem.c:916-944 | storing one patched cluster overwrites exactly the piece of the file under the cursor |
| FileContent.ReadPiece | volumes/02.Kernel64/Source/FileSystem.c:821-834 | a piece within one cluster is that part of the file |
| DiskFormat.SetLink | volumes/02.Kernel64/Source/FileSystem.c:470-494 | rewriting one word of a link sector changes that link and no other |
| DiskFormat.SetEntryUpdates | volumes/02.Kernel64/Source/FileSystem.c:548-572 | storing a directory entry changes that entry and no other |
| DiskFormat.LowByteFirst | volumes/02.Kernel64/Source/FileSystem.c:470-519 | words are stored with the low byte first |
| DiskFormat.EntryLayout | volumes/02.Kernel64/Source/FileSystem.c:574-592 | entry i is 32 bytes at 32 i: 24 of name, then size, then first cluster |
| FileSteps.ExtendStep | volumes/02.Kernel64/Source/FileSystem.c:896-914 | in the middle of a write a new cluster changes no byte of any file |
| FileSteps.ExtendReach | volumes/02.Kernel64/Source/FileSystem.c:896-914 | giving the file a free cluster leaves its chain and the free clusters together as many as before: what it can grow to is fixed |
| FileSteps.StoreStep | volumes/02.Kernel64/Source/FileSystem.c:916-957 | in the middle of a write storing the cluster appends exactly the piece to what has been written |
| FileSteps.WriteEndsWithRoot | volumes/02.Kernel64/Source/FileSystem.c:959-965 | after a write and its directory update the file has the new bytes and every other file its old ones |
| FileHandles.AdvanceKeepsCursor | volumes/02.Kernel64/Source/FileSystem.c:836-846 | moving the cursor by part of a cluster keeps the cached current and previous clusters right |
| FileHandles.WroteTwice | volumes/02.Kernel64/Source/FileSystem.c:967-1000 | two writes in a row are one write of both |
| FileSystem.FormatFits | volumes/02.Kernel64/Source/FileSystem.c:103-178 | boot sector, link sectors and clusters fit on the disk, the link sectors are just enough, and the cluster count is the one the sector count gives |
| FileSystem.AreasDoNotOverlap | volumes/02.Kernel64/Source/FileSystem.c:192-207 | no link sector and no two clusters share a disk sector |
| FileSystem.SearchIsComplete | volumes/02.Kernel64/Source/FileSystem.c:422-468 | the free-cluster search sees every cluster if and only if the cluster count is not a multiple of 128 |
| FileSystem.SmallDiskLooksFull | volumes/02.Kernel64/Source/FileSystem.c:103-135 | 1032 sectors are formatted with 128 clusters, and whatever their links the search looks at none of them |
| FileSystem.FileSystem.Format | volumes/02.Kernel64/Source/FileSystem.c:103-178 | a formatted and mounted disk satisfies the invariant, with an empty directory |
| FileSystem.FileSystem.GetClusterLinkData | volumes/02.Kernel64/Source/FileSystem.c:496-519 | the link of a cluster; it fails exactly for clusters more than one sector beyond the link area, and for those of that one sector it returns what the disk holds there |
| FileSystem.FileSystem.SetClusterLinkData | volumes/02.Kernel64/Source/FileSystem.c:470-494 | one link changes and no other |
| FileSystem.FileSystem.FindFreeCluster | volumes/02.Kernel64/Source/FileSystem.c:422-468 | a free cluster before which, going round sector by sector from the hint, no cluster of the searched range is free; no result exactly when no cluster of that range is free |
| FileSystem.FileSystem.FindFreeDirectoryEntry | volumes/02.Kernel64/Source/FileSystem.c:521-546 | the first unused entry, or -1 exactly when there is none |
| FileSystem.FileSystem.SetDirectoryEntryData | volumes/02.Kernel64/Source/FileSystem.c:548-572 | one entry of the directory changes; it fails exactly for an index out of range |
| FileSystem.FileSystem.FindDirectoryEntry | volumes/02.Kernel64/Source/FileSystem.c:594-621 | the first entry whose name field begins with the name, or -1 |
| FileSystem.FileSystem.ReadFile | volumes/02.Kernel64/Source/FileSystem.c:795-850 | the bytes of the file from the cursor on, as many as item size times count in 32 bits or as are left, the cursor behind them, and the number of whole items; no file, entry or other handle changes |
| FileSystem.FileSystem.ExtendFile | volumes/02.Kernel64/Source/FileSystem.c:896-914 | a free cluster is linked behind the file; it fails, changing nothing, only if the search finds none |
| FileSystem.FileSystem.WriteFile | volumes/02.Kernel64/Source/FileSystem.c:871-965 | writes the least of the bytes asked for and what the chain and the free clusters of the searched range can still take, over the file from the cursor on; every other file, entry and handle is as before |
| FileSystem.FileSystem.UpdateDirectoryEntry | volumes/02.Kernel64/Source/FileSystem.c:852-869 | size and first cluster of the handle go into its entry and nowhere else |
| FileSystem.FileSystem.WriteZero | volumes/02.Kernel64/Source/FileSystem.c:967-1000 | appends the zeros asked for, or as many as chain and free clusters can take, or none when the heap has no room |
| FileSystem.FileSystem.SeekFile | volumes/02.Kernel64/Source/FileSystem.c:1002-1119 | counted from start, cursor or end of file, a target before the start leads to the start, one within the file to exactly there; one in a later cluster than the end first appends exactly the missing zeros, or as many as the disk can take; one behind the end in the last cluster moves the cursor only, and only then is the cursor outside the file |
| FileSystem.FileSystem.ReadFrom | volumes/02.Kernel64/Source/FileSystem.c:1002-1119 | seeking to byte k from any cursor and reading n bytes gives the bytes of the file from k on, n or as many as there are |
| FileSystem.FileSystem.FreeClusterUntilEnd | volumes/02.Kernel64/Source/FileSystem.c:684-707 | the loop ends and frees exactly the clusters of the chain |
| FileSystem.FileSystem.CreateFile | volumes/02.Kernel64/Source/FileSystem.c:654-682 | succeeds exactly if an entry is unused and the search finds a cluster, and then there is a new empty file of a name no other file has; on failure nothing has changed |
| FileSystem.FileSystem.CannotCreateOnSmallDisk | volumes/02.Kernel64/Source/FileSystem.c:422-468 | on a freshly formatted disk of 1032 sectors every creation fails, whatever the name |
| FileSystem.FileSystem.EmptyFile | volumes/02.Kernel64/Source/FileSystem.c:740-767 | the file is empty, its clusters but the first are free, every other file is as before |
| FileSystem.FileSystem.OpenFile | volumes/02.Kernel64/Source/FileSystem.c:709-793 | what opening does in each mode to the found, missing or new file; the new handle is the file as a byte sequence with the cursor at the start, or for mode a at the end |
| FileSystem.FileSystem.StoreThenLoad | volumes/02.Kernel64/Source/FileSystem.c:709-965 | what is written to a file of any name, closed, opened again by that name and read comes back byte for byte, all of it unless the disk became full; it fails only for want of a handle, an entry or a cluster |
| FileSystem.FileSystem.CloseFile | volumes/02.Kernel64/Source/FileSystem.c:1121-1130 | the handle is unused and no file changes |
| FileSystem.FileSystem.IsFileOpened | volumes/02.Kernel64/Source/FileSystem.c:1132-1147 | true exactly if some handle is open on that first cluster |
| FileSystem.FileSystem.RemoveFile | volumes/02.Kernel64/Source/FileSystem.c:1149-1193 | the found file is removed unless it is open; its clusters are free, every other file is as before; a name of no or too many characters gives 0 and removes nothing |
| FileSystem.FileSystem.FlushFileSystemCache | volumes/02.Kernel64/Source/FileSystem.c:1305-1350 | afterwards the disk holds what the file system shows |
| FileSystem.FileSystem.RunOperations | volumes/02.Kernel64/Source/FileSystem.c:795-1119 | any sequence of reads, writes and seeks through one handle returns what the same operations return on one byte sequence with a cursor and a fixed capacity, and leaves the file as that sequence; every other file, entry and handle is as before |
| FileStreams.GoalIsTarget | volumes/02.Kernel64/Source/FileSystem.c:1019-1078 | where a seek leads, in the terms of the byte sequence alone |
| DirectorySteps.CreateStep | volumes/02.Kernel64/Source/FileSystem.c:654-682 | creating keeps links, directory and open handles together and every file its bytes |
| DirectorySteps.TruncateStep | volumes/02.Kernel64/Source/FileSystem.c:740-767 | emptying keeps links, directory and open handles together and every other file its bytes |
| DirectorySteps.RemoveStep | volumes/02.Kernel64/Source/FileSystem.c:1149-1193 | removing keeps links, directory and open handles together and every other file its bytes |
| DirectorySteps.NamesStayDifferent | volumes/02.Kernel64/Source/FileSystem.c:654-682 | removing a file, resizing it or creating one of a new name leaves all stored names different |
| DirectorySteps.SameStartSameEntry | volumes/02.Kernel64/Source/FileSystem.c:1132-1147 | a handle has the first cluster of an entry exactly if it is a handle on that entry |
| DirectorySteps.LookupIsExact | volumes/02.Kernel64/Source/FileSystem.c:594-621 | the lookup finds the entry with the given name if and only if no entry before it has a name that begins with it |
| DirectorySteps.LookupFails | volumes/02.Kernel64/Source/FileSystem.c:594-621 | the lookup fails if and only if no stored name begins with the given one |
| DirectorySteps.FailedLookupMeansNew | volumes/02.Kernel64/Source/FileSystem.c:709-740 | creation follows only a failed lookup, so the name is not stored yet |
| DirectorySteps.NameLengths | volumes/02.Kernel64/Source/FileSystem.c:718-722 | a file name has 1 to 23 characters |
| DirectorySteps.LookupTakesPrefix | volumes/02.Kernel64/Source/FileSystem.c:610-614 | a directory in which the lookup finds a file of another name |
| TaskState.OnePlace | volumes/02.Kernel64/Source/Task.c:245-262 | an allocated task is running, waiting, or in the ready list of its own priority, and in one place only |
| TaskState.GenerationsRepeat | volumes/02.Kernel64/Source/Task.c:27-57 | a generation comes back exactly after multiples of 2^32 - 1 allocations |
| TaskState.IdsDiffer | volumes/02.Kernel64/Source/Task.c:27-57 | within 2^32 - 2 allocations after one, no slot gets an id with its generation again |
| TaskState.InitialIsSound | volumes/02.Kernel64/Source/Task.c:158-186 | the state at start-up satisfies the invariant |
| TaskSteps.PickFindsTask | volumes/02.Kernel64/Source/Task.c:206-243 | a task is picked if and only if some ready list has one |
| TaskSteps.LevelPicked | volumes/02.Kernel64/Source/Task.c:206-243 | the level taken is the least whose count is below its number of tasks; if there is none, the least with a task; counts above it are 0, its own goes up by one, those below stay, or all start from 0 in the second case |
| TaskSteps.DispatchKeeps | volumes/02.Kernel64/Source/Task.c:388-440 | a switch keeps every task in exactly one place |
| TaskSteps.CreateKeeps | volumes/02.Kernel64/Source/Task.c:71-127 | creation fails only on a full pool; else it keeps the invariant, gives a fresh id, puts the task at the end of the list of its priority, and changes no other block but the list of its process |
| TaskSteps.CreateExact | volumes/02.Kernel64/Source/Task.c:71-127 | creation checks no priority: the invariant is kept if and only if the priority is 0 to 4 or the pool is full |
| TaskSteps.ChangePriorityKeeps | volumes/02.Kernel64/Source/Task.c:290-326 | for a live task that has not ended and priorities 0 to 4 the task moves to the list of its new priority |
| TaskSteps.ChangedGoesLast | volumes/02.Kernel64/Source/Task.c:290-326 | the task leaves its list and goes to the end of the list of its new priority, even if that is the same one; all other lists are as before |
| TaskSteps.ChangePriorityExact | volumes/02.Kernel64/Source/Task.c:290-326 | for every id with a generation and a slot of the pool and every priority the bounds check accepts, the invariant is kept if and only if the change is harmless; priority 5 and ids of dead tasks are where it is not |
| TaskSteps.EndTaskExact | volumes/02.Kernel64/Source/Task.c:459-501 | for every id with a generation and a slot of the pool, ending keeps the invariant if and only if the id does not belong to a dead task whose slot now holds a ready one |
| TaskSteps.RunnerEnds | volumes/02.Kernel64/Source/Task.c:459-501 | ending the running task marks it; if any task is ready another one runs and the ended one is at the end of the wait list and in no ready list |
| TaskSteps.ReadyTaskEnds | volumes/02.Kernel64/Source/Task.c:264-288 | ending a ready task marks it, takes it out of its ready list and puts it at the end of the wait list |
| Starvation.Progress | volumes/02.Kernel64/Source/Task.c:206-243 | with every switch a ready task runs or its measure of position, exhausted flag and remaining quotas goes down |
| Starvation.NoStarvation | volumes/02.Kernel64/Source/Task.c:206-243 | the task at position p of a level runs within 2 (p + 1) times the product of the sizes plus one of all higher levels switches |
| Reaper.EndAllEnds | volumes/02.Kernel64/Source/Task.c:640-651 | ending all threads of a process moves exactly these to the wait list |
| Reaper.ReapKeeps | volumes/02.Kernel64/Source/Task.c:628-680 | every turn of the idle task's loop keeps the invariant |
| Reaper.ReapGetsOn | volumes/02.Kernel64/Source/Task.c:628-680 | every turn frees a task or leaves fewer processes that have to wait once more |
| Reaper.ProcessGoesLast | volumes/02.Kernel64/Source/Task.c:653-664 | a process is freed only when it has no live thread |
| Reaper.ReapingEnds | volumes/02.Kernel64/Source/Task.c:621-683 | exactly the ended tasks and the threads of ended processes are gone; every other block and the order of the ready lists are as before |
| TaskRuns.NextKeeps | volumes/02.Kernel64/Source/Task.c:71-127 | every step a caller may take keeps the invariant |
| TaskRuns.RunKeeps | volumes/02.Kernel64/Source/Task.c:27-127 | in every run every allocated task is in exactly one place |
| TaskRuns.IdsAreNotReissued | volumes/02.Kernel64/Source/Task.c:27-57 | the same id is given out twice in a run only if a whole round of the generation counter lies between |
| Turns.EveryTurnIsFair | volumes/02.Kernel64/Source/Task.c:206-243 | after every run, whenever the scheduler looks for another task, the next to run is the first task of the highest level that has had fewer turns than it has tasks since a lower level had one or all started anew, or, if there is none, of the highest that has a task; at no other event does another task run |
| Turns.RunCounts | volumes/02.Kernel64/Source/Task.c:213-236 | in every run the counts of the scheduler are the turns of its history |
| Turns.NoTurnsAtStart | volumes/02.Kernel64/Source/Task.c:158-186 | at start-up the counts are those of an empty history |
| Turns.HigherLevelsFirst | volumes/02.Kernel64/Source/Task.c:213-236 | a lower level gets a turn only when every higher one that has tasks has had as many turns as tasks |
| Endings.EndedIsOver | volumes/02.Kernel64/Source/Task.c:459-501 | right after its end a task is marked and waits to be freed, unless it was the running one and no other is ready |
| Endings.LeavesAtNextSwitch | volumes/02.Kernel64/Source/Task.c:388-440 | an ended task left alone on the processor leaves it for the wait list as soon as another is ready |
| Endings.EndIsForGood | volumes/02.Kernel64/Source/Task.c:459-501 | in every run after the end of a task: it has been freed, or it is still marked, off the processor and waiting, and the next clearing of the wait list frees it |
| Task.Scheduler.Initialize | volumes/02.Kernel64/Source/Task.c:158-186 | the scheduler starts in the initial state |
| Task.Scheduler.AllocateTcb | volumes/02.Kernel64/Source/Task.c:27-57 | the first free block gets a new id; a full pool is left alone |
| Task.Scheduler.FreeTcb | volumes/02.Kernel64/Source/Task.c:59-69 | the block is free and the use count one less |
| Task.Scheduler.CreateTask | volumes/02.Kernel64/Source/Task.c:71-127 | the state after creation for every priority, which slot was taken, and exactly when the invariant is kept |
| Task.Scheduler.GetNextTaskToRun | volumes/02.Kernel64/Source/Task.c:206-243 | takes the first task of the least level whose count is below its number of tasks, or, if there is none, of the least with a task, off its list, with the new counts; none exactly when all lists are empty |
| Task.Scheduler.AddTaskToReadyList | volumes/02.Kernel64/Source/Task.c:245-262 | the task goes to the end of the queue of its priority; any other priority leaves it nowhere |
| Task.Scheduler.RemoveTaskFromReadyList | volumes/02.Kernel64/Source/Task.c:264-288 | removes the task with the id from the ready list of its priority if it is there; else, also for slots outside the pool, nothing |
| Task.Scheduler.ChangePriority | volumes/02.Kernel64/Source/Task.c:290-326 | the state after the change, for every id with a slot of the pool and every priority, and exactly when it still satisfies the invariant; a ready task goes to the end of its new list |
| Task.Scheduler.ScheduleInInterrupt | volumes/02.Kernel64/Source/Task.c:388-440 | the state after the switch; it switches exactly if a task is ready |
| Task.Scheduler.Schedule | volumes/02.Kernel64/Source/Task.c:328-386 | the state after the switch; nothing happens when no task is ready |
| Task.Scheduler.EndTask | volumes/02.Kernel64/Source/Task.c:459-501 | the state after the end, for every id with a slot of the pool, and exactly when it still satisfies the invariant; the task is marked, and runs on only if it was running and no other is ready, else it waits |
| Task.Scheduler.ReapWaitingTasks | volumes/02.Kernel64/Source/Task.c:621-683 | the loop ends with an empty wait list and has freed exactly the ended tasks and the threads of ended processes |
| Task.Scheduler.EndAndReap | volumes/02.Kernel64/Source/Task.c:459-501 | a task that is ended is freed when the wait list is next cleared |
| List.LinkedList.AddListToTail | volumes/02.Kernel64/Source/List.c:15-36 | the item becomes the last member, whatever the old tail pointed to |
| List.LinkedList.AddListToHeader | volumes/02.Kernel64/Source/List.c:38-56 | the item becomes the first member |
| List.LinkedList.RemoveList | volumes/02.Kernel64/Source/List.c:58-95 | the first link with the id leaves the list; a link found behind the tail corrupts it instead; a stranger changes nothing |
| List.LinkedList.RemoveListFromHeader | volumes/02.Kernel64/Source/List.c:98-109 | the first member leaves the list |
| List.LinkedList.WalkToMember | volumes/02.Kernel64/Source/List.c:63-94 | a search for a member walks the members up to it |
| List.LinkedList.WalkAlongItems | volumes/02.Kernel64/Source/List.c:63-94 | every search passes the members in order first |
| List.RemovedTailIsFoundAgain | volumes/02.Kernel64/Source/List.c:81-84 | a removed tail is found again behind the new one, and the list then claims to be empty |
| FpuSwitch.HandlerKeeps | volumes/02.Kernel64/Source/InterruptHandler.c:199-245 | the handler gives the FPU to the running task with its own registers and changes nobody's; the TS flag is set exactly while the hardware holds another task's registers |
| FpuSwitch.StepRefines | volumes/02.Kernel64/Source/Task.c:360-368 | switches, FPU instructions, creation with an id that is new, and slot reuse are steps of a machine in which every task has its own registers |
| FpuSwitch.RegistersArePrivate | volumes/02.Kernel64/Source/InterruptHandler.c:199-245 | an instruction changes the registers of the running task only, and a new task begins with fresh ones |
| FpuSwitch.CreateExact | volumes/02.Kernel64/Source/Task.c:27-57 | a creation keeps the refinement if and only if the generation counter does not give it the id of the last FPU user |
| FpuSwitch.IdIsNew | volumes/02.Kernel64/Source/Task.c:46-53 | as long as the counter has not gone round, no creation in any slot gets the id of the last FPU user |
| FpuSwitch.RunRefines | volumes/02.Kernel64/Source/InterruptHandler.c:199-245 | in every run of fewer than 2^32 - 1 allocations in all every FPU instruction works on what it would with eager saving and restoring, over any reuse of slots |
| FpuSwitch.BootRunRefines | volumes/02.Kernel64/Source/Task.c:158-186 | the same for every run from start-up |
| FpuSwitch.BootRefines | volumes/02.Kernel64/Source/Task.c:158-186 | at start-up no task has used the FPU and the TS flag is set |
| FpuSwitch.ReissuedIdLeaks | volumes/02.Kernel64/Source/InterruptHandler.c:218-229 | whenever a new task gets the id of the last FPU user there is a continuation in which an FPU instruction works on other registers than with eager saving: a dead task's, or fresh ones instead of its own |
| FpuSwitch.Processor.DeviceNotAvailable | volumes/02.Kernel64/Source/InterruptHandler.c:199-245 | the handler, in place, does what the step function says |
| FpuSwitch.Processor.Switch | volumes/02.Kernel64/Source/Task.c:428-435 | TS is set exactly if the next task does not own the FPU registers |
| Locks.StepKeeps | volumes/02.Kernel64/Source/Synchronization.c:25-64 | every single memory operation of any task keeps the lock invariant, the count being the depth in 32 bits, but a release that comes too early |
| Locks.StepExact | volumes/02.Kernel64/Source/Synchronization.c:25-64 | a step loses the lock invariant if and only if it is the test of the count at a depth other than 1 whose remainder modulo 2^32 is 0 or 1 |
| Locks.MutualExclusion | volumes/02.Kernel64/Source/Synchronization.c:25-64 | in every interleaving of any number of tasks, up to the first release that comes too early, at most one is between lock and unlock, the owner test succeeds exactly for it, and the count is its depth modulo 2^32 |
| Locks.StrangersUnlockDoesNothing | volumes/02.Kernel64/Source/Synchronization.c:47-53 | an unlock by a task that does not hold the lock changes nothing |
| Locks.ReleasedAtOutermostUnlock | volumes/02.Kernel64/Source/Synchronization.c:47-64 | the flag falls only at the last step of an unlock at depth 1, and an unlock that is not too early goes on to that step exactly at depth 1 |
| Locks.ReleaseByWrappedCount | volumes/02.Kernel64/Source/Synchronization.c:55-64 | in every run without an earlier such release, the holder's unlock at depth d goes on to give the lock back if and only if d modulo 2^32 is 0 or 1 |
| Locks.NestedLocks | volumes/02.Kernel64/Source/Synchronization.c:25-45 | for every d there is a run that locks d times, after which the flag is set and the count is d modulo 2^32 |
| Locks.WrappingBreaksExclusion | volumes/02.Kernel64/Source/Synchronization.c:47-64 | for every d above 1 with remainder 0 or 1 there is a run in which a task that has locked d times unlocks once and another task takes the lock while the first still counts as inside |
| LockProgress.FreeLockIsTaken | volumes/02.Kernel64/Source/Synchronization.c:25-45 | a waiting task takes a free lock with its next memory operation |
| LockProgress.HolderReleases | volumes/02.Kernel64/Source/Synchronization.c:47-64 | from every reachable state the holder can finish its call and unlock until the lock is free, in time if it has locked fewer than 2^32 times |
| LockProgress.NobodyWaitsInVain | volumes/02.Kernel64/Source/Synchronization.c:25-64 | after every run in which a task waits there is a continuation in which the holder unlocks and the waiting task has the lock |
| SpinLock.SpinStepKeeps | volumes/02.Kernel64/Source/Synchronization.c:74-129 | every step of any core keeps mutual exclusion and the interrupt bookkeeping, a free lock keeping no interrupt flag, up to the first release that comes too early |
| SpinLock.SpinLockIsSafe | volumes/02.Kernel64/Source/Synchronization.c:74-129 | in every interleaving of any number of cores, up to such a release, at most one holds the lock, with interrupts off; the outermost unlock puts the interrupt flag back, a stranger's unlock leaves it as it was |
| SpinLock.OriginalIsKept | volumes/02.Kernel64/Source/Synchronization.c:74-101 | the flag put back is the one the outermost lock found |
| SpinLock.CallReturns | volumes/02.Kernel64/Source/Synchronization.c:74-129 | when a call returns it has changed depth and interrupt flag as the whole call is meant to, whatever the other cores did in between |
| SpinProgress.FreeSpinLockIsTaken | volumes/02.Kernel64/Source/Synchronization.c:88-94 | a waiting core takes a free spin lock with its next memory operation |
| SpinProgress.NoCoreWaitsInVain | volumes/02.Kernel64/Source/Synchronization.c:74-129 | after every run in which a core waits there is a continuation in which the holder unlocks and the waiting core has the lock, with interrupts off |
| SpinLocks.WellNestedRestores | volumes/02.Kernel64/Source/Synchronization.c:74-129 | whole calls: code with well-nested locks leaves the interrupt flag and all locks as it found them |
| SpinLocks.WhenInterruptsComeBackTooEarly | volumes/02.Kernel64/Source/Synchronization.c:103-129 | whole calls: an unlock turns interrupts on under another held lock if and only if it releases a lock taken with interrupts on |
| SpinLocks.NotNestedExample | volumes/02.Kernel64/Source/Synchronization.c:103-129 | two locks released in the order they were taken leave interrupts on under the second |
| SpinLocks.NextKeeps | volumes/02.Kernel64/Source/Synchronization.c:74-129 | with any number of locks and cores every single memory operation keeps every lock sound and every core where its whole calls have left it |
| SpinLocks.CallsActWhole | volumes/02.Kernel64/Source/Synchronization.c:74-129 | in every interleaving of any number of cores and locks at most one core holds each lock, and each core's interrupt flag and locks are what its calls, acting one after the other as a whole, make of them |
| SpinLocks.WellNestedInEveryRun | volumes/02.Kernel64/Source/Synchronization.c:74-129 | in every such interleaving, after code with well-nested locks a core's interrupt flag and locks are as before it |
| SpinLocks.TooEarlyInEveryRun | volumes/02.Kernel64/Source/Synchronization.c:103-129 | in every such interleaving, after an unlock interrupts are on under a held lock if and only if the lock released was taken with interrupts on and another one is held |
| SerialTransfer.SenderKeeps | volumes/04.Utility/01.SerialTransfer/NetworkTransfer.c:70-112 | every step of the sender keeps the two parties in step |
| SerialTransfer.ReceiverKeeps | volumes/02.Kernel64/Source/ConsoleShell.c:1869-1941 | every step of the receiver keeps them in step, however reads are split |
| SerialTransfer.Answered | volumes/02.Kernel64/Source/ConsoleShell.c:1911-1922 | the receiver's test of its byte count acknowledges exactly at the end of a chunk |
| SerialTransfer.AlwaysInStep | volumes/04.Utility/01.SerialTransfer/NetworkTransfer.c:70-112 | the sender is at most 16 bytes ahead, at most one acknowledgement is under way, chunk and acknowledgement counts agree, and what is stored is a prefix of the file |
| SerialTransfer.SomebodyCanMove | volumes/04.Utility/01.SerialTransfer/NetworkTransfer.c:86-112 | the two parties never deadlock |
| SerialTransfer.RunsAreBounded | volumes/04.Utility/01.SerialTransfer/NetworkTransfer.c:86-112 | every run without idle moves is finite |
| SerialTransfer.TransferIsComplete | volumes/02.Kernel64/Source/ConsoleShell.c:1869-1941 | when nothing can move any more the receiver has the file, for every length, and has acknowledged every chunk once |
| NumberText.HexRoundTrip | volumes/02.Kernel64/Source/Utility.c:239-269 | reading the printed hexadecimal digits gives the number |
| NumberText.NoLeadingZero | volumes/02.Kernel64/Source/Utility.c:251-266 | only zero is printed with a leading zero |
| NumberText.DigitTable | volumes/02.Kernel64/Source/Utility.c:169-192 | digits above 9 are printed as capital letters and read in either case |
| NumberText.EveryCharacterCounts | volumes/02.Kernel64/Source/Utility.c:169-219 | what the parsers take every character for, digit or not |
| NumberText.LongRoundTrip | volumes/02.Kernel64/Source/Utility.c:271-310 | reading the printed decimal text of a long gives it back if and only if it is not the least long |
| Utility.ReverseString | volumes/02.Kernel64/Source/Utility.c:312-325 | the text is reversed in place and nothing else changes |
| Utility.EmitDigits | volumes/02.Kernel64/Source/Utility.c:251-266 | the digits come out least significant first |
| Utility.HexToString | volumes/02.Kernel64/Source/Utility.c:239-269 | the buffer holds exactly the digits and a terminator |
| Utility.DecimalToString | volumes/02.Kernel64/Source/Utility.c:271-310 | the buffer holds exactly the sign and the digits and a terminator; for the least long only the sign |
| Utility.HexStringToQword | volumes/02.Kernel64/Source/Utility.c:169-192 | Horner's value of the text modulo 2^64, for every text |
| Utility.DecimalStringToLong | volumes/02.Kernel64/Source/Utility.c:194-219 | the signed value of the text in 64-bit two's complement, for every text |
| Utility.HexThereAndBack | volumes/02.Kernel64/Source/Utility.c:239-269 | printing then parsing is the identity on every QWORD |
| Utility.DecimalThereAndBack | volumes/02.Kernel64/Source/Utility.c:271-310 | printing then parsing is the identity on a long if and only if it is not the least one |
| Utility.BuffersSuffice | volumes/02.Kernel64/Source/Utility.c:239-310 | 16 digits and 20 characters are always enough |

## Left out

- Boot loader, page tables, descriptor tables, interrupt and timer controllers, multiprocessor tables, drivers, console and shell commands other than the file receiver: fixed tables, port accesses and user interface.
- Disk errors, serial timeouts and lost bytes: every transfer succeeds, a disk area is an array of blocks, and the recovery paths, which the code leaves incomplete, are not modelled.
- Interleaving inside the allocator, the scheduler and the file system: each call is one step, as the locks around them intend; the used size of the allocator is updated outside its lock in the code.
- FileSystem.FileSystem.Format: formatting and mounting are one constructor, for disks of at least 10 sectors; reading the boot sector and the disk information is not modelled, so the file system is always mounted.
- Link table and clusters go through one class, Area, parameterised by block size; the code has the same functions twice.  The disk addresses of the areas are modelled only in AreasDoNotOverlap.
- CachedArea.Area.Flush: the flush of both areas is two calls of it.
- FileSystem.FileSystem.ReadFile: an item size of 0, by which the code divides, is excluded, and so is a cursor behind the end of the file, which only a seek that leaves a gap makes (SeekFile).
- FileSystem.FileSystem.WriteFile: offset and length stay below 2^32, which the code does not check, and the cursor is not behind the end of the file.
- FileSystem.FileSystem.SetClusterLinkData: the cluster is one of the link area; the code has no bounds check here, and its callers keep to this.
- FileSystem.FileSystem.EmptyFile: the file is not open, as for OpenFile.
- FileSystem.FileSystem.OpenFile: at most one open handle per file is required; the code does not check this, and truncating a file that is open would leave its handle wrong.
- DynamicMemory.Manager.FreeMemory: the address lies in the pool; for any other the code reads outside its index.
- DynamicMemory.Manager.RunRequests: a driver over the allocator, with the same restriction.
- FileSystem.FileSystem.StoreThenLoad, FileSystem.FileSystem.ReadFrom and Task.Scheduler.EndAndReap: callers in the way of the shell, to say what a caller gets back.
- FileSystem.FileSystem.RunOperations: a driver over the file operations; it stops before an operation that would leave a gap or pass 2^32, as RunOn does.
- Directory handles (open, read, rewind, close): they iterate over a copy of the root directory and change nothing.
- FileSystem.FileSystem.CreateFile: what the entry buffer holds behind the copied name is a parameter, for the code does not clear it.
- Task contexts, stacks and processor-time statistics: a context switch is the change of the running task.
- Task.Scheduler.CreateTask: allocation, set-up and insertion into the ready list are one step; a task is either a process or a thread, as all callers have it.
- TaskSteps.ChangePriorityExact: the slot named by the id lies in the pool; for a slot of 1024 or more the code writes behind the pool, since its bounds check can never fail.  The same holds for TaskSteps.EndTaskExact, Task.Scheduler.ChangePriority and Task.Scheduler.EndTask.
- Task.Scheduler.ReapWaitingTasks: one pass of the inner loop of the idle task; the load measurement around it is left out.
- Reaper.ReapKeeps: the running task, which is the idle task, is required not to have ended and not to be a thread of an ended process.
- The lists of the scheduler are sequences of slots; that the linked list implements such sequences is proved in List.
- FpuSwitch.StepRefines: task and scheduler are reduced to what the FPU switch looks at; the id a creation gives is that of the generation counter and the slot, as in AllocateTcb.
- Locks, SpinLock and SerialTransfer are step functions on values and not loops in place: the point of this code is how the steps of several parties interleave, and its waiting loops end only by what the others do.
- Task.Scheduler.AllocateTcb: the allocation counter is taken to wrap at 32 bits, as the compiled code does; the language leaves the overflow of a signed counter open.
- LockProgress.NobodyWaitsInVain: a continuation exists; that others do not always take the free lock first is not promised by the code, which has no queue.  The same holds for SpinProgress.NoCoreWaitsInVain.
- SpinLock.SpinLockIsSafe: a core does not turn its interrupts on by other means while it holds the lock.
- SerialTransfer.TransferIsComplete: the receiver is started first, nothing is lost, and no timeout occurs; opening the file and the final flush are those of the file system.
- Utility.HexStringToQword: characters are taken as non-negative codes.
- kAddListToHeader and kRemoveListFromTail have no caller among the modelled code; they are kept for the list's sake.
