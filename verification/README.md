# XBook kernel model

XBook is a small x86 kernel. This project models its storage stack, its slab allocator, its
signals, its user address spaces, its scheduler and locks, and three small algorithms, and
proves what they are for. Each file holds one module; `dafny verify dfyconfig.toml` checks all.

**Storage.** `bitmap.dfy`, `blockdevice.dfy` (ramdisk, request queue, buffer cache),
`blocktree.dfy`, `inodetable.dfy`, `filetree.dfy` (block trees, ownership, bitmap), `bofs.dfy`
(the operations on cache, bitmap and inodes), `lookups.dfy` (runs of them), `filecontents.dfy`,
`file.dfy` (read, write, seek), `release.dfy` and `releasedata.dfy` (giving blocks back),
`growth.dfy` (a file from its first block to its release), `bitmapsync.dfy` (the bitmap on the
disk). A file is a byte sequence, all the way down to the bytes of the ramdisk. The buffer cache
is hidden behind a ghost `view` of the disk that reads and writes go through and that syncing
makes true of the device. The methods equal pure functions on a value of the file system; the lemmas about
those functions carry the ownership invariant. Its `owner` table is auxiliary: NoSharing and
MarkedIffReachable say what it amounts to without it.

**Slab.** `slab.dfy`: groups by address, three lists for each size class, marks of pages;
`slabruns.dfy`: runs of calls. What the page allocator returns is a parameter: nothing, or pages
that no group keeps.

**Signals.** `sigset.dfy`, `signalframe.dfy`, `signal.dfy`, `signaldelivery.dfy`, `tasksignal.dfy`. A
task's signal state as a value, the class with the masks, the frames on the user stack, runs over
all operations, and what a return to user mode leaves pending. What other tasks send while a task
is stopped inside DoSignal is a parameter of that call.

**Address spaces.** `vmspace.dfy`, `vmruns.dfy` (runs), `memorymanager.dfy`. Whether kmalloc
succeeds is a parameter.

**Scheduler and locks.** `scheduler.dfy`, `tasks.dfy` on the kernel's lists; `synclock.dfy` and
`mutex.dfy` as step systems for any number of tasks in any interleaving.

**Small refinements.** `crc.dfy`, `washpath.dfy`, `ioqueue.dfy`. `basics.dfy` and
`lists.dfy` hold what the modules share.

Where the code departs from its comments or from what it should do, the code is modelled, an
example is given and the exact condition is proved:

- src/kernel/bitmap.c:71-82 tests one bit behind the map when it looks for more than one. The
  parameter `past` is that bit (ScanRunsOver is the example; ScanInsideIff).
- src/fs/bofs/file.c:845-859 reads the old contents of the first block of a write only
  (WriteLosesTheTail is the example; WriteIsSplice).
- src/fs/bofs/bitmap.c:184-185 steps by 512 bytes where blocks have 1024 (SyncMissesTheMap is the
  example; SyncHoldsIff, SyncLandsInsideIff).
- src/fs/bofs/file.c:346-373 loads the inode again for every open (FirstCopyIsLost;
  CopiesAgreeIff).
- src/fs/bofs/inode.c:1039 returns before the code that clears the pointers of a level-2 tree.
  The parameter `earlyReturn` says whether it does (EarlyReturnDangles is the example;
  EarlyKeepsWfIff, EarlyConservesIff, EarlyEmptiesIff).
- src/mm/vmspace.c:181 takes `prev` by value although its comment promises it as a result. The
  parameter `saved` says which of the two holds (MunmapLosesPredecessors and
  MunmapLosesHeap are the examples; MunmapAsCodedIff, BrkShrinkAsCodedIff, RunKeepsHeapIff).
- src/mm/vmspace.c:49 does not compare the address behind the last mapping with the end of user
  space (UnmappedOverruns is the example; UnmappedOverrunsIff, RunKeepsListIff).
- src/mm/memcache.c:161 links a group before it asks for object pages and does not unlink it when
  there are none (RefusedObjectPages is the example; RunValidIff).
- src/kernel/mutex.c:156-174 leaves the count at 0 or below when it wakes a waiter, which goes on only
  if it finds 1 (TwoTasksDie is the example; KillsIff, AliveIff).
- src/kernel/signal.c:742-746 unblocks without looking at pending signals, and the loop of lines
  333-422 does not go back to signals that arrive while the task is stopped (UnblockingForgets and
  StopForgets are the examples; UserReturnClears).

## Model

| member | source | states |
|---|---|---|
| Bitmaps.FirstClear | src/kernel/bitmap.c:43-64 | the bit a scan for one bit must find: the lowest clear one, -1 exactly when every bit is set |
| Bitmaps.ReplaceByte | src/kernel/bitmap.c:94-104 | rewriting the one byte that holds a bit changes that bit of the whole map and no other |
| Bitmaps.FullByte | src/kernel/bitmap.c:47-52 | a byte may be skipped by the scan exactly when all its eight bits are set |
| Bitmaps.Bitmap.Init | src/kernel/bitmap.c:17-20 | every bit is clear |
| Bitmaps.Bitmap.ScanTest | src/kernel/bitmap.c:29-34 | the value of one bit |
| Bitmaps.Bitmap.ScanClear | src/kernel/bitmap.c:43-64 | skipping full bytes and then bits finds the lowest clear bit |
| Bitmaps.Bitmap.Scan | src/kernel/bitmap.c:43-84 | the lowest clear bit, or for more bits the first run of that many clear bits in the map and the bit behind it; -1 exactly when there is none |
| Bitmaps.ScanInsideIff | src/kernel/bitmap.c:66-83 | what it finds is the first run in the map if and only if the bit behind the map is set, the map has a run, or the map does not end in a run just one bit too short |
| Bitmaps.ScanRunsOver | src/kernel/bitmap.c:66-83 | a map for which it finds a run that ends behind the map |
| Bitmaps.Bitmap.Set | src/kernel/bitmap.c:94-104 | exactly one bit of the map changes |
| BlockDevices.SpliceBlock | src/drivers/ramdisk.c:80-95 | overwriting one block of the device leaves every other block as it was |
| BlockDevices.Disk.RamdiskReadSector | src/drivers/ramdisk.c:54-69 | copies exactly the sectors asked for, or fails and copies nothing when they end beyond the disk |
| BlockDevices.Disk.RamdiskWriteSector | src/drivers/ramdisk.c:80-95 | replaces exactly those sectors, or fails and changes nothing |
| BlockDevices.Disk.BlockFetchRequest | src/kernel/block/request.c:215-253 | takes the first request of the current list, or of the other list when that is empty |
| BlockDevices.Disk.BlockEndRequest | src/kernel/block/request.c:263-304 | the buffer is up to date and unlocked, clean after a write, and there is no current request |
| BlockDevices.Disk.ServeRequest | src/drivers/ramdisk.c:102-132 | after one request buffer and device agree and the cache stays coherent |
| BlockDevices.Disk.DoBlockRequest | src/drivers/ramdisk.c:102-132 | drains the queue: both lists empty, no current request |
| BlockDevices.Disk.AddRequest | src/kernel/block/request.c:71-99 | a synchronous request is done when the call returns and leaves both queues empty; other buffers keep their flags |
| BlockDevices.Disk.MakeRequest | src/kernel/block/request.c:135-193 | reads only buffers without data, writes only dirty ones, and never changes what a reader sees |
| BlockDevices.Disk.GetBufferFromDisk | src/kernel/block/buffer.c:62-88 | finds the buffer of a block, or there is none |
| BlockDevices.Disk.CreateBuffers | src/kernel/block/buffer.c:98-136 | one more buffer, empty and clean; what a reader sees is unchanged |
| BlockDevices.Disk.GetBlock | src/kernel/block/buffer.c:145-173 | the one buffer of a block, made if missing |
| BlockDevices.Disk.Bread | src/kernel/block/buffer.c:217-249 | an up-to-date buffer of the block; nothing visible changes |
| BlockDevices.Disk.Bwrite | src/kernel/block/buffer.c:260-289 | exactly this block now reads as the data given |
| BlockDevices.Disk.BsyncOne | src/kernel/block/buffer.c:298-322 | cleans one buffer without a visible change; -1 when it was clean already |
| BlockDevices.Disk.Bsync | src/kernel/block/buffer.c:329-349 | counts the dirty buffers, changes nothing visible, and leaves every block of the device as readers see it |
| BlockDevices.Disk.BlockRead | src/include/book/blk-buffer.h:78-86 | returns what the block reads as; nothing visible changes |
| BlockDevices.Disk.BlockWrite | src/include/book/blk-buffer.h:96-106 | exactly this block reads as the data from now on, on the device too when sync is asked for |
| BlockDevices.LastWriteWins | src/include/book/blk-buffer.h:78-106 | what a history of reads, writes and syncs should leave in a block is what was last written to it |
| BlockDevices.History | src/include/book/blk-buffer.h:78-106 | through cache, queue and driver: over any history every read returns what was last written to its block, and a sync leaves that on the device |
| BlockTree.IndexPosInverse | src/fs/bofs/inode.c:336-349 | block numbers and places in the direct and 1-, 2- and 3-level index trees correspond one to one, without gaps or overlaps |
| BlockTree.WordOfPutWord | src/fs/bofs/inode.c:387-413 | storing one pointer of an index block changes that pointer only |
| BlockTree.LittleEndian | src/fs/bofs/inode.c:387-413 | the bytes of a pointer, least significant first |
| BlockTree.IndexLayout | src/fs/bofs/inode.c:336-349 | 12 direct blocks, then those behind one, two and three index blocks, in the order of their pointers |
| InodeTable.UnpackPack | src/include/fs/bofs/inode.h:46-70 | an inode record read back is the inode written |
| InodeTable.GetPutInode | src/fs/bofs/inode.c:95-128 | writing one inode into its table block changes that entry only |
| InodeTable.FieldsOnDisk | src/include/fs/bofs/inode.h:46-70 | the word of the table block that holds each field of an inode |
| FileTree.NoSharing | src/fs/bofs/inode.c:751-816 | no block is reachable from two places of any files |
| FileTree.MarkedIffReachable | src/fs/bofs/bitmap.c:110-171 | beyond the reserved prefix a bit is set exactly when some place of some file holds its block |
| FileTree.SyncInodeKeeps | src/fs/bofs/inode.c:95-128 | writing an inode back brings its entry up to date and lets no other entry fall behind |
| FileTree.SyncInodeStores | src/fs/bofs/inode.c:95-128 | where an inode is looked for by its number, the inode written back is found; every other record and every other block is what it was |
| FileTree.SyncInodeWf | src/fs/bofs/inode.c:95-128 | and leaves trees, ownership and bitmap alone |
| FileTree.ChildOrNewLooksUp | src/fs/bofs/inode.c:387-413 | following or adding one pointer of an index block keeps ownership and bitmap exact |
| FileTree.DescendLooksUp | src/fs/bofs/inode.c:436-737 | so does going down any number of index levels |
| FileTree.GetRootLooksUp | src/fs/bofs/inode.c:374-385 | so does finding or adding the block of an inode pointer, which is written to disk at once |
| FileTree.GetInodeDataLooksUp | src/fs/bofs/inode.c:751-816 | a lookup returns the block now at its place, fails only when no block is free, moves no block of any file and changes no byte |
| FileTree.LookupAgain | src/fs/bofs/inode.c:751-816 | looking a block up again finds the same block and changes nothing |
| FileTree.WriteDataBlock | src/fs/bofs/file.c:835-859 | storing a data block changes that place of that file only |
| Lookups.RunGrows | src/fs/bofs/inode.c:751-816 | over any run of lookups on any files the ownership invariant holds, no block moves and no file changes |
| Lookups.LookupsAgreeIff | src/fs/bofs/inode.c:751-816 | over any run two lookups return the same block exactly when they ask for the same block number of the same file |
| Lookups.RunKeepsBitmap | src/fs/bofs/bitmap.c:110-171 | over any run the bitmap is exactly the reserved prefix and the reachable blocks |
| Lookups.CopiesAgreeIff | src/fs/bofs/file.c:346-373 | two descriptors that loaded the same inode find the same block behind a root pointer if and only if it was there when they did |
| Lookups.FirstCopyIsLost | src/fs/bofs/file.c:346-373 | otherwise the block found first stays marked while the inode on the disk has the other |
| BitmapSyncs.SyncBitmap | src/fs/bofs/bitmap.c:181-210 | which block of the disk is overwritten, and with what |
| BitmapSyncs.SyncHoldsIff | src/fs/bofs/bitmap.c:181-210 | after a bit changed, the sync makes the region on the disk load as the map if and only if the bit is one of the first 4096 |
| BitmapSyncs.SyncLandsInsideIff | src/fs/bofs/bitmap.c:184-193 | the block written is one of the region if and only if the bit is in the first half of the map |
| BitmapSyncs.SyncMissesTheMap | src/fs/bofs/bitmap.c:184-193 | a bit whose sync leaves the region as it was and overwrites the block behind it |
| Bofs.FileSystem.AllocOneSector | src/fs/bofs/inode.c:286-313 | takes the lowest free bit, clears the block, -1 when the bitmap is full |
| Bofs.FileSystem.SyncInode | src/fs/bofs/inode.c:95-128 | the table block with this entry replaced goes through the cache |
| Bofs.FileSystem.LoadInodeByID | src/fs/bofs/inode.c:179-209 | the inode in its table entry; nothing changes |
| Bofs.FileSystem.SyncAndLoad | src/fs/bofs/inode.c:95-209 | an inode written back and loaded by its number is the one in memory; any other number loads what it did before |
| Bofs.FileSystem.GetBlockInInderect1 | src/fs/bofs/inode.c:357-425 | the block behind one index block, adding what is missing |
| Bofs.FileSystem.GetBlockInInderect2 | src/fs/bofs/inode.c:436-556 | the same behind two |
| Bofs.FileSystem.GetBlockInInderect3 | src/fs/bofs/inode.c:567-737 | the same behind three |
| Bofs.FileSystem.GetInodeData | src/fs/bofs/inode.c:751-816 | the method over cache, bitmap and inodes does what the lookup lemmas are about, and keeps the invariant |
| Bofs.FileSystem.FreeOneSector | src/fs/bofs/inode.c:315-330 | exactly one bit is cleared |
| Bofs.FileSystem.IsEmptyBlock | src/fs/bofs/inode.c:827-839 | whether no pointer of an index block is left |
| Bofs.FileSystem.FreeDown | src/fs/bofs/inode.c:849-1312 | frees the data block, then each index block whose last pointer that cleared |
| Bofs.FileSystem.PutBlockInInderect1 | src/fs/bofs/inode.c:849-949 | frees the block behind one index block |
| Bofs.FileSystem.PutBlockInInderect2 | src/fs/bofs/inode.c:959-1102 | the same behind two, with the return of line 1039 or without it |
| Bofs.FileSystem.PutBlockInInderect3 | src/fs/bofs/inode.c:1113-1312 | the same behind three |
| Bofs.FileSystem.PutBlockByBlockIndex | src/fs/bofs/inode.c:1325-1395 | chooses the tree by block number; -1 beyond the largest file |
| Bofs.FileSystem.ReleaseInodeData | src/fs/bofs/inode.c:1404-1424 | keeps the invariant exactly if the return of line 1039 is not taken or no block below the size is a level-2 block in use; empties the inode, and frees exactly what it owned, exactly if it was compact and, with that return, had no level-2 tree |
| Release.FreeDownCuts | src/fs/bofs/inode.c:849-1312 | an index block goes exactly when it held no other pointer, never earlier; the branch that is cut off is freed as a whole |
| Release.PutAtPrunes | src/fs/bofs/inode.c:1325-1395 | freeing one block removes exactly its branch: all other places, contents, owners and bits stay |
| Release.PutAtNothing | src/fs/bofs/inode.c:1325-1395 | a hole is skipped |
| ReleaseData.ReleaseToReleases | src/fs/bofs/inode.c:1404-1424 | after the first n block numbers exactly those are gone, and no other file was touched |
| ReleaseData.ReleaseEmptiesIff | src/fs/bofs/inode.c:1404-1424 | nothing is left exactly when the data lay below the size and no index block led nowhere |
| ReleaseData.ReleaseConservesIff | src/fs/bofs/inode.c:1404-1424 | the bitmap afterwards is the old one minus exactly the data and index blocks of the inode if and only if the inode was compact |
| ReleaseData.EarlyKeepsWfIff | src/fs/bofs/inode.c:1025-1042 | as the code stands, a release keeps bitmap, ownership and trees in agreement if and only if no block below the size is a level-2 block in use |
| ReleaseData.EarlyBreaksForAnyOwner | src/fs/bofs/inode.c:1025-1042 | otherwise no assignment of owners explains the bitmap that is left |
| ReleaseData.EarlyConservesIff | src/fs/bofs/inode.c:1025-1042 | as the code stands, it frees exactly what the inode owned if and only if the inode was compact and had no level-2 tree |
| ReleaseData.EarlyEmptiesIff | src/fs/bofs/inode.c:1025-1042 | as the code stands, a release empties an inode exactly if it has no level-2 tree as well |
| ReleaseData.EarlyReturnDangles | src/fs/bofs/inode.c:1025-1042 | what the early return leaves: a block free in the bitmap and still in the file |
| Growth.LookupKeepsNoBarrenIff | src/fs/bofs/inode.c:751-816 | a lookup leaves no index block without a child behind if and only if it finds its block or the disk was full before |
| Growth.RunUses | src/fs/bofs/file.c:739-1067 | over any run of finished reads and writes of a file every compact file stays compact and no other file changes |
| Growth.UsedThenReleased | src/fs/bofs/inode.c:1404-1424 | a file without blocks that is used in any such way and released leaves the bitmap exactly as before, if and only if the return of line 1039 is not taken or no level-2 tree grew |
| FileContents.LookupKeepsBytes | src/fs/bofs/file.c:970-1067 | looking up blocks of one file changes no byte of any file |
| FileContents.StoreInFile | src/fs/bofs/file.c:835-859 | storing one block changes the bytes of that block of that file only |
| FileContents.WriteStep | src/fs/bofs/file.c:829-868 | one turn of the write loop extends the bytes written by its chunk |
| FileContents.WriteIsSplice | src/fs/bofs/file.c:739-880 | a write is old[..p] + data + old[p + n..] exactly if it reaches the end of the file, ends on a block boundary, stays in one block, or the rest of the last block was zero |
| FileContents.WriteReadsBack | src/fs/bofs/file.c:739-880 | the bytes written read back at their place |
| FileContents.OthersKeepContents | src/fs/bofs/file.c:739-880 | at every stage of a write up to its end or to a lookup that finds no free block, where the model stops and the code goes on with a stale block number, the contents of every other file are what they were |
| FileContents.UnnoticedContents | src/fs/bofs/file.c:970-1067 | after a read every file has the contents it had |
| FileContents.WriteLosesTheTail | src/fs/bofs/file.c:835-859 | a file and a write for which it is not |
| Files.FileDescriptor.Lseek | src/fs/bofs/file.c:284-330 | from the start, the position or the end, with the conversions to int: the position moves to the target if that is within the file, else stays and -1; below 2 GB without conversions |
| Files.SeekIsPlain | src/fs/bofs/file.c:301-326 | in a file below 2 GB the conversions do not show |
| Files.FileDescriptor.WriteTurn | src/fs/bofs/file.c:829-868 | one turn: chunk stored, position and size moved on; with no free block nothing but the lookup happens |
| Files.FileDescriptor.WriteBytes | src/fs/bofs/file.c:829-868 | the loop: the bytes written so far are in the file, all of them unless no block is free |
| Files.FileDescriptor.FileWrite | src/fs/bofs/file.c:739-880 | the bytes of the file afterwards, size and position; no other file changes; inode on disk; a finished write keeps compact files compact |
| Files.FileDescriptor.WriteAndReopen | src/fs/bofs/file.c:739-880 | after a finished write the inode that the next open loads is the one in memory, with the new size |
| Files.FileDescriptor.ReadTurn | src/fs/bofs/file.c:1027-1057 | one turn: the bytes of the chunk from the file |
| Files.FileDescriptor.ReadBytes | src/fs/bofs/file.c:1027-1057 | the loop: the bytes of the file at the position |
| Files.FileDescriptor.FileRead | src/fs/bofs/file.c:970-1067 | exactly the slice up to the end of the file, -1 at the end; nobody can tell it happened; a finished read keeps compact files compact |
| Slabs.GroupFits | src/mm/memcache.c:91-131 | header, bitmap and objects of every size class fit their pages without overlap |
| Slabs.SizeClass | src/mm/memcache.c:414-423 | the smallest class that is large enough |
| Slabs.ScanStaysBelow | src/mm/memcache.c:283-294 | while a counter says that an object is free the scan ends among the objects, never in the slack bits |
| Slabs.LiveDisjoint | src/mm/memcache.c:275-312 | allocated objects never overlap |
| Slabs.LiveMissesHeaders | src/mm/memcache.c:156-203 | no allocated object overlaps the header or bitmap of any group |
| Slabs.ListsMatchCounters | src/mm/memcache.c:304-309 | a group is on the full, partial or free list exactly as its counters say, and usingCount is the number of set bits |
| Slabs.TakenValid | src/mm/memcache.c:275-312 | taking one object keeps bitmap, counters, lists, pages and marks in agreement and makes exactly it live |
| Slabs.GivenValid | src/mm/memcache.c:437-498 | freeing one object keeps them in agreement and makes exactly it dead |
| Slabs.FreeFinds | src/mm/memcache.c:443-465 | the page mark and the division lead from an object to its own bit |
| Slabs.NewGroupValid | src/mm/memcache.c:156-203 | a new group keeps the invariant and brings nothing live |
| Slabs.NeedsGroupIff | src/mm/memcache.c:342-363 | a new group is needed exactly if no group of the class has a free object |
| Slabs.StaleLink | src/mm/memcache.c:161-188 | a group linked before its object pages were refused breaks this free list, and no other list, group, page, mark or live object |
| Slabs.DestroyValid | src/mm/memcache.c:555-573 | destroying a free group keeps the invariant and everything live |
| Slabs.MemCaches.constructor | src/mm/memcache.c:237-266 | the size classes of the table, without groups |
| Slabs.MemCaches.MemGroupInit | src/mm/memcache.c:156-203 | group linked, bitmap cleared, object pages marked; fails after linking when there are no object pages |
| Slabs.MemCaches.CreateMemGroup | src/mm/memcache.c:211-234 | succeeds exactly if the pages suffice; a failure after the first page leaves exactly the stale link behind |
| Slabs.MemCaches.MemGroupAllocObject | src/mm/memcache.c:275-312 | one object more is live, the group is on the right list |
| Slabs.MemCaches.GroupAllocObject | src/mm/memcache.c:321-393 | with a free object in any group of the class it succeeds without a new group, from a partly used one if there is one; else it fails exactly if the pages do not suffice |
| Slabs.MemCaches.Kmalloc | src/mm/memcache.c:402-427 | the same for the smallest class that fits; null beyond 128 KB; the object is new to the caller; the state after every failure |
| Slabs.MemCaches.GroupFreeObject | src/mm/memcache.c:437-518 | exactly this object is dead, the group is on the right list |
| Slabs.MemCaches.Kfree | src/mm/memcache.c:525-545 | exactly this object is dead and its group has one free object more; null is ignored |
| Slabs.MemCaches.MemCacheShrink | src/mm/memcache.c:579-615 | destroys the free groups of one cache and no other, and returns the bytes of their objects |
| Slabs.MemCaches.Kmshrink | src/mm/memcache.c:620-637 | destroys exactly the groups without objects in use; nothing live changes |
| SlabRuns.Serve | src/mm/memcache.c:402-637 | each call does what the runs are made of, kmalloc returning null exactly when the free objects and the pages offered say so |
| SlabRuns.RunTracks | src/mm/memcache.c:402-637 | over any run of kmalloc, kfree and kmshrink in which no kmalloc that needs a new group is offered a page for it but none for its objects, the structure stays valid and the live objects are exactly those the callers hold, each of the class of the size asked for |
| SlabRuns.HeldApart | src/mm/memcache.c:402-637 | over such a run no two objects that callers hold overlap, taken with the sizes asked for |
| SlabRuns.FreedIsReused | src/mm/memcache.c:342-363 | a kmalloc that follows the kfree of an object of its class does not fail, whatever the page allocator has, and needs no new group |
| SlabRuns.RunValidIff | src/mm/memcache.c:161-188 | the structure stays valid over a run if and only if that holds of every kmalloc in it |
| SlabRuns.RefusedObjectPages | src/mm/memcache.c:161-188 | the first kmalloc of 1024 bytes, refused object pages, leaves a free list with a group that does not exist |
| SigSets.SigAddSet | src/share/signal.c:15-21 | the set gains exactly this signal, nothing for a bad number |
| SigSets.SigDelSet | src/share/signal.c:28-34 | the set loses exactly this signal |
| SigSets.SigEmptySet | src/share/signal.c:40-44 | no signal is in the set although bit 0 is set |
| SigSets.SigFillSet | src/share/signal.c:50-54 | every signal is in the set |
| SigSets.SigIsEmpty | src/share/signal.c:71-78 | a mask of 0 or 1 is exactly one without signals |
| Signals.SentKeeps | src/kernel/signal.c:433-487 | sending any signal keeps SIGKILL and SIGSTOP unblocked and at default, and a pending SIGKILL noticed |
| Signals.ForcedKeeps | src/kernel/signal.c:519-546 | so does forcing one |
| Signals.HandledFromKeeps | src/kernel/signal.c:333-422 | so does the loop of DoSignal, which no task but init leaves past a pending SIGKILL |
| Signals.StepKeeps | src/kernel/signal.c:311-764 | so does every operation on the signal state |
| Signals.RunKeeps | src/kernel/signal.c:311-764 | so does every run |
| Signals.ReachableKeeps | src/kernel/signal.c:311-764 | in every state that a new task reaches the invariant holds |
| Signals.ForkReachableKeeps | src/mm/fork.c:19-38 | and in every state that a task forked from such a state reaches |
| Signals.KillExits | src/kernel/signal.c:311-426 | a return to user mode with SIGKILL pending ends in SysExit, whatever else is pending, blocked or caught |
| Signals.ForkKeeps | src/mm/fork.c:19-38 | a forked task, which starts with a copy of the signal state, keeps the invariant |
| Signals.KillIsNotLost | src/kernel/signal.c:311-764 | sent in any state that keeps the invariant, SIGKILL ends a task other than init no later than its next return to user mode, whatever happens in between |
| Signals.InitNeverExits | src/kernel/signal.c:366-368 | init exits for no signal |
| SignalDelivery.RunSane | src/kernel/signal.c:311-764 | every run keeps that only signals are pending and signalLeft is set only if one is |
| SignalDelivery.ReachableSane | src/kernel/signal.c:311-764 | so it is in every state that a new task reaches |
| SignalDelivery.SentMarks | src/kernel/signal.c:433-487 | a signal sent becomes pending, from its sender, unless the task neither blocks it nor cares for it; nothing else does, and the blocks it lifts are lifted |
| SignalDelivery.SentNotices | src/kernel/signal.c:157-203 | a new signal that is not blocked is noticed, and none is forgotten |
| SignalDelivery.SentWakes | src/kernel/signal.c:433-487 | which signals wake a stopped and a blocked task |
| SignalDelivery.SendFailsIff | src/kernel/signal.c:433-487 | exactly when sending fails |
| SignalDelivery.ForcedDelivers | src/kernel/signal.c:519-546 | a forced signal is neither blocked nor ignored, and pending unless its default is to ignore it |
| SignalDelivery.ActionsSet | src/kernel/signal.c:605-709 | which action a signal has after signal and sigaction, and which pending signal goes |
| SignalDelivery.MaskedBlocks | src/kernel/signal.c:721-764 | which signals each way of setting the mask blocks |
| SignalDelivery.HandlersEntered | src/kernel/signal.c:333-422 | a return to user mode on which nothing stops the task exits exactly with the lowest signal that ends it, and enters exactly the handlers of the deliverable signals below that have one, in ascending order; exactly those for one shot are reset |
| SignalDelivery.CatchAndEnter | src/kernel/signal.c:253-263 | a task that sets a handler and gets the signal enters that handler and no other on its next return to user mode |
| SignalDelivery.UserReturnClears | src/kernel/signal.c:311-426 | whatever arrives while the task is stopped, a return to user mode ends the task or leaves no deliverable signal if and only if there was none, or signalLeft is set and a deliverable signal ends the task or none stops it |
| SignalDelivery.StopForgets | src/kernel/signal.c:382-393 | a task that SIGTSTP stops gets SIGTERM and is continued: back in user mode SIGTERM is deliverable |
| SignalDelivery.UnblockingForgets | src/kernel/signal.c:742-746 | a signal unblocked while pending is not delivered: signalLeft stays clear |
| TaskSignals.Task.constructor | src/kernel/task.c:132-152 | every action default, nothing pending or blocked |
| TaskSignals.Task.HandleStopSignal | src/kernel/signal.c:66-101 | what SIGKILL and SIGCONT, and the stop signals, unblock; stopped tasks wake |
| TaskSignals.Task.IgnoreSignal | src/kernel/signal.c:112-147 | which unblocked signals are dropped on arrival |
| TaskSignals.Task.DeliverSignal | src/kernel/signal.c:157-203 | pending with its sender; signalLeft and wake-up only if unblocked |
| TaskSignals.Task.DoSendSignal | src/kernel/signal.c:433-487 | the state after a send and the result, in all cases |
| TaskSignals.Task.ForceSignal | src/kernel/signal.c:519-546 | an ignored signal is reset and unblocked before it is sent; the result is that of the send |
| TaskSignals.Task.SysSignal | src/kernel/signal.c:605-646 | action set with SA_ONESHOT; SIGKILL, SIGSTOP and bad numbers refused |
| TaskSignals.Task.SysSignalAction | src/kernel/signal.c:657-709 | action set and old one returned; refused as above |
| TaskSignals.Task.SysSignalProcessMask | src/kernel/signal.c:721-764 | the new mask never blocks SIGKILL or SIGSTOP; old mask returned; -1 for an unknown mode |
| TaskSignals.Task.HandleOne | src/kernel/signal.c:335-421 | ignored, default or caught: the state, the exit, and for a caught one the process in its handler |
| TaskSignals.Task.HandleSignals | src/kernel/signal.c:333-422 | the loop: the state, the exit, and the frames pushed |
| TaskSignals.Task.DoSignal | src/kernel/signal.c:311-426 | nothing on a return to kernel mode or without signals; else the process returns into the handler of the highest caught signal, or where it was if none is caught |
| SignalFrames.FramesDescend | src/kernel/signal.c:205-242 | frames of one DoSignal lie below each other without overlap |
| SignalFrames.LastHandlerSees | src/kernel/signal.c:213-240 | the handler of the last frame starts with its argument and a return address whose code calls SysSignalReturn |
| SignalFrames.ReturnUndoesPush | src/kernel/signal.c:279-304 | its return and SysSignalReturn restore the registers of before the push exactly |
| SignalFrames.UnwindingRestores | src/kernel/signal.c:205-304 | as many returns as signals caught restore the original trap frame exactly, last pushed first |
| SignalFrames.UserContext.BuildSignalFrame | src/kernel/signal.c:205-242 | registers and stack after a push, the rest of memory unchanged |
| SignalFrames.UserContext.SysSignalReturn | src/kernel/signal.c:279-304 | the registers saved in the frame at esp - 4 |
| VMSpaces.PageAlign | src/arch/x86/include/mm/page.h:97 | the next page boundary; the last page wraps to 0 |
| VMSpaces.Find | src/mm/vmspace.c:160-171 | the first mapping that ends above an address |
| VMSpaces.UnmappedIsFirstFit | src/mm/vmspace.c:25-50 | a result is the lowest address from the base whose range is free; -1 means that none fits in user space |
| VMSpaces.UnmappedStaysInside | src/mm/vmspace.c:34-49 | the result is inside user space exactly if some range fits |
| VMSpaces.UnmappedOverrunsIff | src/mm/vmspace.c:34-49 | it reaches beyond user space exactly if no range fits and no mapping but the last ends too high |
| VMSpaces.UnmappedOverruns | src/mm/vmspace.c:48-49 | a list for which the result is the end of user space |
| VMSpaces.InsertedMaps | src/mm/vmspace.c:99-130 | the list stays sorted and exactly the new range is mapped |
| VMSpaces.MmapMaps | src/mm/vmspace.c:227-299 | mmap maps exactly a free range with the given protection and flags, first fit unless fixed, or changes nothing; the list stays good exactly if the range is in user space |
| VMSpaces.MunmapUnmaps | src/mm/vmspace.c:310-377 | with the previous mapping known, munmap unmaps exactly the range or changes nothing |
| VMSpaces.MunmapAsCodedIff | src/mm/vmspace.c:328-372 | as the code stands it unmaps exactly the range if and only if the range does not begin its mapping or that is the first |
| VMSpaces.MunmapLosesPredecessors | src/mm/vmspace.c:328-367 | a list for which it does not |
| VMSpaces.GrownMaps | src/mm/vmspace.c:473-537 | DoBrk fails without a mapping above, and else maps exactly the range and joins it to the heap |
| VMSpaces.HeapExactMeans | src/mm/vmspace.c:473-616 | the addresses mapped for the heap are exactly [brkStart, PAGE_ALIGN(brk)), no fewer and no more |
| VMSpaces.BrkKeepsHeap | src/mm/vmspace.c:548-616 | brk keeps that; the break moves exactly when it can; a failed call changes nothing |
| VMSpaces.BrkMovesIff | src/mm/vmspace.c:548-616 | exactly when the break moves, told from the list of mappings |
| VMSpaces.MunmapKeepsList | src/mm/vmspace.c:310-377 | any munmap, with the previous mapping known or not, keeps the list sorted, aligned and disjoint, maps nothing new, and leaves nothing of the range mapped |
| VMSpaces.BrkKeepsList | src/mm/vmspace.c:548-616 | so does any brk, whatever was unmapped before; outside the heap it maps nothing |
| VMSpaces.BrkShrinkAsCodedIff | src/mm/vmspace.c:574-582 | as the code stands, shrinking unmaps exactly the difference if and only if it leaves a part of the mapping or that is the first |
| VMRuns.StepKeepsListIff | src/mm/vmspace.c:227-616 | of all calls exactly an mmap that overruns user space breaks the list, in the code as it stands too |
| VMRuns.RunKeepsListIff | src/mm/vmspace.c:227-616 | over any run of mmap, munmap and brk the list stays sorted, aligned and disjoint if and only if no mmap overruns user space |
| VMRuns.RunKeepsInside | src/mm/vmspace.c:227-616 | over any run in which no mmap asks for the flags of the heap, whatever is unmapped, nothing outside [brkStart, PAGE_ALIGN(brk)) is mapped for the heap |
| VMSpaces.BrkKeepsExact | src/mm/vmspace.c:548-616 | brk keeps the heap exact in the code as it stands too |
| VMRuns.MapsIff | src/mm/vmspace.c:227-299 | an mmap that is not fixed maps a range in user space if and only if its arguments are acceptable, there is memory, and a range fits |
| VMRuns.MapsFixedIff | src/mm/vmspace.c:227-299 | a fixed mmap maps its range if and only if the address is on a page, the range is acceptable and free, and there is memory |
| VMRuns.UnmapsIff | src/mm/vmspace.c:310-354 | an munmap succeeds if and only if its arguments are acceptable, one mapping holds the whole range, and there is memory |
| VMRuns.StepKeepsHeapIff | src/mm/vmspace.c:227-616 | the heap stays exact in a call if and only if it is no mmap that maps with its flags or overruns user space, no munmap that takes some of it and, in the code as it stands, none that begins a mapping above it |
| VMRuns.RunKeepsHeapIff | src/mm/vmspace.c:227-616 | over any run the heap is exactly [brkStart, PAGE_ALIGN(brk)) all the time if and only if every call is such |
| VMRuns.MunmapLosesHeap | src/mm/vmspace.c:328-367 | an munmap above the heap that loses the heap in the code as it stands |
| MemoryManagers.MemoryManager.FindVMSpace | src/mm/vmspace.c:160-171 | the search loop finds that mapping, or null |
| MemoryManagers.MemoryManager.FindVMSpacePrev | src/mm/vmspace.c:181-195 | the same with the mapping before, handed back or lost |
| MemoryManagers.MemoryManager.FindVMSpaceIntersection | src/mm/vmspace.c:205-216 | whether a mapping meets the range |
| MemoryManagers.MemoryManager.GetUnmappedVMSpace | src/mm/vmspace.c:25-50 | the search loop is the first fit of the lemmas |
| MemoryManagers.MemoryManager.InsertVMSpace | src/mm/vmspace.c:99-130 | before the first mapping that starts at or above its end |
| MemoryManagers.MemoryManager.RemoveVMSpace | src/mm/vmspace.c:140-151 | the list without the mapping, or from behind it when no previous one is known |
| MemoryManagers.MemoryManager.DoMmap | src/mm/vmspace.c:227-299 | new list and result of mmap, every error included |
| MemoryManagers.MemoryManager.CutSpace | src/mm/vmspace.c:356-372 | the mapping split around the range, empty halves removed |
| MemoryManagers.MemoryManager.DoMunmap | src/mm/vmspace.c:310-377 | new list and result of munmap, every error included |
| MemoryManagers.MemoryManager.DoBrk | src/mm/vmspace.c:473-537 | new list and result of DoBrk |
| MemoryManagers.MemoryManager.SysBrk | src/mm/vmspace.c:548-616 | new list and break of brk |
| Schedulers.ScheduledValid | src/kernel/schedule.c:31-88 | Schedule leaves exactly one running task and none of its assertions fails, the idle wake-up included |
| Schedulers.StepValid | src/kernel/task.c:258-550 | every scheduler call keeps the invariant |
| Schedulers.RunValid | src/kernel/task.c:258-550 | so does every run |
| Schedulers.ReachableValid | src/kernel/schedule.c:31-88 | in every reachable state exactly one task runs and the ready list is exactly the ready tasks, once each |
| Schedulers.TickRotates | src/kernel/schedule.c:37-72 | on a tick or a yield the first ready task runs and the caller is ready, last in the list; alone it runs on |
| Schedulers.BlockLeaves | src/kernel/task.c:363-387 | a blocked caller is on no list; the first ready task runs, or the main thread |
| Schedulers.OthersStay | src/kernel/task.c:258-422 | what waking, starting and freeing a task change, and that nothing else changes |
| Schedulers.StepRunnable | src/kernel/task.c:258-550 | exactly which calls make a task runnable or stop it |
| Schedulers.StaysRunnable | src/kernel/task.c:258-550 | over any run a task that was started or woken stays ready or running until it blocks itself or is freed |
| Schedulers.PlaceStep | src/kernel/schedule.c:37-72 | how one call moves a task in the ready list |
| Schedulers.DispatchDelay | src/kernel/schedule.c:37-72 | a ready task at position k runs after exactly k + 1 + w calls of Schedule, less the tasks ahead of it that are freed |
| Tasks.TaskLists.constructor | src/kernel/task.c:345-358 | the main thread runs and the ready list is empty |
| Tasks.TaskLists.TaskUnblock | src/kernel/task.c:393-422 | first in the ready list, and ready |
| Tasks.TaskLists.TaskWakeUp | src/kernel/sleep_wakeup.c:21-27 | wakes blocked and stopped tasks, leaves others |
| Tasks.TaskLists.SemaphoreWake | src/include/book/semaphore.h:84-99 | the woken waiter is first in the ready list |
| Tasks.TaskLists.Schedule | src/kernel/schedule.c:31-88 | the first ready task runs; a running one goes to the end |
| Tasks.TaskLists.TaskBlock | src/kernel/task.c:363-387 | the caller leaves the processor in the given state |
| Tasks.TaskLists.TaskYield | src/kernel/task.c:532-550 | the caller goes to the end of the ready list |
| Tasks.TaskLists.ThreadStart | src/kernel/task.c:258-291 | the new task is ready, last in the list |
| Tasks.TaskLists.ThreadExit | src/kernel/task.c:297-318 | the task is on no list any more |
| Synclocks.StepKeeps | src/kernel/synclock.c:32-94 | every step of SyncLock and SyncUnlock keeps the invariant |
| Synclocks.LockIsSafe | src/kernel/synclock.c:19-94 | at most one task is inside, the count is its nesting depth, a positive counter means no waiters, no assertion fails |
| Synclocks.CountIsBalance | src/kernel/synclock.c:32-94 | the count is the number of calls of SyncLock less those of SyncUnlock of the task inside, any task outside has unlocked as often as it locked, and while one is inside the others have nothing to unlock |
| Synclocks.LockTakes | src/kernel/synclock.c:32-62 | a whole call on a free lock takes it |
| Synclocks.LockNests | src/kernel/synclock.c:54-61 | a whole call of the task inside counts one more, without waiting |
| Synclocks.UnlockUndoes | src/kernel/synclock.c:69-79 | a whole unlock undoes one lock |
| Synclocks.UnlockReleases | src/kernel/synclock.c:81-94 | the last one gives the lock up, to the first that waits |
| Synclocks.QueueStep | src/include/book/semaphore.h:67-116 | waiters join at the end and are granted from the front, one for each release |
| Synclocks.GrantedInOrder | src/include/book/semaphore.h:67-116 | the waiter at position k gets the lock at exactly the (k + 1)st release |
| Mutexes.StepKeeps | src/kernel/mutex.c:47-189 | every atomic step keeps the invariant |
| Mutexes.MutualExclusion | src/kernel/mutex.c:47-189 | at most one task holds the mutex, the count is not positive while one does and never above 1, in every interleaving |
| Mutexes.QueueExclusion | src/kernel/mutex.c:76-186 | one task at a time is in the wait queue |
| Mutexes.FreeIsTaken | src/kernel/mutex.c:47-64 | a free mutex is taken at once |
| Mutexes.UnlockFrees | src/kernel/mutex.c:148-161 | an unlock makes it free again if nobody tried to lock meanwhile |
| Mutexes.LockSleeps | src/kernel/mutex.c:54-104 | a lock that comes too late puts the task last in the queue, asleep |
| Mutexes.UnlockWakes | src/kernel/mutex.c:148-189 | an unlock that finds others wakes the first in the queue |
| Mutexes.WaiterGets | src/kernel/mutex.c:87-125 | a waiter that finds the count 1 gets the mutex and leaves the queue |
| Mutexes.KillsIff | src/kernel/mutex.c:148-189 | the mutex is neither held nor free after a step if and only if that is the increment of an unlock after another task had tried to lock |
| Mutexes.AliveIff | src/kernel/mutex.c:47-189 | over any run the mutex stays held or free if and only if no unlock finds that another task had tried to lock; after one no task gets it any more |
| Mutexes.TwoTasksDie | src/kernel/mutex.c:47-189 | six steps of two tasks after which no task gets the mutex any more |
| Crcs.EntryIsFourShifts | src/net/ethernet.c:162-167 | each table entry is four shifts of its index, seen in the complement |
| Crcs.TableStep | src/net/ethernet.c:172-173 | one table step is four shifts of the complemented register |
| Crcs.ByteStepIsEightShifts | src/net/ethernet.c:172-173 | the loop body is the division by one byte |
| Crcs.EthernetCrc | src/net/ethernet.c:160-177 | for every byte string the table, started at 0, gives the bitwise reflected CRC-32 with all-ones start and final complement (IEEE 802.3, section 3.2.9) |
| WashPaths.ParsePathAfterward | src/fs/bofs/dir.c:906-922 | name and rest have the meaning of the path they come from |
| WashPaths.WashPath | src/fs/bofs/dir.c:932-973 | the loop that edits the output computes the fold of the parts under the empty, . and .. rules |
| WashPaths.CutLast | src/fs/bofs/dir.c:948-958 | cutting at the last slash is going one up |
| WashPaths.PushName | src/fs/bofs/dir.c:960-964 | appending a name is going one down |
| WashPaths.WashIsClean | src/fs/bofs/dir.c:932-973 | the result is absolute, without empty, . and .. parts, and without a trailing slash unless it is the root |
| WashPaths.WashKeepsMeaning | src/fs/bofs/dir.c:932-973 | the washed path means the same directory |
| WashPaths.WashIsIdempotent | src/fs/bofs/dir.c:932-973 | washing twice is washing once |
| IoQueues.IoQueue.constructor | src/kernel/ioqueue.c:26-54 | empty queue over a cleared buffer |
| IoQueues.IoQueue.FullIff | src/include/book/ioqueue.h:72-75 | full is having as many values as the buffer has units |
| IoQueues.IoQueue.IoQueuePut | src/kernel/ioqueue.c:76-129 | appends the first factor bytes of the value |
| IoQueues.IoQueue.IoQueueGet | src/kernel/ioqueue.c:135-190 | takes the oldest value |
| Lists.Without | src/include/book/list.h:121-133 | unlinking takes exactly one element off a list |
| Lists.WithoutRepeats | src/include/book/list.h:114-133 | unlinking and linking again at the end never makes an element appear twice |
| IoQueues.QueueIsFifo | src/kernel/ioqueue.c:76-190 | on plain lists: over any run the values got are a prefix of the values put, and the size is puts minus gets, at most the capacity |
| IoQueues.Exchange | src/kernel/ioqueue.c:76-190 | so does the ring: any run of puts and gets on a queue returns what was in it and what was put, in order, and the rest is still in it |

## Left out

- Bofs.FileSystem.AllocOneSector: leaves out BOFS_SyncBitmap, which writes to sectorBitmapLba + idx / 4096 where the region has one block for each 8192 bits (BitmapSyncs.SyncHoldsIff): beyond the first half of the map it overwrites the inode bitmap, and on larger disks the inode table. What is said of the inode table here (OnDisk, TableKept) is about the code without that write, and the bitmap in memory is taken as the truth.
- Bofs.FileSystem.FreeOneSector: likewise.
- Lookups.RunGrows: one copy in memory of each inode. A file opened twice has two, which then allocate each for itself (Lookups.FirstCopyIsLost).
- Device errors, out-of-range blocks and a data area that does not fit the disk are excluded by preconditions; so is a BOFS block size other than 1024.
- Directory entries, file creation and removal, descriptors shared between tasks or several of one file, and file modes.
- BlockDevices.Disk.DoBlockRequest: requires one request in the queue, as a single synchronous requester leaves it; elevator order is not modelled.
- BlockDevices.Disk.AddRequest: requires that nothing is queued or in service, likewise.
- Buffer reference counts, waiting for a locked buffer, and waking its waiter.
- Bitmaps.Bitmap.Scan: requires a count above zero, as its callers do; the first loop also reads the byte behind a full map, which does not affect the result.
- Files.FileDescriptor.FileWrite: a write that finds the disk full may leave an index block without a child (Growth.LookupKeepsNoBarrenIff), so it is not said to keep files compact; requires position plus count below 2^32; when the disk fills up on the way the code goes on with a stale block number, and the model stops there and reports it.
- Files.FileDescriptor.WriteTurn: a lookup that finds no free block ends the turn, where the code stores to a stale block number.
- Files.FileDescriptor.ReadTurn: likewise, where the code reads a stale block number.
- FileContents.OthersKeepContents: says nothing about what the code writes after such a lookup.
- Files.FileDescriptor.FileRead: requires position plus count below 2^32, and the position to be within the file, as seeking, reading and writing leave it; another descriptor could shorten the file.
- Bofs.FileSystem.FreeDown: one recursive method for what the source writes out three times, once for each depth of the tree; ChildOrNew and RootOrNew are likewise the steps that the lookups share.
- Slabs.MemCaches.Kmalloc: groups are values in a map by address, not memory; interrupts are off during a call, so calls do not interleave; page addresses are below the 32-bit limit.
- SigSets.SigAddSet: a mask is its 32 bits, not a machine word.
- Sending to process groups, the signalCatched flag that pause and suspend wait for, and the timer that a sleeping task cancels beyond its being cancelled.
- Signals.KillIsNotLost: resetting actions by exec is not among the operations of a run.
- SignalFrames.UserContext.BuildSignalFrame: requires room on the stack below esp; without it the addresses wrap round.
- SignalFrames.UserContext.SysSignalReturn: requires an aligned stack pointer that points behind a frame in memory.
- VMRuns.RunKeepsListIff: brkStart is positive and page-aligned, as exec sets it.
- Page tables, page faults, and releasing a whole address space.
- Priorities and ticks beyond their reset, address-space switches, and blocking of the main thread on a semaphore.
- Tasks.TaskLists.ThreadExit: requires a task other than the caller and the main thread.
- Tasks.TaskLists.TaskBlock: requires that the main thread does not become a zombie.
- TaskSleepOn (src/kernel/sleep_wakeup.c:33-48), which can mark a task as blocked while it is in the ready list.
- Synclocks.LockIsSafe: SemaphoreDown and SemaphoreUp are indivisible, and a waiter is not woken by a signal.
- Mutexes.MutualExclusion: the owner field and MutexTryLock are not modelled, and decrement or increment with the test of the result is one step, as interrupts are off.
- WashPaths.WashPath: the name buffer of 250 bytes and the size of the output buffer are not modelled.
- IoQueues.IoQueue.IoQueueGet: requires a value in the queue, where the code waits for one.
- IoQueues.IoQueue.IoQueuePut: requires room, where the code waits for it; the caller does not block, there is no waiting consumer, and a factor of 8 takes the eight bytes at the address of the value although the parameter has four.
- Hardware drivers, network protocols, the graphical interface, the shell, ELF loading and user-space malloc.
