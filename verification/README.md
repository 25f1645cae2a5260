# FreakOS kernel: verified model

This project models the four stateful layers of the FreakOS kernel in Dafny and proves that each one keeps the simple
meaning it stands for.

- **Storage.** The write-back sector cache is invisible and evicts exactly the least recently used sector (`BlockCache`,
  `Recency`). Packed 12-, 16- and 32-bit FAT entries behind a one-sector window refine a table of numbers, with all FAT
  copies equal after a write-back (`FatEntries`, `FatGeometry`, `FatVolume`). Cluster chains stay acyclic and disjoint in
  every run (`ClusterHeap`). An open file refines a sequence of bytes under read, write, seek and truncate (`FileLayout`,
  `FatFile`), and what was synchronised survives the loss of all memory (`FatSync`). 8.3 names print and parse back (`ShortNames`). Constants and layouts follow the sections "FAT Data
  Structure" and "FAT Type Determination" of the Microsoft FAT32 File System Specification 1.03.
- **Memory.** The first-fit page allocator with its one coalescing pass (`PageAllocator`), two-level page tables with exact
  reference counts (`PageTables`, 32-bit paging as in section 4.3 of the Intel Software Developer's Manual, volume 3A),
  sorted areas with a lookup cache (`VmaList`), fork-time copy and exit-time teardown (`AddressSpace`), and the ELF segment
  loader (`ElfLoader`, "Program Header" in chapter 5 of the System V ABI).
- **Concurrency.** Run queue, wait queues and semaphores as a transition system whose actions are the sections with
  interrupts masked (`Scheduling`), what holds in every run of it (`SchedulingRuns`), and the code that performs its steps
  (`KernelState`).
- **Processes.** Parents, children and siblings under fork, exit and wait (`ProcessTree`).
- `IntrusiveList` shows that the linked list of kern/include/list.h is a sequence; the other modules use sequences for it.

State that the source updates in place is a class with the source's fields; ghost fields hold its abstract value (the view
of the cache, the visible disk, the present mappings, the sibling lists), and `Valid()` ties the two together. Every method
is proved against that abstract value, and every method keeps `Valid()` (a write or a seek on a full disk keeps what its
contract says instead), so the properties hold after any sequence of calls. Pure value-level lemmas carry the arguments.
Where a contract speaks through a function of the model, a lemma beside it spells the function out in the bytes, numbers and
places of the source. `dafny verify dfyconfig.toml` checks the whole project.

## What the code does not promise

- `acquireSem` panics if the idle task ever has to wait for a semaphore: `schedule` picks the idle task when the run queue
  is empty even though it sleeps. `SchedulingRuns.NoPanic` proves the panic unreachable as long as the idle task never calls
  `acquireSem` on a semaphore that is not free; `SchedulingRuns.PanicReachable` builds a run to the panic from every
  state in which it does, and `SchedulingRuns.PanicFromBoot` one from the start of the system, on a lock of initial value 1
  that a sleeping task holds and no task ever releases wrongly.
- Nothing stops a task from calling `up` on a semaphore that it does not hold: `SchedulingRuns.SemaphoreSafety` counts such
  releases; mutual exclusion for a lock holds in every run without them (`SchedulingRuns.MutualExclusion`).
- `remove_chain` counts the cluster on which it stops as freed when that cluster was free already:
  `ClusterHeap.StepsCount` gives the count exactly, and it is right if and only if the chain does not run into a free
  cluster; `ClusterHeap.OverCounts` is a table on which it is wrong.
- `fatbase_getfree` looks at entries 0 and 1 and at the reserved bits of 32-bit entries. `FatVolume.Volume.GetFree` states
  its count exactly: it is the number of free clusters if and only if as many of entries 0 and 1 are zero as free clusters
  have reserved bits set; `FatVolume.Miscounts16` and `FatVolume.Miscounts32` have, for every size of a 16- and a 32-bit
  volume, a table counted too high and one counted too low.
- A write that fills the disk stores what fits, but leaves the counter of the sectors left in the cluster at 0, which is no
  sound position (`FatFile.File.Write`, `FatFile.File.StuckUnsound`): the counter has 8 bits, so another write counts it
  down to 255 and goes to the sector behind the cluster.
- A seek that finds the disk full clips the position to the end of the clusters, but computes the current sector from
  cluster 0 (`FatFile.File.Lseek`).
- `mm_map` accepts a range that wraps around the address space, for a smaller area: `VmaList.MapCovers` shows that the area
  covers what was asked for if and only if the range does not wrap, `VmaList.MapWraps` gives an instance.
- `mm_map` refuses a range that starts inside an area, but one that only runs into a later area reaches the panic of
  `insert_vma`: `VmaList.MemMap.Map` says exactly when, and `VmaList.MapPanics` makes it happen.
- The re-parenting loop of `do_exit` never ends for an init task that has children: a turn changes nothing
  (`ProcessTree.InitTurn`, `ProcessTree.InitNeverDone`). For every other task it ends with all children moved
  (`ProcessTree.Tasks.GiveChildren`).
- `load_icode` skips a segment whose size in the file is 0, even if its size in memory is not
  (`ElfLoader.BssSkipped`).
- An 8.3 name is printed as it was given if and only if neither part mixes cases and it has no redundant dot
  (`ShortNames.PrintedAsGiven`, with instances in `ShortNames.PrintedOtherwise`).

## Model

| member | source | states |
|---|---|---|
| Recency.MostRecentByLastUse | kern/driver/bcache.c:155-159 | the most-recent-first list of a history orders sectors by the position of their last use |
| Recency.MostRecentStep | kern/driver/bcache.c:83-87 | using a listed sector again moves it to the front; using a new one puts it there |
| BlockCache.ViewUnique | kern/driver/bcache.c:74-90 | slots and devices determine what clients see |
| BlockCache.HitKeepsView | kern/driver/bcache.c:74-89 | serving an access from a slot returns the view and changes it at that key only, and only for a write |
| BlockCache.WriteBackKeepsView | kern/driver/bcache.c:123-131 | writing a slot back to its device changes nothing a client sees |
| BlockCache.InstallKeepsView | kern/driver/bcache.c:92-153 | replacing a clean or empty slot returns the view and changes it at the new key only |
| BlockCache.AgesInvisible | kern/driver/bcache.c:155-159 | counting the ages changes neither the view nor the coherence of slots and devices |
| BlockCache.LruStep | kern/driver/bcache.c:92-159 | one access keeps, unless it wraps an age: the occupied slots hold the most recently used distinct sectors, ages are pairwise distinct, ordered by recency, and each the number of accesses since the last use |
| BlockCache.WrapMeansUnused | kern/driver/bcache.c:155-159 | an age wraps only because of a sector that stayed cached but unused for 2^32 - 1 accesses |
| BlockCache.ExactLru | kern/driver/bcache.c:92-159 | as long as no age has wrapped, in runs of any length: a used sector that is not cached was last used before every cached one, and then no slot is empty |
| BlockCache.UnusedMeansIdled | kern/driver/bcache.c:155-159 | a cached sector that stayed unused for 2^32 - 1 accesses shows in the history of accesses alone |
| BlockCache.ExactUnlessIdled | kern/driver/bcache.c:92-159 | in any history in which no sector went unused for 2^32 - 1 accesses, the cache is exactly least-recently-used, through every caller |
| BlockCache.Cache.constructor | kern/driver/bcache.c:22-34 | an empty cache shows the devices |
| BlockCache.Cache.Find | kern/driver/bcache.c:74-90 | finds the slot of a sector if and only if there is one |
| BlockCache.Cache.Choose | kern/driver/bcache.c:92-120 | picks an empty slot, or else one of greatest age |
| BlockCache.Cache.Hit | kern/driver/bcache.c:75-88 | a hit returns the view and keeps the whole invariant |
| BlockCache.Cache.Install | kern/driver/bcache.c:94-153 | filling or replacing a slot returns the view and keeps the whole invariant |
| BlockCache.Cache.ReadWrite | kern/driver/bcache.c:70-162 | every access returns the view; a write changes it at one key only; no sector sits in two slots; clean slots equal the device; LRU stays exact until an age wraps, which takes a sector cached but unused for 2^32 - 1 accesses |
| BlockCache.Cache.ReadSectors | kern/driver/bcache.c:165-188 | a request of n sectors returns their view, and is n accesses in the history |
| BlockCache.Cache.WriteSectors | kern/driver/bcache.c:165-188 | a request of n sectors changes the view of exactly these sectors, and is n accesses in the history |
| BlockCache.Cache.SyncAll | kern/driver/bcache.c:189-204 | afterwards the devices equal the view everywhere |
| FatEntries.EntryStore | kern/fs/fat/fat_base.c:401-487 | reading after writing gives the value truncated to the entry's width, and every other entry is as before, also when 12-bit entries share a byte |
| FatEntries.Entry12Store | kern/fs/fat/fat_base.c:455-468 | the same for 12-bit entries, whose bytes belong to two entries |
| FatEntries.EntryIsField | kern/fs/fat/fat_base.c:401-436 | the entry of cluster c is the c-th little-endian field of 12, 16 or 32 bits, spelled out in bytes |
| FatGeometry.CopiesApart | kern/fs/fat/fat_base.c:347-353 | different copies of FAT sectors never share a sector |
| FatGeometry.TableStore | kern/fs/fat/fat_base.c:443-487 | storing an entry in the bytes of the FAT updates the table of numbers at one place |
| FatGeometry.ClustersInOrder | kern/fs/fat/fat_base.c:582-590 | cluster 2 begins where the data area begins, and each cluster behind the one before |
| FatGeometry.FatByte | kern/fs/fat/fat_base.c:408-436 | byte i of sector n of the FAT is byte 512 n + i of the table |
| FatGeometry.TypeByClusters | kern/fs/fat/fat_base.c:1025-1036 | 12 bits below 4085 clusters, 32 bits from 65525 on |
| FatVolume.MirroredFrame | kern/fs/fat/fat_base.c:344-353 | writing a FAT sector with its copies changes no other visible sector |
| FatVolume.MirroredAgree | kern/fs/fat/fat_base.c:344-353 | writing a FAT sector with its copies keeps all copies equal |
| FatVolume.WriteWithCopies | kern/fs/fat/fat_base.c:344-353 | the loop writes the sector and all its copies |
| FatVolume.Volume.constructor | kern/fs/fat/fat_base.c:915-1068 | a mounted volume shows the drive |
| FatVolume.Volume.Flush | kern/fs/fat/fat_base.c:343-354 | the dirty window goes to the drive; what the file system sees does not change |
| FatVolume.Volume.MoveWindow | kern/fs/fat/fat_base.c:331-363 | moving the window never changes what the file system sees; sector 0 only writes back |
| FatVolume.Volume.CopiesHoldFat | kern/fs/fat/fat_base.c:347-353 | once the window is written back every FAT copy on the drive is the FAT the file system sees |
| FatVolume.Volume.ReadData | kern/fs/fat/fat_base.c:1264-1278 | reading past the window gives the visible data sectors |
| FatVolume.Volume.WriteData | kern/fs/fat/fat_base.c:1354-1365 | writing past the window changes exactly these data sectors and no FAT entry |
| FatVolume.Volume.GetCluster | kern/fs/fat/fat_base.c:401-436 | the table's entry, or 1 for a number that is no cluster |
| FatVolume.Volume.PutCluster | kern/fs/fat/fat_base.c:443-487 | the table changes at that cluster only, to the truncated value; no data sector changes |
| FatVolume.Volume.RemoveChain | kern/fs/fat/fat_base.c:495-516 | terminates on every table, cyclic ones included, and leaves exactly the followed entries zero; fails if and only if the walk meets an entry equal to 1; free_clust grows by the steps taken; marks FSInfo as changed exactly when it counts |
| FatVolume.Volume.FindFree | kern/fs/fat/fat_base.c:544-559 | the first cluster behind the start, wrapping around, that is free or marked 1, and which of both it is; 0 only if there is none |
| FatVolume.Volume.SearchStart | kern/fs/fat/fat_base.c:529-542 | the start of the search (for a new chain the cluster allocated last, if that is one), or the answer for a cluster that has a successor or is invalid |
| FatVolume.Volume.Link | kern/fs/fat/fat_base.c:561-573 | the free cluster becomes the end of the chain, and one cluster less is free |
| FatVolume.Volume.CreateChain | kern/fs/fat/fat_base.c:524-575 | the table after create_chain, for every hint: a new cluster is the first free one behind the end of the chain or, for a new chain, behind the one allocated last; last_clust, free_clust and the FSInfo mark afterwards; free_clust stays exact; no data sector changes |
| FatVolume.CreatedIffFree | kern/fs/fat/fat_base.c:544-559 | without entries equal to 1, create_chain returns 0 exactly when no cluster is free, and otherwise one that was free |
| FatVolume.Volume.Scan12 | kern/fs/fat/fat_base.c:1731-1736 | counts the zero entries |
| FatVolume.Volume.Scan16 | kern/fs/fat/fat_base.c:1737-1760 | the sector scan with its wrapping 8-bit counter counts all zero entries, 0 and 1 included |
| FatVolume.Volume.Scan32 | kern/fs/fat/fat_base.c:1737-1760 | the same for 32-bit entries with their reserved bits |
| FatVolume.Volume.GetFree | kern/fs/fat/fat_base.c:1706-1769 | the count exactly, and that it is the number of free clusters if and only if as many of entries 0 and 1 are zero as free clusters have reserved bits set; marks FSInfo as changed exactly when it counted on a 32-bit volume |
| FatVolume.ScanCounts | kern/fs/fat/fat_base.c:1737-1760 | what a scan from entry 0 that does not mask reserved bits counts, and exactly when that is the number of free clusters |
| FatVolume.Miscounts16 | kern/fs/fat/fat_base.c:1737-1760 | for every 16-bit volume, a FAT without a free cluster that is counted as having one |
| FatVolume.Miscounts32 | kern/fs/fat/fat_base.c:1737-1760 | for every 32-bit volume, a FAT with one free cluster, with a reserved bit set, that is counted as having none |
| FatVolume.CreatedApplies | kern/fs/fat/fat_base.c:524-575 | what create_chain does to the table is a step of the cluster heap: create or stretch |
| FatVolume.RemovedApplies | kern/fs/fat/fat_base.c:495-516 | what remove_chain does to the table of a chain is the remove step of the cluster heap |
| ClusterHeap.StepsCount | kern/fs/fat/fat_base.c:501-514 | the number of entries zeroed by remove_chain, and exactly when free_clust stays the number of free clusters |
| ClusterHeap.OverCounts | kern/fs/fat/fat_base.c:501-514 | a table with a dangling link on which free_clust ends one too high |
| ClusterHeap.StepsBound | kern/fs/fat/fat_base.c:501-514 | remove_chain takes at most one step more than there are entries in use |
| ClusterHeap.RemovedChain | kern/fs/fat/fat_base.c:495-516 | removing a chain zeroes its clusters and no others |
| ClusterHeap.ChainCreate | kern/fs/fat/fat_base.c:561-562 | a new cluster is a chain of its own |
| ClusterHeap.ChainStretch | kern/fs/fat/fat_base.c:561-564 | a chain with a free cluster linked to its end is a chain |
| ClusterHeap.ChainTruncate | kern/fs/fat/fat_base.c:1683-1693 | cutting a chain leaves its front a chain and its tail free |
| ClusterHeap.ApplySound | kern/fs/fat/fat_base.c:495-575 | create, stretch, remove and truncate keep all chains acyclic, pairwise disjoint and without dangling links, and free_clust equal to the number of zero entries |
| ClusterHeap.RunSound | kern/fs/fat/fat_base.c:495-575 | the same in every state of every run |
| FileLayout.SectorsDistinct | kern/fs/fat/fat_base.c:582-590 | no sector occurs twice in a file |
| FileLayout.SectorsDisjoint | kern/fs/fat/fat_base.c:582-590 | files on disjoint chains share no sector |
| FatFile.File.constructor | kern/fs/fat/fat_base.c:1201-1209 | an opened file stands at byte 0 |
| FatFile.File.Read | kern/fs/fat/fat_base.c:1218-1294 | denied without read access; else returns the slice of the byte sequence at the position and moves behind it; each byte is the one that stands on the disk in its sector of its cluster, counted from the start of the data area; the content does not change, on all paths |
| FatFile.File.Write | kern/fs/fat/fat_base.c:1301-1388 | denied without write access; else replaces exactly the bytes from the position on, the size being the larger of the old size and the end; never runs out of space inside the chain, and elsewhere exactly when the data does not fit in the clusters of the file and the free ones, which then hold the first bytes of the data behind the position up to their end; free_clust stays exact; only sectors of the file change, full disk or not; the data stands on the disk (or in the buffer) in the sectors of its clusters; the file is marked as written exactly when data was taken |
| FatFile.File.StuckUnsound | kern/fs/fat/fat_base.c:1324-1341 | the cursor that a write on a full disk leaves is at no sound position |
| FatFile.File.WriteStep | kern/fs/fat/fat_base.c:1322-1378 | one turn of the loop stores the next bytes, through the buffer or directly, across sector and cluster boundaries; on a full disk it changes no byte |
| FatFile.File.ReadStep | kern/fs/fat/fat_base.c:1240-1287 | one turn of the loop returns the next bytes of the file |
| FatFile.File.Lseek | kern/fs/fat/fat_base.c:1454-1545 | the position, clipped in read mode; the bytes up to the old size stay; never runs out of space inside the chain or in read mode, and elsewhere exactly when the position lies beyond the clusters of the file and the free ones, whose end is then position and size; free_clust stays exact; the file is marked as written exactly when it grew |
| FatFile.RoomAfter | kern/fs/fat/fat_base.c:1327-1346 | a chain that grew holds at most the old chain and the clusters that were free, and all of them when none is free any more |
| FatFile.File.Truncate | kern/fs/fat/fat_base.c:1660-1700 | denied without write access; else the content is cut at the position, the file is marked as written exactly when that cuts it, the chain keeps exactly the clusters needed and all others become free, no other entry changes, free_clust stays exact; remove_chain does not fail |
| FatFile.OneStanding | kern/fs/fat/fat_base.c:1454-1545 | the position in a chain determines cluster, sector and sectors left in the cluster, in any longer chain too |
| FatFile.SeekLikeReading | kern/fs/fat/fat_base.c:1218-1294 | for every position up to the size, seeking to it leaves the cursor and buffer that rewinding and reading up to it leaves, full disk or not |
| FatFile.OtherFileKept | kern/fs/fat/fat_base.c:1301-1388 | a file that grew, shrank or was written leaves the chain and the bytes of every file on a disjoint chain unchanged |
| FatFile.HandleKept | kern/fs/fat/fat_base.c:1218-1388 | another open file on a disjoint chain, with its own position and dirty buffer, stays sound and shows the same bytes |
| FatFile.WriteBeside | kern/fs/fat/fat_base.c:1301-1388 | writing to one file leaves the content of another open file alone, also when the disk runs full |
| FatFile.LseekBeside | kern/fs/fat/fat_base.c:1454-1545 | seeking in one file leaves the content of another open file alone |
| FatFile.TruncateBeside | kern/fs/fat/fat_base.c:1660-1700 | truncating one file leaves the content of another open file alone |
| FatFile.ReadBeside | kern/fs/fat/fat_base.c:1218-1294 | reading one file, which may write back its buffer, leaves the content of another open file alone |
| FatSync.UpdatedEntry | kern/fs/fat/fat_base.c:1413-1420 | the directory entry tells size, first cluster and time of the file; of the attribute only the archive bit changes; no other byte changes |
| FatSync.InfoHolds | kern/fs/fat/fat_base.c:378-388 | the FSInfo sector carries its three signatures, free_clust and last_clust, and nothing else |
| FatSync.WriteInfo | kern/fs/fat/fat_base.c:378-388 | the FSInfo sector is written with the window as buffer; no other sector changes, and the copies of the FAT stay equal |
| FatSync.SyncVolume | kern/fs/fat/fat_base.c:370-394 | the window is clean, and only the FSInfo sector may have changed |
| FatSync.SyncFile | kern/fs/fat/fat_base.c:1394-1426 | a file that was written: buffer and window are clean, the directory entry tells its size and first cluster, the content is what it was |
| FatSync.FatSync | kern/fs/fat/fat_inode.c:624-643 | after it the device itself holds every sector as the file system sees it, and the FAT in all copies |
| FatSync.SurvivesRestart | kern/fs/fat/fat_inode.c:624-643 | a file that was written and synchronised, mounted from the device alone and opened from its directory entry, has the content it had |
| FatSync.TruncateSurvives | kern/fs/fat/fat_base.c:1660-1700 | a file cut and synchronised comes back cut |
| FatSync.WriteSurvives | kern/fs/fat/fat_base.c:1301-1388 | data written and synchronised comes back, also when the chain had to grow |
| ShortNames.MakeDirfile | kern/fs/fat/fat_base.c:674-745 | a name is taken if and only if it has 1 to 8 storable characters, then after any dots up to 3 more; the 11 bytes, in upper case and padded with spaces, and the case flags stored |
| ShortNames.StorableChars | kern/fs/fat/fat_base.c:703-737 | the characters of names, listed |
| ShortNames.NameEnds | kern/fs/fat/fat_base.c:689-712 | where a name, its body and its extension end |
| ShortNames.StoredBytes | kern/fs/fat/fat_base.c:682-743 | the 11 bytes and the flags, character by character |
| ShortNames.GetFileinfo | kern/fs/fat/fat_base.c:630-661 | prints the name of an entry, as spelled out by `ShortNames.PrintedChars` |
| ShortNames.PrintedChars | kern/fs/fat/fat_base.c:638-661 | the characters printed: each part up to its first space, in lower case if flagged, with a dot before the extension |
| ShortNames.NameRoundTrip | kern/fs/fat/fat_base.c:630-745 | printing an entry and parsing the name again gives the same 11 bytes and flags |
| ShortNames.PrintedAsGiven | kern/fs/fat/fat_base.c:630-745 | the printed name is the name given if and only if neither part mixes cases and there is no redundant dot |
| ShortNames.PrintedOtherwise | kern/fs/fat/fat_base.c:630-745 | accepted names that are not printed as given |
| ShortNames.PrefixAccepted | kern/fs/fat/fat_base.c:689-743 | what is rejected stays rejected with more characters, so the loop may stop at once |
| PageAllocator.TotalIsCount | kern/mm/ff_mmanager.c:41 | the block sizes add up to the number of free pages |
| PageAllocator.RunInOneBlock | kern/mm/ff_mmanager.c:53-59 | contiguous free pages lie in one block: free blocks are never adjacent |
| PageAllocator.TakeBlocks | kern/mm/ff_mmanager.c:61-72 | splitting a block keeps the list sound and takes exactly the pages given out |
| PageAllocator.MergeFloating | kern/mm/ff_mmanager.c:94-105 | merging with a neighbour on either side leaves the blocks already passed untouched by the result |
| PageAllocator.JoinList | kern/mm/ff_mmanager.c:88-118 | one pass over the unordered list suffices: afterwards no block touches the freed one |
| PageAllocator.Allocator.constructor | kern/mm/pmm.c:64-79 | every page is reserved and the list is empty |
| PageAllocator.Allocator.MemmapInit | kern/mm/ff_mmanager.c:29-43 | the pages given become the free pages |
| PageAllocator.Allocator.FirstFit | kern/mm/ff_mmanager.c:46-59 | the first block that is large enough, if any |
| PageAllocator.Allocator.Take | kern/mm/ff_mmanager.c:61-72 | the block is split or leaves the list; the rest of a split block takes its place in the list |
| PageAllocator.Allocator.Alloc | kern/mm/ff_mmanager.c:44-74 | succeeds exactly when n contiguous free pages exist; gives the first fit; exactly these pages stop being free |
| PageAllocator.Allocator.AllocOne | kern/mm/pmm.c:84 | one page can be had exactly when any page is free |
| PageAllocator.Allocator.ClearPages | kern/mm/ff_mmanager.c:79-84 | the flags are clear already, so the panic is not reached |
| PageAllocator.Allocator.Coalesce | kern/mm/ff_mmanager.c:88-107 | the freed block and all it touches become one block, with no free page lost or gained |
| PageAllocator.Allocator.Release | kern/mm/ff_mmanager.c:75-120 | exactly the pages given become free; blocks stay disjoint and apart, heads are exactly the pages with the property bit, the count is exact; the merged block leads the list, the others keep their order |
| PageAllocator.Allocator.SetRef | kern/include/pmm.h:55-69 | only the count of one page changes |
| PageTables.PteSet | kern/mm/page.c:35 | writing one entry is seen at that page of that directory only |
| PageTables.TwoLevels | kern/mm/page.c:19-36 | the page table entry of a page: its high bits select the directory entry, its low ten the entry of the table |
| PageTables.Machine.GetPte | kern/mm/page.c:19-36 | there is a page table afterwards if and only if there was one, or one was asked for and a frame was free; no mapping changes |
| PageTables.Machine.NewTable | kern/mm/page.c:26-33 | a free frame becomes an empty page table counted once |
| PageTables.Machine.RemovePte | kern/mm/page.c:51-60 | the mapping goes, and its frame with it exactly when it was the last mapping; counts stay exact |
| PageTables.Machine.PageInsert | kern/mm/page.c:146-175 | exactly one mapping changes; counts stay exact also when the same frame is inserted again; the displaced frame is freed exactly when this was its last mapping |
| PageTables.Machine.PageRemove | kern/mm/page.c:132-137 | the mapping goes, and its frame exactly when it was the last mapping |
| PageTables.Machine.PgdirAllocPage | kern/mm/page.c:186-196 | succeeds exactly when there are frames for the page and a missing page table; nothing is lost on failure |
| PageTables.Machine.UnmapRange | kern/mm/page.c:62-76 | exactly the mappings of the range go, and exactly the frames all of whose mappings were among them; skipping missing tables misses nothing |
| PageTables.Machine.ExitRange | kern/mm/page.c:78-91 | exactly the page tables that the range reaches are freed |
| PageTables.Machine.CopyPage | kern/mm/page.c:106-126 | a page is copied with its permissions and contents to a frame that was free |
| PageTables.Machine.CopyRange | kern/mm/page.c:93-130 | the mapped pages of the range are copied, each to a frame of its own; succeeds exactly when there are enough free frames for pages and page tables |
| PageTables.CopiedTrans | kern/mm/vmm.c:274-288 | copying in two steps is copying at once |
| PageTables.LostTwice | kern/mm/vmm.c:300-303 | unmapping in two steps frees what unmapping at once frees |
| VmaList.SearchFinds | kern/mm/vmm.c:169-183 | the area that contains an address is unique, so the cached one is the one a search finds |
| VmaList.NeighboursSuffice | kern/mm/vmm.c:220-234 | checking the two neighbours is checking all areas, and insertion keeps the list sorted and disjoint |
| VmaList.MemMap.constructor | kern/mm/vmm.c:123-134 | an empty list without a cached area |
| VmaList.MemMap.Find | kern/mm/vmm.c:165-189 | with its cache, agrees with a search without one |
| VmaList.MemMap.Place | kern/mm/vmm.c:215-227 | the loop stops between the areas that start before and after |
| VmaList.MemMap.Insert | kern/mm/vmm.c:210-239 | succeeds if and only if the area is not empty and disjoint from all others; the list is the old one with the area at its place |
| VmaList.MemMap.Map | kern/mm/vmm.c:241-267 | exactly which ranges are mapped, refused, or end in the panic |
| VmaList.MapCovers | kern/mm/vmm.c:243-247 | an accepted area covers the range asked for if and only if that does not wrap around |
| VmaList.MapWraps | kern/mm/vmm.c:243-247 | a range that wraps around and is accepted with one page |
| VmaList.MapPanics | kern/mm/vmm.c:229-234 | two calls of mm_map the second of which ends in the panic |
| AddressSpace.DupMm | kern/mm/vmm.c:268-290 | succeeds exactly when memory suffices; the new space has the same areas, mapped pages, permissions and contents on frames that were free, and the old one is unchanged |
| AddressSpace.UserHalf | kern/include/mm.h:126-131 | user space is the part of a directory that is modelled, from 0x200000 to 0xB0000000 |
| AddressSpace.ExitMmap | kern/mm/vmm.c:291-308 | all mappings of the directory go, with every frame that only it mapped, and the page tables that the areas reach |
| AddressSpace.CopyUndone | kern/mm/vmm.c:268-308 | the frames lost by unmapping a copied directory are exactly those the copy had taken |
| AddressSpace.ForkThenExit | kern/krnl/task/task.c:268-307 | copying and tearing down, whether or not the copy succeeded, restores mappings, contents, directories, page tables and the set of free frames |
| ElfLoader.WrittenOnce | kern/krnl/task/task.c:500-542 | consecutive pieces write each byte of the range exactly once and no other |
| ElfLoader.ImageBytes | kern/krnl/task/task.c:494-542 | a segment in place, byte by byte: the bytes of the file, then zeros, each in the frame of its page at its offset |
| ElfLoader.WritePiece | kern/krnl/task/task.c:506-514 | writes exactly the bytes of one piece of the last page, and logs that piece, which follows the pieces before |
| ElfLoader.FilePages | kern/krnl/task/task.c:500-515 | the first loop puts the bytes of the file in place, one page allocated after the other |
| ElfLoader.RestOfPage | kern/krnl/task/task.c:518-530 | zeros up to the end of the segment or of the page; the assertion commented out holds |
| ElfLoader.ZeroPages | kern/krnl/task/task.c:531-542 | the last loop puts zeros in place up to the end of the segment |
| ElfLoader.LoadPages | kern/krnl/task/task.c:494-542 | succeeds exactly when the file has the bytes and there are enough frames; then the memory shows the bytes of the file and zeros, each byte written once, each page allocated once, everything else unchanged |
| ElfLoader.LoadSegment | kern/krnl/task/task.c:465-542 | exactly which headers are skipped, rejected, refused, stopped at the panic and loaded; the area that a loaded segment leaves, with its flags; a header not loaded leaves memory, mappings and areas as they were; loading keeps mapped pages inside areas |
| ElfLoader.BssSkipped | kern/krnl/task/task.c:466-475 | a segment to be loaded that has a size in memory but none in the file is skipped: memory and areas are as they were, and none of its pages is mapped unless an earlier segment had mapped it |
| ElfLoader.LoadSegments | kern/krnl/task/task.c:456-544 | succeeds exactly when every header in turn can be loaded or is skipped; then every segment is in place, none disturbed by a later one |
| Scheduling.QueueKept | kern/krnl/task/sched.c:29-153 | every action keeps: queued exactly once if and only if runnable, not current and not idle; task_num is the length |
| Scheduling.SemsKept | kern/krnl/sync/sem.c:13-81 | every action keeps: value not negative, positive only without waiters, holders plus value the initial value plus the releases by tasks that held nothing, waiters those that sleep on it in order of arrival |
| Scheduling.PlacesKept | kern/krnl/sync/sem.c:13-55 | every action keeps: a task in down sleeps until it is granted the semaphore, and one other than idle does not run before |
| SchedulingRuns.RunInv | kern/krnl/task/sched.c:29-153 | the invariant holds after every run that did not end in the panic |
| SchedulingRuns.SemaphoreSafety | kern/krnl/sync/sem.c:13-89 | in every reachable state, whoever calls up: value, waiters, conservation, grants in order of arrival; mutual exclusion for initial value 1 and no release without holding |
| SchedulingRuns.PairedExclusion | kern/krnl/sync/sem.c:13-89 | in every run in which tasks release only what they hold, no release is counted as extra |
| SchedulingRuns.MutualExclusion | kern/krnl/sync/sem.c:13-89 | in every run from boot in which tasks release only what they hold, two tasks that hold a lock of initial value 1 are the same |
| SchedulingRuns.QueueSafety | kern/krnl/task/sched.c:29-153 | in every reachable state the run queue is as it should be |
| SchedulingRuns.WokenByUp | kern/krnl/sync/sem.c:58-81 | a sleeper in down goes on sleeping until up wakes it as the first in line |
| SchedulingRuns.NoPanic | kern/krnl/sync/sem.c:83-88 | acquireSem does not panic in any run in which the idle task never waits for a semaphore |
| SchedulingRuns.PanicReachable | kern/krnl/task/sched.c:51-53 | once the idle task waits for a semaphore, a run leads to the panic |
| SchedulingRuns.PanicFromBoot | kern/krnl/sync/sem.c:83-88 | a run from the start of the system to the panic, without any release, on a lock of initial value 1 that a sleeping task holds |
| SchedulingRuns.RoundRobin | kern/krnl/task/sched.c:29-64 | the task at position k is picked by the (k + 1)-th call of schedule, whatever happens in between |
| SchedulingRuns.RunsInTurn | kern/driver/timer.c:14-24 | in any run in which the timer interrupt is one section, the task at position k of the queue runs within k + 1 ticks |
| SchedulingRuns.RunsWithin | kern/driver/timer.c:14-24 | the same in every state reachable from the start |
| KernelState.Kernel.constructor | kern/krnl/task/task.c:55-83 | the system starts with the idle task alone |
| KernelState.Kernel.EnqueueRunQueue | kern/krnl/task/sched.c:91-104 | joining the queue at the tail, counted, with a time slice of one tick |
| KernelState.Kernel.Schedule | kern/krnl/task/sched.c:29-80 | the head of the queue takes over, behind which the current task was queued if it can go on; idle if there is none |
| KernelState.Kernel.CallSchedule | kern/krnl/sync/sem.c:39 | the transition by which a task passes the processor on itself, in down its way to sleep; keeps the invariant |
| KernelState.Kernel.TickCurrentTask | kern/krnl/task/sched.c:121-131 | one tick less of the time slice, and a call for schedule when none is left |
| KernelState.Kernel.TimerCallBack | kern/driver/timer.c:14-24 | when the time slice is used up the head of the queue takes over; else only the slice changes; keeps the invariant |
| KernelState.Kernel.WakeupTask | kern/krnl/task/sched.c:134-153 | the transition that makes a task runnable and queues it unless it is current or idle, and does nothing to a runnable one |
| KernelState.Kernel.WakeupAll | kern/krnl/sync/wait.c:24-37 | every task of the list is runnable, and those that were not join the queue once, in list order |
| KernelState.Kernel.DownBegin | kern/krnl/sync/sem.c:18-36 | the first section of down is the step of the transition system |
| KernelState.Kernel.DownEnd | kern/krnl/sync/sem.c:44-54 | the last section of down; no panic for any task but idle |
| KernelState.Kernel.Up | kern/krnl/sync/sem.c:58-81 | up is the step of the transition system and wakes no zombie |
| ProcessTree.AddedForest | kern/krnl/task/task.c:143-151 | add_task keeps the tree well linked, with the new child the youngest |
| ProcessTree.DeletedForest | kern/krnl/task/task.c:152-163 | del_task keeps the tree well linked without the task |
| ProcessTree.AdoptedForest | kern/krnl/task/task.c:393-402 | a turn of the exit loop keeps the tree but for the yptr of the next child |
| ProcessTree.InitTurn | kern/krnl/task/task.c:393-402 | for init itself a turn changes nothing |
| ProcessTree.InitNeverDone | kern/krnl/task/task.c:393-402 | for an init task with children, after any number of turns everything is as before, so the loop never ends |
| ProcessTree.CountIsTasks | kern/krnl/task/task.c:144-162 | TaskCount is the number of tasks |
| ProcessTree.Tasks.constructor | kern/krnl/task/task.c:55-94 | idle and its child init |
| ProcessTree.Tasks.AddTask | kern/krnl/task/task.c:143-151 | keeps the whole invariant; the child lists, the task list and the count afterwards |
| ProcessTree.Tasks.DelTask | kern/krnl/task/task.c:152-163 | keeps the whole invariant; only a childless zombie leaves |
| ProcessTree.Tasks.GiveChildren | kern/krnl/task/task.c:393-408 | every child moves to init despite the stale yptr, the tree is well linked at the end, and init wakes exactly if it waits for a child and one of them is a zombie |
| ProcessTree.Tasks.Exit | kern/krnl/task/task.c:380-410 | the task is a childless zombie, its children lead the list of init in reverse order, the parent wakes exactly if it waits for a child, no other task but init changes its state, and no wake-up is lost |
| ProcessTree.Tasks.FindTask | kern/krnl/task/task.c:164-174 | the first task of the list with the number, or none exactly if no task has it |
| ProcessTree.Tasks.ZombieChild | kern/krnl/task/task.c:784-791 | the youngest zombie child, and whether there are children |
| ProcessTree.Tasks.WaitOnce | kern/krnl/task/task.c:772-815 | for a number: the first task with it decides, NoChild if it is no child, Reaped if it is a zombie child, Slept if it is a living one; for any child: NoChild without children, Slept if all live, else the youngest zombie is reaped; no wake-up is lost |
| ProcessTree.OutcomeAnswers | kern/krnl/task/task.c:772-791 | the same about the outcome as a function of the lists |
| ProcessTree.Tasks.NoLostWakeup | kern/krnl/task/task.c:380-410 | in every state, a task asleep in do_wait has a living child to wait for and none to reap, both for any child and for one with a given number |
| IntrusiveList.AddBetween | kern/include/list.h:67-71 | the ring with the element inserted |
| IntrusiveList.AddAfter | kern/include/list.h:46-48 | insertion behind an element |
| IntrusiveList.AddBefore | kern/include/list.h:43-45 | insertion in front of an element; in front of the head it is at the end |
| IntrusiveList.Unlink | kern/include/list.h:49-51 | the ring without the element |
| IntrusiveList.DelInit | kern/include/list.h:52-55 | the ring without the element, which becomes a ring of its own |
| IntrusiveList.IsEmpty | kern/include/list.h:56-58 | only the head is left |
| IntrusiveList.ForEach | kern/include/list.h:78-79 | visits the elements in order, once each, and stops |

## Left out

- Device failures and the error flag of files: requests to devices succeed; after a failed load the cache's coherence is not claimed.
- Directories: a file is its chain, its size, its position and the place of its directory entry; looking up and creating entries, and opening by path, are not part of this model. The FSInfo sector is written, but not read.
- FatFile.File.Write: an entry equal to 1, which the code takes for an error, ends the write with nothing claimed about the file; no further write is modelled after one that filled the disk.
- FatFile.File.Lseek: an entry equal to 1 ends the seek with nothing claimed about the file; no further operation is modelled after a seek that found the disk full.
- FatVolume.Volume.constructor: takes the geometry as given; reading it from the boot sector is not part of this model.
- FatSync.SurvivesRestart: sizes below 2^32, as the field in the directory entry; the FSInfo sector lies before the FAT, and the directory entry behind the FATs and outside the file.
- BlockCache.Cache.ReadWrite: nothing is claimed about recency once an age has wrapped around; the view is claimed without limit.
- ShortNames.MakeDirfile: 7-bit characters only; Shift-JIS names are not part of this model.
- Bytes and flag bits are numbers; masks and shifts are written as division and remainder.
- PageAllocator.Allocator.MemmapInit: on the empty list, as the kernel calls it, once; a second region next to a free block would not be merged with it.
- PageTables.Machine.ExitRange: the tables freed must map nothing, as exit_mmap's first pass ensures; the frames behind a table that still maps pages would be lost by the code.
- The kernel half of page directories, TLB invalidation and the directory frame itself (setup_pgdir, put_pgdir).
- PageTables.Machine.CopyRange: the range must not be mapped yet in the new directory, as is the case for the fresh directory that fork passes; running out of frames for a page, an assertion failure in the source, is the same failure result as running out of frames for a page table.
- AddressSpace.ExitMmap: mapped pages must lie in areas, as the kernel's page fault handler and loader ensure; pages mapped outside areas would be lost by the code.
- The reference count and the lock of an address space, and freeing its list of areas.
- ElfLoader.LoadSegments: as for one segment.
- ElfLoader.LoadSegment: segments whose end wraps around the address space are excluded; the clean-up after a failure is `AddressSpace.ExitMmap`.
- The user stack and the argument vector set up by load_icode.
- Scheduling.SemsKept: a semaphore is initialised once and not destroyed, and its value is unbounded: 2^31 releases without a matching acquire would overflow the counter.
- The keyboard queue and waiting for children appear in the scheduler as sleep for another reason and its wake-up.
- ProcessTree.Tasks.Exit: for a task other than init and idle; see `ProcessTree.InitNeverDone` for init, and idle is a panic.
- ProcessTree.Tasks.GiveChildren: for a task other than init; see `ProcessTree.InitNeverDone`.
- ProcessTree.Tasks.WaitOnce: one pass of the loop; going on after waking up is another call. Numbers of tasks may repeat, so for a given number the outcome is about the first task in the list that has it.
- Exit of one task of several that share an address space, open files of tasks, and forced exit flags.
- checkUserMem and its callers, kmalloc's buckets, formatting of volumes, path lookup and file descriptors.
- Port I/O, interrupt and segment tables, console, keyboard, user programs and system call dispatch.
