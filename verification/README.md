# Upanix: verified models of its stateful kernel cores

Upanix is an x86 operating system. This project models the parts of it in which a fast or packed
structure has to agree with a simple one, and proves that it does:

- **File system** (`Sectors.dfy`, `DiskCache.dfy`, `DiskDrive.dfy`, `Ranking.dfy`, `Volume.dfy`,
  `TableCache.dfy`, `FreeSectors.dfy`, `FileSystem.dfy`, `BootBlock.dfy`, `Format.dfy`, `Chains.dfy`,
  `FileImage.dfy`, `Directory.dfy`, `FileStack.dfy`). Five layers, each seen by the next through its
  abstract state: a sector cache over the device (`DiskDrive.View`, a plain array of sectors), a block
  cache over the sector table (`FileSystem.Contents`, a table, a free pool, a counter and the data
  sectors), chains of sectors, bytes of files (`Directories.FileContent`), and at the top a map from
  files to byte sequences (`FileStacks.Store`). A run over the whole stack, with the sector cache being
  ranked and flushed in the background, answers as that map does. Both caches may evict on the way; the
  model stops where the code would follow an evicted entry or go on with a wrong pool.
- **Kernel heap** (`Bits.dfy`, `Heap.dfy`, `KernelHeap.dfy`, `HeapRun.dfy`). A first-fit allocator whose headers lie in
  the memory it manages. Memory is a map from addresses to headers; writing anything over a header's
  bytes removes it, so that every header read is proved to be intact.
- **Physical pages and address spaces** (`PageMap.dfy`, `Paging.dfy`, `AddressSpace.dfy`,
  `ProcessLife.dfy`). A bitmap of pages, two-level page tables held as words of physical pages, the
  page-fault path, and the whole life of a user process's pages.
- **Kernel service** (`KernelService.dfy`). Requesters, servers and the scheduler as interleaved steps.
- **Partitions, PCI buses, descriptors** (`Partition.dfy`, `PrimaryPartition.dfy`, `Pci.dfy`,
  `FileDescriptorTable.dfy`). A linked list on disk, a depth-first numbering whose configuration
  accesses are routed by the windows being written, and a reference-counted graph of descriptors.

Objects that the source updates in place are classes, its loops are loops, and each method's contract
gives the new state as a function of the old one; the properties of those functions are lemmas. A
sector is 512 bytes, a page 1024 words; 32-bit arithmetic is unbounded except where a wrap-around
matters, and there it is written out (`% 0x1_0000_0000`). The device commands `RawRead` and `RawWrite`
are a total array of sectors, the segment base is zero, and a critical section is one step.

Several functions are right only under conditions that the code does not check. Each time a lemma or a
contract gives the exact condition, and another one a state in which it fails:

| what | exact condition | a failing state |
|---|---|---|
| an entry evicted inside the request that found it | `DiskDrives.DiskDrive.Read`, `DiskDrives.DiskDrive.Write`, `DiskDrives.Run` | `DiskDrives.EvictionInsideHappens` |
| a ranking on top of an unfinished one | `Rankings.LeftOverTwiceIff` | `Rankings.OneSectorListedThrice`, `Rankings.NextVictimGone` |
| a scan of the free sectors that reads over cached blocks | `FreeSectors.PoolSoundIff` | `FreeSectors.StaleWindowHappens` |
| an id one past the table | `Volumes.GuardAdmitsRootSector` | the same |
| a format of a small drive | `BootBlocks.FormattedAcceptedIff`, `Volumes.GeometryFits` | the same |
| a table of more entries than a link can name | `Volumes.LinksFollowedIff` | the same |
| a write that runs out of sectors | `Directories.FileWrite` | the same |
| a descriptor opened on an empty file | `Directories.HintAfterGrowth` | `Directories.WriteBehindBack` |
| a size sum that wraps | `Heaps.TakenGoodIff`, `HeapRuns.RunClearIff` | `Heaps.WrappedFitHappens` |
| a heap set up anew over live blocks | `Heaps.AllocationFreshIff`, `HeapRuns.RunClearIff` | `Heaps.HandedOutTwice` |
| pages behind a gap in the heap, never given back | `ProcessLives.RunIsOwnIff`, `ProcessLives.Live` | `ProcessLives.GapHappens` |
| a service request made in kernel mode | `KernelServices.AlwaysSafeIff` | `KernelServices.DeletedUsed` |
| a wait that starts after the wake-up | `KernelServices.StuckByLateWait` | `KernelServices.LostWakeHappens` |
| a logical partition of at most 63 sectors | `Partitions.AddedReadsBackIff`, `Partitions.PartitionTable.Run` | `Partitions.SmallPartitionHappens` |
| the active partition removed | `PrimaryPartitions.RemovalAcceptedIff` | `PrimaryPartitions.ActiveLastRemoved` |
| dup2 over a descriptor taken for free | `FileDescriptorTables.Dup2SoundIff` | `FileDescriptorTables.DupOverMarkedFree` |

As the repository stands, none of its requests is made in kernel mode, so that the condition of
`KernelServices.AlwaysSafeIff` is met. `Wrappers.dfy` holds an option type.

The code and its own comments disagree in one place: `process/SchedulableProcess.cpp:229-230` says
that the user stack grows through page faults, but the first guard of the fault handler
(`memory/MemManager.cpp:483`) is always true and so every fault in the stack's slot is refused. The
model follows the code, and `ProcessLives.StackWalk` states what it comes to.

## Model

| member | source | states |
|---|---|---|
| DiskCaches.AddIsSeen | drivers/DeviceDrive.cpp:327-335 | caching a written sector as dirty keeps the cache sound (resident values clean or listed dirty, release list resident) and is seen as that one write to the plain array |
| DiskCaches.AddCopyUnseen | drivers/DeviceDrive.cpp:209-215 | caching a copy of the device's sector changes nothing that is seen |
| DiskCaches.UpdateIsSeen | drivers/DeviceDrive.cpp:286-298 | overwriting a cached value and listing it dirty is seen as the one write |
| DiskCaches.ReplaceUnseen | drivers/DiskCache.cpp:71-127 | evicting the first clean entry of the release list in favour of a copy of the device's sector loses no write, keeps the number of cached sectors and keeps the cache sound |
| DiskCaches.ReplaceIs | drivers/DiskCache.cpp:71-127 | the victim goes, the new sector comes with its value, all others stay; without a clean entry the list is given up |
| DiskCaches.DirectWriteIsSeen | drivers/DeviceDrive.cpp:313-324 | writing an uncached sector straight to the device is seen as the one write |
| DiskCaches.FlushUnseen | drivers/DeviceDrive.cpp:383-410 | writing the oldest dirty entry back changes nothing that is seen |
| DiskCaches.NothingDirty | drivers/DeviceDrive.cpp:383-410 | with no dirty entry left the device holds exactly what is seen |
| DiskDrives.DiskDrive.PopVictim | drivers/DiskCache.cpp:71-127 | the release list is popped up to and including its first clean entry, which is the victim; there is none exactly if no entry is clean |
| DiskDrives.DiskDrive.ReplaceCache | drivers/DiskCache.cpp:71-127 | the cache becomes the specified replacement: same view, same number of entries, and nothing happens without a built list or a clean entry |
| DiskDrives.DiskDrive.InsertToDirtyList | drivers/DiskCache.cpp:171-175 | the dirty list names each dirty sector, with its live value, in the order of its first write |
| DiskDrives.DiskDrive.Lookup | drivers/DeviceDrive.cpp:152-170 | the cached values of a request and the indices of its first and last missing sectors |
| DiskDrives.DiskDrive.Read | drivers/DeviceDrive.cpp:141-223 | a read returns the plain array's sectors and changes nothing seen; it follows an entry that was evicted during the request exactly if EvictsInside holds of the state before it, and else leaves exactly the specified state |
| DiskDrives.ReadsCached | drivers/DeviceDrive.cpp:185-222 | while there is room a read leaves all its sectors cached and the device and the dirty list as they were |
| DiskDrives.DiskDrive.FetchMisses | drivers/DeviceDrive.cpp:185-222 | the middle part of a read: missing sectors are cached or replaced, cached ones are read through the values found before, with the same exact fault condition |
| DiskDrives.DiskDrive.Write | drivers/DeviceDrive.cpp:254-344 | a write is seen as the plain array's write, whether its sectors were cached, added, or written through with a replacement; it follows an entry that was evicted during the request exactly if WriteEvictsInside holds of the state before it: some cached sector is the first clean entry of the release list when an earlier sector of the request misses, those already written being dirty |
| DiskDrives.WriteDeferred | drivers/DeviceDrive.cpp:254-344 | while there is room, or if its sectors are cached already, a write leaves the device as it was and all its sectors cached and dirty |
| DiskDrives.DiskDrive.WriteMisses | drivers/DeviceDrive.cpp:300-343 | the part of a write between the first and last missing sectors, with the same exact fault condition over what lies ahead |
| DiskDrives.DiskDrive.FlushDirtyCacheSectors | drivers/DeviceDrive.cpp:383-410 | flushing any number of dirty sectors changes nothing seen and takes exactly that many, oldest first, off the dirty list; flushing all leaves the device equal to what is seen |
| DiskDrives.DiskDrive.ReleaseCache | drivers/DiskCache.cpp:43-69 | building a release list of any distinct resident sectors, clean or left over from a build that did not fill it, changes nothing seen; a list that names a sector twice is Misranked |
| DiskDrives.Run | drivers/DeviceDrive.cpp:141-431 | every run of reads, writes, flushes and list builds, of any length, returns what the plain array returns, and a final flush leaves that array on the device, exactly if no operation faults in the state it is reached in, a build that would name a sector twice being such a fault; a run without list builds never does |
| DiskDrives.Perform | drivers/DeviceDrive.cpp:141-431 | one operation of such a run simulates one step of the plain array and reaches the specified cache, exactly if it does not fault |
| DiskDrives.NoRankNoFault | drivers/DeviceDrive.cpp:141-431 | a run that never builds a release list, from an empty one, never faults |
| DiskDrives.NothingInteriorListed | drivers/DeviceDrive.cpp:185-222 | a release list without a cached sector between two missing ones of the request rules the fault out |
| DiskDrives.NothingListedInside | drivers/DeviceDrive.cpp:300-343 | a release list whose cached sectors of the request are dirty, or lie before the first or behind the last missing one, rules the fault of a write out |
| DiskDrives.EvictionInsideHappens | drivers/DeviceDrive.cpp:159-222 | a concrete sound cache and a request of three sectors for which a read and a write both fault |
| Rankings.TraversedOnce | drivers/DiskCache.cpp:129-152 | the ranking of distinct sectors not yet listed names each once, and fills the list if there are enough |
| Rankings.FirstRankingIsSound | drivers/DiskCache.cpp:43-69 | so from an empty list it makes one that ReleaseCache may build |
| Rankings.TraversedIs | drivers/DiskCache.cpp:129-152 | of any number of nodes visited, the first ones fill a sorted list; it then keeps its first two nodes, and its last one gives way to the highest-ranked of all visited after it |
| Rankings.LeftOverTwiceIff | drivers/DiskCache.cpp:43-69 | after a build that did not fill the list, the next ranking, over any number of sectors, names none twice exactly if none of those left over is among the sectors that fill the list, nor is the highest-ranked of the others one of the two that stay |
| Rankings.OneSectorListedThrice | drivers/DiskCache.cpp:129-152 | one clean sector ranked three times, with any three ranks, fills the list |
| Rankings.NextVictimGone | drivers/DiskCache.cpp:99-110 | from such a list the first eviction leaves a next victim that is no longer cached, which the code takes for a failure |
| Volumes.InUseUpdated | filesystem/FileSystem.cpp:433-439 | changing one entry changes the number of non-zero entries by at most one, as its old and new values say |
| Volumes.AllocationSound | filesystem/FileSystem.cpp:398-411 | taking the first pooled sector hands out a sector that was free, marks it as a chain end, and keeps the pool distinct, free and in range and the counter equal to the entries in use |
| Volumes.SetIs | filesystem/FileSystem.cpp:460-479 | setting an entry changes its low 28 bits, keeps its high four and every other entry, and counts one more in use for an end mark, one less for zero |
| Volumes.AllocatedIs | filesystem/FileSystem.cpp:398-411 | the entry handed out becomes the end mark, the pool loses its first, one more is counted |
| Volumes.FreeSound | filesystem/FileSystem.cpp:79-85 | freeing a sector in use keeps the same invariant |
| Volumes.FreedIs | filesystem/FileSystem.cpp:79-85 | the entry freed becomes zero, its sector is pooled last if there is room, one less is counted |
| Volumes.LinkSound | filesystem/Directory.cpp:524-550 | linking a sector in use to another keeps the same invariant |
| Volumes.FormatSound | filesystem/FileSystem.cpp:164-202 | the table that a format writes, with only the root directory's entry in use, meets it |
| Volumes.PoolFits | filesystem/FileSystem.cpp:284-351 | in a sound volume the pool never names more sectors than the counter leaves free |
| Volumes.LinkSurvivesIff | filesystem/FileSystem.cpp:460-479 | a link is read back as it was set exactly if it is below 2^28 |
| Volumes.LinksFollowedIff | filesystem/FileSystem.cpp:441-479 | all sectors of a table can be linked, none being taken for the end of a chain, exactly up to 2^28 - 1 entries |
| Volumes.GeometryFits | filesystem/FileSystem.cpp:131-162 | every entry's sector lies behind the boot block, the reserved sectors and the table, and inside the drive, exactly if the drive has at least three sectors (else the table size wraps) |
| Volumes.TableSizeIs | filesystem/FileSystem.cpp:131-162 | so many table blocks fit with their sectors behind the first three, and not one more |
| Volumes.GuardAdmitsRootSector | filesystem/FileSystem.cpp:441-479 | the accessors' guard admits exactly one id whose block is not a table sector, and that block is the root directory's sector |
| TableCaches.WordsRoundTrip | filesystem/FileSystem.cpp:109-115 | a table block survives being written to a sector and read back |
| TableCaches.BytesRoundTrip | filesystem/FileSystem.cpp:109-115 | a sector survives being read as a block and written back |
| TableCaches.BinarySearch | filesystem/FileSystem.cpp:41-77 | the search finds a block exactly if it is cached, and else gives the place at which inserting it keeps the cache strictly sorted |
| TableCaches.InsertKeeps | filesystem/FileSystem.cpp:372-384 | loading an absent block at its place keeps the order and shows the same table |
| TableCaches.WriteKeeps | filesystem/FileSystem.cpp:123-129 | writing a cached entry shows the table with that one entry changed |
| TableCaches.FlushKeeps | filesystem/FileSystem.cpp:353-370 | writing a block back shows the same table |
| TableCaches.DropKeeps | filesystem/FileSystem.cpp:353-370 | dropping the first blocks, once written back, shows the same table |
| FreeSectors.PoolListsFree | filesystem/FileSystem.cpp:284-351 | then, unless it is full, it names every free entry of the table |
| FreeSectors.PoolSoundIff | filesystem/FileSystem.cpp:284-351 | the refilled pool, cut off at its capacity, is duplicate-free and names only free entries exactly if the windows read before it is full are clear of outdated blocks that show a free entry |
| FreeSectors.WindowsClearIff | filesystem/FileSystem.cpp:328-347 | the windows that a scan reads before the pool is full are clear exactly if no entry that finds room comes from a cached block |
| FreeSectors.PrefixCacheClear | filesystem/FileSystem.cpp:328-347 | the windows are clear while the cached blocks are the first ones of the table: none, as at a mount, all, or those of a table that fills up from its beginning |
| FreeSectors.StaleWindowHappens | filesystem/FileSystem.cpp:328-347 | for every pool capacity a concrete cache and disk for which the first sector pooled is in use |
| FileSystems.FileSystem.AddToTableCache | filesystem/FileSystem.cpp:372-384 | the missing block is loaded and the cache keeps its order and bound of 2048; an id whose block is cached loads nothing; the contents do not change |
| FileSystems.FileSystem.FlushTableCache | filesystem/FileSystem.cpp:353-370 | flushing the first blocks and dropping them does not change the contents |
| FileSystems.FileSystem.GetSectorEntryFromCache | filesystem/FileSystem.cpp:386-396 | the index of the entry's block, loaded if need be; the contents do not change |
| FileSystems.FileSystem.GetSectorEntryValue | filesystem/FileSystem.cpp:441-458 | the low 28 bits of the entry, for every id below the table's size; an error beyond it; the contents do not change |
| FileSystems.FileSystem.SetSectorEntryValue | filesystem/FileSystem.cpp:460-479 | exactly the low 28 bits of that entry change, and the counter by one for an end mark or zero; said of the words of the table |
| FileSystems.FileSystem.LoadFreeSectors | filesystem/FileSystem.cpp:284-351 | fails exactly if a read of the scan follows an evicted entry; else the pool receives the scan's list up to its capacity; nothing else of the contents changes |
| FileSystems.PinnedNeverFaults | filesystem/FileSystem.cpp:328-347 | no read of the scan follows an evicted entry while no table sector is on the release list |
| FileSystems.FileSystem.WholeTableReady | filesystem/FileSystem.cpp:284-351 | while the whole table is cached, every refill is right |
| FileSystems.FileSystem.PrefixReady | filesystem/FileSystem.cpp:284-351 | so it is while a first part of the table is cached and no table sector is on the release list |
| FileSystems.RefillSoundIff | filesystem/FileSystem.cpp:284-351 | refilling an empty pool keeps the volume's invariant exactly if its windows are clear, and then leaves it empty only if no entry is free |
| FileSystems.FileSystem.AllocateSector | filesystem/FileSystem.cpp:398-411 | hands out the first pooled sector, which was free, refilling an empty pool first; there is none exactly if no entry of the table is free; the refill follows an evicted entry, or leaves a pool that names a sector in use or one twice, exactly if ScanReadsFault or not WindowsAreClear holds before it; of the table only the low 28 bits of the entry handed out change, to the end mark |
| FileSystems.FileSystem.DeAllocateSector | filesystem/FileSystem.cpp:79-85 | the entry becomes zero, every other stays, its sector is pooled last if there is room, one less is counted, and its former successor is returned |
| FileSystems.FileSystem.AddToFreePoolCache | filesystem/FileSystem.h:82-82 | one more pooled sector if the pool has room |
| FileSystems.FileSystem.xRead | drivers/DeviceDrive.cpp:225-228 | reads the data sectors of consecutive ids, exactly if EvictsInside does not hold of them; the contents do not change |
| FileSystems.FileSystem.xWrite | drivers/DeviceDrive.cpp:346-349 | writes exactly the data sectors of consecutive ids, exactly if WriteEvictsInside does not hold of them |
| FileSystems.FileSystem.OneSectorSafe | drivers/DeviceDrive.cpp:141-344 | a transfer of one sector never faults |
| BootBlocks.BootRoundTrip | filesystem/FileSystem.cpp:131-172 | a boot block survives being written and read back, field by field |
| BootBlocks.AcceptsIff | filesystem/FileSystem.cpp:218-270 | the checks of a mount, byte by byte: signatures, sizes, jump, media and flags at their places in the sector, numbers low byte first; the table size and the counter come from bytes 20 and 47 |
| BootBlocks.FormatBytes | filesystem/FileSystem.cpp:131-172 | every byte of the boot sector that a format writes: sectors per track at byte 4, heads at byte 6 and so on, and behind them what the buffer held |
| BootBlocks.FormattedAcceptedIff | filesystem/FileSystem.cpp:218-270 | the checks of a mount accept what a format wrote exactly if its table is not empty: from 132 sectors on, or below three, where the table size wraps |
| Formats.Format | filesystem/FileSystem.cpp:164-202 | the boot block, the table with only the root's entry in use and the root directory's sector are on the drive, all other data sectors as before; the boot sector has those bytes |
| Formats.Mount | filesystem/FileSystem.cpp:218-270 | is rejected exactly if the bytes of the boot sector do not pass the checks; else it shows the table on the drive, of the size at byte 20, with a pool of its free entries, unless a table sector is on the release list; nothing on the drive changes |
| Formats.FormattedMounts | filesystem/FileSystem.cpp:164-202 | a mounted drive that was formatted is a sound volume with every entry but the root's free, pooled up to the capacity |
| Formats.FormatAndMount | filesystem/FileSystem.cpp:164-270 | formatting and mounting a drive is rejected exactly below 132 sectors and else gives that volume, with a pool of the capacity or of all entries but the root's |
| Chains.ChainUnique | filesystem/Directory.cpp:507-554 | the table determines a file's chain by its first sector |
| Chains.ExtendedKeeps | filesystem/Directory.cpp:524-550 | allocating a sector and linking it behind the last one gives a chain one longer that ends there, in a sound volume |
| Chains.GrownByOne | filesystem/Directory.cpp:524-550 | growing a chain sector by sector takes the pool in order and after a refill other free sectors, raises the counter by one each and leaves every other entry |
| Chains.FreedAllFrees | filesystem/Directory.cpp:168-175 | freeing along a chain frees exactly its sectors, lowers the counter by as many, and keeps the volume sound |
| Chains.FreeInNoChain | filesystem/FileSystem.cpp:398-411 | a free sector is in no file's chain |
| Chains.AppendKeepsFiles | filesystem/Directory.cpp:524-550 | growing one file keeps every file's chain acyclic and terminated and all chains disjoint |
| Chains.DeleteKeepsFiles | filesystem/Directory.cpp:168-175 | so does deleting one |
| Chains.ApplyKeepsFiles | filesystem/Directory.cpp:140-193 | so does any one operation |
| Chains.ApplyIs | filesystem/Directory.cpp:140-193 | what one operation does: a file created is empty, one appended to is one longer by a sector that was free, one deleted is gone with all its entries zero, all others are as before, and the counter follows the lengths |
| Chains.ApplyLosesNone | filesystem/Directory.cpp:140-193 | the sectors in use that no file has are the same before and after any operation |
| Chains.Run | filesystem/Directory.cpp:140-193 | and so does every sequence of creates, appends and deletes; it loses no sector, and the files there are then are those created, or there before, and not deleted since |
| FileImages.PendingGathered | filesystem/Directory.cpp:51-56 | adding the next consecutive sector to the buffer means the same as writing that sector at once |
| FileImages.PendingStarted | filesystem/Directory.cpp:45-50 | so does starting a new buffer |
| FileImages.PutSector | filesystem/Directory.cpp:615-619 | one more whole sector puts the next 512 bytes of the data in place |
| FileImages.PutHead | filesystem/Directory.cpp:559-581 | the part written into the middle of the first sector |
| FileImages.PutTail | filesystem/Directory.cpp:598-613 | the last part keeps what lay behind it, unless the file ends there |
| FileImages.OverwrittenIs | filesystem/Directory.cpp:490-633 | the finished sectors hold the new bytes in their range, and elsewhere the old bytes or zero |
| FileImages.OverwrittenContent | filesystem/Directory.cpp:463-488 | for an offset inside the file or at its end, the byte sequence is the old one with exactly the range replaced, grown only to the end of the range |
| FileImages.ContentOfRun | filesystem/Directory.cpp:697-765 | the bytes of a run of sectors are the file's bytes at that place, clipped at the size |
| Directories.BufferedWrite | filesystem/Directory.cpp:31-75 | whatever sectors come, in whatever order, buffer and disk together mean that each was written in turn; the buffer holds at most eight and less after the call; it cannot fail while none of the sectors is on the release list |
| Directories.FlushBuffer | filesystem/Directory.cpp:36-43 | after the final flush the disk holds what was meant; it fails only if the transfer evicts inside itself |
| Directories.FindWriteSector | filesystem/Directory.cpp:507-522 | following the chain from the hint reaches the same sector as from the first one |
| Directories.AllocateAndLink | filesystem/Directory.cpp:530-541 | the chain grows by the first pooled sector, the pool being refilled if empty; there is none exactly if no entry of the table is free; it is lost exactly if the refill is wrong |
| Directories.AllocateGap | filesystem/Directory.cpp:524-554 | a chain too short for the offset is continued with zeroed sectors up to it, or as far as there are free ones, refills included |
| Directories.WriteSectors | filesystem/Directory.cpp:583-630 | the main loop and the final flush put all of the data behind the first boundary in place; out of sectors, the data stops at the end of the chain with its last sectors still buffered |
| Directories.ActualFileWrite | filesystem/Directory.cpp:490-633 | the chain has exactly the sectors the size needs, they hold the old content overwritten by the data, no other sector of the volume changed, and the hint names a sector of the chain; out of sectors, the chain has taken every free one and holds the data up to its end, of which at most seven sectors never leave the buffer |
| Directories.OtherFileUntouched | filesystem/Directory.cpp:490-633 | every other file keeps its chain and its bytes |
| Directories.SectorsForIs | filesystem/Directory.cpp:524-554 | a file has as many sectors as hold its bytes, and not one more |
| Directories.HintAfterGrowth | filesystem/Directory.cpp:77-85 | a hint of another descriptor stays right when the file grows, unless and only unless it remembers the end of an empty file |
| Directories.FileWrite | filesystem/Directory.cpp:463-488 | a write replaces exactly the bytes of its range, grows the size to the larger of the old size and the range's end, and keeps chain, size and hint in step, with any number of refills on the way; it runs out of sectors exactly if it needs more than are free, and then leaves a chain that has taken all of them under the old size, in step only if none was free; it can be stopped only if a sector that it may touch is on the release list, or the pool is too short with part of the table uncached |
| Directories.WriteBehindBack | filesystem/Directory.cpp:77-85 | two descriptors opened on an empty file, of which one writes: the other's hint is wrong afterwards |
| Directories.FindReadSector | filesystem/Directory.cpp:673-690 | the same for reading: the hint leads to the same sector |
| Directories.RunIsSlice | filesystem/Directory.cpp:712-749 | consecutive sectors of a chain are a slice of the data sectors |
| Directories.GatherRun | filesystem/Directory.cpp:705-749 | the run gathered is consecutive on disk, at most eight sectors, and no longer than the rest of the request |
| Directories.ReadRun | filesystem/Directory.cpp:751-758 | one transfer yields the file's bytes of that run, exactly if it does not evict inside itself |
| Directories.FileRead | filesystem/Directory.cpp:635-768 | a read returns the file's bytes from the offset, clipped at the size, whatever the layout of its chain, and leaves the volume and a right hint; it can be stopped only if a sector of the file is on the release list |
| Directories.WriteThenRead | filesystem/Directory.cpp:463-768 | reading back where one wrote gives what was written whenever there was room for it and neither was stopped, which neither is while the write was certain |
| Directories.DeleteChain | filesystem/Directory.cpp:166-175 | the deleting loop ends and frees the file's chain |
| FileStacks.WriteKeeps | filesystem/Directory.cpp:463-633 | a write to one file keeps every file well formed and all disjoint, and the bytes of all others |
| FileStacks.DeleteKeeps | filesystem/Directory.cpp:166-175 | so does deleting one |
| FileStacks.ReadLaw | filesystem/Directory.cpp:635-768 | of the plain store, a read answers the smaller of the count and the bytes from the offset on, none behind the end, the k-th being the file's byte at offset plus k |
| FileStacks.WriteLaw | filesystem/Directory.cpp:463-633 | a write is carried out exactly if its file is there, it has data, starts inside the file or at its end, and the sectors it adds are free; it then replaces the bytes of its range, grows the file to its end, and changes no other file |
| FileStacks.DeleteLaw | filesystem/Directory.cpp:140-175 | a deletion removes the file, frees the sectors its bytes needed, and changes no other file |
| FileStacks.FileStack.Write | filesystem/Directory.cpp:463-633 | a write through a descriptor answers as the plain store does and leaves what it holds: the file's bytes outside the range, the data in it, all other files' bytes, the hints of all descriptors, and the counts of free and pooled sectors; it can be halted only if it was not certain |
| FileStacks.FileStack.Read | filesystem/Directory.cpp:635-768 | a read that is not halted answers exactly as many bytes as are asked for and there from the offset on, each that of the file at its place; it leaves the store as it is |
| FileStacks.FileStack.Delete | filesystem/Directory.cpp:140-175 | a deletion removes the file and leaves all others' bytes; it frees as many sectors as the bytes needed, pools them up to the capacity, and is never halted |
| FileStacks.FileStack.Rank | drivers/DiskCache.cpp:43-69 | a ranking of the sector cache between two operations leaves the store as it is; it is halted exactly if it would name a sector twice |
| FileStacks.FileStack.Flush | drivers/DeviceDrive.cpp:383-410 | and so does a flush |
| FileStacks.FileStack.SteadyCertain | filesystem/Directory.cpp:140-768 | no operation of a run without rankings can be halted while no sector of its scope is on the release list and the table is cached or the pool lasts |
| FileStacks.Run | filesystem/Directory.cpp:140-768 | any sequence of writes, reads and deletions, through any descriptors on any files, with rankings and flushes of the sector cache in between, answers as a map from files to byte sequences does and leaves its state, up to the first write that finds no room or starts behind its file's end or the first operation that is halted; a steady run has none; a read directly after a write to the same place begins with what was written |
| FileStacks.ReadAfterWrite | filesystem/Directory.cpp:463-768 | in any run, a read directly after a write that was carried out, from the same offset of the same file and for as many bytes or more, gives the data and behind it the file's former bytes up to the end of the request or of the file |
| FileStacks.NothingAfterDelete | filesystem/Directory.cpp:140-175 | in any run, no operation on a file finds it after its deletion |
| FileStacks.NewFiles | filesystem/Directory.cpp:89-138 | such a stack exists over every sound volume: empty files, a descriptor each |
| FileStacks.FormatAndRun | filesystem/FileSystem.cpp:164-270 | from an unformatted drive of 132 sectors or more: formatted, mounted, and any sequence of operations on new files answers as the map does; with nothing on the release list and no ranking all of them are carried out for which the first filling of the pool lasts |
| Bits.IsPowerOfTwoIff | util/Bit.h:41-41 | the bit test accepts a positive number exactly if it is a power of two |
| Heaps.StuffingAligns | memory/DMM.cpp:31-43 | the padding is less than the alignment and makes the address a multiple of it |
| Heaps.PadsIff | memory/DMM.cpp:31-43 | and no other number does both |
| Heaps.RefusesIff | memory/DMM.cpp:171-176 | a free block is passed over exactly if request, header and that padding, summed in 32 bits, exceed its size |
| Heaps.TilesCover | memory/DMM.cpp:147-211 | every address of the heap lies in exactly one block |
| Heaps.TakenGood | memory/DMM.cpp:174-204 | giving a block out keeps blocks side by side without overlap or gap, each able to hold its header, and the free list naming each free block once; no other block changes |
| Heaps.TakenGoodIff | memory/DMM.cpp:171-176 | it does so, and marks the block as allocated, exactly if the sum of size, header and padding does not wrap |
| Heaps.WrappedFitHappens | memory/DMM.cpp:171-176 | a concrete good heap and a request of nearly 2^32 bytes that fits a block of 64 |
| Heaps.ReleasedGood | memory/DMM.cpp:276-285 | so does giving a block back |
| Heaps.ReleasedIs | memory/DMM.cpp:276-285 | the block given back is free, of its old size and first in the list; all else is as before |
| Heaps.ReadyGood | memory/DMM.cpp:154-163 | and so does setting the heap up |
| Heaps.AllocationFreshIff | memory/DMM.cpp:154-163 | what is handed out is clear of every live block exactly if the free list was not empty or nothing was ever allocated |
| Heaps.HandedOutTwice | memory/DMM.cpp:154-163 | for every heap size, a first request that empties the free list and a second one that is handed the same addresses |
| Heaps.LiveApart | memory/DMM.cpp:147-211 | two live allocations share no address |
| KernelHeaps.KernelHeap.SetUp | memory/DMM.cpp:154-163 | an empty list becomes one free block over the heap, and a list that is not empty is left alone |
| KernelHeaps.KernelHeap.Take | memory/DMM.cpp:174-204 | blocks, headers and links change as specified for every request; unless the size sum wraps, the allocated header behind the padding, the remainder's header and the relinked list encode exactly the heap after that block was given out, the header of the free block being overwritten on the way |
| KernelHeaps.KernelHeap.Allocate | memory/DMM.cpp:147-211 | gives out the first free block that is not too small for request, header and padding by the 32-bit sum, said in numbers; fails exactly if every block is, or if the alignment is no power of two; unless the sum wrapped, the range has the requested size, lies at a multiple of the alignment inside the block, what is left behind it stays free in the same place of the list, and memory still encodes the heap |
| KernelHeaps.KernelHeap.DeAllocate | memory/DMM.cpp:264-286 | recovers exactly the block an address was handed out for, from its header and padding alone; null is accepted and the heap start refused; that block is then free and first in the list, all else as before |
| KernelHeaps.KernelHeap.UserWrite | memory/DMM.cpp:147-211 | writing anything into handed-out bytes leaves every header intact |
| KernelHeaps.TakenHandedOut | memory/DMM.cpp:174-204 | the handed-out range is aligned, as long as requested and inside the block |
| KernelHeaps.RestLeft | memory/DMM.cpp:182-203 | no more is given out than header, padding and request, unless too little is left for a header and two bytes; the rest is a free block in the same place of the list |
| KernelHeaps.SplitEncodes | memory/DMM.cpp:182-195 | with a remainder, memory still encodes the heap |
| KernelHeaps.WholeEncodes | memory/DMM.cpp:196-203 | without one, too |
| KernelHeaps.ReleasedEncodes | memory/DMM.cpp:276-285 | and after a block was given back |
| HeapRuns.ClearIff | memory/DMM.cpp:147-286 | a call leaves every live block as it was, and one that it gives out clear of them and able to hold the request, exactly if no size sum wraps and the heap is not set up anew over live blocks |
| HeapRuns.RunClearIff | memory/DMM.cpp:147-286 | so does every call of a run of allocations, releases and writes of any length, exactly if none of them overlaps in that way |
| HeapRuns.RunApart | memory/DMM.cpp:147-286 | in every state of such a run the ranges of two live blocks share no address |
| HeapRuns.CallServes | memory/DMM.cpp:147-286 | what a call does and answers, in numbers: which block serves an allocation and what is left of it, when there is none, and that a release or write changes nothing else |
| HeapRuns.Run | memory/DMM.cpp:147-286 | and the headers in memory follow the heap through all of it, each call being answered as specified, and so doing what CallServes says of it |
| PageMaps.PagesSet | memory/MemManager.cpp:301-317 | setting one bit adds one page to the set the map stands for |
| PageMaps.PagesCleared | memory/MemManager.cpp:346-357 | clearing one bit removes one page from it |
| PageMaps.PageMap.constructor | memory/MemManager.cpp:159-181 | a built map has exactly the reserved pages taken |
| PageMaps.PageMap.Allocate | memory/MemManager.cpp:319-380 | takes the least free page behind the reserved ones and adds only it; fails exactly if none is free (the kernel pool's twin is the same map with another first page) |
| PageMaps.PageMap.DeAllocate | memory/MemManager.cpp:346-391 | removes only that page |
| PageMaps.PageMap.MarkPageAsAllocated | memory/MemManager.cpp:301-317 | adds the page, except that one beyond the map is ignored and one already taken is an error |
| PageMaps.LowBitOfShifted | memory/MemManager.cpp:331-340 | the scan's shifted word shows the page's bit |
| Paging.TableAdded | memory/MemManager.cpp:502-509 | entering a fresh, zeroed page table keeps all tables distinct pages and changes no translation |
| Paging.PageAdded | memory/MemManager.cpp:520-526 | entering a fresh page changes the translation of its own page only |
| Paging.WordsWithPage | memory/MemManager.cpp:520-526 | the fresh page is all zero and no other word of a page in use changes but the entry |
| Paging.WordsWithTable | memory/MemManager.cpp:502-509 | and so for a fresh table |
| Paging.IndicesAre | memory/MemManager.cpp:482-500 | an address is made of its two indices and its place in the page |
| Paging.MemManager.AllocatePhysicalPage | memory/MemManager.cpp:319-344 | a free unreserved page, or none if all are taken |
| Paging.MemManager.AllocatePage | memory/MemManager.cpp:458-539 | refuses a fault exactly if the allocator's flag is off, the address is below the heap or in the stack's or framebuffer's slot, or an entry lacks permissions; otherwise maps the page, user-writable, to its old or a fresh frame; every word of a fresh frame is zero, as is every other word of a fresh table, and every word of any other page in use, and every other word of directory and table, is as before; fails for want of memory only if no page is free |
| Paging.FaultTranslates | memory/MemManager.cpp:609-628 | after a resolved fault the page walk maps the address to a frame and its low 12 bits, every other page as before, and no other page to a fresh frame |
| Paging.MemManager.GetFlatAddress | memory/MemManager.cpp:609-628 | the software walk is the translation |
| AddressSpaces.UserProcess.AllocatePTE | process/UserProcess.cpp:328-353 | fresh blank page tables, all entered in the directory and nothing else; no other page in use is touched |
| AddressSpaces.UserProcess.InitializeProcessSpaceForOS | process/UserProcess.cpp:355-367 | the first 32 tables map the kernel's frames, readable only |
| AddressSpaces.UserProcess.InitializeProcessSpaceForProcess | process/UserProcess.cpp:369-387 | every page of the process is entered at its place, distinct places for distinct pages, and nothing else is |
| AddressSpaces.UserProcess.AllocateStackSpace | process/SchedulableProcess.cpp:228-237 | nine pages at the end of the stack's table: entries 1016 to 1023 present and the kernel's alone, 1015 present and user-writable, none below |
| AddressSpaces.UserProcess.AllocateAddressSpace | process/UserProcess.cpp:320-326 | all pages of the address space are distinct and were free; it fails exactly if fewer pages are free than it needs, and then has taken every one; other pages keep their words; bit by bit, the stack's entries are as there, the first 32 tables' present, the user's and not writable, and page k of the process is reached through directory and table at the k-th page behind its first address |
| AddressSpaces.UserProcess.DeAllocateProcessSpace | process/UserProcess.cpp:430-448 | gives back exactly the process's pages and stack, each while still in use |
| AddressSpaces.UserProcess.DeAllocateStackSpace | process/SchedulableProcess.cpp:239-249 | the scan of the stack's table gives back exactly its nine pages |
| AddressSpaces.UserProcess.DeAllocatePTE | process/UserProcess.cpp:450-460 | gives back exactly the page tables and the stack's table |
| AddressSpaces.UserProcess.DeAllocateAddressSpace | process/UserProcess.cpp:424-428 | gives back exactly the pages the address space was built from |
| AddressSpaces.PartsApart | process/UserProcess.cpp:320-387 | directory, tables, stack table, pages and stack are pairwise disjoint |
| AddressSpaces.StackWords | process/SchedulableProcess.cpp:228-237 | bit by bit, the entries of the stack's table |
| AddressSpaces.OsWords | process/UserProcess.cpp:355-367 | bit by bit, the entries of the first 32 tables, each of the frame that the kernel's directory leads to |
| AddressSpaces.PageWords | process/UserProcess.cpp:369-387 | page k is found where the processor looks for it |
| AddressSpaces.TookCounts | process/UserProcess.cpp:320-387 | as many free pages are needed as were taken; if none is left, no more were free |
| ProcessLives.TableKeepsLiving | memory/MemManager.cpp:502-509 | a page table added by a fault leaves what the process was built from intact and its heap's pages distinct |
| ProcessLives.PageKeepsLiving | memory/MemManager.cpp:520-526 | so does a page added by a fault |
| ProcessLives.LoadKeepsLiving | process/UserProcess.cpp:510-512 | so does entering the stack's page table in its slot when the process is scheduled |
| ProcessLives.Grow | memory/MemManager.cpp:458-539 | so does any run of loads and page faults, accepted or not; the heap then has exactly the tables and pages that the fault addresses and the number of free pages say; after a load the stack's table stays in its slot through every later fault |
| ProcessLives.StackWalk | memory/MemManager.cpp:482-497 | whatever loads and faults a process has gone through, an address in the stack's slot leads to one of the nine pages it was built with, or nowhere: the stack never grows |
| ProcessLives.NewLives | process/UserProcess.cpp:320-326 | a new address space is a tree of distinct tables mapping pages in use only, with an empty heap |
| ProcessLives.RunIsOwnIff | memory/DMM.cpp:288-330 | the heap teardown's scan finds every page and table of the heap exactly if the heap is filled without gaps |
| ProcessLives.GapHappens | memory/DMM.cpp:288-330 | one accepted fault at the second page of the heap leaves a gap; with one at its first page, before or after it, there is none |
| ProcessLives.EnoughMemory | memory/MemManager.cpp:458-539 | while memory lasts, the heap has exactly the pages of the accepted faults, and tables for those |
| ProcessLives.FaultShape | memory/MemManager.cpp:458-539 | a fault changes the heap's tables and pages as its address and the number of free pages say, also when memory runs out |
| ProcessLives.ContiguousIff | memory/DMM.cpp:288-330 | a heap of that shape is filled without gaps exactly if the shape has none |
| ProcessLives.DeAllocateHeap | memory/DMM.cpp:288-330 | gives back exactly what the scan finds, each page once |
| ProcessLives.Live | process/UserProcess.cpp:389-460 | built, taken through any run of loads and page faults and torn down, a process leaves the bitmap as it was exactly if the addresses of its faults, with the pages that were free, left no gap in the heap |
| KernelServices.StepSafe | kernel/KernelService.cpp:214-233 | in a reachable state no step uses a deleted request, executes one twice, or resumes or answers a process whose request was not executed |
| KernelServices.StepKeeps | kernel/KernelService.cpp:99-233 | every step keeps the invariant: one outstanding request a process, in one place, served by one server |
| KernelServices.StepLaw | kernel/KernelService.cpp:99-233 | of each step, in terms of queue, flags, requests, processes and servers: when it is possible, and everything that it changes |
| KernelServices.AccountedKeeps | kernel/KernelService.cpp:194-229 | no request is lost: one not yet executed is queued or in a server's hand |
| KernelServices.RunSafe | kernel/KernelService.cpp:99-233 | every interleaving of every length is safe |
| KernelServices.AlwaysSafeIff | process/ProcessManager.cpp:597-607 | all interleavings are safe exactly if no request is made in kernel mode |
| KernelServices.DeletedUsed | process/ProcessManager.cpp:579-607 | the interleaving in which a request from kernel mode is taken, deleted and then executed is possible and unsafe |
| KernelServices.WakeKeeps | process/ProcessManager.cpp:591-595 | waking a process touches no request and keeps the invariant |
| KernelServices.ResumeKeeps | process/ProcessManager.cpp:277-287 | resuming a process whose flag is set keeps it |
| KernelServices.ExecuteKeeps | kernel/KernelService.cpp:225-229 | executing a request keeps it |
| KernelServices.StuckByLateWait | process/ProcessManager.cpp:597-607 | a process waits forever exactly if it starts to wait after it was woken |
| KernelServices.StuckStays | process/ProcessManager.cpp:277-287 | a stuck process stays stuck under every step |
| KernelServices.WaitsForSomeone | process/ProcessManager.cpp:579-607 | a waiting process is not stuck exactly if it was woken, its request is queued, or a server has it in hand |
| KernelServices.ResumesAtOnce | process/ProcessManager.cpp:277-287 | a waiting process that is not stuck and has no request queued or in hand can resume and collect at once, whatever else is queued |
| KernelServices.WaitEndsIff | process/ProcessManager.cpp:277-287 | from every state that a run without kernel-mode requests reaches, a waiting process can be brought back to running exactly if it is not stuck, by any one server, whatever is queued or in hand |
| KernelServices.LostWakeHappens | process/ProcessManager.cpp:597-607 | such an interleaving exists |
| KernelServices.KernelService.AddRequest | kernel/KernelService.cpp:194-198 | a new request of the caller joins the end of the queue |
| KernelServices.KernelService.GetRequest | kernel/KernelService.cpp:200-212 | the oldest queued request leaves it, if there is one |
| KernelServices.KernelService.WaitOnKernelService | process/ProcessManager.cpp:597-607 | clears the flag and waits for the request; all else is as before |
| KernelServices.KernelService.ContextSwitch | process/ProcessManager.cpp:277-287 | resumes exactly if the flag is set, whatever the queue holds, and clears it; all else is as before |
| KernelServices.KernelService.Perform | kernel/KernelService.cpp:99-233 | each step is taken exactly if queue, flags, requests, processes and servers allow it, said of them one by one, and changes the shared state as specified, an impossible one nothing |
| KernelServices.KernelService.Run | kernel/KernelService.cpp:99-233 | of any schedule exactly those steps are taken that are possible in turn, the state is the one they lead to, and without a request from kernel mode each of them is safe and the invariant holds at the end |
| KernelServices.PossibleNext | kernel/KernelService.cpp:99-233 | a longer schedule takes the same steps and its last one exactly if that is then possible |
| Partitions.AddedChains | drivers/PartitionManager.cpp:267-322 | adding a partition larger than 63 sectors extends the chain on disk by it |
| Partitions.RemovedChains | drivers/PartitionManager.cpp:370-400 | removing the last one shortens it by that one |
| Partitions.ChangedLaw | drivers/PartitionManager.cpp:267-400 | a create adds its size last if the space suffices, a delete drops the last one, and one after a create takes back what that added |
| Partitions.DeleteTakesBack | drivers/PartitionManager.cpp:267-400 | so in any run |
| Partitions.ChainReadsBack | drivers/PartitionManager.cpp:186-207 | the walk along the chain reads exactly the partitions it was made of, in order |
| Partitions.LayoutInside | drivers/PartitionManager.cpp:267-322 | they are disjoint, inside the extended partition and in increasing order |
| Partitions.AddedReadsBackIff | drivers/PartitionManager.cpp:284-307 | a partition added where it fits is read back inside the extended partition exactly if its size exceeds 63 |
| Partitions.SmallPartitionHappens | drivers/PartitionManager.cpp:267-322 | in an extended partition of 100 sectors, every added partition of 1 to 63 sectors |
| Partitions.PartitionTable.CreateExtPartitionEntry | drivers/PartitionManager.cpp:267-322 | succeeds exactly if the space suffices; the old list then stays as a prefix, behind which comes one partition with its type, offset 63, the size less 63 and its table's sector; the chain stays good, and the disk reads as that list, exactly if it fails or the size exceeds 63 |
| Partitions.PartitionTable.DeleteExtPartition | drivers/PartitionManager.cpp:370-400 | succeeds exactly if there is a partition; list and what the disk reads as are then the old list without its last one, and else as before |
| Partitions.PartitionTable.ReadExtPartitions | drivers/PartitionManager.cpp:186-207 | the walk ends and yields the list the disk reads as |
| Partitions.PartitionTable.Run | drivers/PartitionManager.cpp:267-400 | after any sequence of creates and deletes the disk reads back as the same partitions, disjoint and inside, exactly if no partition of at most 63 sectors was added; after one that was, nothing that is disjoint and inside can be read; it then holds as many partitions as before plus the creates less the deletes carried out, and those no delete came down to are the same |
| PrimaryPartitions.VerifyMBR | drivers/PartitionManager.cpp:104-141 | a table is taken as partitioned exactly if its leading entries start in rising order behind each other's ends, one entry is active and their sizes fit the disk, and it is not a GPT |
| PrimaryPartitions.AcceptedIff | drivers/PartitionManager.cpp:104-141 | written out for the four entries: how many lead, that each starts behind the end of the one before, the sum of the sizes, and the one active |
| PrimaryPartitions.LaidAcceptedIff | drivers/PartitionManager.cpp:104-141 | a table of partitions side by side is accepted exactly if one of them is active |
| PrimaryPartitions.GoodAccepted | drivers/PartitionManager.cpp:104-141 | a table made by the operations is accepted exactly if it has a partition |
| PrimaryPartitions.MasterBootRecord.Mount | drivers/PartitionManager.cpp:165-184 | reading a table back gives its partitions and the extended one, as they were made |
| PrimaryPartitions.MasterBootRecord.CreatePrimaryPartitionEntry | drivers/PartitionManager.cpp:209-265 | succeeds exactly if there is a free entry, no extended partition, a primary before an extended one and, on a disk of at least 63 sectors, space; the partitions stay side by side with one of them active exactly if it fails or the size is above zero and the space really there; the new entry has its kind, the first free sector and the size, is active if it is the first or asked to be, and then the others are not |
| PrimaryPartitions.MasterBootRecord.DeletePrimaryPartition | drivers/PartitionManager.cpp:324-368 | removes the last entry, extended or primary, if there is one; the table stays good exactly if that was not the active one of several |
| PrimaryPartitions.RemovalAcceptedIff | drivers/PartitionManager.cpp:358-363 | the table left, its last entry empty, is accepted exactly if others are left and the removed partition was not the active one |
| PrimaryPartitions.ActiveLastRemoved | drivers/PartitionManager.cpp:358-363 | a concrete table of two partitions that is accepted before the removal and not after it |
| PciBuses.NumbersDiffer | drivers/bus/PCIBusHandler.cpp:97-180 | no two buses get the same number |
| PciBuses.NumberInRange | drivers/bus/PCIBusHandler.cpp:97-180 | the numbers below a bus start with its own and are as many as there are buses |
| PciBuses.WindowExact | drivers/bus/PCIBusHandler.cpp:133-141 | a bridge's window holds the number of a bus exactly if that bus is behind the bridge |
| PciBuses.ListedIff | drivers/bus/PCIBusHandler.cpp:97-180 | the scan lists exactly the functions that answer, other than those above 0 of a device without the multi-function bit, on the buses behind its bridges, by bus number and slot |
| PciBuses.ListedOnce | drivers/bus/PCIBusHandler.cpp:97-180 | each of them once |
| PciBuses.VisibleIff | drivers/bus/PCIBusHandler.cpp:97-125 | which functions it sees, and which it takes for bridges |
| PciBuses.NumberedAt | drivers/bus/PCIBusHandler.cpp:133-145 | each bridge's registers are the number of its bus, of the bus behind it, and of the last bus behind it |
| PciBuses.RouteArrives | drivers/bus/PCIBusHandler.cpp:182-192 | while a bus is scanned, an access to its number is passed on by its ancestors' bridges and by no other, and arrives there |
| PciBuses.BridgeOpened | drivers/bus/PCIBusHandler.cpp:129-137 | opening a bridge to all numbers from the next on makes the bus behind it reachable by that number |
| PciBuses.BridgeClosed | drivers/bus/PCIBusHandler.cpp:139-145 | closing it at the last number given out completes its numbering |
| PciBuses.PCIBusHandler.OpenBridge | drivers/bus/PCIBusHandler.cpp:129-137 | the four writes, each routed by the registers as they then are, set the window |
| PciBuses.PCIBusHandler.CloseBridge | drivers/bus/PCIBusHandler.cpp:141-145 | so do the closing writes, and the way to the bus stays open |
| PciBuses.PCIBusHandler.ScanBridge | drivers/bus/PCIBusHandler.cpp:127-145 | numbers everything behind one bridge |
| PciBuses.PCIBusHandler.ScanBus | drivers/bus/PCIBusHandler.cpp:97-180 | ends, numbers every bus below depth first, touches no other bridge, and lists every function it sees up to the limit |
| PciBuses.PCIBusHandler.Initialize | drivers/bus/PCIBusHandler.cpp:32-46 | for every machine of at most 256 buses, every bridge that the scan takes for one ends up with the window of exactly the buses behind it; every entry of the list is such a function, none is there twice, and with fewer than 255 entries none is missing |
| FileDescriptorTables.RemovedSound | filesystem/FileDescriptorTable.cpp:77-93 | closing a descriptor nobody stands for keeps every count equal to one plus the descriptors standing for it, and every target older and present |
| FileDescriptorTables.RemovedIs | filesystem/FileDescriptorTable.cpp:77-93 | all others are left, unchanged but for the count of the one it stood for |
| FileDescriptorTables.DuppedSound | filesystem/FileDescriptorTable.cpp:125-135 | so does making a fresh descriptor stand for an older one |
| FileDescriptorTables.AddedSound | filesystem/FileDescriptorTable.cpp:39-54 | so does opening a file |
| FileDescriptorTables.AddedSoundIff | filesystem/FileDescriptorTable.cpp:39-54 | exactly if its mode is not the one that marks descriptors standing for others |
| FileDescriptorTables.RemovedReal | filesystem/FileDescriptorTable.cpp:77-93 | all other descriptors still stand for the same open file |
| FileDescriptorTables.DuppedReal | filesystem/FileDescriptorTable.cpp:125-135 | and the new one for the file of the other |
| FileDescriptorTables.Dup2SoundIff | filesystem/FileDescriptorTable.cpp:125-135 | dup2 keeps a table sound exactly if the two descriptors differ and the replaced one does not carry the drive id that marks a free entry |
| FileDescriptorTables.Dup2Is | filesystem/FileDescriptorTable.cpp:125-135 | entry by entry: the new descriptor names the old one, every other keeps its offset, size, mode and drive, and its count follows who stands for it |
| FileDescriptorTables.DupOverMarkedFree | filesystem/FileDescriptorTable.cpp:125-135 | a concrete table in which a descriptor standing for number 1100 is taken for a free entry |
| FileDescriptorTables.FileDescriptorTable.Allocate | filesystem/FileDescriptorTable.cpp:39-54 | opens a file under a new number, or fails at 4096 open descriptors; the table stays sound exactly if it fails or the mode is not the marking one |
| FileDescriptorTables.FileDescriptorTable.Free | filesystem/FileDescriptorTable.cpp:77-93 | closes a descriptor exactly if no other stands for it; all others stand for what they did, unchanged but for the count of the one it stood for |
| FileDescriptorTables.FileDescriptorTable.Dup2 | filesystem/FileDescriptorTable.cpp:125-135 | newFD then stands for the open file of oldFD, all others for what they did; fails exactly if either is missing or newFD is stood for; the table stays sound exactly if it fails or the two differ and newFD is not marked free; entry by entry, only counts change besides the new one |
| FileDescriptorTables.FileDescriptorTable.InitStdFile | filesystem/FileDescriptorTable.cpp:137-151 | gives a standard descriptor its device back; all others unchanged but for the count of the one it stood for |
| FileDescriptorTables.FileDescriptorTable.GetRealNonDupped | filesystem/FileDescriptorTable.cpp:68-75 | the search ends at the open file a descriptor stands for |
| FileDescriptorTables.FileDescriptorTable.UpdateOffset | filesystem/FileDescriptorTable.cpp:95-119 | the offset of that file, and nothing else, becomes the given one, the old one plus it, or the size plus it, unless that is negative as a signed word |
| FileDescriptorTables.SeekLaw | filesystem/FileDescriptorTable.cpp:95-119 | what each seek type counts from; a sum is taken as a signed word of 32 bits |
| FileDescriptorTables.FileDescriptorTable.GetOffset | filesystem/FileDescriptorTable.cpp:121-123 | the offset all its descriptors share |

## Left out

- FileSystems.FileSystem.GetSectorEntryValue: excludes the one id equal to 128 times the table size, which the guard admits; `Volumes.GuardAdmitsRootSector` says what it would touch.
- FileSystems.FileSystem.SetSectorEntryValue: excludes the same id.
- Formats.Mount: requires a drive whose table, if the boot block passes its checks, fits on it; the code does not compare the table's size with the drive's. Unmounting, and mounting again with the table cache left from before, are not modelled.
- Directories.FileWrite: says nothing of what is left by a write that is stopped, where the code goes on with a released cache entry or a wrong pool; that it can be stopped is bounded one way, and exact for each transfer and each refill (`FileSystems.FileSystem.xRead`, `FileSystems.FileSystem.xWrite`, `FileSystems.FileSystem.AllocateSector`).
- Formats.Format: requires at least four sectors; below that the root directory's sector lies behind the end of the drive.
- Formats.FormatAndMount: requires fewer than 2^28 - 1 entries, which is a drive below 128 GiB; the code accepts larger ones and cuts their links (`Volumes.LinkSurvivesIff`, `Volumes.LinksFollowedIff`). `Volume.Sound` demands it throughout.
- Volumes.FormatSound: the same bound.
- Formats.FormattedMounts: the same bound.
- Directories.FileRead: requires a clipped length below 2^31, as the code keeps byte counts in signed integers.
- FileStacks.Run: stops at the first write that finds no room or starts behind its file's end, since the bytes alone do not determine what those leave (`Directories.FileWrite` does), and at the first operation that is halted. A second descriptor on an empty file is excluded (`Directories.WriteBehindBack`).
- KernelHeaps.KernelHeap.Allocate: what later calls do with a heap after a size sum that wrapped is not modelled; `HeapRuns.Run` ends before such a call.
- KernelHeaps.KernelHeap.DeAllocate: requires null, the heap start or an address of a live block; giving back any other address is not modelled.
- AddressSpaces.UserProcess.AllocateAddressSpace: requires the page tables to fit the directory, and `ProcessLives.Live` requires them to end below the heap's slots; `Load` checks neither.
- ProcessLives.Live: DLL pages, the process environment and the graphical framebuffer, which are given back before the address space, are not part of the process.
- PciBuses.PCIBusHandler.ScanBus: requires a device to answer at function 0, and a device whose function 0 is a bridge to have no other kind of function, as the scan itself relies on.
- KernelServices.RunSafe: safety only; that a wait can end is `KernelServices.WaitEndsIff`, that a fair scheduler ends it and killing a waiting process are not modelled.
- PrimaryPartitions.MasterBootRecord.DeletePrimaryPartition: leaves out the clearing of the logical partitions' tables.
- Partitions.PartitionTable.CreateExtPartitionEntry: takes the iterator to the last partition, obtained before the new one is appended, to keep naming the old last one; `upan::list` is not part of this model. Boot signatures, head and cylinder fields and the in-memory `_partitions` list are left out. A size of zero, which the console refuses, is excluded.
- DiskDrives.DiskDrive.ReleaseCache: takes any list that names each sector once; one with repetitions, which a build after an unfinished one may make (`Rankings.LeftOverTwiceIff`), counts as a fault from where it is built, though the code fails only when it comes to the second mention. The error paths that disable the cache are left out.
- Directory entries: the encoding of a file's entry in its directory sector, directory search, creation and listing, and the current directory.
- Counters of accesses and of writes to a table block, and the width of the used-sector counter.
- Writes above 1 MB in `FileOperations_Write` and `BufferedReader`.
- The user variant of the heap (`memory/DMM.cpp:58-145`, `213-235`), which differs in its locking and in reading back the unpadded header.
- GPT tables, PCI mechanism details (ports and registers other than bus numbers and decoding), interrupt routing, device drivers, consoles, ELF loading and relocation, users and system call dispatch.
- `upan` containers, BTree, MemPool, mutexes and `ResourceMutex`: sequences, maps and atomic steps.
