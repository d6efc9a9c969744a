# Verified models of the FatFs, FreeRTOS and raster cores

A Dafny model of the hand-written algorithms in the STM32F4 discovery firmware, with proofs of what they are for.
`dafny verify dfyconfig.toml` checks everything.

**FatFs R0.08a.** The code is modelled layer by layer in its own form: classes with the fields of FATFS, FIL and DIR,
the window and file buffers as arrays, the loops as loops. Each layer is proved to be something simple.

| layer | files | what it refines |
|---|---|---|
| packed FAT entries | `FatCodec` | an array of links |
| one-sector write-back window | `FatVolume` | a map from sectors to contents, which moving the window never changes |
| chains and allocator | `FatChains`, `FatAllocator`, `FatGetFree` | a set of disjoint acyclic chains and a free count |
| buffered files | `FatSectors`, `FatFileTheory`, `FatFile`, `FatFiles` | a byte sequence for each open file |
| fast seek | `FatLinkMap`, `FatFastSeek` | following the chain |
| directories | `FatEntries`, `FatDirectory` | a finite map from names to slots |
| names, mount | `FatNames`, `FatMount` | round trips, and the layout that the other layers require |
| durability | `FatSync`, `FatDurable` | what f_open finds after f_sync, and a mount in the FSInfo sector |

The disk is a sequence of sectors. Every transfer may fail: a list of outcomes decides, and a failed transfer moves
nothing. `Volume.Valid()` holds after every call, failed ones included, and so does `Tried()`: failures are counted, and
there are none while the list has none.

**FreeRTOS 6.1.0.** `RtosList` is the circular doubly linked list on the heap, proved against sequences. The scheduler
(`RtosTables`, `RtosTheory`, `RtosScheduler`) and the co-routines (`RtosCoRoutine`) use those sequences, one for each
list, with the list that an item records as its container. The invariant `Scheduler.Valid()` holds between any two
methods, so an interrupt may run there. `Now()` is an unbounded clock of which `tick` is the low 32 bits.
`RtosWakeTime` states wake times over whole runs: every method of the scheduler promises to be one of its steps,
`TickStep`, `NotedStep` or `ResumeStep`, or `Others`, a step that leaves every sleeping task alone but those it names. `RtosQueue` splits the blocking calls into the critical sections between which
interrupts may run, and proves that no wake-up is lost. `RtosMutex` models priority inheritance for any number of
mutexes, and `RtosTimeOut` the accounting of waits.

**Rasterisers.** `Raster` proves the error bounds of the line and circle loops.

Where a property fails, the code is kept, one member says exactly when the property holds, and another gives an input,
or a run of the model, for which it does not:

| property | holds exactly when | fails |
|---|---|---|
| a file that grows keeps its clusters | `StrayCutsChain` | `StrayCanCut` |
| f_getfree counts the free clusters | `ScanIsExact` | `ScanCanBeWrong` |
| a truncated file writes only its own sectors | `TruncateFile` | `WriteSeekTruncate` |
| a successful f_sync has written the file | `SyncFile` | `SyncTwice` |
| a successful sync has written the free count | `Sync` | `InfoLost` |
| a mounted volume is laid out as its boot sector says | `MountedIsRight` | `FatAreaCanWrap`, `FatSizeCanWrap` |
| accepted names print and parse back | `RoundTrip` | `LoneDotFails` |
| vTaskDelayUntil decides rightly | `UntilIsExact` | `UntilCanSkip` |
| a wait times out when it is over | `ExpiredIsRight` | `TwoRoundsGoUnnoticed` |
| co-routines catch up with the kernel | `PassedIsExact` | `RoundGoesUnnoticed` |
| event lists stay sorted | `RewrittenInPlace` | `RewrittenOutOfPlace` |
| the holder of a mutex ranks above its waiters | `Kernel.Take` | `TakenPastWaiter` |
| the highest ready task runs after a give | `Kernel.Give` | `GivenPastReady` |
| the line loop ends | `LoopEnds` | `LongestLineNeverEnds` |

Readings of the code:

- The configuration is that of `ffconf.h`: short names, code page 932, no tiny buffer, sectors of 512 bytes. Fast seek,
  which that configuration leaves out, is modelled as well.
- `x & (n - 1)` and `x & ~(n - 1)` with n a power of two are written as remainder and quotient; `FatMount.PowerBits`
  shows that a mounted volume has such a cluster size.
- A failed write to the second FAT is ignored by the code; the model remembers it in `mirrorLost`, and the copies are
  claimed equal only without it.
- `put_fat` marks the window dirty even when it could not be moved. Its model requires that the window shows some
  sector, which holds at every call because `get_fat` comes first.
- `dir_next` and `dir_find` see 65536 entries at most, as the 16-bit index does.
- `mustYield` and `owed` are ghost: a caller of the scheduler still has to ask for a yield, or has asked and no switch
  has been made. `vTaskPriorityDisinherit` does not yield, and its caller then owes one.
- `disturbed` is ghost: the event lists in which a task has been put, or has changed its priority, without the place of
  its priority. Every other event list is in the order of priorities.
- `create_chain` takes a link that it could not read for an end mark. `astray` is a ghost result of the file operations
  that tells when this has happened at a cluster that had a successor; the chain of the file object then is the one
  that the code has made.
- The contract of `vTaskPrioritySet` follows the code: the containment test asks for the ready list of the base priority,
  so that a task with an inherited priority is not moved, and only its base priority changes.
- `canSuspend` is INCLUDE_vTaskSuspend. The FreeRTOSConfig.h files of the repository set it, and
  INCLUDE_vTaskDelayUntil, to 0: there a wait of the largest value ends, and the calls to suspend and resume tasks and
  `vTaskDelayUntil` are not compiled. They are modelled all the same.

## Model

| member | source | states |
|---|---|---|
| `FatCodec.StoreThenRead` | Utilities/FatFs_vR0.08a/ff.c:606-701 | For each sub-type: what put_fat leaves of the FAT bytes reads back, through get_fat, as the stored value cut to 12, 16 or 28 bits, and every other entry of the table reads as before, FAT12 neighbours that share a byte included |
| `FatCodec.StoreIsUpdate` | Utilities/FatFs_vR0.08a/ff.c:649-701 | Storing an entry is updating one element of the array of links that the whole table stands for |
| `FatCodec.StoreKeepsReservedBits` | Utilities/FatFs_vR0.08a/ff.c:686-692 | The reserved top four bits of a FAT32 entry survive the store of a 28-bit value |
| `FatCodec.HalfStoreKeepsOthers` | Utilities/FatFs_vR0.08a/ff.c:665-677 | A FAT12 store that stops between its two bytes has changed no other entry |
| `FatCodec.EntryLayout12` | Utilities/FatFs_vR0.08a/ff.c:622-635 | The bits of a FAT12 entry, byte by byte: an even entry has the low four bits of its second byte, an odd one the high four of its first |
| `FatCodec.EntryLayout` | Utilities/FatFs_vR0.08a/ff.c:622-635 | The bytes of a FAT16 or FAT32 entry, lowest first; the top four bits of the latter do not count |
| `FatVolume.Volume.MoveWindow` | Utilities/FatFs_vR0.08a/ff.c:508-540 | The logical volume (disk overlaid by the dirty window) never changes, whether or not the disk fails; on success the window shows the sector asked for, and nothing stays dirty when it has moved; the FAT copies agree outside a dirty window unless a write to the second copy has failed |
| `FatVolume.Volume.WriteBack` | Utilities/FatFs_vR0.08a/ff.c:516-530 | Writing the window back cleans it exactly on success and reflects a FAT sector into the second copy |
| `FatVolume.Volume.GetFat` | Utilities/FatFs_vR0.08a/ff.c:606-639 | Returns the link of the abstract table, 1 for a number out of range, 0xFFFFFFFF only after a disk error; FAT12 entries that straddle two sectors included |
| `FatVolume.Volume.PutFat` | Utilities/FatFs_vR0.08a/ff.c:649-701 | On success exactly one link of the abstract table is replaced by the value cut to its width; after a disk error no other link has changed |
| `FatVolume.Volume.ClearRun` | Utilities/FatFs_vR0.08a/ff.c:906-915 | The zero filling of a new directory cluster through the window: the sectors of the cluster are zero, all other sectors are as before, and the window shows the first of them; after a disk error only a first part has been cleared |
| `FatChains.ChainIsAcyclic` | Utilities/FatFs_vR0.08a/ff.c:712-754 | A chain that ends in an end mark visits no cluster twice |
| `FatChains.ChainsMerge` | Utilities/FatFs_vR0.08a/ff.c:712-754 | Two chains that share a cluster agree from there on |
| `FatChains.GrowKeepsAllocation` | Utilities/FatFs_vR0.08a/ff.c:799-802 | Appending a free cluster to one chain keeps the allocated clusters the disjoint union of the chains |
| `FatChains.CutKeepsAllocation` | Utilities/FatFs_vR0.08a/ff.c:2917-2927 | Cutting a chain and freeing the rest keeps the allocated clusters the disjoint union of the chains |
| `FatAllocator.CreateChain` | Utilities/FatFs_vR0.08a/ff.c:765-814 | What a call does to the table: 0 and nothing changed when no cluster is free, 1 for an internal error, else a free cluster that is now the end of the chain, with only its link and that of the old end changed; a cluster that has a successor is followed. When the link of the cluster to stretch cannot be read the code goes on as if it were a last one, and what it then does is stated too. The cluster taken is the first free one behind the cluster to stretch, or behind the last one taken, around the table, and is remembered as the last one taken. A free count that has changed is marked to be written to the FSInfo sector |
| `FatAllocator.FindFree` | Utilities/FatFs_vR0.08a/ff.c:785-797 | The circular search finds the first free cluster behind the start point, around the table, or reports 0 only when there is none |
| `FatAllocator.StrayCutsChain` | Utilities/FatFs_vR0.08a/ff.c:779-802 | After an unreadable link the chain goes on with the new cluster behind the cluster that was to be stretched; it has been extended as it should if and only if that cluster was the last one |
| `FatAllocator.StrayCanCut` | Utilities/FatFs_vR0.08a/ff.c:779-802 | A table on which that cuts a chain of two clusters behind its first one |
| `FatAllocator.CreateExplained` | Utilities/FatFs_vR0.08a/ff.c:765-814 | A failed call has its cause: a disk operation has failed, or some entry of the table is 1; a call that does not fail makes no such entry |
| `FatAllocator.CountsDown` | Utilities/FatFs_vR0.08a/ff.c:805-808 | A known free count goes down by one, as an unsigned 32-bit number |
| `FatFile.FileObject.NextCluster` | Utilities/FatFs_vR0.08a/ff.c:779-802 | What create_chain does to an open file: the next cluster, or a new one at the end with the contents kept; past an unreadable link the file is lost behind the current cluster if and only if that was not the last one, and what then is the file is stated |
| `FatAllocator.CreateOutcome` | Utilities/FatFs_vR0.08a/ff.c:765-814 | On a table without internal errors the result is 0 exactly when no cluster is free |
| `FatAllocator.RemoveChain` | Utilities/FatFs_vR0.08a/ff.c:712-754 | For every table, cyclic ones included, the loop ends and does what the walk over the links does; whatever happens, a disk error included, only clusters reachable from the start change; a known free count stays right, and a changed one is marked to be written |
| `FatAllocator.WalkFreesOnlyReachable` | Utilities/FatFs_vR0.08a/ff.c:725-749 | Freeing by following links changes only clusters reachable from the start, and sets them to 0 |
| `FatAllocator.WalkFreesReachable` | Utilities/FatFs_vR0.08a/ff.c:725-749 | A successful walk frees every cluster reachable from its start, on any table |
| `FatAllocator.WalkFreesChain` | Utilities/FatFs_vR0.08a/ff.c:712-754 | On a whole chain exactly the clusters of the chain are freed, without error |
| `FatAllocator.CreateKeepsInv` | Utilities/FatFs_vR0.08a/ff.c:765-814 | A call on 0 or on the end of a chain keeps the allocated clusters a disjoint union of terminated chains and the free count right, and changes one chain by one free cluster, or nothing when none is free |
| `FatAllocator.RemoveKeepsInv` | Utilities/FatFs_vR0.08a/ff.c:712-754 | A call on the start of a chain keeps that invariant, and frees exactly the chain |
| `FatAllocator.RunKeepsInv` | Utilities/FatFs_vR0.08a/ff.c:712-814 | Over any run of such calls the allocated clusters stay a disjoint union of acyclic terminated chains and a valid free_clust stays the number of free clusters |
| `FatGetFree.GetFree` | Utilities/FatFs_vR0.08a/ff.c:2844-2881 | Returns a plausible stored count as it is, else what the scan counts, and stores it, marked to be written on FAT32 |
| `FatGetFree.ScanIsExact` | Utilities/FatFs_vR0.08a/ff.c:2849-2880 | The scan counts exactly the free clusters if and only if the sub-type is FAT12 or neither reserved entry is 0 |
| `FatGetFree.ScanCanBeWrong` | Utilities/FatFs_vR0.08a/ff.c:2862-2878 | A table for which the FAT16 scan reports a cluster too many, because it counts entry 0 |
| `FatGetFree.GetFreeIsRight` | Utilities/FatFs_vR0.08a/ff.c:2844-2881 | With a count that the allocator keeps, f_getfree returns the number of free clusters if and only if the count is known, the sub-type is FAT12, or both reserved entries are in use |
| `FatSectors.FileSectorAt` | Utilities/FatFs_vR0.08a/ff.c:588-596 | Sector k of a file is sector k mod csize of the cluster k div csize of its chain |
| `FatSectors.ClustersInOrder` | Utilities/FatFs_vR0.08a/ff.c:588-596 | Cluster 2 is at the start of the data area, each cluster follows the one before it, and numbers out of range give 0 |
| `FatSectors.FileSectorsDisjoint` | Utilities/FatFs_vR0.08a/ff.c:588-596 | Disjoint chains occupy disjoint sectors |
| `FatFile.FileObject.constructor` | Utilities/FatFs_vR0.08a/ff.c:2113-2121 | An opened file has the bytes of its chain as contents, nothing buffered, and the pointer at the top |
| `FatFile.FileObject.Write` | Utilities/FatFs_vR0.08a/ff.c:2226-2328 | On success the contents are the old contents with exactly the bw bytes put at the file pointer; fewer bytes than asked for only when no cluster is free and the chain has ended, or the size would reach 4 GB; the chain grows by free clusters only, and no further than needed; a right free count stays right; only sectors of the file are written. When an unreadable link has led the code astray, which only a disk error can do, everything before the file pointer is still as promised. It fails only when a disk operation has failed or the table had an entry 1; when it ends inside a sector the buffer is dirty; the file is marked as written |
| `FatFile.FileObject.Read` | Utilities/FatFs_vR0.08a/ff.c:2133-2213 | On success exactly the bytes at the file pointer are returned, as many as asked for or as there are, dirty buffer included, and the contents stay; it fails only when a disk operation has failed |
| `FatFile.FileObject.Seek` | Utilities/FatFs_vR0.08a/ff.c:2628-2703 | Inside the file exactly the position changes, whatever the access mode. Past its end, in write mode, the file is stretched to the offset, or to the end of its chain when no cluster is free, with the old contents as a prefix; the same proviso for unreadable links, and the same causes of failure. A target on a sector boundary leaves the buffer as it is, dirty or not. The file is marked as written exactly when its size changes, or it was |
| `FatFile.FileObject.TruncateFile` | Utilities/FatFs_vR0.08a/ff.c:2895-2930 | The contents are cut at the pointer, exactly the clusters past it are freed, the free count stays right, and the file object can be used further; a write to a sector that is no longer the file is pending if and only if before the call the buffer was dirty with a sector of the part given up, and that sector is then in a free cluster; the file is marked as written exactly when it gets shorter, or it was, failing calls included; it fails only when a disk operation has failed |
| `FatFile.FileObject.Flush` | Utilities/FatFs_vR0.08a/ff.c:2260-2266 | Exactly the buffered sector of the volume becomes the buffer, wherever that sector is |
| `FatFile.PendingWriteHits` | Utilities/FatFs_vR0.08a/ff.c:2913-2928 | Once another file has taken that cluster, the pending write changes its contents if and only if the buffer differs from what it has there |
| `FatFiles.WriteSeekTruncate` | Utilities/FatFs_vR0.08a/ff.c:2895-2930 | One byte written to an empty file, a seek to its beginning and a truncation: unless the disk fails, no cluster is free or the table has an entry 1, the byte waits in the buffer for a cluster that is free |
| `FatFiles.WriteBeside` | Utilities/FatFs_vR0.08a/ff.c:2226-2328 | Another open file on a disjoint chain, whose buffer is empty or holds one of its own sectors, stays valid with the same contents, the bytes that only its dirty buffer holds included, and the two stay as they are to each other |
| `FatFiles.SeekBeside` | Utilities/FatFs_vR0.08a/ff.c:2628-2703 | The same for f_lseek, stretching included |
| `FatFiles.ReadBeside` | Utilities/FatFs_vR0.08a/ff.c:2133-2213 | The same for f_read, which may write the dirty buffer back |
| `FatFiles.TruncateBeside` | Utilities/FatFs_vR0.08a/ff.c:2895-2930 | The other file stays valid with the same contents; the two stay as they are to each other if no write to a cluster given up is pending |
| `FatFileTheory.StaleSector` | Utilities/FatFs_vR0.08a/ff.c:2913-2928 | A buffered sector past the cut belongs to a cluster of the part given up, which is free afterwards |
| `FatFileTheory.OverwriteTwice` | Utilities/FatFs_vR0.08a/ff.c:2250-2322 | Two transfers in a row are one transfer of the joined bytes |
| `FatFileTheory.OtherFileKept` | Utilities/FatFs_vR0.08a/ff.c:2226-2328 | Whatever grows one file out of free clusters and writes only its sectors leaves the chain and the content of every other file alone |
| `FatFileTheory.OtherFileKeptByCut` | Utilities/FatFs_vR0.08a/ff.c:2895-2930 | Truncating one file leaves the chain of every other file alone |
| `FatLinkMap.ExpandFragments` | Utilities/FatFs_vR0.08a/ff.c:2570-2588 | The fragments of a chain, as the link map stores them, decode to exactly that chain |
| `FatLinkMap.LookUp` | Utilities/FatFs_vR0.08a/ff.c:2595-2603 | The table walk that fast seek does for a cluster index finds exactly that cluster of the chain, and fails exactly past its end |
| `FatFastSeek.CreateLinkMap` | Utilities/FatFs_vR0.08a/ff.c:2569-2588 | On success the table maps the chain of the file; nothing is written past the given table size, but for the terminator in the second item; FR_NOT_ENOUGH_CORE only when the map does not fit; FR_INT_ERR only when the end mark looks like the next cluster; an error sets the flag of the file |
| `FatFastSeek.FastSeek` | Utilities/FatFs_vR0.08a/ff.c:2590-2623 | Exactly the position changes, to the offset cut to the size; with a right table it fails only when a disk operation has failed |
| `FatFastSeek.FastIsSlow` | Utilities/FatFs_vR0.08a/ff.c:2590-2696 | From what the two kinds of seek leave for an offset inside the file: the same file pointer, current cluster and contents and, inside a sector, the same sector with the same bytes in the buffer |
| `FatDirectory.Dir.constructor` | Utilities/FatFs_vR0.08a/ff.c:825-863 | A directory object for a sub-directory, the FAT32 root, or the static root table |
| `FatDirectory.Dir.SetIndex` | Utilities/FatFs_vR0.08a/ff.c:825-863 | Lands on the entry with the index, and reports an internal error only past the end of the table |
| `FatDirectory.Dir.Next` | Utilities/FatFs_vR0.08a/ff.c:873-930 | Moves by one entry; end of table exactly as documented; stretching appends one cluster of zero entries and changes nothing else; FR_DENIED only when no cluster is free |
| `FatDirectory.Dir.Walk` | Utilities/FatFs_vR0.08a/ff.c:825-930 | k times dir_next from the first entry stands on entry k, and reports the end of the table only past it |
| `FatDirectory.BothWays` | Utilities/FatFs_vR0.08a/ff.c:825-930 | k times dir_next and dir_sdi(k) leave the directory object in the same state, and unless the disk fails one reports the end of the table exactly when the other does |
| `FatDirectory.OnePlace` | Utilities/FatFs_vR0.08a/ff.c:825-930 | An entry determines every field of a directory object that stands on it |
| `FatEntries.LookupMeans` | Utilities/FatFs_vR0.08a/ff.c:1124-1160 | The map gives slot k exactly when entry k is in use, has the 11 bytes of the name and bit 3 of its attribute byte clear, and no entry before it has or ends the table |
| `FatEntries.AttributeDecides` | Utilities/FatFs_vR0.08a/ff.c:1156-1157 | Files and sub-directories are found, archived or not, and volume labels are not |
| `FatDirectory.Dir.Find` | Utilities/FatFs_vR0.08a/ff.c:1112-1163 | Stands on the first entry with the name, which is what the abstract map gives, in terms of the map and of the bytes of the entries; not found exactly when the map has none among the first 65536 entries; otherwise a disk operation has failed, or the table has no entry at all |
| `FatDirectory.Dir.Register` | Utilities/FatFs_vR0.08a/ff.c:1299-1325 | The name is written, in an otherwise zero entry, over the first free entry of the table, stretched by a cluster if it had none; FR_DENIED only when no cluster is free, FR_NO_FILE only when the static table, or the first 65536 entries, have no free entry; otherwise a disk operation has failed, the FAT had an entry 1, or the table has no entry at all |
| `FatDirectory.RegisterInserts` | Utilities/FatFs_vR0.08a/ff.c:1299-1325 | For an absent name: dir_find then finds it at the written slot, finds every other name where it was, and all entries after the first zero entry stay zero |
| `FatDirectory.Dir.Remove` | Utilities/FatFs_vR0.08a/ff.c:1359-1370 | Exactly the first byte of the current entry becomes 0xE5; it fails only when a disk operation has failed or the index is past the end of the table |
| `FatEntries.LookupFinds` | Utilities/FatFs_vR0.08a/ff.c:1124-1160 | On a table whose tail is zero a name is found exactly when some entry of the whole table has it |
| `FatEntries.RegisterIsInsert` | Utilities/FatFs_vR0.08a/ff.c:1299-1325 | The same as an insertion into a finite map, on the sequence of entries |
| `FatEntries.RemoveIsDelete` | Utilities/FatFs_vR0.08a/ff.c:1359-1370 | Every other lookup is unchanged, and the name is found no more exactly when no other entry had it |
| `FatEntries.StretchKeepsMap` | Utilities/FatFs_vR0.08a/ff.c:906-915 | Zero entries at the end of a table change no lookup |
| `FatMount.Mount` | Utilities/FatFs_vR0.08a/ff.c:1843-1890 | Computes the acceptance function of the boot sector, 32-bit wrap-around included |
| `FatMount.MountedIfAcceptable` | Utilities/FatFs_vR0.08a/ff.c:1843-1890 | Where no sum wraps a boot sector is accepted if and only if it meets the stated conditions, and the fields are the layout it describes; 4086 clusters is the FAT12/16 boundary |
| `FatMount.MountedIsRight` | Utilities/FatFs_vR0.08a/ff.c:1843-1890 | For every accepted boot sector with at most as many clusters as FAT32 allows: it is acceptable and mounted as it describes if and only if the number of its first data sector fits in 32 bits |
| `FatMount.BpbLayout` | Utilities/FatFs_vR0.08a/ff.c:1843-1890 | The bytes of the boot sector that each number is taken from, and when the 32-bit fields stand in for the 16-bit ones |
| `FatMount.PowerBits` | Utilities/FatFs_vR0.08a/ff.c:1854-1855 | The bit test accepts exactly the powers of two |
| `FatMount.GeometryFits` | Utilities/FatFs_vR0.08a/ff.c:1843-1890 | For every accepted layout on the disk each entry below n_fatent lies inside the FAT, FAT copies, root directory and clusters follow each other inside the volume, and the end mark 0x0FFFFFFF reads back as at least n_fatent in all sub-types |
| `FatMount.ClustersApart` | Utilities/FatFs_vR0.08a/ff.c:588-596 | Sectors of different clusters differ, and lie past the FAT copies and inside the volume |
| `FatMount.FatAreaCanWrap` | Utilities/FatFs_vR0.08a/ff.c:1850-1890 | A boot sector that is mounted with its data area on top of its first FAT |
| `FatMount.FatSizeCanWrap` | Utilities/FatFs_vR0.08a/ff.c:1872-1890 | A boot sector that is mounted with 2^30 entries in a FAT of one sector: why the limit on the clusters is needed |
| `FatNames.CreateName` | Utilities/FatFs_vR0.08a/ff.c:1512-1584 | Accepts exactly the segments: up to 8 and, behind a dot, up to 3 bytes of whole characters of the listed kinds, ended by a control character, a space, a slash, a backslash or the end; the 11 bytes are the stored form of their capitals, and the index is that behind the ending byte |
| `FatNames.GetName` | Utilities/FatFs_vR0.08a/ff.c:1606-1643 | The loops compute the print function on the 11 bytes |
| `FatNames.ParseIsSegment` | Utilities/FatFs_vR0.08a/ff.c:1512-1584 | Whatever is accepted is such a segment, and its 11 bytes are the stored form of the capitals of that |
| `FatNames.SegmentParses` | Utilities/FatFs_vR0.08a/ff.c:1512-1584 | Every such segment is accepted, small letters, trailing dot and double-byte pairs included |
| `FatNames.SameName` | Utilities/FatFs_vR0.08a/ff.c:1512-1584 | Two segments give the same 11 bytes if and only if their bodies and their extensions differ at most in small and capital letters of single bytes |
| `FatNames.NextSegment` | Utilities/FatFs_vR0.08a/ff.c:1512-1584 | Behind a segment, a slash and more path the index is that of the rest |
| `FatNames.StoredBytes` | Utilities/FatFs_vR0.08a/ff.c:1512-1584 | The 11 bytes one by one: body, spaces, extension, spaces, and 0x05 for a first byte 0xE5 |
| `FatNames.ParseHasForm` | Utilities/FatFs_vR0.08a/ff.c:1512-1584 | Whatever is accepted has the stored form of well-formed characters (single bytes and double-byte pairs), at most 8 before and 3 after the dot |
| `FatNames.ParseText` | Utilities/FatFs_vR0.08a/ff.c:1512-1584 | The text of such characters parses to their stored form |
| `FatNames.PrintStored` | Utilities/FatFs_vR0.08a/ff.c:1606-1643 | The stored form prints as that text |
| `FatNames.RoundTrip` | Utilities/FatFs_vR0.08a/ff.c:1512-1643 | For every accepted segment other than a lone dot, the printed text parses back to the same 11 bytes, double-byte pairs and the 0xE5/0x05 substitution included |
| `FatNames.LoneDotFails` | Utilities/FatFs_vR0.08a/ff.c:1512-1643 | A lone dot is accepted as eleven spaces, prints as nothing, and nothing is refused: exactly the excluded case fails |
| `FatNames.NameIsProper` | Utilities/FatFs_vR0.08a/ff.c:1540-1578 | No accepted name starts with the bytes that mark deleted entries and the end of a table |
| `FatSync.Sync` | Utilities/FatFs_vR0.08a/ff.c:550-577 | On success the window is clean and, when FSInfo was pending and no write failed, the FSInfo sector holds the counts; nothing else of the volume changes. Without a failed operation the sector has the free count afterwards, if it had it or it was marked to be written before |
| `FatSync.InfoLost` | Utilities/FatFs_vR0.08a/ff.c:557-572 | When the disk refuses the FSInfo sector the call still reports success, and neither the sector nor the mark tells the free count |
| `FatSync.CleanMeansWritten` | Utilities/FatFs_vR0.08a/ff.c:508-577 | With a clean window the disk is the logical volume and, unless a write to it failed, the second FAT equals the first |
| `FatSync.FsInfoRoundTrip` | Utilities/FatFs_vR0.08a/ff.c:563-569 | The marks and counts that a mount reads from the written FSInfo sector are those that sync wrote |
| `FatSync.FsInfoLayout` | Utilities/FatFs_vR0.08a/ff.c:559-567 | Every byte of the FSInfo sector that is written: the marks at 0, 484 and 510, the counts at 488 and 492, lowest byte first, and zeros |
| `FatSync.CountsLayout` | Utilities/FatFs_vR0.08a/ff.c:1899-1909 | The bytes of an FSInfo sector that a mount looks at |
| `FatSync.EntryRoundTrip` | Utilities/FatFs_vR0.08a/ff.c:2359-2368 | The size and start cluster that f_open takes from the updated entry are those of the file; the archive bit of byte 11 is set, bytes 22 to 25 are the time, and every other byte of the entry stays |
| `FatSync.OpenedLayout` | Utilities/FatFs_vR0.08a/ff.c:2113-2115 | The bytes of an entry that the size and the start cluster are taken from |
| `FatSync.SyncFile` | Utilities/FatFs_vR0.08a/ff.c:2340-2375 | On a file marked as written: after success the volume, without any buffer, holds the bytes of the file and its entry names its size and first cluster, and the window is written; after a failure with the mark cleared all that is in the logical volume, but not yet on the disk. On a file that is not marked the call reports success and changes nothing |
| `FatSync.SyncTwice` | Utilities/FatFs_vR0.08a/ff.c:2354-2368 | When the disk refuses the write of the window that shows the entry, the mark has been cleared already: the second call reports success with the disk unchanged |
| `FatSync.OpenAgain` | Utilities/FatFs_vR0.08a/ff.c:2113-2121 | Opening the synchronized entry gives a file object with the same contents |
| `FatDurable.OpenFile` | Utilities/FatFs_vR0.08a/ff.c:2105-2121 | An opened file names its entry, which names it, and nothing waits in its buffer |
| `FatDurable.WriteOpened` | Utilities/FatFs_vR0.08a/ff.c:2226-2328 | The law of an open file is kept: unless it is marked as written its entry names its size and first cluster and its buffer is clean. On FAT32 the free count stays in the FSInfo sector or marked to be written |
| `FatDurable.SeekOpened` | Utilities/FatFs_vR0.08a/ff.c:2628-2703 | The same for f_lseek, stretching included |
| `FatDurable.ReadOpened` | Utilities/FatFs_vR0.08a/ff.c:2133-2213 | The same for f_read |
| `FatDurable.TruncateOpened` | Utilities/FatFs_vR0.08a/ff.c:2895-2930 | The same for f_truncate |
| `FatDurable.SyncOpened` | Utilities/FatFs_vR0.08a/ff.c:2340-2375 | The same for f_sync: once the mark is cleared, on success at the latest, the entry names the file; without a failed operation the FSInfo sector then gives a mount the free count |
| `FatDurable.Reopen` | Utilities/FatFs_vR0.08a/ff.c:2105-2121 | An open file that is not marked, opened a second time, has the same contents |
| `FatDurable.SyncAndOpen` | Utilities/FatFs_vR0.08a/ff.c:2340-2375 | After f_sync of an open file, f_open on its entry gives its contents |
| `FatDurable.TruncateSyncOpen` | Utilities/FatFs_vR0.08a/ff.c:2895-2930 | After f_truncate and f_sync, f_open on its entry gives the contents up to the file pointer |
| `RtosList.List.constructor` | Utilities/FreeRTOS_v6.1.0/list.c:63-78 | The empty ring |
| `RtosList.List.InsertEnd` | Utilities/FreeRTOS_v6.1.0/list.c:90-108 | On the pointer ring: the item follows the index, which stands on it; next and previous stay inverse, container and count right |
| `RtosList.List.Insert` | Utilities/FreeRTOS_v6.1.0/list.c:113-167 | On the pointer ring: the item goes behind every item before the first with a larger value, for every value, and the search ends |
| `RtosList.List.Remove` | Utilities/FreeRTOS_v6.1.0/list.c:170-189 | Exactly the item leaves, and an index that stood on it or behind it moves back by one position |
| `RtosList.List.NextOwner` | Utilities/FreeRTOS_v6.1.0/include/list.h:187-198 | The index moves to the next item, over the end marker |
| `RtosList.InsertIsStable` | Utilities/FreeRTOS_v6.1.0/list.c:113-166 | The insertion keeps a list sorted and puts the item behind all equal ones |
| `RtosList.MaxGoesLast` | Utilities/FreeRTOS_v6.1.0/list.c:128-131 | A value of portMAX_DELAY goes last |
| `RtosList.RoundRobin` | Utilities/FreeRTOS_v6.1.0/include/list.h:187-198 | n steps on n items visit each exactly once, the item the index stands on last |
| `RtosTables.InsertEndIsAppend` | Utilities/FreeRTOS_v6.1.0/list.c:90-108 | The scheduler works on sequences of owners: vListInsertEnd on the ring is the append used there |
| `RtosTables.InsertIsPutBy` | Utilities/FreeRTOS_v6.1.0/list.c:113-167 | vListInsert on the ring is the insertion by value used there |
| `RtosTables.RemoveIsTake` | Utilities/FreeRTOS_v6.1.0/list.c:170-189 | vListRemove on the ring is the removal used there |
| `RtosTables.NextOwnerIsAt` | Utilities/FreeRTOS_v6.1.0/include/list.h:187-198 | The next entry is the one that the position shows |
| `RtosScheduler.Scheduler.constructor` | Utilities/FreeRTOS_v6.1.0/tasks.c:1045-1083 | The state in which the scheduler starts satisfies the invariant |
| `RtosScheduler.Scheduler.WhatValidMeans` | Utilities/FreeRTOS_v6.1.0/tasks.c:250-257 | In every reachable state an item is on exactly the list it records, a ready item is on the list of its priority with its event item detached, uxTopReadyPriority bounds the ready lists, xPendingReadyList is empty unless the scheduler is suspended, and uxCurrentNumberOfTasks is the sum of the list lengths |
| `RtosScheduler.Scheduler.DelayedWait` | Utilities/FreeRTOS_v6.1.0/tasks.c:268-286 | Whatever is on a delay list has its wake time ahead |
| `RtosTheory.CountIsSum` | Utilities/FreeRTOS_v6.1.0/tasks.c:1993-2025 | The count of tasks is the sum of the lengths of all lists |
| `RtosScheduler.Scheduler.SwitchContext` | Utilities/FreeRTOS_v6.1.0/tasks.c:1583-1624 | Ends, and runs a ready task of maximal priority, the one behind the index of its list; while suspended the switch is kept as a missed yield |
| `RtosTheory.EachHasItsTurn` | Utilities/FreeRTOS_v6.1.0/tasks.c:1583-1624 | As many switches in a row among n ready tasks of the highest priority give each of them its turn once |
| `RtosScheduler.Scheduler.CheckDelayedTasks` | Utilities/FreeRTOS_v6.1.0/tasks.c:268-286 | Readies exactly those whose wake value has been reached |
| `RtosScheduler.Scheduler.AdvanceCounter` | Utilities/FreeRTOS_v6.1.0/tasks.c:1392-1411 | When the 32-bit counter wraps the current delay list is empty, and the two lists swap |
| `RtosScheduler.Scheduler.IncrementTick` | Utilities/FreeRTOS_v6.1.0/tasks.c:1387-1425 | A tick is counted and readies exactly those that were to wake at it, or is noted down |
| `RtosScheduler.Scheduler.TickInterrupt` | Utilities/FreeRTOS_v6.1.0/portable/GCC/ARM_CM3_MPU/port.c:417-431 | One tick step of the wake-time model, and a context switch is requested |
| `RtosScheduler.Scheduler.SuspendAll` | Utilities/FreeRTOS_v6.1.0/tasks.c:1098-1103 | Nests |
| `RtosScheduler.Scheduler.ResumeAll` | Utilities/FreeRTOS_v6.1.0/tasks.c:1106-1175 | The end of the last suspension readies exactly the pending ones and those due by the replayed ticks, loses no tick, and asks for a yield if and only if one was missed, ticks were missed, or a pending task ranks at least as high as the running one |
| `RtosWakeTime.NoTickIsLost` | Utilities/FreeRTOS_v6.1.0/tasks.c:1106-1425 | Over any run, ticks counted plus ticks noted down grow by exactly those delivered |
| `RtosWakeTime.NotBefore` | Utilities/FreeRTOS_v6.1.0/tasks.c:681-735 | Over any run, one that sleeps for n ticks and that no event wakes still sleeps while fewer than n ticks have been delivered, those included that were noted down when it went to sleep |
| `RtosWakeTime.OneMoved` | Utilities/FreeRTOS_v6.1.0/tasks.c:1387-1425 | A call that moves one task is no step for any sleeper but that task; every scheduler method promises to be such a step, a tick step or a resume step |
| `RtosWakeTime.ReadiedByNthTick` | Utilities/FreeRTOS_v6.1.0/tasks.c:268-286 | Over any run, it becomes ready by exactly the n-th tick so counted, or at the end of the suspension of the scheduler during which that tick came |
| `RtosScheduler.Scheduler.DelayTask` | Utilities/FreeRTOS_v6.1.0/tasks.c:681-735 | The running task sleeps until now + n on the list that its wrapped wake value belongs to, or only yields for n = 0; nobody else moves and no time passes |
| `RtosScheduler.Scheduler.DelayUntilSuspended` | Utilities/FreeRTOS_v6.1.0/tasks.c:604-664 | For every last wake time: sleeps exactly when less than the increment seems, modulo the counter, to have passed since, and for the rest of it; exactly when that is right is stated |
| `RtosTheory.UntilIsExact` | Utilities/FreeRTOS_v6.1.0/tasks.c:612-635 | The comparisons decide whether the next wake time lies ahead correctly if and only if the last one is less than a round ago or seems at least the increment ago, or, lying ahead itself, seems less than the increment ago |
| `RtosTheory.UntilCanSkip` | Utilities/FreeRTOS_v6.1.0/tasks.c:612-635 | After an early resume at tick 5 with the last wake time 10, an increment of 10 does not delay at all |
| `RtosScheduler.Scheduler.SuspendTask` | Utilities/FreeRTOS_v6.1.0/tasks.c:869-928 | Leaves every list for the suspended list; a task that suspends itself is switched out |
| `RtosScheduler.Scheduler.DeleteTask` | Utilities/FreeRTOS_v6.1.0/tasks.c:538-589 | Leaves every list for the termination list |
| `RtosScheduler.Scheduler.CheckTasksWaitingTermination` | Utilities/FreeRTOS_v6.1.0/tasks.c:1993-2025 | Exactly the first terminated task is forgotten if there is one, both counts go down, every other task stays where it is and no time passes |
| `RtosScheduler.Scheduler.CreateTask` | Utilities/FreeRTOS_v6.1.0/tasks.c:460-530 | A new ready task of the capped priority, whose event item shows it; a yield is asked for if and only if the priority, before it is capped, is above that of the running task |
| `RtosScheduler.Scheduler.Resume` | Utilities/FreeRTOS_v6.1.0/tasks.c:964-998 | Readies exactly a suspended task that waits for no event, and yields if and only if that ranks at least as high as the running one |
| `RtosScheduler.Scheduler.ResumeFromISR` | Utilities/FreeRTOS_v6.1.0/tasks.c:1006-1033 | The same, held pending while the scheduler is suspended |
| `RtosScheduler.Scheduler.NewEventList` | Utilities/FreeRTOS_v6.1.0/list.c:63-80 | A new event list is empty, and nothing else changes |
| `RtosScheduler.Scheduler.PlaceOnEventList` | Utilities/FreeRTOS_v6.1.0/tasks.c:1627-1673 | Waits in priority order, for ticks or, where tasks can be suspended, without limit; a sorted event list stays sorted, all others unchanged; a list in the order of priorities stays so if the event item shows the priority, which it does at the base priority |
| `RtosTheory.FirstIsHighest` | Utilities/FreeRTOS_v6.1.0/tasks.c:1627-1673 | In a list in order no task ranks above one before it |
| `RtosScheduler.Scheduler.RemoveFromEventList` | Utilities/FreeRTOS_v6.1.0/tasks.c:1697-1741 | Wakes exactly the first waiter, or holds it pending, and reports whether it ranks as high as the running one; no waiter ranks above it, unless a priority has been changed in that list |
| `RtosScheduler.Scheduler.MissedYield` | Utilities/FreeRTOS_v6.1.0/tasks.c:1794-1797 | A yield asked for under suspension is kept until it is made |
| `RtosScheduler.Scheduler.PriorityInherit` | Utilities/FreeRTOS_v6.1.0/tasks.c:2252-2278 | The holder gets the larger of the two priorities and moves to the matching ready list if ready; the value of its event item is rewritten to match, and only the list it waits on may get out of order |
| `RtosScheduler.Scheduler.PriorityDisinherit` | Utilities/FreeRTOS_v6.1.0/tasks.c:2284-2303 | The base priority is restored in the matching ready list; a yield is owed exactly when a ready task ranks above it; the value of the event item is rewritten to match |
| `RtosScheduler.Scheduler.PrioritySet` | Utilities/FreeRTOS_v6.1.0/tasks.c:764-862 | Sets the capped priority and moves a ready task to its list; while a priority is inherited only the base changes; the value of the event item is that of the new priority; a yield is asked for exactly when another task rises or the running one falls |
| `RtosTables.RewrittenInPlace` | Utilities/FreeRTOS_v6.1.0/tasks.c:2259-2259 | Rewriting the value of a waiting item where it stands keeps the event list sorted if and only if the new value fits in between those of its neighbours |
| `RtosTables.RewrittenOutOfPlace` | Utilities/FreeRTOS_v6.1.0/tasks.c:2259-2259 | Two waiting tasks of which the second one rises above the first and stays behind it |
| `RtosCoRoutine.CoRoutines.constructor` | Utilities/FreeRTOS_v6.1.0/croutine.c:329-347 | Empty lists |
| `RtosCoRoutine.CoRoutines.Create` | Utilities/FreeRTOS_v6.1.0/croutine.c:125-179 | A ready co-routine of the capped priority, whose event item shows it |
| `RtosCoRoutine.CoRoutines.AddToDelayedList` | Utilities/FreeRTOS_v6.1.0/croutine.c:182-215 | Sleeps until now + n on the list its wrapped wake value belongs to; a sorted event list stays sorted |
| `RtosCoRoutine.CoRoutines.RemoveFromEventList` | Utilities/FreeRTOS_v6.1.0/croutine.c:349-372 | From interrupts: the first waiter, which no other waiter ranks above, becomes pending |
| `RtosCoRoutine.CoRoutines.CheckPendingReadyList` | Utilities/FreeRTOS_v6.1.0/croutine.c:220-240 | Readies exactly the pending ones |
| `RtosCoRoutine.CoRoutines.CheckDelayedList` | Utilities/FreeRTOS_v6.1.0/croutine.c:243-296 | Catches up with the kernel counter across its wrap and readies exactly those due by the time it has counted up to, which is the time of the kernel if and only if less than a round of the counter has passed |
| `RtosCoRoutine.CoRoutines.CountTick` | Utilities/FreeRTOS_v6.1.0/croutine.c:250-292 | One counted tick; the current delay list is empty at the wrap |
| `RtosCoRoutine.CoRoutines.Schedule` | Utilities/FreeRTOS_v6.1.0/croutine.c:299-325 | Chooses a ready co-routine of maximal priority, the one behind the index of its list, or none exactly when none is ready |
| `RtosCoRoutine.PassedIsExact` | Utilities/FreeRTOS_v6.1.0/croutine.c:247-247 | The difference of the two wrapped counters is the number of ticks passed if and only if that is less than a round |
| `RtosCoRoutine.RoundGoesUnnoticed` | Utilities/FreeRTOS_v6.1.0/croutine.c:243-325 | A run in which a co-routine that was to wake at tick 1 is still delayed when the scheduler of co-routines runs at tick 2^32, and none is chosen |
| `RtosTimeOut.ExpiredIsRight` | Utilities/FreeRTOS_v6.1.0/tasks.c:1751-1791 | The decision on wrapped counters is right if and only if no whole round of the counter has passed unnoticed; always when at most one wrap lies between |
| `RtosTimeOut.TwoRoundsGoUnnoticed` | Utilities/FreeRTOS_v6.1.0/tasks.c:1767-1785 | A wait that is over and is not reported, after two wraps between calls |
| `RtosTimeOut.TimeOut.Check` | Utilities/FreeRTOS_v6.1.0/tasks.c:1751-1791 | Timeout exactly when the wait is over, else what has elapsed is taken off it and stays positive; never for the indefinite value where that means an unlimited wait |
| `RtosTimeOut.CallsAddUp` | Utilities/FreeRTOS_v6.1.0/tasks.c:1751-1791 | Over any number of calls, remaining wait plus elapsed ticks is the original wait, and the first timeout is reported by the first call at or after the end |
| `RtosQueue.Queue.constructor` | Utilities/FreeRTOS_v6.1.0/queue.c:247-290 | An empty unlocked queue |
| `RtosQueue.Queue.CopyDataToQueue` | Utilities/FreeRTOS_v6.1.0/queue.c:1049-1084 | The ring holds the old items with the new one at the back or at the front, byte for byte, for every length and item size |
| `RtosQueue.Queue.CopyDataFromQueue` | Utilities/FreeRTOS_v6.1.0/queue.c:1087-1098 | The oldest item is copied out, and the ring holds the rest |
| `RtosQueue.Queue.SendStep` | Utilities/FreeRTOS_v6.1.0/queue.c:451-489 | Sends exactly when there is room, and wakes the first receiver |
| `RtosQueue.Queue.ReceiveStep` | Utilities/FreeRTOS_v6.1.0/queue.c:832-894 | Receives or peeks at the oldest item exactly when there is one; taking it wakes the first sender, peeking the next receiver |
| `RtosQueue.Queue.SendFromISR` | Utilities/FreeRTOS_v6.1.0/queue.c:767-817 | The same from an interrupt, at any moment; the first receiver is woken, or, on a locked queue, exactly one item is counted |
| `RtosQueue.Queue.ReceiveFromISR` | Utilities/FreeRTOS_v6.1.0/queue.c:967-1015 | The same from an interrupt, at any moment; the first sender is woken, or, on a locked queue, exactly one slot is counted |
| `RtosQueue.Queue.LockQueue` | Utilities/FreeRTOS_v6.1.0/queue.c:225-239 | Both lock counts start from zero |
| `RtosQueue.Queue.IsQueueEmpty` | Utilities/FreeRTOS_v6.1.0/queue.c:1165-1174 | Under the lock: exact at that moment, and remembered by the step that may block next |
| `RtosQueue.Queue.IsQueueFull` | Utilities/FreeRTOS_v6.1.0/queue.c:1187-1196 | Under the lock: exact at that moment, and remembered by the step that may block next |
| `RtosQueue.Queue.BlockToReceive` | Utilities/FreeRTOS_v6.1.0/queue.c:919-948 | A task joins the receivers, although an item may have come since the queue was seen empty |
| `RtosQueue.Queue.BlockToSend` | Utilities/FreeRTOS_v6.1.0/queue.c:517-544 | A task joins the senders, although a slot may have come free |
| `RtosQueue.Queue.UnlockTx` | Utilities/FreeRTOS_v6.1.0/queue.c:1109-1137 | Wakes the first receivers, one for every item counted meanwhile |
| `RtosQueue.Queue.UnlockRx` | Utilities/FreeRTOS_v6.1.0/queue.c:1140-1161 | Wakes the first senders, one for every slot counted meanwhile |
| `RtosQueue.Queue.LeaveLists` | Utilities/FreeRTOS_v6.1.0/queue.c:956-962 | A wait that ends otherwise leaves the lists |
| `RtosQueue.Queue.NoLostWakeup` | Utilities/FreeRTOS_v6.1.0/queue.c:1101-1162 | In every interleaving of the steps above: when the queue is unlocked and a receiver still waits there are at most as many items as receivers woken and not yet run, and the same for senders and free slots |
| `RtosMutex.Kernel.constructor` | Utilities/FreeRTOS_v6.1.0/queue.c:299-340 | Free mutexes |
| `RtosMutex.Kernel.HolderIsAbove` | Utilities/FreeRTOS_v6.1.0/tasks.c:2252-2303 | In every reachable state the holder ranks at least as high as every waiter, no task holds two mutexes, and a task that holds none has its base priority |
| `RtosMutex.Kernel.Take` | Utilities/FreeRTOS_v6.1.0/queue.c:836-875 | By any running task: taken exactly when nobody holds it; the holder then ranks at least as high as all waiters, and the invariant is kept, if and only if the first waiter does not rank above the taker, which is always so for the highest ready task |
| `RtosMutex.Kernel.BlockOn` | Utilities/FreeRTOS_v6.1.0/queue.c:925-943 | By any running task: the holder inherits the priority of the waiter, which joins behind all that rank at least as high and before all others |
| `RtosMutex.Kernel.Give` | Utilities/FreeRTOS_v6.1.0/queue.c:451-489 | The holder gets its base priority back, and the first waiter is woken; the code yields exactly when that waiter does not rank below the giver, so that a higher ready task is passed over exactly when one ranks above the base priority and no waiter asks for the yield |
| `RtosMutex.Kernel.TakeRecursive` | Utilities/FreeRTOS_v6.1.0/queue.c:394-424 | Taken when free or held by the caller, with the count of calls; the same condition on the first waiter |
| `RtosMutex.Kernel.GiveRecursive` | Utilities/FreeRTOS_v6.1.0/queue.c:347-387 | Only the holder gives; the mutex is released exactly when takes and gives balance |
| `RtosMutex.Kernel.TimeOut` | Utilities/FreeRTOS_v6.1.0/queue.c:956-962 | A wait that times out takes exactly that waiter off the list; the holder keeps the mutex and its priority |
| `RtosMutex.Kernel.Switch` | Utilities/FreeRTOS_v6.1.0/tasks.c:1583-1624 | The highest ready task runs |
| `RtosMutex.TakenPastWaiter` | Utilities/FreeRTOS_v6.1.0/queue.c:836-875 | A run of the model from its start state to one in which the holder ranks below a waiter: a task gives the mutex and takes it again before the woken task runs |
| `RtosMutex.GivenPastReady` | Utilities/FreeRTOS_v6.1.0/queue.c:451-489 | A run of the model from its start state to a give that asks for no yield though a ready task ranks above the giver: the only waiter has given up, and the giver loses the priority it had from it |
| `Raster.DrawUniLine` | Utilities/STM32F4-Discovery/stm32f4_discovery_lcd.c:1075-1140 | For 16-bit coordinates with a larger span of at most 0x7FFE and a sum of spans of at most 0x8000: the pixels are exactly the rounded points of the ideal line, one for each step of the major axis, seen as signed numbers |
| `Raster.LoopEnds` | Utilities/STM32F4-Discovery/stm32f4_discovery_lcd.c:1077-1124 | For a larger span that is a 16-bit number: the 16-bit counter of the loop gets past the end of the line if and only if that span is less than 0x7FFF |
| `Raster.LongestLineNeverEnds` | Utilities/STM32F4-Discovery/stm32f4_discovery_lcd.c:1077-1124 | For the line from (0, 0) to (0x7FFF, 0) the counter wraps from 0x7FFF to -0x8000 and is never past the end |
| `Raster.LineIsShown` | Utilities/STM32F4-Discovery/stm32f4_discovery_lcd.c:1075-1140 | Between end points below 0x8000 they are the points themselves |
| `Raster.RoundedIsNear` | Utilities/STM32F4-Discovery/stm32f4_discovery_lcd.c:1108-1139 | A rounded point is within half a pixel of the ideal line on the minor axis |
| `Raster.LineEnds` | Utilities/STM32F4-Discovery/stm32f4_discovery_lcd.c:1075-1140 | The first pixel is the start point and the last is the end point |
| `Raster.DrawCircle` | Utilities/STM32F4-Discovery/stm32f4_discovery_lcd.c:875-922 | Every octant point satisfies -y <= x^2 + y^2 - r^2 <= y - 1, there is one for each column, each is plotted with its eight reflections, and drawing stops where the band leaves the octant |
| `Raster.ReflectionsAre` | Utilities/STM32F4-Discovery/stm32f4_discovery_lcd.c:885-908 | The eight pixels are exactly those whose distances from the centre along the axes are the two coordinates of the octant point, either way round |
| `Raster.OnePerColumn` | Utilities/STM32F4-Discovery/stm32f4_discovery_lcd.c:881-921 | A column has at most one octant point in the band, so the plotted one is the only right one |

## Left out

- `FatMount.GeometryFits`: that the volume lies on the disk is a condition, because the code does not check it.
- `FatSync.Sync`: an FSInfo sector at or behind the start of the FAT, which the mount does not refuse, is not covered.
- `FatFastSeek.CreateLinkMap`: a table in memory of fewer than two items is not covered.
- `FatFiles.WriteBeside`: only calls that succeed and do not go astray are followed, and only while the other file's buffer is empty or holds one of its own sectors; a truncation can leave a clean buffer that holds a freed one.
- `FatFile.FileObject.Seek`: the bytes that a seek past the end adds are unspecified, as in the code.
- `FatFile.FileObject.Write`: after an error only the volume's invariant and the error flag are claimed, not how much was written; after going astray nothing is claimed behind the file pointer.
- `FatGetFree.GetFree`: after an error nothing is claimed about the count, although the code stores it.
- `RtosScheduler.Scheduler.IncrementTick`: the count of missed ticks is unbounded.
- `RtosQueue.Queue.SendStep`: a woken task runs before it is deleted or suspended; a task's critical section runs only while no other task holds the scheduler suspended; the place in a waiting list is a parameter; yields are the business of the scheduler model.
- `RtosMutex.Kernel.Take`: each task uses at most one mutex at a time, and base priorities stay.
- `RtosMutex.Kernel.Sleep`: a woken waiter runs before it blocks again.
- `Raster.DrawUniLine`: a span of 0x7FFF, for which the loop does not end, and spans whose 16-bit differences or sums overflow are excluded; that the display ignores pixels outside it is not modelled.
- `Raster.DrawCircle`: radius 0, for which the row counter wraps, is excluded; intermediate values are unbounded.
- Memory: buffers passed by callers are sequences, so aliasing between them and the file buffer is not modelled. Object validation, reentrancy locks and file sharing are not either.
- The time stamps that f_sync writes are a parameter.
- The mount's handling of the drive, the partition table and the boot sector search.
- Path walking, f_open's creation and access modes, f_mkdir, f_unlink, f_rename, f_chmod, f_utime: plumbing over the directory map.
- The twelfth byte that create_name stores: the flags for small letters, and for the last segment of a path.
- Long file names, f_mkfs, f_forward and string functions: not in the configuration.
- Context switches, critical sections and interrupt masking are atomic steps. Stacks, memory allocation, the MPU, tracing, statistics and hooks are left out, and so is suspending every task before the scheduler starts.
- Options of the port other than preemption.
- The alternative and co-routine queue calls, which repeat the modelled paths.
- Hardware drivers, diskio.c, fonts, text and polygon drawing, audio, and interrupt priority encoding: register programming, or easy members.
