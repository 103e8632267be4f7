# Storage and pipe core, modelled and proved in Dafny

This project models the stateful core of the kernel's storage stack and of its pipes, and proves what that code is
for. It covers FatFs (allocation tables, cluster chains, exFAT lazy chains, link maps, file access, long names,
formatting against mounting), the NVMe queue pair, the block layer, pipes with their reference counts, and VFS paths.

`dafny verify dfyconfig.toml` checks everything. The code that works in place is modelled as classes, arrays and
loops; each method is proved against functions on values, and the laws are proved about those functions.

| file | contents |
|---|---|
| `Bytes`, `FatTable` | little-endian fields; FAT12/16/32/exFAT entries in a byte string as an array |
| `FatVolume`, `MirrorRun` | the one-sector write-back window, the mirrored FAT, get_fat and put_fat through it; whole runs on a device that may fail |
| `ChainSpec`, `FatChain`, `ChainRun` | create_chain and remove_chain as transitions on a forest of chains; the same on a mounted volume; whole runs |
| `LazyChain`, `Bitmap`, `Exfat`, `ExfatRun` | exFAT chains kept partly in the object and partly on the FAT; the allocation bitmap; both on a mounted volume; runs on several objects |
| `LinkMap`, `FastSeek` | CREATE_LINKMAP and clmt_clust for objects of all four kinds; f_lseek by the map |
| `FileData`, `FileSpace`, `FileAccess` | file contents as a byte sequence; one object's clusters on any kind of volume; f_read, f_write, f_lseek |
| `FileRun`, `TwoFiles`, `Reopen` | whole sessions on one handle and how far a write gets; two handles on one volume; f_sync, mount and f_open |
| `Arith` | powers of two, monotone division, pigeonhole facts |
| `Lfn` | long name entries |
| `Mkfs`, `FreshVolume` | layout computed by f_mkfs against layout computed by mount_volume; format and mount on one disk |
| `NvmeRing`, `NvmeCid`, `NvmeDriver`, `NvmePrp` | both rings with a nondeterministic controller; command identifiers over all queues; the driver's loops; PRP descriptors |
| `BlockDevice` | byte-granular reads and writes over whole blocks |
| `Pipe`, `PipeObject` | counters, reclamation and data as one state machine; the same on a buffer in memory |
| `VfsPath` | path tokenizer, walker and printer |

## What the proofs found

- **The second FAT's write result is ignored** (`module/fatfs/ff.c:1133-1137`). sync_window can answer FR_OK and leave
  the copies different: `FatVolume.MirrorWitness`. After a flush the copies are sure to be equal if and only if the
  mirror write succeeded (`FatVolume.MirrorSure`). Over every run on any device, a clean first-FAT sector equals its copy
  unless the last attempt to copy it failed, or there was none and the copies differed at mount (`MirrorRun.Run`).
- **exFAT get_fat with an unwritten last fragment** (`module/fatfs/ff.c:1269-1277`). Clusters behind the first fragment
  all look like the end of the chain: `LazyChain.PendingHidesNext`. `LazyChain.NextOfIsRight` gives the exact condition.
  Through one file handle it never shows: `FileAccess.File` keeps the invariant that a pending fragment is where the
  cursor is, and f_lseek writes it out first.
- **exFAT remove_chain can leave its last run marked** (`module/fatfs/ff.c:1513-1533`). When the end mark read for the
  last cluster is the number after it, the run is taken to go on and is never cleared. `Exfat.RemoveChain` proves that
  the removed clusters are freed if and only if this is not the case; `LinkMap.MisleadingWitness` is such an object.
- **CREATE_LINKMAP has the same blind spot** (`module/fatfs/ff.c:4499-4505`). It answers FR_INT_ERR if and only if the
  end mark is the number after the last cluster (`LinkMap.CreateLinkMap`, the same witness). `LinkMap.EndLooksNextIff`
  says when that is so on exFAT: by the mark on the FAT, or, for a contiguous object, only if its last cluster has the
  highest number a volume can have, since the end mark get_fat generates is one above it.
- **f_mkfs accepts a volume with no cluster** (`module/fatfs/ff.c:6299-6335`). The size check does not count the
  alignment gap. `Mkfs.NoClusterLeft` is such a volume: 128 sectors, 128-sector alignment. Mounting refuses it.
  `Mkfs.Format` proves that mounting agrees with what the loop accepted if and only if the request leaves room for a
  cluster behind reserved area, FATs, directory and gap (`Mkfs.NothingLeft`, `Mkfs.EmptyIff`).
- **Mounting accepts a record whose FAT area wraps 32 bits** (`module/fatfs/ff.c:3557-3588`). The sum of reserved area,
  FATs and directory is compared with the volume size only after the wrap. `Mkfs.MountedSound` proves that the areas of
  a mounted volume follow one another if and only if that sum does not wrap; `Mkfs.WrappedFats` is a record that mounts
  with its data area inside the first FAT. f_mkfs writes no such record (`Mkfs.FormattedGeometry`).
- **An NVMe transfer limit can wrap to none** (`module/nvme/nvme.c:946-959`). The exponent comes unchecked from the
  controller; from 52 on the 64-bit product is 0, which the driver reads as "no limit". `NvmePrp.LimitPositive` proves
  that the limit is positive if and only if the exponent is below 52, `NvmePrp.LimitWraps` is the first failing one. The
  page count test of the descriptor setup still bounds every transfer (`NvmePrp.UnlimitedStillFits`).
- **End of file on a pipe is not final** (`src/fs/pipefs.c:128-132`, `src/fs/pipefs.c:167-184`). A writer that is inside
  pipefs_write while the last write descriptor is closed can still deliver bytes after a reader was told end of file:
  `Pipe.EofWitness` is such a run. `Pipe.EofExact` proves that bytes can still come if and only if an unfinished writer
  is inside and a read descriptor is open.

## Model

| member | source | states |
|---|---|---|
| `Bytes.StoreLoadWord` | module/fatfs/ff.c:688-731 | a stored 16-bit field loads back as the value cut to 16 bits |
| `Bytes.StoreLoadDword` | module/fatfs/ff.c:697-742 | a stored 32-bit field loads back unchanged |
| `FatTable.StoreThenLoad` | module/fatfs/ff.c:1294-1343 | the entry stored for a cluster reads back as the value masked to the entry width, for all four kinds |
| `FatTable.StoreElsewhere` | module/fatfs/ff.c:1305-1337 | storing one entry leaves every other entry as it was, also FAT12 neighbours sharing a byte |
| `FatTable.ReservedKept` | module/fatfs/ff.c:1328-1337 | a FAT32 store keeps the four reserved bits of its own entry |
| `FatTable.StoreIsArrayUpdate` | module/fatfs/ff.c:1218-1251 | the byte-packed table behaves as an array: a store is one update of the entry sequence |
| `FatTable.EntryBytes` | module/fatfs/ff.c:1218-1251 | where an entry is: little-endian in two or four bytes, on FAT12 in one and a half, with the unused top bits cut off |
| `FatVolume.Volume.SyncWindow` | module/fatfs/ff.c:1124-1143 | flushing changes nothing a reader sees outside the second FAT, in success and failure; the window is clean exactly on success; what the disk is afterwards, sector by sector; one mirror attempt is noted exactly when a dirty first-FAT sector was flushed |
| `FatVolume.Volume.CopyToMirror` | module/fatfs/ff.c:1133-1137 | reflecting a flushed first-FAT sector changes only its copy; afterwards the sector counts as lost if and only if the write failed |
| `FatVolume.LostIsLastFailed` | module/fatfs/ff.c:1124-1143 | a sector's copy is untrusted exactly when the last attempt to write it failed, or there was none and it differed at mount |
| `FatVolume.MirrorSure` | module/fatfs/ff.c:1133-1137 | after a flush that reports OK, the copies are sure to be equal if and only if the ignored write succeeded |
| `FatVolume.MirrorWitness` | module/fatfs/ff.c:1133-1137 | two equal copies, a flush that reports OK, two different copies |
| `FatVolume.Volume.constructor` | module/fatfs/ff.c:3553-3612 | a mounted volume starts with a clean window; the untrusted sectors are exactly those whose copies differ on the medium |
| `FatVolume.Volume.MoveWindow` | module/fatfs/ff.c:1146-1165 | moving the window is transparent: same view of every sector outside the second FAT, also when the flush or the read fails |
| `FatVolume.Volume.GetFat` | module/fatfs/ff.c:1218-1251 | the table entry of the cluster, 1 outside 2..n_fatent-1, 0xFFFFFFFF only on a disk error; the table is unchanged |
| `FatVolume.Volume.GetFat12` | module/fatfs/ff.c:1232-1240 | a FAT12 entry is read right even when its two bytes lie in different sectors |
| `FatVolume.Volume.PutFat` | module/fatfs/ff.c:1294-1343 | exactly one entry of the table changes, to the masked value; nothing outside the FATs changes |
| `FatVolume.Volume.PutFat12` | module/fatfs/ff.c:1305-1319 | the two half-byte stores of a FAT12 entry through the window amount to one entry store |
| `MirrorRun.CleanMirrored` | module/fatfs/ff.c:1124-1165 | in every valid state a clean first-FAT sector that differs from its copy is one whose last copy failed |
| `MirrorRun.Run` | module/fatfs/ff.c:1124-1343 | over any run of syncs, moves, get_fat and put_fat on any device: nothing outside the FATs changes for a reader, and clean sectors equal their copies unless the last copy failed |
| `MirrorRun.MountAndRun` | module/fatfs/ff.c:1124-1343 | mounted with equal FATs on a faultless device, every clean sector equals its copy after any run |
| `ChainSpec.ScanComplete` | module/fatfs/ff.c:1634-1646 | from any hint the cyclic scan fails exactly when no cluster is free |
| `ChainSpec.ScanIsFirst` | module/fatfs/ff.c:1634-1646 | the cluster found is the first free one in cyclic order: every cluster visited before it is in use |
| `ChainSpec.ScanMeets` | module/fatfs/ff.c:1634-1646 | whatever the scan starts from, its result is the cluster a walk upwards with wrap-around meets first among the free ones, 1 if a corrupt entry comes before it |
| `ChainSpec.PickIsFree` | module/fatfs/ff.c:1620-1646 | with an exact or unknown count the choice fails exactly on a full volume and never takes a used cluster; which one it takes is in PickTakes |
| `ChainSpec.PickTakes` | module/fatfs/ff.c:1620-1646 | which cluster is taken: behind a tail the one next to it, wrapping to 2, if it is free; else the first free one after the hint if that is in range, else after the tail; for a new chain the first one after the hint, or from 2 |
| `ChainSpec.CreateTakes` | module/fatfs/ff.c:1571-1662 | create_chain takes that cluster, ends the chain at it, links it behind the tail and notes it as the hint; a call that takes none changes nothing |
| `ChainSpec.CreateKeepsForest` | module/fatfs/ff.c:1571-1662 | create_chain appends one free cluster to exactly one chain, or reports a full volume, and keeps the disjoint forest |
| `ChainSpec.CreateExact` | module/fatfs/ff.c:1653-1657 | a valid free count stays the number of zero entries over create_chain |
| `ChainSpec.RemoveKeepsForest` | module/fatfs/ff.c:1475-1533 | remove_chain frees exactly the suffix, ends the predecessor and touches no other chain |
| `ChainSpec.RemoveExact` | module/fatfs/ff.c:1508-1511 | a valid free count stays exact over remove_chain |
| `ChainSpec.ReleaseCorrupt` | module/fatfs/ff.c:1499-1533 | on a corrupt table the release loop succeeds at a free entry, fails at a reserved one, and frees a circle once; in each case what is freed is exactly what it walked over |
| `ChainSpec.RunKeepsForest` | module/fatfs/ff.c:1475-1662 | over every run of both operations the table is a disjoint acyclic forest of exactly the expected chains, with an exact count |
| `ChainSpec.CreateOnChain` | module/fatfs/ff.c:1571-1662 | create_chain at an element of one file's chain follows it, lengthens it by a free cluster, or finds the volume full |
| `FatChain.ScanForFree` | module/fatfs/ff.c:1634-1646 | the search loop on the volume computes the cyclic scan of the table |
| `FatChain.CreateChain` | module/fatfs/ff.c:1571-1662 | on FAT12/16/32 the call is the Create transition on the allocator state the volume holds, or reports a disk error; a new cluster is the one next to the tail if free, else the first free one after the hint or the tail, carries the end mark of the type and becomes the hint; a cluster out of range or with a reserved entry gives 1 |
| `FatChain.ReleaseChain` | module/fatfs/ff.c:1499-1533 | the release loop terminates and is the Release transition |
| `FatChain.RemoveChain` | module/fatfs/ff.c:1475-1533 | on FAT12/16/32 the call is the Remove transition, success reported rightly; clusters out of range give FR_INT_ERR and change nothing |
| `ChainRun.Perform` | module/fatfs/ff.c:1475-1662 | one request on a mounted volume moves volume and list of chains together |
| `ChainRun.RunChains` | module/fatfs/ff.c:1475-1662 | any run on a mounted volume keeps forest, exact count and every byte outside the FATs |
| `LazyChain.RepIsUnique` | module/fatfs/ff.c:1253-1280 | status, fragment lengths and partial FAT determine the cluster list of a given length |
| `LazyChain.AppendKeepsRep` | module/fatfs/ff.c:1592-1617 | one tail append turns a representation of a list into one of the list with the new cluster, and changes no other entry |
| `LazyChain.AppendAll` | module/fatfs/ff.c:1592-1617 | the same over any sequence of appends |
| `LazyChain.NewChainRep` | module/fatfs/ff.c:1599-1600 | a new chain starts out contiguous |
| `LazyChain.FinishLeavesChain` | module/fatfs/ff.c:1433-1466 | fill_first_frag then fill_last_frag leave exactly the list on the FAT and touch no other entry |
| `LazyChain.FlushKeepsRep` | module/fatfs/ff.c:1453-1466 | writing the last fragment out with an end mark leaves a representation of the same list with nothing pending |
| `LazyChain.NextOfIsRight` | module/fatfs/ff.c:1253-1280 | get_fat follows the list at an element if and only if no unwritten last fragment hides its successor |
| `LazyChain.PendingHidesNext` | module/fatfs/ff.c:1269-1277 | two clusters with a pending link: get_fat shows the first as the end |
| `Bitmap.FlipMarks` | module/fatfs/ff.c:1415-1422 | flipping one bit of one byte changes the mark of exactly one cluster |
| `Bitmap.MarkIs` | module/fatfs/ff.c:1372-1381 | where a mark is: eight clusters a byte from cluster 2 on, lowest bit first |
| `Bitmap.FindBitmap` | module/fatfs/ff.c:1356-1394 | the first free cluster in cyclic order from the given one, 0 if there is none |
| `Bitmap.ChangeBitmap` | module/fatfs/ff.c:1400-1427 | exactly the requested bits flip, across bytes and sectors; stops with FR_INT_ERR at the first one that already has the value, having flipped those before it |
| `Exfat.FillLastFrag` | module/fatfs/ff.c:1453-1466 | the last fragment is written on the FAT with the given end value, the bitmap and the rest of the volume stay |
| `Exfat.FillFirstFrag` | module/fatfs/ff.c:1433-1447 | the first fragment is written on the FAT when the status asks for it, and the status is cleared |
| `Exfat.GetFat` | module/fatfs/ff.c:1253-1280 | computes the successor from status, fragment lengths and size, or reads the FAT |
| `Exfat.LinkCluster` | module/fatfs/ff.c:1599-1617 | the status update keeps the representation, now of the longer list |
| `Exfat.FindIsComplete` | module/fatfs/ff.c:1592-1595 | the bitmap search fails exactly when every cluster is marked |
| `Exfat.ChosenFinds` | module/fatfs/ff.c:1580-1595 | which cluster is taken on exFAT: the first free one upwards from the tail, for a new chain from the hint if that is in range, else from 2 |
| `Exfat.CreateChain` | module/fatfs/ff.c:1571-1662 | inside the list it follows it; at its end it takes the first free cluster upwards from the tail, or for a new chain from the hint, appends it, counts it and notes it as hint; 0 exactly when the count or the search says that none is free |
| `Exfat.TakenExact` | module/fatfs/ff.c:1653-1657 | taking a cluster keeps an exact free count exact on exFAT |
| `Exfat.FreedExact` | module/fatfs/ff.c:1508-1511 | releasing clusters keeps it exact |
| `Exfat.ReleaseFrom` | module/fatfs/ff.c:1499-1533 | the run-coalescing loop clears exactly the rest of the chain, but for a last run behind a misleading end mark |
| `Exfat.LeftStatMeans` | module/fatfs/ff.c:1536-1562 | the status after a cut: contiguous again exactly if the clusters left follow one another, as far as the former status shows it |
| `Exfat.RemoveChain` | module/fatfs/ff.c:1475-1565 | ends the chain, frees exactly the suffix if and only if the end mark is not misleading, leaves a representation of the prefix, contiguous exactly if its clusters follow one another, and credits the count |
| `Exfat.UpdateStat` | module/fatfs/ff.c:1537-1562 | the recomputed status is right for the shortened chain |
| `ExfatRun.GrowKeeps` | module/fatfs/ff.c:1592-1657 | create_chain on one of several objects keeps all lists disjoint, every object standing for its list, the marks exactly theirs and the count exact; it fails exactly when every cluster is marked |
| `ExfatRun.CutKeeps` | module/fatfs/ff.c:1475-1565 | remove_chain on one of several objects keeps the same |
| `ExfatRun.FlushKeeps` | module/fatfs/ff.c:1453-1466 | so does fill_last_frag, which leaves nothing pending |
| `ExfatRun.RunKeeps` | module/fatfs/ff.c:1433-1662 | over every run of the three on any number of exFAT objects, each step being what the code does to FAT, bitmap, count, hint and object: disjoint lists, marks exactly their union and the reserved clusters, exact free count |
| `ExfatRun.PerformGrow` | module/fatfs/ff.c:1571-1662 | create_chain on a mounted volume with several objects of any sizes is such a step |
| `ExfatRun.PerformCut` | module/fatfs/ff.c:1475-1565 | remove_chain on a mounted volume with several objects of any sizes is such a step |
| `ExfatRun.RunObjects` | module/fatfs/ff.c:1433-1662 | any run on a mounted volume follows the model, so it keeps the invariant, and changes nothing outside FAT and bitmap |
| `ExfatRun.WriteOut` | module/fatfs/ff.c:4190-4196 | the two fills of f_sync leave a list that is not contiguous exactly on the FAT, a contiguous one off it, and change no entry of another object |
| `LinkMap.LookRight` | module/fatfs/ff.c:1671-1689 | a lookup in a run-length encoding gives the element of the chain, 0 past its end |
| `LinkMap.WalkItems` | module/fatfs/ff.c:1680-1688 | the table walk computes the lookup |
| `LinkMap.ClmtClust` | module/fatfs/ff.c:1671-1689 | with a built table, the cluster holding the offset, for every offset |
| `LinkMap.FragmentsRun` | module/fatfs/ff.c:4496-4505 | one maximal run adds one fragment |
| `LinkMap.RepWalks` | module/fatfs/ff.c:1253-1280 | with nothing pending, following get_fat walks along the list of a contiguous, just fragmented or linked exFAT object and ends behind it |
| `LinkMap.MisleadingWitness` | module/fatfs/ff.c:4499-4505 | an object whose end mark looks like the next cluster, on FAT and on exFAT |
| `LinkMap.EndLooksNextIff` | module/fatfs/ff.c:1258-1277 | an exFAT object looks endless exactly by its mark on the FAT, or if it is contiguous up to the highest cluster number |
| `LinkMap.Fragment` | module/fatfs/ff.c:4496-4505 | on an object of any kind, the inner loop measures one maximal run and stops at the link that breaks it |
| `LinkMap.MapFragments` | module/fatfs/ff.c:4491-4511 | on an object of any kind, all fragments are stored in order as long as they fit, and counted beyond that |
| `LinkMap.CreateLinkMap` | module/fatfs/ff.c:4487-4517 | for objects of all four kinds the table encodes the list; 2 + 2 * fragments items are reported even when it is too small; FR_INT_ERR if and only if the end mark is misleading |
| `FastSeek.MakeLinkMap` | module/fatfs/ff.c:4478-4517 | CREATE_LINKMAP on an open file of any kind: the table encodes the file's clusters, contents and position stay, and the error cases are exact |
| `FastSeek.Seek` | module/fatfs/ff.c:4518-4541 | seeking by the map reaches the clipped target in a valid handle with the same contents, as following the chain does |
| `FastSeek.FollowByMap` | module/fatfs/ff.c:3974-3992 | at a cluster boundary f_read gets from the map the cluster that following the chain gives |
| `FastSeek.StepByMap` | module/fatfs/ff.c:4076-4101 | at a cluster boundary f_write gets the next cluster from the map and stops exactly at the end of the last one |
| `FileData.WriteLands` | module/fatfs/ff.c:4111-4159 | rewriting sectors of a file's range splices the bytes into its contents and nothing else |
| `FileData.ReadGives` | module/fatfs/ff.c:3992-4014 | consecutive sectors of the disk are the matching slice of the contents |
| `FileSpace.FileByte` | module/fatfs/ff.c:3974-4019 | where byte p of a file is: in which cluster of its list, which sector of the volume and which byte of that |
| `FileSpace.WriteSector` | module/fatfs/ff.c:4106-4109 | writing a data sector outside the bitmap changes that sector only; FAT and allocation state stay |
| `FileSpace.MetaAvoidsData` | module/fatfs/ff.c:1124-1165 | steps that touch FAT and bitmap only leave every data sector of a chain as it was |
| `FileSpace.NextOn` | module/fatfs/ff.c:1218-1287 | get_fat at an element of an object's list gives the next one, on all four kinds |
| `FileSpace.ExfatOutcome` | module/fatfs/ff.c:1571-1662 | on exFAT the outcome of create_chain is followed, lengthened by an unmarked cluster outside the bitmap, or full |
| `FileSpace.StretchOn` | module/fatfs/ff.c:1571-1662 | create_chain on an object's list, on all four kinds: followed, lengthened by a free cluster that is counted, or full; its data stays as it was |
| `FileSpace.FlushOn` | module/fatfs/ff.c:1453-1466 | fill_last_frag leaves nothing pending and changes neither list nor data |
| `FileAccess.File.constructor` | module/fatfs/ff.c:3891-3906 | a fresh handle at position 0 shows the bytes its chain holds |
| `FileAccess.File.Read` | module/fatfs/ff.c:3951-4040 | returns the slice of the contents from fptr, as long as asked for or as left, and moves fptr behind it; contents and table stay |
| `FileAccess.File.ReadWhole` | module/fatfs/ff.c:3992-4016 | a direct multi-sector transfer with the dirty buffer laid over it is the right slice |
| `FileAccess.File.Stretch` | module/fatfs/ff.c:4076-4101 | at a cluster boundary f_write follows or lengthens the chain, counting the cluster, or finds the volume full |
| `FileAccess.File.Write` | module/fatfs/ff.c:4050-4163 | splices the accepted bytes in at fptr; stores fewer than given only where the position reaches 4 GiB - 1 on FAT12/16/32, or at the end of the last cluster with no other to be had; the chain grows by free clusters only, each counted, and no other chain changes |
| `FileAccess.File.WriteWhole` | module/fatfs/ff.c:4111-4137 | direct sector writes splice, keeping the buffered sector consistent |
| `FileAccess.File.Seek` | module/fatfs/ff.c:4545-4631 | a read-only handle goes to the smaller of offset and size; a writable one reaches the offset, below 4 GiB on FAT12/16/32, stretching the file, and stops short only at the end of the last cluster with no other to be had; within the file only the position changes |
| `FileAccess.File.FlushFragment` | module/fatfs/ff.c:4478-4483 | the fragment pending on exFAT is written out before a seek; the file does not change |
| `FileAccess.TightAfter` | module/fatfs/ff.c:4583-4589 | the size keeps needing every cluster, which get_fat relies on for contiguous exFAT objects |
| `FileAccess.File.SeekStart` | module/fatfs/ff.c:4556-4576 | seeking starts at the current cluster or at the first one, in either case at a cluster start |
| `FileAccess.File.CursorDetermined` | module/fatfs/ff.c:4558-4611 | position and chain determine cluster and sector, so it does not matter where a seek started |
| `FileAccess.ClipWrite` | module/fatfs/ff.c:4067-4070 | on FAT12/16/32 the smaller of the request and what is left to 4 GiB - 1; on exFAT nothing is cut |
| `FileAccess.ClipSeek` | module/fatfs/ff.c:4547-4555 | the target is the smaller of offset and 4 GiB - 1 on FAT12/16/32 and the offset on exFAT for a writable file, else the smaller of offset and size |
| `FileRun.Do` | module/fatfs/ff.c:3951-4631 | one call is one step on contents, position, clusters, table and free count; reads and seeks within the file leave table and count alone |
| `FileRun.Run` | module/fatfs/ff.c:3951-4631 | any session of reads, writes and seeks is splice and slice on one byte sequence |
| `FileRun.Growth` | module/fatfs/ff.c:1571-1662 | a file grows by at most the clusters that can be had, and by all of them once none is left |
| `FileRun.WriteExact` | module/fatfs/ff.c:4050-4163 | whatever the free count claims, f_write stores exactly what the FAT limit and the clusters that can be had allow |
| `FileRun.SeekExact` | module/fatfs/ff.c:4545-4631 | f_lseek on a writable file gets to the offset, to 4 GiB - 1 on FAT12/16/32, or as far as the clusters that can be had allow, whichever is least |
| `FileRun.ExactStays` | module/fatfs/ff.c:1653-1657 | an exact or unknown free count stays so over every call |
| `FileRun.SessionExact` | module/fatfs/ff.c:3951-4631 | over every session begun with such a count, every write stores exactly what the FAT limit and the free clusters allow |
| `FileSpace.AsideTrans` | module/fatfs/ff.c:1124-1165 | steps that touch only FAT, bitmap and a file's own clusters compose |
| `TwoFiles.Undisturbed` | module/fatfs/ff.c:4050-4163 | such a step leaves another object with disjoint clusters its links, its marks and its data |
| `TwoFiles.DoBeside` | module/fatfs/ff.c:3951-4631 | a read, write or seek through one handle keeps a second handle valid, with its contents, position and clusters, and the clusters disjoint |
| `TwoFiles.RunBoth` | module/fatfs/ff.c:3951-4631 | in any interleaving of calls on two handles each file changes by its own calls only, and both draw on one table and one count |
| `Reopen.StatSurvives` | module/fatfs/ff.c:2179-2186 | what is in the directory entry: start, size and flags 1 or 3; the status survives for lists that are contiguous or on the FAT |
| `Reopen.Sync` | module/fatfs/ff.c:4173-4215 | f_sync leaves buffer, fragments and window on the disk, contents and position as they were |
| `Reopen.SyncAndReopen` | module/fatfs/ff.c:3885-4215 | after f_sync a new mount and f_open of the same disk and entry show the same contents, clusters and table, on all four kinds |
| `Lfn.PutLfn` | module/fatfs/ff.c:1981-2003 | the entry holds its thirteen units, terminator and filler, and the last flag on the top entry only |
| `Lfn.PickLfn` | module/fatfs/ff.c:1945-1973 | never leaves the buffer, for any entry; an entry of a name puts exactly its part there |
| `Lfn.CmpLfn` | module/fatfs/ff.c:1910-1938 | accepts an entry exactly when the buffer agrees with its part up to case |
| `Lfn.AcceptedIffSame` | module/fatfs/ff.c:1910-1938 | all entries of a name are accepted if and only if the names agree up to case, lengths included |
| `Lfn.SumStep` | module/fatfs/ff.c:2067-2075 | the checksum starts at 0 and takes each byte of the name onto itself, rotated right by one |
| `Lfn.SumChanges` | module/fatfs/ff.c:2067-2075 | changing any one byte of the name changes the checksum |
| `Lfn.RegisterLfn` | module/fatfs/ff.c:2523-2537 | emits every entry of the name in descending order |
| `Lfn.DirRegister` | module/fatfs/ff.c:2522-2555 | the long entries form a set with a short entry that holds the 11 bytes of the short name, its NT flags and zeros, and each carries the checksum of that name |
| `Lfn.SetAmong` | module/fatfs/ff.c:2299-2357 | a written set behind skipped entries, whatever follows it, is what the reader below looks for |
| `Lfn.ReadLfnEntry` | module/fatfs/ff.c:2330-2340 | an expected entry moves the order down by one and fills its part of the buffer |
| `Lfn.DirRead` | module/fatfs/ff.c:2299-2357 | behind any skipped entries, and whatever follows, reading stops at the set's short entry with the same terminated name in the buffer; in any directory it stops at the first entry not to be skipped, and reports a long name only behind a first long entry with the checksum of the short name |
| `Mkfs.Normalised` | module/fatfs/ff.c:5926-5943 | whatever block size, FAT count and root entries are asked for, what f_mkfs goes on with is in range |
| `Mkfs.OptionsKept` | module/fatfs/ff.c:5926-5943 | an option that can be used is used as given, any other is replaced by its default |
| `Mkfs.AuSectors` | module/fatfs/ff.c:5944-5946 | the cluster size option becomes 0 or a power of two of at most 128 sectors |
| `Mkfs.AuKept` | module/fatfs/ff.c:5944-5946 | which cluster size is taken over: 512 bytes to 64 KiB as given, up to 16 MiB cut to that, anything else is none |
| `Mkfs.AutoIsCluster` | module/fatfs/ff.c:6253-6269 | automatic selection gives a power of two of at most 64 sectors, whatever the volume |
| `Mkfs.AutoSizeIs` | module/fatfs/ff.c:6253-6269 | which size for which volume: on FAT32 doubling with the volume from 64 MiB to 2 GiB, on FAT with every fourfold volume from 2 MiB on |
| `Mkfs.DraftIs` | module/fatfs/ff.c:6253-6280 | each round starts with FATs of as many sectors as the entries of all clusters take, and one too many at most by a byte on FAT12 |
| `Mkfs.GapAligns` | module/fatfs/ff.c:6284-6286 | the alignment gap is below one block and reaches a block boundary, also across the 32-bit wrap |
| `Mkfs.AlignedSystem` | module/fatfs/ff.c:6284-6297 | moving the FATs on FAT32, enlarging them on FAT12/16, adds exactly the gap and aligns the data area |
| `Mkfs.RetryProgress` | module/fatfs/ff.c:6303-6331 | every retry fixes the cluster size or turns FAT16 into FAT32 |
| `Mkfs.AcceptNeeds` | module/fatfs/ff.c:6299-6301 | nothing is accepted without room for sixteen clusters behind the layout before alignment, unless the sum wraps 32 bits |
| `Mkfs.Format` | module/fatfs/ff.c:6250-6335 | the retry loop ends with the last attempt the request leads to; whatever it accepts is laid out soundly and mounts as intended, unless the request leaves no room for a cluster |
| `Mkfs.LastTry` | module/fatfs/ff.c:6303-6331 | the last attempt is FAT16 or FAT32, no retry, with the requested cluster size and FAT32 kept |
| `Mkfs.Fat32Accepted` | module/fatfs/ff.c:6250-6335 | FAT32 with automatic cluster size is accepted on every volume of at least 64 MiB, whatever the other options |
| `Mkfs.AnyAccepted` | module/fatfs/ff.c:6250-6335 | with any type allowed every such volume is accepted, as FAT16 below about 2 GiB |
| `Mkfs.Fat16Accepted` | module/fatfs/ff.c:6250-6335 | with FAT32 ruled out every such volume is accepted as FAT16, up to 65525 clusters of 64 KiB |
| `Mkfs.SmallAccepted` | module/fatfs/ff.c:6250-6335 | every volume of 128 sectors to 64 MiB is accepted, without erase blocks and with at most 512 root entries |
| `Mkfs.EmptyIff` | module/fatfs/ff.c:6284-6302 | an accepted layout has no cluster if and only if reserved area, FATs, directory and gap leave less than one |
| `Mkfs.NoWrap` | module/fatfs/ff.c:6299-6302 | a subtraction that wraps is never accepted as FAT12 or FAT16 |
| `Mkfs.AcceptedLaid` | module/fatfs/ff.c:6250-6335 | an accepted layout fits the volume, its counts match its kind, its FAT holds every entry, its fields fit the boot record |
| `Mkfs.RecordFaithful` | module/fatfs/ff.c:6342-6386 | the boot record is recognised and loses nothing to field widths |
| `Mkfs.MountAgrees` | module/fatfs/ff.c:3553-3608 | mounting computes the same kind, cluster count, FAT base, root and data base, or refuses a volume without clusters |
| `Mkfs.RecognisedAgrees` | module/fatfs/ff.c:3333-3357 | recognising a record and mounting it agree: only a signed FAT32 record mounts as FAT32; any other that is recognised has fields a mount accepts, and every FAT12/16 record that mounts is recognised if its total is filled in |
| `Mkfs.MountNeeds` | module/fatfs/ff.c:3553-3608 | what a mount demands of the record beyond sizes, and where it finds the root directory |
| `Mkfs.MountedFits` | module/fatfs/ff.c:3553-3612 | of any record a mount accepts, every FAT entry lies in the first FAT and every cluster on the volume |
| `Mkfs.MountedSound` | module/fatfs/ff.c:3553-3602 | its FATs and data area follow one another if and only if reserved area, FATs and directory do not wrap 32 bits |
| `Mkfs.WrappedFats` | module/fatfs/ff.c:3553-3602 | a record that is mounted with the data area inside the first FAT |
| `Mkfs.FormatThenMount` | module/fatfs/ff.c:6250-6386 | for every accepted attempt, the record is recognised and mounting agrees if and only if the request leaves room for a cluster |
| `Mkfs.NoClusterLeft` | module/fatfs/ff.c:6299-6335 | a format that is accepted with no cluster and cannot be mounted |
| `Mkfs.FormattedGeometry` | module/fatfs/ff.c:3589-3608 | every FAT entry of a formatted volume lies in the FAT and every cluster on the disk |
| `Mkfs.FreshEntry` | module/fatfs/ff.c:6403-6423 | the written FAT shows every cluster free but the FAT32 root |
| `Mkfs.FreshReserved` | module/fatfs/ff.c:6403-6423 | the two reserved entries hold the media byte under ones and an end mark |
| `Mkfs.FreshInv` | module/fatfs/ff.c:6390-6423 | a fresh volume, with the stored free count, is a valid start for every run of create_chain and remove_chain |
| `FreshVolume.WriteFats` | module/fatfs/ff.c:6403-6423 | every FAT sector is the fresh one, whatever the buffer size, both FATs agree, nothing else changes |
| `FreshVolume.FsInfoLoads` | module/fatfs/ff.c:6391-6400 | free count and hint written to FSINFO are the ones a mount loads |
| `FreshVolume.MountFresh` | module/fatfs/ff.c:3589-3630 | the mounted fresh volume meets the invariant of all runs and its FATs agree |
| `FreshVolume.FormatAndMount` | module/fatfs/ff.c:5926-6423 | with any options, formatting and mounting give a volume of the intended layout that is a valid start for every run, exactly when the format is accepted and leaves room for a cluster |
| `NvmeRing.InitialInv` | module/nvme/nvme.c:247-280 | a freshly initialised pair satisfies the ring invariant |
| `NvmeRing.SqFullMeaning` | module/nvme/nvme.c:312-317 | the full test holds exactly when depth - 1 commands are not known to be fetched |
| `NvmeRing.PhaseTest` | module/nvme/nvme.c:393-399 | the phase test succeeds exactly when a posted completion is unconsumed, and reads the oldest |
| `NvmeRing.SubmitKeepsInv` | module/nvme/nvme.c:309-329 | a submission keeps the ring invariant |
| `NvmeRing.PostKeepsInv` | module/nvme/nvme.c:382-430 | a posted completion keeps the ring invariant, across any number of wraps |
| `NvmeRing.TakeKeepsInv` | module/nvme/nvme.c:393-423 | consuming a completion keeps the ring invariant |
| `NvmeRing.RunKeepsInv` | module/nvme/nvme.c:309-430 | the invariant holds in every state of every interleaving |
| `NvmeRing.RingSafety` | module/nvme/nvme.c:309-430 | the controller reads exactly the accepted commands in order; the driver consumes exactly the posted completions in order |
| `NvmeRing.NoOverwrite` | module/nvme/nvme.c:309-329 | a submission leaves every command that is still to be fetched in its slot |
| `NvmeCid.Search` | module/nvme/nvme.c:435-440 | the scan gives a free slot or none |
| `NvmeCid.SearchComplete` | module/nvme/nvme.c:432-457 | the scan fails exactly when every slot is held, from any start |
| `NvmeCid.SearchNearest` | module/nvme/nvme.c:435-440 | the slot found is the nearest free one upwards from the start, with wrap-around |
| `NvmeCid.RoomToAnswer` | module/nvme/nvme.c:382-430 | while a fetched command waits, fewer completions than commands were handled |
| `NvmeCid.AllocKeeps` | module/nvme/nvme.c:432-457 | taking an identifier keeps the system invariant |
| `NvmeCid.ReleaseKeeps` | module/nvme/nvme.c:459-468 | giving one back after a failed submit or PRP setup keeps it |
| `NvmeCid.SendKeeps` | module/nvme/nvme.c:780-809 | submitting hands the slot over to the command on the queue |
| `NvmeCid.ConsumeKeeps` | module/nvme/nvme.c:390-423 | a consumed completion is in exactly one thread's hands |
| `NvmeCid.PendingHeld` | module/nvme/nvme.c:340-349 | the identifier in a consumed completion belongs to a live command whose slot carries its own callback, and the status in it is the field of the code posted for that command |
| `NvmeCid.SuccessIff` | module/nvme/nvme.c:401-404 | of a status field put together from code, type and further bits, the driver reads success exactly when code and type are 0 |
| `NvmeCid.CompleteKeeps` | module/nvme/nvme.c:340-359 | completing runs one callback and frees one slot, keeping the invariant |
| `NvmeCid.MoveKeeps` | module/nvme/nvme.c:340-513 | every step of every thread and of the controller keeps the invariant |
| `NvmeCid.HostRunKeeps` | module/nvme/nvme.c:340-513 | the invariant holds in every state of every run, on any number of queues |
| `NvmeCid.DistinctCids` | module/nvme/nvme.c:432-457 | commands in flight on all queues have different identifiers, each holding its slot |
| `NvmeCid.CallbackOnce` | module/nvme/nvme.c:340-359 | no accepted command's callback runs twice |
| `NvmeCid.SeenReported` | module/nvme/nvme.c:382-430 | every consumed completion is with a thread or was reported |
| `NvmeCid.CidSafety` | module/nvme/nvme.c:340-513 | all of this over every run; each callback reports the completion of its own command, its flag being true if and only if the code and type posted for it are both 0 |
| `NvmeDriver.QueuePair.constructor` | module/nvme/nvme.c:247-280 | the initialised memory shows the initial ring |
| `NvmeDriver.QueuePair.SubmitCmd` | module/nvme/nvme.c:309-329 | refuses exactly when the known part is full, otherwise appends to what will be fetched |
| `NvmeDriver.QueuePair.TakeNext` | module/nvme/nvme.c:390-423 | finds a completion exactly when one is unconsumed and returns the oldest |
| `NvmeDriver.Requests.AllocCid` | module/nvme/nvme.c:432-457 | the nearest free identifier upwards from pos, 0xFFFF exactly when all are held; pos moves behind it |
| `NvmeDriver.Requests.ReleaseCid` | module/nvme/nvme.c:459-468 | empties one slot, ignoring identifiers out of range |
| `NvmeDriver.Requests.CompleteRequest` | module/nvme/nvme.c:340-359 | empties the slot and calls back once if it was held |
| `NvmeDriver.ProcessCompletions` | module/nvme/nvme.c:382-430 | with the controller quiet, consumes every posted completion in order and runs one callback for each, whose flag is true if and only if code and type posted with it are both 0 |
| `NvmePrp.MaxTransfer` | module/nvme/nvme.c:946-959 | the limit, its product cut to 64 bits, is at most 512 pages |
| `NvmePrp.LimitIs` | module/nvme/nvme.c:946-959 | for exponents below 52 the limit is 2 to the exponent pages of 4 KiB, or 2 MiB if that is less or the exponent is 0 |
| `NvmePrp.LimitPositive` | module/nvme/nvme.c:946-959 | the limit is positive if and only if the exponent is below 52; from there on it is 0 |
| `NvmePrp.LimitWraps` | module/nvme/nvme.c:950 | exponent 52 gives 0, which stands for no limit |
| `NvmePrp.UnlimitedStillFits` | module/nvme/nvme.c:664-706 | with the limit at 0 a described buffer still spans at most 513 pages |
| `NvmePrp.PagesFit` | module/nvme/nvme.c:626-629 | a transfer within the limit spans at most 513 pages |
| `NvmePrp.MappedIff` | module/nvme/nvme.c:653-733 | the pages demanded are those the bytes of the buffer lie in, and no others |
| `NvmePrp.WalkIsTranslation` | module/nvme/nvme.c:653-733 | the controller's walk over a complete descriptor meets the bytes the page tables give |
| `NvmePrp.FillList` | module/nvme/nvme.c:714-729 | the list holds the translation of every further page, or one of them is unmapped |
| `NvmePrp.SetupPrp` | module/nvme/nvme.c:653-733 | succeeds exactly for a buffer of permitted size whose every byte is mapped, on at most 513 pages, with a list page if there are more than two; then every byte is described rightly |
| `BlockDevice.Device.ReadBlocks` | src/driver/blk_device.c:549-572 | a device read is asked for one block, or for no more bytes than max_size |
| `BlockDevice.Device.WriteBlocks` | src/driver/blk_device.c:680-780 | a device write is asked for one block, or for no more bytes than max_size |
| `BlockDevice.ReadPart` | src/driver/blk_device.c:574-595 | part of a block through a bounce buffer |
| `BlockDevice.RoundsMore` | src/driver/blk_device.c:558-572 | one more call extends the list of largest possible calls, whatever is left |
| `BlockDevice.ReadRun` | src/driver/blk_device.c:597-641 | the middle loop transfers whole blocks, directly or through a bounce buffer, in calls that are all of the largest permitted size but the last |
| `BlockDevice.Read` | src/driver/blk_device.c:534-663 | success returns exactly the bytes of the range, changes no other byte of the buffer and takes exactly the planned device calls: partial first block, largest possible ones, partial last block; without faults it succeeds within the device |
| `BlockDevice.Patched` | src/driver/blk_device.c:705-734 | read-modify-write of a block patches exactly the bytes |
| `BlockDevice.WritePart` | src/driver/blk_device.c:705-734 | head and tail writes store exactly their bytes; a failed one touches nothing outside its block |
| `BlockDevice.WriteRun` | src/driver/blk_device.c:736-779 | the middle loop stores whole blocks in such calls; on failure a prefix, with nothing known of the blocks of the failed device call only |
| `BlockDevice.Write` | src/driver/blk_device.c:665-809 | success changes exactly the bytes of the range in the planned device calls; a failed call has stored a prefix of them, nothing is known of at most max_sec blocks behind it, and nothing else has changed |
| `BlockDevice.ReadBack` | src/driver/blk_device.c:534-809 | what a write stored a read gives back |
| `Pipe.CloseLife` | src/fs/vfs.c:641-667 | closing a descriptor keeps the counter invariant, with the frees it decides |
| `Pipe.LeaveLife` | src/fs/pipefs.c:50-81 | leaving a transfer keeps it, with the frees it decides |
| `Pipe.DupLife` | src/fs/fds.c:91-110 | duplicating a descriptor keeps it |
| `Pipe.EnterLife` | src/fs/pipefs.c:23-33 | entering a transfer keeps it |
| `Pipe.Accepts` | src/fs/pipefs.c:171-173 | a short write waits unless all of it fits; any other moves the smaller of the request and the room left of 64 KiB |
| `Pipe.ReadKeepsStream` | src/fs/pipefs.c:109-126 | a read takes the oldest bytes and keeps conservation |
| `Pipe.WriteKeepsStream` | src/fs/pipefs.c:158-184 | a write appends the next bytes of its data and keeps conservation |
| `Pipe.StepKeepsInv` | src/fs/pipefs.c:23-322 | every step keeps counters, census and stream |
| `Pipe.ReclaimedOnce` | src/fs/pipefs.c:245-322 | over every run counts equal refcounts and open descriptors; each end and the buffer are freed once, exactly when nobody is left |
| `Pipe.StepsTouchLive` | src/fs/pipefs.c:50-322 | no step works on something already freed |
| `Pipe.BytesConserved` | src/fs/pipefs.c:109-229 | over every run accepted bytes are read bytes followed by the buffer; each call's bytes are an in-order prefix of its data; a short write is one contiguous piece |
| `Pipe.ReadZero` | src/fs/pipefs.c:128-132 | a read returns nothing exactly when the buffer is empty and no write descriptor is open |
| `Pipe.EofFinal` | src/fs/pipefs.c:128-132 | with no write descriptor, and no unfinished writer inside or no read descriptor open, nothing is accepted ever after |
| `Pipe.EofNotFinal` | src/fs/pipefs.c:158-184 | with an unfinished writer inside, bytes are accepted after end of file was reported |
| `Pipe.EofExact` | src/fs/pipefs.c:128-184 | after end of file some continuation accepts bytes if and only if an unfinished writer is inside and a read descriptor is open |
| `Pipe.EofWitness` | src/fs/pipefs.c:128-184 | a run from a fresh pipe in which a byte arrives after end of file was reported |
| `PipeObject.PipeFile.TakeBytes` | src/fs/pipefs.c:110-118 | the bytes taken and the bytes left make up the old contents, in order |
| `PipeObject.PipeFile.ReadOnce` | src/fs/pipefs.c:109-138 | the oldest bytes, as many as asked for and there, end of file exactly when empty with no write descriptor, otherwise wait; it is the read step of the system |
| `PipeObject.PipeFile.WriteOnce` | src/fs/pipefs.c:158-184 | broken pipe, wait, or as many bytes appended as the rule allows; it is the write step of the system |
| `PipeObject.PipeFile.WriteNonblocking` | src/fs/pipefs.c:199-229 | a short write goes in whole or not at all, a long one as far as there is room |
| `PipeObject.PipeFile.Enter` | src/fs/pipefs.c:23-33 | the fields follow the enter transition |
| `PipeObject.PipeFile.Leave` | src/fs/pipefs.c:50-81 | the fields follow the leave transition |
| `PipeObject.PipeFile.ClosePipefs` | src/fs/pipefs.c:245-322 | the fields follow the pipefs_close transition |
| `PipeObject.PipeFile.Close` | src/fs/vfs.c:641-667 | the fields follow the vfs_close transition |
| `PipeObject.PipeFile.CopyTable` | src/fs/fds.c:123-150 | the copy has the same entries and each end gains one reference per entry naming it |
| `VfsPath.PathTok` | src/fs/vfs.c:33-68 | the next component is cut out and the remaining components are unchanged |
| `VfsPath.TokensWhole` | src/fs/vfs.c:33-68 | a string without a slash is one component, unless it is empty |
| `VfsPath.TokensSplit` | src/fs/vfs.c:33-68 | a slash anywhere separates the components before it from those behind it; together with TokensWhole this determines the splitting |
| `VfsPath.TokensOfJoin` | src/fs/vfs.c:33-68 | splitting a join of plain names gives the names |
| `VfsPath.ChildFound` | src/fs/vfs.c:194-196 | looking a node's name up among its siblings finds the node |
| `VfsPath.WalkNames` | src/fs/vfs.c:489-544 | walking a node's names from the root reaches it |
| `VfsPath.Open` | src/fs/vfs.c:489-544 | vfs_open computes the walk over the components of the path |
| `VfsPath.DotStays` | src/fs/vfs.c:503-508 | "." anywhere in a path does not change what it opens |
| `VfsPath.DotDotUndoes` | src/fs/vfs.c:509-515 | ".." behind a component that can be opened takes that component back |
| `VfsPath.DotDotAtRoot` | src/fs/vfs.c:509-515 | ".." at the root stays there |
| `VfsPath.FullPath` | src/fs/vfs.c:1011-1039 | the printer gives the joined names from the root |
| `VfsPath.OpenFullPath` | src/fs/vfs.c:489-544 | opening the printed path of a node gives the node |

## Left out

- FatChain.CreateChain: where a disk error is reported the state is not described further than that only the FATs were touched.
- Exfat.CreateChain: requires that no unwritten last fragment hides the successor; NextOfIsRight shows that get_fat is wrong exactly there, and the file layer never calls it there.
- Exfat.RemoveChain: covers objects whose last fragment is on the FAT (n_frag is 0), as those of its callers are: f_open and f_unlink load the object from its directory entry, f_truncate cuts behind a seek that wrote the fragment out.
- FileAccess.File.Read: disk errors and their abort paths are not modelled at the file layer; they are modelled below it.
- FileAccess.File.Seek: what lies between the old end and a new position past it is unspecified in FatFs and stays so here.
- FastSeek.Seek: takes a table that encodes the file's present clusters; a stale one is not modelled.
- FastSeek.FollowByMap: in fast seek mode f_read and f_write are modelled at their cluster boundaries, where alone they differ, and not as whole loops.
- Reopen.Sync: the directory entry is its values (start, size, flags); where it is stored is not modelled.
- FreshVolume.FormatAndMount: the boot record is passed as a sector; its fields are in Mkfs.Record.
- Bitmap.FindBitmap: for one cluster, the only size used; moves the window per bit where the source moves it per sector.
- Lfn.DirRead: runs over a list of entries; directory clusters, deletion and the 8.3 name generation are not modelled.
- Mkfs.Format: exFAT volumes, partition tables, and the clearing of the root directory are not modelled; the boot record is its fields, cut to their widths.
- NvmePrp.MaxTransfer: takes exponents below 64; from 64 on the source's shift is undefined in C.
- NvmeCid.CompleteKeeps: every command has a callback; waiting with a timeout changes no state, so it is no step of its own.
- NvmeDriver.ProcessCompletions: the controller is quiet while the loop runs; its interleaving with the loop's rounds is in NvmeRing and NvmeCid.
- NvmePrp.SetupPrp: page translation is a parameter giving page-aligned frames; address wrap at 2^64 is not modelled.
- BlockDevice.Read: stream devices pass through and are not modelled; a failed read leaves the buffer unspecified; the aligned fast path is the middle loop with nothing before and after it.
- Pipe.ReclaimedOnce: one locked section with the frees it decides is one step; races between unlocked reads are not modelled. Poll, node sizes and error codes are not modelled.
- PipeObject.PipeFile.WriteNonblocking: the blocking loop is the same steps interleaved with others, in Pipe.
- VfsPath.Open: symbolic links, mount callbacks and reference counts are not modelled.
- VfsPath.FullPath: the 256-byte result buffer is not modelled; names are plain components.
- FSINFO updating by sync_fs, f_truncate, directories, volume labels and code pages of FatFs are not modelled.
- Growing and searching descriptor tables (find_free_fd, expand_fds_table, add_fd) would only add easy members.
- Controller reset, identification, namespaces and DMA allocation of the NVMe driver are not modelled.
- overlayfs, tmpfs, squashfs, iso9660, device and network drivers are not modelled.
