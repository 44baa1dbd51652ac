# FatFs, finsh and device-driver models in Dafny

A verification project for the algorithmic core of the STM32 / RT-Thread firmware in
`DS950_APP_2017-03-08`. It models code that hides its correctness in whole-run invariants and proves what that
code is for:

- **FatFs R0.08b** (`dfs/ff.c`): packed 12/16/28-bit FAT entries behind a one-sector write-back window, the cluster
  allocator as a graph, file reads, writes and seeks over a dirty sector buffer, the seek accelerator, long file
  names, formatting and mounting. The sub-type thresholds are the code's 4086 and 65526.
- **finsh** (`finsh/`): the shell's compiler from first-child / next-sibling node tables to byte code, the stack machine
  that runs it, and the first-fit heap with its collector.
- **Device drivers** (`DeviceDrivers/`): the mirror-bit ring buffer and the blocking pipe on top of it.
- **Path normalisation** (`dfs/dfs.c`): the in-place rewrite of a path.

`dafny verify dfyconfig.toml` checks everything.

| module | what it holds |
|---|---|
| `Words`, `Wrappers` | bytes, little-endian words, division facts; optional values |
| `FatVolume`, `FatLayout` | geometry, the window, reading and storing FAT entries; where entries and file bytes lie |
| `FatChain`, `FatAlloc`, `FatFree`, `FatAllocRuns` | chains as a graph; create_chain, remove_chain, f_getfree; whole runs of them |
| `FatData`, `FatFile`, `FatLinkMap` | file bytes over clusters; f_read, f_write, f_lseek; the link map |
| `FatIsolation`, `FatRuns` | what operations on a file leave alone; whole runs of them |
| `FatFormat`, `FatMount`, `FatMkfs`, `FatRecord` | layout and boot record; chk_mounted; f_mkfs and what a mount finds; the same in bytes and numbers |
| `Lfn` | long-name entries |
| `FinshArith`, `FinshVm`, `FinshCompiler`, `FinshExpr`, `FinshCorrect` | 32-bit arithmetic; machine; compiler; source language; correctness |
| `FinshHeap` | the heap |
| `Ring`, `Pipe` | ring buffer; pipe protocol |
| `Path` | path normalisation |

## How to read it

- A class stands for an object the source updates in place (`Volume`, `File`, `Heap`, `Machine`, `Compiler`,
  `RingBuffer`, `PipeDevice`, `Buffer`). Its methods say how the abstract value changes; lemmas say what that value means.
- `Volume.image` is the disk with the dirty window laid over it, `File.content` every byte of the file's clusters with the
  dirty sector buffer laid over them. Both are specification only; each method ties them to the real fields.
- Definitions that code and specification share are tied down from outside: `FatLayout` and `FatRecord` give the on-disk
  formats and thresholds in bytes and numbers, `FinshArith` the laws of the machine's arithmetic, and lemmas named Small or
  Answers concrete results.
- Properties that turned out false of the code are stated with their exact condition and a concrete input:
  `FatFree.ScannedIsTrue` with `StoppedScanMiscounts` (f_getfree stores a partial FAT12 count after an error),
  `FatMount.FormatMounts` and `FatMkfs.BootMounts` with `FatMkfs.AlignmentTakesLastCluster` (f_mkfs succeeds on a drive that
  will not mount), `FatLinkMap.CreateLinkMap` and `OwnEndMarkIsSafe` with `EndMarkThatLooksLikeALink` (an end mark that is the
  next cluster number makes it fail), `Lfn.ReadableLength` with `LongestNamesAreLost` (names of 254 and 255 characters are
  written but not read back), `FinshCorrect.HeightExact` and `RightExactly` with `CallFirstIsWrong` and `UnaryOverCall` (a call
  as first operand leaves the operator out), `FinshCorrect.LineFits` with `NodesDoNotBoundText` (16 nodes can overrun the text
  segment), `Ring.RingBuffer.PutForce` with `OverrunLosesLap` (a partly full ring loses a lap), `Pipe.ReadKeeps` and
  `WriteKeeps` with `LongReadSuspends` and `LongWriteSuspends` (sizes that are 0 modulo 2^16), `Path.NormalForm` with
  `RootLost` ("..", once above the root, loses it).

Modelling decisions: the disk is a sequence of sectors whose reads and writes succeed; a write past its end is
f_mkfs's disk error. Masks of powers of two, such as `x & (csize - 1)`, are written as `%` and `/`, and `& ~(n - 1)` as
rounding up, with powers of two established or required. 32-bit wrap-around is written out where it can occur. A byte
code fault (`None`, `Fault`) stands for every point where the C code would leave an array, divide by zero, divide the least
long by -1 or shift by 32 or more; signed overflow of `+`, `-` and `*` and left shifts of negative values, which C leaves
undefined, are given the wrapped 32-bit value the target computes. Memory of
the shell is a map of 32-bit cells, cells never stored to being 0. A system call is an unknown function of its address,
arguments and memory. `ff_wtoupper` is an unknown function that maps only 0 to 0. `StrayRead` stands for the read in front
of the buffer that dfs_normalize_path makes when nothing is left of the path. Heap addresses are offsets, NULL is -1.

## Model

| member | source | states |
|---|---|---|
| `FatVolume.ClusterSectorRange` | DS950_APP_2017-03-08/dfs/ff.c:798-806 | clust2sect gives a cluster's first sector, and 0 exactly for numbers that are not clusters, the 32-bit wrap of clst - 2 included |
| `FatVolume.Volume.Mount` | DS950_APP_2017-03-08/dfs/ff.c:2130-2159 | what a mount leaves: an empty clean window that no reader can tell from the disk, and the allocation hints |
| `FatVolume.Volume.WriteBackWindow` | DS950_APP_2017-03-08/dfs/ff.c:722-739 | after write-back the disk equals what every reader of the volume already saw, in all FAT copies |
| `FatVolume.Volume.MoveWindow` | DS950_APP_2017-03-08/dfs/ff.c:716-748 | the window shows the sector as the volume's readers see it and nothing readable changes, dirty window or not; sector 0 only flushes |
| `FatVolume.Volume.GetFat` | DS950_APP_2017-03-08/dfs/ff.c:816-849 | the entry as packed in the FAT (12 bits straddling sectors, 16, 28 bits; the packing in bytes is FatLayout's) whatever the window held, and 1 for numbers that are not clusters |
| `FatLayout.FatByteIs` | DS950_APP_2017-03-08/dfs/ff.c:816-849 | byte i of the first FAT copy is byte i % ss of its sector i / ss |
| `FatLayout.Layout12` | DS950_APP_2017-03-08/dfs/ff.c:826-835 | for even c with bytes b0, b1, b2 from 3 * c / 2 on: entry c + 0x1000 * entry c + 1 is b0 + 0x100 * b1 + 0x1_0000 * b2; a last even entry is b0 + 0x100 * (b1 % 16) |
| `FatLayout.Layout16` | DS950_APP_2017-03-08/dfs/ff.c:837-840 | a 16-bit entry is the two bytes at 2 * c, low byte first |
| `FatLayout.Layout32` | DS950_APP_2017-03-08/dfs/ff.c:842-845 | a 32-bit entry is the four bytes at 4 * c, low byte first, without the upper half of the last, which is the reserved part |
| `FatLayout.EndMarks` | DS950_APP_2017-03-08/dfs/ff.c:1009 | the end mark is stored as 0xFFF, 0xFFFF or 0x0FFFFFFF |
| `FatVolume.Volume.PutByte12` | DS950_APP_2017-03-08/dfs/ff.c:875-887 | one half of a 12-bit store changes one FAT byte, keeping the neighbour's nibble |
| `FatVolume.Store12` | DS950_APP_2017-03-08/dfs/ff.c:875-887 | the two byte stores of a FAT12 entry change that entry to the low 12 bits and no other entry, although entries share bytes and sectors |
| `FatVolume.Store16` | DS950_APP_2017-03-08/dfs/ff.c:889-894 | a FAT16 store changes exactly one entry |
| `FatVolume.Store32` | DS950_APP_2017-03-08/dfs/ff.c:896-902 | a FAT32 store changes the low 28 bits of exactly one entry; every entry keeps its four reserved bits if the top byte stored keeps them |
| `FatVolume.Volume.PutFat` | DS950_APP_2017-03-08/dfs/ff.c:859-911 | the table afterwards, read by the layout of FatLayout, is the old one with entry clst set to the value cut to 12, 16 or 28 bits; nothing outside the FAT changes; a 28-bit value leaves all reserved bits of a FAT32 table; copies that agreed still agree; other numbers are refused without effect |
| `FatVolume.Volume.CleanCopiesAgree` | DS950_APP_2017-03-08/dfs/ff.c:723-739 | with a clean window, copies that agree for the readers agree on the disk |
| `FatVolume.TableFrame` | DS950_APP_2017-03-08/dfs/ff.c:816-849 | the table and the agreement of its copies depend on the sectors below the data area only |
| `FatVolume.Volume.DiskWrite` | DS950_APP_2017-03-08/dfs/ff.c:2535-2536 | a multi-sector transfer past the window replaces exactly those sectors and leaves the table alone |
| `FatVolume.Volume.DiskRead` | DS950_APP_2017-03-08/dfs/ff.c:2421-2422 | a multi-sector transfer past the window returns what the volume's readers see |
| `FatChain.ChainUnique` | DS950_APP_2017-03-08/dfs/ff.c:922-1024 | from a cluster there is only one chain |
| `FatChain.ChainDistinct` | DS950_APP_2017-03-08/dfs/ff.c:922-1024 | a chain that ends never repeats a cluster |
| `FatChain.MarkFree` | DS950_APP_2017-03-08/dfs/ff.c:1009-1010 | giving a free cluster an end mark keeps the graph well formed |
| `FatChain.LinkEnd` | DS950_APP_2017-03-08/dfs/ff.c:1010-1011 | linking a chain's end to a fresh one-cluster chain keeps the graph well formed |
| `FatChain.FreeHead` | DS950_APP_2017-03-08/dfs/ff.c:943-944 | clearing a head's entry keeps the graph well formed and makes its successor a head |
| `FatChain.ScanComplete` | DS950_APP_2017-03-08/dfs/ff.c:997-1007 | on a table without entry 1 the circular scan answers 0 exactly when no cluster is free, otherwise a free cluster, from any start |
| `FatChain.RemoveFreesChain` | DS950_APP_2017-03-08/dfs/ff.c:922-964 | on a head, remove_chain frees exactly that chain, succeeds, and leaves a well-formed graph |
| `FatChain.RemoveKeepsOthers` | DS950_APP_2017-03-08/dfs/ff.c:922-964 | every other chain survives that removal |
| `FatAlloc.Scan` | DS950_APP_2017-03-08/dfs/ff.c:996-1007 | the loop finds the first free cluster after the hint in circular order, or reports the table's first bad entry, or 0 after a full round |
| `FatAlloc.SelectCluster` | DS950_APP_2017-03-08/dfs/ff.c:984-1007 | follow an existing link, refuse a broken one, or pick the scan's answer |
| `FatAlloc.TakeCluster` | DS950_APP_2017-03-08/dfs/ff.c:1009-1011 | the two put_fat calls and the table after each |
| `FatAlloc.CreateChain` | DS950_APP_2017-03-08/dfs/ff.c:975-1024 | answer, new table and new hint for every table, hint and start; every table it passes through is well formed if the first was; a known free count falls by one exactly when a cluster was taken and is flagged for FSInfo, an unknown one stays unknown, a truthful one stays truthful; only the FAT changes and its copies keep agreeing |
| `FatAlloc.CreatedPlace` | DS950_APP_2017-03-08/dfs/ff.c:984-1007 | which cluster: the first free one after the chain's last cluster, or for a new chain after last_clust if 2 <= last_clust < n and after 1 otherwise, wrapping round to 2; the very next one if that is free |
| `FatAlloc.CreateGraph` | DS950_APP_2017-03-08/dfs/ff.c:1009-1011 | well-formedness after each single put_fat of create_chain |
| `FatAlloc.CreateChains` | DS950_APP_2017-03-08/dfs/ff.c:975-1024 | every chain is kept; the one that ended at clst has grown by exactly the new cluster, which no chain contained |
| `FatAlloc.CreateCounts` | DS950_APP_2017-03-08/dfs/ff.c:1013-1018 | taking a cluster and decrementing the count keep it truthful, the unknown marker included |
| `FatAlloc.FreeCluster` | DS950_APP_2017-03-08/dfs/ff.c:943-948 | one round clears one entry, adds one free cluster, counts it in a known count and flags FSInfo |
| `FatAlloc.RemoveChain` | DS950_APP_2017-03-08/dfs/ff.c:922-964 | terminates on every table, cyclic ones included, with exactly the walk's effect and error; a known count grows by the clusters freed, one per table passed through, an unknown one stays unknown; on a head of a well-formed graph every intermediate table is well formed |
| `FatFree.CountByEntry` | DS950_APP_2017-03-08/dfs/ff.c:3116-3123 | the FAT12 scan counts the free clusters before the first entry 1 |
| `FatFree.CountBySector` | DS950_APP_2017-03-08/dfs/ff.c:3124-3143 | the raw sector scan counts the zero entries of the whole table, reserved ones included |
| `FatFree.ScannedIsTrue` | DS950_APP_2017-03-08/dfs/ff.c:3110-3146 | the scanned count is the number of free clusters if and only if: FAT12, nothing free lies after the first entry 1; FAT16/32, both reserved entries are nonzero |
| `FatFree.StoppedScanMiscounts` | DS950_APP_2017-03-08/dfs/ff.c:3116-3146 | a FAT12 table on which the count stored after an error is not the true one |
| `FatFree.GetFree` | DS950_APP_2017-03-08/dfs/ff.c:3094-3150 | a plausible stored count is answered unchanged, otherwise the scan's; the error is returned exactly when a FAT12 scan meets an entry 1; on a well-formed table with nonzero reserved entries and a truthful count the answer is the number of free clusters |
| `FatAllocRuns.PerformAlloc` | DS950_APP_2017-03-08/dfs/ff.c:922-1024 | each of the three calls, on any argument, is one step of the table and keeps a truthful count and agreeing copies, given reserved entries in use and, on FAT12 only, no entry 1 |
| `FatAllocRuns.RunAlloc` | DS950_APP_2017-03-08/dfs/ff.c:922-1024 | every run of create_chain, remove_chain and f_getfree in any order: each free count answered is the number of zero entries at that moment, and the stored one stays truthful |
| `FatAllocRuns.RunKeepsGraph` | DS950_APP_2017-03-08/dfs/ff.c:922-1024 | in every such run that removes only heads the graph is well formed throughout |
| `FatAllocRuns.RemoveClears` | DS950_APP_2017-03-08/dfs/ff.c:938-948 | on any table remove_chain only clears entries of clusters |
| `FatData.PutRun` | DS950_APP_2017-03-08/dfs/ff.c:2531-2536 | writing whole sectors of a cluster run overwrites exactly those bytes of the file |
| `FatData.GetRun` | DS950_APP_2017-03-08/dfs/ff.c:2417-2422 | reading whole sectors of a cluster run gives exactly those bytes of the file |
| `FatData.AppendCluster` | DS950_APP_2017-03-08/dfs/ff.c:2500-2517 | a file whose chain grows keeps its bytes and gains one cluster of them |
| `FatFile.File.constructor` | DS950_APP_2017-03-08/dfs/ff.c:2349-2359 | a file as opened: pointer 0, nothing buffered, consistent with its chain |
| `FatFile.File.FlushBuf` | DS950_APP_2017-03-08/dfs/ff.c:2522-2526 | writing back the dirty buffer changes no byte of the file as its readers see it |
| `FatFile.File.DirectWrite` | DS950_APP_2017-03-08/dfs/ff.c:2531-2549 | a direct transfer keeps the buffer and the file in step even when the buffered sector lies in the written run |
| `FatFile.File.DirectRead` | DS950_APP_2017-03-08/dfs/ff.c:2417-2433 | a direct transfer returns the file's bytes even when a dirty buffered sector lies in the read run |
| `FatFile.File.Stretch` | DS950_APP_2017-03-08/dfs/ff.c:2500-2517 | create_chain on the file's chain goes to the next cluster, appends the one create_chain takes, or reports a full volume, and touches nothing else of the volume |
| `FatFile.File.Write` | DS950_APP_2017-03-08/dfs/ff.c:2472-2582 | the contents become old[..p] + W[..n] + old[p+n..] and the pointer moves by n; n is short only with no free cluster left and every allocated byte written, or with n = 0 at the 4 GB guard; the chain grows to the cluster of the last byte written and no further, not at all if n = 0; the invariant that clust holds byte fptr - 1 is kept, and Kept says that nothing but the file changed and every cluster gained is one free cluster less |
| `FatFile.SpliceAt` | DS950_APP_2017-03-08/dfs/ff.c:2531-2566 | those contents byte by byte |
| `FatLayout.ByteOnDisk` | DS950_APP_2017-03-08/dfs/ff.c:2494-2518 | byte p of a file lies at offset p % ss of sector database + (chain[p / ss / csize] - 2) * csize + p / ss % csize of the disk, the buffer laid over it |
| `FatFile.File.Read` | DS950_APP_2017-03-08/dfs/ff.c:2371-2462 | exactly the requested slice, clipped to the size, dirty overlay and direct transfers included; contents and everything else unchanged |
| `FatFile.File.Seek` | DS950_APP_2017-03-08/dfs/ff.c:2802-2951 | targets inside the file change nothing but pointer, cluster and buffer, in the one way Sought allows; beyond it a writable file is stretched to the target or to the last byte a full volume allows, by exactly the clusters the pointer needs, others are clipped; nothing but the file changes |
| `FatFile.File.FastSeek` | DS950_APP_2017-03-08/dfs/ff.c:2844-2867 | with a link map, the same outcome as the normal seek to the clipped target |
| `FatFile.SoughtUnique` | DS950_APP_2017-03-08/dfs/ff.c:2844-2941 | that outcome is unique: both branches end with the same pointer, cluster, sector, dirty flag and buffer |
| `FatLinkMap.RunLookupIsChain` | DS950_APP_2017-03-08/dfs/ff.c:1035-1052 | looking position k up in a chain's maximal runs gives cluster k of the chain, or 0 past its end |
| `FatLinkMap.ClmtClust` | DS950_APP_2017-03-08/dfs/ff.c:1035-1052 | the table alone gives the cluster reached by ofs / cluster size links, or 0 past the end |
| `FatLinkMap.NextRun` | DS950_APP_2017-03-08/dfs/ff.c:2826-2833 | the inner loop measures exactly the front run; it fails exactly on a last run whose end mark is the next number |
| `FatLinkMap.CreateLinkMap` | DS950_APP_2017-03-08/dfs/ff.c:2819-2842 | needs 2 + 2 * runs items, never writes at or past the given length, yields the chain's link map exactly if it fits, and fails exactly if the last entry equals the last cluster + 1 |
| `FatLinkMap.SmallMap` | DS950_APP_2017-03-08/dfs/ff.c:2819-2842 | a chain of three fragments and its eight items: length before top, the number of items in front, 0 behind |
| `FatLinkMap.OwnEndMarkIsSafe` | DS950_APP_2017-03-08/dfs/ff.c:2826-2833 | for chains ended by create_chain's own mark that happens exactly if a FAT32 chain ends in the cluster before the mark, so never on a volume with fewer entries |
| `FatLinkMap.EndMarkThatLooksLikeALink` | DS950_APP_2017-03-08/dfs/ff.c:2826-2833 | a table and a chain on which it fails |
| `FatRuns.Perform` | DS950_APP_2017-03-08/dfs/ff.c:2371-2951 | each call is one step of a file that is just bytes, a pointer, its number of clusters and the number still free; clusters gained are clusters the volume loses, and are no more than the pointer needs |
| `FatRuns.Run` | DS950_APP_2017-03-08/dfs/ff.c:2371-2951 | every run of f_write, f_read and f_lseek on one file is a run of that byte-sequence file, with every result as it demands, and from its first state to its last nothing of the volume changed but the file |
| `FatRuns.WritesWhatFits` | DS950_APP_2017-03-08/dfs/ff.c:2472-2582 | below 4 GB a write stores exactly the smaller of its data and the room in the file's and the volume's clusters |
| `FatRuns.SeeksWhatFits` | DS950_APP_2017-03-08/dfs/ff.c:2906-2926 | a stretching seek ends exactly at the smaller of its target and the end of those clusters |
| `FatRuns.ClustersConserved` | DS950_APP_2017-03-08/dfs/ff.c:2371-2951 | over every run the file's clusters and the free ones add up to the same, and the file never loses one |
| `FatRuns.ReadBack` | DS950_APP_2017-03-08/dfs/ff.c:2371-2582 | what was written completely is read back after seeking to where it was |
| `FatRuns.CopiesAgreeAfter` | DS950_APP_2017-03-08/dfs/ff.c:723-739 | if the FAT copies agreed before a run, they agree on the disk whenever the window is clean after it |
| `FatRuns.OtherFileAfter` | DS950_APP_2017-03-08/dfs/ff.c:2371-2951 | every other chain of the volume is the same chain after a run, shares no cluster with the file, and all its sectors are as they were |
| `FatIsolation.KeptThen` | DS950_APP_2017-03-08/dfs/ff.c:2371-2951 | operations that touch nothing but the file compose: sectors outside its clusters and the FAT, entries outside its chain, agreement of the copies, truth of the free count, the free clusters lost to the file, the hint and a known count |
| `FatIsolation.KeptByCreate` | DS950_APP_2017-03-08/dfs/ff.c:975-1024 | create_chain for a file changes only entries of its chain, which grows by one cluster that was free, and takes it off the count |
| `FatIsolation.KeptByRun` | DS950_APP_2017-03-08/dfs/ff.c:2531-2536 | direct writes touch only the file's own sectors |
| `FatIsolation.OthersUntouched` | DS950_APP_2017-03-08/dfs/ff.c:2371-2951 | isolation of files, from one state to another |
| `FatFormat.ChooseUnit` | DS950_APP_2017-03-08/dfs/ff.c:3609-3617 | the allocation unit is the caller's power of two or the table's, cut to 1..128 sectors, always a power of two |
| `FatFormat.WriteVbr` | DS950_APP_2017-03-08/dfs/ff.c:3688-3724 | every boot record field a mount reads holds the layout's value |
| `FatRecord.VbrInBytes` | DS950_APP_2017-03-08/dfs/ff.c:391-417 | that record byte by byte, at the offsets of the FAT format |
| `FatRecord.FieldsInBytes` | DS950_APP_2017-03-08/dfs/ff.c:2081-2104 | the bytes of a boot record that each field of a mount comes from |
| `FatRecord.CheckInBytes` | DS950_APP_2017-03-08/dfs/ff.c:1978-1997 | 0x55, 0xAA at 510 and FAT at 54 or 82 make a FAT boot record |
| `FatRecord.MbrInBytes` | DS950_APP_2017-03-08/dfs/ff.c:3676-3682 | the partition record byte by byte |
| `FatRecord.LocateInBytes` | DS950_APP_2017-03-08/dfs/ff.c:2067-2079 | where a mount looks: sector 0, or the sector named at 454 if the type at 450 is not 0 |
| `FatRecord.InfoInBytes` | DS950_APP_2017-03-08/dfs/ff.c:3770-3775 | FSInfo byte by byte: signatures at 0, 484 and 510, free count at 488, last cluster at 492 |
| `FatRecord.HintsInBytes` | DS950_APP_2017-03-08/dfs/ff.c:2130-2146 | the hints of a mount come from 492 and 488 of a right FSInfo sector, else they are unknown |
| `FatRecord.PlanExactly` | DS950_APP_2017-03-08/dfs/ff.c:3605-3656 | the plan in numbers: which layouts are aborted, and the reserved, FAT and directory sizes of the others, from the whole clusters in the volume, the least FAT that holds them and the least gap to the erase block |
| `FatRecord.SmallPlans` | DS950_APP_2017-03-08/dfs/ff.c:3605-3656 | the layouts of three drives, one for each sub-type |
| `FatRecord.UnitAnswers` | DS950_APP_2017-03-08/dfs/ff.c:3609-3617 | the units chosen for a few volumes |
| `FatMount.PlanFacts` | DS950_APP_2017-03-08/dfs/ff.c:3605-3656 | every layout f_mkfs goes on with fits its fields, starts its data on an erase block, has a FAT large enough for its clusters and keeps its sub-type; on FAT32 at least one cluster is always left |
| `FatMount.MountedIsValid` | DS950_APP_2017-03-08/dfs/ff.c:2081-2128 | whatever boot record passes the checks of chk_mounted, if nothing overflowed 32 bits and cluster numbers fit 28, describes a volume the other operations can work on, inside the stated size |
| `FatRecord.SubTypeBounds` | DS950_APP_2017-03-08/dfs/ff.c:385-386 | FAT12 exactly below 4086 clusters, FAT32 exactly from 65526 on |
| `FatRecord.MountsExactly` | DS950_APP_2017-03-08/dfs/ff.c:2081-2128 | within 32 bits, exactly which boot records mount, and as what: sector size, copies, unit, root entries, reserved area, room for one cluster, sub-type and FAT size in numbers |
| `FatRecord.FloppyMounts` | DS950_APP_2017-03-08/dfs/ff.c:2081-2128 | the 1.44 MB floppy mounts as FAT12 with 2849 entries, root at 19 and data at 33 |
| `FatMount.FormatMounts` | DS950_APP_2017-03-08/dfs/ff.c:2081-2128 | a boot record of f_mkfs passes chk_mounted if and only if the aligned layout leaves one cluster, and then with the sub-type, bases and cluster count f_mkfs computed |
| `FatMkfs.FormattedMounts` | DS950_APP_2017-03-08/dfs/ff.c:2067-2128 | sector 0 or the first partition leads the mount to that record, with or without a partition table |
| `FatMkfs.BootMounts` | DS950_APP_2017-03-08/dfs/ff.c:2067-2128 | on the drive: whatever else f_mkfs wrote, its boot record mounts if and only if the layout leaves a cluster |
| `FatMkfs.FreshTableIs` | DS950_APP_2017-03-08/dfs/ff.c:3733-3750 | the first FAT sector and the zeros after it read as: the media byte below ones, ones, the FAT32 root an end mark, everything else free, for all three packings |
| `FatMkfs.FreshIsWellFormed` | DS950_APP_2017-03-08/dfs/ff.c:3733-3750 | such a table is a well-formed graph and its free count is all clusters but the root's |
| `FatMkfs.FormatThenMount` | DS950_APP_2017-03-08/dfs/ff.c:3573-3781 | formatting then mounting gives a valid volume with a well-formed graph, a truthful free count (on FAT32 the FSInfo one) and a zeroed root directory exactly where the mount looks |
| `FatMkfs.WriteMbr` | DS950_APP_2017-03-08/dfs/ff.c:3662-3682 | sector 0 is a record that is not a FAT boot record, whose first partition has the sub-type's system ID, starts at sector 63 and has the volume's size |
| `FatMkfs.WriteFatHead` | DS950_APP_2017-03-08/dfs/ff.c:3733-3743 | the reserved entries, then zeros |
| `FatMkfs.WriteInfo` | DS950_APP_2017-03-08/dfs/ff.c:3770-3775 | FSInfo with n - 1 free clusters and last cluster 2 |
| `FatMkfs.LayOut` | DS950_APP_2017-03-08/dfs/ff.c:3658-3778 | all of a fitting layout reaches the drive, the FAT32 backups included; otherwise it succeeds exactly if every write lies on the drive, the boot record being written in any case; sectors outside the layout's areas stay as they were |
| `FatMkfs.Mkfs` | DS950_APP_2017-03-08/dfs/ff.c:3573-3781 | the outcome of f_mkfs for every drive whose clusters can be numbered with 28 bits and every request |
| `FatMkfs.AlignmentTakesLastCluster` | DS950_APP_2017-03-08/dfs/ff.c:3641-3656 | a drive on which f_mkfs succeeds and mounting fails, because alignment took the last cluster |
| `Lfn.FitLfn` | DS950_APP_2017-03-08/dfs/ff.c:1245-1270 | the entry is segment ord of the name: its characters, one zero, fillers, and the last-entry flag exactly on the last segment |
| `Lfn.SegmentBytes` | DS950_APP_2017-03-08/dfs/ff.c:1245-1270 | that entry byte by byte: order and flag, the 13 places of characters, attribute 0x0F, checksum |
| `Lfn.PickLfn` | DS950_APP_2017-03-08/dfs/ff.c:1212-1240 | for every entry: accepted if and only if padded with fillers and within the buffer, and then the buffer gets exactly the characters up to the zero and a terminator after the last entry |
| `Lfn.StoreName` | DS950_APP_2017-03-08/dfs/ff.c:1497-1532 | ceil(len / 13) entries, the last segment first, one per segment |
| `Lfn.LoadName` | DS950_APP_2017-03-08/dfs/ff.c:1431-1439 | reading the entries of a name in that order restores the name and its terminator |
| `Lfn.ReadableLength` | DS950_APP_2017-03-08/dfs/ff.c:1212-1240 | all entries of a name are accepted if and only if it has at most 253 characters |
| `Lfn.LongestNamesAreLost` | DS950_APP_2017-03-08/dfs/ff.c:1212-1240 | a name of 254 characters is written in 20 entries, one of which is refused |
| `Lfn.CmpLfn` | DS950_APP_2017-03-08/dfs/ff.c:1181-1207 | for every entry and buffer: 1 if and only if the characters agree up to case, padding and length included |
| `Lfn.MatchIsEquality` | DS950_APP_2017-03-08/dfs/ff.c:1181-1207 | all entries of a match a buffer holding b if and only if a and b are equal up to case and a has at most 254 characters |
| `FinshVm.DecodeBytes` | DS950_APP_2017-03-08/finsh/finsh_ops.c:305-388 | an instruction's bytes, little-endian operand included, decode to that instruction |
| `FinshVm.ExecCode` | DS950_APP_2017-03-08/finsh/finsh_vm.c:44-72 | running the bytes of a program from any place of the text is playing its instructions and going on behind them |
| `FinshVm.ExecZeros` | DS950_APP_2017-03-08/finsh/finsh_vm.c:57-71 | the zeroed rest of the text does nothing |
| `FinshVm.OpcodeTable` | DS950_APP_2017-03-08/finsh/finsh_ops.c:571-620 | the opcodes in numbers |
| `FinshVm.OperandBytes` | DS950_APP_2017-03-08/finsh/finsh_ops.c:317-327 | operands follow their opcode, low byte first |
| `FinshVm.Limits` | DS950_APP_2017-03-08/finsh/finsh_vm.c:44-72 | the stack takes 64 values and a call 16 parameters |
| `FinshVm.Machine.BinaryOp` | DS950_APP_2017-03-08/finsh/finsh_ops.c:42-45 | two operands replaced by the operation's result, or no result |
| `FinshArith.RingLaws` | DS950_APP_2017-03-08/finsh/finsh_ops.c:71-159 | sum, difference and product are those of the longs whenever they are longs, and congruent to them modulo 2^32 otherwise |
| `FinshArith.DivisionLaws` | DS950_APP_2017-03-08/finsh/finsh_ops.c:115-137 | a = q * b + r with |r| < |b| and r of a's sign, defined unless b is 0 or a the least long and b = -1 |
| `FinshArith.BitLaws` | DS950_APP_2017-03-08/finsh/finsh_ops.c:181-250 | each bit of &, |, ^ and ~ from the same bits of the operands |
| `FinshArith.SameBits` | DS950_APP_2017-03-08/finsh/finsh_ops.c:181-250 | the bits determine the number |
| `FinshArith.ShiftLaws` | DS950_APP_2017-03-08/finsh/finsh_ops.c:269-291 | each place shifted doubles, or halves rounding down; 32 places or more have no value |
| `FinshArith.SmallAnswers` | DS950_APP_2017-03-08/finsh/finsh_ops.c:42-45 | 5 - 3 is 2, -7 / 2 is -3, -7 % 2 is -1, 3 << 4 is 48, -3 >> 1 is -2 |
| `FinshVm.Machine.LoadOperand` | DS950_APP_2017-03-08/finsh/finsh_ops.c:317-387 | push an immediate or the cell it addresses, and step over it |
| `FinshVm.Machine.StoreTop` | DS950_APP_2017-03-08/finsh/finsh_ops.c:428-434 | store the top under the address below it, which stays |
| `FinshVm.Machine.CallFunction` | DS950_APP_2017-03-08/finsh/finsh_ops.c:444-569 | parameters in call order, then the function's result in place of its address |
| `FinshVm.Machine.Step` | DS950_APP_2017-03-08/finsh/finsh_vm.c:60-70 | one fetch and dispatch moves pc forward and does what the decoded instruction means |
| `FinshVm.Machine.Run` | DS950_APP_2017-03-08/finsh/finsh_vm.c:44-72 | the loop ends on every text and leaves what the instruction semantics says |
| `FinshCompiler.Compiler.TypeCheck` | DS950_APP_2017-03-08/finsh/finsh_compiler.c:759-901 | on the node table, exactly the annotation of the tree it holds; other nodes and all links untouched |
| `FinshCompiler.CheckedHolds` | DS950_APP_2017-03-08/finsh/finsh_compiler.c:759-901 | checking child, sibling and node in place yields the checked tree although all share one table |
| `FinshCompiler.Compiler.Emit` | DS950_APP_2017-03-08/finsh/finsh_compiler.c:38-40 | the next instruction's bytes are appended, nothing else in the text changes |
| `FinshCompiler.Compiler.CountSiblings` | DS950_APP_2017-03-08/finsh/finsh_compiler.c:293-303 | the number of parameters of a call |
| `FinshCompiler.Compiler.CompileOwn` | DS950_APP_2017-03-08/finsh/finsh_compiler.c:52-750 | a node's own code for each node type |
| `FinshCompiler.Compiler.Compile` | DS950_APP_2017-03-08/finsh/finsh_compiler.c:43-757 | children, node, siblings: the tree's code is appended to the text |
| `FinshCompiler.Compiler.CompilerRun` | DS950_APP_2017-03-08/finsh/finsh_compiler.c:903-937 | statements are checked, unlinked and compiled with a pop between them; the rest of the text is zero |
| `FinshExpr.GeneratedCode` | DS950_APP_2017-03-08/finsh/finsh_compiler.c:43-901 | for every expression, type check and generator together produce its compositional code, and its type is its first operand's |
| `FinshExpr.StepAnswers` | DS950_APP_2017-03-08/finsh/finsh_compiler.c:373-713 | what 5 - 3, ++x, --x, x++ and x-- give and store |
| `FinshExpr.OrderAnswer` | DS950_APP_2017-03-08/finsh/finsh_compiler.c:43-51 | the left operand comes first |
| `FinshExpr.CallAnswer` | DS950_APP_2017-03-08/finsh/finsh_compiler.c:293-320 | arguments are passed in their order |
| `FinshCorrect.DepthBound` | DS950_APP_2017-03-08/finsh/finsh.h:26-33 | peak stack depth is at most the number of nodes plus two |
| `FinshCorrect.CodeComputes` | DS950_APP_2017-03-08/finsh/finsh_compiler.c:43-901 | compiler correctness: from any stack with room and any memory, the code of an expression in which no operator takes its type from a call pushes exactly its left-to-right value, leaves the rest of the stack and gives the source memory; it fails exactly when the source has no value |
| `FinshCorrect.StatementsCompute` | DS950_APP_2017-03-08/finsh/finsh_compiler.c:918-934 | a statement list leaves exactly one value, the last one's, on an otherwise unchanged stack |
| `FinshCorrect.ProgramRuns` | DS950_APP_2017-03-08/finsh/finsh_vm.c:44-72 | any such line of at most 16 nodes whose code is in the text runs to the end inside the 64-slot stack with that value at the bottom |
| `FinshCorrect.RunLine` | DS950_APP_2017-03-08/finsh/finsh_compiler.c:903-937 | compiling the node table and running the machine computes the line's value and memory, or stops exactly when it has none, for every line whose byte count is at most 128 |
| `FinshCorrect.HeightExact` | DS950_APP_2017-03-08/finsh/finsh_compiler.c:791-795 | for every expression, typed or not, the code leaves one value plus one for each two-operand operator without a type |
| `FinshCorrect.TypedLosesNothing` | DS950_APP_2017-03-08/finsh/finsh_compiler.c:791-795 | typed expressions have no such operator |
| `FinshCorrect.CallFirstIsWrong` | DS950_APP_2017-03-08/finsh/finsh_compiler.c:207-211 | f() + 1 leaves f's result and 1 instead of their sum |
| `FinshCorrect.RightExactly` | DS950_APP_2017-03-08/finsh/finsh_compiler.c:791-795 | exactly when code is right, typed or not: never with a two-operand operator lost (unless it stops), otherwise exactly where the one-operand operators without a type make no difference to the value |
| `FinshCorrect.StrippedCode` | DS950_APP_2017-03-08/finsh/finsh_compiler.c:791-795 | one-operand operators without a type leave no trace in the code |
| `FinshCorrect.UnaryOverCall` | DS950_APP_2017-03-08/finsh/finsh_compiler.c:791-795 | ~ over a call is never right, * exactly if the cell at the result's address holds that address |
| `FinshCorrect.UntypedButRight` | DS950_APP_2017-03-08/finsh/finsh_compiler.c:791-795 | 0 & ~f() is right although ~ gets no type |
| `FinshCorrect.LineFits` | DS950_APP_2017-03-08/finsh/finsh_compiler.c:903-937 | the code of a line, typed or not, has exactly the bytes counted on its statements: 5 per constant, variable or address, 1 per typed operator, 2 per assignment and call, 18 and 23 per step, 1 between statements |
| `FinshCorrect.TenNodesFit` | DS950_APP_2017-03-08/finsh/finsh.h:26-33 | every line of at most ten nodes fits the text segment, because a node costs at most twelve bytes |
| `FinshCorrect.NodesDoNotBoundText` | DS950_APP_2017-03-08/finsh/finsh.h:26-33 | eight statements x++ fill 16 nodes and need 191 of 128 text bytes |
| `FinshHeap.Carve` | DS950_APP_2017-03-08/finsh/finsh_heap.c:232-246 | splitting and taking a block keeps the tiling, the coalescing and a free highest block |
| `FinshHeap.MergedLaid` | DS950_APP_2017-03-08/finsh/finsh_heap.c:248-298 | each of the four merges keeps the tiling |
| `FinshHeap.MergedCoalesced` | DS950_APP_2017-03-08/finsh/finsh_heap.c:248-298 | after a merge no two free blocks touch |
| `FinshHeap.TopIsFree` | DS950_APP_2017-03-08/finsh/finsh_heap.c:73-128 | the highest block is free and ends at the end of the heap |
| `FinshHeap.Covered` | DS950_APP_2017-03-08/finsh/finsh_heap.c:73-128 | every byte of the heap lies in exactly one block |
| `FinshHeap.InsertIsList` | DS950_APP_2017-03-08/finsh/finsh_heap.c:166-200 | insertion yields a list if and only if something comes after the new block or its own link was clear |
| `FinshHeap.FreedBelowTop` | DS950_APP_2017-03-08/finsh/finsh_heap.c:115-128 | a live block always lies below the last free one, so freeing never meets a stale tail link |
| `FinshHeap.MergeableHere` | DS950_APP_2017-03-08/finsh/finsh_heap.c:248-298 | only neighbours in the free list can touch, so looking at them is enough |
| `FinshHeap.Heap.constructor` | DS950_APP_2017-03-08/finsh/finsh_heap.c:55-68 | one free block that fills the heap |
| `FinshHeap.Heap.Insert` | DS950_APP_2017-03-08/finsh/finsh_heap.c:166-200 | the block goes to its sorted place |
| `FinshHeap.Heap.Remove` | DS950_APP_2017-03-08/finsh/finsh_heap.c:205-227 | the block leaves the list, which stays a list |
| `FinshHeap.Heap.Split` | DS950_APP_2017-03-08/finsh/finsh_heap.c:232-246 | sizes and links after a split, the rest next in the list |
| `FinshHeap.Heap.Merge` | DS950_APP_2017-03-08/finsh/finsh_heap.c:248-298 | restores the whole shape after an insertion; live blocks keep their sizes |
| `FinshHeap.Heap.Free` | DS950_APP_2017-03-08/finsh/finsh_heap.c:115-128 | exactly that block leaves the live list, and the whole shape is kept |
| `FinshHeap.Heap.FirstFit` | DS950_APP_2017-03-08/finsh/finsh_heap.c:79-96 | the first free block with more than size + 8 bytes, in the second search with at least that many, or none |
| `FinshHeap.RoundedIs` | DS950_APP_2017-03-08/finsh/finsh_heap.c:43 | requests are rounded up to the next multiple of 4 |
| `FinshHeap.Heap.Gc` | DS950_APP_2017-03-08/finsh/finsh_heap.c:133-161 | the live list afterwards is the sublist of blocks typed variables point to |
| `FinshHeap.ReferencedExactly` | DS950_APP_2017-03-08/finsh/finsh_heap.c:133-161 | a block is kept if and only if it was live and some typed variable points to its payload |
| `FinshHeap.Heap.Allocate` | DS950_APP_2017-03-08/finsh/finsh_heap.c:73-110 | the heap searched is the heap as it was, or, only if no free block there has more than n + 8 bytes, the heap after collection; the first block with room there is taken; NULL exactly if none is left with n + 8; otherwise a block that is aligned, zeroed, of the rounded size n and disjoint from every live block, whose bytes and sizes are untouched |
| `FinshHeap.EmptyIsOneBlock` | DS950_APP_2017-03-08/finsh/finsh_heap.c:73-128 | with nothing allocated all memory is one free block |
| `FinshHeap.Heap.FirstAllocation` | DS950_APP_2017-03-08/finsh/finsh_heap.c:73-110 | a fresh heap of max bytes serves exactly the requests of at most max - 16 rounded bytes, at 8; 32 of 128 is one |
| `Ring.RingBuffer.constructor` | DS950_APP_2017-03-08/DeviceDrivers/ringbuffer.c:30-44 | an empty ring of the size rounded down; usable exactly from one word on |
| `Ring.RingBuffer.StatusIs` | DS950_APP_2017-03-08/DeviceDrivers/rtdevice.h:192-224 | status, data_len and space_len say how full the queue is |
| `Ring.RingBuffer.Put` | DS950_APP_2017-03-08/DeviceDrivers/ringbuffer.c:50-91 | appends as much as fits |
| `Ring.RingBuffer.Get` | DS950_APP_2017-03-08/DeviceDrivers/ringbuffer.c:150-191 | takes as much as there is from the front |
| `Ring.RingBuffer.PutChar` | DS950_APP_2017-03-08/DeviceDrivers/ringbuffer.c:197-218 | appends one byte unless full |
| `Ring.RingBuffer.GetChar` | DS950_APP_2017-03-08/DeviceDrivers/ringbuffer.c:262-284 | takes the oldest byte unless empty |
| `Ring.RingBuffer.PutCharForce` | DS950_APP_2017-03-08/DeviceDrivers/ringbuffer.c:227-256 | the newest bufferSize bytes survive |
| `Ring.RingBuffer.PutForce` | DS950_APP_2017-03-08/DeviceDrivers/ringbuffer.c:99-144 | full: the oldest bytes go; room: append; otherwise the ring is left inconsistent, a whole lap is lost, and what can be read is the end of the data |
| `Ring.OverrunLosesLap` | DS950_APP_2017-03-08/DeviceDrivers/ringbuffer.c:99-144 | three bytes forced into a ring of four that holds three leave two |
| `Pipe.ReadKeeps` | DS950_APP_2017-03-08/DeviceDrivers/pipe.c:81-100 | a reader's section keeps the pipe invariant if and only if the 16-bit size is nonzero or the ring is empty |
| `Pipe.WriteKeeps` | DS950_APP_2017-03-08/DeviceDrivers/pipe.c:166-186 | likewise for the writer and a full ring |
| `Pipe.ReadTakes` | DS950_APP_2017-03-08/DeviceDrivers/pipe.c:81-100 | a reader's section takes the smaller of the 16-bit size and what the ring holds, wakes the writer if that is not 0 and suspends otherwise |
| `Pipe.WriteGives` | DS950_APP_2017-03-08/DeviceDrivers/pipe.c:166-186 | likewise for the writer and the room in the ring |
| `Pipe.LongReadSuspends` | DS950_APP_2017-03-08/DeviceDrivers/pipe.c:81-100 | a read of 65536 bytes suspends the reader on a ring that holds a byte |
| `Pipe.LongWriteSuspends` | DS950_APP_2017-03-08/DeviceDrivers/pipe.c:166-186 | a write of 65536 bytes suspends the writer on an empty ring |
| `Pipe.EveryRunIsSafe` | DS950_APP_2017-03-08/DeviceDrivers/pipe.c:29-189 | in every interleaving a suspended reader means an empty ring and a suspended writer a full one, never both, and bytes read followed by the ring are the bytes accepted |
| `Pipe.NeverStuck` | DS950_APP_2017-03-08/DeviceDrivers/pipe.c:29-189 | a suspended thread is woken by its partner's next section |
| `Pipe.PipeDevice.ReadOnce` | DS950_APP_2017-03-08/DeviceDrivers/pipe.c:81-100 | the section of rt_pipe_read on the ring buffer is the abstract one, and returns as many bytes as asked for or there are |
| `Pipe.PipeDevice.WriteOnce` | DS950_APP_2017-03-08/DeviceDrivers/pipe.c:166-186 | the section of rt_pipe_write on the ring buffer is the abstract one, and stores as many bytes as given or there is room for |
| `Path.Buffer.Normalize` | DS950_APP_2017-03-08/dfs/dfs.c:334-409 | the in-place rewrite computes the component walk for every path, the NULL result and the stray read included; before every component the write index is at most the read index |
| `Path.Buffer.UpOne` | DS950_APP_2017-03-08/dfs/dfs.c:391-400 | back to the slash before the last name, or out of the buffer |
| `Path.Buffer.CopyStep` | DS950_APP_2017-03-08/dfs/dfs.c:374-389 | one component copied, one slash kept |
| `Path.NormalForm` | DS950_APP_2017-03-08/dfs/dfs.c:334-409 | an absolute path gives "/" and its component stack, free of empty, "." and ".." names, if no prefix has more ".." than names, and otherwise no absolute path |
| `Path.RootLost` | DS950_APP_2017-03-08/dfs/dfs.c:391-400 | /../a gives a, /.. reads in front of the buffer, /../.. gives no path |
| `Path.Idempotent` | DS950_APP_2017-03-08/dfs/dfs.c:334-409 | normalising a result changes nothing |
| `Path.WalkRooted` | DS950_APP_2017-03-08/dfs/dfs.c:391-400 | the root is kept exactly on such paths |
| `Path.ComponentsOfJoin` | DS950_APP_2017-03-08/dfs/dfs.c:374-389 | splitting undoes joining |
| `Path.PartsOf` | DS950_APP_2017-03-08/dfs/dfs.c:374-389 | a component ends at the next slash, and several slashes are as good as one |
| `Path.SmallWalk` | DS950_APP_2017-03-08/dfs/dfs.c:346-400 | a, ., b, .., c from the root is /a/c |

## Left out

- Disk errors, write protection, timestamps, volume locks, `validate` and the sticky FA__ERROR flag: the disk works and the file object is valid.
- f_open, f_close, f_sync, f_unlink, f_rename, f_mkdir, f_truncate, several files open at once: path walking, directory ownership and aliasing between files.
- dir_sdi, dir_next, dir_find, dir_register and create_name beyond the long-name entries they handle: directory walking and code pages.
- Reading and writing with a link map set: f_read and f_write are modelled on the FAT path; the map is used by seeking only.
- FatVolume.Volume.MoveWindow: does not model the transfer errors of disk_read and disk_write.
- FatFile.File.Write: requires fewer than 2^32 bytes, the range of the source's UINT.
- FatFile.File.Seek: does not say which bytes a stretched file gains, because the source leaves them as they were on the disk.
- FatMkfs.Mkfs: requires a power-of-two erase block (or one the source ignores), because the source masks with it, and clusters that 28 bits can number, because entries have no more; CTRL_ERASE_SECTOR and CTRL_SYNC are not modelled.
- FatMount.PlanFacts: the same bound on cluster numbers.
- FatMount.MountedIsValid: requires that nothing wraps at 32 bits and that cluster numbers fit 28 bits; the source mounts such records too, and its other operations then mix up clusters.
- FatRecord.MountsExactly: requires the same of its sizes; what wraps is in FatMount.Analyse, branch by branch.
- Lfn.LoadName: models the pick_lfn calls of dir_read, not its checksum and order tests.
- sync of FSInfo back to the disk: only its flag is kept.
- finsh_parser.c and finsh_token.c: trees are the input of the model; casts, strings, NULL nodes and 8/16-bit types with them.
- FinshCompiler.Compiler.TypeCheck: models variables and constants of 32-bit types.
- FinshCompiler.Compiler.CompileOwn: models the nodes of 32-bit expressions.
- FinshVm.Machine.Run: models the 32-bit operations of the opcode table; every other opcode is a fault.
- FinshCompiler.Compiler.Compile: models variables of 32-bit types; FINSH_ERROR codes are not recorded; code must fit the text segment, which the source does not check (LineFits says when it does).
- FinshHeap.Heap.Allocate: requires sizes up to 2^32 - 16, above which the source's size arithmetic wraps; headers live in arrays of their own, so that a client overrunning its block is not modelled.
- Pipe.EveryRunIsSafe: the non-blocking and forced branches of pipe.c are not modelled; one reader and one writer, both blocking, with sizes from 1 to 65535; rt_thread_resume is taken to remove the thread from its list.
- dataqueue.c, completion.c, serial.c, the dfs descriptor table, drivers and network tools: no comparable invariant, or code outside the repository.
