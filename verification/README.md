# BobaOS storage and memory: models and proofs

BobaOS is a 64-bit x86 kernel written in C. This project models six of its
subsystems and proves what they are for:

- byte streams over a sectored disk, and partition windows on them
  (`Stream.dfy`, `PartitionStream.dfy`);
- the FAT32 driver: volume layout, the two FATs, cluster chains, reading and
  writing files (`FatLayout.dfy`, `FatDevice.dfy`, `FatChains.dfy`,
  `FatContent.dfy`, `Fat32.dfy`, `FatWrite.dfy`, `FatTheorems.dfy`,
  `FatReadPlan.dfy`, `FatRead.dfy`, `FatReadExact.dfy`, `FatFile.dfy`) and its long file names
  (`LongName.dfy`);
- the buddy heap (`BuddyTree.dfy`, `BuddyHeap.dfy`);
- the page heap (`PageHeap.dfy`);
- four-level page tables (`PageTree.dfy`, `PageSupply.dfy`, `Paging.dfy`);
- path parsing and printing (`PathTracer.dfy`).

The layers stand on each other. `FatDevice` holds two partition streams over a
disk stream over an array of sectors, and its FAT and cluster contents are
ghost views of those bytes. So "writing a file changes nothing else" is a
statement about bytes on the disk, not about an abstract store. Code that
changes state is a class with methods over arrays and fields; what those
methods promise is expressed with functions on values, and the theorems are
lemmas about these values.

## What is proved, in short

**Streams.** A read is a slice and a write is a splice of the flat disk, for
every alignment, also when a write starts and ends inside one sector. No run of
partition-stream calls writes outside the partition. The two positions stay in
step for all runs exactly when the volume ends strictly before the disk does
(or is empty): `partitionStreamSeek` ignores the status of `diskStreamSeek`,
and the inner stream refuses to move once it stands at the end of the disk.

**FAT32.** The FAT is a forest: chains of different files are disjoint,
acyclic, in range and end in `0x0FFFFFFF`, and every cluster in use lies on one
of them. Cutting a tail, linking a cluster, writing a file, growing a directory
and starting a chain keep that, over runs of any length. A write gives the
chain the number of clusters that the bytes need, changes the number of free
clusters by exactly the difference, takes the lowest free clusters in order,
and leaves every other file's chain and bytes alone. The written file is the
old bytes in front of the write followed by the input, exactly under a
condition on position and size (`WritesInPlace`); outside it, the bytes behind
the first chunk land one cluster too late. A write can run to its end exactly
when there is enough space, in free clusters and those it cuts off the file.
`FatFiles.WriteFile` puts all of this together. A read is given for every
position and size, as bytes of the volume. It copies that slice of the file (or
fails because there is none), whatever the volume holds, exactly when it is
aligned, or stays inside one cluster, or is at most a cluster long and goes on in
a cluster that follows on the volume too, or has more chunks than the file has
clusters left (`FatReadsExact.ReadsExactly`); for every other read there is a
volume on which a wrong byte or a wrong status comes back. Reading back what such
a read covers gives the input.
Both FATs hold the same entries after every update. `unlinkFatChain` is right
on any FAT whose links are in range, even a cyclic one.

**Buddy heap.** At every moment each byte lies in exactly one free or allocated
block, everything around that block is split up, everything inside it carries
no flag, and no two buddies above level 0 are both free. The whole table is
a function of the set of allocated blocks. From this follow: an allocation is
possible exactly when some aligned block of the size is unused; freeing what
was just allocated restores every flag; freeing everything merges the heap back
to its initial state.

**Page heap.** The flag bytes always parse as free pages and runs, in one way
only; allocation is leftmost first fit and fails exactly when no window fits;
freeing accepts exactly the starts of live blocks, and undoes an allocation
byte for byte; free pages and live pages add up.

**Paging.** The tree of table pages refines a flat map from page numbers to
entries. Making tables never changes the flat map; mapping a range changes it
at exactly the pages of the range; the walk reads it. Mapping and the kernel
table succeed, and aliasing maps every page, exactly when the allocator has a
page for every table that is missing. The kernel table lays the free memory
regions out by prefix sums. Aliasing a range is a forward copy; its result is
given for every overlap.

**Names and paths.** Parsing and printing paths are inverse in both
directions; long names survive their 13-character directory entries.

## Where the code departs from what one would expect

- `fat32.c:970-977` computes a first chunk that is too short when
  `size > clusterSize`, `size % clusterSize != 0` and
  `size % clusterSize + startPos % clusterSize < clusterSize`. The rest of the
  input then starts at the next cluster (`FatTheorems.WriteElsewhere`,
  `FatTheorems.MisplacedWrite`).
- `fat32.c:635-684` cuts a read into chunks as if it were aligned. An unaligned
  read across a cluster border goes on with the next cluster of the volume
  instead of the file (`FatReadPlans.ReadElsewhere`), starts every further
  chunk at the beginning of its cluster (`SecondChunk`), and may copy a cluster
  less than was asked for (`FatReadsExact.TooShort`), or as much as fills up its
  last cluster, which is more than the caller made room for (`TooLong`), and
  succeed. It also succeeds past the end of the file when its chunks still fit.
  `FatReadsExact.ReadsExactly` says which reads are not affected.
- With `startPos % clusterSize > 0` and `size == 0`, `writeFatFile` still writes
  one chunk, so it reads input behind `size` (`FatTheorems.EmptyWrite`).
  `FatWrites.WriteFatFile` therefore asks for an input that holds that chunk.
- `fat32.c:1003-1004` drops the statuses of the two FAT writes that link a new
  cluster. The contract of `WriteFatFile` speaks about calls without driver or
  memory failures; after a failed call only the streams are known to be usable.
- The scan for a free cluster (`fat32.c:167-188`) is bounded by the number of
  sectors of the volume, in batches of 512, not by the number of clusters: on a
  full volume it may return an entry behind the tables. `writeFatFile` tests
  neither that nor the result 0, which makes it free the last cluster of the
  file and write the next chunk in front of the data clusters; after that the
  scan hands out the freed cluster again, and the chunk after that one replaces
  what was written there (`FatWrites.FullVolume`).
  Directory growth and the first cluster of a file test for 0 only.
- Only `0x0FFFFFFF` ends a chain. The Microsoft FAT Specification (section 4)
  lets every value from `0x0FFFFFF8` on do so.
- With one FAT copy in the boot record the second table lies on the data
  clusters (`FatLayout.MountedRegionsApart`). Addresses are computed in 32 bits;
  `FatLayout.NoWrap` says when that is harmless.
- `kzfreeBuddy` also accepts the address just behind the heap, and frees the
  block at the start of the heap when that one is not of the biggest size
  (`BuddyHeaps.NamesExactly`, `BuddyHeaps.BehindTheHeap`).
- The buddy heap rounds its configured 100 MiB up to 128 MiB, so it reaches behind
  the address where user memory is said to start (`src/kernel/config.h:66`).
- Buddy requests of at most half the smallest block are always refused.
- A page-heap request for 0 bytes, or one that wraps to 0, yields the page
  behind the first allocated one.
- `remapVirtualToVirtualRange` looks for positive statuses where errors are
  negative, so it reports success when no table could be made
  (`Paging.RemapsNothing`).
- `mapOrCreateRange` maps one page for an empty range.

## Model

| member | source | states |
|---|---|---|
| `Stream.DiskStream.Seek` | src/kernel/disk/stream.c:28-42 | refuses to move at the end of the disk; otherwise moves up to 512 times the disk size |
| `Stream.DiskStream.Read` | src/kernel/disk/stream.c:44-73 | a successful read copies exactly the slice of the flat disk, for every alignment; a failed one changes nothing |
| `Stream.DiskStream.Write` | src/kernel/disk/stream.c:75-122 | a successful write is a splice of the flat disk; both sector edges keep their bytes; a failed one changes nothing |
| `Stream.DiskStream.FillSectors` | src/kernel/disk/stream.c:93-112 | the sector buffer holds the data between the bytes that the disk had at both edges |
| `Stream.EdgesKept` | src/kernel/disk/stream.c:93-114 | writing back whole sectors with unchanged edges equals writing the data alone |
| `PartitionStreams.PartitionStream.Seek` | src/kernel/disk/partitionStream.c:30-39 | a step of the protocol: success inside the window, whether or not the inner stream moved |
| `PartitionStreams.PartitionStream.Read` | src/kernel/disk/partitionStream.c:41-50 | a step of the protocol; in step, it reads the slice of the window |
| `PartitionStreams.PartitionStream.Write` | src/kernel/disk/partitionStream.c:52-61 | a step of the protocol; a failed call moves neither position |
| `PartitionStreams.WritesConfined` | src/kernel/disk/partitionStream.c:30-61 | over every run no byte outside the partition changes, in step or not |
| `PartitionStreams.StuckForever` | src/kernel/disk/stream.c:9-42 | an inner stream at the end of its disk never moves again, and no later read or write succeeds |
| `PartitionStreams.StaysSynced` | src/kernel/disk/partitionStream.c:30-61 | with a volume that ends before its disk, every run keeps disk position = volume offset + position |
| `PartitionStreams.SyncExactly` | src/kernel/disk/partitionStream.c:30-61 | on disks of the right size that holds for all runs if and only if the volume ends strictly before the disk or is empty |
| `FatLayout.MountedRegionsApart` | src/kernel/vfsl/driver/fat32.c:70-74 | the second FAT stays clear of the data clusters iff there are at least two FAT copies |
| `FatLayout.ClustersApart` | src/kernel/vfsl/driver/fat32.c:118-121 | distinct clusters own disjoint bytes, all behind the FATs |
| `FatLayout.NoWrap` | src/kernel/vfsl/driver/fat32.c:118-131 | for in-range clusters of a volume that fits, the 32-bit addresses are the true ones |
| `FatLayout.ClusterZero` | src/kernel/vfsl/driver/fat32.c:118-121 | as the driver computes it, cluster 0 lies two clusters in front of the first one |
| `FatLayout.EntryReadsBack` | src/kernel/vfsl/driver/fat32.c:190-200 | an entry just written reads back, also behind the tables |
| `FatLayout.EntriesAt` | src/kernel/vfsl/driver/fat32.c:145-146 | decoding words of the FAT gives the masked little-endian entries |
| `FatLayout.FatWordWritten` | src/kernel/vfsl/driver/fat32.c:694-700 | writing four bytes at a FAT address changes one entry of the first FAT, no entry of the second and no cluster |
| `FatLayout.FatCopyWordWritten` | src/kernel/vfsl/driver/fat32.c:702-704 | the same for the second FAT |
| `FatLayout.ClusterWritten` | src/kernel/vfsl/driver/fat32.c:988-990 | writing into cluster c changes only the bytes of c, and neither FAT |
| `FatDevices.FatDevice.GetMultipleFatEntries` | src/kernel/vfsl/driver/fat32.c:134-149 | the entries of a range of the FAT |
| `FatDevices.FatDevice.GetFreeFatEntryCluster` | src/kernel/vfsl/driver/fat32.c:167-188 | on any volume the first zero entry within the scan limit, or 0; so the lowest free cluster, and on a full volume 0 or an entry that lies behind the tables |
| `FatDevices.FatDevice.GetFatEntry` | src/kernel/vfsl/driver/fat32.c:190-200 | the entry of the first FAT |
| `FatDevices.FatDevice.WriteFatEntry` | src/kernel/vfsl/driver/fat32.c:694-707 | the bytes of the volume change at the two addresses of the entry; so one entry changes in both FATs, and no cluster |
| `FatDevices.FatDevice.WriteCluster` | src/kernel/vfsl/driver/fat32.c:988-991 | a splice of one cluster; FATs and other clusters keep their bytes |
| `FatDevices.FatDevice.ReadCluster` | src/kernel/vfsl/driver/fat32.c:668-671 | bytes of the volume from a place in a cluster on; a slice of the cluster when they do not run on behind its end |
| `FatChains.ChainsDistinct` | src/kernel/vfsl/driver/fat32.c:631-692 | a chain never visits a cluster twice |
| `FatChains.ChainUnique` | src/kernel/vfsl/driver/fat32.c:631-692 | a start cluster has at most one chain |
| `FatChains.Extended` | src/kernel/vfsl/driver/fat32.c:998-1008 | linking a free cluster at the end of a chain gives the chain one cluster more and touches nothing else |
| `FatChains.Started` | src/kernel/vfsl/driver/fat32.c:814-815 | marking a free cluster as used makes a chain of it |
| `FatChains.ForestKept` | src/kernel/vfsl/driver/fat32.c:916-1020 | replacing one chain keeps all chains disjoint and every used cluster on one of them |
| `FatChains.ForestOverRuns` | src/kernel/vfsl/driver/fat32.c:1054-1112 | that holds after any number of chain updates |
| `FatChains.OtherChainKept` | src/kernel/vfsl/driver/fat32.c:916-1020 | updating one chain leaves a chain that shares no cluster with it intact |
| `FatChains.ClustersConserved` | src/kernel/vfsl/driver/fat32.c:863-881 | free clusters plus chain length stay constant |
| `FatChains.FreeAfter` | src/kernel/vfsl/driver/fat32.c:863-881 | what is free after an update: what was free or on the old chain, and is not on the new one |
| `FatChains.FreedStep` | src/kernel/vfsl/driver/fat32.c:869-876 | one turn of the freeing loop, also on a FAT with cycles |
| `FatChains.UnlinkedChain` | src/kernel/vfsl/driver/fat32.c:863-881 | unlinking behind cluster k of a chain leaves the first k+1 clusters as the chain |
| `FatChains.FreedAll` | src/kernel/vfsl/driver/fat32.c:869-881 | when the loop stops, everything that could be reached is free, and the start ends a chain |
| `Fat32.UnlinkFatChain` | src/kernel/vfsl/driver/fat32.c:863-881 | terminates on any FAT with in-range links; frees exactly the clusters behind the given one, which becomes the end of the chain; on a cluster that reads as an end it only writes that again |
| `Fat32.AppendCluster` | src/kernel/vfsl/driver/fat32.c:947-960 | the lowest free cluster is linked behind the chain; on a full volume whatever the scan returns is linked, byte for byte |
| `Fat32.MakeDirBigger` | src/kernel/vfsl/driver/fat32.c:709-733 | the chain grows by the lowest free cluster, which is zeroed; `-EDISKSPACE` without change when the scan finds none; else, on a full volume, the bytes of the entry behind the tables that was found are linked and zeroed over |
| `Fat32.StartChain` | src/kernel/vfsl/driver/fat32.c:1087-1100 | the lowest free cluster becomes a chain of its own; on a full volume `-EDISKSPACE`, or the entry behind the tables that the scan found |
| `Fat32.FindStart` | src/kernel/vfsl/driver/fat32.c:928-968 | the cluster the write starts in: on the chain, appended when the file is full (whatever the scan returns), or `-ENFOUND` |
| `FatContent.ContentAt` | src/kernel/vfsl/driver/fat32.c:664-678 | cluster i of a chain is the i-th cluster-sized piece of the file |
| `FatContent.ContentPatched` | src/kernel/vfsl/driver/fat32.c:988-990 | writing into one cluster of a chain is a splice of the file |
| `FatContent.CountIsCeiling` | src/kernel/vfsl/driver/fat32.c:922-925 | the number of clusters to write is the ceiling of the bytes from the start of the first cluster |
| `FatContent.FirstChunkValue` | src/kernel/vfsl/driver/fat32.c:970-977 | the value of the first chunk in all cases |
| `FatContent.ChunkBounds` | src/kernel/vfsl/driver/fat32.c:986-1017 | no chunk is empty or leaves its cluster, and the chunks add up to the size |
| `FatContent.FillsExactly` | src/kernel/vfsl/driver/fat32.c:970-993 | every byte goes where a write at the position must put it iff the first chunk fills its cluster or is the whole write |
| `FatContent.InPlaceExactly` | src/kernel/vfsl/driver/fat32.c:970-977 | the driver's first chunk does so iff size <= clusterSize, or size is a multiple of it, or size % clusterSize + position % clusterSize >= clusterSize |
| `FatContent.MisplacedPlan` | src/kernel/vfsl/driver/fat32.c:970-977 | for one byte more than a cluster at position 0 the first chunk is one byte |
| `FatContent.ProgressChunk` | src/kernel/vfsl/driver/fat32.c:986-993 | writing chunk i puts its bytes in place and keeps the earlier ones |
| `FatWrites.Call.FreeWhileGrowing` | src/kernel/vfsl/driver/fat32.c:998-1008 | during the write, free is what was available and has not been taken |
| `FatWrites.Call.SpaceLeft` | src/kernel/vfsl/driver/fat32.c:1000-1001 | with enough space at the start, the scan finds a cluster whenever the chain must grow |
| `FatWrites.Call.SpaceNeeded` | src/kernel/vfsl/driver/fat32.c:986-1019 | a write that ended as it should had enough space: whatever state it ended in, its clusters were available |
| `FatWrites.ExtendUnchecked` | src/kernel/vfsl/driver/fat32.c:998-1008 | the chain grows by the lowest free cluster; when there is none, entry 0 or one behind the tables is linked to it all the same |
| `FatWrites.FullVolume` | src/kernel/vfsl/driver/fat32.c:998-1008 | when the scan returns 0, the last cluster of the file, though written, is marked free and the next to be handed out, no chain contains it, and cluster 0, where the next chunk goes, lies two clusters in front of the data clusters; once the scan has handed that last cluster out again, entry 0 alone differs from before, so the file has its chain back and the volume is full again |
| `FatWrites.Call.WrittenMore` | src/kernel/vfsl/driver/fat32.c:986-993 | writing one chunk more changes that part of its cluster and no other byte |
| `FatWrites.Call.Longer` | src/kernel/vfsl/driver/fat32.c:998-1008 | one turn of growing: chain, contents and untouched clusters |
| `FatWrites.CutIntoChunks` | src/kernel/vfsl/driver/fat32.c:921-977 | the driver's arithmetic is the plan that the proofs speak about |
| `FatWrites.WriteChunks` | src/kernel/vfsl/driver/fat32.c:986-1019 | the loop ends with the complete plan carried out on chain, FATs and clusters |
| `FatWrites.WriteFatFile` | src/kernel/vfsl/driver/fat32.c:916-1020 | without failures: `-ENFOUND` and no change when the position is behind the chain; else, with enough space, the new chain and exactly the chunks written (`Done`), and equal FATs stay equal |
| `FatTheorems.ChainLengthIsCeiling` | src/kernel/vfsl/driver/fat32.c:916-1020 | the new chain has ceil((position + size) / clusterSize) clusters, and at least the one the write starts in |
| `FatTheorems.WriteConservesClusters` | src/kernel/vfsl/driver/fat32.c:916-1020 | the number of free clusters changes by the difference of the chain lengths |
| `FatTheorems.WriteIsSplice` | src/kernel/vfsl/driver/fat32.c:916-1020 | when the first chunk fills its cluster or is the whole write, the file is the old bytes up to the position, then the input |
| `FatTheorems.WriteElsewhere` | src/kernel/vfsl/driver/fat32.c:970-977 | otherwise the byte behind the first chunk keeps the old value of its cluster, and the next input byte starts the next cluster |
| `FatTheorems.MisplacedWrite` | src/kernel/vfsl/driver/fat32.c:970-977 | one byte more than a cluster written at position 0: byte 1 of the file keeps its old value and byte 1 of the input lands in the second cluster |
| `FatTheorems.EmptyWrite` | src/kernel/vfsl/driver/fat32.c:921-993 | an empty write at a cluster border writes nothing; inside a cluster it overwrites the rest of it with what lies behind the input |
| `FatTheorems.OtherFilesKept` | src/kernel/vfsl/driver/fat32.c:916-1020 | every other file keeps its chain and its bytes, and the volume stays a forest |
| `FatReads.CutRead` | src/kernel/vfsl/driver/fat32.c:635-660 | the driver's arithmetic is the plan of the read, for every position and size |
| `FatReadPlans.TotalOfRead` | src/kernel/vfsl/driver/fat32.c:635-684 | the number of bytes copied, in all cases: short by a cluster or rounded up for some unaligned reads |
| `FatReadPlans.RightRead` | src/kernel/vfsl/driver/fat32.c:664-678 | chunks that stay in their clusters copy a slice of the file |
| `FatReadPlans.ReadElsewhere` | src/kernel/vfsl/driver/fat32.c:664-678 | a chunk that leaves its cluster goes on with the next cluster of the volume |
| `FatReadPlans.SecondChunk` | src/kernel/vfsl/driver/fat32.c:673-676 | the second chunk starts at the beginning of the next cluster of the file, which is right iff the read is aligned |
| `FatReads.ReadFatFile` | src/kernel/vfsl/driver/fat32.c:631-692 | for every position and size: the chunks of the plan that the file holds are copied from the volume, with `-EFSYSTEM` if these are not all; `-EDISKSPACE` without a byte copied when it starts behind the chain or its first chunk runs on behind the volume |
| `FatReadsExact.ReadsExactly` | src/kernel/vfsl/driver/fat32.c:631-692 | for a read that starts in the file or at its end: on every volume, without failure, it gives content[position..position+size), or `-EFSYSTEM` when the file ends before, iff it is aligned, or inside one cluster, or at most a cluster long with the next cluster of the file also next on the volume, or has more chunks than clusters are left (and a first one that does not run off the volume) |
| `FatReadsExact.WrongRead` | src/kernel/vfsl/driver/fat32.c:631-692 | every other read, on a volume that is zero but for one byte, returns a wrong byte or a wrong status |
| `FatReadsExact.TooShort` | src/kernel/vfsl/driver/fat32.c:635-684 | with a second chunk of length 0 the read succeeds although everything from one cluster on is as it was |
| `FatReadsExact.TooLong` | src/kernel/vfsl/driver/fat32.c:635-684 | with a second chunk of a whole cluster the read succeeds and writes two whole clusters, also where the size was less |
| `FatReadsExact.FromByteOne` | src/kernel/vfsl/driver/fat32.c:635-660 | both happen from byte 1 on: for two clusters, and for one byte less |
| `FatReadsExact.FileSlice` | src/kernel/vfsl/driver/fat32.c:631-692 | on a mounted volume, the reads of that condition give the slice of the file or the end-of-file status |
| `FatReads.ReadAfterWrite` | src/kernel/vfsl/driver/fat32.c:631-1020 | the bytes just written, and those in front of them, are what a read finds |
| `FatFiles.WriteFile` | src/kernel/vfsl/driver/fat32.c:1083-1108 | end to end, without failures and with enough space: only this file changes, a file without clusters gets the lowest free one first, free clusters change by the difference, the volume stays a forest, equal FATs stay equal; in place, the file is its old bytes up to the position followed by the input; `-EDISKSPACE` without change when a first cluster is missing |
| `FatFiles.ReadFile` | src/kernel/vfsl/driver/fat32.c:1061-1065 | the outcome of the read for every position and size; a slice of the file, or `-EFSYSTEM` past its last cluster, for all reads that `ReadsExactly` finds right; a file without clusters has no bytes |
| `FatFiles.ReadBack` | src/kernel/vfsl/driver/fat32.c:1054-1108 | `ReadFile` at the place where `WriteFile` has written succeeds with the bytes written |
| `FatFiles.UntouchedOverRuns` | src/kernel/vfsl/driver/fat32.c:1068-1108 | over any run of writes, in place or not, a file that is not written keeps its clusters and bytes |
| `FatFiles.WrittenFile` | src/kernel/vfsl/driver/fat32.c:916-1020 | a finished write, seen from the files of the volume: only one changes, and in place by the input |
| `FatFiles.StartedFile` | src/kernel/vfsl/driver/fat32.c:1084-1100 | the first cluster of a file belongs to no other file, and the volume stays a forest |
| `FatFiles.RoomIsEnough` | src/kernel/vfsl/driver/fat32.c:1000-1001 | the room a file has, in free clusters and in those that the write cuts off it, is enough exactly when the write can run to its end |
| `LongNames.ToLongFileName` | src/kernel/vfsl/driver/fat32.c:271-314 | the 13 places of an entry hold the characters, a zero and padding; order, attribute and checksum stand in their bytes |
| `LongNames.CreateLongFileNameEntries` | src/kernel/vfsl/driver/fat32.c:832-860 | for every name: the pieces, last one first, with descending order numbers and the last flag on the first; all of the name up to 3315 characters, where the 8-bit count overflows |
| `LongNames.LongFileNameEntriesToName` | src/kernel/vfsl/driver/fat32.c:345-368 | what is decoded from any chain: the low bytes in chain order up to the first padding |
| `LongNames.DecodesToName` | src/kernel/vfsl/driver/fat32.c:271-368 | decoding the entries of a name gives the name, zero-terminated iff its length is no multiple of 13 |
| `LongNames.GetCheckSum` | src/kernel/vfsl/driver/fat32.c:151-165 | the rotating checksum of the 11 characters of a short name |
| `LongNames.CheckSumSeesOneByte` | src/kernel/vfsl/driver/fat32.c:159-162 | names that differ in one character have different checksums |
| `BuddyHeaps.ToNextLvl` | src/kernel/memory/kheap/kheap_buddy.c:24-37 | the least power of two that is not below n |
| `BuddyHeaps.FindLvlForBlock` | src/kernel/memory/kheap/kheap_buddy.c:162-178 | the level of a block size, negative iff there is none |
| `BuddyHeaps.LevelOfRequest` | src/kernel/memory/kheap/kheap_buddy.c:470-476 | a request goes to the level of the smallest block that holds it; exactly requests of at most half the smallest block find none |
| `BuddyHeaps.FitsSomeLevel` | src/kernel/memory/kheap/kheap_buddy.c:470-476 | exactly the sizes above half the smallest block and up to the biggest one fit a level |
| `BuddyTree.Geometry.SlotInjective` | src/kernel/memory/kheap/kheap_buddy.c:80-98 | entries of all levels have distinct places in the tables |
| `BuddyTree.LevelsCoverHeap` | src/kernel/memory/kheap/kheap_buddy.c:84-95 | on every level the blocks add up to the heap |
| `BuddyHeaps.DetectMaxLvl` | src/kernel/memory/kheap/kheap_buddy.c:39-53 | the number of halvings from the biggest page to the smallest, plus one, or 0 if there is none below 32 |
| `BuddyHeaps.InitGeometry` | src/kernel/memory/kheap/kheap_buddy.c:117-135 | the heap size is the least power of two not below the configured one, the levels run from the biggest to the smallest page; `-ENMEM` iff halving never meets the smallest page |
| `BuddyHeaps.OneConfiguration` | src/kernel/memory/kheap/kheap_buddy.c:117-135 | a configuration determines the geometry |
| `BuddyHeaps.ConfiguredHeap` | src/kernel/config.h:19-25 | the configured heap: 1024 blocks of 128 KiB, 8 levels down to 1 KiB, 128 MiB in all |
| `BuddyTree.FlagsFromLive` | src/kernel/memory/kheap/kheap_buddy.c:270-464 | every flag is determined by the allocated blocks: split up iff one lies strictly under the entry, free iff none lies in it and one lies under its parent |
| `BuddyTree.SameLiveSameTable` | src/kernel/memory/kheap/kheap_buddy.c:270-464 | tables with the same allocated blocks are equal |
| `BuddyTree.LiveApart` | src/kernel/memory/kheap/kheap_buddy.c:466-509 | allocated blocks never overlap |
| `BuddyTree.RoomExactly` | src/kernel/memory/kheap/kheap_buddy.c:478-490 | a level or one above it has a free entry iff some aligned block of that level is unused |
| `BuddyTree.Tiling` | src/kernel/memory/kheap/kheap_buddy.c:270-464 | every byte lies in exactly one free or allocated block; around it all is split up, inside it nothing carries a flag |
| `BuddyTree.OverlapIsSharedByte` | src/kernel/memory/kheap/kheap_buddy.c:233-239 | two blocks are one inside the other iff they have a byte in common |
| `BuddyHeaps.SplitKeeps` | src/kernel/memory/kheap/kheap_buddy.c:381-419 | splitting keeps the shape of the table and the allocated blocks, and opens only the split entry |
| `BuddyHeaps.SplitStep` | src/kernel/memory/kheap/kheap_buddy.c:421-430 | one turn of splitting down keeps all lower levels without free entries |
| `BuddyHeaps.TakeKeeps` | src/kernel/memory/kheap/kheap_buddy.c:504-504 | taking an entry under the last split makes the table sound again, with one live block more |
| `BuddyHeaps.MergeKeeps` | src/kernel/memory/kheap/kheap_buddy.c:437-464 | joining two buddies keeps the shape; only the parent may have to merge further |
| `BuddyHeaps.BuddyHeap.KzallocBuddy` | src/kernel/memory/kheap/kheap_buddy.c:466-509 | null, without change, iff no level fits the size or the fitting level and all above have no free block; else a block of the fitting level at its aligned address becomes live and nothing else |
| `BuddyHeaps.BuddyHeap.HeapAddressToEntry` | src/kernel/memory/kheap/kheap_buddy.c:241-268 | finds a live block that the address names, or shows that there is none |
| `BuddyHeaps.BuddyHeap.Merge` | src/kernel/memory/kheap/kheap_buddy.c:437-464 | merges upward, terminates, and leaves a sound table with the same other blocks |
| `BuddyHeaps.BuddyHeap.KzfreeBuddy` | src/kernel/memory/kheap/kheap_buddy.c:511-537 | succeeds iff the address names a live block, which it releases; otherwise changes nothing |
| `BuddyHeaps.NamesExactly` | src/kernel/memory/kheap/kheap_buddy.c:511-516 | an address names the block that covers it, for all addresses but the one behind the heap |
| `BuddyHeaps.BehindTheHeap` | src/kernel/memory/kheap/kheap_buddy.c:513-516 | every heap of several levels has a reachable state in which that address names the first block |
| `BuddyHeaps.AddressNames` | src/kernel/memory/kheap/kheap_buddy.c:241-268 | the address of a live block names that block and no other |
| `BuddyHeaps.FreeUndoesAlloc` | src/kernel/memory/kheap/kheap_buddy.c:466-537 | the address of a block just taken names that block, and releasing what the address names restores the exact table |
| `BuddyHeaps.AllocUndoesFree` | src/kernel/memory/kheap/kheap_buddy.c:466-537 | taking a released block back restores the exact table |
| `BuddyHeaps.AllReleased` | src/kernel/memory/kheap/kheap_buddy.c:437-464 | without live blocks the table is the initial one |
| `PageHeaps.OneReading` | src/kernel/memory/kheap/kheap_page.c:62-79 | a table of flag bytes encodes one set of blocks only |
| `PageHeaps.OneTable` | src/kernel/memory/kheap/kheap_page.c:62-79 | a set of blocks has one table only |
| `PageHeaps.FlagsOfPage` | src/kernel/memory/kheap/kheap_page.c:86-95 | LOCKED stands exactly on pages in use, START exactly on first pages of blocks |
| `PageHeaps.AllocKeeps` | src/kernel/memory/kheap/kheap_page.c:62-79 | marking a free window adds exactly that block |
| `PageHeaps.FreeKeeps` | src/kernel/memory/kheap/kheap_page.c:135-151 | clearing a block removes exactly it |
| `PageHeaps.FreeUndoesAlloc` | src/kernel/memory/kheap/kheap_page.c:108-180 | freeing a just allocated block restores every byte |
| `PageHeaps.PagesConserved` | src/kernel/memory/kheap/kheap_page.c:62-151 | free pages and the pages of live blocks add up to the heap |
| `PageHeaps.PagesHoldSize` | src/kernel/memory/kheap/kheap_page.c:34-55 | a request gets the fewest pages that hold it; it gets none iff it is empty or one of the last 4095 sizes, which wrap |
| `PageHeaps.PageHeap.FindFreePages` | src/kernel/memory/kheap/kheap_page.c:81-105 | leftmost fitting window, `-ENMEM` iff there is none; for 0 pages the page behind the first one in use |
| `PageHeaps.PageHeap.KzallocPage` | src/kernel/memory/kheap/kheap_page.c:108-124 | first fit as a new block at its address, or null without change iff nothing fits; a request that comes to no page gets the address behind the first page in use, or null in an empty heap |
| `PageHeaps.PageHeap.FreeAllocatedMemory` | src/kernel/memory/kheap/kheap_page.c:135-151 | clears exactly the run of the block |
| `PageHeaps.PageHeap.KzfreePage` | src/kernel/memory/kheap/kheap_page.c:153-180 | refuses unaligned addresses; for page addresses in the heap it succeeds iff a live block starts there, and removes that block |
| `PageTree.Indices` | src/kernel/memory/paging/paging.c:44-62 | the four indices are the base-512 digits of the page number |
| `PageTree.IndicesIdentifyPage` | src/kernel/memory/paging/paging.c:44-62 | two addresses have the same indices iff they lie in the same page |
| `PageTree.OneSlot` | src/kernel/memory/paging/paging.c:80-92 | every table but the root hangs from exactly one slot of one table |
| `PageTree.HangKeeps` | src/kernel/memory/paging/paging.c:80-92 | hanging in a fresh zeroed page keeps the tree |
| `PageTree.HangKeepsFlat` | src/kernel/memory/paging/paging.c:80-92 | and changes no translation |
| `PageTree.StoreIsUpdate` | src/kernel/memory/paging/paging.c:117-117 | writing a page-table entry updates the flat map at exactly one page |
| `PageTree.MapPagesAt` | src/kernel/memory/paging/paging.c:94-124 | each page of a mapped range has its own frame |
| `PageTree.MapPagesElsewhere` | src/kernel/memory/paging/paging.c:94-124 | no page outside the range changes |
| `PageTree.RangeTranslates` | src/kernel/memory/paging/paging.c:94-204 | after mapping, virt+k translates to phys+k for every k in the range |
| `PageTree.RangeKeepsOthers` | src/kernel/memory/paging/paging.c:94-204 | other addresses translate as before |
| `PageSupply.OpenedExactly` | src/kernel/memory/paging/paging.c:80-115 | all tables that are asked for can be made iff the missing ones are not more than the pages left |
| `PageSupply.FailedThen` | src/kernel/memory/paging/paging.c:231-240 | after a failure no page is left and no table is made any more |
| `PageSupply.WaysAtMost` | src/kernel/memory/paging/paging.c:94-124 | three pages for each mapped page suffice |
| `PageSupply.NothingMade` | src/kernel/memory/paging/paging.c:94-124 | in an empty PML4 table every range needs tables |
| `PageTree.CopyPagesAt` | src/kernel/memory/paging/paging.c:225-240 | the frame of each page after aliasing a range, for every overlap |
| `PageTree.CopyPagesElsewhere` | src/kernel/memory/paging/paging.c:225-240 | pages that are no targets keep their entry |
| `PageTree.CopiesExactly` | src/kernel/memory/paging/paging.c:225-240 | every page gets the frame its source had, whatever is mapped, iff the target does not lie less than the range above the source |
| `PageTree.LayoutIsPrefixSum` | src/kernel/memory/paging/paging.c:154-190 | every free region lies behind the free regions before it, page by page, whatever follows |
| `Paging.PageTables.GetOrCreateEntry` | src/kernel/memory/paging/paging.c:80-92 | the child table, made if missing; no translation changes; null iff it is missing and no page is left |
| `Paging.PageTables.VirtualToPhysical` | src/kernel/memory/paging/paging.c:193-204 | the walk gives the translation of the flat map for mapped pages; for others null or the offset |
| `Paging.PageTables.GetPTTable` | src/kernel/memory/paging/paging.c:64-77 | the page table of an address, null iff none was made |
| `Paging.PageTables.MapOrCreateRange` | src/kernel/memory/paging/paging.c:94-124 | the flat map is updated page by page, completely iff the status is success, which it is iff there are pages for all tables missing on the ways to the range |
| `Paging.PageTables.RemapVirtualToVirtual` | src/kernel/memory/paging/paging.c:225-229 | one page gets the frame of another, or nothing changes |
| `Paging.PageTables.RemapVirtualToVirtualRange` | src/kernel/memory/paging/paging.c:231-240 | the forward copy, without the steps that failed; the status is always success, and all steps succeed iff there are pages for all missing tables |
| `Paging.RemapsNothing` | src/kernel/memory/paging/paging.c:231-240 | with an empty table and no page left, aliasing any range reports success and leaves pages unmapped |
| `Paging.CreateKernelTable` | src/kernel/memory/paging/paging.c:154-190 | a table whose flat map is the layout of the free regions; null iff there are fewer pages than tables it needs |
| `PathTracers.CreatePathTracer` | src/kernel/vfsl/pathTracer.c:34-130 | the status for every path, and for accepted ones a doubly linked list of its components |
| `PathTracers.ParseParts` | src/kernel/vfsl/pathTracer.c:77-125 | the character loop builds exactly the components of the path |
| `PathTracers.AcceptsExactly` | src/kernel/vfsl/pathTracer.c:80-110 | a path is accepted iff no slash comes first or follows a slash |
| `PathTracers.ParsedShape` | src/kernel/vfsl/pathTracer.c:82-124 | all parts but the last are directories, and the last is a file iff the path has no trailing slash |
| `PathTracers.PathTracer.PathTracerGetPathString` | src/kernel/vfsl/pathTracer.c:144-167 | the buffer holds the printed path, zero-terminated |
| `PathTracers.PathTracer.PathTracerGetFileName` | src/kernel/vfsl/pathTracer.c:169-181 | the name of the last part if it is a file, else null |
| `PathTracers.RoundTrip` | src/kernel/vfsl/pathTracer.c:34-167 | printing what was parsed gives the path back |
| `PathTracers.RoundTripBack` | src/kernel/vfsl/pathTracer.c:34-167 | parsing what was printed gives the components back |
| `PathTracers.PrintParsed` | src/kernel/vfsl/pathTracer.c:80-167 | the same for the part behind the label, from any state of the loop |
| `PathTracers.ParsePrinted` | src/kernel/vfsl/pathTracer.c:80-167 | and for any list of well-formed components |

## Left out

- Drivers: a disk is an array of 512-byte sectors; a read or write succeeds completely or fails and changes nothing. Failures and failed buffer allocations are counted (`faults`), so that contracts can speak about calls without them.
- WriteFatFile: says nothing about FAT and file after a call in which the driver or an allocation failed, because the source drops statuses in its loop, nor after one without enough space, beyond what `ExtendUnchecked` and `FullVolume` say about its first step without a cluster; it asks for positions and sizes below 4 GiB and, when size is 0 inside a cluster, for an input that covers the rest of it.
- WriteFile: looking the file up, the append mode's choice of the position and the update of the directory entry are left out; so is a file without clusters on a full volume where the scan returns an entry behind the tables, which the source then writes to.
- ReadFatFile: the memory behind the caller's buffer must be there for reads that copy more than was asked for; positions behind the chain are covered for volumes whose end lies in front of entry 0x0FFFFFFF, about 1 GiB; a file without clusters for positions in its first cluster. Cluster counts do not wrap at 32 bits.
- ReadFile: the same.
- ReadsExactly: reads that start behind the end of the file are left to `Outcome`, which gives their status.
- AppendCluster: on a full volume it states the bytes that change, not what they come to mean when they lie in the second FAT or in a cluster.
- MakeDirBigger: the same.
- StartChain: the same.
- FindStart: the same.
- Seek, Read, Write: positions do not wrap at 64 bits.
- GetFreeFatEntryCluster: the allocation of the entry buffer never fails in the model; the source would dereference null.
- Directory entries, short-name generation, resolving paths to files, updating the size of a file: start cluster and size of a file are given.
- KzallocBuddy: the free list of a level is what it is meant to be, its FREE entries, and an allocation may take any of them. HAS_ENTRIES, the next and prev links, and the guard of `splitEntryUp` on table addresses are not modelled. Zeroing the memory that is handed out is not modelled.
- KzfreePage: page addresses outside the heap; the range test of `addressToTableIndex` can never hold, so the source reads outside its table for them.
- KzallocPage: the memory that is handed out is not modelled, only which pages it has.
- MapOrCreateRange: ranges above 2 GiB, because the source multiplies page counts as signed 32-bit integers.
- PageTables: physical frames are numbers and may coincide with table pages; `removePageFlag`, TLB and CR3 are left out.
- CreateKernelTable: a failed call does not give the tables below the root back to the allocator; the model stops there. Reading and merging the firmware's memory map is left out.
- CreatePathTracer: a null path; the volume table is a set of labels; for a bare `C:/` the source frees the part its root points to, and the model leaves the root without meaning.
- LongFileNameEntriesToName: the output buffer and the chain are sequences, so their sizes are not checked; the source's chain has room for 12 entries.
- GetCheckSum: takes the 11 characters as given; copying them out of a directory entry is left out.
- Terminal, scheduler, processes, interrupts, boot code and the table of open files.
