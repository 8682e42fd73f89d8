# Bengal Tiger OS kernel: a verified model

This project models the parts of the Bengal Tiger OS kernel that keep data structures in memory or on disk, and proves
what every call, and every run of calls, does to them. Code that changes state in place is modelled by classes and
methods with loops; what those methods compute is stated over plain values, and the main results are lemmas about those
values.

| part | files | source |
|---|---|---|
| FAT12/FAT16 file system | `Bytes`, `FatTable`, `FatChains`, `FatNames`, `FatFiles`, `FatContent`, `FatCatalog`, `FatGrowth`, `FatCapacity`, `FatOperations`, `FatSeeds`, `FatFormat`, `FatVolume` | kernel/fat.c |
| Kernel heap | `Heap` | kernel/heap.c |
| Task scheduler | `Scheduler` | kernel/scheduler.c, kernel/isr.c |
| Frame allocator and page tables | `Pmm`, `Paging` | kernel/paging.c |
| Internet checksum, IPv4, ICMP echo, ARP cache | `NetChecksum`, `NetPackets`, `ArpCache` | kernel/net.c |
| Calculator | `Calc` | kernel/shell.c |
| Editor buffer | `Editor` | kernel/editor.c |

`Common` holds what several parts share. `dafny verify dfyconfig.toml` checks everything.

## What is proved

**File system.** A `Catalog` says which cluster chain each directory slot owns, which slot each 8.3 name has and which
bytes each file holds; `Represents` says that a disk image is laid out that way: all table copies equal, chains acyclic,
ended by an end mark, pairwise disjoint, exactly as long as the sizes call for, and together owning every entry that is
not free. Chains that no slot owns are clusters that were lost. The map of files is determined by the disk
(`CatalogDecided`). Every call is described as a function of two things, the map from names to contents and the number
of lost clusters: whether it succeeds (`Accepts`), what it leaves (`Effect`), and whether it breaks the file it was to
overwrite (`Breaks`). `Perform` shows that each call does just that, and `Replay` that every run of calls does, whether
they succeed or fail, as long as none breaks a file. The reported used count is the number of clusters the files need
and those that were lost. Formatting any disk of at least 64 sectors gives a mounted volume with the geometry the
formatter computed that holds exactly the four seed files and has lost nothing; a run in which every call succeeds under
an unmarked name loses nothing either (`CleanRunLosesNothing`), so after any such run the used count is exactly the sum
over the files of the clusters their sizes need (`CleanSession`). No call writes outside the tables, the directory and
the clusters of the volume, so mounting it again gives the same volume with the same files (`Persists`).

**Heap.** The block list tiles `[base, base + curSize)` in address order, `next` and `prev` are inverse, no two
neighbours are free, and the statistics are exact, after every call. `Live` maps each allocated block to its size, and
each call is specified by what it does to `Live`.

**Scheduler.** `Sound` is the invariant of every reachable state: one ring through the kernel task, distinct process
ids, at most the current task running, two heap blocks for each other task. A ghost history of saved frames pins down
the frame that `Schedule` returns, and the fairness results speak about whole windows of calls.

**Memory.** After `InitMmap`, for any memory map, a frame is free exactly when an available region that ends below 2^64
holds all of it, it ends at or below 0xFFFFF000 and it lies at or above the protected limit; the allocator never hands
out a frame twice. The two levels of page tables act as one map from pages to frames and attribute bits, and each
operation changes that map only where it should.

**Network.** A checksum stored in a zeroed field makes the data verify; every packet sent is taken in, as it was sent,
by exactly the hosts it is meant for; a ping comes back with its identifier, sequence number and data. Over every run of
updates the ARP cache is duplicate free and current, a hit answers what the latest update for the address said, and an
address is lost only when the cache is full and no entry is older.

**Calculator.** The recursive-descent methods compute a parser over the remaining text. On every printed expression that
parser gives the value, reports the error, or stops with a processor exception, exactly as evaluating the tree from left
to right in machine arithmetic does; and it accepts no text that is not such an expression, for any spacing. Machine
arithmetic is compared with the integers: it agrees where everything fits an int, and modulo 2^32 on every expression
without division.

**Editor.** Offsets and (line, column) pairs correspond one to one, vertical moves land on the clamped line, and any run
of keys does to the buffer what it means on the text.

## Where the code does less than one might expect

- A name whose first converted byte is 0xE5 collides with the mark of a deleted entry. A write to it reports success,
  stores no file and loses the clusters it took; renaming a file to it loses the file and its clusters. `WriteFile` and
  `RenameFile` state this, for these names and no others; `MarkedNameExists` gives one.
- A write that fails keeps every file exactly when the file it was to replace is missing or empty, and then loses the
  clusters it took. Otherwise the file it was to replace is broken: its entry still names a first cluster, but it owns
  none (`WriteFile`, `Broken`). No other file is harmed. Overwriting with more bytes than the volume has clusters is such
  a write (`TooLargeBreaks`).
- The size test of `fat_append_file` is right exactly when its 32-bit sum does not wrap to a value that passes the test
  (`AppendTest`).
- Copying or renaming a file to a name that differs only in case reports success without doing anything, even when there
  is no such file (`CopyFile` and `RenameFile` state it).
- The calculator tests a divisor for zero only. Dividing the smallest int by -1 raises a processor exception:
  `0x80000000/-1` does (`TrapExample`). A printed expression does so exactly when evaluating its tree comes to such a
  division (`PrintedEvaluates`).
- After a zero divisor the calculator still carries out the operator in front of it. So `-32768*65536/(-1+1/0)` raises
  the exception instead of reporting the zero divisor, though everything in it fits an int (`UnreportedExample`). Where
  no divisor has a division in it a zero divisor is always reported (`PlainNeverTraps`).
- A zero divisor is reported as a syntax error when more text follows it inside its parentheses (`StatusExamples`;
  `PrintedEvaluates` says which error is reported for every expression).
- A memory region whose end wraps around 64 bits offers no frame, and neither does the last page below 4 GB
  (`OffersMeans`).
- The rounding in `kmalloc` covers the request exactly when the request is at most 2^32 - 8 (`RoundingCovers`), and the
  growth that `heap_expand` computes covers request and header exactly when no 32-bit sum on the way wraps
  (`GrowthCovers`). `Kmalloc` therefore takes requests for which no sum wraps (`NoWrap`).
- `paging_map_region` rounds the virtual and the physical start down separately, so the region translates byte for byte
  exactly when the two have the same offset in their page (`RegionTranslates`).
- The 16-bit checksum does not notice a word changing between 0x0000 and 0xFFFF; it notices every other change of one
  aligned word (`WordChangeSeen`, `CorruptionDropped`).
- The fallback of `scheduler_schedule` to the kernel task is never needed: the kernel task is on the ring and always
  runnable (`SomeoneRuns`).

## Model

| member | source | states |
|---|---|---|
| `FatTable.ReadBack` | kernel/fat.c:341-393 | an entry read after being written gives the value masked to 12 or 16 bits |
| `FatTable.NextKept` | kernel/fat.c:374-384 | the 12-bit entry sharing the high byte of an even entry keeps its value |
| `FatTable.PreviousKept` | kernel/fat.c:374-384 | the 12-bit entry sharing the low byte of an odd entry keeps its value |
| `FatTable.OthersKept` | kernel/fat.c:361-393 | every other entry keeps its value when one is written |
| `FatTable.AllCopiesWritten` | kernel/fat.c:361-393 | writing the one or two patched sectors to each copy patches the whole table, also when an entry straddles a sector boundary |
| `FatTable.TablePatched` | kernel/fat.c:361-393 | patching the bytes changes exactly one element of the sequence of entries |
| `FatTable.EntryWritten` | kernel/fat.c:361-393 | one entry changed and all copies still equal |
| `FatChains.FreeStep` | kernel/fat.c:395-403 | zeroing one more entry of a chain leaves all other chains and owners intact |
| `FatChains.ExtendChain` | kernel/fat.c:405-421 | linking a free cluster behind a chain keeps chains acyclic, disjoint and ended |
| `FatChains.MoveChain` | kernel/fat.c:596-622 | handing a finished chain to a directory slot keeps the chain invariant |
| `FatChains.UsedIsTotalLength` | kernel/fat.c:728-733 | the number of non-free entries is the total length of the chains |
| `FatChains.EmptyChainAdded` | kernel/fat.c:566-594 | a chain that is given up stays accounted for |
| `FatChains.ChainFits` | kernel/fat.c:395-403 | a chain is no longer than the cluster count, so loop guards never cut one short |
| `FatChains.ChainUnique` | kernel/fat.c:512-545 | table and first cluster determine a chain |
| `FatChains.FreedCount` | kernel/fat.c:395-403 | freeing a chain gives back exactly its clusters |
| `FatNames.NameRoundTrip` | kernel/fat.c:423-464 | every printed name converts back to the 11 bytes it came from |
| `FatNames.FatNameValid` | kernel/fat.c:423-450 | a converted name is an upper-case padded stem and extension with a first byte that is not 0 |
| `FatNames.FatNameIgnoresCase` | kernel/fat.c:675-698 | names equal but for case convert to the same 11 bytes, or neither converts |
| `FatNames.UpperByteMeans` | kernel/fat.c:423-450 | two bytes have one upper-case form exactly when they are the same or the two cases of a letter, 0x20 apart |
| `FatNames.UpperMeans` | kernel/fat.c:675-698 | two names have one upper-case form exactly when they are equal but for case, byte for byte |
| `FatNames.AnyCaseParses` | kernel/fat.c:423-450 | a stem and an extension joined by a dot, written in any case, convert to the two padded with spaces |
| `FatNames.CopyStem` | kernel/fat.c:431-436 | the stem loop computes the padded upper-case stem, or reports a bad character |
| `FatNames.CopyExtension` | kernel/fat.c:439-448 | the extension loop computes the padded upper-case extension |
| `FatNames.FilenameToFat` | kernel/fat.c:423-450 | the conversion equals its specification on every string |
| `FatNames.FatNameToStr` | kernel/fat.c:452-464 | the printed name equals its specification on every entry name |
| `FatFiles.WithFileFields` | kernel/fat.c:596-604 | rewriting an entry's cluster, size and attribute reads back and keeps the name |
| `FatFiles.DirectoryUpdate` | kernel/fat.c:596-622 | writing one slot of a directory sector changes exactly one directory entry |
| `FatFiles.DirectoryWriteKeeps` | kernel/fat.c:596-622 | a directory write leaves the table and all cluster contents alone |
| `FatContent.ChunksFlatten` | kernel/fat.c:576-584 | the sectors written one by one hold the buffer, padded with zeros |
| `FatContent.ChainGrown` | kernel/fat.c:566-594 | filling the last cluster extends the content a chain holds |
| `FatContent.ChainComplete` | kernel/fat.c:566-594 | a chain that took in the whole buffer stores it in exactly ceil(size / cluster bytes) clusters |
| `FatContent.ReadSoFar` | kernel/fat.c:512-545 | after i clusters the bytes read are the first bytes of the content |
| `FatGrowth.GrowthExtended` | kernel/fat.c:566-594 | a newly allocated cluster joins the chain under construction and nothing else changes |
| `FatGrowth.GrowthFilled` | kernel/fat.c:566-594 | filling the last cluster disturbs no file |
| `FatGrowth.GrowthRepresents` | kernel/fat.c:566-594 | while a write is under way every file is still represented |
| `FatGrowth.ClusterFilled` | kernel/fat.c:566-594 | after a cluster is filled either all bytes are stored or the chain is full |
| `FatGrowth.NextReady` | kernel/fat.c:566-594 | the loop of a write is ready for its next cluster |
| `FatGrowth.AllUsed` | kernel/fat.c:405-421 | allocation fails only when every cluster is in use |
| `FatCatalog.ChainFreed` | kernel/fat.c:395-403 | freeing one file's chain leaves every other file represented |
| `FatCatalog.FileOverwritten` | kernel/fat.c:596-604 | the overwritten file has the new bytes, all other files are as before |
| `FatCatalog.FileCreated` | kernel/fat.c:606-622 | the new file is added, all other files are as before |
| `FatCatalog.FileDeleted` | kernel/fat.c:656-671 | the file is gone, all other files are as before |
| `FatCatalog.FileRenamed` | kernel/fat.c:696-713 | the content moves to the new name, all other files are as before |
| `FatCatalog.MarkedStored` | kernel/fat.c:606-622 | storing a name that starts with 0xE5 leaves every file as it was |
| `FatCatalog.FileRenamedAway` | kernel/fat.c:696-713 | renaming to a name that starts with 0xE5 removes the file and leaves its chain to nobody |
| `FatCatalog.PendingAbandoned` | kernel/fat.c:566-594 | a chain that a write gives up is lost and harms no file |
| `FatCatalog.EmptyAgain` | kernel/fat.c:556-569 | an empty file survives a write that fails |
| `FatCatalog.UsedIsSumOfFiles` | kernel/fat.c:728-733 | used clusters are the sum over the slots of what the sizes need, and what was lost |
| `FatCatalog.ListedCount` | kernel/fat.c:744-777 | there are as many listed names as files |
| `FatCatalog.ListedNamesFind` | kernel/fat.c:760-777 | every listed name finds the file it came from, and every file is listed |
| `FatCatalog.CatalogDecided` | kernel/fat.c:466-545 | a disk represents at most one map of files |
| `FatCatalog.ContentBound` | kernel/fat.c:547-626 | no file is larger than its volume |
| `FatCatalog.BlankRepresents` | kernel/fat.c:280-309 | a freshly formatted disk represents the empty map |
| `FatCapacity.DemandWithout` | kernel/fat.c:728-733 | the clusters a set of files needs can be summed in any order |
| `FatCapacity.DemandIsUsed` | kernel/fat.c:728-733 | used clusters equal the demand of the files and what was lost; the directory is full exactly when there are as many files as slots |
| `FatCapacity.RoomMeans` | kernel/fat.c:405-421 | room for a write is decided by the geometry, the map of files and the number of lost clusters |
| `FatOperations.AppendTest` | kernel/fat.c:636-637 | the 32-bit size test of an append is right exactly when the sum does not wrap to a value that passes |
| `FatOperations.TooLargeBreaks` | kernel/fat.c:556-594 | overwriting a file that is not empty with more bytes than the volume has clusters breaks it |
| `FatOperations.CleanRunLosesNothing` | kernel/fat.c:512-713 | a run in which every call that writes succeeds, under an unmarked name, breaks no file and loses no cluster |
| `FatOperations.AcceptedIsClean` | kernel/fat.c:512-713 | a run in which every call succeeds and no name is marked is such a run |
| `FatSeeds.FourSeeds` | kernel/fat.c:160-188 | the seed files are four files with different names and the contents given |
| `FatSeeds.SeedsSpelled` | kernel/fat.c:160-188 | the four names and the fixed content, spelled out |
| `FatSeeds.SeedFits` | kernel/fat.c:160-188 | eight clusters and four slots have room for the four seed files |
| `FatFormat.PlanSound` | kernel/fat.c:199-234 | for every disk of at least 64 sectors the table has room for every entry, the data area ends inside the disk and no cluster number reaches the end threshold |
| `FatFormat.PlanSteps` | kernel/fat.c:207-216 | cluster size and directory size grow with the disk, in exactly these steps |
| `FatFormat.TableSize` | kernel/fat.c:219-227 | a table copy has the fewest sectors that hold an entry for each cluster estimated and for two more |
| `FatFormat.FinalBounds` | kernel/fat.c:199-234 | the exact cluster count is between 1 and the estimate, and below the FAT32 limit |
| `FatFormat.EightClusters` | kernel/fat.c:199-234 | every disk of at least 64 sectors has room for eight clusters |
| `FatFormat.FormatMounts` | kernel/fat.c:93-134 | the boot sector that formatting writes mounts with the planned geometry |
| `FatFormat.ValidBlocks` | kernel/fat.c:93-109 | exactly which boot sectors are accepted, field by field |
| `FatFormat.LayoutInOrder` | kernel/fat.c:116-131 | the parts of a mounted volume follow one another, the directory has the fewest sectors that hold the entries promised, and the clusters fill what is left up to the last that fits |
| `FatFormat.BootSectorFields` | kernel/fat.c:236-275 | the fields of the boot sector that the driver itself does not read |
| `FatFormat.TextsSpelled` | kernel/fat.c:240-275 | the texts in the boot sector, spelled out |
| `FatFormat.MountableTotalsFit` | kernel/fat.c:734-736 | the byte totals of any volume that mounts fit 32 bits |
| `FatVolume.ReportExact` | kernel/fat.c:715-758 | the totals in the file system report are exact, without wrap |
| `FatVolume.PlannedBlank` | kernel/fat.c:280-311 | what the loops of formatting write is a blank volume of the planned geometry |
| `FatVolume.StoredEntryIsFile` | kernel/fat.c:606-622 | the stored entry value is a file exactly when the name does not start with 0xE5; WriteFile states it of the call |
| `FatVolume.HeldNameUnmarked` | kernel/fat.c:466-494 | no volume holds a file whose name starts with 0xE5 |
| `FatVolume.MarkedNameExists` | kernel/fat.c:423-450 | the one-byte name 0xE5 is accepted and marked |
| `FatTable.EndMarks` | kernel/fat.c:85-91 | the last eight values of an entry end a chain, and the last of all is the one written |
| `FatTable.DirectoryInside` | kernel/fat.c:596-622 | writing a directory sector changes nothing outside the volume's tables, directory and clusters |
| `FatFiles.ExceptInside` | kernel/fat.c:405-421 | neither does changing the table and a cluster |
| `FatVolume.Volume.GetFatEntry` | kernel/fat.c:341-359 | reads element c of the table |
| `FatVolume.Volume.SetFatEntry` | kernel/fat.c:361-393 | updates element c, keeps the copies equal and everything outside the table |
| `FatVolume.Volume.FreeClusterChain` | kernel/fat.c:395-403 | zeroes exactly the entries of the chain |
| `FatVolume.Volume.AllocateCluster` | kernel/fat.c:405-421 | takes the first free cluster, end-marked and zeroed; fails only when none is free |
| `FatVolume.Volume.FillCluster` | kernel/fat.c:576-584 | fills one cluster from the buffer and changes no other sector |
| `FatVolume.Volume.AppendCluster` | kernel/fat.c:585-589 | allocates and links the next cluster, or changes nothing |
| `FatVolume.Volume.WriteData` | kernel/fat.c:566-594 | stores the buffer exactly when enough clusters are free, and takes all there are otherwise; no file is disturbed either way |
| `FatVolume.Volume.FindDirent` | kernel/fat.c:466-494 | finds the entry the catalogue holds under the name, and only that |
| `FatVolume.Volume.ReadFile` | kernel/fat.c:512-545 | returns the length of the file and its first maxLen bytes, or -1 when there is none |
| `FatVolume.Volume.ReleaseOld` | kernel/fat.c:558-563 | frees the chain of the file to be replaced |
| `FatVolume.Volume.StoreExisting` | kernel/fat.c:596-604 | completes an overwrite |
| `FatVolume.Volume.FindFreeSlot` | kernel/fat.c:607-612 | finds the first slot that is unused or deleted |
| `FatVolume.Volume.StoreNew` | kernel/fat.c:606-622 | completes the creation of a file, or fails with a full directory |
| `FatVolume.Volume.Create` | kernel/fat.c:547-626 | a write to a name not on file: the file is there afterwards, or every file is as before and the clusters taken are lost |
| `FatVolume.Volume.Overwrite` | kernel/fat.c:547-604 | a write to a file: replaced, or kept when it was empty, or broken; no other file changes |
| `FatVolume.Volume.WriteFile` | kernel/fat.c:547-626 | exact success condition; then exactly this file changed, and it is held exactly when its name does not start with 0xE5; what a failing call leaves |
| `FatVolume.Volume.AppendFile` | kernel/fat.c:628-654 | the file holds its old bytes followed by the new ones; exact success condition; what a failing call leaves |
| `FatVolume.Volume.DeleteFile` | kernel/fat.c:656-671 | removes exactly this file, and fails without change when there is none |
| `FatVolume.Volume.CopyFile` | kernel/fat.c:673-694 | the target holds the bytes of the source; exact success condition; what a failing call leaves; no change for names that differ in case only |
| `FatVolume.Volume.RenameFile` | kernel/fat.c:696-713 | the content moves to the new name, or is lost under a name that starts with 0xE5; exact success condition; no change otherwise |
| `FatVolume.Volume.Relabel` | kernel/fat.c:704-712 | rewriting the name in an entry moves the file, or loses it with its clusters |
| `FatVolume.Volume.CountUsed` | kernel/fat.c:728-733 | counts the non-free entries |
| `FatVolume.Volume.CountFiles` | kernel/fat.c:744-758 | counts the files |
| `FatVolume.Volume.GetFsInfo` | kernel/fat.c:715-758 | used clusters are what the files need and what was lost, and all totals are exact |
| `FatVolume.Volume.Enumerate` | kernel/fat.c:760-777 | lists the names in slot order, each finding its file again |
| `FatVolume.Volume.MountAt` | kernel/fat.c:111-134 | takes over the geometry of a valid boot sector, exactly when there is one with 1 to 65524 clusters |
| `FatVolume.Volume.LayOut` | kernel/fat.c:278-309 | the boot sector is in place and the tables and the directory are blank |
| `FatVolume.Volume.FormatEmpty` | kernel/fat.c:190-311 | every disk of at least 64 sectors becomes a mounted volume of the planned geometry without files or lost clusters |
| `FatVolume.Volume.SeedDefaultFiles` | kernel/fat.c:160-188 | all four seed writes succeed |
| `FatVolume.Volume.Format` | kernel/fat.c:190-315 | every disk of at least 64 sectors becomes a mounted volume of the planned geometry with exactly the four seed files and no lost cluster |
| `FatVolume.Volume.Perform` | kernel/fat.c:547-713 | success, effect and breakage of one call are exactly those its description as a function of the files gives, and nothing outside the volume's tables, directory and clusters changes |
| `FatVolume.Volume.Replay` | kernel/fat.c:512-713 | every run of calls, failing ones and marked names included, leaves exactly the files the calls describe, as long as none breaks a file |
| `FatVolume.Volume.Restart` | kernel/fat.c:136-140 | mounting a disk whose boot sector describes the volume it holds finds that volume, whatever the driver has in memory |
| `FatVolume.Volume.Persists` | kernel/fat.c:136-140 | after formatting and any run of calls that breaks no file, mounting with nothing left in memory gives exactly the files the calls describe |
| `FatVolume.Volume.CleanSession` | kernel/fat.c:728-733 | after formatting and any clean run the used count is the sum over the files of the clusters they need: nothing leaks |
| `Heap.LivePayloadsDisjoint` | kernel/heap.c:52-175 | live payloads are pairwise disjoint and inside the heap |
| `Heap.SplitTiled` | kernel/heap.c:63-86 | splitting keeps the tiling and the links inverse |
| `Heap.SplitEffect` | kernel/heap.c:63-86 | splitting a free block costs one header of free space |
| `Heap.MergeTiled` | kernel/heap.c:88-108 | merging with a free successor keeps the tiling and the links inverse |
| `Heap.MergeEffect` | kernel/heap.c:88-108 | merging gives one header of free space back |
| `Heap.AppendEffect` | kernel/heap.c:110-142 | a block appended at the end keeps the tiling |
| `Heap.Accounting` | kernel/heap.c:63-175 | used + free + blocks times header equals the total |
| `Heap.AllFreeIsOneBlock` | kernel/heap.c:88-108 | with nothing allocated the heap is one free block |
| `Heap.RoundingCovers` | kernel/heap.c:144-150 | 32-bit rounding covers the request exactly when it is at most 2^32 - 8 |
| `Heap.GrowthCovers` | kernel/heap.c:110-116 | the 32-bit growth of the heap covers request and header exactly when no sum wraps |
| `Heap.KernelHeap.StatisticsAddUp` | kernel/heap.c:267-273 | in every state the statistics add up, and no allocations means one free block |
| `Heap.KernelHeap.InitAt` | kernel/heap.c:25-46 | one free block covers the initial size |
| `Heap.KernelHeap.FindFreeBlock` | kernel/heap.c:52-61 | the first free block that fits, or none fits |
| `Heap.KernelHeap.SplitBlock` | kernel/heap.c:63-86 | the block keeps exactly the size asked for when the remainder can hold a block, and all of it otherwise; nothing live changes |
| `Heap.KernelHeap.Coalesce` | kernel/heap.c:88-108 | no two neighbours are free afterwards and nothing live changes |
| `Heap.KernelHeap.GrowBy` | kernel/heap.c:122-142 | new memory joins the heap as free space |
| `Heap.KernelHeap.Expand` | kernel/heap.c:110-142 | succeeds exactly when the limit leaves request and header; then some free block fits, and the heap has grown by the fewest whole megabytes that hold them, or up to the limit where that is less |
| `Heap.KernelHeap.Kmalloc` | kernel/heap.c:144-175 | NULL exactly when nothing fits and the limit is reached; otherwise one new block is live: the first that fits, given whole unless the rest can hold a block; the heap grows only when none fits, by the fewest whole megabytes |
| `Heap.KernelHeap.Kfree` | kernel/heap.c:204-246 | frees exactly the block given; NULL, foreign pointers and listed blocks that are free change nothing |
| `Heap.KernelHeap.Krealloc` | kernel/heap.c:248-265 | kept, moved to a larger block, freed or left alone, with the exact condition for each |
| `Scheduler.RingWithout` | kernel/scheduler.c:180-190 | unlinking a task leaves one ring |
| `Scheduler.RingExtended` | kernel/scheduler.c:105-111 | appending a task leaves one ring |
| `Scheduler.ReapedSound` | kernel/scheduler.c:180-190 | reaping a zombie gives back its two blocks, once, and keeps the invariant |
| `Scheduler.SavedSound` | kernel/scheduler.c:177 | saving the current frame keeps the invariant |
| `Scheduler.SwitchSound` | kernel/scheduler.c:206-212 | switching keeps the invariant |
| `Scheduler.KilledSound` | kernel/scheduler.c:130-151 | killing keeps the invariant |
| `Scheduler.CreatedSound` | kernel/scheduler.c:53-111 | creating a task keeps the invariant |
| `Scheduler.SoundMeans` | kernel/scheduler.c:23-51 | distinct process ids, the kernel task no zombie, only the current task running, stacks not shared |
| `Scheduler.TwoBlocksEach` | kernel/scheduler.c:53-71 | each task but the kernel's owns exactly two blocks and the scheduler holds no others |
| `Scheduler.RestKept` | kernel/scheduler.c:180-198 | reaping keeps the order in which the others follow the current task |
| `Scheduler.RestMoved` | kernel/scheduler.c:193-212 | the order of the ring as seen from the task switched to |
| `Scheduler.WalkNext` | kernel/scheduler.c:193-198 | following next links visits every other task once and returns |
| `Scheduler.AfterReap` | kernel/scheduler.c:180-190 | what reaping does to the order and states |
| `Scheduler.SomeoneRuns` | kernel/scheduler.c:200-204 | selection from a zombie always finds another task; the fallback is not needed |
| `Scheduler.StepCloser` | kernel/scheduler.c:174-215 | one schedule call runs a ready task or brings it nearer |
| `Scheduler.ReadyTaskRuns` | kernel/scheduler.c:179-215 | a ready task runs within its ring distance, whatever kills and exits come between |
| `Scheduler.ReadyTaskWaits` | kernel/scheduler.c:192-198 | a ready task of a sound state stands at its ring distance |
| `Scheduler.RotatesByOne` | kernel/scheduler.c:193-215 | with all tasks live a call rotates the order by one |
| `Scheduler.EachRunsOnce` | kernel/scheduler.c:179-215 | n live tasks each run exactly once in every n consecutive calls |
| `Scheduler.NoZombiesAllLive` | kernel/scheduler.c:179-215 | a sound state without zombies is one in which all tasks are live |
| `Scheduler.Scheduler.Init` | kernel/scheduler.c:23-38 | the kernel task alone, running, with process id 0 |
| `Scheduler.Scheduler.CountTasks` | kernel/scheduler.c:157-172 | walks the ring once and counts it |
| `Scheduler.Scheduler.ReapTask` | kernel/scheduler.c:184-188 | both blocks are held when they are freed |
| `Scheduler.Scheduler.Reap` | kernel/scheduler.c:180-190 | removes exactly the zombies other than the current task |
| `Scheduler.Scheduler.Select` | kernel/scheduler.c:193-198 | the first runnable task after the current one, or the current one |
| `Scheduler.Scheduler.Schedule` | kernel/scheduler.c:174-215 | returns the frame last saved for the task that now runs; frees neither that task nor the executing one, and charges no time |
| `Scheduler.Scheduler.Tick` | kernel/scheduler.c:217-223 | counts the tick, charges it to the interrupted task and to no other, saves its frame and schedules |
| `Scheduler.Scheduler.SysExit` | kernel/isr.c:34-42 | every task but the kernel's becomes a zombie, its frame is saved and it gives up the processor |
| `Scheduler.Scheduler.SysYield` | kernel/isr.c:70-72 | saves the frame of the calling task and schedules |
| `Scheduler.Scheduler.Kill` | kernel/scheduler.c:130-151 | marks the one live task with the process id, if there is one |
| `Scheduler.Scheduler.Create` | kernel/scheduler.c:40-117 | creates a task exactly when there is room and both blocks could be had; otherwise gives back what it took; the new task is ready, last in the ring, with the next process id, its stack and its first frame, and no other task changes but for links |
| `Pmm.CountMarked` | kernel/paging.c:33-51 | marking one frame moves the count by one |
| `Pmm.OffersMeans` | kernel/paging.c:96-132 | the frames freed for a region are exactly those it holds wholly and that end at or below 0xFFFFF000; none when its end wraps |
| `Pmm.SomeAvailable` | kernel/paging.c:95-114 | the fallback is taken exactly when the map holds no frame |
| `Pmm.TouchedMeans` | kernel/paging.c:53-62 | a page is touched exactly when it begins below the end of the region, cut off at 4 GB, and ends above its base |
| `Pmm.FrameAllocator.SetUsed` | kernel/paging.c:33-41 | marks the frame and keeps the count exact |
| `Pmm.FrameAllocator.SetFree` | kernel/paging.c:43-51 | clears the frame; the count stays exact below the end of memory |
| `Pmm.FrameAllocator.ReserveRegion` | kernel/paging.c:53-62 | marks every frame that the region touches and no other |
| `Pmm.FrameAllocator.Init` | kernel/paging.c:64-83 | frames from the protected limit up are free, all others used |
| `Pmm.FrameAllocator.InitMmap` | kernel/paging.c:85-141 | a frame is free exactly when an available region holds all of it, it ends at or below 0xFFFFF000 and it lies at or above the protected limit; the fallback when the map holds none |
| `Pmm.FrameAllocator.AllocFrame` | kernel/paging.c:143-164 | the lowest free frame, not in anyone's hands, or 0 when none is free |
| `Pmm.FrameAllocator.FreeFrame` | kernel/paging.c:166-173 | takes a frame back; the allocator stays sound exactly when the frame may be handed out or lies past the end of memory |
| `Paging.EntryParts` | kernel/paging.c:265 | a table entry leads to the frame, is present, and has the attribute bits of the flags otherwise |
| `Paging.DirEntryParts` | kernel/paging.c:259-261 | a directory entry leads to the table, is present and writable, and has the user and cache bits of the flags and no other |
| `Paging.WriteEntry` | kernel/paging.c:265 | writing one table entry changes the translation and the attributes of one page, because no table is shared |
| `Paging.EnterTable` | kernel/paging.c:259-262 | entering an empty table changes no translation and shares none |
| `Paging.RegionTranslates` | kernel/paging.c:269-279 | every byte of a mapped region translates to its place exactly when the page offsets are equal |
| `Paging.AddressSpace.AllocPageTable` | kernel/paging.c:193-212 | a table no entry uses, exactly when the pool or a free frame below 32 MB has one; otherwise nothing changes |
| `Paging.AddressSpace.IdentityTable` | kernel/paging.c:232-235 | a table that maps 4 MB onto itself |
| `Paging.AddressSpace.Install` | kernel/paging.c:214-240 | exactly the first 32 MB are mapped, each page onto itself, present and writable |
| `Paging.AddressSpace.Map` | kernel/paging.c:250-267 | one page changes its translation and its attribute bits, to those of the flags with bit 0 set, exactly when a table is there or can be had; otherwise nothing changes; a new directory entry has bits 0 and 1 set and the user and cache bits of the flags |
| `Paging.AddressSpace.MapRegion` | kernel/paging.c:269-279 | the pages are mapped in order with the attribute bits of the flags, others are untouched, and every new directory entry has its bits; it succeeds exactly when the pool and the free frames below 32 MB have a table for every 4 MB stretch that lacks one, and every byte then translates to its place exactly when the page offsets are equal |
| `Paging.AddressSpace.Unmap` | kernel/paging.c:281-292 | one page loses its translation, others keep theirs and their attribute bits |
| `Paging.AddressSpace.GetPhysical` | kernel/paging.c:294-306 | the translation of an address, 0 when not mapped, the address itself before installation |
| `NetChecksum.FoldMeans` | kernel/net.c:136-138 | folding keeps the residue modulo 65535 and maps only zero to zero |
| `NetChecksum.SumBound` | kernel/net.c:127-135 | the sum of n words is at most n times 65535 |
| `NetChecksum.Compute` | kernel/net.c:123-140 | up to 131074 bytes the 32-bit sum does not wrap and the result is the Internet checksum |
| `NetChecksum.VerifiesWhen` | kernel/net.c:697 | data verifies exactly when its words add up to a positive multiple of 65535 |
| `NetChecksum.StoredVerifies` | kernel/net.c:337-348 | storing the checksum in its zeroed, aligned field makes the whole verify |
| `NetChecksum.WordChangeSeen` | kernel/net.c:697 | a change of one aligned word is missed only between 0x0000 and 0xFFFF |
| `NetPackets.SendIpv4` | kernel/net.c:322-351 | builds the packet, or refuses what exceeds 1500 bytes |
| `NetPackets.HandleIpv4` | kernel/net.c:686-722 | takes in exactly what passes the header gates and is addressed to the host, and learns the address of a local sender of whatever passes the gates |
| `NetPackets.LocalMeans` | kernel/net.c:702-708 | a sender counts as local exactly when no bit that the mask covers differs |
| `NetPackets.Arrives` | kernel/net.c:337-348 | every packet sent passes the gates with its addresses, protocol and payload, whatever padding follows |
| `NetPackets.Delivered` | kernel/net.c:710-713 | a packet is taken in, as it was sent, by exactly the hosts it is meant for |
| `NetPackets.CorruptionDropped` | kernel/net.c:697 | a sent header with one changed word behind the length is dropped, except between 0x0000 and 0xFFFF |
| `NetPackets.ReplyMeans` | kernel/net.c:599-607 | an echo reply verifies and keeps identifier, sequence number and data |
| `NetPackets.HandleIcmp` | kernel/net.c:594-616 | a reply is built exactly for the echo requests that fit a packet, and a pending ping is answered exactly by an echo reply with its identifier and sequence number |
| `NetPackets.PingAnswered` | kernel/net.c:594-616 | a ping there and back between two hosts through both packet layers and their address filters: answered exactly when the pinged host is configured, and the answer matches the pending ping |
| `ArpCache.ChosenUnique` | kernel/net.c:207-234 | the slot an update goes to is determined by the contents |
| `ArpCache.Cache.Learn` | kernel/net.c:207-234 | refreshes the entry of the address, else takes the first free slot, else the first oldest; over the whole history of updates the cache stays duplicate free and every entry has the hardware address and the tick of the latest update for its address |
| `ArpCache.Cache.Lookup` | kernel/net.c:236-244 | hits exactly when the address is held, and then answers what the latest update for it said |
| `ArpCache.StepKeeps` | kernel/net.c:207-234 | an update keeps the cache duplicate free and up to date |
| `ArpCache.RunCorrect` | kernel/net.c:207-244 | over every run no address is held twice and every entry has the hardware address and the tick of the latest update for its address |
| `ArpCache.LatestMeans` | kernel/net.c:207-234 | the latest update for an address is one for it behind which there is no other |
| `ArpCache.LostOnlyIfOldest` | kernel/net.c:210-233 | an address is lost only to a new one, in a full cache, when no entry is older |
| `ArpCache.NothingLost` | kernel/net.c:207-244 | while at most sixteen addresses were seen every one of them is held |
| `Calc.QuotientTruncates` | kernel/shell.c:600-601 | the quotient and the remainder make up the dividend, and the remainder is smaller than the divisor and has the sign of the dividend |
| `Calc.DivisionUnique` | kernel/shell.c:600-601 | no other quotient and remainder do |
| `Calc.DigitsMean` | kernel/shell.c:563-582 | the digits of either base, their values, and the two blanks |
| `Calc.FaultIsOverflow` | kernel/shell.c:600-601 | a division by something other than zero faults exactly when its quotient is no int |
| `Calc.Calculator.SkipBlanks` | kernel/shell.c:546-548 | skips exactly the blanks |
| `Calc.Calculator.ParseFactor` | kernel/shell.c:550-587 | computes the factor parser on the remaining text, up to a processor exception |
| `Calc.Calculator.ParseLiteral` | kernel/shell.c:563-587 | computes the literal parser, decimal and hexadecimal |
| `Calc.Calculator.ParseTerm` | kernel/shell.c:589-605 | computes the term parser on the remaining text, up to a processor exception |
| `Calc.Calculator.ParseExpr` | kernel/shell.c:607-619 | computes the expression parser on the remaining text, up to a processor exception |
| `Calc.Calculator.Evaluate` | kernel/shell.c:1525-1528 | value and final error of a whole text, or the processor exception |
| `Calc.FactorReads` | kernel/shell.c:550-587 | a printed factor is read up to its end with its value, or stops with the error or the exception its evaluation gives |
| `Calc.TermReads` | kernel/shell.c:589-605 | a printed term is read up to its end with its value, or stops with the error or the exception its evaluation gives |
| `Calc.ExprReads` | kernel/shell.c:607-619 | a printed expression is read up to its end with its value, or stops with the error or the exception its evaluation gives |
| `Calc.PrintedEvaluates` | kernel/shell.c:1525-1528 | a printed tree gives its machine value, or the error its evaluation runs into, or traps, exactly when evaluating the tree does |
| `Calc.MachineExact` | kernel/shell.c:546-619 | where all intermediate results fit an int evaluation gives the value in the integers, with division fixed by its law, and no value where there is none |
| `Calc.WrapMeans` | kernel/shell.c:596-599 | wrapping gives the one int that differs by a multiple of 2^32 |
| `Calc.MachineWraps` | kernel/shell.c:546-619 | without division evaluation gives the value in the integers modulo 2^32, whether anything fits an int or not |
| `Calc.DivisionFreeEvaluates` | kernel/shell.c:546-619 | every expression tree without division, with any spacing, evaluates to its value modulo 2^32 |
| `Calc.ParenthesizedMeans` | kernel/shell.c:554-561 | adding the parentheses a tree needs keeps its value and its exceptions, and adds none where none are needed |
| `Calc.EveryExpressionEvaluates` | kernel/shell.c:546-619 | every expression tree in range, with any spacing, evaluates to its exact value; with a zero divisor to an error, or an exception exactly when its evaluation does |
| `Calc.PlainNeverTraps` | kernel/shell.c:589-605 | in range, and with no division inside a divisor, there is no exception |
| `Calc.TrapExample` | kernel/shell.c:598-601 | 0x80000000/-1 raises the exception |
| `Calc.UnreportedExample` | kernel/shell.c:598-601 | a zero divisor inside a divisor can raise the exception instead of being reported |
| `Calc.StatusExamples` | kernel/shell.c:556-561 | the same zero divisor is reported as such or as a syntax error |
| `Calc.FactorAccepted` | kernel/shell.c:550-587 | a factor accepted without error is a printed factor with that value |
| `Calc.ExprAccepted` | kernel/shell.c:607-619 | an expression accepted without error is a printed expression with that value |
| `Calc.AcceptsExactly` | kernel/shell.c:1525-1528 | a text evaluates to v without error exactly when it is a printed expression that evaluates to v |
| `Editor.LinesJoin` | kernel/editor.c:31-43 | the lines of a text joined give the text back |
| `Editor.OffsetRecovered` | kernel/editor.c:31-63 | start of the line plus column is the offset |
| `Editor.PlaceRecovered` | kernel/editor.c:31-63 | every line and column within the line is an offset with that line and column |
| `Editor.StretchInLine` | kernel/editor.c:65-69 | the stretch up to the next break is the rest of the line |
| `Editor.MovedPlace` | kernel/editor.c:71-84 | a vertical move ends on the clamped line at the smaller of column and line length |
| `Editor.ClampedNearest` | kernel/editor.c:75-77 | clamping picks the existing line nearest to the one asked for |
| `Editor.DeleteForward` | kernel/editor.c:110-117 | delete takes out the character at the cursor, which typing it again puts back, and does nothing at the end |
| `Editor.BackspaceUndoes` | kernel/editor.c:86-108 | backspace undoes an insert exactly when it was not refused, or the cursor is at the start |
| `Editor.Typed` | kernel/editor.c:86-98 | typing a word that fits puts it in front of the cursor |
| `Editor.EditorState.GetLineCol` | kernel/editor.c:31-43 | line and column of an offset |
| `Editor.EditorState.TotalLines` | kernel/editor.c:45-51 | the number of lines |
| `Editor.EditorState.LineStart` | kernel/editor.c:53-63 | the start of a line, clamped at both ends |
| `Editor.EditorState.LineEnd` | kernel/editor.c:65-69 | the next break, or the end of the text |
| `Editor.EditorState.MoveVertical` | kernel/editor.c:71-84 | moves the cursor as specified and keeps the text |
| `Editor.EditorState.InsertChar` | kernel/editor.c:86-98 | inserts in place with the terminator kept, or refuses a full buffer |
| `Editor.EditorState.EraseBefore` | kernel/editor.c:100-108 | removes the character before the cursor in place |
| `Editor.EditorState.EraseAfter` | kernel/editor.c:110-117 | removes the character at the cursor in place |
| `Editor.EditorState.Replay` | kernel/editor.c:71-117 | any run of keys does to the buffer what it means on the text |

## Left out

- Devices, port I/O, interrupts and inline assembly: hardware behaviour is not in the files. The disk is a sequence of sectors without read errors; ticks, initial frames and the answers of the allocator to its callers are parameters.
- FAT: MBR scanning, foreign volumes, long names, subdirectories and the volume label in reports; the texts of three seed files are parameters of at most 1024 bytes; they add cases outside the volumes that formatting makes.
- FatVolume.Volume.Replay: a run that breaks a file is followed up to and including the call that breaks it, by Perform; what later calls do with a broken file is not modelled, because its entry may name a cluster of another file by then.
- FatVolume.Volume.AppendFile: a sum of size and length that wraps to a value that passes the size test is excluded, because the copy then runs past its buffer; AppendTest states exactly which sums these are. Perform and Replay ask for less than 0xC0000000 appended bytes, which keeps clear of them.
- Heap: kmalloc_aligned and pointers from it, because the two pointer kinds are told apart only by a word that may hold old bytes; kzalloc and the copied payload bytes; block magics.
- Heap.KernelHeap.Kmalloc: requests whose 32-bit sums would wrap are excluded by NoWrap; RoundingCovers and GrowthCovers state exactly when the arithmetic is right.
- Heap.KernelHeap.Kfree: a pointer inside the heap must belong to a block of the list, since the code reads the header in front of it; the header of a block that was merged away may have been overwritten by a later owner.
- Scheduler: the words of a task's first stack frame (a frame is a token), names, sleep and wake-up; scheduler_yield and task_exit enter through their system calls.
- Paging: the translation cache, cr3 and cr0; flags of 4096 and more; regions whose end wraps around 32 bits.
- Network: DHCP, UDP, routing, ARP resolution and the Ethernet layer, and the counters of received packets; the DHCP lease flow accepts an offer without an acknowledgement, so it has no clean safety statement.
- Calc: sums and products that leave the range of an int wrap, as the i386 instructions do, although C leaves them undefined; which texts that are no expressions raise an exception is not characterised; the value printed by the command is not modelled.
- Editor: scrolling, drawing, loading and saving; the sum of the line number and a vertical distance is not limited to 32 bits.
- Shell, desktop, console, logging, string helpers and ring buffers: user interface or easy members.
