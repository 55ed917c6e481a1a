# Verified models of the kernel's core services

A Dafny model of four services of the 64-bit kernel and of two supporting ones, with proofs of what they
promise. Every operation that updates state in place is a method of a class over that state, proved against a
function or relation on values; the promises are lemmas about those functions and invariants of those classes.

- **Buddy allocator** (`Words`, `Shift`, `Bytes`, `BuddyBlocks`, `BuddyHeap`, `DynamicMemory`). A heap is a set of free
  blocks and a map of live blocks over an arena of N units, N arbitrary. `BuddyBlocks` proves that a coalesced
  free set is canonical; `BuddyHeap` specifies allocating and freeing and proves tiling, round trips and
  independence of order over all runs; `DynamicMemory` proves the bitmaps, counts, level array, split loop,
  merge loop and skipping search against that specification, with block sizes in the code's own arithmetic.
- **Write-back cache** (`Sequences`, `CacheModel`, `CacheManager`, `CachedDisk`). `CacheModel` specifies an area of
  the disk behind a cache as a function of which disk calls succeed, and proves that over every run a read returns
  the data last written. `CacheManager` is the entry table with its clock, bubble sort and renumbering;
  `CachedDisk` is the read, write, eviction and flush code. A ghost counter of refused disk calls makes success
  exact: an operation succeeds if and only if no disk call it made was refused.
- **File layer** (`ClusterChains`, `FileImage`, `LinkTable`, `FileState`, `FileSystem`, `AbstractFiles`, `OpenFiles`,
  `FileScenarios`, `DiskStore`). The link table is shown to hold exactly one chain per directory entry, chains are
  disjoint and as long as the recorded sizes demand, and a handle's cursor stands where its offset says. Reading is
  slicing and writing is splicing the file's bytes. `OpenFiles` adds the pool of handles: each operation is a step on
  the map of files and handles of `AbstractFiles`, where every run is compared with the record of what was written.
  `FileScenarios` runs the inputs for which the layer falls short. `DiskStore` keeps the layer's sectors and clusters
  in two cached areas, where any sequence of accesses has the answers that the plain sectors give.
- **Scheduler** (`LinkedLists`, `Scheduling`, `Placement`, `TaskSteps`, `TaskLinks`, `TaskRuns`, `TaskScenarios`,
  `Fairness`, `TaskScheduling`). Six intrusive lists over one pool of nodes, the execute counters, the running task and
  the pool's bookkeeping. `Scheduling` gives each operation as a function of the lists, and `Placement` and `TaskSteps`
  prove where every task is; `TaskLinks` gives it as a function of the links and list heads, where a search may overrun
  the tail of a list, and proves when the lists hold; `TaskRuns` proves it of runs and `TaskScenarios` shows runs that go
  wrong. `Fairness` bounds how long a ready task waits. `TaskScheduling.Scheduler` performs the operations on linked
  lists, and ends in the links and the state that `TaskLinks` demands, whatever a search finds.
- **Recursive mutex** (`MutexProtocol`). A state machine of single memory accesses by any number of tasks.
- **Number text and memory routines** (`Numerals`, `PlaceValues`, `Strings`, `Memory`). `PlaceValues` says what number
  texts mean: sums of digits by their places.

`dafny verify dfyconfig.toml` checks the whole project.

## Main results

- Canonical free sets, tiling over all runs and exact round trips: `BuddyBlocks.Canonical`, `BuddyHeap.RunsKeepInv`,
  `BuddyHeap.FreeingAllRestoresInitial`, `DynamicMemory.AllocateThenFreeRestores`.
- NULL exactly when there is no room, and exactly where that fails: `DynamicMemory.Allocator.Allocate`.
- Over every run, each read returns the data last written, and the cache holds the most recent tags:
  `CacheModel.ReadsReturnLastWritten`, `CacheModel.RunHoldsMostRecent`.
- Every file byte is the one last written, with any number of files open: `AbstractFiles.RunsHoldLastWritten` and the
  methods of `OpenFiles.FileTable`.
- Every live task is in exactly one place, if and only if: `TaskLinks.StepPlacedIff`, `TaskRuns.RunPlaced`. The lists
  hold, and a lost task stays lost, throughout a run if and only if: `TaskRuns.RunHeldIff`, `TaskRuns.StaysLostIff`.
- Every ready task runs within a stated number of switches: `Fairness.NoStarvation`.
- Mutual exclusion in every interleaving: `MutexProtocol.MutualExclusion`. What a count that overflows does to it:
  `MutexProtocol.OverflowBreaksExclusion`.

## Where the code falls short

Some of the promises hold only under a condition. Each is stated as an if-and-only-if, with the failing case.

- A priority of 5 passes the range check (`02.Kernel64/Task.c:222`) but has no ready list, so the task is lost:
  `TaskSteps.PriorityFiveLosesTask`. The conditions on what is asked of an operation are `Placement.Keeps`. They also
  cover a task identity that is no longer current: changing priority or ending by such an identity alters the flags of
  whatever task has taken over its slot, as in the run `TaskScenarios.OldIdentityMisplaces`.
- Removing the last item of a list leaves the new tail's link pointing at it (`02.Kernel64/List.c:60-61`), and a search
  does not stop at the tail. So a search for a task that is not on the list of its priority may find it behind the tail;
  then the list's head fits no list any more: `LinkedLists.RemoveKeepsListIff`, `TaskLinks.BehindBreaks`. An operation
  keeps every task in its place if and only if `Keeps` holds and this does not happen: `TaskLinks.StepPlacedIff`. A lost
  task comes back if and only if it is found so and put on a list: `TaskLinks.LostUnlessRevived`.
  `TaskScenarios.LostTaskReturns` is a run with current identities only in which it does, and
  `TaskScenarios.WaitingTaskFound` one in which a waiting task gets on a ready list as well.
- The block size of level 21 overflows the `int` shift (`02.Kernel64/DynamicMemory.c:113`), so an arena of 2 GiB or
  more refuses every request between 1 GiB and 2 GiB although it may have room, for example 1.5 GiB in an empty
  arena: `DynamicMemory.LargeRequestHasRoom`. `DynamicMemory.Allocator.Allocate` is as promised if and only if the
  request's level is not 21, or the arena has no level 21, or no block of that level is free.
- When the cluster count is a multiple of 128, the search for a free cluster ignores the whole last sector of the
  link table (`02.Kernel64/FileSystem.c:342-346`): `LinkTable.SearchBoundExact`. `FileState.SearchMissesLastSector`
  is a disk of that many clusters with one file, and `FileScenarios.FullFromTheStart` one of 1026 sectors that is full
  as soon as it is formatted.
- Reading a link lets one sector too many through (`02.Kernel64/FileSystem.c:394`): for a cluster in the sector right
  behind the link area the call succeeds and returns part of the root directory.
  `FileSystem.FileSystem.GetClusterLinkData` states for which clusters it succeeds and for which there is a link;
  `FileScenarios.LinkBehindTable` is the first number without one.
- Seeking past the end of the file inside the cluster that the end lies in leaves the offset beyond the size
  (`02.Kernel64/FileSystem.c:772-819`). `FileSystem.FileSystem.SeekFile` states exactly when the handle stays in order,
  and `FileScenarios.SeekPastEnd` seeks from offset 1 of a one-byte file to 2.
- Several handles on one file: the others stay in order exactly as long as the file does not grow through one of
  them and is not emptied while it holds something. Whether it will grow is known before the call: a write grows the
  file unless it ends inside it, or the file's last cluster is full and the search finds no free one (`KeepsSize`); a
  seek grows it exactly if the target lies in a later cluster, there is memory for the zeros, and not both the last
  cluster is full and no free one is found (`SeekGrows`). `OpenFiles.FileTable.WriteFile`, `SeekFile` and `OpenFile`
  state it so; `FileScenarios.SharedFileGrows` is a run with two handles.
- A flush that fails leaves the file system's mutex locked: `CachedDisk.FlushFileSystemCache`.
- A disk of fewer than ten sectors is formatted without a data cluster or beyond its end: `LinkTable.FormatFits`.
- The least 64-bit number prints as a lone minus sign: `Numerals.DecimalRoundTrip`.
- The mutex count is 32 bits wide; the invariant survives a step if and only if that step does not wrap the count:
  `MutexProtocol.StepInv`. After the write that wraps it, the count is 0 while the holder is inside 2^32 times; its next
  unlock opens the mutex and another task gets in beside it: `MutexProtocol.OverflowBreaksExclusion`, and
  `MutexProtocol.OverflowReached` is a run that comes there.
- Two pool offsets outside the pool are accepted (`02.Kernel64/Task.c:403`): the one just behind it and minus one.
  `TaskScheduling.Scheduler.ChangePriority` and `EndTask` state exactly when flags outside the pool are written.

## Model

| member | source | states |
|---|---|---|
| `BuddyBlocks.Canonical` | 02.Kernel64/DynamicMemory.c:233-259 | two free sets in which no two buddies are both free and that cover the same units are the same set of blocks |
| `BuddyBlocks.FreeBlocksAreMaximalRuns` | 02.Kernel64/DynamicMemory.c:233-259 | in a coalesced free set the blocks are exactly the wholly free aligned runs whose parent run is not wholly free |
| `BuddyBlocks.FreeRunHasBlock` | 02.Kernel64/DynamicMemory.c:120-140 | every wholly free aligned run lies inside one single free block |
| `BuddyBlocks.FreeRunIffBlock` | 02.Kernel64/DynamicMemory.c:120-140 | a free aligned run of a level exists if and only if some free block of that or a higher level exists |
| `BuddyBlocks.InitialIsCoherent` | 02.Kernel64/DynamicMemory.c:33-53 | the initial blocks, the unpaired last one of each level with an odd count, are coalesced and tile the arena exactly |
| `BuddyHeap.AllocateKeepsInv` | 02.Kernel64/DynamicMemory.c:85-109 | serving a request keeps the tiling of the arena, the canonical form and used size plus free size equal to N*1024 |
| `BuddyHeap.FreeKeepsInv` | 02.Kernel64/DynamicMemory.c:209-259 | freeing a live block keeps the same invariant |
| `BuddyHeap.RunsKeepInv` | 02.Kernel64/DynamicMemory.c:85-259 | in every state of every run from initialisation, free and live blocks are disjoint, tile units 0 to N, and sizes add up |
| `BuddyHeap.FreeRunFits` | 02.Kernel64/DynamicMemory.c:91-93 | whenever a free run of the requested level exists, used size plus its size is at most the arena's size |
| `BuddyHeap.LiveDeterminesHeap` | 02.Kernel64/DynamicMemory.c:233-259 | two heaps satisfying the invariant with the same live blocks are equal: free set and used size included |
| `BuddyHeap.AllocateThenFree` | 02.Kernel64/DynamicMemory.c:85-231 | allocating and then freeing the result restores the heap exactly |
| `BuddyHeap.FreeingAllRestoresInitial` | 02.Kernel64/DynamicMemory.c:209-259 | freeing all live blocks of any heap, in any order, ends in the heap built at initialisation |
| `BuddyHeap.FreesCommute` | 02.Kernel64/DynamicMemory.c:209-259 | freeing two live blocks in either order gives the same heap |
| `BuddyHeap.AllocateIsDeterministic` | 02.Kernel64/DynamicMemory.c:120-157 | first fit has at most one outcome: address and resulting heap are determined by the heap and the level |
| `DynamicMemory.MetadataFits` | 02.Kernel64/DynamicMemory.c:9-58 | for every arena size, level array, headers and bitmaps laid out for the reduced block count end within the blocks set aside for them, and the estimate fits 32 bits |
| `DynamicMemory.CalculateMetaBlockCount` | 02.Kernel64/DynamicMemory.c:69-81 | the loop computes the metadata block count that `MetaBlocksLeast` and `MetadataFits` are about |
| `DynamicMemory.MetaBlocksLeast` | 02.Kernel64/DynamicMemory.c:69-81 | that count is the least number of blocks that holds the level array, the headers and the bitmaps of the unreduced block count |
| `DynamicMemory.ChangeBit` | 02.Kernel64/DynamicMemory.c:192-205 | setting or clearing one bit changes the membership of exactly its block at its level, in a bitmap area shared by all levels, padding bits included |
| `Bytes.MaskIsShift` | 02.Kernel64/DynamicMemory.c:192-205 | the bit of offset k in its byte is 1 shifted left by k |
| `DynamicMemory.ZeroWordSkips` | 02.Kernel64/DynamicMemory.c:174-183 | a zero QWORD read at bit i, with 64 bits left, means that bits i to i+63 are all clear; they are bits of the level, and the word lies inside the level's bytes |
| `DynamicMemory.FreeSetDeterminesBitmaps` | 02.Kernel64/DynamicMemory.c:192-205 | two bitmap areas and count arrays that represent the same free set are equal byte for byte |
| `DynamicMemory.AllocateThenFreeRestores` | 02.Kernel64/DynamicMemory.c:85-231 | allocating and then freeing the result restores the bitmaps, counts, level array and used size, byte for byte |
| `DynamicMemory.Allocator.DataShow` | 02.Kernel64/DynamicMemory.c:85-259 | in every valid state the allocator's arrays show its heap, so the statements about heaps carry over to the bytes |
| `DynamicMemory.IntShiftValue` | 02.Kernel64/DynamicMemory.c:111-118 | the block size computed in 32-bit signed arithmetic and widened is right up to level 20, and 2^64 - 2^31 at level 21 |
| `DynamicMemory.CapacityTest` | 02.Kernel64/DynamicMemory.c:91-93 | of the requests that a free run could serve, the capacity test in 64-bit arithmetic refuses exactly those of level 21 |
| `DynamicMemory.LargeRequestHasRoom` | 02.Kernel64/DynamicMemory.c:111-118 | an empty arena of 2 GiB or more has a free run for a request of 1.5 GiB, which is of level 21 |
| `DynamicMemory.BuddyHasBit` | 02.Kernel64/DynamicMemory.c:237-246 | the buddy of a block of a level always has a bit inside the level's bytes, even beyond the block count, so the loop reads a zero padding bit and stops |
| `DynamicMemory.Allocator.constructor` | 02.Kernel64/DynamicMemory.c:9-67 | after the layout loops the allocator represents exactly the initial heap of the reduced arena, whose memory ends at 3 GiB at most; it ends at the end of the RAM if that is at most 3 GiB |
| `DynamicMemory.Allocator.SetFlag` | 02.Kernel64/DynamicMemory.c:192-205 | afterwards the represented free set is the old one with or without exactly this block, counts included |
| `DynamicMemory.Allocator.FindFreeBlock` | 02.Kernel64/DynamicMemory.c:168-190 | the skipping search returns the least set bit of the level, or -1 exactly if none is set |
| `DynamicMemory.Allocator.FindLevel` | 02.Kernel64/DynamicMemory.c:126-140 | the lowest sufficient level with a free block and the least offset there, or none exactly if no free block is large enough |
| `DynamicMemory.Allocator.AllocateBlock` | 02.Kernel64/DynamicMemory.c:120-157 | -1 with nothing changed exactly if no free run exists; otherwise the front run of the first fit leaves the free set and nothing else does |
| `DynamicMemory.Allocator.ServedMeans` | 02.Kernel64/DynamicMemory.c:111-118 | `Served` (the request's level is not 21, or the arena has no level 21, or that level's count is 0) holds exactly if a run for the request is of level 20 or less |
| `DynamicMemory.Allocator.Allocate` | 02.Kernel64/DynamicMemory.c:85-109 | NULL exactly if no aligned wholly free run of the rounded-up size exists, if and only if `Served` holds; otherwise NULL although there is room. NULL changes nothing; an address is that of a first-fit allocation step |
| `DynamicMemory.Allocator.FreeBlock` | 02.Kernel64/DynamicMemory.c:233-259 | the merge loop ends with a coalesced free set covering exactly the old units and the block's |
| `DynamicMemory.Allocator.Free` | 02.Kernel64/DynamicMemory.c:209-231 | succeeds exactly if a live block starts in the unit of a non-null address; then it is a freeing step, otherwise nothing changes |
| `CacheModel.ReadRefines` | 02.Kernel64/FileSystem.c:161-183 | a cached read keeps the invariant and the logical contents, returns what they hold, and fails only if a disk call fails |
| `CacheModel.WriteRefines` | 02.Kernel64/FileSystem.c:237-257 | a cached write that succeeds replaces exactly one logical sector; one that fails changes none |
| `CacheModel.MakeRoomKeeps` | 02.Kernel64/FileSystem.c:185-223 | eviction loses nothing: the logical contents are the same whether the write-back of the victim succeeds or fails |
| `CacheModel.CleanMeansFlushed` | 02.Kernel64/FileSystem.c:994-1027 | with all lines clean the disk equals the logical contents |
| `CacheModel.StepRefines` | 02.Kernel64/FileSystem.c:161-331 | each operation on a cached area is the same operation on the plain sectors, or fails without effect |
| `CacheModel.CleanedAllSteps` | 02.Kernel64/FileSystem.c:1001-1024 | writing lines back one after the other is a run of cleaning steps, so that what holds of runs holds of complete and of broken-off flushes |
| `CacheModel.RunHoldsLastWritten` | 02.Kernel64/FileSystem.c:161-331 | over every run of reads, writes and flushes with any failures, each logical sector is the data of the last successful write to it |
| `CacheModel.ReadsReturnLastWritten` | 02.Kernel64/FileSystem.c:161-331 | over every run, each successful read returns the data last successfully written to its sector |
| `CacheModel.CacheHoldsMostRecent` | 02.Kernel64/CacheManager.c:120-149 | after any history of accesses the cached tags are exactly the most recently used ones, in order of use |
| `CacheModel.OperationsAreAccesses` | 02.Kernel64/FileSystem.c:161-331 | each operation orders the tags by that rule: a successful one by its own tag, one that fails because the victim is not written back by the victim, any other not at all |
| `CacheModel.RunHoldsMostRecent` | 02.Kernel64/FileSystem.c:161-331 | in every state of every run, with any failures, the cached tags are the most recently used ones, as many as fit, in order of use |
| `CacheModel.RoomOrder` | 02.Kernel64/CacheManager.c:120-149 | the line that makes room is the least recently used one; if it cannot be written back it becomes the most recently used |
| `CacheManager.SwapKeeps` | 02.Kernel64/CacheManager.c:95-109 | exchanging whole entries keeps every tag with its buffer and state |
| `CacheManager.RenumberOrder` | 02.Kernel64/CacheManager.c:111-117 | numbering sorted entries by position keeps the order of use and puts all times below the new clock |
| `CacheManager.CacheTable.SortByTime` | 02.Kernel64/CacheManager.c:84-109 | the bubble sort ends sorted by access time, with the cached lines and the order of use unchanged |
| `CacheManager.CacheTable.CutDownAccessTime` | 02.Kernel64/CacheManager.c:84-118 | afterwards the clock is below its limit and lines and order of use are unchanged, so the 32-bit clock never wraps |
| `CacheManager.CacheTable.Find` | 02.Kernel64/CacheManager.c:66-82 | finds exactly the cached tags; a hit becomes the most recently used, lines unchanged |
| `CacheManager.CacheTable.Allocate` | 02.Kernel64/CacheManager.c:47-64 | takes an invalid entry into use as the most recent one, or -1 exactly if the table is full |
| `CacheManager.CacheTable.Victim` | 02.Kernel64/CacheManager.c:120-149 | in a full table, the entry of the least recently used tag, which becomes the most recent; otherwise the first invalid entry, with no line and no order changed |
| `CachedDisk.CachedArea.AllocateWithFlush` | 02.Kernel64/FileSystem.c:185-223 | makes room as the specification does, and fails exactly if the write-back of the victim is refused |
| `CachedDisk.CachedArea.ReadWithCache` | 02.Kernel64/FileSystem.c:161-183 | the resulting area and outcome are those of the read specification; success exactly if no disk call was refused |
| `CachedDisk.CachedArea.WriteWithCache` | 02.Kernel64/FileSystem.c:237-257 | the resulting area and outcome are those of the write specification; success exactly if no disk call was refused |
| `CachedDisk.CachedArea.ReadSector` | 02.Kernel64/FileSystem.c:149-183 | cached or not, the contents stay and a success returns what they hold; success exactly if no disk call was refused |
| `CachedDisk.CachedArea.WriteSector` | 02.Kernel64/FileSystem.c:225-257 | cached or not, success replaces exactly one sector of the contents and failure none; success exactly if no disk call was refused |
| `CachedDisk.CachedArea.Flush` | 02.Kernel64/FileSystem.c:1001-1012 | the new area is the old one with a sequence of its lines written back, whether the flush succeeds or breaks off; success, exactly if no write was refused, leaves the disk equal to the contents |
| `CachedDisk.FlushFileSystemCache` | 02.Kernel64/FileSystem.c:994-1027 | the same for both areas; success exactly if no write was refused, and the mutex is left locked exactly on failure |
| `DiskStore.DecodeEncode` | 02.Kernel64/FileSystem.c:369-404 | 32-bit words read from a sector buffer are those that were written to it |
| `DiskStore.EncodedBytes` | 02.Kernel64/FileSystem.c:369-404 | the bytes of a stored word, the least significant one first |
| `DiskStore.LinksFit` | 02.Kernel64/FileSystem.c:369-404 | the links of a well-formed link table are 32-bit words, so that the cached areas can hold it |
| `DiskStore.Store.ReadClusterLinkTable` | 02.Kernel64/FileSystem.c:149-183 | over the cached area, reads the link sector of the file layer if no disk call is refused, and never changes what the areas hold |
| `DiskStore.Store.WriteClusterLinkTable` | 02.Kernel64/FileSystem.c:225-257 | over the cached area, replaces exactly that link sector if no disk call is refused, and otherwise nothing |
| `DiskStore.Store.ReadCluster` | 02.Kernel64/FileSystem.c:259-295 | the same for reading a data cluster |
| `DiskStore.Store.WriteCluster` | 02.Kernel64/FileSystem.c:297-331 | the same for writing a data cluster |
| `DiskStore.Store.CarryAll` | 02.Kernel64/FileSystem.c:149-331 | any sequence of these accesses, up to the first refused one, gets the answers of the plain sectors and clusters, and the areas hold what those have become; all are answered exactly if no call is refused |
| `ClusterChains.ChainsShareNothing` | 02.Kernel64/FileSystem.c:501-545 | in a well-formed link table no cluster occurs twice, in one chain or in two |
| `ClusterChains.UsedClusterOnChain` | 02.Kernel64/FileSystem.c:501-545 | every cluster in use, except 0, lies on some chain |
| `FileImage.SpliceMeaning` | 02.Kernel64/FileSystem.c:658-722 | a splice of w bytes at o holds them at o to o+w, keeps every other byte, and is max(size, o+w) long |
| `FileImage.ImageWrite` | 02.Kernel64/FileSystem.c:693-702 | overwriting part of one cluster of a chain is a splice of the whole file image |
| `LinkTable.SearchBoundExact` | 02.Kernel64/FileSystem.c:338-345 | the free search covers all clusters if the count is not a multiple of 128, and otherwise all but the last 128 |
| `LinkTable.SearchIsComplete` | 02.Kernel64/FileSystem.c:333-367 | if the count is not a multiple of 128, a search that finds nothing means that no cluster is free |
| `FileState.SearchMissesLastSector` | 02.Kernel64/FileSystem.c:338-345 | for every multiple of 128 there is a link table that holds the chain of one file, with its directory, in which all clusters of the last sector are free and the search finds none |
| `LinkTable.FormatFits` | 02.Kernel64/FileSystem.c:92-98 | in the code's 32-bit arithmetic, a formatted disk has a data cluster and its parts fit into its sectors if and only if it has ten sectors or more; one data cluster more would not fit behind the estimated link table |
| `FileState.WriteRecorded` | 02.Kernel64/FileSystem.c:668-721 | once the size is recorded, what was written is a splice of the file's contents; other files keep contents, chains and entries, and the file itself its chain and entry if it does not grow |
| `FileState.GrowthDecided` | 02.Kernel64/FileSystem.c:668-721 | a file grows by a write exactly if the write ends behind it, and its last cluster has room or a free cluster is found |
| `FileState.SeekMeans` | 02.Kernel64/FileSystem.c:739-823 | the place that a seek ends at, for each origin: the sum of origin and distance inside the file, the start below it, and behind the file as far as zeros were appended |
| `FileState.ItemsMeans` | 02.Kernel64/FileSystem.c:613-722 | the returned count of items times their size is at most the bytes moved and more than these less one item; it is all exactly if all bytes were moved |
| `FileSystem.FileSystem.Format` | 02.Kernel64/FileSystem.c:82-138 | a formatted disk is a valid file system with no file, whose link table is empty but for cluster 0 |
| `FileSystem.FileSystem.SetClusterLinkData` | 02.Kernel64/FileSystem.c:369-386 | changes exactly one link |
| `FileSystem.FileSystem.GetClusterLinkData` | 02.Kernel64/FileSystem.c:388-404 | succeeds exactly up to one sector behind the link area; returns the link of the cluster exactly if it has one, and part of the root directory in that sector |
| `FileSystem.FileSystem.FindFreeCluster` | 02.Kernel64/FileSystem.c:333-367 | from any remembered sector, returns a free cluster other than 0 below the search bound, the first of its sector, or LAST exactly if none is free there; from the remembered sector on, wrapping around, all sectors before it are in use |
| `FileSystem.FileSystem.FreeClusterUntilEnd` | 02.Kernel64/FileSystem.c:528-545 | terminates having freed exactly the clusters of the chain it was given, which is then gone |
| `FileSystem.FileSystem.WriteFile` | 02.Kernel64/FileSystem.c:658-722 | the contents become the splice of the written prefix at the offset, all of the buffer unless no cluster is free; no other file changes in contents, chain or entry, and this one's chain and entry only if it grows, which is decided by the state before the call; the count returned is that of whole items written, all exactly if all bytes were |
| `FileSystem.FileSystem.ReadFile` | 02.Kernel64/FileSystem.c:613-656 | the buffer receives exactly the min(requested, size - offset) bytes of the contents at the offset and nothing else changes in it; the count returned is that of whole items among them, all that were asked for exactly if all their bytes are there |
| `FileSystem.FileSystem.SeekFile` | 02.Kernel64/FileSystem.c:739-823 | the handle is in order afterwards if and only if the target, in wrapping 32-bit arithmetic, is at most the size or in a later cluster than the end; a later cluster extends the file by the missing zeros as far as there is room, at all exactly if the state before the call has room for one, and nothing else changes; by its origin it ends at the distance from the start, the current place or the end, as long as that lies in the file, and at the start if the sum is not positive |
| `FileSystem.FileSystem.WriteZero` | 02.Kernel64/FileSystem.c:825-849 | splices exactly the zero bytes that found room, all of them unless no memory or no cluster is free, and changes no other file |
| `FileSystem.FileSystem.CreateFile` | 02.Kernel64/FileSystem.c:501-526 | succeeds exactly if a cluster and a directory entry are free; then adds one empty file with a chain of its own, otherwise changes no link and no entry |
| `FileSystem.FileSystem.TruncateFile` | 02.Kernel64/FileSystem.c:567-589 | the file keeps its first cluster and size 0, all its other clusters are freed, other files keep their contents |
| `FileSystem.FileSystem.FreeFile` | 02.Kernel64/FileSystem.c:886-899 | frees exactly the file's clusters and its entry; other files keep contents, chains and entries |
| `AbstractFiles.SoughtAddsZeros` | 02.Kernel64/FileSystem.c:813-849 | what a seek adds to a file stands behind all it held, and every byte of it is zero |
| `AbstractFiles.StepMatches` | 02.Kernel64/FileSystem.c:547-904 | if every file holds what the record of writes says, it does after any operation |
| `AbstractFiles.RunsHoldLastWritten` | 02.Kernel64/FileSystem.c:547-904 | over every run from a formatted disk, every handle stands in a file and not past its end, each file is as long as it was written since it was created or emptied, and each byte is the one last written there |
| `OpenFiles.OthersFitIff` | 02.Kernel64/FileSystem.c:613-823 | when one file changes, the other handles stay in order exactly if the file keeps its size or none of them is on it |
| `OpenFiles.FileTable.constructor` | 02.Kernel64/FileSystem.c:82-138 | a freshly formatted disk with a free handle pool: no file and no handle is seen |
| `OpenFiles.FileTable.ViewInOrder` | 02.Kernel64/FileSystem.c:547-904 | in every valid state each handle in use stands in an existing file, not past its end |
| `OpenFiles.FileTable.ReadFile` | 02.Kernel64/FileSystem.c:613-656 | through any handle of the pool, a reading step on the files as seen: the min(requested, remaining) bytes at the handle's offset; every handle stays in order; the count returned is that of whole items among them, all that were asked for exactly if all their bytes are there |
| `OpenFiles.FileTable.WriteFile` | 02.Kernel64/FileSystem.c:658-722 | a writing step on the files as seen; every handle is in order afterwards if and only if no other handle is on the file, or the write ends inside the file, or the file's last cluster is full and no free one was to be found before the call; the count returned is that of whole items written, all exactly if all bytes were |
| `OpenFiles.FileTable.SeekFile` | 02.Kernel64/FileSystem.c:739-823 | a seeking step on the files as seen, ending at the target, or at the end of a file that could not be extended that far, with exactly the missing zeros written; every handle is in order afterwards if and only if the target is not past the end in the end's own cluster, and no other handle is on the file or the file does not grow, which is decided by the state before the call; by its origin it ends at the distance from the start, the current place or the end, as long as that lies in the file, and at the start if the sum is not positive |
| `OpenFiles.FileTable.OpenFile` | 02.Kernel64/FileSystem.c:547-611 | creating, emptying and opening steps on the files as seen, with the first free handle of the pool; every handle is in order afterwards if and only if no file that is open and holds something was emptied; a new file takes the first unused directory entry, the file is empty if it was created or opened for writing, and no other file or handle changes |
| `OpenFiles.FileTable.CloseFile` | 02.Kernel64/FileSystem.c:851-858 | gives the handle back, or -1 exactly if it is not in use |
| `OpenFiles.FileTable.SameStart` | 02.Kernel64/FileSystem.c:860-869 | a handle in use has the start cluster of a directory entry exactly if it is on that entry's file |
| `OpenFiles.FileTable.IsFileOpened` | 02.Kernel64/FileSystem.c:860-869 | the comparison of start clusters over the pool tells exactly whether a handle is on the file |
| `OpenFiles.FileTable.RemoveFile` | 02.Kernel64/FileSystem.c:871-904 | removes the file from the files as seen exactly if it exists and no handle is on it, and otherwise changes nothing; every handle stays in order |
| `FileScenarios.SharedFileGrows` | 02.Kernel64/FileSystem.c:658-722 | from formatting on: with two handles on an empty file, all in order, a byte written through one leaves the other out of order |
| `FileScenarios.SeekPastEnd` | 02.Kernel64/FileSystem.c:772-819 | from formatting on: a seek to 2 in a file of one byte leaves the handle at offset 2, past the end |
| `FileScenarios.LinkBehindTable` | 02.Kernel64/FileSystem.c:388-404 | cluster 128 times the link area's size has no link, and reading it succeeds |
| `FileScenarios.FullFromTheStart` | 02.Kernel64/FileSystem.c:333-367 | a disk of 1026 sectors is formatted with 128 clusters; no file can be created on it, though clusters 1 to 127 are free |
| `FileScenarios.SeekInTwo` | 02.Kernel64/FileSystem.c:739-823 | two relative seeks inside a file are the one by the sum of the distances; a seek there and back changes nothing that is seen |
| `LinkedLists.SearchOnce` | 02.Kernel64/List.c:46-52 | the search along the links has one course |
| `LinkedLists.SegmentOnce` | 02.Kernel64/List.c:13-71 | header, tail and links determine the items of a list, so a count that is not theirs fits no list |
| `LinkedLists.RemoveKeepsListIff` | 02.Kernel64/List.c:46-71 | removing leaves a list if and only if the search stops at an item or reaches the end of the links; a node found behind the tail leaves a head that fits no list |
| `LinkedLists.StaleLinkReachesOtherList` | 02.Kernel64/List.c:46-71 | two nodes, two lists, five calls: removing a node once more from the list it has left takes it from behind the tail, counts a list with a header as empty, and returns a node that the other list still holds |
| `LinkedLists.LinkedList.AddToTail` | 02.Kernel64/List.c:13-29 | the new links and head for any item; what was a list stays one if and only if the item was not on it, and then no node off the list has its link changed |
| `LinkedLists.LinkedList.AddToHeader` | 02.Kernel64/List.c:31-44 | the new links and head for any item; what was a list stays one if and only if the item was not on it, and then no node off the list has its link changed |
| `LinkedLists.LinkedList.Remove` | 02.Kernel64/List.c:46-71 | for every search that stops: the list stays one if and only if the search stops at an item, which is removed and returned, or at the end, which changes nothing; removing the tail leaves the new tail's link on it |
| `LinkedLists.LinkedList.RemoveFromHeader` | 02.Kernel64/List.c:73-80 | removes and returns the first item, NULL if there is none |
| `LinkedLists.LinkedList.RemoveFromTail` | 02.Kernel64/List.c:82-89 | removes the first item with the last one's identity, the last one itself exactly if no other shares it |
| `Scheduling.PackedOnce` | 02.Kernel64/Task.c:42 | two identities are the same 64-bit number exactly if their serial numbers and slots agree |
| `Scheduling.NoneFoundIffNoneReady` | 02.Kernel64/Task.c:180-195 | two rounds over the levels find no task if and only if all ready lists are empty |
| `Placement.TaskCountIsUseCount` | 02.Kernel64/Task.c:393-400 | the task count never exceeds the use count and equals it if and only if every live task runs or is on a list |
| `Placement.SwitchPlaced` | 02.Kernel64/Task.c:252-327 | a switch keeps every task in its place exactly if none is ready, or the running task has ended or has a priority below 5 |
| `TaskSteps.CreatePlaced` | 02.Kernel64/Task.c:61-105 | creating keeps every task in its place exactly if it fails or the priority is below 5 |
| `TaskSteps.ReapPlaced` | 02.Kernel64/Task.c:462-497 | freeing the first waiting task keeps every other task in its place |
| `TaskLinks.StepHeldIff` | 02.Kernel64/Task.c:28-400 | an operation keeps the lists, with no task in two places and no dead one on a list, if and only if its search does not find the task behind the tail of a list |
| `TaskLinks.StepPlacedIff` | 02.Kernel64/Task.c:28-400 | from a state with every live task in its place, an operation leads to such a state, for whatever lists its links show, if and only if `Keeps` holds and its search does not find the task behind the tail of a list |
| `TaskLinks.BehindBreaks` | 02.Kernel64/List.c:46-71 | an operation whose search finds the task behind the tail of a list leaves a head of that list that fits no list at all, wherever the task is put |
| `TaskLinks.ListedFound` | 02.Kernel64/Task.c:206-219 | a task on the list of its priority is found there, after exactly the tasks before it |
| `TaskLinks.LostUnlessRevived` | 02.Kernel64/Task.c:206-250 | unless another task is found behind a tail, an operation leaves a lost task lost, on no list in between header and tail, if and only if it does not find it behind the tail of the list of its priority and put it on one |
| `TaskSteps.InitialPlaced` | 02.Kernel64/Task.c:139-161 | after initialisation the one task runs and every list is empty |
| `TaskRuns.RunHeld` | 02.Kernel64/Task.c:28-400 | over every run in which no operation finds its task behind the tail of a list, the task count is at most the use count and equals it exactly as long as no task is lost; identities of lost tasks may be named |
| `TaskRuns.RunHeldIff` | 02.Kernel64/Task.c:28-400 | over every run of operations whose searches end, the links show lists with no task in two places in every state if and only if no operation finds its task behind the tail of a list |
| `TaskSteps.AddressedIsListed` | 02.Kernel64/Task.c:206-219 | with every task in its place, an identity that names no free slot and no waiting task is found in the list of its task's priority |
| `TaskRuns.RunPlaced` | 02.Kernel64/Task.c:28-400 | over every run, on the links, of operations that meet `Keeps` and name no free slot and no waiting task, every operation can be carried out, nothing is found behind a tail, every live task is in exactly one place and the task count equals the use count |
| `TaskSteps.PriorityFiveLosesTask` | 02.Kernel64/Task.c:221-250 | any listed task given priority 5 is lost: it is alive and on no list, and the task count falls one below the use count |
| `TaskRuns.LostForGood` | 02.Kernel64/Task.c:28-400 | over every run in which no operation finds its task behind the tail of a list, a live task that neither runs nor is on a list never runs again and is on no list, and keeps its slot and identity |
| `TaskRuns.StaysLostIff` | 02.Kernel64/Task.c:28-400 | over every run in which no other task is found behind a tail, a lost task stays lost, as long as the links show lists, if and only if no operation finds it behind the tail of the list of its priority and puts it on one |
| `TaskScenarios.OldIdentityMisplaces` | 02.Kernel64/Task.c:221-250 | from initialisation on: two tasks are created, the second is ended and reaped and another is created in its slot; changing priority by the old identity leaves the new task in the list of a priority that is not its own |
| `TaskScenarios.LostTaskReturns` | 02.Kernel64/Task.c:221-250 | from initialisation on, by current identities: of two tasks created, the second is given priority 5, then 2, and is lost; given priority 3 it is on a ready list again, and a list head fits no list |
| `TaskScenarios.WaitingTaskFound` | 02.Kernel64/Task.c:221-250 | from initialisation on: every task is in its place and `Keeps` holds, and changing the priority of a waiting task, which an old identity has given a ready priority, finds it behind the tail of that ready list |
| `TaskSteps.EndedTaskWaits` | 02.Kernel64/Task.c:356-374 | a listed task that is ended is marked and goes behind all waiting tasks |
| `TaskSteps.EndedRunnerWaits` | 02.Kernel64/Task.c:342-354 | the running task that ends waits at once if another is ready, and otherwise runs on marked with nothing else changed |
| `TaskSteps.ChangeMeans` | 02.Kernel64/Task.c:221-250 | changing a priority sets that of the task in the named slot, the running one included, and no other flag; a listed task leaves its list and is last on the new one, and no other task moves |
| `TaskSteps.ChangedRunnerGoesLast` | 02.Kernel64/Task.c:221-289 | a running task that sets its priority is last on the list of that priority after the next switch |
| `TaskSteps.EndMeans` | 02.Kernel64/Task.c:342-375 | ending marks the task in the named slot and changes no other flag; a listed task leaves its list and is last on the wait list |
| `TaskSteps.SwitchMeans` | 02.Kernel64/Task.c:252-327 | a switch runs the head of the level to run next and puts the former runner last on the list where it belongs; no other task moves |
| `TaskSteps.NextLevelMeans` | 02.Kernel64/Task.c:180-195 | the level to run next is the first one whose counter is below its number of tasks, and if there is none the first one with a task |
| `TaskSteps.NextExecutedMeans` | 02.Kernel64/Task.c:180-195 | its counter goes up by one, those of the levels before it are cleared, and all are cleared first if none had any share left |
| `TaskSteps.CreateMeans` | 02.Kernel64/Task.c:28-105 | a new task takes the first free slot with the next serial number, has the flags asked for, belongs to the running task's process and is last on its list; it is refused exactly if the pool is full or the running task is a thread whose process is gone |
| `TaskSteps.ReapMeans` | 02.Kernel64/Task.c:52-59 | the first waiting task leaves the wait list, its slot gets the identity of a free one, and nothing else changes |
| `TaskSteps.SerialsInTurn` | 02.Kernel64/Task.c:42-47 | serial numbers run through 1 to 2^32 - 1 in turn, so none is given out again before all others |
| `Fairness.MoveBringsNearer` | 02.Kernel64/Task.c:180-195 | every pick that does not take the waiting task strictly lowers what it waits for: its position, whether its level's share is spent, and the shares left to higher levels |
| `Fairness.RunsWithin` | 02.Kernel64/Task.c:180-195 | the task runs within as many switches as that measure says |
| `Fairness.NoStarvation` | 02.Kernel64/Task.c:180-327 | with n tasks ready, the one at position k of level p runs after at most (2k+2)(n+1)^p switches, hence at most 2n(n+1)^p |
| `Fairness.EveryReadyTaskRuns` | 02.Kernel64/Task.c:180-327 | in any placed state of fixed tasks, every live task that neither runs nor waits gets to run within that bound |
| `TaskScheduling.Scheduler.constructor` | 02.Kernel64/Task.c:139-161 | builds exactly the initial state, with no links and empty lists |
| `TaskScheduling.Scheduler.AllocateTcb` | 02.Kernel64/Task.c:28-50 | -1 exactly if the pool is full; otherwise the first free slot gets the next identity |
| `TaskScheduling.Scheduler.CreateTask` | 02.Kernel64/Task.c:61-105 | state and links are those of the create step; fails exactly if the pool is full or the running task's process is gone; the new task's parent is the identity of the running task's process, and no other slot changes |
| `TaskScheduling.Scheduler.GetNextTaskToRun` | 02.Kernel64/Task.c:180-195 | the nested loops pick the specified level, take the head of its list and leave the specified counters |
| `TaskScheduling.Scheduler.SwitchTask` | 02.Kernel64/Task.c:252-289 | state and links are those of the switch; true exactly if a task was ready |
| `TaskScheduling.Scheduler.Schedule` | 02.Kernel64/Task.c:252-289 | state and links are those of the scheduling step: with no task ready nothing changes, otherwise it is a switch |
| `TaskScheduling.Scheduler.ScheduleInInterrupt` | 02.Kernel64/Task.c:291-327 | state and links are those of the switch; true exactly if a task was ready |
| `TaskScheduling.Scheduler.RemoveTaskFromReadyList` | 02.Kernel64/Task.c:206-219 | takes the named task out of the list of its priority, or from behind its tail, with the links that the search leaves; NULL exactly if the identity names none or the search comes to the end of the links |
| `TaskScheduling.Scheduler.GetTcbInPool` | 02.Kernel64/Task.c:402-408 | accepts the offsets of the pool and exactly two others, that just behind it and minus one |
| `TaskScheduling.Scheduler.ChangePriority` | 02.Kernel64/Task.c:221-250 | state and links are those of the step, whatever the search finds; the lists are in order afterwards if and only if the task was not found behind the tail of one; false exactly if the priority exceeds 5; `stray` exactly if the flags written lie outside the pool; the priority of the task in the named slot is the one asked for and no other flag changes |
| `TaskScheduling.Scheduler.EndTask` | 02.Kernel64/Task.c:342-375 | state and links are those of the step, whatever the search finds; the lists are in order afterwards if and only if the task was not found behind the tail of one; true exactly if the search found a task; `stray` exactly if the flags written lie outside the pool; the task in the named slot is marked and no other flag changes |
| `TaskScheduling.Scheduler.ReapTask` | 02.Kernel64/Task.c:462-497 | state and links are those of the step: the first waiting task leaves the wait list and its control block is freed |
| `TaskScheduling.Scheduler.ReadyCount` | 02.Kernel64/Task.c:381-391 | the number of ready tasks, zero exactly if none is ready |
| `TaskScheduling.Scheduler.GetTaskCount` | 02.Kernel64/Task.c:393-400 | the task count, at most the use count, and equal to it exactly if every live task runs or is on a list |
| `MutexProtocol.OthersStep` | 02.Kernel64/Syncronization.c:20-49 | an access by a task that does not hold the mutex changes neither owner nor count and clears no flag; it can only win an open flag |
| `MutexProtocol.HoldersStep` | 02.Kernel64/Syncronization.c:20-49 | an access by the holder keeps the invariant if and only if it does not wrap the count |
| `MutexProtocol.StepInv` | 02.Kernel64/Syncronization.c:20-49 | every access of every task, in any interleaving, keeps the invariant if and only if it does not wrap the count |
| `MutexProtocol.OverflowLosesDepth` | 02.Kernel64/Syncronization.c:22-25 | the write that wraps the count leaves it 0 to a holder that is inside 2^32 times |
| `MutexProtocol.OverflowBreaksExclusion` | 02.Kernel64/Syncronization.c:20-49 | then one unlock call of the holder opens the mutex while 2^32 - 1 of its lock calls are not undone, and any other task gets in with one lock call |
| `MutexProtocol.OverflowReached` | 02.Kernel64/Syncronization.c:20-34 | with any set of tasks, nested lock calls of one of them lead to such a write |
| `MutexProtocol.RefusedUnlock` | 02.Kernel64/Syncronization.c:36-39 | an unlock by a task that does not hold the mutex changes flag, owner and count not at all and returns after at most two accesses |
| `MutexProtocol.CallsEndByReturning` | 02.Kernel64/Syncronization.c:20-49 | a call ends only by returning and stays a lock or an unlock until then; an access moves no other task |
| `MutexProtocol.LockReturnsInside` | 02.Kernel64/Syncronization.c:20-34 | a lock call returns only with the flag set, the task as owner and the count at its depth |
| `MutexProtocol.WaiterSpins` | 02.Kernel64/Syncronization.c:20-30 | a lock call that finds the mutex held by another task tries, compares and then spins, and changes nothing |
| `MutexProtocol.OpensAtOutermostUnlock` | 02.Kernel64/Syncronization.c:36-49 | the flag is cleared by exactly the step that undoes the holder's outermost lock |
| `MutexProtocol.OpenMutexIsTaken` | 02.Kernel64/Syncronization.c:20-34 | a lock call that finds the mutex open has taken it, at depth 1, three accesses later |
| `MutexProtocol.CallReturns` | 02.Kernel64/Syncronization.c:20-49 | a call of the holder returns after as many of its accesses as `Remaining` says, whatever accesses of others come in between, and has then changed its depth by one |
| `MutexProtocol.NestedLockReturns` | 02.Kernel64/Syncronization.c:20-25 | a lock call of the holder returns after four accesses, with count and depth one higher |
| `MutexProtocol.NestedUnlockReturns` | 02.Kernel64/Syncronization.c:36-44 | an unlock call at depth d > 1 returns after five accesses, with count and depth d - 1 and the same owner |
| `MutexProtocol.OutermostUnlockReturns` | 02.Kernel64/Syncronization.c:36-49 | an unlock call at depth 1 returns after six accesses, with depth 0 |
| `MutexProtocol.NestingUndone` | 02.Kernel64/Syncronization.c:14-49 | n nested lock calls of one task and n unlock calls leave the mutex as it was, open, for every n that the count can express |
| `MutexProtocol.MutualExclusion` | 02.Kernel64/Syncronization.c:14-49 | in every interleaving at most one task is inside, and outside of calls its depth of unmatched locks is the count and it is the owner; with no call under way, the flag is set exactly if some task is inside |
| `Numerals.HexRoundTrip` | 02.Kernel64/Utility.c:149-164 | parsing the hexadecimal text of any 64-bit number gives the number |
| `Numerals.DecimalRoundTrip` | 02.Kernel64/Utility.c:166-185 | parsing the decimal text of a signed 64-bit number gives the number if and only if it is not the least one |
| `Numerals.TextsDiffer` | 02.Kernel64/Utility.c:203-227 | no two signed numbers have the same decimal text |
| `PlaceValues.DecimalMeaning` | 02.Kernel64/Utility.c:166-185 | the number read from a text of decimal digits, with a sign or without, is the sum of the digits by powers of ten, wrapped to 64 bits |
| `PlaceValues.HexMeaning` | 02.Kernel64/Utility.c:149-164 | the number read from a text of hexadecimal digits, in letters of either case, is the sum of the digits by powers of sixteen, wrapped to 64 bits |
| `PlaceValues.CaseDoesNotMatter` | 02.Kernel64/Utility.c:149-164 | texts that differ only in the case of letters, behind 'f' as well, are read as the same number |
| `PlaceValues.DecimalTextIsNumeral` | 02.Kernel64/Utility.c:203-227 | the decimal text of a number is its decimal numeral, with no leading zero, if and only if it is not the least number |
| `PlaceValues.HexTextIsNumeral` | 02.Kernel64/Utility.c:229-251 | the hexadecimal text of a number is its numeral in digits and small letters, with no leading zero |
| `PlaceValues.NumeralOnce` | 02.Kernel64/Utility.c:203-251 | a number has one numeral of either kind |
| `Strings.ReverseString` | 02.Kernel64/Utility.c:253-260 | the text from a position up to its NUL is reversed in place and nothing else in the buffer changes |
| `Strings.DecimalToString` | 02.Kernel64/Utility.c:203-227 | the buffer holds the decimal text with its NUL, the length is returned, and nothing behind it changes; what it holds is the decimal numeral of the number if and only if that is not the least one |
| `Strings.HexToString` | 02.Kernel64/Utility.c:229-251 | the buffer holds the hexadecimal numeral with its NUL, the length is returned, and nothing behind it changes |
| `Strings.HexStringToQword` | 02.Kernel64/Utility.c:149-164 | returns the value of any NUL-terminated text, wrapping at 64 bits, any letter counting on from ten; for hexadecimal digits that is their sum by powers of sixteen |
| `Strings.DecimalStringToLong` | 02.Kernel64/Utility.c:166-185 | returns the value of any NUL-terminated text with an optional sign, wrapping at 64 bits; for decimal digits that is their sum by powers of ten |
| `Memory.LowestByte` | 02.Kernel64/Utility.c:58-64 | the lowest nonzero byte of a wrapped word difference is the one of the first differing bytes, with their difference modulo 256 |
| `Memory.DifferenceZero` | 02.Kernel64/Utility.c:58-59 | the wrapped difference of two words is zero exactly if all bytes are equal |
| `Memory.MemSet` | 02.Kernel64/Utility.c:6-25 | exactly the first `size` bytes are set |
| `Memory.MemCpy` | 02.Kernel64/Utility.c:27-44 | exactly the first `size` bytes are replaced, by the source's |
| `Memory.MemCmp` | 02.Kernel64/Utility.c:46-78 | 0 exactly on equal bytes; otherwise the verdict on the first bytes that differ |
| `Memory.VerdictCongruent` | 02.Kernel64/Utility.c:46-78 | the verdict is the difference of the bytes modulo 256, from 0 to 255 in the whole words and from -128 to 127 behind them, and zero exactly if they are equal |

## Left out

- DynamicMemory.Allocator.Free: addresses outside the arena are not covered; the source indexes its level array with them unchecked.
- CachedDisk.CachedArea.ReadSector: link table and data areas are two separate objects; the source selects between them by a table index.
- FileSystem.FileSystem.WriteFile: items of nonzero size, and an offset and a product of size and count that do not overflow 32 bits.
- FileSystem.FileSystem.ReadFile: likewise items of nonzero size and a product that does not overflow.
- FileSystem.FileSystem.FreeClusterUntilEnd: disk calls succeed in the file layer, so its failure results never occur; failures are treated in the cache layer.
- FileSystem.FileSystem.SetClusterLinkData: a cluster number that the link table does not cover is not; the source would write behind the link area, but is never called so by the file operations.
- FileSystem.FileSystem.GetClusterLinkData: the bytes of the root directory are not modelled, so what is returned from behind the link area is arbitrary.
- FileSystem.FileSystem.Format: the cache is taken to be clean, the data clusters keep what they held, and disks without a data cluster are not formatted.
- OpenFiles.FileTable.OpenFile: whether the name was found is a parameter.
- OpenFiles.FileTable.RemoveFile: whether the name was found is a parameter.
- OpenFiles.FileTable.CloseFile: directory handles, which share the pool, are not modelled.
- FileSystem.FileSystem.CreateFile: the directory is a sequence of entries and not the bytes of cluster 0.
- DiskStore.Store.CarryAll: the file layer's methods are proved over plain sectors and clusters and not a second time over these calls; what it does after a refused call is not covered.
- LinkedLists.LinkedList.Remove: a search that goes round in circles is not covered, because neither it nor the call ends.
- TaskScheduling.Scheduler.ChangePriority: an identity whose task has a priority above 5, as a waiting task and a reaped slot have, is not covered, because the source then searches a list behind those of the scheduler; nor is a search that goes round in circles; what lies in memory beside the pool is not modelled.
- TaskScheduling.Scheduler.EndTask: the same holds here.
- TaskScheduling.Scheduler.RemoveTaskFromReadyList: the same holds here.
- TaskRuns.RunHeldIff: the same holds here, and what a run does after a list has come into disorder is not covered.
- TaskRuns.StaysLostIff: the same holds here.
- TaskScheduling.Scheduler.CreateTask: creation is one step; the child thread lists of processes, stacks and contexts are not modelled.
- TaskScheduling.Scheduler.ReapTask: only the freeing of one waiting task; the idle task's walk over child threads is not modelled.
- Handing one temporary buffer around: every read of the link table leaves it arbitrary in the model.
- Locking inside the allocator and the file system: their operations are atomic here, and the mutex is proved by itself.
- Discarding the cache: it leaves entries marked as changed, so what a flush promises does not hold across it.
- File names: the lookup compares only a prefix; files are identified by directory index.
- Mounting, and the checks that the file system is mounted: they would only add easy members.
- Processor time accounting, FPU ownership and context switching: no part in where tasks are or when they run.
- Characters of 128 and above in number texts: the source's characters are signed.
- Negative sizes given to the memory routines.
- Device drivers, console, shell, formatted printing, page tables and descriptor tables.
