# ext4: block maps, caches and allocation, verified

The modules here model the parts of ext4 that decide where a file's blocks are and who owns
which block, and prove that they never lose, move, leak or share one:

- **Extent trees** (`Extents`, `ExtentTrees`, `ExtentSearch`, `Inode`, `IndexKeys`, `TreeUpdates`,
  `ExtentSplit`, `ExtentGrow`, `ExtentMerge`, `ExtentNeighbours`, `ExtentGaps`, `ExtentInsert`,
  `ExtentConvert`, `ExtentWritten`, `RangeRemoval`, `ExtentRemove`, `RemovalWalk`, `RemoveSpace`,
  `NearestBlocks`). An `Inode` holds the root node, the node blocks on disk and the free blocks; a
  ghost tree says what they stand for. `Contents()` is the file, logical block to physical block and
  state; `Universe()` counts every block the inode knows (nodes, data, free), and `Valid()` includes
  that no block has two uses. Every operation is stated as a change of these two.
- **Status cache** (`StatusRuns`, `StatusTree`, `ReservedClusters`): the extent status tree, for every
  shape the red-black tree can have, with explicit answers of the memory allocator.
- **Tree and cache together** (`CacheCoherence`): `ext4_map_blocks` and its neighbours, one call at a
  time and over whole runs.
- **Indirect blocks** (`IndirectTree`, `IndirectFile`, `IndirectPrune`, `IndirectTruncate`) and the
  **migration** to extents (`MigrateRanges`, `MigrateTree`, `Migration`, `MigrateRelease`,
  `MigrateFile`, `LongRuns`).
- **Multiple mount protection** (`MultiMount`) as a protocol over timed steps of any number of nodes.
- **Accounting**: delayed allocation (`Reservations`, `IndirectEstimate`), block bitmaps (`BlockBitmap`), inode bitmaps and
  tables (`InodeGroups`), the system zone index (`SystemZones`), and the on-disk form of access control
  lists (`AclCodec`). `Divisions` holds shared arithmetic.

Source paths below are relative to the repository; the functions named are those of `ext4/`.

## Model

| member | source | states |
|---|---|---|
| ExtentSearch.BinsearchIdx | ext4/extents.c:588-640 | the entry found is the last one whose first block is not beyond the target, or the first entry |
| ExtentSearch.Binsearch | ext4/extents.c:648-702 | the same for the extents of a leaf; nothing is found exactly in an empty one |
| Inodes.Inode.FindExtent | ext4/extents.c:718-802 | the path names, level by level, the nodes and slots the search must pass, and ends at the extent picked by the reference scan |
| Inodes.Inode.constructor | ext4/extents.c:704-715 | an empty root: a valid inode that maps nothing and uses no block |
| ExtentSplit.InsertIndex | ext4/extents.c:809-873 | the entry is put beside the slot found and nothing else changes; EIO exactly for a repeated key or a full node |
| ExtentSplit.Split | ext4/extents.c:885-1116 | leaf and full index levels are split so that both halves together hold the old extents in order, keys stay exact and each block is used once; it succeeds exactly if a block for each of these levels is granted and free, else nothing changes |
| ExtentGrow.GrowInDepth | ext4/extents.c:1126-1193 | one level is added below the root, extents and blocks are the same, the tree stays well formed; it succeeds exactly if a block can be had |
| ExtentGrow.CreateNewLeaf | ext4/extents.c:1200-1263 | at most one growth, no extent changes, and on success the search for the new extent ends at a leaf with a free slot; it succeeds exactly if the blocks needed can be had: one for each level below the lowest index node with a free entry, or one more than there are levels if the root is full as well |
| NearestBlocks.SearchLeft | ext4/extents.c:1272-1328 | EIO exactly for a mapped block; else the nearest mapped block below and its place, or none if there is none |
| NearestBlocks.SearchRight | ext4/extents.c:1337-1446 | EIO exactly for a mapped block; else the nearest mapped block above, across leaves, with its extent |
| ExtentNeighbours.NextAllocatedBlock | ext4/extents.c:1456-1483 | the first block of the first extent behind the position, in the whole tree |
| ExtentNeighbours.NextLeafBlock | ext4/extents.c:1489-1512 | the first block of all extents right of the leaf |
| IndexKeys.CorrectIndexes | ext4/extents.c:1520-1575 | after the first entry of a leaf changed every key above agrees again, and nothing but keys changes |
| ExtentMerge.TryToMergeUp | ext4/extents.c:1671-1709 | a lone leaf is folded into the inode exactly if its extents fit there and the journal has room; the extents stay, exactly its block is returned |
| ExtentMerge.TryToMerge | ext4/extents.c:1715-1734 | merging keeps the file and the account of blocks, however many neighbours fuse; extents are merged exactly if the one named and a neighbour in its leaf can be, else the run is as before |
| ExtentInsert.InsertExtent | ext4/extents.c:1794-2027 | the file gains exactly the blocks of the new extent, or extents and blocks are as before; EIO exactly for an empty one; otherwise it succeeds exactly if the extent found absorbs the new one, or the leaf found has a free slot, or it lies behind that leaf and the next has one, or the blocks for a new leaf can be had; an absorbed extent adds no entry; with PRE_IO the new run is the old one with the extent in its place |
| CacheCoherence.PutGapInCache | ext4/extents.c:2193-2240 | whatever gap is remembered covers unmapped blocks only, no block becomes delayed, the cache stays faithful |
| ExtentRemove.RmIdx | ext4/extents.c:2246-2293 | the empty child's entry goes, its block is freed once, the keys above are exact again, no extent changes |
| ExtentRemove.CutLeaf | ext4/extents.c:2496-2609 | the leaf becomes the reference cut of it and the blocks cut off are freed once; interrupted, it is cut from some slot on |
| RemovalWalk.RmLeaf | ext4/extents.c:2468-2638 | range removal in one leaf with keys corrected and an emptied leaf removed, or an interruption that left a suffix of it cut |
| RemoveSpace.Walk | ext4/extents.c:2766-2844 | the depth-first walk over the path array visits every leaf of the range once: all extents are cut and no emptied node is left, or it was interrupted with a suffix done |
| RemoveSpace.RemoveBlocks | ext4/extents.c:2661-2889 | after any restarts exactly the blocks of the range are unmapped, all other mappings are the same, each freed block was freed once; it fails exactly if an extent reaches over the end of the range and there is no place for the part behind it (slot, next leaf or new leaf), and then nothing changes |
| ExtentConvert.SplitExtentAt | ext4/extents.c:2980-3108 | the extent is parted as the flags say exactly if there is a place for the second part or both are initialised and may be merged again; else it is zeroed and initialised as a whole if the flags allow it, else untouched; which blocks were zeroed |
| ExtentWritten.SplitExtent | ext4/extents.c:3121-3186 | no block moves, every block of the extent that becomes initialised outside the request is zeroed and logged; with the data-valid flag a block is exposed exactly if it lies in front of the request, the first split ended in zeroing and the block was not zeroed before; the first split parts exactly if there is a place for the part behind, the second gets through exactly by the tree between the two; said of the tree before for every case but one |
| ExtentWritten.FrontExposed | ext4/extents.c:3121-3186 | a file built by insertions in which the conversion of blocks 3 and 4 makes blocks 0 to 2 readable, neither written nor zeroed |
| ExtentWritten.TransferToNeighbour | ext4/extents.c:3250-3347 | exactly the requested blocks become initialised by moving them to a neighbour in the leaf; the physical blocks are the same; this happens exactly if the request lies at that side of the extent and leaves some of it, and the neighbour is initialised, adjacent in file and on disk, and short enough |
| ExtentWritten.ConvertToInitialized | ext4/extents.c:3208-3447 | the request inside the extent is initialised, the number reported covers it, nothing moves, nothing unwritten is exposed, and the status-tree calls list every other block initialised; no block behind the end of the file and of the request changes, and if the extent reaches beyond them nothing is zeroed and only the request changes; otherwise it always succeeds, and an extent within the limit is initialised as a whole, of a larger one what lies behind or in front of the request; without zeroing it succeeds exactly if the splits needed find a place |
| StatusRuns.JoinSound | ext4/extents_status.c:340-364 | merging by the rules keeps what is said about every block exactly for the flag sets without a mapped hole and without delayed written blocks |
| StatusTree.EsTree.TreeSearch | ext4/extents_status.c:206-232 | the node spanning the block, else the next one, whatever the shape of the tree |
| StatusTree.EsTree.FindDelayed | ext4/extents_status.c:243-296 | the first delayed node behind the start, or none reaches into the range |
| StatusTree.EsTree.FindDelallocRange | ext4/extents.c:3639-3655 | yes exactly if some block of the range is cached as delayed |
| StatusTree.EsTree.InsertNode | ext4/extents_status.c:582-632 | the cache gains exactly the entry; it fails exactly if no node can take it up and there is no memory, and then nothing changes |
| StatusTree.EsTree.InsertExtent | ext4/extents_status.c:642-679 | the entry overrides whatever was known; it fails exactly if the split has no room, and then all is as it was, or if there is no memory for a node and what is known next to the entry does not continue it, and then its own blocks are forgotten |
| StatusTree.EsTree.Lookup | ext4/extents_status.c:688-740 | found exactly if the block is cached, and the node speaks for all blocks it spans |
| StatusTree.EsTree.RemoveRange | ext4/extents_status.c:742-834 | exactly the range is forgotten; it fails exactly if a node must be split off and there is no memory |
| StatusTree.EsTree.RemoveExtent | ext4/extents_status.c:841-862 | the same for a start and a length, none for length zero |
| StatusTree.EsTree.Reclaim | ext4/extents_status.c:969-999 | as many entries as asked for or as there are go, never a delayed one, and the counter stays exact |
| ReservedClusters.GetReservedClusterAlloc | ext4/extents.c:3703-3740 | the number of clusters of the allocation without a delayed block outside it |
| CacheCoherence.MapFromTree | ext4/extents.c:4013-4104 | without create: the tree's answer with place and state up to the end of the extent or of the request, or none exactly if the block is unmapped |
| CacheCoherence.AllocateHole | ext4/extents.c:4106-4267 | the file gains exactly the blocks of the answer with the wanted state, or nothing changes and the allocation is given back; it needs a block the allocator finds, and with it succeeds if there is a free slot in the leaf or at the front of the next one, or enough blocks are left for a new leaf |
| CacheCoherence.ConvertFound | ext4/extents.c:3743-3889 | a write into preallocated space answers with initialised blocks, moves nothing, and tells the cache about everything zeroed; it finds space exactly as the conversion does, so always where zeroing is allowed, and it cannot lack memory where nothing is zeroed |
| CacheCoherence.CacheZeroed | ext4/extents_status.c:864-879 | an extent the file holds becomes cached as written |
| CacheCoherence.MapInTree | ext4/extents.c:4013-4369 | with create: the request is mapped, what was mapped stays where it was, and the cache is right about every block outside the answer; blocks that need no conversion are answered up to the end of their extent, those to be written as the conversion goes |
| CacheCoherence.MapBlocksLookup | ext4/inode.c:560-650 | from cache or tree, the answer is the file's, places and state, up to the end of the entry, of the extent or of the request, and the cache stays faithful with or without memory |
| CacheCoherence.MapBlocksCreate | ext4/inode.c:560-755 | mapped blocks are returned, no mapping is lost or moved, the cache stays faithful unless memory runs out; even then it agrees with the file exactly unless new blocks lie inside an entry whose split gets no memory, and is faithful if it has just lost the entry; no space is reported for a mapped block only if it is to be converted and the conversion finds none |
| CacheCoherence.StaleHole | ext4/inode.c:720-747 | a call that brings the exception about: the block is allocated, the cached hole around it stays |
| CacheCoherence.DelayBlock | ext4/inode.c:1865-2016 | the answer is the file's; a block without one ends up cached as delayed, or nothing changes because no space could be reserved |
| CacheCoherence.PunchHole | ext4/inode.c:3583-3770 | exactly the range leaves file and cache, or the file is unchanged; no memory is reported exactly if a split of the cache needs some, no space exactly if an extent reaches over the end of the range and there is no place for the rest of it |
| CacheCoherence.TruncateFile | ext4/extents.c:4371-4392 | the two results it ignores can never be failures: exactly the blocks from the new end on are gone |
| CacheCoherence.ShrinkCache | ext4/extents_status.c:881-926 | shrinking never makes the cache unfaithful |
| CacheCoherence.RunRequests | ext4/inode.c:560-755 | in every state of every run of lookups, allocations, delayed writes, punches, truncations and shrinking, going on when the cache has lost an entry for lack of memory, the cache is faithful to the file, each request has its own effect on the file only, and no block leaks |
| IndirectTree.PathThere | ext4/indirect.c:73-111 | a block has a path exactly if it is in range, and the path leads back to it |
| IndirectTree.PathBack | ext4/indirect.c:73-111 | every valid path is the path of the block it leads to |
| IndirectTree.PathOrder | ext4/indirect.c:73-111 | blocks are ordered as their paths |
| IndirectTree.BoundaryExact | ext4/indirect.c:108-110 | the boundary counts exactly the blocks that follow in the same array |
| IndirectTruncate.GetBranch | ext4/indirect.c:143-187 | the chain follows the offsets to the first zero pointer, complete exactly if there is none |
| IndirectTruncate.FindShared | ext4/indirect.c:876-923 | the place where the part to detach begins, below a block that something else still needs |
| IndirectFile.IndFile.FreeData | ext4/indirect.c:1008-1078 | exactly the blocks named by the pointers are freed, run by run, and the pointers zeroed |
| IndirectFile.IndFile.FreeBranches | ext4/indirect.c:1093-1203 | whole branches are freed, every block once, and no other block of the disk changes |
| IndirectTruncate.IndTruncate | ext4/indirect.c:1205-1305 | every block before the new end keeps its mapping, every other is unmapped, what is unreachable is free once, and no indirect block is left without a use |
| IndirectFile.IndFile.constructor | ext4/indirect.c:73-111 | a file without pointers: valid, with all branches absent |
| Migration.Migrator.FinishRange | ext4/migrate.c:28-86 | the run collected becomes one extent, and what has been read so far is in the extents as far as it fits |
| Migration.Migrator.UpdateRange | ext4/migrate.c:88-111 | one more block is recorded at its place, whether it extends the run or starts a new one, and cursor and extents stay consistent |
| Migration.Migrator.UpdateBranch | ext4/migrate.c:113-200 | everything below an indirect block, one to three levels, is recorded at its place, holes skipped |
| MigrateRelease.FreeIndirect | ext4/migrate.c:222-281 | exactly the indirect blocks of the branch are freed, once, and no data block |
| MigrateRelease.FreeExtBlock | ext4/migrate.c:411-429 | all node blocks of the new tree are given back and the root is empty |
| MigrateFile.Migrate | ext4/migrate.c:431-607 | on success the extents mean the same file exactly if no run is longer than 32768 blocks, and every indirect block is free, once; on failure everything is given back, and the reason is the race, a tree over blocks of the pool without a place for one more part of the file, or a run whose length is a multiple of 65536 |
| Migration.NoPlaceMeans | ext4/migrate.c:28-86 | there is no place only if the blocks granted for an extent or the free ones are no more than the levels below the root of a tree for a part of the file |
| LongRuns.TooLongFile | ext4/migrate.c:28-111 | for each block size from 1 to 64 KiB a file that meets every requirement and has such a run |
| MultiMount.ExclusiveExactly | ext4/mmp.c:127-393 | in all interleavings two nodes never have the file system mounted together exactly if none starts from a clean block, holders write more often than the shortest wait and are never late by their own check |
| MultiMount.CleanStart | ext4/mmp.c:306-345 | from a clean block exclusion fails, whatever the other parameters |
| MultiMount.SlowHolder | ext4/mmp.c:127-251 | it fails if a holder may be silent for a whole wait |
| MultiMount.LateHolder | ext4/mmp.c:201-237 | it fails if a holder may be late by its own check: it gives up, stays mounted, and the other node mounts |
| MultiMount.NeverAborts | ext4/mmp.c:190-237 | a holder never late by its own check does not give up, in any run |
| MultiMount.AloneMounts | ext4/mmp.c:271-393 | a node alone mounts, after two waits |
| MultiMount.FsckRefused | ext4/mmp.c:309-312 | while the block is marked by fsck no run mounts anything or writes the block: all nodes stay idle |
| MultiMount.HandedOver | ext4/mmp.c:240-250 | a clean unmount lets the next node mount at once |
| Reservations.Space.HasFreeClusters | ext4/balloc.c:499-545 | yes exactly if the clusters free by the exact counters, less the dirty ones and those kept for root and for reserved use, suffice for the caller |
| Reservations.Space.Claim | ext4/balloc.c:547-555 | the claim succeeds exactly if that many are available, the dirty count then grows by exactly the claim, and it never over-commits |
| Reservations.Space.ReserveMetadata | ext4/inode.c:1261-1305 | the estimate is reserved and accounted exactly if that many clusters are available to ordinary users, else the inode is as before, estimator included |
| Reservations.Space.ReserveSpace | ext4/inode.c:1310-1366 | the same with one data block, exactly if quota and clusters suffice; the sum over all inodes stays the dirty count |
| Reservations.Space.ReleaseSpace | ext4/inode.c:1368-1415 | as much as is there of the amount is given up, and with the last data block all metadata |
| Reservations.Space.UpdateReserveSpace | ext4/inode.c:338-406 | the blocks used and the index blocks allocated leave the reservation, no more than is there |
| Reservations.Space.NothingLeft | ext4/inode.c:338-406 | when no inode has a reservation nothing is dirty: none leaks |
| Reservations.EstimateTotal | ext4/extents.c:297-337 | for any number of consecutive blocks, one extent each, the estimates add up to an index block per level, one more for every node full of extents and one more for every node full of nodes; behind idxs^3 blocks one more, and the estimator begins again |
| IndirectEstimate.FirstEstimate | ext4/indirect.c:760-779 | for a file mapped by indirect blocks the estimate at the first block of a window is the number of indirect blocks on its path, or one more; none for a direct block |
| IndirectEstimate.EstimatesCover | ext4/indirect.c:760-779 | for any sequence of blocks, in any order, the estimates add up to at least the number of different indirect blocks on their paths, less those counted before, when the window the estimator stands at was begun |
| BlockBitmap.GroupNumberExactly | ext4/balloc.c:35-47 | the shift gives the right group exactly if the block is not among the last of its group, twice the first data block in number |
| BlockBitmap.InGroupExactly | ext4/balloc.c:73-81 | a block is taken to be in the group exactly if it is, but with the shift the last blocks of the group are not and as many before it are, twice the first data block in number |
| BlockBitmap.GroupSparse | ext4/balloc.c:683-700 | groups 0, 1 and the powers of 3, 5 and 7, no other |
| BlockBitmap.BgHasSuper | ext4/balloc.c:710-717 | a copy of the superblock exactly in sparse groups, or in all |
| BlockBitmap.BgNumGdb | ext4/balloc.c:719-764 | the number of descriptor blocks in the group, with and without meta groups |
| BlockBitmap.NumBaseMeta | ext4/balloc.c:770-790 | the blocks at the start of the group taken by superblock and descriptors |
| BlockBitmap.NumOverheadClusters | ext4/balloc.c:86-157 | the number of distinct clusters with recognised meta-data, before the group or in it, plus one exactly if both bitmaps are remembered for the same cluster, less those lost: cluster -1, which also says "none", and those a count raised by clusters before the group runs over |
| BlockBitmap.InitBlockBitmap | ext4/balloc.c:179-237 | a bit is set exactly for clusters of recognised meta-data and behind the end of the group, all bits with a bad checksum; bits before the bitmap are set exactly for recognised blocks before the group |
| BlockBitmap.FreeClustersAfterInit | ext4/balloc.c:242-248 | the count against the bitmap, for every group: off by the shared cluster and those before the group on one side, by those missed and those lost on the other, so right exactly if these cancel |
| BlockBitmap.NothingMissed | ext4/balloc.c:73-81 | without the shift or without a first data block, bits and count are those of the meta-data in the group, and nothing is missed, foreign or lost |
| BlockBitmap.PlainMarks | ext4/balloc.c:210-226 | without flexible groups the bits are those of the meta-data in the group, and none is outside |
| BlockBitmap.SharedCluster | ext4/balloc.c:118-140 | a file system with both bitmaps in one cluster, which is counted twice |
| BlockBitmap.LastBlockMissed | ext4/balloc.c:35-47 | a file system whose inode table ends with a block taken for one of the next group |
| BlockBitmap.LastBlockOverlooked | ext4/balloc.c:213-226 | the same with flexible groups: the bitmap shows that block free |
| BlockBitmap.TableBeforeGroup | ext4/balloc.c:86-157 | flexible groups and an inode table just before group 1: two blocks are counted for it and two bits set before its bitmap |
| InodeGroups.InodeAllocator.constructor | ext4/ialloc.c:68-96 | new groups: valid, only the reserved inodes in use |
| InodeGroups.BitsAddUp | ext4/ialloc.c:637-988 | free count and set bits make up the group except for allocations under way |
| InodeGroups.InodeAllocator.FindInode | ext4/ialloc.c:711-773 | the inode taken was never in use and is the first free one on the way, from the goal in its group and from the start in the following; it succeeds exactly if a group visited has a free one where it is searched |
| InodeGroups.InodeAllocator.TakeBit | ext4/ialloc.c:763-768 | whoever finds the bit clear owns the inode |
| InodeGroups.InodeAllocator.AccountFor | ext4/ialloc.c:826-867 | the free count drops by one and the mark of unused inodes moves exactly as far as needed to stay beyond every inode in use |
| InodeGroups.InodeAllocator.FreeBit | ext4/ialloc.c:211-324 | freeing undoes an allocation; an inode that is not in use is reported and nothing is counted |
| InodeGroups.InodeAllocator.InitInodeTable | ext4/ialloc.c:1135-1231 | lazy zeroing leaves every inode in use alone and zeroes everything behind the mark |
| InodeGroups.MissedBelowGoal | ext4/ialloc.c:711-773 | a group with a free inode before the goal, for which the search fails |
| SystemZones.SearchExactly | ext4/block_validity.c:222-246 | the check is sound for every shape of the tree exactly if no zone hides behind the end of a later one |
| SystemZones.SystemBlocks.AddZone | ext4/block_validity.c:57-120 | exactly the range is added; zones stay apart exactly if it runs into none behind its start, and the check stays sound for every shape of the tree exactly if it does not run past the end of one |
| SystemZones.SystemBlocks.AddAll | ext4/block_validity.c:140-178 | disjoint ranges in any order: zones apart, covering exactly the ranges added, and avoided exactly by what avoids those |
| SystemZones.SystemBlocks.DataBlockValid | ext4/block_validity.c:222-246 | a range is accepted exactly if it is in bounds and avoids every zone |
| SystemZones.OverlapMissed | ext4/block_validity.c:57-120 | two additions after which the index has a shape that accepts a block of a zone |
| SystemZones.BlindSpot | ext4/block_validity.c:222-246 | with the later zone at the root the search for block 25 passes, though a zone covers it |
| AclCodec.CountExactly | ext4/acl.h:26-52 | the count is the inverse of the size |
| AclCodec.SizeExactly | ext4/acl.h:26-36 | the size computed is the size needed exactly for regular lists |
| AclCodec.ThreeEntries | ext4/acl.h:26-36 | a list of three entries for which it is too small |
| AclCodec.ToDisk | ext4/acl.c:94-140 | the image of the list, entry by entry; refused exactly for an unknown tag or a number that does not fit its field; the code refuses the tag only, its fields hold no other numbers |
| AclCodec.FromDisk | ext4/acl.c:21-88 | accepted exactly if the bytes are the image of a regular list, and then it is the only one with that image |

## Findings

Properties the code does not have, each with the exact condition under which it holds and an input
that breaks it:

- **Multiple mount protection** does not exclude two mounts when a node starts from a clean block
  (`CleanStart`), when a holder may be silent for a whole wait (`SlowHolder`), or when it may be later
  than its own check allows: its thread gives up but the file system stays mounted (`LateHolder`).
  `ExclusiveExactly` shows that there is no other way.
- **Stale hole**: after an allocation `ext4_es_insert_extent` may fail to split a cached hole or delayed
  entry around the new blocks. The blocks are mapped, the cache still denies them, and later lookups
  believe it (`StaleHole`). `MapBlocksCreate` says exactly when.
- **Migration**: `finish_range` does not limit the length of the run it turns into one extent, whose
  length field has 16 bits with the top one for "uninitialised". A file with more than 32768 contiguous
  blocks changes its meaning (`Migrate`, `TooLongFile`).
- **Overhead clusters**: with several blocks to a cluster, block and inode bitmap in one cluster behind
  the base are counted twice (`SharedCluster`). And `ext4_get_group_number` adds the first data block
  where it should subtract it, so that with the shift the last blocks of a group, twice the first data
  block in number, are taken for the next one (`GroupNumberExactly`, `InGroupExactly`). They are missed
  by the count of their own group (`LastBlockMissed`) and, with flexible groups, by its bitmap
  (`LastBlockOverlooked`); the next group counts them and sets bits before its bitmap if they belong to
  its own descriptor (`TableBeforeGroup`). `FreeClustersAfterInit` has the balance of all this for every
  group; `NothingMissed` and `PlainMarks` say when bitmap and count are right.
- **System zones**: adding a range that runs past the end of a zone behind its start leaves the tree
  with overlapping zones, and the search can then miss one (`AddZone`, `OverlapMissed`, `BlindSpot`).
- **Inode search**: a free inode before the goal in the goal's own group is not found although the
  other groups are full (`FindInode`, `MissedBelowGoal`).
- **Access control lists**: the size is computed from the number of entries alone, as if the first four
  were short. It is right exactly if the number of short entries, those without an id, is the smaller
  of that number and four (`SizeExactly`, `ThreeEntries`).
- **Splitting with the data-valid flag** (end of direct I/O): if the first of the two splits finds no
  block and the extent is zeroed instead, only the part behind the request is zeroed, and the blocks in
  front of it become readable without having been written or zeroed, ext4/extents.c:3011-3046 and
  3138-3139. For every answer of the allocator `SplitExtent` states that exactly these blocks are exposed,
  but for those zeroed before, and that nothing is exposed otherwise: a caller is safe without that flag,
  without the leave to zero, or with a request that begins or ends with the extent. `FrontExposed` is a
  file where it happens.
- **Length reported**: `ext4_ext_convert_to_initialized` promises a result of at least the requested length,
  ext4/extents.c:3203-3206. For a request that reaches beyond its extent it is the part inside the extent,
  which is what `ConvertToInitialized` states.
- **Merging cache entries** keeps what is said about every block exactly for the flag sets in use
  (`JoinSound`).

## Left out

- Node contents are sequences in a map from block to node, not byte arrays; moving entries with memmove
  and the split of 48-bit block numbers into fields are not modelled.
- I/O, journal credits (but for the answer of `ext4_journal_extend`), checksums and quota transfers; a journal restart during a removal is an
  arbitrary interruption, bounded by a parameter so that the loop ends.
- Checks against a corrupted tree on disk: the EIO exits of the tree walk that a valid tree never takes.
- Clusters of more than one block (bigalloc) in the extent tree and in the reservations, where a cluster is
  one block; they appear in `ReservedClusters` and `BlockBitmap`.
- Locking: each operation runs alone, as under i_data_sem. The re-check in `ext4_find_shared` for a
  racing allocation is not modelled. `MultiMount` and the inode bitmaps do interleave.
- The PRE_IO ways through `ext4_map_blocks` (direct I/O into preallocated space) and end-of-I/O conversion;
  their splitting primitives are modelled, their path through the cache is not.
- `ext4_data_block_valid` failures inside the mapping functions, and failures of zeroing.
- `free_hole_blocks`, `ext4_ind_migrate`, `ext4_ind_map_blocks` and the allocation of indirect blocks.
- The choice of goals and of block groups (Orlov), and the multi-block allocator: what it settles on is an
  input, any free run of any length up to the one wanted, or none; for tree blocks the input is the number
  granted before one is refused (`Supply`), any free block each.
- LateHolder: the holder's own re-read is taken at face value. It goes through `sb_getblk` on the block the
  thread has just written; whether it can see what another node wrote depends on the buffer cache, which
  is not part of this model.
- The per-CPU counters are the kernel's and not part of the repository; `PercpuCounter` is their plain form.
- 32-bit wrap-around of block counts in `ReservedClusters`, in zone counts and in the counters.
- The red-black trees are sequences in order with an arbitrary shape; balancing is not modelled.
- MapInTree: the PRE_IO and end-of-I/O branches of the lines cited, as said above.
- ConvertToInitialized: the calls of `ext4_es_zeroout` are returned as a list and made after the split,
  so a failing call ends the operation later than in the code, with the same file.
- ConvertToInitialized: with zeroing forbidden, both splits needed and no free slot in the leaf found, whether the
  second split gets through is said of the tree between the two (`SplitExtent`), not of the tree before.
- AllocateHole: that enough blocks are left for a new leaf is stated for the length asked for, not for the run found.
- Migrate: that a reason for failure exists is necessary, not sufficient: which trees the walk comes to is not stated.
- MapBlocksCreate: callers that ask for initialised blocks without having reserved them must not have
  delayed blocks in the range, as the callers see to; what happens otherwise is not stated.
- RunRequests: a run ends when an allocation finds no memory for its status entry and an older entry for
  the block stays in the cache; what the cache is worth then is stated, not how the run goes on.
- RemoveBlocks: blocks given back to the allocator are available at once; the deferred release at commit
  time is not modelled.
- DelayBlock: inline data, and blocks of a cluster that has a delayed block already.
- EstimateTotal: the cube of the entries per block is exact; from blocks of 16 KiB on it exceeds the int the
  code computes it in.
- Claim: a claim is one step; claims by several CPUs between the test and the addition are not modelled.
- FindInode: the case of other allocators at work is covered by `TakeBit`, not by the search's exact
  result.
- Block numbers in the space of the boot block and the superblock are never handed out; `Clean` excludes them.
