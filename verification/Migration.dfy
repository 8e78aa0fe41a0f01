/**
 ext4_ext_migrate: read a file mapped by indirect blocks, build the extents of the same file
 in a temporary inode, swap, and release the indirect blocks.
 */
module Migration {
  import opened Extents
  import opened ExtentTrees
  import opened ExtentSearch
  import opened Inodes
  import opened ExtentGrow
  import opened ExtentInsert
  import opened MigrateRanges
  import opened MigrateTree
  import I = IndirectTree
  import F = IndirectFile

  lemma CleanPart(a: multiset<nat>, b: multiset<nat>)
    requires Clean(b) && a <= b
    ensures Clean(a)
  {
    forall x ensures a[x] <= 1 {
      assert b[x] <= 1;
    }
  }

  /** Tree blocks, recorded data and free blocks stay clean as long as the data is part of `all`. */
  lemma Headroom(nodes: multiset<nat>, free: multiset<nat>, data: multiset<nat>, e: multiset<nat>, all: multiset<nat>)
    requires Clean(nodes + free + all) && data + e <= all
    ensures Clean(nodes + data + free + e)
  {
    assert nodes + data + free + e == nodes + free + (data + e);
    CleanPart(nodes + free + (data + e), nodes + free + all);
  }

  lemma Cancel(a: multiset<nat>, b: multiset<nat>, c: multiset<nat>, a': multiset<nat>, b': multiset<nat>,
               c': multiset<nat>, e: multiset<nat>)
    requires a' + b' + c' == (a + b + c) + e && b' == b + e
    ensures a' + c' == a + c
  {
    forall x ensures (a' + c')[x] == (a + c)[x] {
      assert (a' + b' + c')[x] == ((a + b + c) + e)[x];
    }
  }

  /** What has been read, the data blocks read, and how many runs were too long for an extent. */
  datatype Progress = Progress(seen: Seen, data: multiset<nat>, long: nat)

  ghost predicate NoZero(seen: Seen) {
    forall x :: x in seen ==> seen[x] != 0
  }

  ghost function Finished(g: Progress, first: nat, last: nat): Progress
    requires first <= last
  {
    g.(long := g.long + Excess(first, last))
  }

  ghost function ReadOne(g: Progress, curr: nat, q: nat): Progress {
    g.(seen := g.seen[curr := q], data := g.data + multiset{q})
  }

  /** Everything read so far, all below `bound`, is in the extents s, as far as it fits. */
  ghost predicate Done(s: seq<Extent>, g: Progress, bound: nat) {
    && Built(LMap(s), g.seen, bound, g.long) && Met(g.seen, bound, g.long)
    && (forall x :: x in g.seen ==> x < bound)
    && Data(s) <= g.data && (g.long == 0 ==> Data(s) == g.data)
  }

  /** A run is being collected; everything before it is in the extents s. */
  ghost predicate Open(s: seq<Extent>, g: Progress, first: nat, last: nat, p: nat) {
    && Pending(g.seen, first, last, p) && Built(LMap(s), g.seen, first, g.long) && Met(g.seen, first, g.long)
    && Accounted(Data(s), p, last - first + 1, g.long, g.data)
  }

  ghost predicate Accounted(d: multiset<nat>, p: nat, n: nat, long: nat, data: multiset<nat>) {
    d + Run(p, n) <= data && (long == 0 ==> d + Run(p, n) == data)
  }

  lemma AddBlock(d: multiset<nat>, p: nat, n: nat, next: nat, long: nat, data: multiset<nat>, q: nat)
    requires next == n + 1 && q == p + n
    requires if n == 0 then d <= data && (long == 0 ==> d == data) else Accounted(d, p, n, long, data)
    ensures Accounted(d, p, next, long, data + multiset{q})
  {
    assert Run(p, next) == Run(p, n) + multiset{q};
    assert d + (Run(p, n) + multiset{q}) == (d + Run(p, n)) + multiset{q};
    assert n == 0 ==> d + Run(p, n) == d;
  }

  /** The extents s' are those of s and e. */
  ghost predicate Added(s: seq<Extent>, s': seq<Extent>, e: Extent) {
    Len(e) > 0 && Sorted(s) && Sorted(s') && LMap(s') == LMap(s) + MapOf(e) && MapOf(e).Keys !! LMap(s).Keys
  }

  lemma FinishDone(s: seq<Extent>, s': seq<Extent>, g: Progress, first: nat, last: nat, p: nat, e: Extent,
                   g': Progress, bound: nat)
    requires Open(s, g, first, last, p) && e == RangeExtent(first, last, p) && Added(s, s', e)
    requires g' == Finished(g, first, last) && bound == last + 1
    ensures Done(s', g', bound)
  {
    FinishBuilt(LMap(s), g.seen, first, last, p, g.long, g'.long);
    FinishMet(g.seen, first, last, p, g.long, g'.long);
    DataAdded(s, s', RangeExtent(first, last, p));
    RangeData(first, last, p);
    KeepBelow(Data(s), DataOf(RangeExtent(first, last, p)), Run(p, last - first + 1), g.data);
  }

  lemma KeepBelow(d: multiset<nat>, e: multiset<nat>, r: multiset<nat>, data: multiset<nat>)
    requires e <= r && d + r <= data
    ensures d + e <= data
  {
  }

  lemma ExtendOpen(s: seq<Extent>, g: Progress, first: nat, last: nat, p: nat, curr: nat, q: nat, g': Progress)
    requires Open(s, g, first, last, p) && curr == last + 1 && q == p + (curr - first) && g' == ReadOne(g, curr, q)
    ensures Open(s, g', first, curr, p)
  {
    ExtendAccount(Data(s), p, first, last, curr, q, g, g');
    ExtendRange(LMap(s), g.seen, first, last, p, g.long, curr, q, g'.seen);
  }

  lemma ExtendAccount(d: multiset<nat>, p: nat, first: nat, last: nat, curr: nat, q: nat, g: Progress, g': Progress)
    requires first <= last && curr == last + 1 && q == p + (curr - first) && g' == ReadOne(g, curr, q)
    requires Accounted(d, p, last - first + 1, g.long, g.data)
    ensures Accounted(d, p, curr - first + 1, g'.long, g'.data)
  {
    AddBlock(d, p, last - first + 1, curr - first + 1, g.long, g.data, q);
  }

  lemma StartOpen(s: seq<Extent>, g: Progress, bound: nat, curr: nat, q: nat)
    requires Done(s, g, bound) && bound <= curr
    requires bound == curr && bound > 0 && bound - 1 in g.seen ==> g.seen[bound - 1] + 1 != q
    ensures Open(s, ReadOne(g, curr, q), curr, curr, q)
  {
    StartRange(LMap(s), g.seen, bound, curr, q, g.long, ReadOne(g, curr, q).seen);
    AddBlock(Data(s), q, 0, 1, g.long, g.data, q);
  }

  /** The new extent overlaps no other one, and its blocks are not used elsewhere. */
  lemma RangeFits(s: seq<Extent>, nodes: multiset<nat>, free: multiset<nat>, g: Progress,
                  first: nat, last: nat, p: nat, e: Extent, all: multiset<nat>)
    requires Open(s, g, first, last, p) && Sorted(s) && last < EXT_MAX_BLOCKS
    requires e == RangeExtent(first, last, p) && Len(e) > 0
    requires g.data <= all && Clean(nodes + free + all)
    ensures Insertable(s, e) && MapOf(e).Keys !! LMap(s).Keys
    ensures Clean(nodes + Data(s) + free + DataOf(e))
  {
    RangeData(first, last, p);
    KeepBelow(Data(s), DataOf(e), Run(p, last - first + 1), g.data);
    InsertableIff(s, e);
    Headroom(nodes, free, Data(s), DataOf(e), all);
  }

  /** Inserting an extent moves blocks between the tree and the free pool only. */
  lemma SamePool(s: seq<Extent>, nodes: multiset<nat>, free: multiset<nat>,
                 s': seq<Extent>, nodes': multiset<nat>, free': multiset<nat>, e: Extent, err: Status)
    requires err == Ok ==> Added(s, s', e) && nodes' + Data(s') + free' == (nodes + Data(s) + free) + DataOf(e)
    requires err != Ok ==> s' == s && nodes' + Data(s') + free' == nodes + Data(s) + free
    ensures nodes' + free' == nodes + free
  {
    if err == Ok {
      DataAdded(s, s', e);
      Cancel(nodes, Data(s), free, nodes', Data(s'), free', DataOf(e));
    } else {
      Cancel(nodes, Data(s), free, nodes', Data(s'), free', multiset{});
    }
  }

  // ----- why a migration can fail ------------------------------------------------------------

  /** A tree over the blocks of the pool, for a part of the data, that has no place for one more part of it. */
  ghost predicate Refused(t: Tree, free: set<nat>, e: Extent, cap: nat, blocks: nat, pool: multiset<nat>,
                          all: multiset<nat>)
  {
    && WellFormed(t, cap) && Searchable(t) && Blocks(t) + multiset(free) == pool
    && Len(e) > 0 && Data(Exts(t)) + DataOf(e) <= all
    && !Joins(t, e) && !Placeable(t, e.block, Within(blocks, free))
  }

  /** The tree has no place for the file's blocks, `blocks` being granted for each extent. */
  ghost predicate NoPlace(cap: nat, blocks: nat, pool: multiset<nat>, all: multiset<nat>) {
    exists t, free, e :: Refused(t, free, e, cap, blocks, pool, all)
  }

  /** The data holds a run whose length is a multiple of 65536, so that it looks empty in 16 bits. */
  ghost predicate LooksEmpty(all: multiset<nat>) {
    exists p: nat, n: nat :: WrapsToZero(p, n, all)
  }

  ghost predicate WrapsToZero(p: nat, n: nat, all: multiset<nat>) {
    n > 0 && n % 0x1_0000 == 0 && Run(p, n) <= all
  }

  /** The steps of a migration fail only for one of these reasons. */
  ghost predicate Excused(err: Status, cap: nat, blocks: nat, pool: multiset<nat>, all: multiset<nat>) {
    match err
    case Ok => true
    case ENOSPC => NoPlace(cap, blocks, pool, all)
    case EIO => LooksEmpty(all)
    case EAGAIN => false
  }

  lemma {:induction false} CostBound(t: Tree, q: Path, k: nat)
    requires k <= |q|
    ensures NewNodes(t, q, k) <= |q| + 1
  {
    if k > 0 {
      var up: nat := k - 1;
      CostBound(t, q, up);
    }
  }

  /** There is no place only if fewer blocks can be had than the tree has levels with its root. */
  lemma NoPlaceMeans(cap: nat, blocks: nat, pool: multiset<nat>, all: multiset<nat>)
    requires NoPlace(cap, blocks, pool, all)
    ensures exists t, free: set<nat> ::
      && WellFormed(t, cap) && Blocks(t) + multiset(free) == pool && Data(Exts(t)) <= all
      && (blocks <= Depth(t) || |free| <= Depth(t))
  {
    var t, free, e :| Refused(t, free, e, cap, blocks, pool, all);
    CostOver(t, free, e, blocks);
    PartOf(Data(Exts(t)), DataOf(e), all);
  }

  lemma CostOver(t: Tree, free: set<nat>, e: Extent, blocks: nat)
    requires Shape(t) && Searchable(t) && !Placeable(t, e.block, Within(blocks, free))
    ensures blocks <= Depth(t) || |free| <= Depth(t)
  {
    var q := FindPath(t, e.block);
    FindPathIn(t, e.block);
    CostBound(t, q, |q|);
  }

  lemma PartOf(a: multiset<nat>, b: multiset<nat>, c: multiset<nat>)
    requires a + b <= c
    ensures a <= c
  {
  }

  lemma InsertRefused(t: Tree, free: set<nat>, e: Extent, cap: nat, granted: nat, blocks: nat, pool: multiset<nat>,
                      all: multiset<nat>)
    requires WellFormed(t, cap) && Searchable(t) && Blocks(t) + multiset(free) == pool
    requires Len(e) > 0 && Data(Exts(t)) + DataOf(e) <= all && blocks <= granted
    requires !Joins(t, e) && !Placeable(t, e.block, Within(granted, free))
    ensures NoPlace(cap, blocks, pool, all)
  {
    assert Refused(t, free, e, cap, blocks, pool, all);
  }

  /** The run being collected is part of the data, and an empty extent comes from a run that wraps. */
  lemma RunWraps(s: seq<Extent>, g: Progress, first: nat, last: nat, p: nat, all: multiset<nat>)
    requires Open(s, g, first, last, p) && g.data <= all
    ensures Len(RangeExtent(first, last, p)) == 0 ==> LooksEmpty(all)
    ensures Len(RangeExtent(first, last, p)) > 0 ==> Data(s) + DataOf(RangeExtent(first, last, p)) <= all
  {
    var n := last - first + 1;
    assert Run(p, n) <= Data(s) + Run(p, n) <= g.data;
    if Len(RangeExtent(first, last, p)) == 0 {
      assert WrapsToZero(p, n, all);
    } else {
      RangeData(first, last, p);
      KeepBelow(Data(s), DataOf(RangeExtent(first, last, p)), Run(p, n), g.data);
    }
  }

  /** The pointers of a block and the branches they lead to. */
  ghost predicate SlotsOk(disk: F.Disk, ptrs: seq<nat>, kids: seq<I.Branch>, d: nat, P: nat) {
    && |kids| == |ptrs| == P
    && forall i :: 0 <= i < P ==> ptrs[i] == I.Ptr(kids[i]) && I.Uniform(kids[i], d, P) && F.Held(disk, kids[i], P)
  }

  lemma SlotsOf(disk: F.Disk, b: I.Branch, depth: nat, d: nat, P: nat)
    requires depth == d + 1 && b.Node? && I.Uniform(b, depth, P) && F.Held(disk, b, P)
    ensures b.blk in disk && SlotsOk(disk, disk[b.blk], b.kids, d, P)
    ensures DataIn(b) == DataInAll(b.kids)
  {
  }

  /** The logical blocks of the file are 32-bit numbers, as the size limit of the file system sees to. */
  ghost predicate InReach(src: F.IndFile)
    reads src
  {
    src.P > 0 && forall b: nat :: src.Get(b) != 0 ==> b < EXT_MAX_BLOCKS
  }

  /**
   migrate_struct, with the two inodes. `currBlock` is not reduced to 32 bits: behind the last
   block of the file it only passes holes.
   */
  class Migrator {
    /** The file being migrated; it is only read. */
    const src: F.IndFile
    const tmp: Inode
    /** At least so many tree blocks are granted for each extent. */
    const blocks: nat
    var firstBlock: nat
    var lastBlock: nat
    var currBlock: nat
    var firstPblock: nat
    var lastPblock: nat
    ghost var g: Progress

    constructor (src: F.IndFile, tmp: Inode, blocks: nat)
      ensures this.src == src && this.tmp == tmp && this.blocks == blocks && firstPblock == 0 && currBlock == 0
      ensures g == Progress(map[], multiset{}, 0)
    {
      this.src, this.tmp, this.blocks := src, tmp, blocks;
      firstBlock, lastBlock, currBlock, firstPblock, lastPblock := 0, 0, 0, 0, 0;
      g := Progress(map[], multiset{}, 0);
    }

    /** Blocks of the extent tree and free blocks of the file system. */
    ghost function Pool(): multiset<nat>
      reads tmp
    {
      Blocks(tmp.t) + multiset(tmp.free)
    }

    ghost predicate Fair(err: Status, pool: multiset<nat>, all: multiset<nat>) {
      Excused(err, tmp.cap, blocks, pool, all)
    }

    ghost predicate Cursor()
      reads this, tmp
    {
      if firstPblock == 0 then g.seen == map[] && Done(Exts(tmp.t), g, 0)
      else lastBlock < currBlock && lastBlock < EXT_MAX_BLOCKS
           && Open(Exts(tmp.t), g, firstBlock, lastBlock, firstPblock)
           && lastPblock == firstPblock + (lastBlock - firstBlock)
    }

    ghost predicate Good(all: multiset<nat>)
      reads this, tmp
    {
      && tmp.Valid() && g.data <= all && Clean(Pool() + all)
      && NoZero(g.seen) && Cursor()
    }

    /** finish_range: the collected run becomes one extent. */
    method FinishRange(ghost all: multiset<nat>) returns (err: Status, ghost bound: nat)
      requires Good(all)
      modifies this`firstPblock, this`g, tmp`root, tmp`disk, tmp`free, tmp`t
      ensures Fair(err, old(Pool()), all) && tmp.Valid() && Pool() == old(Pool()) && firstPblock == 0
      ensures g.seen == old(g.seen) && g.data == old(g.data)
      ensures bound == if old(firstPblock) == 0 then 0 else lastBlock + 1
      ensures err == Ok ==> Done(Exts(tmp.t), g, bound)
    {
      if firstPblock == 0 {
        return Ok, 0;
      }
      err, bound := FlushRange(all);
    }

    method FlushRange(ghost all: multiset<nat>) returns (err: Status, ghost bound: nat)
      requires Good(all) && firstPblock != 0
      modifies this`firstPblock, this`g, tmp`root, tmp`disk, tmp`free, tmp`t
      ensures Fair(err, old(Pool()), all) && tmp.Valid() && Pool() == old(Pool()) && firstPblock == 0
      ensures g.seen == old(g.seen) && g.data == old(g.data) && bound == lastBlock + 1
      ensures err == Ok ==> Done(Exts(tmp.t), g, bound)
    {
      ghost var g' := Finished(g, firstBlock, lastBlock);
      bound := lastBlock + 1;
      err := InsertRange(RangeExtent(firstBlock, lastBlock, firstPblock), g', bound, all);
      g, firstPblock := g', 0;
    }

    method InsertRange(newext: Extent, ghost g': Progress, ghost bound: nat,
                       ghost all: multiset<nat>) returns (err: Status)
      requires Good(all) && firstPblock != 0 && newext == RangeExtent(firstBlock, lastBlock, firstPblock)
      requires g' == Finished(g, firstBlock, lastBlock) && bound == lastBlock + 1
      modifies tmp`root, tmp`disk, tmp`free, tmp`t
      ensures Fair(err, old(Pool()), all) && tmp.Valid() && Pool() == old(Pool())
      ensures err == Ok ==> Done(Exts(tmp.t), g', bound)
    {
      ghost var s := Exts(tmp.t);
      err := PutRange(newext, all);
      if err == Ok {
        FinishDone(s, Exts(tmp.t), g, firstBlock, lastBlock, firstPblock, newext, g', bound);
      }
    }

    method PutRange(newext: Extent, ghost all: multiset<nat>) returns (err: Status)
      requires Good(all) && firstPblock != 0 && newext == RangeExtent(firstBlock, lastBlock, firstPblock)
      modifies tmp`root, tmp`disk, tmp`free, tmp`t
      ensures Fair(err, old(Pool()), all) && tmp.Valid() && Pool() == old(Pool())
      ensures err == Ok ==> Added(old(Exts(tmp.t)), Exts(tmp.t), newext)
    {
      ghost var s, nodes, free := Exts(tmp.t), Blocks(tmp.t), multiset(tmp.free);
      RunWraps(s, g, firstBlock, lastBlock, firstPblock, all);
      if Len(newext) > 0 {
        RangeFits(Exts(tmp.t), Blocks(tmp.t), multiset(tmp.free), g, firstBlock, lastBlock, firstPblock, newext, all);
      }
      err := InsertOne(newext, all, nodes + free);
      SamePool(s, nodes, free, Exts(tmp.t), Blocks(tmp.t), multiset(tmp.free), newext, err);
    }

    /** One extent more for the new tree. */
    method InsertOne(newext: Extent, ghost all: multiset<nat>, ghost pool: multiset<nat>) returns (err: Status)
      requires tmp.Valid() && pool == Pool()
      requires Len(newext) > 0 ==> Insertable(Exts(tmp.t), newext) && Clean(tmp.Universe() + DataOf(newext))
      requires Len(newext) > 0 ==> Data(Exts(tmp.t)) + DataOf(newext) <= all
      modifies tmp`root, tmp`disk, tmp`free, tmp`t
      ensures tmp.Valid() && err != EAGAIN
      ensures err == EIO <==> Len(newext) == 0
      ensures err == ENOSPC ==> NoPlace(tmp.cap, blocks, pool, all)
      ensures err == Ok ==> tmp.Contents() == old(tmp.Contents()) + MapOf(newext)
      ensures err == Ok ==> tmp.Universe() == old(tmp.Universe()) + DataOf(newext)
      ensures err != Ok ==> Exts(tmp.t) == old(Exts(tmp.t)) && tmp.Universe() == old(tmp.Universe())
    {
      ghost var t, free := tmp.t, tmp.free;
      WellFormedSearchable(tmp.t);
      var path := tmp.FindExtent(newext.block);
      var room: bool, more: nat := *, *;
      var path';
      ghost var q;
      err, path', q := InsertExtent(tmp, path, newext, false, Supply(room, blocks + more));
      if err == ENOSPC {
        InsertRefused(t, free, newext, tmp.cap, blocks + more, blocks, pool, all);
      }
    }

    /** update_extent_range: one more block of the file. */
    method UpdateRange(pblock: nat, ghost all: multiset<nat>) returns (err: Status)
      requires Good(all) && pblock != 0 && g.data + multiset{pblock} <= all && currBlock < EXT_MAX_BLOCKS
      modifies this, tmp`root, tmp`disk, tmp`free, tmp`t
      ensures Fair(err, old(Pool()), all) && tmp.Valid() && Pool() == old(Pool())
      ensures err == Ok ==>
        Good(all) && currBlock == old(currBlock) + 1 && g.seen == old(g.seen)[old(currBlock) := pblock]
      ensures err == Ok ==> g.data == old(g.data) + multiset{pblock}
    {
      if firstPblock != 0 && lastPblock + 1 == pblock && lastBlock + 1 == currBlock {
        AddOn(pblock);
        err := Ok;
      } else {
        err := Restart(pblock, all);
      }
      StillNonZero(old(g.seen), old(currBlock), pblock);
    }

    method Restart(pblock: nat, ghost all: multiset<nat>) returns (err: Status)
      requires Good(all) && pblock != 0 && currBlock < EXT_MAX_BLOCKS
      requires firstPblock == 0 || lastPblock + 1 != pblock || lastBlock + 1 != currBlock
      modifies this, tmp`root, tmp`disk, tmp`free, tmp`t
      ensures Fair(err, old(Pool()), all) && tmp.Valid() && Pool() == old(Pool())
      ensures err == Ok ==>
        Cursor() && currBlock == old(currBlock) + 1 && g.seen == old(g.seen)[old(currBlock) := pblock]
      ensures err == Ok ==> g.data == old(g.data) + multiset{pblock}
    {
      ghost var bound;
      err, bound := FinishBefore(pblock, all);
      if err == Ok {
        StartNew(pblock, bound);
      }
    }

    /** finish_range before a block that does not continue the run. */
    method FinishBefore(pblock: nat, ghost all: multiset<nat>) returns (err: Status, ghost bound: nat)
      requires Good(all) && pblock != 0
      requires firstPblock == 0 || lastPblock + 1 != pblock || lastBlock + 1 != currBlock
      modifies this`firstPblock, this`g, tmp`root, tmp`disk, tmp`free, tmp`t
      ensures Fair(err, old(Pool()), all) && tmp.Valid() && Pool() == old(Pool())
      ensures g.seen == old(g.seen) && g.data == old(g.data)
      ensures err == Ok ==> Done(Exts(tmp.t), g, bound) && bound <= currBlock
      ensures err == Ok && bound == currBlock && bound > 0 && bound - 1 in g.seen ==> g.seen[bound - 1] + 1 != pblock
    {
      RunEnds(pblock);
      err, bound := FinishRange(all);
    }

    /** The block does not continue the open run. */
    lemma RunEnds(pblock: nat)
      requires Cursor() && (firstPblock == 0 || lastPblock + 1 != pblock || lastBlock + 1 != currBlock)
      ensures firstPblock != 0 ==> lastBlock < currBlock
      ensures firstPblock != 0 && lastBlock + 1 == currBlock && lastBlock in g.seen ==> g.seen[lastBlock] + 1 != pblock
    {
    }

    /** "See if we can add on to the existing range". */
    method AddOn(pblock: nat)
      requires Cursor() && pblock != 0 && firstPblock != 0 && lastPblock + 1 == pblock && lastBlock + 1 == currBlock
      requires currBlock < EXT_MAX_BLOCKS
      modifies this
      ensures Cursor() && currBlock == old(currBlock) + 1 && g == ReadOne(old(g), old(currBlock), pblock)
    {
      ExtendOpen(Exts(tmp.t), g, firstBlock, lastBlock, firstPblock, currBlock, pblock, ReadOne(g, currBlock, pblock));
      lastPblock, lastBlock := pblock, currBlock;
      g := ReadOne(g, currBlock, pblock);
      currBlock := currBlock + 1;
    }

    /** "Start a new range". */
    method StartNew(pblock: nat, ghost bound: nat)
      requires pblock != 0 && Done(Exts(tmp.t), g, bound) && bound <= currBlock < EXT_MAX_BLOCKS
      requires bound == currBlock && bound > 0 && bound - 1 in g.seen ==> g.seen[bound - 1] + 1 != pblock
      modifies this
      ensures Cursor() && currBlock == old(currBlock) + 1 && g == ReadOne(old(g), old(currBlock), pblock)
    {
      StartOpen(Exts(tmp.t), g, bound, currBlock, pblock);
      firstPblock, lastPblock := pblock, pblock;
      firstBlock, lastBlock := currBlock, currBlock;
      g := ReadOne(g, currBlock, pblock);
      currBlock := currBlock + 1;
    }

    // ----- walking the indirect blocks -----------------------------------------------------

    ghost function Here(): Mark
      reads this
    {
      Mark(g.seen, g.data, currBlock)
    }

    lemma CursorBelow()
      requires Cursor()
      ensures KeysBelow(g.seen, currBlock)
    {
    }

    /**
     update_ind_extent_range, update_dind_extent_range and update_tind_extent_range, which
     differ only in the number of levels (`depth`) below the block they read: every pointer
     in turn; a zero pointer skips the blocks it would have led to.
     */
    method UpdateBranch(pblock: nat, depth: nat, ghost b: I.Branch, ghost all: multiset<nat>) returns (err: Status)
      requires Good(all) && depth > 0 && b.Node? && pblock == b.blk && I.Uniform(b, depth, src.P)
      requires F.Held(src.disk, b, src.P) && g.data + DataIn(b) <= all
      requires Confined(b, depth, currBlock, src.P, EXT_MAX_BLOCKS)
      modifies this, tmp`root, tmp`disk, tmp`free, tmp`t
      ensures Fair(err, old(Pool()), all) && tmp.Valid() && Pool() == old(Pool())
      ensures err == Ok ==> Good(all) && Advanced(old(Here()), Here(), b, depth, src.P)
      decreases depth, 1
    {
      ghost var m0 := Here();
      SlotsOf(src.disk, b, depth, depth - 1, src.P);
      CursorBelow();
      StartAdvance(m0, b.kids, depth - 1, src.P);
      err := UpdateSlots(src.disk[pblock], depth - 1, depth, b, m0, all);
    }

    /** The loop over the pointers of a block. */
    method UpdateSlots(ptrs: seq<nat>, d: nat, ghost depth: nat, ghost b: I.Branch, ghost m0: Mark,
                       ghost all: multiset<nat>)
      returns (err: Status)
      requires depth == d + 1 && b.Node? && Good(all) && SlotsOk(src.disk, ptrs, b.kids, d, src.P)
      requires AdvancedTo(m0, Here(), b.kids, 0, d, src.P)
      requires m0.data + DataInAll(b.kids) <= all && Confined(b, depth, m0.at, src.P, EXT_MAX_BLOCKS)
      modifies this, tmp`root, tmp`disk, tmp`free, tmp`t
      ensures Fair(err, old(Pool()), all) && tmp.Valid() && Pool() == old(Pool())
      ensures err == Ok ==> Good(all) && Advanced(m0, Here(), b, depth, src.P)
      decreases depth, 0, 1
    {
      err := Ok;
      var i := 0;
      while i < src.P && err == Ok
        invariant i <= src.P && Fair(err, old(Pool()), all) && tmp.Valid() && Pool() == old(Pool())
        invariant err == Ok ==> Good(all) && AdvancedTo(m0, Here(), b.kids, i, d, src.P)
      {
        var next := i + 1;
        err := UpdateSlot(ptrs[i], d, depth, b, b.kids, i, next, m0, all);
        i := next;
      }
      if err == Ok {
        EndAdvance(m0, Here(), b, i, depth, d, src.P);
      }
    }

    /** One pointer of a block; d levels of indirect blocks hang on it. */
    method UpdateSlot(nr: nat, d: nat, ghost depth: nat, ghost b: I.Branch, ghost kids: seq<I.Branch>, ghost i: nat,
                      ghost next: nat, ghost m0: Mark, ghost all: multiset<nat>)
      returns (err: Status)
      requires Good(all) && i < next == i + 1 <= |kids| == src.P && nr == I.Ptr(kids[i]) && I.Uniform(kids[i], d, src.P)
      requires F.Held(src.disk, kids[i], src.P) && AdvancedTo(m0, Here(), kids, i, d, src.P)
      requires m0.data + DataInAll(kids) <= all && depth == d + 1
      requires b.Node? && kids == b.kids && Confined(b, depth, m0.at, src.P, EXT_MAX_BLOCKS)
      modifies this, tmp`root, tmp`disk, tmp`free, tmp`t
      ensures Fair(err, old(Pool()), all) && tmp.Valid() && Pool() == old(Pool())
      ensures err == Ok ==> Good(all) && AdvancedTo(m0, Here(), kids, next, d, src.P)
      decreases depth, 0, 0
    {
      ghost var m1 := Here();
      SlotFits(m0, m1, kids, i, next, d, src.P, all);
      SlotConfined(m0, m1, b, kids, i, depth, d, src.P);
      err := UpdateKid(nr, d, kids[i], all);
      if err == Ok {
        NextAdvance(m0, m1, Here(), kids, i, next, d, src.P);
      }
    }

    /** A pointer with d levels behind it: absent, a data block, or an indirect block. */
    method UpdateKid(nr: nat, d: nat, ghost b: I.Branch, ghost all: multiset<nat>) returns (err: Status)
      requires Good(all) && nr == I.Ptr(b) && I.Uniform(b, d, src.P) && F.Held(src.disk, b, src.P)
      requires g.data + DataIn(b) <= all && Confined(b, d, currBlock, src.P, EXT_MAX_BLOCKS)
      modifies this, tmp`root, tmp`disk, tmp`free, tmp`t
      ensures Fair(err, old(Pool()), all) && tmp.Valid() && Pool() == old(Pool())
      ensures err == Ok ==> Good(all) && Advanced(old(Here()), Here(), b, d, src.P)
      decreases d, 2
    {
      ghost var m := Here();
      CursorBelow();
      if nr == 0 {
        HoleAdvance(m, d, src.P);
        currBlock := currBlock + Span(d, src.P);
        err := Ok;
      } else if d == 0 {
        DataAdvance(m, nr, src.P);
        err := UpdateRange(nr, all);
      } else {
        err := UpdateBranch(nr, d, b, all);
      }
    }

    /** The reading part of ext4_ext_migrate: twelve direct pointers, then the three roots. */
    method ReadTops(ghost all: multiset<nat>) returns (err: Status)
      requires Good(all) && src.Stored() && InReach(src)
      requires currBlock == 0 && g == Progress(map[], multiset{}, 0) && DataInAll(src.tops) <= all
      modifies this, tmp`root, tmp`disk, tmp`free, tmp`t
      ensures Fair(err, old(Pool()), all) && tmp.Valid() && Pool() == old(Pool())
      ensures err == Ok ==> Good(all) && ReadAll(Here(), src.tops, src.P)
    {
      var i := 0;
      err := Ok;
      while i < I.TIND && err == Ok
        invariant i <= I.TIND && Fair(err, old(Pool()), all) && tmp.Valid() && Pool() == old(Pool())
        invariant err == Ok ==> Good(all) && ReadTo(Here(), src.tops, i, src.P)
      {
        var next := i + 1;
        err := UpdateTop(i, next, all);
        i := next;
      }
      if err == Ok {
        err := UpdateTind(all);
      }
    }

    method UpdateTop(i: nat, ghost next: nat, ghost all: multiset<nat>) returns (err: Status)
      requires Good(all) && src.Stored() && InReach(src) && DataInAll(src.tops) <= all
      requires i < next == i + 1 <= I.TIND && ReadTo(Here(), src.tops, i, src.P)
      modifies this, tmp`root, tmp`disk, tmp`free, tmp`t
      ensures Fair(err, old(Pool()), all) && tmp.Valid() && Pool() == old(Pool())
      ensures err == Ok ==> Good(all) && ReadTo(Here(), src.tops, next, src.P)
    {
      ghost var m := Here();
      assert src.TopOk(i);
      TopFits(m, src.tops, i, next, src.P, all);
      ReachTop(src, i);
      err := UpdateKid(src.idata[i], F.TopDepth(i), src.tops[i], all);
      if err == Ok {
        ReadNext(m, Here(), src.tops, i, next, src.P);
      }
    }

    method UpdateTind(ghost all: multiset<nat>) returns (err: Status)
      requires Good(all) && src.Stored() && InReach(src) && DataInAll(src.tops) <= all
      requires ReadTo(Here(), src.tops, I.TIND, src.P)
      modifies this, tmp`root, tmp`disk, tmp`free, tmp`t
      ensures Fair(err, old(Pool()), all) && tmp.Valid() && Pool() == old(Pool())
      ensures err == Ok ==> Good(all) && ReadAll(Here(), src.tops, src.P)
    {
      ghost var m := Here();
      assert src.TopOk(I.TIND);
      TopFits(m, src.tops, I.TIND, I.N_BLOCKS, src.P, all);
      ReachTop(src, I.TIND);
      var nr := src.idata[I.TIND];
      err := Ok;
      if nr != 0 {
        err := UpdateBranch(nr, 3, src.tops[I.TIND], all);
        if err == Ok {
          ReadLast(m, Here(), src.tops, src.P);
        }
      } else {
        HoleAdvance(m, 3, src.P);
        ReadLast(m, m.(at := m.at + Span(3, src.P)), src.tops, src.P);
      }
    }
  }

  lemma TopFits(m: Mark, tops: seq<I.Branch>, i: nat, next: nat, P: nat, all: multiset<nat>)
    requires i < next == i + 1 <= |tops| == I.N_BLOCKS && ReadTo(m, tops, i, P)
    requires DataInAll(tops) <= all
    ensures m.data + DataIn(tops[i]) <= all
  {
    InAllNext(tops, i);
    DataPrefix(tops, next);
  }

  lemma ReachTop(src: F.IndFile, i: nat)
    requires src.P > 0 && src.Stored() && InReach(src) && i < I.N_BLOCKS
    ensures Confined(src.tops[i], F.TopDepth(i), TopBase(i, src.P), src.P, EXT_MAX_BLOCKS)
  {
    assert src.TopOk(i);
    forall b: nat | BlockOf(src.tops, src.P, b) != 0 ensures b < EXT_MAX_BLOCKS {
      assert src.Get(b) != 0;
    }
    TopBelow(src.tops, src.P, i, EXT_MAX_BLOCKS);
  }

  lemma StillNonZero(seen: Seen, curr: nat, q: nat)
    requires NoZero(seen) && q != 0
    ensures NoZero(seen[curr := q])
  {
  }

  lemma SlotConfined(m0: Mark, m1: Mark, b: I.Branch, kids: seq<I.Branch>, i: nat, depth: nat, d: nat, P: nat)
    requires b.Node? && kids == b.kids && i < |kids| == P && depth == d + 1 && AdvancedTo(m0, m1, kids, i, d, P)
    requires Confined(b, depth, m0.at, P, EXT_MAX_BLOCKS)
    ensures Confined(kids[i], d, m1.at, P, EXT_MAX_BLOCKS)
  {
    ConfinedKid(b, depth, d, m0.at, P, EXT_MAX_BLOCKS, i, m1.at);
  }

  /** There is room for the next branch in the data blocks. */
  lemma SlotFits(m0: Mark, m1: Mark, kids: seq<I.Branch>, i: nat, next: nat, d: nat, P: nat, all: multiset<nat>)
    requires i < next == i + 1 <= |kids| == P && AdvancedTo(m0, m1, kids, i, d, P)
    requires m0.data + DataInAll(kids) <= all
    ensures m1.data + DataIn(kids[i]) <= all
  {
    InAllNext(kids, i);
    DataPrefix(kids, next);
    KeepBelow(m0.data, DataInAll(kids[..next]), DataInAll(kids), all);
    assert m0.data + (DataInAll(kids[..i]) + DataIn(kids[i])) == (m0.data + DataInAll(kids[..i])) + DataIn(kids[i]);
  }
}
