/**
 An inode mapped by extents: the root node in the inode body, the block map holding
 the other nodes, and the pool of free blocks. The ghost field `t` is the tree that
 root and disk store; `Stored` ties them together.
 */
module Inodes {
  import opened Extents
  import opened ExtentTrees
  import opened ExtentSearch

  /** Where a node lives: p_bh == NULL means the inode body. */
  datatype Loc = InInode | InBlock(b: nat)

  /** p_ext / p_idx: NULL, or a slot number relative to the first entry. */
  datatype Cursor = Null | Slot(i: int)

  /** One element of the path array: p_hdr and p_bh (loc), p_idx or p_ext (pos), p_block. */
  datatype Step = Step(loc: Loc, pos: Cursor, pblock: nat)

  datatype Status = Ok | ENOSPC | EIO | EAGAIN

  /**
   What an operation is given: whether the journal has room for one credit more, and how
   many meta-data blocks the allocator grants before it refuses one.
   */
  datatype Supply = Supply(room: bool, blocks: nat)

  /** Blocks that can be had: as many as are granted, as long as some are free. */
  ghost function Within(blocks: nat, free: set<nat>): nat {
    Min(blocks, |free|)
  }

  ghost function LocAt(t: Tree, p: Path): Loc
    requires Shape(t) && PathIn(t, p)
  {
    if p == [] then InInode else InBlock(BlockAt(t, p))
  }

  /** Element k of the path array names the node at q[..k] and the child taken from it. */
  ghost predicate StepOk(t: Tree, q: Path, path: seq<Step>, k: nat)
    requires Shape(t) && k <= |q| && k < |path|
  {
    && PathIn(t, q[..k])
    && path[k].loc == LocAt(t, q[..k])
    && (k < |q| ==> path[k].pos == Slot(q[k]))
  }

  /** The array `path` walks the tree along q and names each node on the way. */
  ghost predicate Walks(t: Tree, q: Path, path: seq<Step>)
    requires Shape(t)
  {
    && PathIn(t, q)
    && |path| == |q| + 1
    && forall k :: 0 <= k <= |q| ==> StepOk(t, q, path, k)
  }

  /** p_block of an index level, as left by the search: the block of the child taken. */
  ghost predicate BlockOk(t: Tree, q: Path, path: seq<Step>, k: nat)
    requires Shape(t) && k < |q| && k < |path|
  {
    PathIn(t, q[..k + 1]) && path[k].pblock == BlockAt(t, q[..k + 1])
  }

  /** The part of a path array a search has filled in on its way down to q. */
  ghost predicate Filled(t: Tree, q: Path, path: seq<Step>)
    requires Shape(t)
  {
    |path| == |q| && forall k :: 0 <= k < |q| ==> StepOk(t, q, path, k) && BlockOk(t, q, path, k)
  }

  lemma StepExtend(t: Tree, q: Path, q': Path, path: seq<Step>, path': seq<Step>, k: nat)
    requires Shape(t) && k < |q| && |path| == |q| && StepOk(t, q, path, k) && BlockOk(t, q, path, k)
    requires q <= q' && path <= path'
    ensures StepOk(t, q', path', k) && BlockOk(t, q', path', k)
  {
    assert q'[..k] == q[..k] && q'[..k + 1] == q[..k + 1];
  }

  lemma FillOne(t: Tree, q: Path, path: seq<Step>, pos: nat, pblock: nat)
    requires Shape(t) && Filled(t, q, path) && PathIn(t, q) && PathIn(t, q + [pos])
    requires pblock == BlockAt(t, q + [pos])
    ensures Filled(t, q + [pos], path + [Step(LocAt(t, q), Slot(pos), pblock)])
  {
    var q', path' := q + [pos], path + [Step(LocAt(t, q), Slot(pos), pblock)];
    forall k | 0 <= k < |q'| ensures StepOk(t, q', path', k) && BlockOk(t, q', path', k) {
      if k < |q| {
        StepExtend(t, q, q', path, path', k);
      } else {
        assert q'[..k] == q && q'[..k + 1] == q';
      }
    }
  }

  lemma FillLeaf(t: Tree, q: Path, path: seq<Step>, s: Step)
    requires Shape(t) && Filled(t, q, path) && PathIn(t, q) && s.loc == LocAt(t, q)
    ensures Walks(t, q, path + [s])
    ensures forall k :: 0 <= k < |q| ==> BlockOk(t, q, path + [s], k)
  {
    var path' := path + [s];
    assert q[..|q|] == q;
    forall k | 0 <= k < |q| ensures StepOk(t, q, path', k) && BlockOk(t, q, path', k) {
      StepExtend(t, q, q, path, path', k);
    }
  }

  ghost function LeafCursor(exts: seq<Extent>, b: nat): Cursor {
    if exts == [] then Null else Slot(Scan(Starts(exts), b))
  }

  /** The path the search for b produces. */
  ghost predicate SearchPath(t: Tree, b: nat, path: seq<Step>)
    requires Shape(t) && Searchable(t)
  {
    FindPathIn(t, b);
    && Walks(t, FindPath(t, b), path)
    && path[|path| - 1].pos == LeafCursor(At(t, FindPath(t, b)).exts, b)
  }

  /** No block has two uses, and the first blocks of the disk (boot block, superblock) have none. */
  ghost predicate Clean(u: multiset<nat>) {
    NoDup(u) && forall x :: x in u ==> x > ROOT_CAP
  }

  lemma FindPathStep(t: Tree, block: nat) returns (pos: nat)
    requires Shape(t) && Searchable(t) && t.Index?
    ensures pos == Scan(Keys(t.idx), block) < |t.kids| && Shape(t.kids[pos]) && Searchable(t.kids[pos])
    ensures FindPath(t, block) == [pos] + FindPath(t.kids[pos], block)
  {
    ScanPicks(Keys(t.idx), block);
    pos := Scan(Keys(t.idx), block);
  }

  lemma PathAssoc(q: Path, pos: nat, r: Path)
    ensures q + ([pos] + r) == q + [pos] + r
  {
  }

  class Inode {
    /** Entries per tree block: (blocksize - 12) / 12, at least 84. */
    const cap: nat
    var root: Node
    var disk: Disk
    /** Blocks the allocator may hand out. */
    var free: set<nat>
    /** Physical blocks zeroed by sb_issue_zeroout so far. */
    var zeroed: set<nat>
    ghost var t: Tree

    /** ext4_ext_tree_init: an empty root in the inode. */
    constructor (cap: nat, free: set<nat>)
      requires cap > ROOT_CAP && Clean(multiset(free))
      ensures Valid() && this.cap == cap && this.free == free && zeroed == {}
      ensures Exts(t) == [] && Contents() == map[] && Universe() == multiset(free)
    {
      this.cap, this.free, disk, zeroed := cap, free, map[], {};
      root := LeafNode(ROOT_CAP, []);
      t := Leaf(ROOT_CAP, []);
    }

    ghost predicate Stored()
      reads this
    {
      && Shape(t)
      && root == Top(t)
      && Rep(disk, t)
    }

    /** Every block the file system knows: tree nodes, data, free blocks. */
    ghost function Universe(): multiset<nat>
      reads this
    {
      Blocks(t) + Data(Exts(t)) + multiset(free)
    }

    ghost predicate Valid()
      reads this
    {
      && cap > ROOT_CAP
      && Stored()
      && WellFormed(t, cap)
      && Clean(Universe())
    }

    /** The file: what each logical block maps to. */
    ghost function Contents(): LogicalMap
      reads this
    {
      LMap(Exts(t))
    }

    function NodeAt(loc: Loc): Node
      requires loc.InBlock? ==> loc.b in disk
      reads this
    {
      match loc
      case InInode => root
      case InBlock(b) => disk[b]
    }

    lemma NodeOnPath(p: Path)
      requires Stored() && PathIn(t, p)
      ensures LocAt(t, p).InBlock? ==> LocAt(t, p).b in disk
      ensures NodeAt(LocAt(t, p)) == Top(At(t, p))
    {
      AtRep(disk, t, p);
    }

    /** ext4_ext_find_extent */
    method FindExtent(block: nat) returns (path: seq<Step>)
      requires Stored() && Searchable(t)
      ensures SearchPath(t, block, path)
      ensures forall k :: 0 <= k < |FindPath(t, block)| ==> BlockOk(t, FindPath(t, block), path, k)
    {
      var eh, loc := root, InInode;
      var i := NodeDepth(eh);
      path := [];
      ghost var q: Path := [];
      FindPathIn(t, block);
      while i > 0
        invariant PathIn(t, q) && loc == LocAt(t, q) && eh == Top(At(t, q)) && i == Depth(At(t, q))
        invariant Shape(At(t, q)) && Searchable(At(t, q))
        invariant FindPath(t, block) == q + FindPath(At(t, q), block)
        invariant Filled(t, q, path)
        decreases i
      {
        var pos := BinsearchIdx(eh.idx, block);
        var pblock := eh.idx[pos].ptr;
        StepDown(q, pos);
        FillOne(t, q, path, pos, pblock);
        path := path + [Step(loc, Slot(pos), pblock)];
        FindPathDown(q, block);
        eh, loc := disk[pblock], InBlock(pblock);
        i := i - 1;
        q := q + [pos];
      }
      assert FindPath(t, block) == q;
      var last := Step(loc, Null, 0);
      var found, pos := Binsearch(eh.exts, block);
      if found {
        last := Step(loc, Slot(pos), eh.exts[pos].pblk);
      }
      FillLeaf(t, q, path, last);
      path := path + [last];
    }

    lemma FindPathDown(q: Path, block: nat)
      requires Stored() && PathIn(t, q) && Shape(At(t, q)) && Searchable(At(t, q)) && At(t, q).Index?
      ensures var pos := Scan(Keys(At(t, q).idx), block);
        pos < |At(t, q).kids| && PathIn(t, q + [pos]) && At(t, q + [pos]) == At(t, q).kids[pos] &&
        q + FindPath(At(t, q), block) == q + [pos] + FindPath(At(t, q + [pos]), block)
    {
      var pos := FindPathStep(At(t, q), block);
      StepDown(q, pos);
      PathAssoc(q, pos, FindPath(At(t, q).kids[pos], block));
    }

    /** Write a node through a path element; `s` is the subtree the new node heads. */
    method WriteNode(loc: Loc, n: Node, ghost p: Path, ghost s: Tree)
      requires Stored() && NoDup(Blocks(t)) && PathIn(t, p) && loc == LocAt(t, p)
      requires Shape(s) && Depth(s) == Depth(At(t, p)) && n == Top(s) && Rep(disk, s)
      requires p != [] ==> BlockAt(t, p) !in Blocks(s)
      modifies this`root, this`disk, this`t
      ensures Stored() && t == Update(old(t), p, s)
      ensures loc.InInode? ==> disk == old(disk)
      ensures loc.InBlock? ==> disk == old(disk)[loc.b := n]
    {
      UpdateAt(t, p, s);
      if loc.InInode? {
        root := n;
      } else {
        ghost var disk0 := disk;
        disk := disk[loc.b := n];
        forall x | x in Blocks(s) ensures x in disk0 {
          RepBlocks(disk0, s, x);
        }
        RepFrame(disk0, disk, s);
        forall x | x in Blocks(t) ensures x in disk0 {
          RepBlocks(disk0, t, x);
        }
        RepUpdate(disk0, disk, t, p, s, {loc.b});
      }
      t := Update(t, p, s);
    }

    /** Initialise a block that is not part of the tree yet. */
    method WriteFresh(b: nat, n: Node)
      requires Stored() && b !in Blocks(t)
      modifies this`disk
      ensures Stored() && disk == old(disk)[b := n]
    {
      forall x | x in Blocks(t) ensures x in disk {
        RepBlocks(disk, t, x);
      }
      ghost var disk0 := disk;
      disk := disk[b := n];
      RepFrame(disk0, disk, t);
    }

    /** ext4_ext_new_meta_block: 0 when the allocator refuses, or when no block is free. */
    method NewMetaBlock(granted: bool) returns (b: nat)
      requires 0 !in free
      modifies this`free
      ensures b != 0 <==> granted && old(free) != {}
      ensures b == 0 ==> free == old(free)
      ensures b != 0 ==> b in old(free) && free == old(free) - {b}
    {
      b := 0;
      if granted && free != {} {
        b :| b in free;
        free := free - {b};
      }
    }

    /** ext4_free_blocks: none of the run may be free already. */
    method FreeBlocks(p: nat, n: nat)
      requires forall x :: x in Run(p, n) ==> x !in free
      modifies this`free
      ensures multiset(free) == multiset(old(free)) + Run(p, n)
      ensures forall x :: x in free <==> x in old(free) || p <= x < p + n
    {
      ghost var m0: multiset<nat> := multiset(free);
      forall x: nat ensures Run(p, n)[x] == if p <= x < p + n then 1 else 0 {
        RunCount(p, n, x);
      }
      free := free + set x: nat | p <= x < p + n && InRun(p, n, x);
      ghost var m: multiset<nat> := multiset(free);
      assert m == m0 + Run(p, n);
    }

    lemma StepDown(q: Path, pos: nat)
      requires Stored() && PathIn(t, q)
      requires At(t, q).Index? && pos < |At(t, q).kids|
      ensures PathIn(t, q + [pos]) && At(t, q + [pos]) == At(t, q).kids[pos]
      ensures Shape(At(t, q)) && Shape(At(t, q + [pos]))
      ensures BlockAt(t, q + [pos]) == At(t, q).idx[pos].ptr
      ensures At(t, q).idx[pos].ptr in disk
      ensures disk[At(t, q).idx[pos].ptr] == Top(At(t, q + [pos]))
    {
      AtRep(disk, t, q);
      PathJoin(t, q, [pos]);
      BlockAtJoin(t, q, pos);
    }
  }

  lemma {:induction false} BlockAtJoin(t: Tree, q: Path, pos: nat)
    requires Shape(t) && PathIn(t, q) && At(t, q).Index? && pos < |At(t, q).kids|
    ensures PathIn(t, q + [pos]) && Shape(At(t, q))
    ensures BlockAt(t, q + [pos]) == At(t, q).idx[pos].ptr
  {
    PathJoin(t, q, [pos]);
    AtShape(t, q);
    if q != [] {
      assert (q + [pos])[1..] == q[1..] + [pos];
      BlockAtJoin(t.kids[q[0]], q[1..], pos);
    }
  }
}
