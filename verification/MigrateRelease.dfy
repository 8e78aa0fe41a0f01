/**
 Releasing meta-data blocks around a migration: the indirect blocks of the old form
 (free_ind_block), or the extent tree of a migration that failed (free_ext_block).
 */
module MigrateRelease {
  import opened Extents
  import opened ExtentTrees
  import opened Inodes
  import opened MigrateTree
  import I = IndirectTree
  import F = IndirectFile

  /** One block goes back to the free pool. */
  method FreeMeta(inode: Inode, nr: nat)
    requires nr !in inode.free
    modifies inode`free
    ensures multiset(inode.free) == multiset(old(inode.free)) + multiset{nr}
  {
    F.RunOne(nr);
    inode.FreeBlocks(nr, 1);
  }

  lemma LessNoDup(a: multiset<nat>, b: multiset<nat>)
    requires NoDup(b) && a <= b
    ensures NoDup(a)
  {
    forall x ensures a[x] <= 1 {
      assert b[x] <= 1;
    }
  }

  // ----- indirect blocks ---------------------------------------------------------------------

  lemma {:induction false} NoNodes(bs: seq<I.Branch>, P: nat)
    requires forall i :: 0 <= i < |bs| ==> I.Uniform(bs[i], 0, P)
    ensures NodesInAll(bs) == multiset{}
  {
    if bs != [] {
      NoNodes(bs[..|bs| - 1], P);
      assert I.Uniform(bs[|bs| - 1], 0, P);
    }
  }

  lemma {:induction false} NodesPrefix(bs: seq<I.Branch>, i: nat)
    requires i <= |bs|
    ensures NodesInAll(bs[..i]) <= NodesInAll(bs)
    decreases |bs| - i
  {
    if i < |bs| {
      InAllNext(bs, i);
      NodesPrefix(bs, i + 1);
    } else {
      assert bs[..i] == bs;
    }
  }

  /** What is freed next is not free yet. */
  lemma NextApart(bs: seq<I.Branch>, i: nat, next: nat, nr: nat, free0: multiset<nat>)
    requires i < next == i + 1 <= |bs| && NoDup(multiset{nr} + NodesInAll(bs) + free0)
    ensures NoDup(NodesIn(bs[i]) + (free0 + NodesInAll(bs[..i])))
  {
    InAllNext(bs, i);
    NodesPrefix(bs, next);
    LessNoDup(NodesIn(bs[i]) + (free0 + NodesInAll(bs[..i])), multiset{nr} + NodesInAll(bs) + free0);
  }

  lemma LastApart(free: set<nat>, nr: nat, below: multiset<nat>, free0: multiset<nat>)
    requires multiset(free) == free0 + below && NoDup(multiset{nr} + below + free0)
    ensures nr !in free && free0 + below + multiset{nr} == free0 + (multiset{nr} + below)
  {
    var m: multiset<nat> := multiset(free);
    assert (multiset{nr} + below + free0)[nr] <= 1;
    assert m[nr] == 0;
  }

  /**
   free_dind_blocks (depth 2) and free_tind_blocks (depth 3), and the single block of depth 1:
   the indirect blocks below nr, then nr; no data block.
   */
  method FreeIndirect(inode: Inode, src: F.IndFile, nr: nat, depth: nat, ghost b: I.Branch)
    requires 1 <= depth <= 3 && b.Node? && nr == b.blk && I.Uniform(b, depth, src.P) && F.Held(src.disk, b, src.P)
    requires NoDup(NodesIn(b) + multiset(inode.free))
    modifies inode`free
    ensures multiset(inode.free) == multiset(old(inode.free)) + NodesIn(b)
    decreases depth, 1
  {
    ghost var free0: multiset<nat> := multiset(inode.free);
    LowestNode2(b, depth, src.P);
    if depth > 1 {
      FreeBelow(inode, src, nr, depth, b.kids);
    }
    LastApart(inode.free, nr, NodesInAll(b.kids), free0);
    FreeMeta(inode, nr);
  }

  /** The loop of free_dind_blocks and free_tind_blocks over the pointers of block nr. */
  method FreeBelow(inode: Inode, src: F.IndFile, nr: nat, depth: nat, ghost kids: seq<I.Branch>)
    requires 1 < depth <= 3 && F.Lists(src.disk, nr, kids, src.P)
    requires forall i :: 0 <= i < src.P ==> I.Uniform(kids[i], depth - 1, src.P)
    requires NoDup(multiset{nr} + NodesInAll(kids) + multiset(inode.free))
    modifies inode`free
    ensures multiset(inode.free) == multiset(old(inode.free)) + NodesInAll(kids)
    decreases depth, 0
  {
    ghost var free0: multiset<nat> := multiset(inode.free);
    var i := 0;
    while i < src.P
      invariant i <= src.P && multiset(inode.free) == free0 + NodesInAll(kids[..i])
    {
      var next := i + 1;
      var below := src.disk[nr][i];
      NextApart(kids, i, next, nr, free0);
      InAllNext(kids, i);
      if below != 0 {
        FreeIndirect(inode, src, below, depth - 1, kids[i]);
      }
      i := next;
    }
    assert kids[..src.P] == kids;
  }

  lemma LowestNode2(b: I.Branch, depth: nat, P: nat)
    requires b.Node? && I.Uniform(b, depth, P)
    ensures depth == 1 ==> NodesInAll(b.kids) == multiset{}
    ensures NodesIn(b) == multiset{b.blk} + NodesInAll(b.kids)
  {
    if depth == 1 {
      NoNodes(b.kids, P);
    }
  }

  /** free_ind_block: the three indirect roots of the inode. */
  method FreeIndBlock(inode: Inode, src: F.IndFile)
    requires src.Stored() && NoDup(NodesInAll(src.tops) + multiset(inode.free))
    modifies inode`free
    ensures multiset(inode.free) == multiset(old(inode.free)) + NodesInAll(src.tops)
  {
    ghost var free0: multiset<nat> := multiset(inode.free);
    var i := I.IND;
    DirectNodes(src);
    while i < I.N_BLOCKS
      invariant I.IND <= i <= I.N_BLOCKS && multiset(inode.free) == free0 + NodesInAll(src.tops[..i])
    {
      var next := i + 1;
      FreeRoot(inode, src, i, next, free0);
      i := next;
    }
    assert src.tops[..I.N_BLOCKS] == src.tops;
  }

  method FreeRoot(inode: Inode, src: F.IndFile, i: nat, ghost next: nat, ghost free0: multiset<nat>)
    requires |src.idata| == |src.tops| == I.N_BLOCKS && I.IND <= i < next == i + 1 <= I.N_BLOCKS && src.TopOk(i)
    requires NoDup(NodesInAll(src.tops) + free0) && multiset(inode.free) == free0 + NodesInAll(src.tops[..i])
    modifies inode`free
    ensures multiset(inode.free) == free0 + NodesInAll(src.tops[..next])
  {
    TopApart(src.tops, i, next, free0);
    InAllNext(src.tops, i);
    if src.idata[i] != 0 {
      FreeIndirect(inode, src, src.idata[i], F.TopDepth(i), src.tops[i]);
    }
  }

  lemma TopApart(bs: seq<I.Branch>, i: nat, next: nat, free0: multiset<nat>)
    requires i < next == i + 1 <= |bs| && NoDup(NodesInAll(bs) + free0)
    ensures NoDup(NodesIn(bs[i]) + (free0 + NodesInAll(bs[..i])))
  {
    InAllNext(bs, i);
    NodesPrefix(bs, next);
    LessNoDup(NodesIn(bs[i]) + (free0 + NodesInAll(bs[..i])), NodesInAll(bs) + free0);
  }

  lemma DirectNodes(src: F.IndFile)
    requires src.Stored()
    ensures NodesInAll(src.tops[..I.IND]) == multiset{}
  {
    forall i | 0 <= i < I.IND ensures I.Uniform(src.tops[i], 0, src.P) {
      assert src.TopOk(i);
    }
    NoNodes(src.tops[..I.IND], src.P);
  }

  // ----- extent tree -------------------------------------------------------------------------

  lemma KidsNext(idx: seq<Idx>, kids: seq<Tree>, i: nat)
    requires i < |idx| == |kids|
    ensures Ptrs(idx[..i + 1]) == Ptrs(idx[..i]) + multiset{idx[i].ptr}
    ensures BlocksOf(kids[..i + 1]) == BlocksOf(kids[..i]) + Blocks(kids[i])
  {
    assert idx[..i + 1] == idx[..i] + [idx[i]] && kids[..i + 1] == kids[..i] + [kids[i]];
    PtrsAppend(idx[..i], [idx[i]]);
    PtrsSingle(idx[i]);
    BlocksAppend(kids[..i], [kids[i]]);
    assert [kids[i]][1..] == [];
  }

  lemma KidsPrefix(idx: seq<Idx>, kids: seq<Tree>, i: nat)
    requires i <= |idx| == |kids|
    ensures Ptrs(idx[..i]) <= Ptrs(idx) && BlocksOf(kids[..i]) <= BlocksOf(kids)
  {
    assert idx == idx[..i] + idx[i..] && kids == kids[..i] + kids[i..];
    PtrsAppend(idx[..i], idx[i..]);
    BlocksAppend(kids[..i], kids[i..]);
  }

  lemma KidApart(idx: seq<Idx>, kids: seq<Tree>, i: nat, next: nat, free0: multiset<nat>)
    requires i < next == i + 1 <= |idx| == |kids| && NoDup(Ptrs(idx) + BlocksOf(kids) + free0)
    ensures NoDup(multiset{idx[i].ptr} + Blocks(kids[i]) + (free0 + (Ptrs(idx[..i]) + BlocksOf(kids[..i]))))
    ensures free0 + (Ptrs(idx[..i]) + BlocksOf(kids[..i])) + (multiset{idx[i].ptr} + Blocks(kids[i]))
      == free0 + (Ptrs(idx[..next]) + BlocksOf(kids[..next]))
  {
    KidsNext(idx, kids, i);
    KidsPrefix(idx, kids, next);
    LessNoDup(multiset{idx[i].ptr} + Blocks(kids[i]) + (free0 + (Ptrs(idx[..i]) + BlocksOf(kids[..i]))),
              Ptrs(idx) + BlocksOf(kids) + free0);
  }

  /** The loop of free_ext_idx and free_ext_block over the entries of an index node. */
  method FreeKids(inode: Inode, idx: seq<Idx>, ghost kids: seq<Tree>)
    requires |idx| == |kids| && NoDup(Ptrs(idx) + BlocksOf(kids) + multiset(inode.free))
    requires forall i :: 0 <= i < |kids| ==> Shape(kids[i]) && Rep(inode.disk, kids[i])
    requires forall i :: 0 <= i < |kids| ==> idx[i].ptr in inode.disk && inode.disk[idx[i].ptr] == Top(kids[i])
    modifies inode`free
    ensures multiset(inode.free) == multiset(old(inode.free)) + (Ptrs(idx) + BlocksOf(kids))
    decreases kids, 1
  {
    ghost var free0: multiset<nat> := multiset(inode.free);
    var i := 0;
    while i < |idx|
      invariant i <= |idx| && multiset(inode.free) == free0 + (Ptrs(idx[..i]) + BlocksOf(kids[..i]))
    {
      var next := i + 1;
      KidApart(idx, kids, i, next, free0);
      FreeExtIdx(inode, idx[i].ptr, kids[i]);
      i := next;
    }
    assert idx[..|idx|] == idx && kids[..|kids|] == kids;
  }

  /** free_ext_idx */
  method FreeExtIdx(inode: Inode, block: nat, ghost t: Tree)
    requires Shape(t) && block in inode.disk && inode.disk[block] == Top(t) && Rep(inode.disk, t)
    requires NoDup(multiset{block} + Blocks(t) + multiset(inode.free))
    modifies inode`free
    ensures multiset(inode.free) == multiset(old(inode.free)) + (multiset{block} + Blocks(t))
    decreases t, 0
  {
    ghost var free0: multiset<nat> := multiset(inode.free);
    var eh := inode.disk[block];
    if eh.IndexNode? {
      LessNoDup(Ptrs(t.idx) + BlocksOf(t.kids) + free0, multiset{block} + Blocks(t) + free0);
      FreeKids(inode, eh.idx, t.kids);
    }
    LastApart(inode.free, block, Blocks(t), free0);
    FreeMeta(inode, block);
  }

  /** free_ext_block followed by ext4_ext_tree_init. */
  method FreeExtBlock(inode: Inode)
    requires inode.Stored() && NoDup(Blocks(inode.t) + multiset(inode.free))
    modifies inode`free, inode`root, inode`t
    ensures multiset(inode.free) == old(Blocks(inode.t) + multiset(inode.free))
    ensures inode.t == Leaf(ROOT_CAP, []) && inode.Stored()
  {
    if inode.root.IndexNode? {
      FreeKids(inode, inode.root.idx, inode.t.kids);
    }
    inode.root := LeafNode(ROOT_CAP, []);
    inode.t := Leaf(ROOT_CAP, []);
  }
}
