/**
 Walking sideways: the first block of the next leaf, the next allocated block, and the
 nearest allocated blocks to the left and right of a hole.
 */
module ExtentNeighbours {
  import opened Extents
  import opened ExtentTrees
  import opened ExtentSearch
  import opened Inodes
  import opened TreeUpdates
  import opened ExtentSplit
  import opened ExtentGrow
  import opened ExtentMerge

  /** First block of a run, or EXT_MAX_BLOCKS if there is none. */
  ghost function FirstBlock(s: seq<Extent>): nat {
    if s == [] then EXT_MAX_BLOCKS else s[0].block
  }

  /** One step of the climb: at level i either there is a right sibling, or the climb goes on. */
  lemma ClimbRight(t: Tree, q: Path, i: nat, cap: nat)
    requires WellFormed(t, cap) && t.Index? && PathIn(t, q) && i < |q|
    requires PathIn(t, q[..i + 1]) && RightOf(t, q) == RightOf(t, q[..i + 1])
    ensures PathIn(t, q[..i]) && At(t, q[..i]).Index? && q[i] < |At(t, q[..i]).idx| == |At(t, q[..i]).kids|
    ensures q[i] + 1 < |At(t, q[..i]).idx| ==>
            RightOf(t, q) != [] && At(t, q[..i]).idx[q[i] + 1].key == RightOf(t, q)[0].block
    ensures q[i] + 1 == |At(t, q[..i]).idx| ==> RightOf(t, q) == RightOf(t, q[..i])
  {
    NodeOnWay(t, q, i, cap);
    SidesAt(t, q, i);
    var n := At(t, q[..i]);
    var c := q[i];
    if c + 1 < |n.idx| {
      assert TightEdge(n, c + 1);
      LKeyFirst(n.kids[c + 1]);
      assert n.kids[c + 1..][0] == n.kids[c + 1];
    } else {
      assert n.kids[c + 1..] == [];
      assert [] + RightOf(t, q[..i]) == RightOf(t, q[..i]);
    }
  }

  /** ext4_ext_next_leaf_block */
  method NextLeafBlock(inode: Inode, path: seq<Step>, ghost q: Path) returns (next: nat)
    requires inode.Valid() && Walks(inode.t, q, path) && At(inode.t, q).Leaf?
    ensures next == FirstBlock(RightOf(inode.t, q))
  {
    ghost var t := inode.t;
    var depth := |path| - 1;
    assert q[..depth] == q;
    if depth == 0 {
      return EXT_MAX_BLOCKS;
    }
    var i := depth - 1;
    while i >= 0
      invariant -1 <= i < depth
      invariant PathIn(t, q[..i + 1]) && RightOf(t, q) == RightOf(t, q[..i + 1])
    {
      ClimbRight(t, q, i, inode.cap);
      assert StepOk(t, q, path, i);
      inode.NodeOnPath(q[..i]);
      var n := inode.NodeAt(path[i].loc);
      if path[i].pos != Slot(|n.idx| - 1) {
        return n.idx[path[i].pos.i + 1].key;
      }
      i := i - 1;
    }
    assert q[..0] == [];
    return EXT_MAX_BLOCKS;
  }

  /** ext4_ext_next_allocated_block */
  method NextAllocatedBlock(inode: Inode, path: seq<Step>, ghost q: Path) returns (next: nat)
    requires inode.Valid() && Walks(inode.t, q, path) && At(inode.t, q).Leaf?
    requires var pos := path[|q|].pos;
      if pos.Null? then At(inode.t, q).exts == [] else 0 <= pos.i < |At(inode.t, q).exts|
    ensures next == FirstBlock(if path[|q|].pos.Null? then [] else
                               At(inode.t, q).exts[path[|q|].pos.i + 1..] + RightOf(inode.t, q))
  {
    var depth := |path| - 1;
    if depth == 0 && path[depth].pos.Null? {
      return EXT_MAX_BLOCKS;
    }
    EmptyLeafIsRoot(inode.t, q, inode.cap);
    assert StepOk(inode.t, q, path, depth) && q[..depth] == q;
    inode.NodeOnPath(q);
    var leaf := inode.NodeAt(path[depth].loc);
    if path[depth].pos != Slot(|leaf.exts| - 1) {
      return leaf.exts[path[depth].pos.i + 1].block;
    }
    next := NextLeafBlock(inode, path, q);
    assert leaf.exts[|leaf.exts|..] + RightOf(inode.t, q) == RightOf(inode.t, q);
  }

  lemma EmptyLeafIsRoot(t: Tree, q: Path, cap: nat)
    requires WellFormed(t, cap) && PathIn(t, q) && At(t, q).Leaf?
    ensures At(t, q).exts == [] ==> q == []
  {
    if t.Index? {
      AtTightNoEmpty(t, q);
    }
  }

  lemma NextLeafParts(t: Tree, q: Path)
    requires PathIn(t, q) && At(t, q).Leaf? && At(t, q).exts != [] && Sorted(Exts(t)) && RightOf(t, q) != []
    ensures var l, f, r := LeftOf(t, q) + At(t, q).exts, RightOf(t, q)[0], RightOf(t, q)[1..];
      && Exts(t) == l + [f] + r
      && l != [] && Exts(t)[|l| - 1] == At(t, q).exts[|At(t, q).exts| - 1]
      && Scan(Starts(Exts(t)), f.block) == |l| && Exts(t)[|l|] == f
  {
    ExtsAt(t, q);
    var l, f, r := LeftOf(t, q) + At(t, q).exts, RightOf(t, q)[0], RightOf(t, q)[1..];
    assert Exts(t) == l + [f] + r;
    FlatSelf(l, f, r);
  }

  /** If the leaf found for flat position n also held position n - 1, it would be the leaf of that one. */
  lemma NotFurther(t: Tree, q: Path, q2: Path, n: nat)
    requires PathIn(t, q) && At(t, q).Leaf? && At(t, q).exts != [] && Sorted(Exts(t))
    requires PathIn(t, q2) && At(t, q2).Leaf? && n < |At(t, q2).exts|
    requires |LeftOf(t, q2)| + n == |LeftOf(t, q)| + |At(t, q).exts|
    ensures n == 0 && q2 != q
  {
    InLeaf(t, q, |At(t, q).exts| - 1);
    if n > 0 {
      InLeaf(t, q2, n - 1);
      OwnerUnique(t, q, q2, At(t, q).exts[|At(t, q).exts| - 1]);
    }
  }

  /** Searching for the first block right of a leaf leads to the front of the next leaf. */
  lemma NextLeafFound(t: Tree, q: Path, cap: nat)
    requires WellFormed(t, cap) && t.Index? && Searchable(t) && PathIn(t, q) && At(t, q).Leaf? && At(t, q).exts != []
    requires RightOf(t, q) != []
    ensures var q2 := FindPath(t, RightOf(t, q)[0].block);
      && PathIn(t, q2) && At(t, q2).Leaf? && At(t, q2).exts != []
      && Scan(Starts(At(t, q2).exts), RightOf(t, q)[0].block) == 0
      && LeftOf(t, q2) == LeftOf(t, q) + At(t, q).exts
      && At(t, q2).exts[0] == RightOf(t, q)[0]
      && q2 != q
  {
    var b := RightOf(t, q)[0].block;
    var q2 := FindPath(t, b);
    NextLeafParts(t, q);
    FindFlat(t, b);
    LeafPick(t, q2, b);
    var n := Scan(Starts(At(t, q2).exts), b);
    NotFurther(t, q, q2, n);
    InLeaf(t, q2, 0);
    SameLeft(t, q2, LeftOf(t, q) + At(t, q).exts);
  }

  lemma SameLeft(t: Tree, q2: Path, l: seq<Extent>)
    requires PathIn(t, q2) && l <= Exts(t) && |LeftOf(t, q2)| == |l|
    ensures LeftOf(t, q2) == l
  {
    ExtsAt(t, q2);
    assert l == Exts(t)[..|l|] && LeftOf(t, q2) == Exts(t)[..|l|];
  }

  lemma FlatSelf(l: seq<Extent>, f: Extent, r: seq<Extent>)
    requires Sorted(l + [f] + r)
    ensures Scan(Starts(l + [f] + r), f.block) == |l|
  {
    SortedNext(l, f, r);
    var s := l + [f] + r;
    SortedIncreasing(s);
    assert Starts(s)[|l|] == f.block;
    forall k | |l| < k < |s| ensures f.block < Starts(s)[k] {
      assert Starts(s)[|l|] < Starts(s)[k];
    }
    ScanIsPick(Starts(s), f.block, |l|);
  }

  lemma LeafPick(t: Tree, q: Path, b: nat)
    requires PathIn(t, q) && At(t, q).Leaf? && At(t, q).exts != [] && Sorted(Exts(t))
    ensures IsPick(Starts(At(t, q).exts), b, Scan(Starts(At(t, q).exts), b))
  {
    LeafSorted(t, q);
    SortedIncreasing(At(t, q).exts);
    ScanPicks(Starts(At(t, q).exts), b);
  }
}
