/**
 Rewriting one leaf: the merge functions and ext4_ext_try_to_merge_up.
 */
module ExtentMerge {
  import opened Extents
  import opened ExtentTrees
  import opened ExtentSearch
  import opened Inodes
  import opened IndexKeys
  import opened TreeUpdates

  // ----- runs --------------------------------------------------------------------

  /** The run b says the same as a and fits in its place. */
  ghost predicate SameRun(a: seq<Extent>, b: seq<Extent>) {
    && Sorted(b) && a != [] && b != []
    && LMap(b) == LMap(a) && Data(b) == Data(a)
    && b[0].block == a[0].block && End(b[|b| - 1]) == End(a[|a| - 1])
  }

  lemma SameMiddle(l: seq<Extent>, x: seq<Extent>, x': seq<Extent>, r: seq<Extent>)
    requires Sorted(l + x + r) && SameRun(x, x')
    ensures Sorted(l + x' + r)
    ensures LMap(l + x' + r) == LMap(l + x + r) && Data(l + x' + r) == Data(l + x + r)
  {
    SortedMiddle(l, x, x', r);
    LMapMiddle(l, x, x', r);
    DataMiddle(l, x, r);
    DataMiddle(l, x', r);
  }

  /** A run may be replaced by one with the same ends. */
  lemma SortedMiddle(l: seq<Extent>, x: seq<Extent>, x': seq<Extent>, r: seq<Extent>)
    requires Sorted(l + x + r) && x != [] && x' != [] && Sorted(x')
    requires x'[0].block == x[0].block && End(x'[|x'| - 1]) == End(x[|x| - 1])
    ensures Sorted(l + x' + r)
  {
    SortedParts(l + x, r);
    SortedParts(l, x);
    SortedJoin(l, x');
    assert (l + x)[|l + x| - 1] == x[|x| - 1];
    assert (l + x')[|l + x'| - 1] == x'[|x'| - 1];
    SortedJoin(l + x', r);
  }

  function MergedAt(s: seq<Extent>, j: nat): seq<Extent>
    requires j + 1 < |s|
  {
    s[..j] + [Merged(s[j], s[j + 1])] + s[j + 2..]
  }

  lemma MergeOne(s: seq<Extent>, j: nat)
    requires Sorted(s) && j + 1 < |s| && CanMerge(s[j], s[j + 1])
    ensures SameRun(s, MergedAt(s, j)) && |MergedAt(s, j)| == |s| - 1
    ensures MergedAt(s, j)[..j] == s[..j] && MergedAt(s, j)[j].block == s[j].block
  {
    var l, r, m := s[..j], s[j + 2..], Merged(s[j], s[j + 1]);
    var x := [s[j], s[j + 1]];
    assert s == l + x + r;
    MergeKeepsMeaning(s[j], s[j + 1]);
    MergeKeepsData(s[j], s[j + 1]);
    SameMiddle(l, x, [m], r);
  }

  /** ext4_ext_try_to_merge_right: absorb right neighbours into slot j while possible. */
  method TryToMergeRight(exts: seq<Extent>, j: nat) returns (exts': seq<Extent>, done: bool)
    requires Sorted(exts) && j < |exts|
    ensures SameRun(exts, exts') && j < |exts'| <= |exts|
    ensures exts'[..j] == exts[..j] && exts'[j].block == exts[j].block
    ensures done <==> |exts'| < |exts|
    ensures done <==> j + 1 < |exts| && CanMerge(exts[j], exts[j + 1])
    ensures !done ==> exts' == exts
    ensures j + 1 < |exts'| ==> !CanMerge(exts'[j], exts'[j + 1])
  {
    exts', done := exts, false;
    while j < |exts'| - 1
      invariant SameRun(exts, exts') && j < |exts'| <= |exts|
      invariant exts'[..j] == exts[..j] && exts'[j].block == exts[j].block
      invariant done <==> |exts'| < |exts|
      invariant done ==> j + 1 < |exts| && CanMerge(exts[j], exts[j + 1])
      invariant !done ==> exts' == exts
      decreases |exts'|
    {
      if !CanMerge(exts'[j], exts'[j + 1]) {
        break;
      }
      MergeOne(exts', j);
      exts' := MergedAt(exts', j);
      done := true;
    }
  }

  /** Slot j can be merged with a neighbour in its leaf. */
  ghost predicate Mergeable(x: seq<Extent>, j: nat) {
    && j < |x|
    && ((j > 0 && CanMerge(x[j - 1], x[j])) || (j + 1 < |x| && CanMerge(x[j], x[j + 1])))
  }

  /** The leaf part of ext4_ext_try_to_merge: towards the left neighbour, else to the right. */
  method MergeNeighbours(exts: seq<Extent>, j: nat) returns (exts': seq<Extent>)
    requires Sorted(exts) && j < |exts|
    ensures SameRun(exts, exts') && |exts'| <= |exts|
    ensures |exts'| < |exts| <==> Mergeable(exts, j)
    ensures !Mergeable(exts, j) ==> exts' == exts
  {
    exts' := exts;
    var done := false;
    if j > 0 {
      exts', done := TryToMergeRight(exts, j - 1);
    }
    if !done {
      exts', done := TryToMergeRight(exts', j);
    }
  }

  // ----- trees in the middle of a leaf change ------------------------------------------

  /** Well formed, except that the key pointing at the leaf at q may be stale. */
  ghost predicate Nearly(t: Tree, q: Path, cap: nat) {
    && Shape(t) && PathIn(t, q) && At(t, q).Leaf? && TightBut(t, q)
    && (t.Index? ==> NoEmpty(t)) && Fits(t, cap)
    && t.max == ROOT_CAP && Entries(Top(t)) <= ROOT_CAP
    && Sorted(Exts(t))
  }

  /** The key is stale only if the cursor stands on the first slot. */
  ghost predicate Corrigible(t: Tree, q: Path, pos: Cursor)
    requires Shape(t) && PathIn(t, q)
  {
    pos.Slot? && (pos != Slot(0) ==> Tight(t))
  }

  lemma WellFormedNearly(t: Tree, q: Path, cap: nat)
    requires WellFormed(t, cap) && PathIn(t, q) && At(t, q).Leaf?
    ensures Nearly(t, q, cap)
  {
    TightTightBut(t, q);
  }

  lemma LeafContent(t: Tree, q: Path, x: seq<Extent>)
    requires PathIn(t, q) && At(t, q).Leaf?
    ensures var t' := Update(t, q, Leaf(At(t, q).max, x));
      Exts(t') == LeftOf(t, q) + x + RightOf(t, q) && Blocks(t') == Blocks(t)
  {
    var s := Leaf(At(t, q).max, x);
    UpdateExts(t, q, s);
    UpdateBlocks(t, q, s);
    assert Blocks(Update(t, q, s)) + multiset{} == Blocks(Update(t, q, s));
    assert Blocks(t) + multiset{} == Blocks(t);
  }

  lemma LeafTight(t: Tree, q: Path, x: seq<Extent>)
    requires Shape(t) && PathIn(t, q) && At(t, q).Leaf? && Tight(t) && x != []
    requires At(t, q).exts != [] && x[0].block == At(t, q).exts[0].block
    ensures Shape(Update(t, q, Leaf(At(t, q).max, x))) && Tight(Update(t, q, Leaf(At(t, q).max, x)))
  {
    AtShape(t, q);
    UpdateTight(t, q, Leaf(At(t, q).max, x));
  }

  lemma LeafRewrite(t: Tree, q: Path, cap: nat, x: seq<Extent>)
    requires Nearly(t, q, cap) && x != [] && |x| <= At(t, q).max
    requires Sorted(LeftOf(t, q) + x + RightOf(t, q))
    ensures var t' := Update(t, q, Leaf(At(t, q).max, x));
      && Nearly(t', q, cap) && At(t', q) == Leaf(At(t, q).max, x)
      && Exts(t') == LeftOf(t, q) + x + RightOf(t, q)
      && Blocks(t') == Blocks(t)
      && (Tight(t) && At(t, q).exts != [] && x[0].block == At(t, q).exts[0].block ==> Tight(t'))
  {
    var s := Leaf(At(t, q).max, x);
    AtShape(t, q);
    AtFits(t, q, cap);
    UpdateTightBut(t, q, s);
    UpdateAt(t, q, s);
    LeafContent(t, q, x);
    UpdateFits(t, q, s, cap);
    if t.Index? {
      UpdateNoEmpty(t, q, s);
    }
    if Tight(t) && At(t, q).exts != [] && x[0].block == At(t, q).exts[0].block {
      LeafTight(t, q, x);
    }
  }

  /** Store new leaf content through the last path element. */
  method StoreLeaf(inode: Inode, path: seq<Step>, x: seq<Extent>, ghost q: Path)
    requires inode.Stored() && NoDup(Blocks(inode.t)) && Walks(inode.t, q, path) && At(inode.t, q).Leaf?
    modifies inode`root, inode`disk, inode`t
    ensures inode.Stored() && inode.t == Update(old(inode.t), q, Leaf(At(old(inode.t), q).max, x))
    ensures Walks(inode.t, q, path)
  {
    ghost var t := inode.t;
    var depth := |path| - 1;
    assert StepOk(t, q, path, depth) && q[..depth] == q;
    inode.NodeOnPath(q);
    var leaf := inode.NodeAt(path[depth].loc);
    AtShape(t, q);
    inode.WriteNode(path[depth].loc, LeafNode(leaf.max, x), q, Leaf(leaf.max, x));
    LeafWalks(t, q, path, Leaf(leaf.max, x));
  }

  lemma LeafWalks(t: Tree, q: Path, path: seq<Step>, s: Tree)
    requires Shape(t) && Walks(t, q, path) && Shape(s) && Depth(s) == Depth(At(t, q))
    ensures Shape(Update(t, q, s)) && Walks(Update(t, q, s), q, path)
  {
    UpdateShape(t, q, s);
    UpdateAt(t, q, s);
    forall k | 0 <= k <= |q| ensures StepOk(Update(t, q, s), q, path, k) {
      assert StepOk(t, q, path, k);
      PrefixKept(t, q, s, k);
    }
  }

  lemma {:induction false} PrefixKept(t: Tree, p: Path, s: Tree, k: nat)
    requires Shape(t) && PathIn(t, p) && k <= |p| && Shape(s) && Depth(s) == Depth(At(t, p))
    ensures PathIn(t, p[..k]) && PathIn(Update(t, p, s), p[..k]) && Shape(Update(t, p, s))
    ensures k > 0 ==> BlockAt(Update(t, p, s), p[..k]) == BlockAt(t, p[..k])
    decreases p
  {
    UpdateShape(t, p, s);
    if k > 0 {
      assert p[..k][1..] == p[1..][..k - 1];
      PrefixKept(t.kids[p[0]], p[1..], s, k - 1);
    }
  }

  // ----- ext4_ext_try_to_merge_up --------------------------------------------------------

  lemma SingleLeaf(t: Tree, q: Path, cap: nat)
    requires Nearly(t, q, cap) && Depth(t) == 1 && |t.idx| == 1
    ensures q == [0] && t.kids[0] == At(t, q)
    ensures Exts(t) == At(t, q).exts && Blocks(t) == multiset{t.idx[0].ptr}
    ensures |At(t, q).exts| <= ROOT_CAP ==> Nearly(Leaf(ROOT_CAP, At(t, q).exts), [], cap)
  {
    AtShape(t, q);
    assert q == [q[0]];
    assert t.kids == [t.kids[0]] && t.idx == [t.idx[0]];
    ExtsSingle(t.kids[0]);
    BlocksSingle(t.kids[0]);
    PtrsSingle(t.idx[0]);
  }

  /** A root with a single leaf whose extents fit in the inode. */
  ghost predicate Foldable(t: Tree, x: seq<Extent>) {
    Depth(t) == 1 && Entries(Top(t)) == 1 && |x| <= ROOT_CAP
  }

  /**
   Collapse a tree of a root and one small leaf into the inode body, exactly if it is one and
   there is room: the answer of ext4_journal_extend.
   */
  method TryToMergeUp(inode: Inode, path: seq<Step>, room: bool, ghost q: Path)
    returns (path': seq<Step>, ghost q': Path)
    requires inode.Stored() && Clean(inode.Universe())
    requires Nearly(inode.t, q, inode.cap) && Walks(inode.t, q, path) && At(inode.t, q).exts != []
    requires Corrigible(inode.t, q, path[|q|].pos)
    modifies inode`root, inode`free, inode`t
    ensures inode.Stored() && Exts(inode.t) == Exts(old(inode.t)) && inode.Universe() == old(inode.Universe())
    ensures Nearly(inode.t, q', inode.cap) && Walks(inode.t, q', path') && At(inode.t, q').exts != []
    ensures Corrigible(inode.t, q', path'[|q'|].pos)
    ensures Tight(old(inode.t)) ==> Tight(inode.t)
    ensures
      var t, x := old(inode.t), At(old(inode.t), q).exts;
      inode.t == if room && Foldable(t, x) then Leaf(ROOT_CAP, x) else t
    ensures !room ==> q' == q && path' == path
  {
    path', q' := path, q;
    AtShape(inode.t, q);
    if |path| - 1 == 1 && Entries(inode.root) == 1 {
      var leaf := ReadLeaf(inode, path, q);
      if |leaf.exts| <= ROOT_CAP && room {
        path', q' := [Step(InInode, path[1].pos, 0)], [];
        Collapse(inode, leaf.exts, q);
        assert StepOk(inode.t, q', path', 0);
      }
    }
  }

  /** The leaf a path ends at. */
  method ReadLeaf(inode: Inode, path: seq<Step>, ghost q: Path) returns (leaf: Node)
    requires inode.Stored() && Walks(inode.t, q, path) && At(inode.t, q).Leaf?
    ensures leaf == Top(At(inode.t, q))
  {
    var depth := |path| - 1;
    assert q[..depth] == q && StepOk(inode.t, q, path, depth);
    inode.NodeOnPath(q);
    leaf := inode.NodeAt(path[depth].loc);
  }

  /** The extents move into the inode and their block is freed. */
  method Collapse(inode: Inode, exts: seq<Extent>, ghost q: Path)
    requires inode.Stored() && Clean(inode.Universe()) && Nearly(inode.t, q, inode.cap)
    requires Depth(inode.t) == 1 && Entries(inode.root) == 1 && exts == At(inode.t, q).exts && |exts| <= ROOT_CAP
    modifies inode`root, inode`free, inode`t
    ensures inode.Stored() && inode.t == Leaf(ROOT_CAP, exts) && Nearly(inode.t, [], inode.cap)
    ensures Exts(inode.t) == Exts(old(inode.t)) && inode.Universe() == old(inode.Universe())
  {
    SingleLeaf(inode.t, q, inode.cap);
    var blk := inode.root.idx[0].ptr;
    LoneBlock(blk, Data(Exts(inode.t)), inode.free);
    inode.root := LeafNode(ROOT_CAP, exts);
    inode.t := Leaf(ROOT_CAP, exts);
    inode.FreeBlocks(blk, 1);
  }

  lemma LoneBlock(blk: nat, data: multiset<nat>, free: set<nat>)
    requires NoDup(multiset{blk} + data + multiset(free))
    ensures Run(blk, 1) == multiset{blk} && blk !in free
    ensures multiset{blk} + data + multiset(free) == multiset{} + data + (multiset(free) + Run(blk, 1))
  {
    assert Run(blk, 0) == multiset{};
    assert (multiset{blk} + data + multiset(free))[blk] <= 1;
  }

  /** Extent j fuses with what it can in its leaf. */
  method MergeInLeaf(inode: Inode, path: seq<Step>, j: nat, ghost q: Path)
    requires inode.Stored() && Clean(inode.Universe())
    requires Nearly(inode.t, q, inode.cap) && Walks(inode.t, q, path) && j < |At(inode.t, q).exts|
    requires Corrigible(inode.t, q, path[|q|].pos)
    modifies inode`root, inode`disk, inode`t
    ensures inode.Stored() && inode.Contents() == old(inode.Contents()) && inode.Universe() == old(inode.Universe())
    ensures Nearly(inode.t, q, inode.cap) && Walks(inode.t, q, path) && At(inode.t, q).exts != []
    ensures Corrigible(inode.t, q, path[|q|].pos)
    ensures Tight(old(inode.t)) ==> Tight(inode.t)
    ensures Shrinks(Exts(old(inode.t)), Exts(inode.t), Mergeable(At(old(inode.t), q).exts, j))
  {
    ghost var t := inode.t;
    var depth := |path| - 1;
    assert StepOk(t, q, path, depth) && q[..depth] == q;
    inode.NodeOnPath(q);
    var leaf := inode.NodeAt(path[depth].loc);
    LeafSorted(t, q);
    var x := MergeNeighbours(leaf.exts, j);
    ExtsAt(t, q);
    SameMiddle(LeftOf(t, q), leaf.exts, x, RightOf(t, q));
    LeafCapacity(t, q, inode.cap);
    LeafRewrite(t, q, inode.cap, x);
    CleanBlocks(inode);
    StoreLeaf(inode, path, x, q);
    LeafShrinks(LeftOf(t, q), leaf.exts, x, RightOf(t, q), Exts(t), Exts(inode.t), j);
  }

  /** The run got shorter if something could be merged, else it is as before. */
  ghost predicate Shrinks(s: seq<Extent>, s': seq<Extent>, merges: bool) {
    if merges then |s'| < |s| else s' == s
  }

  lemma LeafShrinks(l: seq<Extent>, x: seq<Extent>, x': seq<Extent>, r: seq<Extent>, s: seq<Extent>, s': seq<Extent>,
                    j: nat)
    requires s == l + x + r && s' == l + x' + r && (|x'| < |x| <==> Mergeable(x, j))
    requires !Mergeable(x, j) ==> x' == x
    ensures Shrinks(s, s', Mergeable(x, j))
  {
  }

  /** ext4_ext_try_to_merge: merges if extent j and a neighbour in its leaf can be merged. */
  method TryToMerge(inode: Inode, path: seq<Step>, j: nat, room: bool, ghost q: Path)
    returns (path': seq<Step>, ghost q': Path)
    requires inode.Stored() && Clean(inode.Universe())
    requires Nearly(inode.t, q, inode.cap) && Walks(inode.t, q, path) && j < |At(inode.t, q).exts|
    requires Corrigible(inode.t, q, path[|q|].pos)
    modifies inode`root, inode`disk, inode`free, inode`t
    ensures inode.Stored() && inode.Contents() == old(inode.Contents()) && inode.Universe() == old(inode.Universe())
    ensures Nearly(inode.t, q', inode.cap) && Walks(inode.t, q', path') && At(inode.t, q').exts != []
    ensures Corrigible(inode.t, q', path'[|q'|].pos)
    ensures Tight(old(inode.t)) ==> Tight(inode.t)
    ensures Shrinks(Exts(old(inode.t)), Exts(inode.t), Mergeable(At(old(inode.t), q).exts, j))
  {
    MergeInLeaf(inode, path, j, q);
    path', q' := TryToMergeUp(inode, path, room, q);
  }

  lemma LeafSorted(t: Tree, q: Path)
    requires PathIn(t, q) && At(t, q).Leaf? && Sorted(Exts(t))
    ensures Sorted(At(t, q).exts)
  {
    ExtsAt(t, q);
    SortedParts(LeftOf(t, q) + At(t, q).exts, RightOf(t, q));
    SortedParts(LeftOf(t, q), At(t, q).exts);
  }

  lemma LeafCapacity(t: Tree, q: Path, cap: nat)
    requires Nearly(t, q, cap)
    ensures |At(t, q).exts| <= At(t, q).max
  {
    AtFits(t, q, cap);
  }

  lemma CleanBlocks(inode: Inode)
    requires Clean(inode.Universe())
    ensures NoDup(Blocks(inode.t))
  {
    forall x ensures Blocks(inode.t)[x] <= 1 {
      assert inode.Universe()[x] <= 1;
    }
  }
}
