/**
 Removing a range of logical blocks: ext4_ext_rm_leaf and ext4_ext_rm_idx, the two steps
 ext4_ext_remove_space is made of.
 */
module ExtentRemove {
  import opened Extents
  import opened ExtentTrees
  import opened ExtentSearch
  import opened Inodes
  import opened IndexKeys
  import opened TreeUpdates
  import opened ExtentSplit
  import opened ExtentGrow
  import opened ExtentMerge
  import opened ExtentInsert
  import opened RangeRemoval

  // ----- the entries of one leaf --------------------------------------------------------

  lemma RunInUse(d: multiset<nat>, f: multiset<nat>, free: set<nat>, p: nat, n: nat)
    requires NoDup(d + multiset(free)) && f + Run(p, n) == d
    ensures forall x :: x in Run(p, n) ==> x !in free
    ensures f + (multiset(free) + Run(p, n)) == d + multiset(free)
  {
    forall x | x in Run(p, n) ensures x !in free {
      assert (d + multiset(free))[x] <= 1;
      assert (f + Run(p, n))[x] >= 1;
    }
  }

  /** Free what one extent loses; d and f count the data blocks in use before and after. */
  method FreeTail(inode: Inode, p: nat, len: nat, ghost d: multiset<nat>, ghost f: multiset<nat>)
    requires NoDup(d + multiset(inode.free)) && f + Run(p, len) == d
    modifies inode`free
    ensures f + multiset(inode.free) == d + multiset(old(inode.free))
  {
    ghost var free0 := inode.free;
    RunInUse(d, f, free0, p, len);
    inode.FreeBlocks(p, len);
  }

  /** What happens to slot i. */
  lemma CutSlot(x0: seq<Extent>, x: seq<Extent>, i: nat, lo: nat, hi: nat)
    requires i < |x0| && x == CutFrom(x0, i + 1, lo, hi) && ExtentOk(x0[i])
    ensures i < |x| && x[i] == x0[i]
    ensures End(x0[i]) > lo && x0[i].block <= hi ==>
      CutFrom(x0, i, lo, hi) == if x0[i].block < lo then x[i := Shorten(x0[i],
        lo - x0[i].block)] else x[..i] + x[i + 1..]
    ensures hi < x0[i].block ==> CutFrom(x0, i, lo, hi) == x
  {
    CutNext(x0, i, lo, hi);
  }

  lemma FreedTail(e: Extent, lo: nat, hi: nat)
    requires End(e) > lo && e.block <= hi && 0 < Len(e)
    ensures Freed(e, lo, hi) == Run(e.pblk + (Max(e.block, lo) - e.block), End(e) - Max(e.block, lo))
  {
  }

  ghost predicate Accounted(x0: seq<Extent>, i: nat, lo: nat, hi: nat, free: set<nat>, u: multiset<nat>)
    requires i <= |x0|
  {
    Data(CutFrom(x0, i, lo, hi)) + multiset(free) == u
  }

  /** Free the blocks extent i = e loses. */
  method FreeSlot(inode: Inode, e: Extent, a: nat, lo: nat, hi: nat, ghost x0: seq<Extent>, ghost i: nat,
                  ghost u: multiset<nat>)
    requires i < |x0| && e == x0[i] && ExtentOk(e) && End(e) > lo && e.block <= hi && a == Max(e.block, lo)
    requires NoDup(u) && Accounted(x0, i + 1, lo, hi, inode.free, u)
    modifies inode`free
    ensures Accounted(x0, i, lo, hi, inode.free, u)
  {
    ghost var d, f := Data(CutFrom(x0, i + 1, lo, hi)), Data(CutFrom(x0, i, lo, hi));
    CutNextData(x0, i, lo, hi);
    FreedTail(e, lo, hi);
    FreeTail(inode, e.pblk + (a - e.block), End(e) - a, d, f);
  }

  /** Slot i keeps its first num blocks; without any it leaves the array. */
  method TrimSlot(x: seq<Extent>, i: nat, num: nat, lo: nat, hi: nat, ghost x0: seq<Extent>) returns (x': seq<Extent>)
    requires Sorted(x0) && i < |x0| && x == CutFrom(x0, i + 1, lo, hi) && End(x0[i]) > lo && x0[i].block <= hi
    requires num == Max(x0[i].block, lo) - x0[i].block
    ensures x' == CutFrom(x0, i, lo, hi)
  {
    assert ExtentOk(x0[i]);
    CutSlot(x0, x, i, lo, hi);
    if num == 0 {
      if hi != EXT_MAX_BLOCKS - 1 {
        x' := x[..i] + x[i + 1..];
      } else {
        CutTail(x0, i, lo, hi);
        x' := x[..|x| - 1];
      }
    } else {
      x' := x[i := Shorten(x[i], num)];
    }
  }

  /** The buffer after slots i and up were dealt with. */
  ghost predicate Reached(x0: seq<Extent>, x: seq<Extent>, i: nat, lo: nat, hi: nat, free: set<nat>, u: multiset<nat>)
    requires i <= |x0|
  {
    && x == CutFrom(x0, i, lo, hi)
    && Accounted(x0, i, lo, hi, free, u)
    && (i > 0 ==> i <= |x| && x[i - 1] == x0[i - 1] && x[0] == x0[0])
  }

  /** One round: skip an extent beyond the range, else free and trim. */
  method CutStep(inode: Inode, x: seq<Extent>, i: nat, start: nat, end: nat, ghost x0: seq<Extent>,
                 ghost u: multiset<nat>)
    returns (x': seq<Extent>)
    requires Sorted(x0) && NoStraddle(x0, end) && NoDup(u)
    requires i < |x0| && Reached(x0, x, i + 1, start, end, inode.free, u) && End(x[i]) > start
    modifies inode`free
    ensures Reached(x0, x', i, start, end, inode.free, u)
    ensures i == 0 && end < x[0].block ==> x' != [] && x'[0] == x0[0]
  {
    var e := x[i];
    assert ExtentOk(x0[i]);
    CutSlot(x0, x, i, start, end);
    x' := x;
    if end < e.block {
      CutNextData(x0, i, start, end);
    } else {
      // no extent reaches across the end of the range: the -EIO branch cannot fire
      assert End(e) - 1 <= end;
      var a := Max(e.block, start);
      FreeSlot(inode, e, a, start, end, x0, i, u);
      x' := TrimSlot(x, i, a - e.block, start, end, x0);
    }
  }

  /**
   The loop of ext4_ext_rm_leaf: right to left, shorten or drop every extent that reaches
   into start..end. A journal restart may interrupt it (EAGAIN) `restarts` more times.
   */
  method CutLeaf(inode: Inode, x0: seq<Extent>, start: nat, end: nat, restarts: nat, ghost u: multiset<nat>)
    returns (err: Status, x: seq<Extent>, correct: bool, left: nat, ghost n: nat)
    requires Sorted(x0) && NoStraddle(x0, end)
    requires NoDup(u) && u == Data(x0) + multiset(inode.free)
    modifies inode`free
    ensures Data(x) + multiset(inode.free) == u
    ensures err == Ok || err == EAGAIN
    ensures err == Ok ==> x == Cut(x0, start, end) && left == restarts
    ensures err == EAGAIN ==> left < restarts && 0 < n <= |x0| && x == CutFrom(x0, n, start, end)
    ensures err == Ok && !correct && x0 != [] ==> x != [] && x[0].block == x0[0].block
  {
    err, x, correct, left, n := Ok, x0, false, restarts, |x0|;
    var i := |x0| - 1;
    assert CutFrom(x0, |x0|, start, end) == x0;
    ghost var k := |x0|;
    while i >= 0 && End(x[i]) > start
      invariant 0 <= k <= |x0| && k == i + 1 && Reached(x0, x, k, start, end, inode.free, u)
      invariant correct ==> i < 0
      invariant i < 0 && !correct && x0 != [] ==> x != [] && x[0].block == x0[0].block
    {
      if x[i].block <= end {
        if left > 0 {
          if * {
            left := left - 1;
            n := i + 1;
            return EAGAIN, x, correct, left, n;
          }
        }
        correct := i == 0;
      }
      x := CutStep(inode, x, i, start, end, x0, u);
      k := i;
      i := i - 1;
    }
    CutDone(x0, x, k, start, end, inode.free, u);
  }

  lemma CutDone(x0: seq<Extent>, x: seq<Extent>, i: nat, lo: nat, hi: nat, free: set<nat>, u: multiset<nat>)
    requires Sorted(x0) && i <= |x0| && Reached(x0, x, i, lo, hi, free, u) && (i > 0 ==> End(x[i - 1]) <= lo)
    ensures x == Cut(x0, lo, hi) && Data(x) + multiset(free) == u
    ensures i > 0 ==> x != [] && x[0].block == x0[0].block
  {
    CutFromSafe(x0, i, lo, hi);
  }

  // ----- an index entry whose node became empty -------------------------------------------

  function Drop<T>(s: seq<T>, c: nat): seq<T>
    requires c < |s|
  {
    s[..c] + s[c + 1..]
  }

  ghost predicate HasKid(t: Tree, p: Path, c: nat) {
    PathIn(t, p) && At(t, p).Index? && c < |At(t, p).kids| == |At(t, p).idx|
  }

  ghost function WithoutKid(n: Tree, c: nat): Tree
    requires n.Index? && c < |n.kids| == |n.idx|
  {
    Index(n.max, n.depth, Drop(n.idx, c), Drop(n.kids, c))
  }

  /** The tree without child c of the node at p. */
  ghost function Gone(t: Tree, p: Path, c: nat): Tree
    requires HasKid(t, p, c)
  {
    Update(t, p, WithoutKid(At(t, p), c))
  }

  lemma DropAt<T>(s: seq<T>, c: nat, i: nat)
    requires c < |s| && i < |s| - 1
    ensures Drop(s, c)[i] == if i < c then s[i] else s[i + 1]
  {
  }

  lemma WithoutKidShape(n: Tree, c: nat, cap: nat)
    requires n.Index? && Shape(n) && c < |n.kids|
    ensures Shape(WithoutKid(n, c))
    ensures Tight(n) ==> Tight(WithoutKid(n, c))
    ensures Fits(n, cap) ==> Fits(WithoutKid(n, c), cap)
  {
    var n' := WithoutKid(n, c);
    forall i | 0 <= i < |n'.kids|
      ensures n'.kids[i] in n.kids && Depth(n'.kids[i]) == n'.depth - 1 && Shape(n'.kids[i])
    {
      DropAt(n.kids, c, i);
    }
    if Tight(n) {
      forall i | 0 <= i < |n'.kids| ensures TightEdge(n', i) && Tight(n'.kids[i]) {
        var j := if i < c then i else i + 1;
        DropAt(n.kids, c, i);
        DropAt(n.idx, c, i);
        assert TightEdge(n, j);
      }
    }
  }

  lemma WithoutKidContent(n: Tree, c: nat)
    requires n.Index? && Shape(n) && c < |n.kids| && Exts(n.kids[c]) == [] && Blocks(n.kids[c]) == multiset{}
    ensures Exts(WithoutKid(n, c)) == Exts(n)
    ensures Blocks(WithoutKid(n, c)) + multiset{n.idx[c].ptr} == Blocks(n)
  {
    var kl, kr, il, ir := n.kids[..c], n.kids[c + 1..], n.idx[..c], n.idx[c + 1..];
    KidsSplit(n.kids, c);
    PtrsSplit(n.idx, c);
    ExtsAppend(kl, kr);
    BlocksAppend(kl, kr);
    PtrsAppend(il, ir);
    NothingBetween(ExtsOf(kl), ExtsOf(kr));
    MoveOut(Ptrs(il), multiset{n.idx[c].ptr}, Ptrs(ir), BlocksOf(kl), BlocksOf(kr));
  }

  lemma NothingBetween(a: seq<Extent>, b: seq<Extent>)
    ensures a + [] + b == a + b
  {
  }

  lemma MoveOut(a: multiset<nat>, x: multiset<nat>, b: multiset<nat>, c: multiset<nat>, d: multiset<nat>)
    ensures (a + b) + (c + d) + x == (a + x + b) + (c + multiset{} + d)
  {
  }

  /** Dropping a childless entry keeps content, and frees exactly the child's block. */
  lemma GoneContent(t: Tree, p: Path, c: nat)
    requires HasKid(t, p, c) && Shape(t) && Exts(At(t, p).kids[c]) == [] && Blocks(At(t, p).kids[c]) == multiset{}
    ensures Shape(At(t, p)) && Shape(Gone(t, p, c)) && Depth(Gone(t, p, c)) == Depth(t)
    ensures Exts(Gone(t, p, c)) == Exts(t)
    ensures Blocks(Gone(t, p, c)) + multiset{At(t, p).idx[c].ptr} == Blocks(t)
  {
    AtShape(t, p);
    var n := At(t, p);
    WithoutKidShape(n, c, 0);
    WithoutKidContent(n, c);
    UpdateShape(t, p, WithoutKid(n, c));
    UpdateExts(t, p, WithoutKid(n, c));
    ExtsAt(t, p);
    UpdateBlocks(t, p, WithoutKid(n, c));
    Cancel(Blocks(Gone(t, p, c)), Blocks(n), Blocks(t), Blocks(WithoutKid(n, c)), multiset{n.idx[c].ptr});
  }

  lemma Cancel(u: multiset<nat>, n: multiset<nat>, t: multiset<nat>, n': multiset<nat>, x: multiset<nat>)
    requires u + n == t + n' && n' + x == n
    ensures u + x == t
  {
    forall i ensures (u + x)[i] == t[i] {
      assert (u + n)[i] == (t + n')[i];
    }
  }

  /** Only the removal of a node's first entry can leave a stale key above it. */
  lemma GoneTight(t: Tree, p: Path, c: nat)
    requires HasKid(t, p, c) && Shape(t) && Tight(t)
    ensures Shape(Gone(t, p, c)) && PathIn(Gone(t, p, c), p) && At(Gone(t, p, c), p) == WithoutKid(At(t, p), c)
    ensures TightBut(Gone(t, p, c), p)
    ensures c != 0 ==> Tight(Gone(t, p, c))
  {
    AtTightNoEmpty(t, p);
    AtShape(t, p);
    var n := At(t, p);
    WithoutKidShape(n, c, 0);
    UpdateShape(t, p, WithoutKid(n, c));
    UpdateAt(t, p, WithoutKid(n, c));
    TightTightBut(t, p);
    UpdateTightBut(t, p, WithoutKid(n, c));
    if c != 0 {
      UpdateTight(t, p, WithoutKid(n, c));
    }
  }

  lemma WithoutKidStored(disk: Disk, n: Tree, c: nat)
    requires n.Index? && Shape(n) && c < |n.kids| && Rep(disk, n)
    ensures Shape(WithoutKid(n, c)) && Rep(disk, WithoutKid(n, c))
    ensures Blocks(WithoutKid(n, c)) <= Blocks(n)
  {
    WithoutKidShape(n, c, 0);
    var n' := WithoutKid(n, c);
    forall i | 0 <= i < |n'.kids|
      ensures n'.idx[i].ptr in disk && disk[n'.idx[i].ptr] == Top(n'.kids[i]) && Rep(disk, n'.kids[i])
    {
      DropAt(n.kids, c, i);
      DropAt(n.idx, c, i);
    }
    KidsSplit(n.kids, c);
    PtrsSplit(n.idx, c);
    BlocksAppend(n.kids[..c], n.kids[c + 1..]);
    PtrsAppend(n.idx[..c], n.idx[c + 1..]);
  }

  /** Take entry c out of the index node at p. */
  method DropEntry(inode: Inode, step: Step, c: nat, ghost p: Path)
    requires inode.Stored() && NoDup(Blocks(inode.t)) && HasKid(inode.t, p, c) && step.loc == LocAt(inode.t, p)
    modifies inode`root, inode`disk, inode`t
    ensures inode.Stored() && inode.t == Gone(old(inode.t), p, c)
  {
    ghost var t := inode.t;
    inode.NodeOnPath(p);
    AtRep(inode.disk, t, p);
    WithoutKidStored(inode.disk, At(t, p), c);
    if p != [] {
      BlockNotBelow(t, p);
    }
    var n := inode.NodeAt(step.loc);
    inode.WriteNode(step.loc, IndexNode(n.max, n.depth, Drop(n.idx, c)), p, WithoutKid(At(t, p), c));
  }

  lemma FreedNode(b: multiset<nat>, b': multiset<nat>, d: multiset<nat>, free: set<nat>, x: nat)
    requires NoDup(b + d + multiset(free)) && b' + multiset{x} == b
    ensures Run(x, 1) == multiset{x} && x !in free
    ensures b' + d + (multiset(free) + Run(x, 1)) == b + d + multiset(free)
  {
    assert Run(x, 0) == multiset{};
    assert (b + d + multiset(free))[x] <= 1;
    assert (b' + multiset{x})[x] >= 1;
  }

  /**
   ext4_ext_rm_idx: child c of the node at p is empty; drop its entry, free its block and
   carry the node's new first key upwards.
   */
  method RmIdx(inode: Inode, path: seq<Step>, c: nat, ghost p: Path)
    requires inode.Stored() && Clean(inode.Universe()) && Tight(inode.t)
    requires Walks(inode.t, p, path) && path[|p|].pos == Slot(c) && HasKid(inode.t, p, c)
    requires Exts(At(inode.t, p).kids[c]) == [] && Blocks(At(inode.t, p).kids[c]) == multiset{}
    modifies inode`root, inode`disk, inode`free, inode`t
    ensures inode.Stored() && Tight(inode.t) && SameButKeys(Gone(old(inode.t), p, c), inode.t)
    ensures Exts(inode.t) == Exts(old(inode.t)) && inode.Universe() == old(inode.Universe())
  {
    ghost var t, free0 := inode.t, inode.free;
    var depth := |path| - 1;
    assert StepOk(t, p, path, depth) && p[..depth] == p;
    inode.NodeOnPath(p);
    CleanBlocks(inode);
    var idx := inode.NodeAt(path[depth].loc).idx;
    GoneContent(t, p, c);
    GoneTight(t, p, c);
    DropEntry(inode, path[depth], c, p);
    FreedNode(Blocks(t), Blocks(inode.t), Data(Exts(t)), free0, idx[c].ptr);
    inode.FreeBlocks(idx[c].ptr, 1);
    GoneWalks(t, p, c, path);
    SameRefl(inode.t);
    if c == 0 {
      // p_idx now stands on the next entry, or on the stale copy of the removed one
      var border := if |idx| > 1 then idx[1].key else idx[0].key;
      ghost var u := inode.t;
      CleanBlocks(inode);
      RaiseKey(inode, path, border, p);
      SameExts(u, inode.t);
    }
  }

  lemma GoneWalks(t: Tree, p: Path, c: nat, path: seq<Step>)
    requires Shape(t) && HasKid(t, p, c) && Walks(t, p, path)
    ensures Shape(Gone(t, p, c)) && Walks(Gone(t, p, c), p, path)
  {
    AtShape(t, p);
    WithoutKidShape(At(t, p), c, 0);
    LeafWalks(t, p, path, WithoutKid(At(t, p), c));
  }
}
