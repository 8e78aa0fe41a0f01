/**
 ext4_ext_search_left and ext4_ext_search_right: the nearest allocated block on either side
 of a hole, across leaf and index boundaries.
 */
module NearestBlocks {
  import opened Extents
  import opened ExtentTrees
  import opened ExtentSearch
  import opened Inodes
  import opened TreeUpdates
  import opened ExtentSplit
  import opened ExtentGrow
  import opened ExtentNeighbours
  import opened ExtentConvert
  import opened ExtentGaps

  /** p is the nearest mapped block below b and lies at phys. */
  ghost predicate NearestBelow(m: LogicalMap, b: nat, p: nat, phys: nat) {
    p < b && p in m && m[p].pblk == phys && Unmapped(m, p + 1, b + 1)
  }

  /** p is the nearest mapped block above b and lies at phys. */
  ghost predicate NearestAbove(m: LogicalMap, b: nat, p: nat, phys: nat) {
    b < p && p in m && m[p].pblk == phys && Unmapped(m, b, p)
  }

  /** What the search position says about the blocks to its left. */
  lemma LeftOfHole(s: seq<Extent>, b: nat)
    requires Sorted(s) && s != [] && b !in LMap(s)
    ensures Pos(s, b) < |s|
    ensures var e := s[Pos(s, b)];
      ExtentOk(e) && if b < e.block then Unmapped(LMap(s), 0, b + 1)
                     else End(e) <= b && NearestBelow(LMap(s), b, End(e) - 1, e.pblk + Len(e) - 1)
  {
    PosIn(s, b);
    FoundPick(s, b);
    NotCovered(s, b);
    var n := Pos(s, b);
    assert ExtentOk(s[n]);
    if b < s[n].block {
      NothingTo(s, b);
    } else {
      LastOfEntry(s, n, b);
    }
  }

  lemma NothingTo(s: seq<Extent>, b: nat)
    requires Sorted(s) && s != [] && b < s[0].block
    ensures Unmapped(LMap(s), 0, b + 1)
  {
    GapUnmapped(s, 0, 0, b + 1);
  }

  lemma LastOfEntry(s: seq<Extent>, n: nat, b: nat)
    requires Sorted(s) && n < |s| && ExtentOk(s[n]) && End(s[n]) <= b && (n + 1 < |s| ==> b < s[n + 1].block)
    ensures NearestBelow(LMap(s), b, End(s[n]) - 1, s[n].pblk + Len(s[n]) - 1)
  {
    GapUnmapped(s, n + 1, End(s[n]), b + 1);
    LMapAt(s, n, End(s[n]) - 1);
  }

  /** Entry k is the first one behind b. */
  lemma FirstBehind(s: seq<Extent>, k: nat, b: nat)
    requires Sorted(s) && k <= |s| && (k > 0 ==> End(s[k - 1]) <= b) && (k < |s| ==> b < s[k].block)
    ensures if k < |s| then NearestAbove(LMap(s), b, s[k].block, s[k].pblk) else forall x :: x >= b ==> x !in LMap(s)
  {
    if k < |s| {
      assert ExtentOk(s[k]);
      GapUnmapped(s, k, b, s[k].block);
      LMapAt(s, k, s[k].block);
    } else {
      forall x: nat | x >= b ensures x !in LMap(s) {
        GapUnmapped(s, k, b, x + 1);
      }
    }
  }

  lemma RightOfHole(s: seq<Extent>, b: nat)
    requires Sorted(s) && s != [] && b !in LMap(s)
    ensures Pos(s, b) < |s|
    ensures var n := Pos(s, b);
      var k := if b < s[n].block then n else n + 1;
      if k < |s| then NearestAbove(LMap(s), b, s[k].block, s[k].pblk) else forall x :: x >= b ==> x !in LMap(s)
  {
    PosIn(s, b);
    FoundPick(s, b);
    NotCovered(s, b);
    var n := Pos(s, b);
    FirstBehind(s, if b < s[n].block then n else n + 1, b);
  }

  /**
   ext4_ext_search_left: EIO exactly if the block is mapped itself; else the nearest mapped
   block below it, with phys 0 if there is none.
   */
  method SearchLeft(inode: Inode, path: seq<Step>, logical: nat) returns (err: Status, logical': nat, phys: nat)
    requires inode.Valid() && Searchable(inode.t) && SearchPath(inode.t, logical, path)
    ensures err == if logical in inode.Contents() then EIO else Ok
    ensures err == Ok && phys == 0 ==> logical' == logical && Unmapped(inode.Contents(), 0, logical + 1)
    ensures err == Ok && phys != 0 ==> NearestBelow(inode.Contents(), logical, logical', phys)
  {
    var depth := |path| - 1;
    if path[depth].pos.Null? {
      EmptyFile(inode, path, logical);
      return Ok, logical, 0;
    }
    LeafNotEmpty(inode, path, logical);
    var ex, j := ReadFound(inode, path, logical);
    CoveredIff(Exts(inode.t), logical);
    if logical < ex.block {
      LeftOfHole(Exts(inode.t), logical);
      return Ok, logical, 0;
    }
    if logical < ex.block + Len(ex) {
      return EIO, logical, 0;
    }
    LeftOfHole(Exts(inode.t), logical);
    NoBlockZero(inode, ex);
    return Ok, ex.block + Len(ex) - 1, ex.pblk + Len(ex) - 1;
  }

  /**
   ext4_ext_search_right: EIO exactly if the block is mapped itself; else the nearest mapped
   block above it and the extent that begins with it, with phys 0 if there is none.
   */
  method SearchRight(inode: Inode, path: seq<Step>, logical: nat)
    returns (err: Status, logical': nat, phys: nat, retEx: Extent)
    requires inode.Valid() && Searchable(inode.t) && SearchPath(inode.t, logical, path)
    ensures err == if logical in inode.Contents() then EIO else Ok
    ensures err == Ok && phys == 0 ==> logical' == logical && forall x :: x >= logical ==> x !in inode.Contents()
    ensures err == Ok && phys != 0 ==> NearestAbove(inode.Contents(), logical, logical', phys)
    ensures err == Ok && phys != 0 ==> retEx in Exts(inode.t) && retEx.block == logical'
  {
    retEx := Extent(0, 0, 0);
    var depth := |path| - 1;
    if path[depth].pos.Null? {
      EmptyFile(inode, path, logical);
      return Ok, logical, 0, retEx;
    }
    LeafNotEmpty(inode, path, logical);
    var ex, j := ReadFound(inode, path, logical);
    CoveredIff(Exts(inode.t), logical);
    if ex.block <= logical < ex.block + Len(ex) {
      return EIO, logical, 0, retEx;
    }
    RightOfHole(Exts(inode.t), logical);
    if logical < ex.block {
      NoBlockZero(inode, ex);
      return Ok, ex.block, ex.pblk, ex;
    }
    var found, next := NextExtent(inode, path, logical);
    if !found {
      return Ok, logical, 0, retEx;
    }
    NoBlockZero(inode, next);
    return Ok, next.block, next.pblk, next;
  }

  /** Data blocks are never block 0. */
  lemma NoBlockZero(inode: Inode, e: Extent)
    requires inode.Valid() && e in Exts(inode.t)
    ensures e.pblk != 0
  {
    var s := Exts(inode.t);
    var i :| 0 <= i < |s| && s[i] == e;
    assert ExtentOk(s[i]);
    Around(s, i);
    DataInsert(s[..i], e, s[i + 1..]);
    RunCount(e.pblk, Len(e), e.pblk);
    assert e.pblk in DataOf(e);
    assert e.pblk in inode.Universe();
  }

  lemma Around(s: seq<Extent>, i: nat)
    requires i < |s|
    ensures s == s[..i] + [s[i]] + s[i + 1..]
  {
  }

  /** The extent behind the found one, in its leaf or in the next. */
  method NextExtent(inode: Inode, path: seq<Step>, ghost b: nat) returns (found: bool, ex: Extent)
    requires inode.Valid() && OnEntry(inode.t, b, path)
    ensures found <==> Pos(Exts(inode.t), b) + 1 < |Exts(inode.t)|
    ensures found ==> ex == Exts(inode.t)[Pos(Exts(inode.t), b) + 1]
  {
    ghost var t, q, s, n := inode.t, FindPath(inode.t, b), Exts(inode.t), Pos(Exts(inode.t), b);
    NextIsGapEnd(inode, path, b);
    var depth := |path| - 1;
    assert StepOk(t, q, path, depth) && q[..depth] == q;
    inode.NodeOnPath(q);
    var leaf := inode.NodeAt(path[depth].loc);
    var j := path[depth].pos.i;
    ghost var rest := leaf.exts[j + 1..] + RightOf(t, q);
    assert rest == s[n + 1..];
    if j + 1 < |leaf.exts| {
      assert rest[0] == leaf.exts[j + 1];
      return true, leaf.exts[j + 1];
    }
    assert rest == RightOf(t, q);
    found, ex := FirstRight(inode, path, q);
  }

  /** Go up to an index with a right neighbour, then down to the first extent below that. */
  method FirstRight(inode: Inode, path: seq<Step>, ghost q: Path) returns (found: bool, ex: Extent)
    requires inode.Valid() && Walks(inode.t, q, path) && At(inode.t, q).Leaf?
    ensures found <==> RightOf(inode.t, q) != []
    ensures found ==> ex == RightOf(inode.t, q)[0]
  {
    ghost var t := inode.t;
    var pDepth := |path| - 1;
    var depth := pDepth - 1;
    assert q[..pDepth] == q;
    while depth >= 0
      invariant -1 <= depth < pDepth
      invariant PathIn(t, q[..depth + 1]) && RightOf(t, q) == RightOf(t, q[..depth + 1])
    {
      ClimbRight(t, q, depth, inode.cap);
      assert StepOk(t, q, path, depth);
      inode.NodeOnPath(q[..depth]);
      var n := inode.NodeAt(path[depth].loc);
      if path[depth].pos != Slot(|n.idx| - 1) {
        var next := path[depth].pos.i + 1;
        NextKid(inode, q, depth, next);
        ex := DownFirst(inode, n.idx[next].ptr, depth + 1, pDepth, q[..depth] + [next]);
        return true, ex;
      }
      depth := depth - 1;
    }
    assert q[..0] == [];
    return false, Extent(0, 0, 0);
  }

  /** The right neighbour holds the first extent to the right. */
  lemma NextKid(inode: Inode, q: Path, i: nat, next: nat)
    requires inode.Valid() && PathIn(inode.t, q) && At(inode.t, q).Leaf? && i < |q| && next == q[i] + 1
    requires PathIn(inode.t, q[..i + 1]) && RightOf(inode.t, q) == RightOf(inode.t, q[..i + 1])
    requires PathIn(inode.t, q[..i]) && At(inode.t, q[..i]).Index? && next < |At(inode.t, q[..i]).kids|
    ensures var t, p := inode.t, q[..i] + [next];
      PathIn(t, p) && |p| == i + 1 && Exts(At(t, p)) != [] && RightOf(t, q) != []
        && Exts(At(t, p))[0] == RightOf(t, q)[0]
    ensures |At(inode.t, q[..i]).idx| == |At(inode.t, q[..i]).kids|
    ensures BlockAt(inode.t, q[..i] + [next]) == At(inode.t, q[..i]).idx[next].ptr
    ensures Depth(At(inode.t, q[..i] + [next])) + i + 1 == |q|
  {
    var t, n := inode.t, At(inode.t, q[..i]);
    NodeOnWay(t, q, i, inode.cap);
    SidesAt(t, q, i);
    inode.StepDown(q[..i], next);
    LKeyFirst(n.kids[next]);
    assert n.kids[next..][0] == n.kids[next];
    DepthOfLeaf(t, q);
  }

  lemma {:induction false} DepthOfLeaf(t: Tree, q: Path)
    requires Shape(t) && PathIn(t, q) && At(t, q).Leaf?
    ensures |q| == Depth(t)
  {
    if q != [] {
      DepthOfLeaf(t.kids[q[0]], q[1..]);
    }
  }

  /** Follow the first entries from `block` down to a leaf and take its first extent. */
  method DownFirst(inode: Inode, first: nat, from: nat, pDepth: nat, ghost start: Path) returns (ex: Extent)
    requires inode.Valid() && PathIn(inode.t, start) && start != [] && first == BlockAt(inode.t, start)
    requires Depth(At(inode.t, start)) + from == pDepth && Exts(At(inode.t, start)) != []
    ensures ex == Exts(At(inode.t, start))[0]
  {
    ghost var t, p := inode.t, start;
    var block, depth := first, from;
    while depth < pDepth
      invariant from <= depth <= pDepth && PathIn(t, p) && p != [] && block == BlockAt(t, p)
      invariant Depth(At(t, p)) + depth == pDepth
      invariant Exts(At(t, p)) != [] && Exts(At(t, p))[0] == Exts(At(t, start))[0]
    {
      inode.NodeOnPath(p);
      FirstKid(inode, p);
      block := inode.disk[block].idx[0].ptr;
      depth := depth + 1;
      p := p + [0];
    }
    inode.NodeOnPath(p);
    AtShape(t, p);
    ex := inode.disk[block].exts[0];
  }

  lemma FirstKid(inode: Inode, p: Path)
    requires inode.Valid() && PathIn(inode.t, p) && p != [] && At(inode.t, p).Index?
    ensures var n := At(inode.t, p);
      |n.idx| == |n.kids| > 0 && PathIn(inode.t, p + [0]) && At(inode.t, p + [0]) == n.kids[0]
      && BlockAt(inode.t, p + [0]) == n.idx[0].ptr && Depth(n.kids[0]) + 1 == Depth(n)
      && Exts(n.kids[0]) != [] && Exts(n) != [] && Exts(n)[0] == Exts(n.kids[0])[0]
  {
    var t, n := inode.t, At(inode.t, p);
    AtTightNoEmpty(t, p);
    inode.StepDown(p, 0);
    LKeyFirst(n.kids[0]);
  }
}
