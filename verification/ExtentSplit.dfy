/**
 Splitting a full leaf: ext4_ext_split moves everything right of the current extent
 into a fresh subtree, one node per level, and hangs it into the first ancestor with a
 free slot. The right half may start out with an empty leaf that is about to receive
 the new extent.
 */
module ExtentSplit {
  import opened Extents
  import opened ExtentTrees
  import opened ExtentSearch
  import opened Inodes
  import opened IndexKeys
  import opened TreeUpdates

  /**
   The detached right half during a split. `full` is the half as it will be once the
   leaf at `z` is occupied; on disk that leaf still holds `leaf`.
   */
  datatype Half = Half(full: Tree, z: Path, leaf: Tree, ptr: nat)

  ghost predicate HalfOk(h: Half, border: nat, cap: nat, d: nat) {
    && Shape(h.full) && Depth(h.full) == d && |h.z| == d
    && Tight(h.full) && NoEmpty(h.full) && LKey(h.full) == border
    && Fits(h.full, cap) && h.full.max == cap && Entries(Top(h.full)) <= cap
    && PathIn(h.full, h.z) && LeftOf(h.full, h.z) == []
    && At(h.full, h.z).Leaf? && At(h.full, h.z).max == cap
    && h.leaf.Leaf? && h.leaf.max == cap
  }

  ghost function OnDisk(h: Half): Tree
    requires PathIn(h.full, h.z)
  {
    Update(h.full, h.z, h.leaf)
  }

  ghost predicate HalfStored(disk: Disk, h: Half)
    requires PathIn(h.full, h.z)
  {
    && Shape(OnDisk(h)) && Rep(disk, OnDisk(h))
    && h.ptr in disk && disk[h.ptr] == Top(OnDisk(h))
  }

  ghost predicate TreeOk(t: Tree, cap: nat) {
    && Shape(t) && Tight(t) && NoEmpty(t) && Fits(t, cap)
    && t.max == ROOT_CAP && Entries(Top(t)) <= ROOT_CAP
  }

  /** Down to level lvl the path is as in t0, entries included. */
  ghost predicate Above(t0: Tree, t: Tree, q: Path, path: seq<Step>, lvl: nat)
    requires Shape(t0) && Shape(t) && lvl <= |q| && |path| == |q| + 1
  {
    forall k :: 0 <= k <= lvl ==> AboveAt(t0, t, q, path, k, lvl)
  }

  ghost predicate AboveAt(t0: Tree, t: Tree, q: Path, path: seq<Step>, k: nat, lvl: nat)
    requires Shape(t0) && Shape(t) && k <= lvl <= |q| && |path| == |q| + 1
  {
    && StepOk(t, q, path, k)
    && PathIn(t0, q[..k])
    && (k < lvl ==> Top(At(t, q[..k])) == Top(At(t0, q[..k])))
  }

  lemma {:induction false} UpdatePrefix(t: Tree, p: Path, s: Tree, k: nat)
    requires Shape(t) && PathIn(t, p) && k <= |p| && Shape(s) && Depth(s) == Depth(At(t, p))
    ensures PathIn(t, p[..k]) && PathIn(Update(t, p, s), p[..k]) && Shape(Update(t, p, s))
    ensures k > 0 ==> BlockAt(Update(t, p, s), p[..k]) == BlockAt(t, p[..k])
    ensures k < |p| ==> Top(At(Update(t, p, s), p[..k])) == Top(At(t, p[..k]))
    decreases p
  {
    UpdateShape(t, p, s);
    if k > 0 {
      var kid := t.kids[p[0]];
      assert p[..k][1..] == p[1..][..k - 1];
      UpdatePrefix(kid, p[1..], s, k - 1);
    } else {
      UpdateAt(t, p, s);
    }
  }

  lemma AboveUpdate(t0: Tree, t: Tree, q: Path, path: seq<Step>, lvl: nat, i: nat, s: Tree)
    requires Shape(t0) && Shape(t) && i <= lvl <= |q| && |path| == |q| + 1
    requires Above(t0, t, q, path, lvl)
    requires PathIn(t, q[..i]) && Shape(s) && Depth(s) == Depth(At(t, q[..i]))
    ensures Shape(Update(t, q[..i], s)) && Above(t0, Update(t, q[..i], s), q, path, i)
  {
    UpdateShape(t, q[..i], s);
    forall k | 0 <= k <= i ensures AboveAt(t0, Update(t, q[..i], s), q, path, k, i) {
      assert AboveAt(t0, t, q, path, k, lvl);
      assert q[..i][..k] == q[..k];
      UpdatePrefix(t, q[..i], s, k);
    }
  }

  // ----- one level ---------------------------------------------------------------

  /** What stays behind in an index node split after child c. */
  ghost function LeftCut(n: Tree, c: nat): Tree
    requires n.Index? && c < |n.idx| == |n.kids|
  {
    Index(n.max, n.depth, n.idx[..c + 1], n.kids[..c + 1])
  }

  /** The new node of the right half one level up. */
  ghost function HalfUp(n: Tree, c: nat, h: Half, border: nat, ptr: nat, cap: nat): Half
    requires n.Index? && c < |n.idx| == |n.kids|
  {
    Half(Index(cap, n.depth, [Idx(border, h.ptr)] + n.idx[c + 1..], [h.full] + n.kids[c + 1..]),
         [0] + h.z, h.leaf, ptr)
  }

  lemma LeftCutOk(n: Tree, c: nat, cap: nat)
    requires n.Index? && Shape(n) && c < |n.kids| && Tight(n) && NoEmpty(n) && Fits(n, cap)
    ensures var l := LeftCut(n, c);
      Shape(l) && Tight(l) && NoEmpty(l) && Fits(l, cap) && LKey(l) == LKey(n)
  {
    var l := LeftCut(n, c);
    forall j | 0 <= j < |l.kids| ensures TightEdge(l, j) {
      assert TightEdge(n, j);
    }
  }

  lemma LeftCutPath(n: Tree, c: nat, p: Path)
    requires n.Index? && Shape(n) && p != [] && p[0] == c && PathIn(n, p)
    ensures var l := LeftCut(n, c);
      PathIn(l, p) && At(l, p) == At(n, p) && LeftOf(l, p) == LeftOf(n, p)
  {
    var l := LeftCut(n, c);
    assert l.kids[c] == n.kids[c] && l.kids[..c] == n.kids[..c];
  }

  lemma HalfUpOk(n: Tree, c: nat, h: Half, border: nat, ptr: nat, cap: nat)
    requires n.Index? && Shape(n) && c < |n.kids| && Tight(n) && NoEmpty(n) && Fits(n, cap) && |n.idx| <= cap
    requires HalfOk(h, border, cap, n.depth - 1)
    ensures HalfOk(HalfUp(n, c, h, border, ptr, cap), border, cap, n.depth)
    ensures OnDisk(HalfUp(n, c, h, border, ptr, cap)) ==
            Index(cap, n.depth, [Idx(border, h.ptr)] + n.idx[c + 1..], [OnDisk(h)] + n.kids[c + 1..])
  {
    var h' := HalfUp(n, c, h, border, ptr, cap);
    var f := h'.full;
    assert h'.z[1..] == h.z;
    assert f.kids[0] == h.full && f.kids[..0] == [];
    forall j | 0 <= j < |f.kids|
      ensures Depth(f.kids[j]) == f.depth - 1 && Shape(f.kids[j])
    {
      assert j > 0 ==> f.kids[j] == n.kids[c + j];
    }
    forall j | 0 <= j < |f.kids|
      ensures TightEdge(f, j) && Tight(f.kids[j]) && NoEmpty(f.kids[j])
      ensures f.kids[j].max == cap && Entries(Top(f.kids[j])) <= cap && Fits(f.kids[j], cap)
    {
      if j > 0 {
        assert f.kids[j] == n.kids[c + j] && f.idx[j] == n.idx[c + j];
        assert TightEdge(n, c + j);
      }
    }
    assert f.kids[0 := OnDisk(h)] == [OnDisk(h)] + n.kids[c + 1..];
  }

  /** Extents and blocks are only moved between the halves. */
  lemma CutConserves(n: Tree, c: nat, h: Half, border: nat, ptr: nat, cap: nat)
    requires n.Index? && Shape(n) && c < |n.kids| && PathIn(h.full, h.z)
    ensures var l, r := LeftCut(n, c),
        Index(cap, n.depth, [Idx(border, h.ptr)] + n.idx[c + 1..], [OnDisk(h)] + n.kids[c + 1..]);
      && Exts(l) == ExtsOf(n.kids[..c]) + Exts(n.kids[c])
      && Exts(r) == Exts(OnDisk(h)) + ExtsOf(n.kids[c + 1..])
      && Blocks(l) + Blocks(r) == Blocks(n) + Blocks(OnDisk(h)) + multiset{h.ptr}
  {
    var a, b := n.kids[..c + 1], n.kids[c + 1..];
    assert n.kids == a + b;
    assert a == n.kids[..c] + [n.kids[c]];
    ExtsAppend(n.kids[..c], [n.kids[c]]);
    ExtsSingle(n.kids[c]);
    ExtsAppend([OnDisk(h)], b);
    ExtsSingle(OnDisk(h));
    BlocksAppend(a, b);
    BlocksAppend([OnDisk(h)], b);
    BlocksSingle(OnDisk(h));
    var x, y := n.idx[..c + 1], n.idx[c + 1..];
    assert n.idx == x + y;
    PtrsAppend(x, y);
    PtrsAppend([Idx(border, h.ptr)], y);
    PtrsSingle(Idx(border, h.ptr));
  }

  lemma PathAt(t: Tree, q: Path, i: nat)
    requires PathIn(t, q) && i < |q|
    ensures PathIn(t, q[..i]) && PathIn(t, q[..i + 1]) && PathIn(At(t, q[..i]), q[i..])
    ensures At(t, q[..i]).Index? && q[i] < |At(t, q[..i]).kids|
    ensures At(t, q[..i + 1]) == At(t, q[..i]).kids[q[i]]
    ensures At(At(t, q[..i]), q[i..]) == At(t, q)
  {
    PathPrefix(t, q, i);
    assert q[..i + 1] == q[..i] + [q[i]];
    PathJoin(t, q[..i], [q[i]]);
    assert q[i..][0] == q[i];
  }

  lemma SidesAt(t: Tree, q: Path, i: nat)
    requires PathIn(t, q) && i < |q|
    ensures PathIn(t, q[..i]) && PathIn(t, q[..i + 1]) && At(t, q[..i]).Index? && q[i] < |At(t, q[..i]).kids|
    ensures LeftOf(t, q[..i + 1]) == LeftOf(t, q[..i]) + ExtsOf(At(t, q[..i]).kids[..q[i]])
    ensures RightOf(t, q[..i + 1]) == ExtsOf(At(t, q[..i]).kids[q[i] + 1..]) + RightOf(t, q[..i])
  {
    PathAt(t, q, i);
    OneStepOn(q, i);
    SidesStep(t, q[..i], q[i]);
  }

  lemma OneStepOn(q: Path, i: nat)
    requires i < |q|
    ensures q[..i + 1] == q[..i] + [q[i]]
  {
  }

  lemma SidesStep(t: Tree, p: Path, x: nat)
    requires PathIn(t, p) && At(t, p).Index? && x < |At(t, p).kids| && PathIn(t, p + [x]) && PathIn(At(t, p), [x])
    ensures LeftOf(t, p + [x]) == LeftOf(t, p) + ExtsOf(At(t, p).kids[..x])
    ensures RightOf(t, p + [x]) == ExtsOf(At(t, p).kids[x + 1..]) + RightOf(t, p)
  {
    var n := At(t, p);
    LeftJoin(t, p, [x]);
    RightJoin(t, p, [x]);
    assert LeftOf(n, [x]) == ExtsOf(n.kids[..x]) + [];
    assert RightOf(n, [x]) == [] + ExtsOf(n.kids[x + 1..]);
  }

  /** Replacing the node at level i by its left cut keeps the path to the leaf. */
  lemma CutTree(t: Tree, q: Path, i: nat, cap: nat)
    requires TreeOk(t, cap) && PathIn(t, q) && i < |q| && At(t, q).Leaf?
    requires PathIn(t, q[..i]) && At(t, q[..i]).Index?
    requires q[i] < |At(t, q[..i]).idx| == |At(t, q[..i]).kids|
    ensures var t' := Update(t, q[..i], LeftCut(At(t, q[..i]), q[i]));
      && TreeOk(t', cap)
      && PathIn(t', q) && At(t', q) == At(t, q) && LeftOf(t', q) == LeftOf(t, q)
  {
    PathAt(t, q, i);
    var p := q[..i];
    var n := At(t, p);
    AtTightNoEmpty(t, p);
    AtFits(t, p, cap);
    LeftCutOk(n, q[i], cap);
    var l := LeftCut(n, q[i]);
    UpdateTight(t, p, l);
    UpdateNoEmpty(t, p, l);
    UpdateFits(t, p, l, cap);
    var t' := Update(t, p, l);
    UpdateAt(t, p, l);
    LeftCutPath(n, q[i], q[i..]);
    assert q == p + q[i..];
    PathJoin(t', p, q[i..]);
    UpdateSides(t, p, l);
    LeftJoin(t', p, q[i..]);
    LeftJoin(t, p, q[i..]);
  }

  /** The right half one level up is on disk as soon as its top node is written. */
  lemma HalfUpStored(disk: Disk, disk': Disk, n: Tree, c: nat, h: Half, border: nat, ptr: nat, cap: nat)
    requires n.Index? && Shape(n) && c < |n.kids| && Rep(disk, n) && PathIn(h.full, h.z) && HalfStored(disk, h)
    requires Depth(OnDisk(h)) == n.depth - 1
    requires ptr in disk'
    requires var r := Index(cap, n.depth, [Idx(border, h.ptr)] + n.idx[c + 1..], [OnDisk(h)] + n.kids[c + 1..]);
      && disk'[ptr] == Top(r)
      && forall x :: x in Blocks(r) && x in disk ==> x in disk' && disk'[x] == disk[x]
    ensures var r := Index(cap, n.depth, [Idx(border, h.ptr)] + n.idx[c + 1..], [OnDisk(h)] + n.kids[c + 1..]);
      Shape(r) && Rep(disk', r)
  {
    var r := Index(cap, n.depth, [Idx(border, h.ptr)] + n.idx[c + 1..], [OnDisk(h)] + n.kids[c + 1..]);
    forall j | 0 <= j < |r.kids|
      ensures Depth(r.kids[j]) == r.depth - 1 && Shape(r.kids[j])
      ensures r.idx[j].ptr in disk && disk[r.idx[j].ptr] == Top(r.kids[j]) && Rep(disk, r.kids[j])
    {
      if j > 0 {
        assert r.kids[j] == n.kids[c + j] && r.idx[j] == n.idx[c + j];
      }
    }
    forall x | x in Blocks(r) ensures x in disk {
      RepBlocks(disk, r, x);
    }
    RepFrame(disk, disk', r);
  }

  /** The blocks of the right half are apart from the block being written and from the old node. */
  lemma HalfApart(t: Tree, p: Path, c: nat, h: Half, border: nat, cap: nat, spare: multiset<nat>, total: multiset<nat>)
    requires Shape(t) && PathIn(t, p) && p != [] && At(t, p).Index? && Shape(At(t, p)) && c < |At(t, p).kids|
    requires PathIn(h.full, h.z)
    requires Blocks(t) + Blocks(OnDisk(h)) + multiset{h.ptr} + spare == total && NoDup(total)
    ensures var n := At(t, p);
      var r := Index(cap, n.depth, [Idx(border, h.ptr)] + n.idx[c + 1..], [OnDisk(h)] + n.kids[c + 1..]);
      forall x :: x in Blocks(r) ==> x !in spare && x != BlockAt(t, p)
  {
    var n := At(t, p);
    var r := Index(cap, n.depth, [Idx(border, h.ptr)] + n.idx[c + 1..], [OnDisk(h)] + n.kids[c + 1..]);
    CutConserves(n, c, h, border, 0, cap);
    BlocksAt(t, p);
    NoDupPart(Blocks(t), total);
    BlockNotBelow(t, p);
    BlockAtIn(t, p);
    forall x | x in Blocks(r) ensures x !in spare && x != BlockAt(t, p) {
      assert x in Blocks(LeftCut(n, c)) + Blocks(r);
      assert x in Blocks(n) || x in Blocks(OnDisk(h)) || x == h.ptr;
      assert total[x] <= 1;
    }
  }

  lemma NoDupPart(a: multiset<nat>, b: multiset<nat>)
    requires a <= b && NoDup(b)
    ensures NoDup(a)
  {
    forall x ensures a[x] <= 1 {
      assert b[x] <= 1;
    }
  }

  lemma NodeOnWay(t: Tree, q: Path, i: nat, cap: nat)
    requires TreeOk(t, cap) && PathIn(t, q) && i < |q|
    ensures PathIn(t, q[..i]) && At(t, q[..i]).Index? && q[i] < |At(t, q[..i]).kids| == |At(t, q[..i]).idx|
    ensures var n := At(t, q[..i]);
      && Shape(n) && Tight(n) && NoEmpty(n) && Fits(n, cap) && n.depth == Depth(t) - i
      && (i > 0 ==> n.max == cap && |n.idx| <= cap)
  {
    PathAt(t, q, i);
    AtShape(t, q[..i]);
    AtTightNoEmpty(t, q[..i]);
    AtFits(t, q[..i], cap);
  }

  lemma Unused(a: multiset<nat>, b: multiset<nat>, p: nat, spare: multiset<nat>, total: multiset<nat>, x: nat)
    requires a + b + multiset{p} + spare == total && NoDup(total) && x in spare
    ensures x !in a && x !in b && x != p
  {
    assert total[x] <= 1;
  }

  lemma LeftCutStored(disk: Disk, disk': Disk, n: Tree, c: nat, changed: nat)
    requires n.Index? && Shape(n) && c < |n.kids| && Rep(disk, n) && changed !in Blocks(n)
    requires forall x :: x in disk && x != changed ==> x in disk' && disk'[x] == disk[x]
    ensures var l := LeftCut(n, c); Shape(l) && Rep(disk', l) && Blocks(l) <= Blocks(n)
  {
    var l := LeftCut(n, c);
    assert n.kids == n.kids[..c + 1] + n.kids[c + 1..];
    assert n.idx == n.idx[..c + 1] + n.idx[c + 1..];
    BlocksAppend(n.kids[..c + 1], n.kids[c + 1..]);
    PtrsAppend(n.idx[..c + 1], n.idx[c + 1..]);
    forall x | x in Blocks(l) ensures x in disk {
      RepBlocks(disk, n, x);
    }
    assert Rep(disk, l);
    RepFrame(disk, disk', l);
  }

  ghost function NewRight(n: Tree, c: nat, h: Half, border: nat, cap: nat): Tree
    requires n.Index? && c < |n.idx| == |n.kids| && PathIn(h.full, h.z)
  {
    Index(cap, n.depth, [Idx(border, h.ptr)] + n.idx[c + 1..], [OnDisk(h)] + n.kids[c + 1..])
  }

  ghost function AfterLevel(disk: Disk, t: Tree, p: Path, c: nat, h: Half, border: nat, ptr: nat, cap: nat): Disk
    requires PathIn(t, p) && p != [] && Shape(t) && PathIn(h.full, h.z)
    requires At(t, p).Index? && c < |At(t, p).kids| == |At(t, p).idx|
  {
    disk[ptr := Top(NewRight(At(t, p), c, h, border, cap))][BlockAt(t, p) := Top(LeftCut(At(t, p), c))]
  }

  lemma LevelStored(disk: Disk, t: Tree, p: Path, c: nat, h: Half, border: nat, ptr: nat, cap: nat,
                    spare: multiset<nat>, total: multiset<nat>)
    requires Shape(t) && Rep(disk, t) && PathIn(t, p) && p != [] && ptr in spare
    requires At(t, p).Index? && Shape(At(t, p)) && c < |At(t, p).kids| && |At(t, p).idx| <= cap
    requires Tight(At(t, p)) && NoEmpty(At(t, p)) && Fits(At(t, p), cap)
    requires HalfOk(h, border, cap, At(t, p).depth - 1) && HalfStored(disk, h)
    requires Blocks(t) + Blocks(OnDisk(h)) + multiset{h.ptr} + spare == total && NoDup(total)
    ensures var h' := HalfUp(At(t, p), c, h, border, ptr, cap);
      PathIn(h'.full, h'.z) && HalfStored(AfterLevel(disk, t, p, c, h, border, ptr, cap), h')
  {
    var n := At(t, p);
    AtRep(disk, t, p);
    HalfUpOk(n, c, h, border, ptr, cap);
    HalfApart(t, p, c, h, border, cap, spare, total);
    BlockAtIn(t, p);
    Unused(Blocks(t), Blocks(OnDisk(h)), h.ptr, spare, total, ptr);
    UpdateShape(h.full, h.z, h.leaf);
    HalfUpStored(disk, AfterLevel(disk, t, p, c, h, border, ptr, cap), n, c, h, border, ptr, cap);
  }

  // ----- the invariant of the bottom-up walk -----------------------------------------

  /** What stays fixed during one split. */
  datatype Plan = Plan(
    t0: Tree,             // the tree before
    q: Path,              // the path to the full leaf
    path: seq<Step>,      // ... as the caller's array
    border: nat,          // first block of the right half
    cap: nat,
    leaf: Tree,           // what remains in the old leaf
    fill: seq<Extent>,    // what the new leaf is to hold
    rest: seq<Extent>,    // what it holds for now
    left: seq<Extent>,    // all extents that stay left of the border
    all: seq<Extent>,
    total: multiset<nat>  // all node blocks, old and new
  )

  ghost predicate PlanOk(c: Plan) {
    && Shape(c.t0) && Depth(c.t0) == |c.q| && |c.path| == |c.q| + 1 && c.leaf.Leaf? && NoDup(c.total)
  }

  /**
   Levels below `lvl` are split: the tree keeps the left part, `h` holds the right part,
   and together they hold exactly the planned extents and blocks; the blocks of `spare`
   are still to be used.
   */
  ghost predicate MidSplit(disk: Disk, t: Tree, lvl: nat, h: Half, spare: multiset<nat>, c: Plan)
    requires PlanOk(c)
  {
    && lvl <= |c.q|
    && TreeOk(t, c.cap) && Depth(t) == |c.q| && Above(c.t0, t, c.q, c.path, lvl)
    && PathIn(t, c.q) && At(t, c.q) == c.leaf && PathIn(t, c.q[..lvl])
    && HalfOk(h, c.border, c.cap, |c.q| - lvl) && HalfStored(disk, h)
    && At(h.full, h.z).exts == c.fill && h.leaf.exts == c.rest
    && c.left == LeftOf(t, c.q[..lvl]) + Exts(At(t, c.q[..lvl]))
    && c.all == c.left + Exts(OnDisk(h)) + RightOf(t, c.q[..lvl])
    && Blocks(t) + Blocks(OnDisk(h)) + multiset{h.ptr} + spare == c.total
  }

  /** Extents and blocks are accounted for one level up. */
  lemma MovesUp(t: Tree, i: nat, h: Half, ptr: nat, spare: multiset<nat>, c: Plan)
    requires PathIn(t, c.q) && i < |c.q| && Shape(t) && PathIn(h.full, h.z) && ptr in spare
    requires PathIn(t, c.q[..i]) && At(t, c.q[..i]).Index? && Shape(At(t, c.q[..i]))
    requires c.q[i] < |At(t, c.q[..i]).kids| == |At(t, c.q[..i]).idx|
    requires PathIn(t, c.q[..i + 1]) && c.left == LeftOf(t, c.q[..i + 1]) + Exts(At(t, c.q[..i + 1]))
    requires c.all == c.left + Exts(OnDisk(h)) + RightOf(t, c.q[..i + 1])
    requires Blocks(t) + Blocks(OnDisk(h)) + multiset{h.ptr} + spare == c.total
    ensures var p := c.q[..i];
      var n := At(t, p);
      var l, r, t' := LeftCut(n, c.q[i]), NewRight(n, c.q[i], h, c.border, c.cap),
        Update(t, p, LeftCut(n, c.q[i]));
      && PathIn(t', p)
      && c.left == LeftOf(t', p) + Exts(At(t', p))
      && c.all == c.left + Exts(r) + RightOf(t', p)
      && Blocks(t') + Blocks(r) + multiset{ptr} + (spare - multiset{ptr}) == c.total
  {
    var p, pos := c.q[..i], c.q[i];
    var n := At(t, p);
    var l, r := LeftCut(n, pos), NewRight(n, pos, h, c.border, c.cap);
    var t' := Update(t, p, l);
    CutConserves(n, pos, h, c.border, ptr, c.cap);
    UpdateAt(t, p, l);
    UpdateSides(t, p, l);
    UpdateBlocks(t, p, l);
    SidesAt(t, c.q, i);
    PathAt(t, c.q, i);
    SeqAssoc(LeftOf(t, p), ExtsOf(n.kids[..pos]), Exts(n.kids[pos]));
    Regroup(c.left, Exts(OnDisk(h)), ExtsOf(n.kids[pos + 1..]), RightOf(t, p));
    Rebalance(Blocks(t), Blocks(t'), Blocks(n), Blocks(l), Blocks(OnDisk(h)), Blocks(r), h.ptr, ptr, spare);
  }

  /** Everything but the disk contents moves up one level. */
  lemma MidSplitUp(disk: Disk, disk': Disk, t: Tree, i: nat, h: Half, ptr: nat, spare: multiset<nat>, c: Plan)
    requires PlanOk(c) && 0 < i < |c.q| && MidSplit(disk, t, i + 1, h, spare, c) && ptr in spare
    requires PathIn(t, c.q[..i]) && At(t, c.q[..i]).Index?
    requires c.q[i] < |At(t, c.q[..i]).kids| == |At(t, c.q[..i]).idx|
    requires var h' := HalfUp(At(t, c.q[..i]), c.q[i], h, c.border, ptr, c.cap);
      PathIn(h'.full, h'.z) && HalfStored(disk', h')
    ensures MidSplit(disk', Update(t, c.q[..i], LeftCut(At(t, c.q[..i]), c.q[i])), i,
                     HalfUp(At(t, c.q[..i]), c.q[i], h, c.border, ptr, c.cap), spare - multiset{ptr}, c)
  {
    NodeOnWay(t, c.q, i, c.cap);
    var p, pos := c.q[..i], c.q[i];
    var n := At(t, p);
    LeftCutOk(n, pos, c.cap);
    HalfUpOk(n, pos, h, c.border, ptr, c.cap);
    assert ([0] + h.z)[1..] == h.z;
    CutTree(t, c.q, i, c.cap);
    UpdateAt(t, p, LeftCut(n, pos));
    AboveUpdate(c.t0, t, c.q, c.path, i + 1, i, LeftCut(n, pos));
    MovesUp(t, i, h, ptr, spare, c);
  }

  lemma Regroup(a: seq<Extent>, b: seq<Extent>, c: seq<Extent>, d: seq<Extent>)
    ensures a + b + (c + d) == a + (b + c) + d
  {
  }

  lemma Rebalance(t: multiset<nat>, t': multiset<nat>, n: multiset<nat>, l: multiset<nat>, r: multiset<nat>,
                  r': multiset<nat>, a: nat, b: nat, spare: multiset<nat>)
    requires t' + n == t + l
    requires l + r' == n + r + multiset{a}
    requires b in spare
    ensures t' + r' + multiset{b} + (spare - multiset{b}) == t + r + multiset{a} + spare
  {
    var u, v := t' + r' + multiset{b} + (spare - multiset{b}), t + r + multiset{a} + spare;
    forall x: nat ensures u[x] == v[x] {
      assert (t' + n)[x] == (t + l)[x];
      assert (l + r')[x] == (n + r + multiset{a})[x];
      assert (multiset{b} + (spare - multiset{b}))[x] == spare[x];
    }
  }

  /** What the code may rely on before it splits the index node at level i. */
  lemma LevelReady(disk: Disk, t: Tree, i: nat, h: Half, ptr: nat, spare: multiset<nat>, c: Plan)
    requires PlanOk(c) && 0 < i < |c.q| && MidSplit(disk, t, i + 1, h, spare, c)
    requires Rep(disk, t) && ptr in spare
    ensures PathIn(t, c.q[..i]) && At(t, c.q[..i]).Index?
    ensures c.q[i] < |At(t, c.q[..i]).kids| == |At(t, c.q[..i]).idx|
    ensures c.path[i].loc == InBlock(BlockAt(t, c.q[..i])) && c.path[i].pos == Slot(c.q[i])
    ensures Shape(At(t, c.q[..i])) && PathIn(c.t0, c.q[..i]) && Top(At(t, c.q[..i])) == Top(At(c.t0, c.q[..i]))
    ensures ptr !in Blocks(t) && NoDup(Blocks(t))
  {
    NodeOnWay(t, c.q, i, c.cap);
    assert AboveAt(c.t0, t, c.q, c.path, i, i + 1);
    Unused(Blocks(t), Blocks(OnDisk(h)), h.ptr, spare, c.total, ptr);
    NoDupPart(Blocks(t), c.total);
  }

  /** The two writes of a round carry the invariant one level up. */
  lemma LevelDone(disk: Disk, t: Tree, i: nat, h: Half, ptr: nat, spare: multiset<nat>, c: Plan)
    requires PlanOk(c) && 0 < i < |c.q| && MidSplit(disk, t, i + 1, h, spare, c)
    requires Rep(disk, t) && ptr in spare
    requires PathIn(t, c.q[..i]) && At(t, c.q[..i]).Index?
    requires c.q[i] < |At(t, c.q[..i]).kids| == |At(t, c.q[..i]).idx|
    ensures MidSplit(AfterLevel(disk, t, c.q[..i], c.q[i], h, c.border, ptr, c.cap),
                     Update(t, c.q[..i], LeftCut(At(t, c.q[..i]), c.q[i])), i,
                     HalfUp(At(t, c.q[..i]), c.q[i], h, c.border, ptr, c.cap), spare - multiset{ptr}, c)
  {
    NodeOnWay(t, c.q, i, c.cap);
    LevelStored(disk, t, c.q[..i], c.q[i], h, c.border, ptr, c.cap, spare, c.total);
    MidSplitUp(disk, AfterLevel(disk, t, c.q[..i], c.q[i], h, c.border, ptr, c.cap), t, i, h, ptr, spare, c);
  }

  /** Fill the new index node and shorten the old one: the writes of one round. */
  method WriteLevel(inode: Inode, step: Step, border: nat, oldblock: nat, newblock: nat, ghost p: Path, ghost h: Half)
    requires inode.Stored() && NoDup(Blocks(inode.t)) && PathIn(inode.t, p) && p != [] && PathIn(h.full, h.z)
    requires At(inode.t, p).Index? && Shape(At(inode.t, p)) && |At(inode.t, p).idx| == |At(inode.t, p).kids|
    requires step.pos.Slot? && 0 <= step.pos.i < |At(inode.t, p).kids|
    requires step.loc == InBlock(BlockAt(inode.t, p)) && oldblock == h.ptr
    requires newblock !in Blocks(inode.t) && |At(inode.t, p).idx| == At(inode.t, p).max
    modifies inode`root, inode`disk, inode`t
    ensures inode.Stored() && inode.t == Update(old(inode.t), p, LeftCut(At(old(inode.t), p), step.pos.i))
    ensures inode.disk == AfterLevel(old(inode.disk), old(inode.t), p, step.pos.i, h, border, newblock, inode.cap)
  {
    ghost var t, disk := inode.t, inode.disk;
    ghost var n := At(t, p);
    inode.NodeOnPath(p);
    AtRep(disk, t, p);
    var node := inode.NodeAt(step.loc);
    var pos := step.pos.i;
    var m := node.max - 1 - pos;
    BlocksAt(t, p);
    var moved := node.idx[pos + 1..pos + 1 + m];
    assert moved == node.idx[pos + 1..];
    inode.WriteFresh(newblock, IndexNode(inode.cap, node.depth, [Idx(border, oldblock)] + moved));
    LeftCutStored(disk, inode.disk, n, pos, newblock);
    BlockNotBelow(t, p);
    inode.WriteNode(step.loc, IndexNode(node.max, node.depth, node.idx[..pos + 1]), p, LeftCut(n, pos));
  }

  /** One round of the loop over the full index levels of ext4_ext_split. */
  method SplitLevel(inode: Inode, i: nat, border: nat, path: seq<Step>, oldblock: nat, newblock: nat,
                    ghost h: Half, ghost lvl: nat, ghost spare: multiset<nat>, ghost c: Plan)
    returns (ghost h': Half)
    requires inode.Stored() && PlanOk(c) && 0 < i < |c.q| && inode.cap == c.cap && lvl == i + 1
    requires MidSplit(inode.disk, inode.t, lvl, h, spare, c)
    requires oldblock == h.ptr && newblock in spare && border == c.border && path == c.path
    requires PathIn(c.t0, c.q[..i]) && Entries(Top(At(c.t0, c.q[..i]))) == Top(At(c.t0, c.q[..i])).max
    modifies inode`root, inode`disk, inode`t
    ensures inode.Stored() && h'.ptr == newblock
    ensures MidSplit(inode.disk, inode.t, i, h', spare - multiset{newblock}, c)
  {
    ghost var t, disk := inode.t, inode.disk;
    LevelReady(disk, t, i, h, newblock, spare, c);
    h' := HalfUp(At(t, c.q[..i]), c.q[i], h, border, newblock, inode.cap);
    LevelDone(disk, t, i, h, newblock, spare, c);
    WriteLevel(inode, path[i], border, oldblock, newblock, c.q[..i], h);
  }

  // ----- hanging the right half in ---------------------------------------------------

  ghost function WithKid(n: Tree, ix: nat, x: Idx, kid: Tree): Tree
    requires n.Index? && ix <= |n.idx| == |n.kids|
  {
    Index(n.max, n.depth, n.idx[..ix] + [x] + n.idx[ix..], n.kids[..ix] + [kid] + n.kids[ix..])
  }

  lemma WithKidContent(n: Tree, ix: nat, x: Idx, kid: Tree)
    requires n.Index? && ix <= |n.idx| == |n.kids|
    ensures Exts(WithKid(n, ix, x, kid)) == ExtsOf(n.kids[..ix]) + Exts(kid) + ExtsOf(n.kids[ix..])
    ensures Blocks(WithKid(n, ix, x, kid)) == Blocks(n) + Blocks(kid) + multiset{x.ptr}
  {
    var a, b := n.kids[..ix], n.kids[ix..];
    assert n.kids == a + b;
    ExtsAppend(a + [kid], b);
    ExtsAppend(a, [kid]);
    ExtsSingle(kid);
    BlocksAppend(a, b);
    BlocksAppend(a + [kid], b);
    BlocksAppend(a, [kid]);
    BlocksSingle(kid);
    var u, v := n.idx[..ix], n.idx[ix..];
    assert n.idx == u + v;
    PtrsAppend(u, v);
    PtrsAppend(u + [x], v);
    PtrsAppend(u, [x]);
    PtrsSingle(x);
  }

  lemma WithKidOk(n: Tree, ix: nat, x: Idx, kid: Tree, cap: nat)
    requires n.Index? && Shape(n) && 0 < ix <= |n.idx| && Tight(n) && NoEmpty(n) && Fits(n, cap)
    requires Shape(kid) && Depth(kid) == n.depth - 1 && Tight(kid) && NoEmpty(kid) && x.key == LKey(kid)
    requires Fits(kid, cap) && kid.max == cap && Entries(Top(kid)) <= cap
    ensures var u := WithKid(n, ix, x, kid);
      Shape(u) && Tight(u) && NoEmpty(u) && Fits(u, cap) && LKey(u) == LKey(n)
  {
    var u := WithKid(n, ix, x, kid);
    forall j | 0 <= j < |u.kids| ensures Depth(u.kids[j]) == u.depth - 1 && Shape(u.kids[j]) {
      assert u.kids[j] == if j < ix then n.kids[j] else if j == ix then kid else n.kids[j - 1];
    }
    forall j | 0 <= j < |u.kids|
      ensures TightEdge(u, j) && Tight(u.kids[j]) && NoEmpty(u.kids[j])
      ensures u.kids[j].max == cap && Entries(Top(u.kids[j])) <= cap && Fits(u.kids[j], cap)
    {
      if j < ix {
        assert u.kids[j] == n.kids[j] && u.idx[j] == n.idx[j] && TightEdge(n, j);
      } else if j == ix {
        assert u.kids[j] == kid && u.idx[j] == x;
      } else {
        assert u.kids[j] == n.kids[j - 1] && u.idx[j] == n.idx[j - 1] && TightEdge(n, j - 1);
      }
    }
  }

  lemma WithKidStored(disk: Disk, n: Tree, ix: nat, x: Idx, kid: Tree)
    requires n.Index? && Shape(n) && ix <= |n.idx| && Rep(disk, n)
    requires Shape(kid) && Depth(kid) == n.depth - 1 && Rep(disk, kid)
    requires x.ptr in disk && disk[x.ptr] == Top(kid)
    ensures var u := WithKid(n, ix, x, kid); Shape(u) && Rep(disk, u)
  {
    var u := WithKid(n, ix, x, kid);
    forall j | 0 <= j < |u.kids|
      ensures Depth(u.kids[j]) == u.depth - 1 && Shape(u.kids[j])
      ensures u.idx[j].ptr in disk && disk[u.idx[j].ptr] == Top(u.kids[j]) && Rep(disk, u.kids[j])
    {
      if j < ix {
        assert u.kids[j] == n.kids[j] && u.idx[j] == n.idx[j];
      } else if j > ix {
        assert u.kids[j] == n.kids[j - 1] && u.idx[j] == n.idx[j - 1];
      }
    }
  }

  /** Where ext4_ext_insert_index puts the new entry: before or after the current one. */
  function InsertSlot(key: nat, pos: nat, logical: nat): nat {
    if logical > key then pos + 1 else pos
  }

  /** Put one more entry into the index node at p. */
  method AddEntry(inode: Inode, loc: Loc, ix: nat, x: Idx, ghost p: Path, ghost kid: Tree)
    requires inode.Stored() && PathIn(inode.t, p) && At(inode.t, p).Index? && loc == LocAt(inode.t, p)
    requires Shape(At(inode.t, p)) && ix <= |At(inode.t, p).idx|
    requires Shape(kid) && Depth(kid) == At(inode.t, p).depth - 1 && Rep(inode.disk, kid)
    requires x.ptr in inode.disk && inode.disk[x.ptr] == Top(kid)
    requires NoDup(Blocks(inode.t) + Blocks(kid) + multiset{x.ptr})
    modifies inode`root, inode`disk, inode`t
    ensures inode.Stored() && inode.t == Update(old(inode.t), p, WithKid(At(old(inode.t), p), ix, x, kid))
  {
    ghost var t := inode.t;
    ghost var n := At(t, p);
    inode.NodeOnPath(p);
    AtRep(inode.disk, t, p);
    var node := inode.NodeAt(loc);
    WithKidStored(inode.disk, n, ix, x, kid);
    if p != [] {
      FreshBelow(t, p, kid, x.ptr);
      WithKidContent(n, ix, x, kid);
    }
    NoDupPart(Blocks(t), Blocks(t) + Blocks(kid) + multiset{x.ptr});
    inode.WriteNode(loc, IndexNode(node.max, node.depth, node.idx[..ix] + [x] + node.idx[ix..]), p, WithKid(n, ix, x,
      kid));
  }

  /** ext4_ext_insert_index */
  method InsertIndex(inode: Inode, step: Step, logical: nat, ptr: nat, ghost p: Path, ghost kid: Tree)
    returns (err: Status)
    requires inode.Stored() && PathIn(inode.t, p) && At(inode.t, p).Index? && step.loc == LocAt(inode.t, p)
    requires Shape(At(inode.t, p)) && step.pos.Slot? && 0 <= step.pos.i < |At(inode.t, p).idx|
    requires Shape(kid) && Depth(kid) == At(inode.t, p).depth - 1 && Rep(inode.disk, kid)
    requires ptr in inode.disk && inode.disk[ptr] == Top(kid)
    requires NoDup(Blocks(inode.t) + Blocks(kid) + multiset{ptr})
    modifies inode`root, inode`disk, inode`t
    ensures inode.Stored()
    ensures var n := At(old(inode.t), p);
      if logical == n.idx[step.pos.i].key || |n.idx| >= n.max then
        err == EIO && inode.t == old(inode.t)
      else
        err == Ok && inode.t ==
          Update(old(inode.t), p,
                 WithKid(n, InsertSlot(n.idx[step.pos.i].key, step.pos.i, logical), Idx(logical, ptr), kid))
  {
    inode.NodeOnPath(p);
    var node := inode.NodeAt(step.loc);
    var pos := step.pos.i;
    if logical == node.idx[pos].key || |node.idx| >= node.max {
      return EIO;
    }
    var ix := pos;
    if logical > node.idx[pos].key {
      ix := pos + 1;
    }
    AddEntry(inode, step.loc, ix, Idx(logical, ptr), p, kid);
    return Ok;
  }

  lemma FreshBelow(t: Tree, p: Path, kid: Tree, ptr: nat)
    requires Shape(t) && PathIn(t, p) && p != [] && NoDup(Blocks(t) + Blocks(kid) + multiset{ptr})
    ensures BlockAt(t, p) !in Blocks(At(t, p)) + Blocks(kid) + multiset{ptr}
  {
    var total := Blocks(t) + Blocks(kid) + multiset{ptr};
    NoDupPart(Blocks(t), total);
    BlockNotBelow(t, p);
    BlockAtIn(t, p);
    assert total[BlockAt(t, p)] <= 1;
  }

  lemma WithKidPath(n: Tree, c: nat, x: Idx, kid: Tree, p: Path)
    requires n.Index? && Shape(n) && p != [] && p[0] == c && PathIn(n, p)
    ensures var u := WithKid(n, c + 1, x, kid);
      PathIn(u, p) && At(u, p) == At(n, p) && LeftOf(u, p) == LeftOf(n, p)
  {
    var u := WithKid(n, c + 1, x, kid);
    assert u.kids[c] == n.kids[c] && u.kids[..c] == n.kids[..c];
  }

  /** The tree after hanging `kid` in right of the split path at level `at`. */
  ghost function Attached(t: Tree, at: nat, ptr: nat, kid: Tree, c: Plan): Tree
    requires at < |c.q| && PathIn(t, c.q[..at]) && At(t, c.q[..at]).Index?
    requires c.q[at] < |At(t, c.q[..at]).idx| == |At(t, c.q[..at]).kids|
  {
    Update(t, c.q[..at], WithKid(At(t, c.q[..at]), c.q[at] + 1, Idx(c.border, ptr), kid))
  }

  lemma AttachExts(t: Tree, at: nat, ptr: nat, kid: Tree, c: Plan)
    requires PathIn(t, c.q) && at < |c.q| && PathIn(t, c.q[..at]) && At(t, c.q[..at]).Index?
    requires c.q[at] < |At(t, c.q[..at]).idx| == |At(t, c.q[..at]).kids|
    requires PathIn(t, c.q[..at + 1]) && c.left == LeftOf(t, c.q[..at + 1]) + Exts(At(t, c.q[..at + 1]))
    ensures Exts(Attached(t, at, ptr, kid, c)) == c.left + Exts(kid) + RightOf(t, c.q[..at + 1])
    ensures Blocks(Attached(t, at, ptr, kid, c)) == Blocks(t) + Blocks(kid) + multiset{ptr}
  {
    var p, pos := c.q[..at], c.q[at];
    var n := At(t, p);
    var x := Idx(c.border, ptr);
    var u := WithKid(n, pos + 1, x, kid);
    WithKidContent(n, pos + 1, x, kid);
    UpdateExts(t, p, u);
    UpdateBlocks(t, p, u);
    SidesAt(t, c.q, at);
    PathAt(t, c.q, at);
    var a := n.kids[..pos];
    ExtsTaken(n.kids, pos);
    AttachOrder(LeftOf(t, p), ExtsOf(a), Exts(n.kids[pos]), Exts(kid), ExtsOf(n.kids[pos + 1..]), RightOf(t, p));
    AttachBlocks(Blocks(Attached(t, at, ptr, kid, c)), Blocks(n), Blocks(t), Blocks(kid), multiset{ptr});
  }

  lemma ExtsTaken(s: seq<Tree>, k: nat)
    requires k < |s|
    ensures ExtsOf(s[..k + 1]) == ExtsOf(s[..k]) + Exts(s[k])
  {
    assert s[..k + 1] == s[..k] + [s[k]];
    ExtsAppend(s[..k], [s[k]]);
    ExtsSingle(s[k]);
  }

  lemma AttachOrder(a: seq<Extent>, b: seq<Extent>, c: seq<Extent>, d: seq<Extent>, e: seq<Extent>, f: seq<Extent>)
    ensures a + ((b + c) + d + e) + f == ((a + b) + c) + d + (e + f)
  {
  }

  lemma AttachBlocks(u: multiset<nat>, n: multiset<nat>, t: multiset<nat>, kid: multiset<nat>, ptr: multiset<nat>)
    requires u + n == t + (n + kid + ptr)
    ensures u == t + kid + ptr
  {
    forall x: nat ensures u[x] == (t + kid + ptr)[x] {
      assert (u + n)[x] == (t + (n + kid + ptr))[x];
    }
  }

  lemma AttachOk(t: Tree, at: nat, h: Half, c: Plan)
    requires TreeOk(t, c.cap) && Depth(t) == |c.q| && at < |c.q| && PathIn(t, c.q)
    requires HalfOk(h, c.border, c.cap, |c.q| - at - 1)
    requires PathIn(t, c.q[..at]) && At(t, c.q[..at]).Index?
    requires c.q[at] < |At(t, c.q[..at]).idx| == |At(t, c.q[..at]).kids|
    requires |At(t, c.q[..at]).idx| < At(t, c.q[..at]).max
    ensures TreeOk(Attached(t, at, h.ptr, h.full, c), c.cap)
    ensures Depth(Attached(t, at, h.ptr, h.full, c)) == |c.q|
  {
    NodeOnWay(t, c.q, at, c.cap);
    AttachAt(t, c.q[..at], c.q[at] + 1, Idx(c.border, h.ptr), h.full, c.cap);
  }

  lemma AttachAt(t: Tree, p: Path, ix: nat, x: Idx, kid: Tree, cap: nat)
    requires TreeOk(t, cap) && PathIn(t, p) && At(t, p).Index? && (p != [] ==> At(t, p).max == cap)
    requires var n := At(t, p);
      Shape(n) && Tight(n) && NoEmpty(n) && Fits(n, cap) && 0 < ix <= |n.idx| == |n.kids| && |n.idx| < n.max
    requires Shape(kid) && Depth(kid) == At(t, p).depth - 1 && Tight(kid) && NoEmpty(kid) && x.key == LKey(kid)
    requires Fits(kid, cap) && kid.max == cap && Entries(Top(kid)) <= cap
    ensures TreeOk(Update(t, p, WithKid(At(t, p), ix, x, kid)), cap)
    ensures Depth(Update(t, p, WithKid(At(t, p), ix, x, kid))) == Depth(t)
  {
    WithKidOk(At(t, p), ix, x, kid, cap);
    ReplaceOk(t, p, WithKid(At(t, p), ix, x, kid), cap);
  }

  /** An index node may be replaced by one of the same first key with at least as many entries, if they fit. */
  lemma ReplaceOk(t: Tree, p: Path, u: Tree, cap: nat)
    requires TreeOk(t, cap) && PathIn(t, p) && At(t, p).Index? && u.Index? && u.max == At(t, p).max
    requires Shape(u) && Tight(u) && NoEmpty(u) && Fits(u, cap) && u.depth == At(t, p).depth
    requires !Empty(u) && !Empty(At(t, p)) && LKey(u) == LKey(At(t, p))
    requires |u.idx| <= u.max && (p != [] ==> u.max == cap)
    ensures TreeOk(Update(t, p, u), cap) && Depth(Update(t, p, u)) == Depth(t)
  {
    AtShape(t, p);
    UpdateTight(t, p, u);
    UpdateNoEmpty(t, p, u);
    UpdateFits(t, p, u, cap);
    UpdateShape(t, p, u);
  }

  /** The path to the new leaf, and what the tree on disk lacks there. */
  lemma AttachPath(t: Tree, at: nat, h: Half, c: Plan)
    requires PathIn(t, c.q) && at < |c.q| && PathIn(t, c.q[..at]) && At(t, c.q[..at]).Index? && Shape(t)
    requires c.q[at] < |At(t, c.q[..at]).idx| == |At(t, c.q[..at]).kids|
    requires PathIn(h.full, h.z)
    ensures var full, q2 := Attached(t, at, h.ptr, h.full, c), c.q[..at] + ([c.q[at] + 1] + h.z);
      && PathIn(full, q2) && At(full, q2) == At(h.full, h.z)
      && Update(full, q2, h.leaf) == Attached(t, at, h.ptr, OnDisk(h), c)
  {
    var p, pos := c.q[..at], c.q[at];
    var n := At(t, p);
    var u, u' := WithKid(n, pos + 1, Idx(c.border, h.ptr), h.full), WithKid(n, pos + 1, Idx(c.border, h.ptr),
      OnDisk(h));
    var w := [pos + 1] + h.z;
    assert w[0] == pos + 1 && w[1..] == h.z;
    assert u.kids[pos + 1] == h.full;
    assert u.kids[pos + 1 := OnDisk(h)] == u'.kids;
    UpdateAt(t, p, u);
    PathJoin(Update(t, p, u), p, w);
    UpdateJoin(Update(t, p, u), p, w, h.leaf);
    UpdateTwice(t, p, u, u');
  }

  lemma AttachLeft(t: Tree, at: nat, ptr: nat, kid: Tree, c: Plan)
    requires PathIn(t, c.q) && at < |c.q| && PathIn(t, c.q[..at]) && At(t, c.q[..at]).Index? && Shape(t)
    requires Shape(At(t, c.q[..at])) && c.q[at] < |At(t, c.q[..at]).idx| == |At(t, c.q[..at]).kids|
    ensures var t' := Attached(t, at, ptr, kid, c);
      PathIn(t', c.q) && At(t', c.q) == At(t, c.q) && LeftOf(t', c.q) == LeftOf(t, c.q)
  {
    var p, pos := c.q[..at], c.q[at];
    PathAt(t, c.q, at);
    var n := At(t, p);
    var u := WithKid(n, pos + 1, Idx(c.border, ptr), kid);
    WithKidPath(n, pos, Idx(c.border, ptr), kid, c.q[at..]);
    assert c.q == p + c.q[at..];
    UpdateAt(t, p, u);
    PathJoin(Update(t, p, u), p, c.q[at..]);
    UpdateSides(t, p, u);
    LeftJoin(Update(t, p, u), p, c.q[at..]);
    LeftJoin(t, p, c.q[at..]);
  }

  lemma BorderAbove(t: Tree, at: nat, c: Plan)
    requires PlanOk(c) && at < |c.q| && TreeOk(t, c.cap) && PathIn(t, c.q) && At(t, c.q) == c.leaf
    requires PathIn(t, c.q[..at + 1]) && c.left == LeftOf(t, c.q[..at + 1]) + Exts(At(t, c.q[..at + 1]))
    requires Sorted(c.left) && c.leaf.exts != [] && c.leaf.exts[|c.leaf.exts| - 1].block < c.border
    ensures PathIn(t, c.q[..at]) && At(t, c.q[..at]).Index? && c.q[at] < |At(t, c.q[..at]).idx|
    ensures At(t, c.q[..at]).idx[c.q[at]].key < c.border
  {
    NodeOnWay(t, c.q, at, c.cap);
    PathAt(t, c.q, at);
    var n, kid := At(t, c.q[..at]), At(t, c.q[..at + 1]);
    assert TightEdge(n, c.q[at]);
    LKeyFirst(kid);
    SortedParts(LeftOf(t, c.q[..at + 1]), Exts(kid));
    PathPrefix(t, c.q, at + 1);
    ExtsAt(kid, c.q[at + 1..]);
    var last := c.leaf.exts[|c.leaf.exts| - 1];
    assert last in At(kid, c.q[at + 1..]).exts;
    FirstLeast(Exts(kid), last);
  }

  lemma FirstLeast(s: seq<Extent>, e: Extent)
    requires Sorted(s) && e in s
    ensures s[0].block <= e.block
  {
    var k :| 0 <= k < |s| && s[k] == e;
    assert ExtentOk(s[0]);
  }

  ghost function Border(exts: seq<Extent>, lp: nat, newext: Extent): nat {
    if lp + 1 < |exts| then exts[lp + 1].block else newext.block
  }

  ghost function Fill(exts: seq<Extent>, lp: nat, newext: Extent): seq<Extent> {
    if lp + 1 < |exts| then exts[lp + 1..] else [newext]
  }

  ghost function PlanOf(t: Tree, q: Path, path: seq<Step>, lp: nat, newext: Extent, cap: nat,
                        extra: multiset<nat>): Plan
    requires PathIn(t, q) && At(t, q).Leaf? && lp < |At(t, q).exts|
  {
    var x := At(t, q).exts;
    Plan(t, q, path, Border(x, lp, newext), cap, Leaf(cap, x[..lp + 1]), Fill(x, lp, newext), x[lp + 1..],
         LeftOf(t, q) + x[..lp + 1], Exts(t), Blocks(t) + extra)
  }

  /** Fill the new leaf and shorten the old one. */
  method WriteLeaves(inode: Inode, step: Step, newblock: nat, ghost q: Path)
    requires inode.Stored() && NoDup(Blocks(inode.t)) && PathIn(inode.t, q) && q != [] && At(inode.t, q).Leaf?
    requires step.loc == InBlock(BlockAt(inode.t, q)) && Depth(inode.t) == |q|
    requires step.pos.Slot? && 0 <= step.pos.i < |At(inode.t, q).exts| == At(inode.t, q).max
    requires newblock !in Blocks(inode.t)
    modifies inode`root, inode`disk, inode`t
    ensures inode.Stored()
    ensures var x := At(old(inode.t), q);
      && inode.t == Update(old(inode.t), q, Leaf(x.max, x.exts[..step.pos.i + 1]))
      && newblock in inode.disk && inode.disk[newblock] == LeafNode(inode.cap, x.exts[step.pos.i + 1..])
  {
    ghost var t := inode.t;
    inode.NodeOnPath(q);
    var leaf := inode.NodeAt(step.loc);
    var lp := step.pos.i;
    var m := leaf.max - 1 - lp;
    var moved := leaf.exts[lp + 1..lp + 1 + m];
    assert moved == leaf.exts[lp + 1..];
    inode.WriteFresh(newblock, LeafNode(inode.cap, moved));
    BlockAtIn(t, q);
    if m > 0 {
      inode.WriteNode(step.loc, LeafNode(leaf.max, leaf.exts[..lp + 1]), q, Leaf(leaf.max, leaf.exts[..lp + 1]));
    } else {
      assert leaf.exts[..lp + 1] == leaf.exts;
      UpdateSelf(t, q);
    }
  }

  /** The leaf level: a fresh leaf takes everything right of slot lp. */
  method SplitLeaf(inode: Inode, path: seq<Step>, newblock: nat, ghost newext: Extent, ghost q: Path,
                   ghost extra: multiset<nat>)
    returns (ghost h: Half)
    requires inode.Stored() && TreeOk(inode.t, inode.cap) && q != [] && Walks(inode.t, q, path)
    requires Depth(inode.t) == |q| && At(inode.t, q).Leaf?
    requires |At(inode.t, q).exts| == At(inode.t, q).max
    requires path[|q|].pos.Slot? && 0 <= path[|q|].pos.i < |At(inode.t, q).exts|
    requires NoDup(Blocks(inode.t) + extra) && newblock in extra
    modifies inode`root, inode`disk, inode`t
    ensures inode.Stored() && h.ptr == newblock
    ensures var c := PlanOf(old(inode.t), q, path, path[|q|].pos.i, newext, inode.cap, extra);
      PlanOk(c) && MidSplit(inode.disk, inode.t, |q|, h, extra - multiset{newblock}, c)
  {
    ghost var t := inode.t;
    assert StepOk(t, q, path, |q|) && q[..|q|] == q;
    AtFits(t, q, inode.cap);
    LeafApart(Blocks(t), extra, newblock);
    NoDupPart(Blocks(t), Blocks(t) + extra);
    var depth := |path| - 1;
    WriteLeaves(inode, path[depth], newblock, q);
    ghost var x := At(t, q).exts;
    ghost var lp := path[|q|].pos.i;
    ghost var c := PlanOf(t, q, path, lp, newext, inode.cap, extra);
    h := Half(Leaf(inode.cap, Fill(x, lp, newext)), [], Leaf(inode.cap, x[lp + 1..]), newblock);
    LeafSplitDone(inode.disk, t, q, path, lp, newext, inode.cap, extra, newblock, h, c, inode.t);
  }

  lemma LeafApart(a: multiset<nat>, extra: multiset<nat>, x: nat)
    requires NoDup(a + extra) && x in extra
    ensures x !in a
  {
    assert (a + extra)[x] <= 1;
  }

  lemma LeafSplitDone(disk': Disk, t: Tree, q: Path, path: seq<Step>, lp: nat, newext: Extent, cap: nat,
                      extra: multiset<nat>, newblock: nat, h: Half, c: Plan, t': Tree)
    requires TreeOk(t, cap) && q != [] && Walks(t, q, path) && Depth(t) == |q| && At(t, q).Leaf?
    requires lp < |At(t, q).exts| && c == PlanOf(t, q, path, lp, newext, cap, extra)
    requires PlanOk(c) && newblock in extra && t' == Update(t, q, c.leaf)
    requires h == Half(Leaf(cap, Fill(At(t, q).exts, lp, newext)), [], Leaf(cap, At(t, q).exts[lp + 1..]), newblock)
    requires newblock in disk' && disk'[newblock] == Top(h.leaf)
    ensures MidSplit(disk', t', |q|, h, extra - multiset{newblock}, c)
  {
    var x := At(t, q).exts;
    AtFits(t, q, cap);
    AtTightNoEmpty(t, q);
    UpdateTight(t, q, c.leaf);
    UpdateNoEmpty(t, q, c.leaf);
    UpdateFits(t, q, c.leaf, cap);
    UpdateAt(t, q, c.leaf);
    assert q[..|q|] == q;
    SelfAbove(t, q, path);
    AboveUpdate(t, t, q, path, |q|, |q|, c.leaf);
    UpdateSides(t, q, c.leaf);
    ExtsAt(t, q);
    assert x == x[..lp + 1] + x[lp + 1..];
    UpdateBlocks(t, q, c.leaf);
    LeafOrder(LeftOf(t, q), x[..lp + 1], x[lp + 1..], RightOf(t, q));
  }

  lemma SelfAbove(t: Tree, q: Path, path: seq<Step>)
    requires Shape(t) && Walks(t, q, path)
    ensures Above(t, t, q, path, |q|)
  {
    forall k | 0 <= k <= |q| ensures AboveAt(t, t, q, path, k, |q|) {
      assert StepOk(t, q, path, k);
    }
  }

  lemma LeafOrder(a: seq<Extent>, b: seq<Extent>, c: seq<Extent>, d: seq<Extent>)
    ensures a + (b + c) + d == (a + b) + c + d
  {
  }

  // ----- ext4_ext_split -----------------------------------------------------------------

  lemma FullExts(t: Tree, at: nat, h: Half, c: Plan, right: seq<Extent>)
    requires PathIn(t, c.q) && at < |c.q| && PathIn(t, c.q[..at + 1]) && PathIn(h.full, h.z)
    requires LeftOf(h.full, h.z) == [] && At(h.full, h.z).Leaf? && h.leaf.Leaf?
    requires At(h.full, h.z).exts == c.fill && h.leaf.exts == c.rest
    requires c.all == c.left + Exts(OnDisk(h)) + RightOf(t, c.q[..at + 1])
    requires c.all == c.left + c.rest + right
    ensures c.left + Exts(h.full) + RightOf(t, c.q[..at + 1]) == c.left + c.fill + right
  {
    ExtsAt(h.full, h.z);
    UpdateExts(h.full, h.z, h.leaf);
    var r1, r2 := RightOf(h.full, h.z), RightOf(t, c.q[..at + 1]);
    Cancel(c.left + c.rest, r1 + r2, right, c.all, Exts(OnDisk(h)), c.left, c.rest, r1, r2);
    assert c.left + (c.fill + r1) + r2 == c.left + c.fill + (r1 + r2);
  }

  lemma Cancel(a: seq<Extent>, b: seq<Extent>, b': seq<Extent>, all: seq<Extent>, r: seq<Extent>,
               left: seq<Extent>, rest: seq<Extent>, r1: seq<Extent>, r2: seq<Extent>)
    requires a == left + rest && b == r1 + r2 && r == rest + r1
    requires all == left + r + r2 && all == a + b'
    ensures b == b'
  {
    assert all == a + b;
    assert b == all[|a|..] && b' == all[|a|..];
  }

  /** The state a successful split leaves behind; `x` is the leaf content before. */
  ghost predicate SplitDone(t0: Tree, t: Tree, q: Path, lp: nat, newext: Extent, cap: nat, full: Tree, q2: Path)
    requires PathIn(t0, q) && At(t0, q).Leaf? && lp < |At(t0, q).exts|
  {
    var x := At(t0, q).exts;
    && TreeOk(full, cap) && Depth(full) == Depth(t0)
    && PathIn(full, q2) && At(full, q2) == Leaf(cap, Fill(x, lp, newext))
    && t == Update(full, q2, Leaf(cap, x[lp + 1..]))
    && PathIn(t, q) && At(t, q) == Leaf(cap, x[..lp + 1])
    && Exts(t) == Exts(t0)
    && Exts(full) == LeftOf(t0, q) + x[..lp + 1] + Fill(x, lp, newext) + RightOf(t0, q)
  }

  lemma AttachShape(t: Tree, at: nat, h: Half, c: Plan)
    requires TreeOk(t, c.cap) && Depth(t) == |c.q| && at < |c.q| && PathIn(t, c.q)
    requires HalfOk(h, c.border, c.cap, |c.q| - at - 1)
    requires PathIn(t, c.q[..at]) && At(t, c.q[..at]).Index?
    requires c.q[at] < |At(t, c.q[..at]).idx| == |At(t, c.q[..at]).kids|
    requires |At(t, c.q[..at]).idx| < At(t, c.q[..at]).max
    ensures var full, q2 := Attached(t, at, h.ptr, h.full, c), c.q[..at] + ([c.q[at] + 1] + h.z);
      var t' := Attached(t, at, h.ptr, OnDisk(h), c);
      && TreeOk(full, c.cap) && Depth(full) == |c.q|
      && PathIn(full, q2) && At(full, q2) == At(h.full, h.z)
      && t' == Update(full, q2, h.leaf)
      && PathIn(t', c.q) && At(t', c.q) == At(t, c.q) && LeftOf(t', c.q) == LeftOf(t, c.q)
  {
    AttachOk(t, at, h, c);
    AttachPath(t, at, h, c);
    NodeOnWay(t, c.q, at, c.cap);
    AttachLeft(t, at, h.ptr, OnDisk(h), c);
  }

  lemma AttachContent(t: Tree, at: nat, h: Half, c: Plan, right: seq<Extent>)
    requires PathIn(t, c.q) && at < |c.q| && PathIn(t, c.q[..at]) && At(t, c.q[..at]).Index?
    requires c.q[at] < |At(t, c.q[..at]).idx| == |At(t, c.q[..at]).kids|
    requires PathIn(t, c.q[..at + 1]) && c.left == LeftOf(t, c.q[..at + 1]) + Exts(At(t, c.q[..at + 1]))
    requires PathIn(h.full, h.z) && LeftOf(h.full, h.z) == [] && At(h.full, h.z).Leaf? && h.leaf.Leaf?
    requires At(h.full, h.z).exts == c.fill && h.leaf.exts == c.rest
    requires c.all == c.left + Exts(OnDisk(h)) + RightOf(t, c.q[..at + 1])
    requires c.all == c.left + c.rest + right
    ensures Exts(Attached(t, at, h.ptr, OnDisk(h), c)) == c.all
    ensures Exts(Attached(t, at, h.ptr, h.full, c)) == c.left + c.fill + right
    ensures Blocks(Attached(t, at, h.ptr, OnDisk(h), c)) == Blocks(t) + Blocks(OnDisk(h)) + multiset{h.ptr}
  {
    AttachExts(t, at, h.ptr, h.full, c);
    AttachExts(t, at, h.ptr, OnDisk(h), c);
    FullExts(t, at, h, c, right);
  }

  lemma LeafParts(t: Tree, q: Path, k: nat)
    requires PathIn(t, q) && At(t, q).Leaf? && k <= |At(t, q).exts|
    ensures Exts(t) == LeftOf(t, q) + At(t, q).exts[..k] + At(t, q).exts[k..] + RightOf(t, q)
  {
    var x := At(t, q).exts;
    ExtsAt(t, q);
    assert x == x[..k] + x[k..];
    LeafOrder(LeftOf(t, q), x[..k], x[k..], RightOf(t, q));
  }

  /** What hanging in the right half of a fully split plan yields. */
  ghost predicate PlanDone(c: Plan, t: Tree, full: Tree, q2: Path, right: seq<Extent>) {
    && TreeOk(full, c.cap) && Depth(full) == |c.q|
    && PathIn(full, q2) && At(full, q2) == Leaf(c.cap, c.fill)
    && t == Update(full, q2, Leaf(c.cap, c.rest))
    && PathIn(t, c.q) && At(t, c.q) == c.leaf
    && Exts(t) == c.all && Exts(full) == c.left + c.fill + right && Blocks(t) == c.total
  }

  lemma AttachPlan(disk: Disk, t: Tree, at: nat, h: Half, c: Plan, right: seq<Extent>)
    requires PlanOk(c) && at < |c.q| && MidSplit(disk, t, at + 1, h, multiset{}, c)
    requires PathIn(t, c.q[..at]) && At(t, c.q[..at]).Index?
    requires c.q[at] < |At(t, c.q[..at]).idx| == |At(t, c.q[..at]).kids|
    requires |At(t, c.q[..at]).idx| < At(t, c.q[..at]).max
    requires c.all == c.left + c.rest + right
    ensures PlanDone(c, Attached(t, at, h.ptr, OnDisk(h), c), Attached(t, at, h.ptr, h.full, c),
                     c.q[..at] + ([c.q[at] + 1] + h.z), right)
  {
    AttachShape(t, at, h, c);
    AttachContent(t, at, h, c, right);
    assert Blocks(t) + Blocks(OnDisk(h)) + multiset{h.ptr} + multiset{} ==
      Blocks(t) + Blocks(OnDisk(h)) + multiset{h.ptr};
  }

  lemma PlanSplit(c: Plan, t0: Tree, q: Path, path: seq<Step>, lp: nat, newext: Extent, cap: nat,
                  extra: multiset<nat>)
    requires PathIn(t0, q) && At(t0, q).Leaf? && lp < |At(t0, q).exts|
    requires c == PlanOf(t0, q, path, lp, newext, cap, extra)
    ensures c.q == q && c.all == c.left + c.rest + RightOf(t0, q)
  {
    LeafParts(t0, q, lp + 1);
  }

  lemma PlanToSplit(c: Plan, t0: Tree, q: Path, path: seq<Step>, lp: nat, newext: Extent, cap: nat,
                    extra: multiset<nat>, t: Tree, full: Tree, q2: Path)
    requires PathIn(t0, q) && At(t0, q).Leaf? && lp < |At(t0, q).exts| && Depth(t0) == |q|
    requires c == PlanOf(t0, q, path, lp, newext, cap, extra) && PlanDone(c, t, full, q2, RightOf(t0, q))
    ensures SplitDone(t0, t, q, lp, newext, cap, full, q2) && Blocks(t) == Blocks(t0) + extra
  {
  }

  lemma AttachDone(disk: Disk, t: Tree, at: nat, h: Half, c: Plan, t0: Tree, q: Path, path: seq<Step>, lp: nat,
                   newext: Extent, cap: nat, extra: multiset<nat>, t1: Tree, full: Tree, q2: Path)
    requires PathIn(t0, q) && At(t0, q).Leaf? && lp < |At(t0, q).exts| && at < |q|
    requires c == PlanOf(t0, q, path, lp, newext, cap, extra) && PlanOk(c) && c.q == q
    requires MidSplit(disk, t, at + 1, h, multiset{}, c)
    requires PathIn(t, c.q[..at]) && At(t, c.q[..at]).Index?
    requires c.q[at] < |At(t, c.q[..at]).idx| == |At(t, c.q[..at]).kids|
    requires |At(t, c.q[..at]).idx| < At(t, c.q[..at]).max
    requires t1 == Attached(t, at, h.ptr, OnDisk(h), c) && full == Attached(t, at, h.ptr, h.full, c)
    requires q2 == c.q[..at] + ([c.q[at] + 1] + h.z)
    ensures SplitDone(t0, t1, q, lp, newext, cap, full, q2) && Blocks(t1) == Blocks(t0) + extra
  {
    PlanSplit(c, t0, q, path, lp, newext, cap, extra);
    AttachPlan(disk, t, at, h, c, RightOf(t0, q));
    PlanToSplit(c, t0, q, path, lp, newext, cap, extra, t1, full, q2);
  }

  ghost predicate FullAt(t: Tree, q: Path, k: nat)
    requires k <= |q|
  {
    PathIn(t, q[..k]) && Entries(Top(At(t, q[..k]))) == At(t, q[..k]).max
  }

  /** The blocks for the new nodes, `blocks` of which are granted; on failure everything is given back. */
  method AllocateBlocks(inode: Inode, n: nat, blocks: nat) returns (ok: bool, ablocks: seq<nat>)
    requires 0 !in inode.free
    modifies inode`free
    ensures 0 !in inode.free
    ensures ok <==> n <= Within(blocks, old(inode.free))
    ensures !ok ==> inode.free == old(inode.free)
    ensures ok ==> |ablocks| == n && multiset(inode.free) + multiset(ablocks) == multiset(old(inode.free))
  {
    ablocks := [];
    ghost var m0: multiset<nat> := multiset(inode.free);
    while |ablocks| < n
      invariant |ablocks| <= n && 0 !in inode.free && |ablocks| <= blocks
      invariant |inode.free| + |ablocks| == |old(inode.free)|
      invariant multiset(inode.free) + multiset(ablocks) == m0
    {
      var b := inode.NewMetaBlock(|ablocks| < blocks);
      if b == 0 {
        GiveBack(inode, ablocks);
        ghost var m: multiset<nat> := multiset(inode.free);
        assert forall x: nat :: x in inode.free <==> x in m;
        return false, [];
      }
      assert multiset(ablocks + [b]) == multiset(ablocks) + multiset{b};
      ablocks := ablocks + [b];
    }
    ok := true;
  }

  /** The error path: free all blocks allocated so far. */
  method GiveBack(inode: Inode, ablocks: seq<nat>)
    requires NoDup(multiset(inode.free) + multiset(ablocks))
    modifies inode`free
    ensures multiset(inode.free) == multiset(old(inode.free)) + multiset(ablocks)
  {
    ghost var m0: multiset<nat> := multiset(inode.free);
    var i := 0;
    while i < |ablocks|
      invariant 0 <= i <= |ablocks|
      invariant multiset(inode.free) == m0 + multiset(ablocks[..i])
    {
      assert ablocks[..i + 1] == ablocks[..i] + [ablocks[i]];
      assert ablocks == ablocks[..i + 1] + ablocks[i + 1..];
      ghost var b, total := ablocks[i], m0 + multiset(ablocks);
      ghost var m: multiset<nat> := multiset(inode.free);
      assert m + multiset{b} + multiset(ablocks[i + 1..]) == total;
      assert total[b] <= 1;
      assert Run(b, 0) == multiset{} && Run(b, 1) == multiset{b};
      assert b !in m;
      inode.FreeBlocks(ablocks[i], 1);
      i := i + 1;
    }
    assert ablocks[..|ablocks|] == ablocks;
  }

  /** Everything ext4_ext_split finds in place when ext4_ext_create_new_leaf calls it. */
  ghost predicate SplitReady(t: Tree, cap: nat, q: Path, path: seq<Step>, newext: Extent, at: nat)
  {
    && WellFormed(t, cap) && t.Index? && Walks(t, q, path) && At(t, q).Leaf? && at < |q|
    && FullAt(t, q, |q|) && (forall k :: at < k < |q| ==> FullAt(t, q, k))
    && PathIn(t, q[..at]) && Entries(Top(At(t, q[..at]))) < At(t, q[..at]).max
    && path[|q|].pos.Slot? && 0 <= path[|q|].pos.i < |At(t, q).exts|
    && (path[|q|].pos.i + 1 == |At(t, q).exts| ==> At(t, q).exts[path[|q|].pos.i].block < newext.block)
  }

  /** The loop stands at level i, below which the levels from lvl on are split; a blocks are still to be used. */
  ghost predicate AtLevel(inode: Inode, ablocks: seq<nat>, at: nat, i: nat, a: nat, newblock: nat, h: Half, lvl: nat,
                          spare: multiset<nat>, c: Plan)
    reads inode
  {
    && at <= i < |c.q| && lvl == i + 1 && a == i - at <= |ablocks| && newblock == h.ptr
    && spare == multiset(ablocks[..a])
    && PlanOk(c) && inode.Stored() && MidSplit(inode.disk, inode.t, lvl, h, spare, c)
  }

  /** One full index level. */
  method NextLevel(inode: Inode, path: seq<Step>, border: nat, ablocks: seq<nat>, ghost at: nat, i: nat, a: nat,
                   prev: nat, ghost h: Half, ghost lvl: nat, ghost spare: multiset<nat>, ghost c: Plan)
    returns (i': nat, a': nat, newblock: nat, ghost h': Half, ghost spare': multiset<nat>)
    requires AtLevel(inode, ablocks, at, i, a, prev, h, lvl, spare, c) && i > at && FullAt(c.t0, c.q, i)
    requires path == c.path && border == c.border && inode.cap == c.cap
    modifies inode`root, inode`disk, inode`t
    ensures i' == i - 1 && AtLevel(inode, ablocks, at, i', a', newblock, h', i, spare', c)
  {
    i', a' := i - 1, a - 1;
    SpareNext(ablocks, a, a', spare);
    newblock, spare' := ablocks[a'], spare - multiset{ablocks[a']};
    h' := SplitLevel(inode, i, border, path, prev, newblock, h, lvl, spare, c);
  }

  /** The loop over the full index levels between the leaf and level `at`, bottom up. */
  method SplitLevels(inode: Inode, path: seq<Step>, border: nat, ablocks: seq<nat>, at: nat, first: nat,
                     ghost h0: Half, ghost c: Plan)
    returns (newblock: nat, ghost h: Half)
    requires inode.Stored() && PlanOk(c) && at < |c.q| && path == c.path && border == c.border && inode.cap == c.cap
    requires |ablocks| == |c.q| - at && first == h0.ptr
    requires MidSplit(inode.disk, inode.t, |c.q|, h0, multiset(ablocks[..|ablocks| - 1]), c)
    requires forall k :: at < k < |c.q| ==> FullAt(c.t0, c.q, k)
    modifies inode`root, inode`disk, inode`t
    ensures inode.Stored() && newblock == h.ptr && MidSplit(inode.disk, inode.t, at + 1, h, multiset{}, c)
  {
    var i: nat, a: nat := |path| - 2, |ablocks| - 1;
    newblock, h := first, h0;
    ghost var lvl: nat, spare := |c.q|, multiset(ablocks[..a]);
    while i > at
      invariant AtLevel(inode, ablocks, at, i, a, newblock, h, lvl, spare, c)
    {
      ghost var up: nat := i;
      i, a, newblock, h, spare := NextLevel(inode, path, border, ablocks, at, i, a, newblock, h, lvl, spare, c);
      lvl := up;
    }
    EndLevel(inode, ablocks, at, i, a, newblock, h, lvl, spare, c);
  }

  lemma EndLevel(inode: Inode, ablocks: seq<nat>, at: nat, i: nat, a: nat, newblock: nat, h: Half, lvl: nat,
                 spare: multiset<nat>, c: Plan)
    requires AtLevel(inode, ablocks, at, i, a, newblock, h, lvl, spare, c) && i == at
    ensures inode.Stored() && newblock == h.ptr && MidSplit(inode.disk, inode.t, at + 1, h, multiset{}, c)
  {
    assert spare == multiset{} && lvl == at + 1;
  }

  lemma SpareNext(s: seq<nat>, a: nat, k: nat, spare: multiset<nat>)
    requires a == k + 1 <= |s| && spare == multiset(s[..a])
    ensures s[k] in spare && spare - multiset{s[k]} == multiset(s[..k])
  {
    SpareStep(s, k);
  }

  lemma SpareStep(s: seq<nat>, a: nat)
    requires a < |s|
    ensures s[a] in multiset(s[..a + 1]) && multiset(s[..a + 1]) - multiset{s[a]} == multiset(s[..a])
  {
    assert s[..a + 1] == s[..a] + [s[a]];
  }

  /** Split the leaf and all full index levels above it. */
  method SplitNodes(inode: Inode, path: seq<Step>, newext: Extent, border: nat, ablocks: seq<nat>, at: nat,
                    ghost q: Path)
    returns (newblock: nat, ghost h: Half, ghost c: Plan)
    requires inode.Stored() && SplitReady(inode.t, inode.cap, q, path, newext, at)
    requires |ablocks| == |q| - at && NoDup(Blocks(inode.t) + multiset(ablocks))
    requires border == Border(At(inode.t, q).exts, path[|q|].pos.i, newext)
    modifies inode`root, inode`disk, inode`t
    ensures inode.Stored() && newblock == h.ptr
    ensures c == PlanOf(old(inode.t), q, path, path[|q|].pos.i, newext, inode.cap, multiset(ablocks))
    ensures PlanOk(c) && MidSplit(inode.disk, inode.t, at + 1, h, multiset{}, c)
  {
    var first;
    first, h, c := StartSplit(inode, path, newext, ablocks, q);
    newblock, h := SplitLevels(inode, path, border, ablocks, at, first, h, c);
  }

  /** The leaf is split; the full levels above it are still as they were. */
  method StartSplit(inode: Inode, path: seq<Step>, newext: Extent, ablocks: seq<nat>, ghost q: Path)
    returns (newblock: nat, ghost h: Half, ghost c: Plan)
    requires inode.Stored() && WellFormed(inode.t, inode.cap) && inode.t.Index? && Walks(inode.t, q, path)
    requires FullAt(inode.t, q, |q|)
    requires At(inode.t, q).Leaf? && path[|q|].pos.Slot? && 0 <= path[|q|].pos.i < |At(inode.t, q).exts|
    requires path[|q|].pos.i + 1 == |At(inode.t, q).exts| ==> At(inode.t, q).exts[path[|q|].pos.i].block < newext.block
    requires ablocks != [] && NoDup(Blocks(inode.t) + multiset(ablocks))
    modifies inode`root, inode`disk, inode`t
    ensures inode.Stored() && newblock == h.ptr
    ensures c == PlanOf(old(inode.t), q, path, path[|q|].pos.i, newext, inode.cap, multiset(ablocks))
    ensures c.t0 == old(inode.t) && c.q == q && c.path == path && c.cap == inode.cap
    ensures c.border == Border(old(At(inode.t, q).exts), path[|q|].pos.i, newext)
    ensures PlanOk(c) && MidSplit(inode.disk, inode.t, |c.q|, h, multiset(ablocks[..|ablocks| - 1]), c)
  {
    AtShape(inode.t, q);
    c := PlanOf(inode.t, q, path, path[|q|].pos.i, newext, inode.cap, multiset(ablocks));
    var a := |ablocks| - 1;
    SpareStep(ablocks, a);
    assert ablocks[..a + 1] == ablocks;
    assert q[..|q|] == q;
    newblock := ablocks[a];
    h := SplitLeaf(inode, path, newblock, newext, q, multiset(ablocks));
  }

  lemma HangReady(disk: Disk, t: Tree, at: nat, h: Half, c: Plan)
    requires PlanOk(c) && at < |c.q| && MidSplit(disk, t, at + 1, h, multiset{}, c) && Rep(disk, t)
    requires FitsOneMore(c.t0, c.q, at)
    requires Sorted(c.left) && c.leaf.exts != [] && c.leaf.exts[|c.leaf.exts| - 1].block < c.border
    ensures PathIn(t, c.q[..at]) && At(t, c.q[..at]).Index? && Shape(At(t, c.q[..at]))
    ensures c.q[at] < |At(t, c.q[..at]).idx| == |At(t, c.q[..at]).kids|
    ensures |At(t, c.q[..at]).idx| < At(t, c.q[..at]).max && At(t, c.q[..at]).idx[c.q[at]].key < c.border
    ensures c.path[at].loc == LocAt(t, c.q[..at]) && c.path[at].pos == Slot(c.q[at])
    ensures Shape(OnDisk(h)) && Depth(OnDisk(h)) == At(t, c.q[..at]).depth - 1
    ensures NoDup(Blocks(t) + Blocks(OnDisk(h)) + multiset{h.ptr})
  {
    NodeOnWay(t, c.q, at, c.cap);
    assert AboveAt(c.t0, t, c.q, c.path, at, at + 1);
    BorderAbove(t, at, c);
    HalfDepth(h, c, at);
    assert Blocks(t) + Blocks(OnDisk(h)) + multiset{h.ptr} + multiset{} ==
      Blocks(t) + Blocks(OnDisk(h)) + multiset{h.ptr};
  }

  ghost predicate FitsOneMore(t: Tree, q: Path, k: nat)
    requires k <= |q|
  {
    PathIn(t, q[..k]) && Entries(Top(At(t, q[..k]))) < At(t, q[..k]).max
  }

  /** The last step: one new entry in the node that has room for it. */
  method HangIn(inode: Inode, step: Step, border: nat, newblock: nat, at: nat, ghost h: Half, ghost c: Plan)
    returns (err: Status)
    requires inode.Stored() && PlanOk(c) && at < |c.q|
    requires MidSplit(inode.disk, inode.t, at + 1, h, multiset{}, c)
    requires FitsOneMore(c.t0, c.q, at) && border == c.border && newblock == h.ptr && step == c.path[at]
    requires Sorted(c.left) && c.leaf.exts != [] && c.leaf.exts[|c.leaf.exts| - 1].block < c.border
    modifies inode`root, inode`disk, inode`t
    ensures err == Ok && inode.Stored()
    ensures PathIn(old(inode.t), c.q[..at]) && At(old(inode.t), c.q[..at]).Index?
    ensures c.q[at] < |At(old(inode.t), c.q[..at]).idx| == |At(old(inode.t), c.q[..at]).kids|
    ensures |At(old(inode.t), c.q[..at]).idx| < At(old(inode.t), c.q[..at]).max
    ensures PathIn(h.full, h.z) && inode.t == Attached(old(inode.t), at, h.ptr, OnDisk(h), c)
  {
    HangReady(inode.disk, inode.t, at, h, c);
    err := InsertIndex(inode, step, border, newblock, c.q[..at], OnDisk(h));
  }

  lemma HalfDepth(h: Half, c: Plan, at: nat)
    requires at < |c.q| && HalfOk(h, c.border, c.cap, |c.q| - at - 1)
    ensures Shape(OnDisk(h)) && Depth(OnDisk(h)) == |c.q| - at - 1
  {
    AtShape(h.full, h.z);
    UpdateShape(h.full, h.z, h.leaf);
  }

  /** All the writes of a split, with its result. */
  method SplitWith(inode: Inode, path: seq<Step>, newext: Extent, border: nat, ablocks: seq<nat>, at: nat,
                   ghost q: Path)
    returns (err: Status, ghost full: Tree, ghost q2: Path)
    requires inode.Stored() && SplitReady(inode.t, inode.cap, q, path, newext, at)
    requires |ablocks| == |q| - at && NoDup(Blocks(inode.t) + multiset(ablocks))
    requires border == Border(At(inode.t, q).exts, path[|q|].pos.i, newext)
    modifies inode`root, inode`disk, inode`t
    ensures err == Ok && inode.Stored()
    ensures SplitDone(old(inode.t), inode.t, q, path[|q|].pos.i, newext, inode.cap, full, q2)
    ensures Blocks(inode.t) == Blocks(old(inode.t)) + multiset(ablocks)
  {
    ghost var t0, lp := inode.t, path[|q|].pos.i;
    var newblock;
    ghost var h, c;
    newblock, h, c := SplitNodes(inode, path, newext, border, ablocks, at, q);
    PlanSorted(c, t0, q, path, lp, newext, inode.cap, multiset(ablocks));
    ghost var t, disk := inode.t, inode.disk;
    err := HangIn(inode, path[at], border, newblock, at, h, c);
    full, q2 := Attached(t, at, h.ptr, h.full, c), c.q[..at] + ([c.q[at] + 1] + h.z);
    AttachDone(disk, t, at, h, c, t0, q, path, lp, newext, inode.cap, multiset(ablocks), inode.t, full, q2);
  }

  /** ext4_ext_split: one new block for every level below `at`. */
  method Split(inode: Inode, path: seq<Step>, newext: Extent, at: nat, blocks: nat, ghost q: Path)
    returns (err: Status, ghost full: Tree, ghost q2: Path)
    requires inode.Valid() && SplitReady(inode.t, inode.cap, q, path, newext, at)
    modifies inode`root, inode`disk, inode`free, inode`t
    ensures err == Ok || err == ENOSPC
    ensures err == Ok <==> |q| - at <= Within(blocks, old(inode.free))
    ensures err == ENOSPC ==> inode.Valid() && inode.t == old(inode.t) && inode.Universe() == old(inode.Universe())
    ensures err == Ok ==>
      && inode.Stored() && inode.Universe() == old(inode.Universe())
      && SplitDone(old(inode.t), inode.t, q, path[|q|].pos.i, newext, inode.cap, full, q2)
  {
    ghost var t0 := inode.t;
    full, q2 := t0, q;
    AtShape(t0, q);
    var depth := NodeDepth(inode.root);
    assert StepOk(t0, q, path, depth) && q[..depth] == q && FullAt(t0, q, depth);
    inode.NodeOnPath(q);
    var leaf := inode.NodeAt(path[depth].loc);
    var lp := path[depth].pos.i;
    var border := newext.block;
    if lp + 1 != leaf.max {
      border := leaf.exts[lp + 1].block;
    }
    ghost var free0: multiset<nat> := multiset(inode.free);
    assert forall x :: x in inode.free ==> x in inode.Universe();
    var ok, ablocks := AllocateBlocks(inode, depth - at, blocks);
    if !ok {
      return ENOSPC, full, q2;
    }
    SplitSpace(Blocks(t0), Data(Exts(t0)), multiset(inode.free), multiset(ablocks), free0);
    err, full, q2 := SplitWith(inode, path, newext, border, ablocks, at, q);
  }

  lemma SplitSpace(b: multiset<nat>, d: multiset<nat>, free: multiset<nat>, extra: multiset<nat>, free0: multiset<nat>)
    requires free + extra == free0 && NoDup(b + d + free0)
    ensures NoDup(b + extra) && (b + extra) + d + free == b + d + free0
  {
    assert b + d + free0 == (b + extra) + d + free;
    NoDupPart(b + extra, b + d + free0);
  }

  lemma PlanSorted(c: Plan, t: Tree, q: Path, path: seq<Step>, lp: nat, newext: Extent, cap: nat, extra: multiset<nat>)
    requires PathIn(t, q) && At(t, q).Leaf? && lp < |At(t, q).exts| && Sorted(Exts(t))
    requires c == PlanOf(t, q, path, lp, newext, cap, extra)
    requires lp + 1 < |At(t, q).exts| || At(t, q).exts[lp].block < newext.block
    ensures c.t0 == t && c.q == q && c.path == path && c.border == Border(At(t, q).exts, lp, newext)
    ensures Sorted(c.left) && c.leaf.exts != [] && c.leaf.exts[|c.leaf.exts| - 1].block < c.border
  {
    SplitSorted(t, q, lp);
  }

  lemma SplitSorted(t: Tree, q: Path, lp: nat)
    requires PathIn(t, q) && At(t, q).Leaf? && lp < |At(t, q).exts| && Sorted(Exts(t))
    ensures Sorted(LeftOf(t, q) + At(t, q).exts[..lp + 1])
    ensures lp + 1 < |At(t, q).exts| ==> At(t, q).exts[lp].block < At(t, q).exts[lp + 1].block
  {
    LeafParts(t, q, lp + 1);
    var x := At(t, q).exts;
    var a := LeftOf(t, q) + x[..lp + 1];
    SortedParts(a + x[lp + 1..], RightOf(t, q));
    SortedParts(a, x[lp + 1..]);
    if lp + 1 < |x| {
      SortedPair(a, x[lp + 1..], x[..lp + 1][lp], x[lp + 1..][0]);
    }
  }
}
