/**
 Making room: ext4_ext_grow_indepth and ext4_ext_create_new_leaf.
 */
module ExtentGrow {
  import opened Extents
  import opened ExtentTrees
  import opened ExtentSearch
  import opened Inodes
  import opened IndexKeys
  import opened TreeUpdates
  import opened ExtentSplit

  /** The two extents have no logical block in common. */
  ghost predicate Clear(a: Extent, e: Extent) {
    End(a) <= e.block || End(e) <= a.block
  }

  /** The new extent is legal and overlaps none of the run. */
  ghost predicate Insertable(s: seq<Extent>, e: Extent) {
    ExtentOk(e) && forall i :: 0 <= i < |s| ==> Clear(s[i], e)
  }

  /** ... which says that none of its blocks is mapped yet. */
  lemma InsertableIff(s: seq<Extent>, e: Extent)
    requires Sorted(s) && ExtentOk(e)
    ensures Insertable(s, e) <==> MapOf(e).Keys !! LMap(s).Keys
  {
    if MapOf(e).Keys !! LMap(s).Keys {
      forall i | 0 <= i < |s| ensures Clear(s[i], e) {
        assert ExtentOk(s[i]);
        if !Clear(s[i], e) {
          var b := if s[i].block < e.block then e.block else s[i].block;
          assert b in MapOf(e).Keys;
          LMapAt(s, i, b);
        }
      }
    }
    if Insertable(s, e) {
      forall b | b in MapOf(e) ensures b !in LMap(s) {
        LMapDomain(s, b);
        forall i | 0 <= i < |s| ensures !Covers(s[i], b) {
          assert Clear(s[i], e);
        }
      }
    }
  }

  lemma Apart(s: seq<Extent>, e: Extent, i: nat)
    requires Sorted(s) && Insertable(s, e) && i < |s|
    ensures End(s[i]) <= e.block || End(e) <= s[i].block
    ensures s[i].block != e.block
  {
    assert ExtentOk(s[i]) && Clear(s[i], e);
  }

  /** An extent put between its neighbours keeps the run sorted. */
  lemma PlaceSorted(l: seq<Extent>, e: Extent, r: seq<Extent>)
    requires Sorted(l + r) && Insertable(l + r, e)
    requires l != [] ==> l[|l| - 1].block <= e.block
    requires r != [] ==> e.block <= r[0].block
    ensures Sorted(l + [e] + r)
  {
    SortedParts(l, r);
    if l != [] {
      Apart(l + r, e, |l| - 1);
      assert (l + r)[|l| - 1] == l[|l| - 1] && ExtentOk(e);
    }
    SortedJoin(l, [e]);
    if r != [] {
      Apart(l + r, e, |l|);
      assert (l + r)[|l|] == r[0] && ExtentOk(r[0]);
    }
    assert (l + [e])[|l + [e]| - 1] == e;
    SortedJoin(l + [e], r);
  }

  // ----- growing ---------------------------------------------------------------------

  ghost function Grown(t: Tree, b: nat, cap: nat): Tree
    requires !Empty(t)
  {
    Index(ROOT_CAP, Depth(t) + 1, [Idx(LKey(t), b)], [t.(max := cap)])
  }

  lemma GrownOk(t: Tree, b: nat, cap: nat)
    requires WellFormed(t, cap) && !Empty(t) && cap > ROOT_CAP
    ensures WellFormed(Grown(t, b, cap), cap)
    ensures Exts(Grown(t, b, cap)) == Exts(t)
    ensures Blocks(Grown(t, b, cap)) == Blocks(t) + multiset{b}
  {
    var k := t.(max := cap);
    var u := Grown(t, b, cap);
    ExtsSingle(k);
    BlocksSingle(k);
    PtrsSingle(Idx(LKey(t), b));
    assert Exts(k) == Exts(t) && Blocks(k) == Blocks(t);
    assert NoEmpty(k);
    if t.Index? {
      forall i | 0 <= i < |k.kids| ensures TightEdge(k, i) {
        assert TightEdge(t, i);
      }
    }
    assert TightEdge(u, 0);
  }

  lemma GrownStored(disk: Disk, t: Tree, b: nat, cap: nat)
    requires Shape(t) && Rep(disk, t) && !Empty(t) && b !in Blocks(t)
    ensures var u := Grown(t, b, cap); Shape(u) && Rep(disk[b := Top(t.(max := cap))], u)
  {
    var k := t.(max := cap);
    assert Shape(k) && Rep(disk, k) && Blocks(k) == Blocks(t);
    var disk' := disk[b := Top(k)];
    forall x | x in Blocks(k) ensures x in disk {
      RepBlocks(disk, k, x);
    }
    RepFrame(disk, disk', k);
  }

  /** ext4_ext_grow_indepth: takes one block. */
  method GrowInDepth(inode: Inode, blocks: nat) returns (err: Status)
    requires inode.Valid() && Entries(inode.root) > 0
    modifies inode`root, inode`disk, inode`free, inode`t
    ensures inode.Valid() && Exts(inode.t) == Exts(old(inode.t)) && inode.Universe() == old(inode.Universe())
    ensures err == Ok || err == ENOSPC
    ensures err == Ok <==> 1 <= Within(blocks, old(inode.free))
    ensures err == Ok ==> |inode.free| == |old(inode.free)| - 1
    ensures err == ENOSPC ==> inode.t == old(inode.t)
    ensures err == Ok ==> exists b :: inode.t == Grown(old(inode.t), b, inode.cap)
  {
    ghost var t, free0 := inode.t, inode.free;
    assert forall x :: x in inode.free ==> x in inode.Universe();
    var newblock := inode.NewMetaBlock(blocks > 0);
    if newblock == 0 {
      return ENOSPC;
    }
    FreshBlock(Blocks(t), Data(Exts(t)), free0, newblock);
    StoreGrown(inode, newblock);
    err := Ok;
  }

  /** Copy the root into the new block and head it by a one-entry root. */
  method StoreGrown(inode: Inode, newblock: nat)
    requires inode.Stored() && WellFormed(inode.t, inode.cap) && inode.cap > ROOT_CAP
    requires Entries(inode.root) > 0 && newblock !in Blocks(inode.t)
    modifies inode`root, inode`disk, inode`t
    ensures inode.Stored() && WellFormed(inode.t, inode.cap) && Exts(inode.t) == Exts(old(inode.t))
    ensures Blocks(inode.t) == Blocks(old(inode.t)) + multiset{newblock}
    ensures !Empty(old(inode.t)) && inode.t == Grown(old(inode.t), newblock, inode.cap)
  {
    var top := if inode.root.LeafNode? then inode.root.exts[0].block else inode.root.idx[0].key;
    var moved := inode.root.(max := inode.cap);
    GrownOk(inode.t, newblock, inode.cap);
    GrownStored(inode.disk, inode.t, newblock, inode.cap);
    inode.disk := inode.disk[newblock := moved];
    inode.root := IndexNode(ROOT_CAP, NodeDepth(inode.root) + 1, [Idx(top, newblock)]);
    inode.t := Grown(inode.t, newblock, inode.cap);
  }

  lemma FreshBlock(b: multiset<nat>, d: multiset<nat>, free: set<nat>, x: nat)
    requires NoDup(b + d + multiset(free)) && x in free
    ensures x !in b
    ensures b + d + multiset(free) == (b + multiset{x}) + d + multiset(free - {x})
  {
    assert (b + d + multiset(free))[x] <= 1;
    ghost var m: multiset<nat> := multiset(free - {x});
    assert multiset(free) == m + multiset{x};
    assert b + d + (m + multiset{x}) == (b + multiset{x}) + d + m;
  }

  // ----- after a split -------------------------------------------------------------------

  /** The leaf the search for e finds has a free slot, and filling it yields a good tree. */
  ghost predicate Ready(t: Tree, e: Extent, cap: nat)
    requires Shape(t) && Searchable(t)
  {
    FindPathIn(t, e.block);
    var q := FindPath(t, e.block);
    && |At(t, q).exts| < At(t, q).max
    && (WellFormed(t, cap) || (q != [] && At(t, q) == Leaf(cap, []) && WellFormed(Update(t, q, Leaf(cap, [e])), cap)))
  }

  lemma FoundOwner(t: Tree, b: nat, e: Extent, n: nat)
    requires Shape(t) && Tight(t) && NoEmpty(t) && Sorted(Exts(t)) && Searchable(t)
    requires n == Scan(Starts(Exts(t)), b) && n < |Exts(t)| && Exts(t)[n] == e
    ensures PathIn(t, FindPath(t, b)) && At(t, FindPath(t, b)).Leaf? && e in At(t, FindPath(t, b)).exts
  {
    FindFlat(t, b);
    var q := FindPath(t, b);
    var x := At(t, q).exts;
    KidsOfSorted(t, q);
    SortedIncreasing(x);
    ScanPicks(Starts(x), b);
    InLeaf(t, q, Scan(Starts(x), b));
  }

  lemma InLeaf(t: Tree, q: Path, k: nat)
    requires PathIn(t, q) && At(t, q).Leaf? && k < |At(t, q).exts|
    ensures |LeftOf(t, q)| + k < |Exts(t)| && Exts(t)[|LeftOf(t, q)| + k] == At(t, q).exts[k]
  {
    ExtsAt(t, q);
  }

  lemma KidsOfSorted(t: Tree, q: Path)
    requires PathIn(t, q) && Sorted(Exts(t))
    ensures Sorted(Exts(At(t, q)))
  {
    ExtsAt(t, q);
    SortedParts(LeftOf(t, q) + Exts(At(t, q)), RightOf(t, q));
    SortedParts(LeftOf(t, q), Exts(At(t, q)));
  }

  /** The search in the same run ends where the extent found before now lies. */
  lemma FoundAgain(t0: Tree, t: Tree, q: Path, lp: nat, b: nat)
    requires Shape(t0) && t0.Index? && Tight(t0) && NoEmpty(t0) && Sorted(Exts(t0)) && Searchable(t0)
    requires q == FindPath(t0, b) && PathIn(t0, q) && At(t0, q).Leaf? && lp < |At(t0, q).exts|
    requires lp == Scan(Starts(At(t0, q).exts), b)
    requires Shape(t) && Tight(t) && NoEmpty(t) && Searchable(t) && Exts(t) == Exts(t0)
    requires PathIn(t, q) && At(t, q).Leaf? && At(t0, q).exts[lp] in At(t, q).exts
    ensures FindPath(t, b) == q
  {
    var e := At(t0, q).exts[lp];
    FindFlat(t0, b);
    InLeaf(t0, q, lp);
    FoundOwner(t, b, e, |LeftOf(t0, q)| + lp);
    OwnerUnique(t, FindPath(t, b), q, e);
  }

  /** The search after a split that moved extents lands in the shortened old leaf. */
  lemma SplitLeft(t0: Tree, t: Tree, q: Path, lp: nat, e: Extent, cap: nat, full: Tree, q2: Path)
    requires WellFormed(t0, cap) && t0.Index? && Searchable(t0) && q == FindPath(t0, e.block)
    requires PathIn(t0, q) && At(t0, q).Leaf? && lp + 1 < |At(t0, q).exts| && |At(t0, q).exts| == At(t0, q).max
    requires lp == Scan(Starts(At(t0, q).exts), e.block)
    requires SplitDone(t0, t, q, lp, e, cap, full, q2)
    ensures Shape(t) && Searchable(t) && Ready(t, e, cap)
  {
    UpdateSelf(full, q2);
    assert t == full;
    var x := At(t0, q).exts;
    WellFormedSearchable(t);
    AtFits(t0, q, cap);
    assert x[lp] == x[..lp + 1][lp];
    FoundAgain(t0, t, q, lp, e.block);
  }

  /** Finding an extent by its own first block. */
  lemma FoundSelf(t: Tree, l: seq<Extent>, e: Extent, r: seq<Extent>, q2: Path)
    requires Shape(t) && Tight(t) && NoEmpty(t) && Sorted(Exts(t)) && Searchable(t)
    requires Exts(t) == l + [e] + r
    requires PathIn(t, q2) && At(t, q2).Leaf? && e in At(t, q2).exts
    ensures FindPath(t, e.block) == q2
  {
    SortedParts(l + [e], r);
    if l != [] {
      assert l + [e] + r == l + ([e] + r);
      SortedPair(l, [e] + r, l[|l| - 1], e);
    }
    if r != [] {
      SortedPair(l + [e], r, e, r[0]);
    }
    SortedIncreasing(Exts(t));
    assert Starts(Exts(t))[|l|] == e.block;
    assert IsPick(Starts(Exts(t)), e.block, |l|) by {
      forall k | |l| < k < |Exts(t)| ensures e.block < Starts(Exts(t))[k] {
        assert Starts(Exts(t))[|l|] < Starts(Exts(t))[k];
      }
    }
    ScanIsPick(Starts(Exts(t)), e.block, |l|);
    FoundOwner(t, e.block, e, |l|);
    OwnerUnique(t, FindPath(t, e.block), q2, e);
  }

  /** The full tree with one leaf emptied again. */
  lemma EmptiedReady(full: Tree, t: Tree, q2: Path, e: Extent, cap: nat)
    requires WellFormed(full, cap) && Searchable(full) && PathIn(full, q2) && q2 != [] && cap > 0
    requires At(full, q2) == Leaf(cap, [e]) && t == Update(full, q2, Leaf(cap, []))
    requires FindPath(full, e.block) == q2
    ensures Shape(t) && Searchable(t) && Ready(t, e, cap)
  {
    LeafSearch(full, q2, Leaf(cap, []), e.block);
    UpdateAt(full, q2, Leaf(cap, []));
    UpdateTwice(full, q2, Leaf(cap, []), Leaf(cap, [e]));
    UpdateSelf(full, q2);
  }

  /** The search after a split that only added a leaf lands in the new, empty leaf. */
  lemma SplitRight(t0: Tree, t: Tree, q: Path, lp: nat, e: Extent, cap: nat, full: Tree, q2: Path)
    requires WellFormed(t0, cap) && t0.Index? && Searchable(t0) && q == FindPath(t0, e.block) && cap > 0
    requires PathIn(t0, q) && At(t0, q).Leaf? && lp + 1 == |At(t0, q).exts|
    requires At(t0, q).exts[lp].block < e.block && Insertable(Exts(t0), e)
    requires SplitDone(t0, t, q, lp, e, cap, full, q2)
    ensures Shape(t) && Searchable(t) && Ready(t, e, cap)
  {
    var x := At(t0, q).exts;
    var l, r := LeftOf(t0, q) + x, RightOf(t0, q);
    LeafParts(t0, q, |x|);
    FindRight(t0, e.block);
    assert x[..lp + 1] == x && x[lp + 1..] == [] && l + [] == l;
    assert l[|l| - 1] == x[lp];
    PlaceSorted(l, e, r);
    WellFormedSearchable(full);
    AtShape(full, q2);
    FoundSelf(full, l, e, r, q2);
    EmptiedReady(full, t, q2, e, cap);
  }

  // ----- ext4_ext_create_new_leaf -----------------------------------------------------------

  /** Walk up from the leaf to the first level with a free index entry. */
  method FreeLevel(inode: Inode, path: seq<Step>, ghost q: Path) returns (i: nat)
    requires inode.Stored() && Walks(inode.t, q, path) && FullAt(inode.t, q, |q|)
    requires forall k :: 0 <= k <= |q| ==>
      PathIn(inode.t, q[..k]) && Entries(Top(At(inode.t, q[..k]))) <= At(inode.t, q[..k]).max
    ensures i <= |q|
    ensures forall k :: i < k <= |q| ==> FullAt(inode.t, q, k)
    ensures i > 0 ==> FitsOneMore(inode.t, q, i)
  {
    i := |path| - 1;
    var full := true;
    while i > 0 && full
      invariant 0 <= i <= |q|
      invariant forall k :: i < k <= |q| ==> FullAt(inode.t, q, k)
      invariant !full ==> FitsOneMore(inode.t, q, i)
      decreases i, full
    {
      assert StepOk(inode.t, q, path, i);
      inode.NodeOnPath(q[..i]);
      var n := inode.NodeAt(path[i].loc);
      full := Entries(n) >= n.max;
      if full {
        assert FullAt(inode.t, q, i);
        i := i - 1;
      }
    }
  }

  lemma EntriesFit(t: Tree, q: Path, cap: nat)
    requires WellFormed(t, cap) && PathIn(t, q)
    ensures forall k :: 0 <= k <= |q| ==> PathIn(t, q[..k]) && Entries(Top(At(t, q[..k]))) <= At(t, q[..k]).max
  {
    forall k | 0 <= k <= |q|
      ensures PathIn(t, q[..k]) && Entries(Top(At(t, q[..k]))) <= At(t, q[..k]).max
    {
      PathPrefix(t, q, k);
      AtFits(t, q[..k], cap);
    }
  }

  lemma SplitFits(t: Tree, path: seq<Step>, e: Extent, cap: nat, i: nat)
    requires WellFormed(t, cap) && cap > ROOT_CAP && Searchable(t) && SearchPath(t, e.block, path)
    requires Insertable(Exts(t), e) && i < |FindPath(t, e.block)|
    requires forall k :: i < k <= |FindPath(t, e.block)| ==> FullAt(t, FindPath(t, e.block), k)
    requires FitsOneMore(t, FindPath(t, e.block), i)
    ensures SplitReady(t, cap, FindPath(t, e.block), path, e, i)
  {
    var q := FindPath(t, e.block);
    FindPathIn(t, e.block);
    assert q[..|q|] == q && FullAt(t, q, |q|);
    AtFits(t, q, cap);
    var x := At(t, q).exts;
    KidsOfSorted(t, q);
    SortedIncreasing(x);
    ScanPicks(Starts(x), e.block);
    var lp := Scan(Starts(x), e.block);
    if lp + 1 == |x| {
      InLeaf(t, q, lp);
      Apart(Exts(t), e, |LeftOf(t, q)| + lp);
    }
  }

  /** Everything a split promises about the following search. */
  lemma SplitThenSearch(t0: Tree, t: Tree, path: seq<Step>, e: Extent, cap: nat, at: nat, full: Tree, q2: Path)
    requires Shape(t0) && Searchable(t0) && cap > ROOT_CAP && SearchPath(t0, e.block, path)
    requires SplitReady(t0, cap, FindPath(t0, e.block), path, e, at) && Insertable(Exts(t0), e)
    requires SplitDone(t0, t, FindPath(t0, e.block), path[|path| - 1].pos.i, e, cap, full, q2)
    ensures Shape(t) && Searchable(t) && Ready(t, e, cap)
  {
    var q := FindPath(t0, e.block);
    var x := At(t0, q).exts;
    var lp := path[|path| - 1].pos.i;
    assert FullAt(t0, q, |q|) && q[..|q|] == q;
    if lp + 1 < |x| {
      SplitLeft(t0, t, q, lp, e, cap, full, q2);
    } else {
      SplitRight(t0, t, q, lp, e, cap, full, q2);
    }
  }

  // ----- what a new leaf costs ------------------------------------------------------------------

  /**
   Blocks for a new leaf beside the one at q, the levels from k on being full: one for each
   level below the lowest index node with a free entry, or one more than there are levels if
   the root has to move out of the inode first.
   */
  ghost function NewNodes(t: Tree, q: Path, k: nat): nat
    requires k <= |q|
  {
    if k == 0 then |q| + 1
    else if FitsOneMore(t, q, k - 1) then |q| - (k - 1)
    else NewNodes(t, q, k - 1)
  }

  ghost function LeafCost(t: Tree, b: nat): nat
    requires Shape(t) && Searchable(t)
  {
    NewNodes(t, FindPath(t, b), |FindPath(t, b)|)
  }

  /** The nodes at level k are filled alike. */
  ghost predicate LikeAt(t: Tree, u: Tree, q: Path, k: nat)
    requires k <= |q|
  {
    && PathIn(t, q[..k]) && PathIn(u, q[..k])
    && Entries(Top(At(u, q[..k]))) == Entries(Top(At(t, q[..k]))) && At(u, q[..k]).max == At(t, q[..k]).max
  }

  lemma {:induction false} SameCost(t: Tree, u: Tree, q: Path, k: nat)
    requires k <= |q| && forall i :: 0 <= i < |q| ==> LikeAt(t, u, q, i)
    ensures NewNodes(u, q, k) == NewNodes(t, q, k)
  {
    if k > 0 {
      var up: nat := k - 1;
      assert LikeAt(t, u, q, up);
      SameCost(t, u, q, up);
    }
  }

  /** The way up ends at the lowest level with a free entry. */
  lemma {:induction false} CostAtLevel(t: Tree, q: Path, k: nat, i: nat)
    requires i < k <= |q| && FitsOneMore(t, q, i) && forall j :: i < j < k ==> FullAt(t, q, j)
    ensures NewNodes(t, q, k) == |q| - i
  {
    var up: nat := k - 1;
    if up != i {
      assert FullAt(t, q, up);
      CostAtLevel(t, q, up, i);
    }
  }

  lemma {:induction false} CostFull(t: Tree, q: Path, k: nat)
    requires k <= |q| && forall j :: 0 <= j < k ==> FullAt(t, q, j)
    ensures NewNodes(t, q, k) == |q| + 1
  {
    if k > 0 {
      var up: nat := k - 1;
      assert FullAt(t, q, up);
      CostFull(t, q, up);
    }
  }

  lemma {:induction false} SamePathMax(t: Tree, m: nat, b: nat)
    requires Shape(t) && Searchable(t)
    ensures Shape(t.(max := m)) && Searchable(t.(max := m)) && FindPath(t.(max := m), b) == FindPath(t, b)
  {
  }

  /** The way through the grown tree goes through the old one. */
  lemma GrownPath(t: Tree, u: Tree, a: nat, cap: nat, b: nat)
    requires Shape(t) && Searchable(t) && !Empty(t) && u == Grown(t, a, cap) && Shape(u) && Searchable(u)
    ensures FindPath(u, b) == [0] + FindPath(t, b)
  {
    SamePathMax(t, cap, b);
    ScanPicks(Keys(u.idx), b);
    assert Keys(u.idx) == [LKey(t)];
  }

  /** Below the old root the nodes are the old ones. */
  lemma GrownAt(t: Tree, u: Tree, a: nat, cap: nat, q: Path, k: nat)
    requires !Empty(t) && u == Grown(t, a, cap) && 0 < k <= |q|
    requires PathIn(t, q[..k])
    ensures PathIn(u, ([0] + q)[..k + 1]) && At(u, ([0] + q)[..k + 1]) == At(t, q[..k])
  {
    var p := ([0] + q)[..k + 1];
    assert p[0] == 0 && p[1..] == q[..k];
    assert q[..k][0] == q[0];
  }

  /** What is left to pay after a growth: the old root has room in its block. */
  lemma GrownCost(t: Tree, u: Tree, a: nat, cap: nat, b: nat)
    requires Shape(t) && Searchable(t) && !Empty(t) && u == Grown(t, a, cap) && Shape(u) && Searchable(u)
    requires cap > ROOT_CAP && Entries(Top(t)) <= ROOT_CAP && PathIn(t, FindPath(t, b))
    requires forall j :: 0 <= j <= |FindPath(t, b)| ==> FullAt(t, FindPath(t, b), j)
    ensures LeafCost(t, b) == |FindPath(t, b)| + 1
    ensures var q := FindPath(u, b);
      && |q| == |FindPath(t, b)| + 1
      && (FullAt(u, q, |q|) <==> t.Index?)
      && (t.Index? ==> LeafCost(u, b) + 1 == LeafCost(t, b))
  {
    var q := FindPath(t, b);
    CostFull(t, q, |q|);
    GrownPath(t, u, a, cap, b);
    var w := FindPath(u, b);
    assert w[..1] == [0] && At(u, w[..1]) == t.(max := cap);
    FindPathIn(u, b);
    assert w[..|w|] == w;
    if t.Index? {
      assert FitsOneMore(u, w, 1);
      forall j | 1 < j <= |w| ensures FullAt(u, w, j) {
        var k: nat := j - 1;
        assert FullAt(t, q, k);
        GrownAt(t, u, a, cap, q, k);
      }
      CostAtLevel(u, w, |w|, 1);
    }
  }

  /** Split at level i and search again. */
  method SplitAndSearch(inode: Inode, path: seq<Step>, e: Extent, i: nat, blocks: nat)
    returns (err: Status, path': seq<Step>)
    requires inode.Valid() && Searchable(inode.t) && SearchPath(inode.t, e.block, path)
    requires Insertable(Exts(inode.t), e)
    requires SplitReady(inode.t, inode.cap, FindPath(inode.t, e.block), path, e, i)
    modifies inode`root, inode`disk, inode`free, inode`t
    ensures inode.Stored() && Exts(inode.t) == Exts(old(inode.t)) && inode.Universe() == old(inode.Universe())
    ensures err == Ok || err == ENOSPC
    ensures err == Ok <==> |FindPath(old(inode.t), e.block)| - i <= Within(blocks, old(inode.free))
    ensures err == ENOSPC ==> inode.Valid() && inode.t == old(inode.t) && path' == path
    ensures err == Ok ==>
      && Searchable(inode.t) && Ready(inode.t, e, inode.cap) && SearchPath(inode.t, e.block, path')
      && Depth(inode.t) == Depth(old(inode.t))
      && BlocksOk(inode.t, FindPath(inode.t, e.block), path')
  {
    ghost var t0 := inode.t;
    ghost var full, q2;
    path' := path;
    err, full, q2 := Split(inode, path, e, i, blocks, FindPath(inode.t, e.block));
    if err != Ok {
      return;
    }
    SplitThenSearch(t0, inode.t, path, e, inode.cap, i, full, q2);
    AtShape(full, q2);
    UpdateShape(full, q2, Leaf(inode.cap, At(t0, FindPath(t0, e.block)).exts[path[|path| - 1].pos.i + 1..]));
    path' := inode.FindExtent(e.block);
  }

  ghost predicate BlocksOk(t: Tree, q: Path, path: seq<Step>)
    requires Shape(t)
  {
    |path| > |q| && forall k :: 0 <= k < |q| ==> BlockOk(t, q, path, k)
  }

  /** No node on the way to b has a free entry. */
  ghost predicate AllFull(t: Tree, b: nat)
    requires Shape(t) && Searchable(t)
  {
    forall j :: 0 <= j <= |FindPath(t, b)| ==> FullAt(t, FindPath(t, b), j)
  }

  lemma RootFull(t: Tree, b: nat)
    requires Shape(t) && Searchable(t) && AllFull(t, b)
    ensures Entries(Top(t)) == t.max && PathIn(t, FindPath(t, b))
  {
    var q := FindPath(t, b);
    assert FullAt(t, q, 0) && q[..0] == [];
    FindPathIn(t, b);
  }

  /** Grow by one level and search again. */
  method GrowAndSearch(inode: Inode, path: seq<Step>, e: Extent, blocks: nat)
    returns (err: Status, path': seq<Step>, more: bool)
    requires inode.Valid() && Searchable(inode.t) && SearchPath(inode.t, e.block, path)
    requires AllFull(inode.t, e.block)
    modifies inode`root, inode`disk, inode`free, inode`t
    ensures inode.Valid() && Exts(inode.t) == Exts(old(inode.t)) && inode.Universe() == old(inode.Universe())
    ensures Searchable(inode.t) && SearchPath(inode.t, e.block, path')
    ensures err == Ok || err == ENOSPC
    ensures err == Ok <==> 1 <= Within(blocks, old(inode.free))
    ensures LeafCost(old(inode.t), e.block) >= 1
    ensures err == Ok && !more ==> LeafCost(old(inode.t), e.block) == 1
    ensures more ==>
      LeafCost(inode.t, e.block) + 1 == LeafCost(old(inode.t), e.block) && |inode.free| == |old(inode.free)| - 1
    ensures err == ENOSPC ==> inode.t == old(inode.t) && path' == path && !more
    ensures err == Ok ==>
      && inode.t.Index? && Entries(Top(inode.t)) == 1 && Depth(inode.t) == Depth(old(inode.t)) + 1
      && BlocksOk(inode.t, FindPath(inode.t, e.block), path')
      && (more <==> FullAt(inode.t, FindPath(inode.t, e.block), |FindPath(inode.t, e.block)|))
      && (!more ==> Ready(inode.t, e, inode.cap))
  {
    path', more := path, false;
    ghost var t0 := inode.t;
    RootFull(t0, e.block);
    CostFull(t0, FindPath(t0, e.block), |FindPath(t0, e.block)|);
    err := GrowInDepth(inode, blocks);
    if err != Ok {
      return;
    }
    WellFormedSearchable(inode.t);
    GrownPays(t0, inode.t, inode.cap, e.block);
    path', more := FindFull(inode, e);
  }

  lemma GrownPays(t: Tree, u: Tree, cap: nat, b: nat)
    requires Shape(t) && Searchable(t) && !Empty(t) && Shape(u) && Searchable(u)
    requires exists a :: u == Grown(t, a, cap)
    requires cap > ROOT_CAP && Entries(Top(t)) <= ROOT_CAP && AllFull(t, b)
    ensures PathIn(u, FindPath(u, b)) && u.Index? && Entries(Top(u)) == 1 && Depth(u) == Depth(t) + 1
    ensures if FullAt(u, FindPath(u, b), |FindPath(u, b)|) then LeafCost(u, b) + 1 == LeafCost(t, b)
            else LeafCost(t, b) == 1
  {
    RootFull(t, b);
    FindPathIn(u, b);
    FindPathIn(t, b);
    var a :| u == Grown(t, a, cap);
    GrownCost(t, u, a, cap, b);
  }

  /** Search, and see whether the leaf found is full. */
  method FindFull(inode: Inode, e: Extent) returns (path: seq<Step>, full: bool)
    requires inode.Valid() && Searchable(inode.t)
    ensures SearchPath(inode.t, e.block, path) && BlocksOk(inode.t, FindPath(inode.t, e.block), path)
    ensures full <==> FullAt(inode.t, FindPath(inode.t, e.block), |FindPath(inode.t, e.block)|)
    ensures !full ==> Ready(inode.t, e, inode.cap)
  {
    path := inode.FindExtent(e.block);
    var depth := |path| - 1;
    ghost var q := FindPath(inode.t, e.block);
    FindPathIn(inode.t, e.block);
    assert StepOk(inode.t, q, path, depth) && q[..depth] == q;
    inode.NodeOnPath(q);
    var leaf := inode.NodeAt(path[depth].loc);
    EntriesFit(inode.t, q, inode.cap);
    full := |leaf.exts| == leaf.max;
  }

  /** The search found a leaf that has no free slot. */
  ghost predicate Cornered(t: Tree, path: seq<Step>, e: Extent)
    requires Shape(t)
  {
    Searchable(t) && SearchPath(t, e.block, path) && FullAt(t, FindPath(t, e.block), |FindPath(t, e.block)|)
  }

  /**
   One round: use the lowest free index entry, or grow if there is none; `again` when the
   grown tree still has to be split, which takes one block less than the whole.
   */
  method NewLeafRound(inode: Inode, path: seq<Step>, e: Extent, blocks: nat)
    returns (err: Status, path': seq<Step>, again: bool)
    requires inode.Valid() && Cornered(inode.t, path, e) && Insertable(Exts(inode.t), e)
    modifies inode`root, inode`disk, inode`free, inode`t
    ensures inode.Stored() && Exts(inode.t) == Exts(old(inode.t)) && inode.Universe() == old(inode.Universe())
    ensures Searchable(inode.t) && SearchPath(inode.t, e.block, path')
    ensures err == Ok || err == ENOSPC
    ensures err == ENOSPC ==> inode.Valid() && Depth(inode.t) == Depth(old(inode.t)) && !again
    ensures again ==> !old(HasFreeEntry(inode.t))
    ensures RoundPaid(err, again, old(LeafCost(inode.t, e.block)), LeafCost(inode.t, e.block),
                      Within(blocks, old(inode.free)), |old(inode.free)|, |inode.free|)
    ensures err == Ok && !again ==>
      && Ready(inode.t, e, inode.cap) && BlocksOk(inode.t, FindPath(inode.t, e.block), path')
      && Depth(old(inode.t)) <= Depth(inode.t) <= Depth(old(inode.t)) + 1
      && (old(HasFreeEntry(inode.t)) ==> Depth(inode.t) == Depth(old(inode.t)))
    ensures err == Ok && again ==>
      && inode.Valid() && Cornered(inode.t, path', e)
      && Depth(inode.t) == Depth(old(inode.t)) + 1 && HasFreeEntry(inode.t)
  {
    ghost var q := FindPath(inode.t, e.block);
    FindPathIn(inode.t, e.block);
    EntriesFit(inode.t, q, inode.cap);
    var i := FreeLevel(inode, path, q);
    assert StepOk(inode.t, q, path, i);
    inode.NodeOnPath(q[..i]);
    var n := inode.NodeAt(path[i].loc);
    if Entries(n) < n.max {
      assert FullAt(inode.t, q, |q|);
      SplitFits(inode.t, path, e, inode.cap, i);
      CostAtLevel(inode.t, q, |q|, i);
      err, path' := SplitAndSearch(inode, path, e, i, blocks);
      again := false;
    } else {
      assert i == 0 && q[..0] == [];
      err, path', again := GrowAndSearch(inode, path, e, blocks);
    }
  }

  /** A round succeeds if its blocks can be had; one that only grew the tree has paid for one of them. */
  ghost predicate RoundPaid(err: Status, again: bool, cost: nat, cost': nat, pool: nat, free: nat, free': nat) {
    if err != Ok then cost > pool
    else if again then cost == cost' + 1 && free == free' + 1 && 1 <= pool
    else cost <= pool
  }

  /** The root is an index node with room. */
  ghost predicate HasFreeEntry(t: Tree) {
    t.Index? && Entries(Top(t)) < t.max
  }

  /** The rounds so far: the outcome, or what is left to be paid. */
  ghost predicate Paid(err: Status, again: bool, cost: nat, cost': nat, pool: nat, pool': nat) {
    if err != Ok then cost > pool
    else if again then cost == cost' + 1 && pool == pool' + 1
    else cost <= pool
  }

  /**
   ext4_ext_create_new_leaf: at most one growth, then a leaf with a free slot, exactly if
   the blocks for the new nodes can be had.
   */
  method CreateNewLeaf(inode: Inode, path: seq<Step>, e: Extent, blocks: nat) returns (err: Status, path': seq<Step>)
    requires inode.Valid() && Cornered(inode.t, path, e) && Insertable(Exts(inode.t), e)
    modifies inode`root, inode`disk, inode`free, inode`t
    ensures inode.Stored() && Exts(inode.t) == Exts(old(inode.t)) && inode.Universe() == old(inode.Universe())
    ensures Depth(old(inode.t)) <= Depth(inode.t) <= Depth(old(inode.t)) + 1
    ensures Searchable(inode.t) && SearchPath(inode.t, e.block, path')
    ensures err == Ok || err == ENOSPC
    ensures err == Ok <==> old(LeafCost(inode.t, e.block)) <= Within(blocks, old(inode.free))
    ensures err == ENOSPC ==> inode.Valid()
    ensures err == Ok ==> Ready(inode.t, e, inode.cap) && BlocksOk(inode.t, FindPath(inode.t, e.block), path')
  {
    var again;
    ghost var cost, pool := LeafCost(inode.t, e.block), Within(blocks, inode.free);
    err, path', again := NewLeafRound(inode, path, e, blocks);
    var rest: nat := if blocks > 0 then blocks - 1 else 0;
    while err == Ok && again
      invariant inode.Stored() && Exts(inode.t) == Exts(old(inode.t)) && inode.Universe() == old(inode.Universe())
      invariant Searchable(inode.t) && SearchPath(inode.t, e.block, path')
      invariant Paid(err, again, cost, LeafCost(inode.t, e.block), pool, Within(rest, inode.free))
      invariant Depth(old(inode.t)) <= Depth(inode.t) <= Depth(old(inode.t)) + 1
      invariant err == Ok || err == ENOSPC
      invariant err == ENOSPC ==> inode.Valid()
      invariant err == Ok && !again ==>
        Ready(inode.t, e, inode.cap) && BlocksOk(inode.t, FindPath(inode.t, e.block), path')
      invariant err == Ok && again ==> inode.Valid() && Cornered(inode.t, path', e)
      invariant err == Ok && again ==> HasFreeEntry(inode.t) && Depth(inode.t) == Depth(old(inode.t)) + 1
      decreases again
    {
      err, path', again := NewLeafRound(inode, path', e, rest);
      assert !again;
    }
  }
}
