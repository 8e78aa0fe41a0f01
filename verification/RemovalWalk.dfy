/**
 The walk of ext4_ext_remove_space over the tree, from the right: what one step upwards
 leaves behind, and what is still to be visited.
 */
module RemovalWalk {
  import opened Extents
  import opened ExtentTrees
  import opened ExtentSearch
  import opened Inodes
  import opened IndexKeys
  import opened TreeUpdates
  import opened ExtentSplit
  import opened ExtentGrow
  import opened ExtentMerge
  import opened ExtentInsert
  import opened RangeRemoval
  import opened ExtentRemove

  // ----- nodes without entries ----------------------------------------------------------

  /** Every node has an entry, except possibly the one at q. */
  ghost predicate NoEmptyBut(t: Tree, q: Path)
    requires PathIn(t, q)
  {
    if q == [] then t.Index? ==> forall i :: 0 <= i < |t.kids| ==> NoEmpty(t.kids[i])
    else
      && !Empty(t)
      && (forall i :: 0 <= i < |t.kids| && i != q[0] ==> NoEmpty(t.kids[i]))
      && NoEmptyBut(t.kids[q[0]], q[1..])
  }

  lemma {:induction false} FullBut(t: Tree, q: Path)
    requires PathIn(t, q) && (t.Index? ==> NoEmpty(t))
    ensures NoEmptyBut(t, q)
  {
    if q != [] {
      FullBut(t.kids[q[0]], q[1..]);
    }
  }

  lemma {:induction false} ButFull(t: Tree, q: Path)
    requires PathIn(t, q) && NoEmptyBut(t, q) && !Empty(At(t, q))
    ensures NoEmpty(t)
  {
    if q != [] {
      ButFull(t.kids[q[0]], q[1..]);
    }
  }

  lemma {:induction false} ButSame(t: Tree, u: Tree, q: Path)
    requires PathIn(t, q) && NoEmptyBut(t, q) && SameButKeys(t, u)
    ensures PathIn(u, q) && NoEmptyBut(u, q)
  {
    if t.Index? {
      forall i | 0 <= i < |t.kids| ensures NoEmpty(u.kids[i]) == NoEmpty(t.kids[i]) {
        SameStructure(t.kids[i], u.kids[i], 0);
      }
      if q != [] {
        ButSame(t.kids[q[0]], u.kids[q[0]], q[1..]);
      }
    }
  }

  lemma {:induction false} ButUp(t: Tree, p: Path, c: nat)
    requires HasKid(t, p, c) && PathIn(t, p + [c]) && Shape(t) && NoEmptyBut(t, p + [c])
    ensures Shape(At(t, p)) && PathIn(Gone(t, p, c), p) && NoEmptyBut(Gone(t, p, c), p)
  {
    AtShape(t, p);
    UpdateAt(t, p, WithoutKid(At(t, p), c));
    if p == [] {
      var n' := WithoutKid(t, c);
      assert [] + [c] == [c];
      forall i | 0 <= i < |n'.kids| ensures NoEmpty(n'.kids[i]) {
        DropAt(t.kids, c, i);
      }
    } else {
      assert (p + [c])[1..] == p[1..] + [c];
      ButUp(t.kids[p[0]], p[1..], c);
    }
  }

  // ----- what lies beside a path -----------------------------------------------------------

  /** Level k of the path: the same node size and the same extents right of the child. */
  ghost predicate SameBeside(t: Tree, u: Tree, q: Path, k: nat)
    requires k < |q|
  {
    && PathIn(t, q[..k + 1]) && PathIn(u, q[..k + 1]) && PathIn(t, q[..k]) && PathIn(u, q[..k])
    && RightOf(u, q[..k + 1]) == RightOf(t, q[..k + 1])
    && At(t, q[..k]).Index? && At(u, q[..k]).Index? && |At(u, q[..k]).idx| == |At(t, q[..k]).idx|
  }

  lemma PrefixTwice(q: Path, k: nat)
    requires k < |q|
    ensures q[..k + 1][..k] == q[..k] && q == q[..k + 1] + q[k + 1..] && q == q[..k] + q[k..]
    ensures q[..k + 1] == q[..k] + [q[k]]
  {
  }

  lemma PrefixBeside(t: Tree, q: Path, s: Tree, k: nat)
    requires PathIn(t, q) && k < |q|
    ensures PathIn(Update(t, q, s), q) && SameBeside(t, Update(t, q, s), q, k)
  {
    var u := Update(t, q, s);
    PrefixTwice(q, k);
    UpdateAt(t, q, s);
    PathPrefix(t, q, k + 1);
    PathPrefix(t, q, k);
    PathPrefix(u, q, k);
    UpdateJoin(t, q[..k + 1], q[k + 1..], s);
    UpdateSides(t, q[..k + 1], Update(At(t, q[..k + 1]), q[k + 1..], s));
    UpdateJoin(t, q[..k], q[k..], s);
    UpdateAt(t, q[..k], Update(At(t, q[..k]), q[k..], s));
    UpdateAt(At(t, q[..k]), q[k..], s);
  }

  lemma SameButKeysBeside(t: Tree, u: Tree, q: Path, k: nat)
    requires SameButKeys(t, u) && PathIn(t, q) && k < |q|
    ensures PathIn(u, q) && SameBeside(t, u, q, k)
  {
    PathPrefix(t, q, k + 1);
    PathPrefix(t, q, k);
    PrefixTwice(q, k);
    SameAt(t, u, q);
    SameAt(t, u, q[..k + 1]);
    SameAt(t, u, q[..k]);
    assert q[k..][0] == q[k];
  }

  ghost predicate Beside(t: Tree, u: Tree, q: Path)
  {
    forall k :: 0 <= k < |q| ==> SameBeside(t, u, q, k)
  }

  lemma BesideTrans(t: Tree, u: Tree, v: Tree, q: Path)
    requires Beside(t, u, q) && Beside(u, v, q)
    ensures Beside(t, v, q)
  {
    forall k | 0 <= k < |q| ensures SameBeside(t, v, q, k) {
      assert SameBeside(t, u, q, k) && SameBeside(u, v, q, k);
    }
  }

  lemma BesidePrefix(t: Tree, u: Tree, q: Path, n: nat)
    requires Beside(t, u, q) && n <= |q|
    ensures Beside(t, u, q[..n])
  {
    forall k | 0 <= k < n ensures SameBeside(t, u, q[..n], k) {
      assert q[..n][..k] == q[..k] && q[..n][..k + 1] == q[..k + 1];
      assert SameBeside(t, u, q, k);
    }
  }

  // ----- one step up --------------------------------------------------------------------------

  /**
   The tree u after the child at q was dealt with: its extents are now y, its entry is gone
   if y is empty, and nothing else happened.
   */
  ghost predicate Climbed(t: Tree, q: Path, u: Tree, y: seq<Extent>)
    requires q != []
  {
    var p, c := q[..|q| - 1], q[|q| - 1];
    && PathIn(t, q) && PathIn(t, p) && PathIn(u, p) && At(t, p).Index? && At(u, p).Index?
    && c <= |At(u, p).kids|
    && |At(u, p).idx| == |At(t, p).idx| - (if y == [] then 1 else 0)
    && LeftOf(u, p) + ExtsOf(At(u, p).kids[..c]) == LeftOf(t, q)
    && Exts(u) == LeftOf(t, q) + y + RightOf(t, q)
    && Beside(t, u, p)
  }

  /** The leaf at q was rewritten and is not empty. */
  lemma ClimbLeaf(t: Tree, q: Path, x: seq<Extent>, u: Tree)
    requires PathIn(t, q) && q != [] && At(t, q).Leaf? && x != []
    requires SameButKeys(Update(t, q, Leaf(At(t, q).max, x)), u)
    ensures Climbed(t, q, u, x)
  {
    var t1 := Update(t, q, Leaf(At(t, q).max, x));
    var d := |q| - 1;
    UpdateBeside(t, q, Leaf(At(t, q).max, x));
    SameBesideAll(t1, u, q);
    BesideTrans(t, t1, u, q);
    BesidePrefix(t, u, q, d);
    assert SameBeside(t, u, q, d);
    LeafContent(t, q, x);
    SameExts(t1, u);
    UpdateSides(t, q, Leaf(At(t, q).max, x));
    SameAt(t1, u, q);
    SidesAt(u, q, d);
    assert q[..d + 1] == q;
  }

  lemma UpdateBeside(t: Tree, q: Path, s: Tree)
    requires PathIn(t, q)
    ensures PathIn(Update(t, q, s), q) && Beside(t, Update(t, q, s), q)
  {
    UpdateAt(t, q, s);
    forall k | 0 <= k < |q| ensures SameBeside(t, Update(t, q, s), q, k) {
      PrefixBeside(t, q, s, k);
    }
  }

  lemma SameBesideAll(t: Tree, u: Tree, q: Path)
    requires SameButKeys(t, u) && PathIn(t, q)
    ensures Beside(t, u, q)
  {
    forall k | 0 <= k < |q| ensures SameBeside(t, u, q, k) {
      SameButKeysBeside(t, u, q, k);
    }
  }

  /** The node at q had no extents left, and its entry was dropped. */
  lemma ClimbGone(t: Tree, p: Path, c: nat, u: Tree)
    requires HasKid(t, p, c) && Shape(t) && Exts(At(t, p).kids[c]) == [] && Blocks(At(t, p).kids[c]) == multiset{}
    requires SameButKeys(Gone(t, p, c), u)
    ensures Climbed(t, p + [c], u, [])
  {
    var q := p + [c];
    var g := Gone(t, p, c);
    assert q[..|q| - 1] == p;
    PathJoin(t, p, [c]);
    GoneContent(t, p, c);
    SameExts(g, u);
    ExtsAt(t, q);
    assert LeftOf(t, q) + [] == LeftOf(t, q);
    UpdateBeside(t, p, WithoutKid(At(t, p), c));
    SameBesideAll(g, u, p);
    BesideTrans(t, g, u, p);
    GoneLeft(t, p, c, u);
  }

  lemma GoneLeft(t: Tree, p: Path, c: nat, u: Tree)
    requires HasKid(t, p, c) && Shape(t) && SameButKeys(Gone(t, p, c), u)
    ensures PathIn(t, p + [c]) && PathIn(u, p) && At(u, p).Index? && c <= |At(u, p).kids|
    ensures |At(u, p).idx| == |At(t, p).idx| - 1
    ensures LeftOf(u, p) + ExtsOf(At(u, p).kids[..c]) == LeftOf(t, p + [c])
  {
    var q, n, g := p + [c], At(t, p), Gone(t, p, c);
    PathJoin(t, p, [c]);
    UpdateAt(t, p, WithoutKid(n, c));
    UpdateSides(t, p, WithoutKid(n, c));
    SameAt(g, u, p);
    var m := At(u, p);
    assert WithoutKid(n, c).kids[..c] == n.kids[..c];
    SameExtsOf(n.kids[..c], m.kids[..c]);
    assert q[..|p|] == p && q[..|p| + 1] == q;
    SidesAt(t, q, |p|);
  }

  /** Emptying a leaf first and dropping its entry then is one step. */
  lemma ClimbTwo(t: Tree, t1: Tree, q: Path, u: Tree)
    requires q != [] && PathIn(t, q) && At(t, q).Leaf? && t1 == Update(t, q, Leaf(At(t, q).max, []))
    requires Climbed(t1, q, u, [])
    ensures Climbed(t, q, u, [])
  {
    var d := |q| - 1;
    UpdateBeside(t, q, Leaf(At(t, q).max, []));
    UpdateSides(t, q, Leaf(At(t, q).max, []));
    assert SameBeside(t, t1, q, d);
    BesidePrefix(t, t1, q, d);
    BesideTrans(t, t1, u, q[..d]);
  }

  // ----- ext4_ext_rm_leaf -------------------------------------------------------------------

  /** A well-formed tree except that the node at q may have lost its last entry. */
  ghost predicate Trimmed(t: Tree, q: Path, cap: nat) {
    && Shape(t) && PathIn(t, q) && Tight(t) && NoEmptyBut(t, q)
    && Fits(t, cap) && t.max == ROOT_CAP && Entries(Top(t)) <= ROOT_CAP
  }

  /** The same in the middle of a leaf change: the key of the leaf may be stale. */
  ghost predicate Trimming(t: Tree, q: Path, cap: nat) {
    && Shape(t) && PathIn(t, q) && TightBut(t, q) && NoEmptyBut(t, q)
    && Fits(t, cap) && t.max == ROOT_CAP && Entries(Top(t)) <= ROOT_CAP
  }

  lemma {:induction false} ButUpdate(t: Tree, q: Path, s: Tree)
    requires PathIn(t, q) && NoEmptyBut(t, q) && s.Leaf?
    ensures PathIn(Update(t, q, s), q) && NoEmptyBut(Update(t, q, s), q)
  {
    UpdateAt(t, q, s);
    if q != [] {
      ButUpdate(t.kids[q[0]], q[1..], s);
    }
  }

  lemma LeafTrim(t: Tree, q: Path, cap: nat, x: seq<Extent>)
    requires Trimmed(t, q, cap) && At(t, q).Leaf? && |x| <= |At(t, q).exts|
    ensures var t1 := Update(t, q, Leaf(At(t, q).max, x));
      && Trimming(t1, q, cap) && At(t1, q) == Leaf(At(t, q).max, x)
      && (x == [] || (At(t, q).exts != [] && x[0].block == At(t, q).exts[0].block) ==> Trimmed(t1, q, cap))
  {
    var s := Leaf(At(t, q).max, x);
    AtShape(t, q);
    AtFits(t, q, cap);
    UpdateAt(t, q, s);
    ButUpdate(t, q, s);
    UpdateFits(t, q, s, cap);
    TightTightBut(t, q);
    UpdateTightBut(t, q, s);
    if x == [] || (At(t, q).exts != [] && x[0].block == At(t, q).exts[0].block) {
      UpdateTight(t, q, s);
    }
  }

  lemma TrimmedSame(t: Tree, u: Tree, q: Path, cap: nat)
    requires Trimming(t, q, cap) && SameButKeys(t, u) && Shape(u) && Tight(u)
    ensures Trimmed(u, q, cap) && Depth(u) == Depth(t)
  {
    SameStructure(t, u, cap);
    ButSame(t, u, q);
  }

  lemma TrimmedUp(t: Tree, q: Path, cap: nat, n: nat)
    requires Trimmed(t, q, cap) && !Empty(At(t, q)) && n <= |q|
    ensures Trimmed(t, q[..n], cap)
  {
    PathPrefix(t, q, n);
    ButFull(t, q);
    FullBut(t, q[..n]);
  }

  lemma TrimmedGone(t: Tree, p: Path, c: nat, cap: nat)
    requires Trimmed(t, p + [c], cap) && HasKid(t, p, c)
    ensures Trimming(Gone(t, p, c), p, cap) && Depth(Gone(t, p, c)) == Depth(t)
  {
    AtShape(t, p);
    AtFits(t, p, cap);
    WithoutKidShape(At(t, p), c, cap);
    ButUp(t, p, c);
    GoneTight(t, p, c);
    UpdateShape(t, p, WithoutKid(At(t, p), c));
    UpdateFits(t, p, WithoutKid(At(t, p), c), cap);
    UpdateAt(t, p, WithoutKid(At(t, p), c));
  }

  lemma WalksPrefix(t: Tree, q: Path, path: seq<Step>, n: nat)
    requires Shape(t) && Walks(t, q, path) && n <= |q|
    ensures Walks(t, q[..n], path[..n + 1])
    ensures n < |q| ==> path[n].pos == Slot(q[n])
  {
    PathPrefix(t, q, n);
    var q1, path1 := q[..n], path[..n + 1];
    forall k | 0 <= k <= n ensures StepOk(t, q1, path1, k) {
      assert q1[..k] == q[..k];
      assert StepOk(t, q, path, k);
    }
    if n < |q| {
      assert StepOk(t, q, path, n);
    }
  }

  lemma ParentOf(t: Tree, q: Path, path: seq<Step>)
    requires Shape(t) && Walks(t, q, path) && q != []
    ensures var p, c := q[..|q| - 1], q[|q| - 1];
      && HasKid(t, p, c) && At(t, p).kids[c] == At(t, q) && q == p + [c]
      && Walks(t, p, path[..|q|]) && path[|q| - 1].pos == Slot(c)
  {
    var p, c := q[..|q| - 1], q[|q| - 1];
    WalksPrefix(t, q, path, |q| - 1);
    SidesAt(t, q, |q| - 1);
    AtShape(t, p);
    assert q == p + [c];
    PathJoin(t, p, [c]);
  }

  lemma ParentWithout(t: Tree, u: Tree, p: Path, c: nat, path: seq<Step>, cap: nat)
    requires Trimmed(t, p + [c], cap) && HasKid(t, p, c) && Walks(t, p, path)
    requires Exts(At(t, p).kids[c]) == [] && Blocks(At(t, p).kids[c]) == multiset{}
    requires Shape(u) && Tight(u) && SameButKeys(Gone(t, p, c), u)
    ensures Climbed(t, p + [c], u, []) && Depth(u) == Depth(t) && Trimmed(u, p, cap) && Walks(u, p, path)
  {
    TrimmedGone(t, p, c, cap);
    TrimmedSame(Gone(t, p, c), u, p, cap);
    ClimbGone(t, p, c, u);
    GoneWalks(t, p, c, path);
    SameWalks(Gone(t, p, c), u, p, path);
  }

  /** Remove the empty node at q from its parent. */
  method RemoveNode(inode: Inode, path: seq<Step>, ghost q: Path)
    requires inode.Stored() && Clean(inode.Universe()) && Trimmed(inode.t, q, inode.cap)
    requires Walks(inode.t, q, path) && q != [] && Exts(At(inode.t, q)) == [] && Blocks(At(inode.t, q)) == multiset{}
    modifies inode`root, inode`disk, inode`free, inode`t
    ensures inode.Stored() && inode.Universe() == old(inode.Universe())
    ensures Climbed(old(inode.t), q, inode.t, []) && Depth(inode.t) == Depth(old(inode.t))
    ensures Trimmed(inode.t, q[..|q| - 1], inode.cap) && Walks(inode.t, q[..|q| - 1], path[..|q|])
  {
    ghost var t, p, c := inode.t, q[..|q| - 1], q[|q| - 1];
    var depth := |path| - 1;
    ParentOf(t, q, path);
    RmIdx(inode, path[..depth], path[depth - 1].pos.i, p);
    ParentWithout(t, inode.t, p, c, path[..depth], inode.cap);
  }

  ghost predicate LeafAt(t: Tree, q: Path, end: nat) {
    && PathIn(t, q) && At(t, q).Leaf? && Sorted(At(t, q).exts) && NoStraddle(At(t, q).exts, end)
    && (At(t, q).exts == [] ==> q == [])
  }

  lemma LeafAccount(b: multiset<nat>, l: seq<Extent>, x: seq<Extent>, r: seq<Extent>, x': seq<Extent>,
                    f: multiset<nat>, f': multiset<nat>)
    requires Data(x') + f' == Data(x) + f
    ensures b + Data(l + x' + r) + f' == b + Data(l + x + r) + f
  {
    DataMiddle(l, x, r);
    DataMiddle(l, x', r);
    SwapParts(b, Data(l), Data(x), Data(r), f);
    SwapParts(b, Data(l), Data(x'), Data(r), f');
  }

  lemma SwapParts(b: multiset<nat>, l: multiset<nat>, x: multiset<nat>, r: multiset<nat>, f: multiset<nat>)
    ensures b + (l + x + r) + f == b + l + r + (x + f)
  {
  }

  lemma LeafPart(b: multiset<nat>, l: seq<Extent>, x: seq<Extent>, r: seq<Extent>, f: multiset<nat>)
    requires NoDup(b + Data(l + x + r) + f)
    ensures NoDup(Data(x) + f)
  {
    DataMiddle(l, x, r);
    SwapParts(b, Data(l), Data(x), Data(r), f);
    var u := b + Data(l + x + r) + f;
    forall i ensures (Data(x) + f)[i] <= 1 {
      assert u[i] <= 1;
    }
  }

  /** Read the leaf, cut its extents and free their blocks, and store it again. */
  method TrimLeaf(inode: Inode, path: seq<Step>, start: nat, end: nat, restarts: nat, ghost q: Path)
    returns (err: Status, x: seq<Extent>, correct: bool, left: nat, ghost n: nat)
    requires inode.Stored() && Clean(inode.Universe()) && Trimmed(inode.t, q, inode.cap)
    requires Walks(inode.t, q, path) && LeafAt(inode.t, q, end)
    modifies inode`root, inode`disk, inode`free, inode`t
    ensures inode.Stored() && inode.Universe() == old(inode.Universe())
    ensures inode.t == Update(old(inode.t), q, Leaf(At(old(inode.t), q).max, x)) && Walks(inode.t, q, path)
    ensures Trimming(inode.t, q, inode.cap) && At(inode.t, q) == Leaf(At(old(inode.t), q).max, x)
    ensures !correct || x == [] ==> Trimmed(inode.t, q, inode.cap)
    ensures err == Ok || err == EAGAIN
    ensures err == Ok ==> x == Cut(At(old(inode.t), q).exts, start, end) && left == restarts
    ensures err == EAGAIN ==>
      left < restarts && 0 < n <= |At(old(inode.t), q).exts| && x == CutFrom(At(old(inode.t), q).exts, n, start, end)
      && Trimmed(inode.t, q, inode.cap)
  {
    ghost var t, free0 := inode.t, inode.free;
    var depth := |path| - 1;
    assert StepOk(t, q, path, depth) && q[..depth] == q;
    inode.NodeOnPath(q);
    var leaf := inode.NodeAt(path[depth].loc);
    ExtsAt(t, q);
    LeafPart(Blocks(t), LeftOf(t, q), leaf.exts, RightOf(t, q), multiset(inode.free));
    CleanBlocks(inode);
    err, x, correct, left, n := CutLeaf(inode, leaf.exts, start, end, restarts, Data(leaf.exts) + multiset(free0));
    CutLength(leaf.exts, start, end);
    if err == EAGAIN {
      CutLength(leaf.exts[n..], start, end);
    }
    LeafAccount(Blocks(t), LeftOf(t, q), leaf.exts, RightOf(t, q), x, multiset(free0), multiset(inode.free));
    PutLeaf(inode, path, x, q);
  }

  /** Store a leaf that lost extents. */
  method PutLeaf(inode: Inode, path: seq<Step>, x: seq<Extent>, ghost q: Path)
    requires inode.Stored() && NoDup(Blocks(inode.t)) && Trimmed(inode.t, q, inode.cap)
    requires Walks(inode.t, q, path) && At(inode.t, q).Leaf? && |x| <= |At(inode.t, q).exts|
    modifies inode`root, inode`disk, inode`t
    ensures inode.Stored() && Blocks(inode.t) == Blocks(old(inode.t))
    ensures Exts(inode.t) == LeftOf(old(inode.t), q) + x + RightOf(old(inode.t), q)
    ensures inode.t == Update(old(inode.t), q, Leaf(At(old(inode.t), q).max, x)) && Walks(inode.t, q, path)
    ensures Trimming(inode.t, q, inode.cap) && At(inode.t, q) == Leaf(At(old(inode.t), q).max, x)
    ensures x == [] || (At(old(inode.t), q).exts != [] && x[0].block == At(old(inode.t), q).exts[0].block) ==>
              Trimmed(inode.t, q, inode.cap)
  {
    LeafTrim(inode.t, q, inode.cap, x);
    LeafContent(inode.t, q, x);
    StoreLeaf(inode, path, x, q);
  }

  /** The tree after the leaf at q has lost the range, the walk standing one level up. */
  ghost predicate LeafDone(t: Tree, q: Path, u: Tree, y: seq<Extent>, cap: nat, path: seq<Step>) {
    if q == [] then u == Leaf(ROOT_CAP, y) && |y| <= ROOT_CAP
    else
      && Climbed(t, q, u, y)
      && Trimmed(u, q[..|q| - 1], cap) && |path| == |q| + 1 && Walks(u, q[..|q| - 1], path[..|q|])
      && Depth(u) == Depth(t)
  }

  /**
   ext4_ext_rm_leaf: remove start..end from the leaf at q, free the blocks, correct the
   keys above, and remove the leaf itself if nothing is left in it.
   */
  method RmLeaf(inode: Inode, path: seq<Step>, start: nat, end: nat, restarts: nat, ghost q: Path)
    returns (err: Status, left: nat, ghost n: nat)
    requires inode.Stored() && Clean(inode.Universe()) && Trimmed(inode.t, q, inode.cap)
    requires Walks(inode.t, q, path) && LeafAt(inode.t, q, end)
    modifies inode`root, inode`disk, inode`free, inode`t
    ensures inode.Stored() && inode.Universe() == old(inode.Universe())
    ensures err == Ok || err == EAGAIN
    ensures err == Ok ==>
      left == restarts
      && LeafDone(old(inode.t), q, inode.t, Cut(At(old(inode.t), q).exts, start, end), inode.cap, path)
    ensures err == EAGAIN ==>
      left < restarts && 0 < n <= |At(old(inode.t), q).exts|
      && inode.t == Update(old(inode.t), q,
           Leaf(At(old(inode.t), q).max, CutFrom(At(old(inode.t), q).exts, n, start, end)))
      && Trimmed(inode.t, q, inode.cap)
  {
    ghost var t := inode.t;
    var x, correct;
    err, x, correct, left, n := TrimLeaf(inode, path, start, end, restarts, q);
    if err != Ok {
      return;
    }
    ghost var t1 := inode.t;
    SameRefl(t1);
    if correct && x != [] {
      CorrectBelow(inode, path, q);
      TrimmedSame(t1, inode.t, q, inode.cap);
      SameWalks(t1, inode.t, q, path);
      SameAt(t1, inode.t, q);
    }
    if x == [] && |path| > 1 {
      RemoveNode(inode, path, q);
      ClimbTwo(t, t1, q, inode.t);
    } else if |path| > 1 {
      ClimbLeaf(t, q, x, inode.t);
      TrimmedUp(inode.t, q, inode.cap, |q| - 1);
      WalksPrefix(inode.t, q, path, |q| - 1);
    }
  }

  /** ext4_ext_correct_indexes with p_ext on the first extent. */
  method CorrectBelow(inode: Inode, path: seq<Step>, ghost q: Path)
    requires inode.Stored() && Clean(inode.Universe()) && Trimming(inode.t, q, inode.cap)
    requires Walks(inode.t, q, path) && At(inode.t, q).Leaf? && At(inode.t, q).exts != []
    modifies inode`root, inode`disk, inode`t
    ensures inode.Stored() && SameButKeys(old(inode.t), inode.t) && Tight(inode.t)
    ensures inode.Universe() == old(inode.Universe())
  {
    ghost var t := inode.t;
    CleanBlocks(inode);
    MovedCursor(t, q, path, Slot(0));
    var err := CorrectIndexes(inode, path[|path| - 1 := path[|path| - 1].(pos := Slot(0))], q);
    SameExts(t, inode.t);
  }
}
