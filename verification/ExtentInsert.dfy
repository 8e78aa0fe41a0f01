/**
 ext4_ext_insert_extent: merge into a neighbour, or use a free slot of the found leaf,
 of the next leaf, or of a leaf made by splitting and growing.
 */
module ExtentInsert {
  import opened Extents
  import opened ExtentTrees
  import opened ExtentSearch
  import opened Inodes
  import opened IndexKeys
  import opened TreeUpdates
  import opened ExtentSplit
  import opened ExtentGrow
  import opened ExtentMerge
  import opened ExtentNeighbours

  // ----- runs ------------------------------------------------------------------------

  /** Reference insertion into a sorted run. */
  function InsertSorted(s: seq<Extent>, e: Extent): seq<Extent> {
    if s == [] || e.block < s[0].block then [e] + s else [s[0]] + InsertSorted(s[1..], e)
  }

  lemma {:induction false} InsertSortedAt(l: seq<Extent>, e: Extent, r: seq<Extent>)
    requires Sorted(l + [e] + r)
    ensures InsertSorted(l + r, e) == l + [e] + r
  {
    if l == [] {
      assert l + r == r && l + [e] + r == [e] + r;
      SortedNext(l, e, r);
    } else {
      var t := l[1..];
      InsertSortedStep(l, e, r);
      InsertSortedAt(t, e, r);
      assert (l + r)[1..] == t + r && (l + r)[0] == l[0];
    }
  }

  lemma InsertSortedStep(l: seq<Extent>, e: Extent, r: seq<Extent>)
    requires Sorted(l + [e] + r) && l != []
    ensures l + [e] + r == [l[0]] + (l[1..] + [e] + r)
    ensures Sorted(l[1..] + [e] + r) && l[0].block < e.block
  {
    var s := l[1..] + [e] + r;
    assert l + [e] + r == [l[0]] + s;
    SortedParts([l[0]], s);
    assert s[|l[1..]|] == e;
    SortedPair([l[0]], s, l[0], e);
  }

  /** Two abutting extents in a run may be written as one. */
  lemma FuseInRun(l: seq<Extent>, a: Extent, b: Extent, r: seq<Extent>)
    requires Sorted(l + [a, b] + r) && CanMerge(a, b)
    ensures Sorted(l + [Merged(a, b)] + r)
    ensures LMap(l + [Merged(a, b)] + r) == LMap(l + [a, b] + r)
  {
    var s := l + [a, b] + r;
    assert s[|l|] == a && s[|l| + 1] == b;
    MergeKeepsMeaning(a, b);
    MergeKeepsData(a, b);
    SameMiddle(l, [a, b], [Merged(a, b)], r);
  }

  lemma FuseData(l: seq<Extent>, a: Extent, b: Extent, r: seq<Extent>)
    requires CanMerge(a, b)
    ensures Data(l + [Merged(a, b)] + r) == Data(l) + (DataOf(a) + DataOf(b)) + Data(r)
  {
    DataMiddle(l, [Merged(a, b)], r);
    MergeKeepsData(a, b);
    assert [a, b] == [a] + [b];
    DataAppend([a], [b]);
    DataSingle(a);
    DataSingle(b);
  }

  lemma OneData(l: seq<Extent>, a: Extent, r: seq<Extent>)
    ensures Data(l + [a] + r) == Data(l) + DataOf(a) + Data(r)
  {
    DataMiddle(l, [a], r);
    DataSingle(a);
  }

  /** The new extent continues extent a. */
  lemma AppendInto(l: seq<Extent>, a: Extent, e: Extent, r: seq<Extent>)
    requires Sorted(l + [a] + r) && Insertable(l + [a] + r, e) && CanMerge(a, e)
    ensures Sorted(l + [Merged(a, e)] + r)
    ensures LMap(l + [Merged(a, e)] + r) == LMap(l + [a] + r) + MapOf(e)
  {
    var l1 := l + [a];
    SortedNext(l, a, r);
    assert l1[|l1| - 1] == a;
    PlaceSorted(l1, e, r);
    LMapInsert(l1, e, r);
    assert l1 + [e] + r == l + [a, e] + r;
    FuseInRun(l, a, e, r);
  }

  lemma AppendData(l: seq<Extent>, a: Extent, e: Extent, r: seq<Extent>)
    requires CanMerge(a, e)
    ensures Data(l + [Merged(a, e)] + r) == Data(l + [a] + r) + DataOf(e)
  {
    FuseData(l, a, e, r);
    OneData(l, a, r);
    var x, y, z, w := Data(l), DataOf(a), DataOf(e), Data(r);
    assert x + (y + z) + w == x + y + w + z;
  }

  /** Extent b continues the new extent. */
  lemma PrependTo(l: seq<Extent>, e: Extent, b: Extent, r: seq<Extent>)
    requires Sorted(l + [b] + r) && Insertable(l + [b] + r, e) && CanMerge(e, b)
    ensures Sorted(l + [Merged(e, b)] + r)
    ensures LMap(l + [Merged(e, b)] + r) == LMap(l + [b] + r) + MapOf(e)
  {
    var r1 := [b] + r;
    PrependPlace(l, e, b, r);
    assert l + [b] + r == l + r1;
    LMapInsert(l, e, r1);
    assert l + [e] + r1 == l + [e, b] + r;
    FuseInRun(l, e, b, r);
  }

  lemma PrependPlace(l: seq<Extent>, e: Extent, b: Extent, r: seq<Extent>)
    requires Sorted(l + [b] + r) && Insertable(l + [b] + r, e) && End(e) == b.block
    ensures Sorted(l + [e] + ([b] + r))
  {
    var s, r1 := l + [b] + r, [b] + r;
    SortedNext(l, b, r);
    if l != [] {
      Apart(s, e, |l| - 1);
      assert s[|l| - 1] == l[|l| - 1];
    }
    assert s == l + r1 && r1[0] == b;
    PlaceSorted(l, e, r1);
  }

  lemma PrependData(l: seq<Extent>, e: Extent, b: Extent, r: seq<Extent>)
    requires CanMerge(e, b)
    ensures Data(l + [Merged(e, b)] + r) == Data(l + [b] + r) + DataOf(e)
  {
    FuseData(l, e, b, r);
    OneData(l, b, r);
    var x, y, z, w := Data(l), DataOf(b), DataOf(e), Data(r);
    assert x + (z + y) + w == x + y + w + z;
  }

  // ----- the leaf the new extent goes to ------------------------------------------------

  function Inserted(x: seq<Extent>, j: nat, e: Extent): seq<Extent>
    requires j <= |x|
  {
    x[..j] + [e] + x[j..]
  }

  /** Slot j of the leaf at q is free for e and the right place for it. */
  ghost predicate Slotted(t: Tree, q: Path, cap: nat, e: Extent, j: nat) {
    && Shape(t) && PathIn(t, q) && At(t, q).Leaf? && |At(t, q).exts| < At(t, q).max && j <= |At(t, q).exts|
    && (|| (WellFormed(t, cap) && Sorted(LeftOf(t, q) + Inserted(At(t, q).exts, j, e) + RightOf(t, q)))
        || (q != [] && At(t, q) == Leaf(cap, []) && WellFormed(Update(t, q, Leaf(cap, [e])), cap)))
  }

  lemma SlotRun(t: Tree, q: Path, e: Extent, j: nat)
    requires PathIn(t, q) && At(t, q).Leaf? && j <= |At(t, q).exts|
    requires Sorted(LeftOf(t, q) + Inserted(At(t, q).exts, j, e) + RightOf(t, q))
    ensures var s := LeftOf(t, q) + Inserted(At(t, q).exts, j, e) + RightOf(t, q);
      && s == InsertSorted(Exts(t), e) && LMap(s) == LMap(Exts(t)) + MapOf(e) && Data(s) == Data(Exts(t)) + DataOf(e)
  {
    var x := At(t, q).exts;
    var l, r := LeftOf(t, q) + x[..j], x[j..] + RightOf(t, q);
    LeafParts(t, q, j);
    SeqAssoc(LeftOf(t, q) + x[..j], x[j..], RightOf(t, q));
    InsertOrder(LeftOf(t, q), x[..j], [e], x[j..], RightOf(t, q));
    InsertSortedAt(l, e, r);
    LMapInsert(l, e, r);
    DataInsert(l, e, r);
  }

  /** Inserting at a fitting slot adds exactly e. */
  lemma SlotInsert(t: Tree, q: Path, cap: nat, e: Extent, j: nat)
    requires Slotted(t, q, cap, e, j)
    ensures var t' := Update(t, q, Leaf(At(t, q).max, Inserted(At(t, q).exts, j, e)));
      && Nearly(t', q, cap) && Corrigible(t', q, Slot(j)) && At(t', q).exts == Inserted(At(t, q).exts, j, e)
      && Blocks(t') == Blocks(t)
      && Exts(t') == InsertSorted(Exts(t), e)
      && LMap(Exts(t')) == LMap(Exts(t)) + MapOf(e)
      && Data(Exts(t')) == Data(Exts(t)) + DataOf(e)
  {
    var x := At(t, q).exts;
    var x' := Inserted(x, j, e);
    var t' := Update(t, q, Leaf(At(t, q).max, x'));
    LeafContent(t, q, x');
    UpdateAt(t, q, Leaf(At(t, q).max, x'));
    if WellFormed(t, cap) && Sorted(LeftOf(t, q) + x' + RightOf(t, q)) {
      WellFormedNearly(t, q, cap);
      LeafRewrite(t, q, cap, x');
      if j != 0 {
        assert x'[0] == x[0];
      }
    } else {
      assert x' == [e];
      WellFormedNearly(t', q, cap);
    }
    SlotRun(t, q, e, j);
  }

  /** Where the code puts the extent: after the nearest one if that starts below it. */
  function SlotFor(x: seq<Extent>, pos: Cursor, e: Extent): int
    requires pos.Slot? ==> 0 <= pos.i < |x|
  {
    if pos.Null? then 0 else if e.block > x[pos.i].block then pos.i + 1 else pos.i
  }

  ghost predicate Below(l: seq<Extent>, e: Extent) {
    l != [] ==> l[|l| - 1].block <= e.block
  }

  ghost predicate Above(e: Extent, r: seq<Extent>) {
    r != [] ==> e.block <= r[0].block
  }

  /** Between its neighbours in the leaf, or at its edge, e is at its place in the file. */
  lemma SlotInRun(t: Tree, q: Path, e: Extent, j: nat)
    requires PathIn(t, q) && At(t, q).Leaf? && j <= |At(t, q).exts| && Sorted(Exts(t)) && Insertable(Exts(t), e)
    requires Below(LeftOf(t, q) + At(t, q).exts[..j], e) && Above(e, At(t, q).exts[j..] + RightOf(t, q))
    ensures Sorted(LeftOf(t, q) + Inserted(At(t, q).exts, j, e) + RightOf(t, q))
  {
    var x := At(t, q).exts;
    LeafParts(t, q, j);
    var l, r := LeftOf(t, q) + x[..j], x[j..] + RightOf(t, q);
    SeqAssoc(LeftOf(t, q) + x[..j], x[j..], RightOf(t, q));
    PlaceSorted(l, e, r);
    InsertOrder(LeftOf(t, q), x[..j], [e], x[j..], RightOf(t, q));
  }

  lemma InsertOrder(a: seq<Extent>, b: seq<Extent>, c: seq<Extent>, d: seq<Extent>, f: seq<Extent>)
    ensures a + (b + c + d) + f == (a + b) + c + (d + f)
  {
  }

  /** The search position of e itself is the right place for it. */
  lemma SearchSlot(t: Tree, q: Path, e: Extent)
    requires Shape(t) && Tight(t) && (t.Index? ==> NoEmpty(t)) && Sorted(Exts(t)) && Searchable(t)
    requires q == FindPath(t, e.block) && Insertable(Exts(t), e) && PathIn(t, q) && At(t, q).Leaf?
    ensures var x := At(t, q).exts;
      var pos := LeafCursor(x, e.block);
      && (pos.Slot? ==> 0 <= pos.i < |x|)
      && 0 <= SlotFor(x, pos, e) <= |x|
      && Sorted(LeftOf(t, q) + Inserted(x, SlotFor(x, pos, e), e) + RightOf(t, q))
  {
    var x := At(t, q).exts;
    if t.Index? {
      FindLeft(t, e.block);
      FindRight(t, e.block);
    }
    if x == [] {
      SlotInRun(t, q, e, 0);
    } else {
      var n := Scan(Starts(x), e.block);
      LeafPick(t, q, e.block);
      FoundSlot(t, q, e, n, if e.block > x[n].block then n + 1 else n);
    }
  }

  lemma SearchSlotted(t: Tree, q: Path, cap: nat, e: Extent)
    requires WellFormed(t, cap) && Searchable(t) && q == FindPath(t, e.block) && Insertable(Exts(t), e)
    requires PathIn(t, q) && At(t, q).Leaf? && |At(t, q).exts| < At(t, q).max
    ensures LeafCursor(At(t, q).exts, e.block).Slot? ==> LeafCursor(At(t, q).exts, e.block).i < |At(t, q).exts|
    ensures SlotFor(At(t, q).exts, LeafCursor(At(t, q).exts, e.block), e) >= 0
    ensures Slotted(t, q, cap, e, SlotFor(At(t, q).exts, LeafCursor(At(t, q).exts, e.block), e))
  {
    SearchSlot(t, q, e);
  }

  lemma FoundSlot(t: Tree, q: Path, e: Extent, n: nat, j: nat)
    requires PathIn(t, q) && At(t, q).Leaf? && At(t, q).exts != []
    requires Sorted(Exts(t)) && Insertable(Exts(t), e) && IsPick(Starts(At(t, q).exts), e.block, n)
    requires j == if e.block > At(t, q).exts[n].block then n + 1 else n
    requires LeftOf(t, q) != [] ==> At(t, q).exts[0].block <= e.block
    requires RightOf(t, q) != [] ==> e.block < RightOf(t, q)[0].block
    ensures Sorted(LeftOf(t, q) + Inserted(At(t, q).exts, j, e) + RightOf(t, q))
  {
    assert Below(LeftOf(t, q) + At(t, q).exts[..j], e) by {
      LeafSorted(t, q);
      LeftBelow(t, q);
      SlotLeft(LeftOf(t, q), At(t, q).exts, e, n, j);
    }
    SlotRight(At(t, q).exts, RightOf(t, q), e, n, j);
    SlotInRun(t, q, e, j);
  }

  lemma RunEdge(l: seq<Extent>, x: seq<Extent>, r: seq<Extent>)
    requires Sorted(l + x + r) && l != [] && x != []
    ensures l[|l| - 1].block < x[0].block
  {
    var s := l + x + r;
    assert s[|l| - 1] == l[|l| - 1] && s[|l|] == x[0];
    assert ExtentOk(s[|l| - 1]);
  }

  lemma LeftBelow(t: Tree, q: Path)
    requires PathIn(t, q) && At(t, q).Leaf? && Sorted(Exts(t)) && At(t, q).exts != []
    ensures LeftOf(t, q) != [] ==> LeftOf(t, q)[|LeftOf(t, q)| - 1].block <= At(t, q).exts[0].block
  {
    ExtsAt(t, q);
    if LeftOf(t, q) != [] {
      RunEdge(LeftOf(t, q), At(t, q).exts, RightOf(t, q));
    }
  }

  lemma SlotLeft(left: seq<Extent>, x: seq<Extent>, e: Extent, n: nat, j: nat)
    requires Sorted(x) && x != [] && IsPick(Starts(x), e.block, n)
    requires j == if e.block > x[n].block then n + 1 else n
    requires left != [] ==> left[|left| - 1].block <= x[0].block <= e.block
    ensures Below(left + x[..j], e)
  {
    var l := left + x[..j];
    if j > 0 {
      assert l[|l| - 1] == x[j - 1];
      assert n > 0 ==> Starts(x)[n] <= e.block;
      assert ExtentOk(x[j - 1]);
    } else {
      assert l == left;
    }
  }

  lemma SlotRight(x: seq<Extent>, right: seq<Extent>, e: Extent, n: nat, j: nat)
    requires x != [] && IsPick(Starts(x), e.block, n)
    requires j == if e.block > x[n].block then n + 1 else n
    requires right != [] ==> e.block < right[0].block
    ensures Above(e, x[j..] + right)
  {
    var r := x[j..] + right;
    if j < |x| {
      assert r[0] == x[j];
      assert j > n ==> e.block < Starts(x)[j];
    } else {
      assert r == right;
    }
  }

  lemma ReadySlotted(t: Tree, q: Path, cap: nat, e: Extent)
    requires Shape(t) && Searchable(t) && Ready(t, e, cap) && q == FindPath(t, e.block) && Insertable(Exts(t), e)
    ensures PathIn(t, q) && At(t, q).Leaf?
    ensures LeafCursor(At(t, q).exts, e.block).Slot? ==> LeafCursor(At(t, q).exts, e.block).i < |At(t, q).exts|
    ensures SlotFor(At(t, q).exts, LeafCursor(At(t, q).exts, e.block), e) >= 0
    ensures Slotted(t, q, cap, e, SlotFor(At(t, q).exts, LeafCursor(At(t, q).exts, e.block), e))
  {
    FindPathIn(t, e.block);
    if WellFormed(t, cap) {
      SearchSlotted(t, q, cap, e);
    }
  }

  /** The front of the next leaf is a fitting slot for an extent beyond all of this leaf. */
  lemma NextSlotted(t: Tree, q: Path, cap: nat, e: Extent)
    requires WellFormed(t, cap) && t.Index? && Searchable(t) && q == FindPath(t, e.block) && Insertable(Exts(t), e)
    requires PathIn(t, q) && At(t, q).Leaf? && At(t, q).exts != []
    requires At(t, q).exts[|At(t, q).exts| - 1].block < e.block && RightOf(t, q) != []
    ensures var q2 := FindPath(t, RightOf(t, q)[0].block);
      && PathIn(t, q2) && At(t, q2).Leaf? && At(t, q2).exts != [] && q2 != q
      && LeafCursor(At(t, q2).exts, RightOf(t, q)[0].block) == Slot(0)
      && SlotFor(At(t, q2).exts, Slot(0), e) == 0
      && (|At(t, q2).exts| < At(t, q2).max ==> Slotted(t, q2, cap, e, 0))
  {
    var q2 := FindPath(t, RightOf(t, q)[0].block);
    NextLeafFound(t, q, cap);
    FindRight(t, e.block);
    var l, x := LeftOf(t, q2) + At(t, q2).exts[..0], At(t, q).exts;
    assert l == LeftOf(t, q) + x && l[|l| - 1] == x[|x| - 1];
    assert (At(t, q2).exts[0..] + RightOf(t, q2))[0] == At(t, q2).exts[0];
    SlotInRun(t, q2, e, 0);
  }

  // ----- the steps of ext4_ext_insert_extent --------------------------------------------

  lemma AddData(b: multiset<nat>, d: multiset<nat>, f: multiset<nat>, e: multiset<nat>)
    ensures b + (d + e) + f == b + d + f + e
  {
  }

  /** Store the leaf with e in slot j. */
  method StoreInserted(inode: Inode, path: seq<Step>, x: seq<Extent>, j: nat, e: Extent, ghost q: Path)
    requires inode.Stored() && NoDup(Blocks(inode.t)) && Walks(inode.t, q, path) && At(inode.t, q).Leaf?
    requires x == At(inode.t, q).exts && Slotted(inode.t, q, inode.cap, e, j)
    modifies inode`root, inode`disk, inode`t
    ensures inode.Stored() && inode.t == Update(old(inode.t), q, Leaf(At(old(inode.t), q).max, Inserted(x, j, e)))
    ensures Nearly(inode.t, q, inode.cap) && j < |At(inode.t, q).exts| && Walks(inode.t, q, path)
    ensures Corrigible(inode.t, q, Slot(j)) && Exts(inode.t) == InsertSorted(Exts(old(inode.t)), e)
    ensures inode.Contents() == old(inode.Contents()) + MapOf(e)
    ensures inode.Universe() == old(inode.Universe()) + DataOf(e)
  {
    SlotInsert(inode.t, q, inode.cap, e, j);
    AddData(Blocks(inode.t), Data(Exts(inode.t)), multiset(inode.free), DataOf(e));
    StoreLeaf(inode, path, Inserted(x, j, e), q);
  }

  /** Shift the tail of the leaf and store the extent; p_ext then stands on it. */
  method InsertAtSlot(inode: Inode, path: seq<Step>, e: Extent, ghost q: Path) returns (path': seq<Step>, j: nat)
    requires inode.Stored() && NoDup(Blocks(inode.t)) && Walks(inode.t, q, path) && At(inode.t, q).Leaf?
    requires path[|q|].pos.Slot? ==> 0 <= path[|q|].pos.i < |At(inode.t, q).exts|
    requires var j := SlotFor(At(inode.t, q).exts, path[|q|].pos, e); j >= 0 && Slotted(inode.t, q, inode.cap, e, j)
    modifies inode`root, inode`disk, inode`t
    ensures inode.Stored() && j == SlotFor(At(old(inode.t), q).exts, path[|q|].pos, e)
    ensures inode.t == Update(old(inode.t), q, Leaf(At(old(inode.t), q).max, Inserted(At(old(inode.t), q).exts, j, e)))
    ensures Nearly(inode.t, q, inode.cap) && j < |At(inode.t, q).exts| && Walks(inode.t, q, path')
    ensures path' == path[|q| := path[|q|].(pos := Slot(j))] && Corrigible(inode.t, q, Slot(j))
    ensures Exts(inode.t) == InsertSorted(Exts(old(inode.t)), e)
    ensures inode.Contents() == old(inode.Contents()) + MapOf(e)
    ensures inode.Universe() == old(inode.Universe()) + DataOf(e)
  {
    var depth := |path| - 1;
    var leaf := ReadLeaf(inode, path, q);
    var nearex := path[depth].pos;
    j := if nearex.Null? then 0 else if e.block > leaf.exts[nearex.i].block then nearex.i + 1 else nearex.i;
    StoreInserted(inode, path, leaf.exts, j, e, q);
    path' := path[depth := path[depth].(pos := Slot(j))];
    MovedCursor(inode.t, q, path, Slot(j));
  }

  lemma MovedCursor(t: Tree, q: Path, path: seq<Step>, pos: Cursor)
    requires Shape(t) && Walks(t, q, path)
    ensures Walks(t, q, path[|q| := path[|q|].(pos := pos)])
  {
    var path' := path[|q| := path[|q|].(pos := pos)];
    forall k | 0 <= k <= |q| ensures StepOk(t, q, path', k) {
      assert StepOk(t, q, path, k);
    }
  }

  lemma NearlyCorrected(t: Tree, t': Tree, q: Path, cap: nat)
    requires Nearly(t, q, cap) && SameButKeys(t, t') && Shape(t') && Tight(t')
    ensures WellFormed(t', cap) && Exts(t') == Exts(t) && Blocks(t') == Blocks(t)
  {
    SameExts(t, t');
    SameStructure(t, t', cap);
  }

  /** Correct the indexes above a changed leaf; the tree is whole again. */
  method CorrectAbove(inode: Inode, path: seq<Step>, ghost q: Path) returns (err: Status)
    requires inode.Stored() && Clean(inode.Universe()) && inode.cap > ROOT_CAP
    requires Nearly(inode.t, q, inode.cap) && Walks(inode.t, q, path) && At(inode.t, q).exts != []
    requires Corrigible(inode.t, q, path[|q|].pos)
    modifies inode`root, inode`disk, inode`t
    ensures err == Ok && inode.Valid()
    ensures inode.Contents() == old(inode.Contents()) && inode.Universe() == old(inode.Universe())
    ensures SameButKeys(old(inode.t), inode.t)
  {
    ghost var t := inode.t;
    CleanBlocks(inode);
    TightOrBut(t, q, path[|q|].pos);
    err := CorrectIndexes(inode, path, q);
    NearlyCorrected(t, inode.t, q, inode.cap);
  }

  /** The common tail: merge with the neighbours, then correct the indexes above. */
  method FinishInsert(inode: Inode, path: seq<Step>, j: nat, preIO: bool, room: bool, ghost q: Path)
    returns (err: Status, path': seq<Step>, ghost q': Path)
    requires inode.Stored() && Clean(inode.Universe()) && inode.cap > ROOT_CAP
    requires Nearly(inode.t, q, inode.cap) && Walks(inode.t, q, path) && j < |At(inode.t, q).exts|
    requires Corrigible(inode.t, q, path[|q|].pos)
    modifies inode`root, inode`disk, inode`free, inode`t
    ensures err == Ok && inode.Valid()
    ensures inode.Contents() == old(inode.Contents()) && inode.Universe() == old(inode.Universe())
    ensures Walks(inode.t, q', path') && At(inode.t, q').Leaf?
    ensures preIO ==> SameButKeys(old(inode.t), inode.t) && q' == q && path' == path && inode.free == old(inode.free)
    ensures Shrinks(Exts(old(inode.t)), Exts(inode.t), !preIO && Mergeable(At(old(inode.t), q).exts, j))
  {
    path', q' := path, q;
    if !preIO {
      path', q' := TryToMerge(inode, path, j, room, q);
    }
    ghost var t := inode.t;
    err := CorrectAbove(inode, path', q');
    SameAt(t, inode.t, q');
    SameExts(t, inode.t);
    SameWalks(t, inode.t, q', path');
  }

  lemma TightOrBut(t: Tree, q: Path, pos: Cursor)
    requires Shape(t) && PathIn(t, q) && TightBut(t, q) && Corrigible(t, q, pos)
    ensures if pos == Slot(0) then TightBut(t, q) else Tight(t)
  {
  }

  // ----- merging with the found extent --------------------------------------------------

  ghost predicate Fused(x: seq<Extent>, k: nat, e: Extent, m: Extent) {
    && k < |x|
    && ((CanMerge(x[k], e) && m == Merged(x[k], e)) || (CanMerge(e, x[k]) && m == Merged(e, x[k])))
  }

  lemma FuseRun(l: seq<Extent>, a: Extent, e: Extent, r: seq<Extent>, m: Extent)
    requires Sorted(l + [a] + r) && Insertable(l + [a] + r, e)
    requires (CanMerge(a, e) && m == Merged(a, e)) || (CanMerge(e, a) && m == Merged(e, a))
    ensures Sorted(l + [m] + r)
    ensures LMap(l + [m] + r) == LMap(l + [a] + r) + MapOf(e)
    ensures Data(l + [m] + r) == Data(l + [a] + r) + DataOf(e)
  {
    if CanMerge(a, e) && m == Merged(a, e) {
      AppendInto(l, a, e, r);
      AppendData(l, a, e, r);
    } else {
      PrependTo(l, e, a, r);
      PrependData(l, e, a, r);
    }
  }

  /** Fusing e into entry k of the leaf adds exactly e. */
  lemma FuseLeaf(t: Tree, q: Path, cap: nat, k: nat, e: Extent, m: Extent)
    requires WellFormed(t, cap) && PathIn(t, q) && At(t, q).Leaf? && Insertable(Exts(t), e)
    requires Fused(At(t, q).exts, k, e, m)
    ensures var x := At(t, q).exts;
      var t' := Update(t, q, Leaf(At(t, q).max, x[k := m]));
      && Nearly(t', q, cap) && At(t', q).exts == x[k := m] && Blocks(t') == Blocks(t) && |Exts(t')| == |Exts(t)|
      && LMap(Exts(t')) == LMap(Exts(t)) + MapOf(e)
      && Data(Exts(t')) == Data(Exts(t)) + DataOf(e)
      && (k > 0 || m.block == x[0].block ==> Tight(t'))
  {
    var x := At(t, q).exts;
    var l, r := LeftOf(t, q) + x[..k], x[k + 1..] + RightOf(t, q);
    ExtsAt(t, q);
    assert x == x[..k] + [x[k]] + x[k + 1..];
    assert x[k := m] == x[..k] + [m] + x[k + 1..];
    InsertOrder(LeftOf(t, q), x[..k], [x[k]], x[k + 1..], RightOf(t, q));
    InsertOrder(LeftOf(t, q), x[..k], [m], x[k + 1..], RightOf(t, q));
    FuseRun(l, x[k], e, r, m);
    WellFormedNearly(t, q, cap);
    LeafCapacity(t, q, cap);
    LeafRewrite(t, q, cap, x[k := m]);
  }

  /** The extent found at ex can absorb e, or the one right of it if the found one ends before e. */
  ghost predicate Absorbs(x: seq<Extent>, ex: nat, e: Extent)
    requires ex < |x|
  {
    if ex + 1 < |x| && End(x[ex]) < e.block then CanMerge(e, x[ex + 1])
    else CanMerge(x[ex], e) || CanMerge(e, x[ex])
  }

  /**
   Which extent to try, and whether it can absorb e: the one found, or the one right of it
   when the found one ends before e. (After a search for e the found extent never starts
   beyond e unless it is the first, so the source's step to the left cannot happen.)
   */
  method ChooseMerge(x: seq<Extent>, ex: nat, e: Extent) returns (merged: bool, k: nat, m: Extent)
    requires ex < |x|
    ensures merged <==> Absorbs(x, ex, e)
    ensures merged ==> Fused(x, k, e, m) && (k == ex || k == ex + 1)
    ensures merged && k == 0 && m.block != x[0].block ==> ex == 0
  {
    merged, k, m := false, ex, e;
    if ex < |x| - 1 && End(x[ex]) < e.block {
      k := ex + 1;
    } else if CanMerge(x[k], e) {
      return true, k, Extent(x[k].block, Len(x[k]) + Len(e), x[k].pblk);
    }
    if CanMerge(e, x[k]) {
      return true, k, Extent(e.block, Len(e) + Len(x[k]), e.pblk);
    }
  }

  /** Store the leaf with slot k enlarged by e. */
  method StoreFused(inode: Inode, path: seq<Step>, x: seq<Extent>, k: nat, m: Extent, ghost e: Extent, ghost q: Path)
    requires inode.Valid() && Walks(inode.t, q, path) && At(inode.t, q).Leaf? && Insertable(Exts(inode.t), e)
    requires x == At(inode.t, q).exts && Fused(x, k, e, m) && path[|q|].pos.Slot?
    requires k > 0 || m.block == x[0].block || path[|q|].pos == Slot(0)
    modifies inode`root, inode`disk, inode`t
    ensures inode.Stored() && Walks(inode.t, q, path) && Nearly(inode.t, q, inode.cap) && k < |At(inode.t, q).exts|
    ensures Corrigible(inode.t, q, path[|q|].pos) && |Exts(inode.t)| == |Exts(old(inode.t))|
    ensures inode.Contents() == old(inode.Contents()) + MapOf(e)
    ensures inode.Universe() == old(inode.Universe()) + DataOf(e)
  {
    CleanBlocks(inode);
    FuseLeaf(inode.t, q, inode.cap, k, e, m);
    AddData(Blocks(inode.t), Data(Exts(inode.t)), multiset(inode.free), DataOf(e));
    StoreLeaf(inode, path, x[k := m], q);
  }

  /** Merge e into the extent the search found (or the one right of it), if that can be done. */
  method MergeWithFound(inode: Inode, path: seq<Step>, e: Extent, ghost q: Path) returns (merged: bool, k: nat)
    requires inode.Valid() && Walks(inode.t, q, path) && At(inode.t, q).Leaf? && Insertable(Exts(inode.t), e)
    requires path[|q|].pos.Slot? && 0 <= path[|q|].pos.i < |At(inode.t, q).exts|
    modifies inode`root, inode`disk, inode`t
    ensures inode.Stored() && Walks(inode.t, q, path)
    ensures merged <==> Absorbs(old(At(inode.t, q).exts), path[|q|].pos.i, e)
    ensures !merged ==> inode.t == old(inode.t)
    ensures merged ==>
      && Nearly(inode.t, q, inode.cap) && k < |At(inode.t, q).exts| && Corrigible(inode.t, q, path[|q|].pos)
      && |Exts(inode.t)| == |Exts(old(inode.t))|
      && inode.Contents() == old(inode.Contents()) + MapOf(e)
      && inode.Universe() == old(inode.Universe()) + DataOf(e)
  {
    var leaf := ReadLeaf(inode, path, q);
    var m;
    merged, k, m := ChooseMerge(leaf.exts, path[|path| - 1].pos.i, e);
    if merged {
      StoreFused(inode, path, leaf.exts, k, m, e, q);
    }
  }


  // ----- the caller's path ---------------------------------------------------------------

  /** Changing one leaf leaves every path array to every leaf valid. */
  lemma {:induction false} LeafUpdateAt(t: Tree, q2: Path, s: Tree, p: Path)
    requires Shape(t) && PathIn(t, q2) && At(t, q2).Leaf? && s.Leaf? && PathIn(t, p)
    ensures Shape(Update(t, q2, s)) && PathIn(Update(t, q2, s), p)
    ensures p != [] ==> BlockAt(Update(t, q2, s), p) == BlockAt(t, p)
    ensures At(t, p).Leaf? && p != q2 ==> At(Update(t, q2, s), p) == At(t, p)
  {
    AtShape(t, q2);
    UpdateShape(t, q2, s);
    if p != [] && q2 != [] && p[0] == q2[0] {
      LeafUpdateAt(t.kids[p[0]], q2[1..], s, p[1..]);
    }
  }

  lemma LeafUpdateWalks(t: Tree, q2: Path, s: Tree, q: Path, path: seq<Step>)
    requires Shape(t) && PathIn(t, q2) && At(t, q2).Leaf? && s.Leaf? && Walks(t, q, path)
    ensures Shape(Update(t, q2, s)) && Walks(Update(t, q2, s), q, path)
    ensures BlocksOk(t, q, path) ==> BlocksOk(Update(t, q2, s), q, path)
  {
    var t' := Update(t, q2, s);
    LeafUpdateAt(t, q2, s, q);
    forall k | 0 <= k <= |q| ensures StepOk(t', q, path, k) {
      assert StepOk(t, q, path, k);
      LeafUpdateAt(t, q2, s, q[..k]);
    }
    if BlocksOk(t, q, path) {
      forall k | 0 <= k < |q| ensures BlockOk(t', q, path, k) {
        assert BlockOk(t, q, path, k);
        LeafUpdateAt(t, q2, s, q[..k + 1]);
      }
    }
  }

  lemma SameBlocksOk(t: Tree, u: Tree, q: Path, path: seq<Step>)
    requires SameButKeys(t, u) && Shape(t) && Shape(u) && Walks(t, q, path) && BlocksOk(t, q, path)
    ensures BlocksOk(u, q, path)
  {
    forall k | 0 <= k < |q| ensures BlockOk(u, q, path, k) {
      assert BlockOk(t, q, path, k);
      SameAt(t, u, q[..k + 1]);
    }
  }

  /** Nothing right of the leaf at q starts below b, nothing left of it at b or beyond. */
  ghost predicate RightFrom(t: Tree, q: Path, b: nat) {
    && PathIn(t, q)
    && (RightOf(t, q) != [] ==> b <= RightOf(t, q)[0].block)
    && (LeftOf(t, q) != [] ==> LeftOf(t, q)[|LeftOf(t, q)| - 1].block < b)
  }

  lemma RightOfOwner(t: Tree, q: Path, e: Extent)
    requires PathIn(t, q) && At(t, q).Leaf? && e in At(t, q).exts && Sorted(Exts(t))
    ensures RightFrom(t, q, e.block)
  {
    ExtsAt(t, q);
    var l, x, r := LeftOf(t, q), At(t, q).exts, RightOf(t, q);
    if r != [] {
      SortedPair(l + x, r, e, r[0]);
    }
    if l != [] {
      SortedParts(l + x, r);
      SortedPair(l, x, l[|l| - 1], e);
    }
  }

  /** e went into the next leaf: it is the first extent right of the old one. */
  lemma RightOfFront(t: Tree, q: Path, l: seq<Extent>, e: Extent, r: seq<Extent>)
    requires PathIn(t, q) && At(t, q).Leaf? && At(t, q).exts != [] && Sorted(Exts(t))
    requires Exts(t) == l + [e] + r && l != [] && l[|l| - 1] == At(t, q).exts[|At(t, q).exts| - 1]
    ensures RightFrom(t, q, e.block)
  {
    var a, x, b := LeftOf(t, q), At(t, q).exts, RightOf(t, q);
    assert a + x + b == Exts(t) by {
      ExtsAt(t, q);
    }
    FrontSides(a, x, b, l, e, r);
  }

  /** The run a + x + b seen as l + [e] + r, where l ends like x. */
  lemma FrontSides(a: seq<Extent>, x: seq<Extent>, b: seq<Extent>, l: seq<Extent>, e: Extent, r: seq<Extent>)
    requires a + x + b == l + [e] + r && Sorted(a + x + b) && x != [] && l != [] && l[|l| - 1] == x[|x| - 1]
    ensures b != [] ==> e.block <= b[0].block
    ensures a != [] ==> a[|a| - 1].block < e.block
  {
    LastBefore(l, e, r);
    if b != [] {
      SortedPair(a + x, b, x[|x| - 1], b[0]);
      NotBefore(l, e, r, b[0]);
    }
    if a != [] {
      SortedParts(a + x, b);
      SortedPair(a, x, a[|a| - 1], x[|x| - 1]);
    }
  }

  lemma LastBefore(l: seq<Extent>, e: Extent, r: seq<Extent>)
    requires Sorted(l + [e] + r) && l != []
    ensures l[|l| - 1].block < e.block
  {
    SortedNext(l, e, r);
  }

  lemma NotBefore(l: seq<Extent>, e: Extent, r: seq<Extent>, f: Extent)
    requires Sorted(l + [e] + r) && f in l + [e] + r && l != [] && l[|l| - 1].block < f.block
    ensures e.block <= f.block
  {
    SortedParts(l + [e], r);
    SortedParts(l, [e]);
    if f in l {
      LastMost(l, f);
    } else if f in r {
      SortedPair(l + [e], r, e, f);
    }
  }

  lemma LastMost(l: seq<Extent>, f: Extent)
    requires Sorted(l) && f in l
    ensures f.block <= l[|l| - 1].block
  {
    var i :| 0 <= i < |l| && l[i] == f;
    assert ExtentOk(l[i]);
  }

  // ----- ext4_ext_insert_extent -------------------------------------------------------------

  lemma CleanUpdate(a: multiset<nat>, b: multiset<nat>)
    requires Clean(a + b)
    ensures Clean(a)
  {
    forall x ensures a[x] <= 1 {
      assert (a + b)[x] <= 1;
    }
    forall x | x in a ensures x > ROOT_CAP {
      assert x in a + b;
    }
  }

  /** Leaf b is leaf a with e put in. */
  ghost predicate OneLonger(a: Tree, b: Tree, e: Extent) {
    && a.Leaf? && b.Leaf? && b.max == a.max && |b.exts| == |a.exts| + 1
    && e in b.exts && forall f :: f in a.exts ==> f in b.exts
  }

  lemma InsertedLonger(x: seq<Extent>, j: nat, e: Extent, max: nat)
    requires j <= |x|
    ensures OneLonger(Leaf(max, x), Leaf(max, Inserted(x, j, e)), e)
  {
    assert x == x[..j] + x[j..];
    assert Inserted(x, j, e)[j] == e;
  }

  /** The levels above a leaf that was rewritten are filled as before. */
  lemma InsertCost(t0: Tree, t1: Tree, t: Tree, q: Path, s: Tree)
    requires Shape(t0) && PathIn(t0, q) && At(t0, q).Leaf? && s.Leaf? && t1 == Update(t0, q, s) && SameButKeys(t1, t)
    ensures NewNodes(t, q, |q|) == NewNodes(t0, q, |q|)
  {
    AtShape(t0, q);
    forall i | 0 <= i < |q| ensures LikeAt(t0, t, q, i) {
      UpdatePrefix(t0, q, s, i);
      SameAt(t1, t, q[..i]);
      SameStructure(At(t1, q[..i]), At(t, q[..i]), 0);
    }
    SameCost(t0, t, q, |q|);
  }

  /** After an insertion without merging the caller's path still walks to the extent. */
  ghost predicate PlacedAt(t0: Tree, t: Tree, q: Path, path: seq<Step>, path': seq<Step>, e: Extent)
    requires Shape(t0) && Shape(t)
  {
    && Exts(t) == InsertSorted(Exts(t0), e)
    && RightFrom(t, q, e.block)
    && (BlocksOk(t0, q, path) ==> BlocksOk(t, q, path'))
  }

  lemma InsertHereDone(t0: Tree, t1: Tree, t: Tree, q: Path, path: seq<Step>, path1: seq<Step>, e: Extent, j: nat)
    requires Shape(t0) && PathIn(t0, q) && At(t0, q).Leaf? && j <= |At(t0, q).exts| && Walks(t0, q, path)
    requires t1 == Update(t0, q, Leaf(At(t0, q).max, Inserted(At(t0, q).exts, j, e))) && Shape(t1)
    requires Exts(t1) == InsertSorted(Exts(t0), e) && Sorted(Exts(t1)) && Walks(t1, q, path1)
    requires path1 == path[|q| := path[|q|].(pos := Slot(j))]
    requires SameButKeys(t1, t) && Shape(t)
    ensures PlacedAt(t0, t, q, path, path1, e) && PathIn(t, q) && OneLonger(At(t0, q), At(t, q), e)
    ensures NewNodes(t, q, |q|) == NewNodes(t0, q, |q|)
  {
    InsertCost(t0, t1, t, q, Leaf(At(t0, q).max, Inserted(At(t0, q).exts, j, e)));
    InsertedLonger(At(t0, q).exts, j, e, At(t0, q).max);
    var s := Leaf(At(t0, q).max, Inserted(At(t0, q).exts, j, e));
    LeafUpdateWalks(t0, q, s, q, path);
    SameExts(t1, t);
    OwnsInserted(t0, t1, t, q, s, e, j);
    RightOfOwner(t, q, e);
    if BlocksOk(t0, q, path) {
      CursorBlocksOk(t1, q, path, path1);
      SameBlocksOk(t1, t, q, path1);
    }
  }

  lemma OwnsInserted(t0: Tree, t1: Tree, t: Tree, q: Path, s: Tree, e: Extent, j: nat)
    requires PathIn(t0, q) && At(t0, q).Leaf? && j <= |At(t0, q).exts| && t1 == Update(t0, q, s)
    requires s == Leaf(At(t0, q).max, Inserted(At(t0, q).exts, j, e)) && SameButKeys(t1, t)
    ensures PathIn(t, q) && At(t, q) == s && e in At(t, q).exts
  {
    UpdateAt(t0, q, s);
    SameAt(t1, t, q);
    assert s.exts[j] == e;
  }

  /** A free slot at hand: store the extent there and finish. */
  method InsertHere(inode: Inode, path: seq<Step>, e: Extent, preIO: bool, room: bool, ghost q: Path)
    returns (err: Status, path': seq<Step>, ghost q': Path)
    requires inode.Stored() && Clean(inode.Universe() + DataOf(e)) && inode.cap > ROOT_CAP
    requires Walks(inode.t, q, path) && At(inode.t, q).Leaf?
    requires path[|q|].pos.Slot? ==> 0 <= path[|q|].pos.i < |At(inode.t, q).exts|
    requires var j := SlotFor(At(inode.t, q).exts, path[|q|].pos, e); j >= 0 && Slotted(inode.t, q, inode.cap, e, j)
    modifies inode`root, inode`disk, inode`free, inode`t
    ensures err == Ok && inode.Valid()
    ensures inode.Contents() == old(inode.Contents()) + MapOf(e)
    ensures inode.Universe() == old(inode.Universe()) + DataOf(e)
    ensures Walks(inode.t, q', path') && At(inode.t, q').Leaf?
    ensures preIO ==> q' == q && PlacedAt(old(inode.t), inode.t, q, path, path', e)
    ensures preIO ==> OneLonger(At(old(inode.t), q), At(inode.t, q), e) && inode.free == old(inode.free)
    ensures preIO ==> NewNodes(inode.t, q, |q|) == NewNodes(old(inode.t), q, |q|)
  {
    ghost var t0 := inode.t;
    CleanUpdate(inode.Universe(), DataOf(e));
    CleanBlocks(inode);
    var path1, j := InsertAtSlot(inode, path, e, q);
    ghost var t1 := inode.t;
    err, path', q' := FinishInsert(inode, path1, j, preIO, room, q);
    if preIO {
      InsertHereDone(t0, t1, inode.t, q, path, path1, e, j);
    }
  }

  lemma CursorBlocksOk(t: Tree, q: Path, path: seq<Step>, path': seq<Step>)
    requires Shape(t) && |path| == |q| + 1 && BlocksOk(t, q, path)
    requires |path'| == |path| && forall k :: 0 <= k < |q| ==> path'[k] == path[k]
    ensures BlocksOk(t, q, path')
  {
    forall k | 0 <= k < |q| ensures BlockOk(t, q, path', k) {
      assert BlockOk(t, q, path, k);
    }
  }

  lemma InsertNextRight(t0: Tree, t1: Tree, t: Tree, q: Path, q2: Path, e: Extent)
    requires Shape(t0) && PathIn(t0, q) && At(t0, q).Leaf? && At(t0, q).exts != []
    requires PathIn(t0, q2) && At(t0, q2).Leaf? && q2 != q && LeftOf(t0, q2) == LeftOf(t0, q) + At(t0, q).exts
    requires t1 == Update(t0, q2, Leaf(At(t0, q2).max, Inserted(At(t0, q2).exts, 0, e)))
    requires Sorted(Exts(t1)) && SameButKeys(t1, t)
    ensures RightFrom(t, q, e.block)
  {
    var x2 := At(t0, q2).exts;
    LeafKept(t0, q2, Leaf(At(t0, q2).max, Inserted(x2, 0, e)), t1, t, q);
    SameExts(t1, t);
    LeafContent(t0, q2, Inserted(x2, 0, e));
    var l := LeftOf(t0, q) + At(t0, q).exts;
    assert Inserted(x2, 0, e) == [e] + x2;
    FrontOrder(l, e, x2, RightOf(t0, q2));
    RightOfFront(t, q, l, e, x2 + RightOf(t0, q2));
  }

  lemma InsertNextDone(t0: Tree, t1: Tree, t: Tree, q: Path, q2: Path, path: seq<Step>, e: Extent)
    requires Shape(t0) && Walks(t0, q, path) && At(t0, q).Leaf? && At(t0, q).exts != []
    requires PathIn(t0, q2) && At(t0, q2).Leaf? && q2 != q && LeftOf(t0, q2) == LeftOf(t0, q) + At(t0, q).exts
    requires t1 == Update(t0, q2, Leaf(At(t0, q2).max, Inserted(At(t0, q2).exts, 0, e))) && Shape(t1)
    requires Exts(t1) == InsertSorted(Exts(t0), e) && Sorted(Exts(t1))
    requires SameButKeys(t1, t) && Shape(t)
    ensures Walks(t, q, path) && PlacedAt(t0, t, q, path, path, e)
  {
    InsertNextRight(t0, t1, t, q, q2, e);
    LeafUpdateWalks(t0, q2, Leaf(At(t0, q2).max, Inserted(At(t0, q2).exts, 0, e)), q, path);
    SameExts(t1, t);
    SameWalks(t1, t, q, path);
    if BlocksOk(t0, q, path) {
      SameBlocksOk(t1, t, q, path);
    }
  }

  lemma FrontOrder(l: seq<Extent>, e: Extent, x: seq<Extent>, r: seq<Extent>)
    ensures l + ([e] + x) + r == l + [e] + (x + r)
  {
  }

  /** The next leaf has room: the extent becomes its first one. */
  method InsertNext(inode: Inode, path: seq<Step>, npath: seq<Step>, e: Extent, preIO: bool, room: bool,
                    ghost q: Path, ghost q2: Path)
    returns (err: Status)
    requires inode.Stored() && Clean(inode.Universe() + DataOf(e)) && inode.cap > ROOT_CAP
    requires Walks(inode.t, q, path) && At(inode.t, q).Leaf? && At(inode.t, q).exts != []
    requires Walks(inode.t, q2, npath) && At(inode.t, q2).Leaf? && At(inode.t, q2).exts != [] && q2 != q
    requires LeftOf(inode.t, q2) == LeftOf(inode.t, q) + At(inode.t, q).exts
    requires npath[|q2|].pos == Slot(0) && SlotFor(At(inode.t, q2).exts, Slot(0), e) == 0
    requires Slotted(inode.t, q2, inode.cap, e, 0)
    modifies inode`root, inode`disk, inode`free, inode`t
    ensures err == Ok && inode.Valid()
    ensures inode.Contents() == old(inode.Contents()) + MapOf(e)
    ensures inode.Universe() == old(inode.Universe()) + DataOf(e)
    ensures preIO ==>
      Walks(inode.t, q, path) && At(inode.t, q).Leaf? && PlacedAt(old(inode.t), inode.t, q, path, path, e)
  {
    ghost var t0 := inode.t;
    CleanUpdate(inode.Universe(), DataOf(e));
    CleanBlocks(inode);
    var path1, j := InsertAtSlot(inode, npath, e, q2);
    ghost var t1 := inode.t;
    var path2;
    ghost var q3;
    err, path2, q3 := FinishInsert(inode, path1, j, preIO, room, q2);
    if preIO {
      InsertNextDone(t0, t1, inode.t, q, q2, path, e);
      LeafKept(t0, q2, Leaf(At(t0, q2).max, Inserted(At(t0, q2).exts, 0, e)), t1, inode.t, q);
    }
  }

  lemma LeafKept(t0: Tree, q2: Path, s: Tree, t1: Tree, t: Tree, q: Path)
    requires Shape(t0) && PathIn(t0, q2) && At(t0, q2).Leaf? && s.Leaf? && t1 == Update(t0, q2, s)
    requires PathIn(t0, q) && At(t0, q).Leaf? && q != q2 && SameButKeys(t1, t)
    ensures PathIn(t, q) && At(t, q) == At(t0, q)
  {
    LeafUpdateAt(t0, q2, s, q);
    SameAt(t1, t, q);
  }

  // ----- where a new extent can go ----------------------------------------------------------

  /** The leaf the search for b ends at has a free slot. */
  ghost predicate HasSlot(t: Tree, b: nat)
    requires Shape(t) && Searchable(t)
  {
    var q := FindPath(t, b);
    PathIn(t, q) && At(t, q).Leaf? && |At(t, q).exts| < At(t, q).max
  }

  /** b lies behind the leaf its search ends at, and the next leaf has a free slot. */
  ghost predicate NextHasSlot(t: Tree, b: nat)
    requires Shape(t) && Searchable(t)
  {
    var q := FindPath(t, b);
    && PathIn(t, q) && At(t, q).Leaf? && At(t, q).exts != [] && At(t, q).exts[|At(t, q).exts| - 1].block < b
    && RightOf(t, q) != [] && HasSlot(t, RightOf(t, q)[0].block)
  }

  /** There is a place for an extent starting at b: a free slot, or a new leaf if `pool` blocks can be had. */
  ghost predicate Placeable(t: Tree, b: nat, pool: nat)
    requires Shape(t) && Searchable(t)
  {
    HasSlot(t, b) || NextHasSlot(t, b) || LeafCost(t, b) <= pool
  }

  /** The leaf found for b, at q, has taken e; the levels above it are filled as before. */
  ghost predicate TakenBy(t0: Tree, t: Tree, b: nat, q: Path, e: Extent)
    requires Shape(t0) && Searchable(t0)
  {
    && q == FindPath(t0, b) && PathIn(t0, q) && PathIn(t, q) && OneLonger(At(t0, q), At(t, q), e)
    && NewNodes(t, q, |q|) == LeafCost(t0, b)
  }

  /** The leaf found holds an extent that can absorb e. */
  ghost predicate Joins(t: Tree, e: Extent)
    requires Shape(t) && Searchable(t)
  {
    var q := FindPath(t, e.block);
    && PathIn(t, q) && At(t, q).Leaf? && Scan(Starts(At(t, q).exts), e.block) < |At(t, q).exts|
    && Absorbs(At(t, q).exts, Scan(Starts(At(t, q).exts), e.block), e)
  }

  /** The free slot the code looks for when the found leaf is full: front of the next leaf. */
  method TryNextLeaf(inode: Inode, path: seq<Step>, e: Extent, ghost q: Path)
    returns (found: bool, npath: seq<Step>, ghost q2: Path)
    requires inode.Valid() && Searchable(inode.t) && SearchPath(inode.t, e.block, path) && Insertable(Exts(inode.t), e)
    requires q == FindPath(inode.t, e.block) && PathIn(inode.t, q) && At(inode.t, q).Leaf? && At(inode.t, q).exts != []
    ensures found <==> NextHasSlot(inode.t, e.block)
    ensures found ==>
      && Walks(inode.t, q2, npath) && At(inode.t, q2).Leaf? && At(inode.t, q2).exts != [] && q2 != q
      && LeftOf(inode.t, q2) == LeftOf(inode.t, q) + At(inode.t, q).exts
      && npath[|q2|].pos == Slot(0) && SlotFor(At(inode.t, q2).exts, Slot(0), e) == 0
      && Slotted(inode.t, q2, inode.cap, e, 0)
  {
    found, npath, q2 := false, path, q;
    ghost var t := inode.t;
    var leaf := ReadLeaf(inode, path, q);
    var next := EXT_MAX_BLOCKS;
    if e.block > leaf.exts[|leaf.exts| - 1].block {
      next := NextLeafBlock(inode, path, q);
    }
    NextExists(t, q);
    if next == EXT_MAX_BLOCKS {
      return;
    }
    assert t.Index?;
    NextSlotted(t, q, inode.cap, e);
    NextLeft(t, q, inode.cap);
    npath := inode.FindExtent(next);
    q2 := FindPath(t, next);
    var nleaf := ReadLeaf(inode, npath, q2);
    found := |nleaf.exts| < nleaf.max;
  }

  lemma NextLeft(t: Tree, q: Path, cap: nat)
    requires WellFormed(t, cap) && t.Index? && Searchable(t) && PathIn(t, q) && At(t, q).Leaf? && At(t, q).exts != []
    requires RightOf(t, q) != []
    ensures var q2 := FindPath(t, RightOf(t, q)[0].block);
      PathIn(t, q2) && LeftOf(t, q2) == LeftOf(t, q) + At(t, q).exts
  {
    NextLeafFound(t, q, cap);
  }

  lemma NextExists(t: Tree, q: Path)
    requires PathIn(t, q) && Sorted(Exts(t))
    ensures RightOf(t, q) != [] ==> RightOf(t, q)[0].block < EXT_MAX_BLOCKS
  {
    ExtsAt(t, q);
    if RightOf(t, q) != [] {
      SortedParts(LeftOf(t, q) + Exts(At(t, q)), RightOf(t, q));
      assert ExtentOk(RightOf(t, q)[0]);
    }
  }

  /** Merge into a neighbour and finish, if that is possible. */
  method MergeAndFinish(inode: Inode, path: seq<Step>, e: Extent, room: bool, ghost q: Path) returns (merged: bool)
    requires inode.Valid() && Walks(inode.t, q, path) && At(inode.t, q).Leaf? && Insertable(Exts(inode.t), e)
    requires path[|q|].pos.Slot? && 0 <= path[|q|].pos.i < |At(inode.t, q).exts|
    requires Clean(inode.Universe() + DataOf(e))
    modifies inode`root, inode`disk, inode`free, inode`t
    ensures inode.Valid()
    ensures merged <==> Absorbs(old(At(inode.t, q).exts), path[|q|].pos.i, e)
    ensures !merged ==> inode.t == old(inode.t) && inode.free == old(inode.free)
    ensures merged ==>
      && inode.Contents() == old(inode.Contents()) + MapOf(e)
      && inode.Universe() == old(inode.Universe()) + DataOf(e)
      && |Exts(inode.t)| <= |Exts(old(inode.t))|
  {
    var k;
    merged, k := MergeWithFound(inode, path, e, q);
    if merged {
      var err, path';
      ghost var q';
      err, path', q' := FinishInsert(inode, path, k, false, room, q);
    }
  }

  /**
   ext4_ext_insert_extent. With `preIO` (EXT4_GET_BLOCKS_PRE_IO) nothing is merged and the
   file is the old run with e put in at its place; in any case the logical map gains
   exactly the blocks of e, or nothing changes at all. It succeeds exactly if the extent
   found absorbs e, or if there is a place for it.
   */
  method InsertExtent(inode: Inode, path: seq<Step>, e: Extent, preIO: bool, supply: Supply)
    returns (err: Status, path': seq<Step>, ghost q': Path)
    requires inode.Valid() && Searchable(inode.t) && SearchPath(inode.t, e.block, path)
    requires Len(e) > 0 ==> Insertable(Exts(inode.t), e) && Clean(inode.Universe() + DataOf(e))
    modifies inode`root, inode`disk, inode`free, inode`t
    ensures inode.Valid()
    ensures err == Ok || err == ENOSPC || err == EIO
    ensures err == EIO <==> Len(e) == 0
    ensures err == Ok <==>
      Len(e) > 0 && ((!preIO && old(Joins(inode.t, e))) ||
                     old(Placeable(inode.t, e.block, Within(supply.blocks, inode.free))))
    ensures err == Ok ==> inode.Contents() == old(inode.Contents()) + MapOf(e)
    ensures err == Ok ==> inode.Universe() == old(inode.Universe()) + DataOf(e)
    ensures err != Ok ==> Exts(inode.t) == Exts(old(inode.t)) && inode.Universe() == old(inode.Universe())
    ensures Len(e) > 0 && !preIO && old(Joins(inode.t, e)) ==> |Exts(inode.t)| <= |Exts(old(inode.t))|
    ensures err == ENOSPC ==> Searchable(inode.t) && SearchPath(inode.t, e.block, path')
    ensures err == Ok && preIO ==>
      && Exts(inode.t) == InsertSorted(Exts(old(inode.t)), e)
      && Walks(inode.t, q', path') && At(inode.t, q').Leaf? && RightFrom(inode.t, q', e.block)
      && (old(BlocksOk(inode.t, FindPath(inode.t, e.block), path)) ==> BlocksOk(inode.t, q', path'))
      && (old(HasSlot(inode.t, e.block)) ==>
            inode.free == old(inode.free) && TakenBy(old(inode.t), inode.t, e.block, q', e))
  {
    path', q' := path, FindPath(inode.t, e.block);
    if Len(e) == 0 {
      return EIO, path', q';
    }
    if !preIO {
      var merged := MergeIfJoins(inode, path, e, supply.room);
      if merged {
        return Ok, path', q';
      }
    }
    err, path', q' := PlaceExtent(inode, path, e, preIO, supply, q');
  }

  /** The extent found takes e in, if it can. */
  method MergeIfJoins(inode: Inode, path: seq<Step>, e: Extent, room: bool) returns (merged: bool)
    requires inode.Valid() && Searchable(inode.t) && SearchPath(inode.t, e.block, path)
    requires Insertable(Exts(inode.t), e) && Clean(inode.Universe() + DataOf(e))
    modifies inode`root, inode`disk, inode`free, inode`t
    ensures inode.Valid()
    ensures merged <==> old(Joins(inode.t, e))
    ensures !merged ==> inode.t == old(inode.t) && inode.free == old(inode.free)
    ensures merged ==>
      && inode.Contents() == old(inode.Contents()) + MapOf(e)
      && inode.Universe() == old(inode.Universe()) + DataOf(e)
      && |Exts(inode.t)| <= |Exts(old(inode.t))|
  {
    ghost var q := FindPath(inode.t, e.block);
    FindPathIn(inode.t, e.block);
    merged := false;
    if path[|path| - 1].pos.Slot? {
      LeafPick(inode.t, q, e.block);
      merged := MergeAndFinish(inode, path, e, room, q);
    } else {
      assert Starts(At(inode.t, q).exts) == [];
    }
  }

  /** The leaf found takes e if it has a slot. */
  method PlaceExtent(inode: Inode, path: seq<Step>, e: Extent, preIO: bool, supply: Supply, ghost q: Path)
    returns (err: Status, path': seq<Step>, ghost q': Path)
    requires inode.Valid() && Searchable(inode.t) && SearchPath(inode.t, e.block, path)
    requires Insertable(Exts(inode.t), e) && Clean(inode.Universe() + DataOf(e))
    requires q == FindPath(inode.t, e.block)
    modifies inode`root, inode`disk, inode`free, inode`t
    ensures inode.Valid() && (err == Ok || err == ENOSPC)
    ensures err == Ok <==> old(Placeable(inode.t, e.block, Within(supply.blocks, inode.free)))
    ensures err == Ok ==> inode.Contents() == old(inode.Contents()) + MapOf(e)
    ensures err == Ok ==> inode.Universe() == old(inode.Universe()) + DataOf(e)
    ensures err != Ok ==> Exts(inode.t) == Exts(old(inode.t)) && inode.Universe() == old(inode.Universe())
    ensures err == ENOSPC ==> Searchable(inode.t) && SearchPath(inode.t, e.block, path')
    ensures err == Ok && preIO ==>
      && Exts(inode.t) == InsertSorted(Exts(old(inode.t)), e)
      && Walks(inode.t, q', path') && At(inode.t, q').Leaf? && RightFrom(inode.t, q', e.block)
      && (old(BlocksOk(inode.t, q, path)) ==> BlocksOk(inode.t, q', path'))
      && (old(HasSlot(inode.t, e.block)) ==>
            inode.free == old(inode.free) && TakenBy(old(inode.t), inode.t, e.block, q', e))
  {
    FindPathIn(inode.t, e.block);
    var leaf := ReadLeaf(inode, path, q);
    if |leaf.exts| < leaf.max {
      SearchSlotted(inode.t, q, inode.cap, e);
      err, path', q' := InsertHere(inode, path, e, preIO, supply.room, q);
    } else {
      err, path', q' := InsertIntoFull(inode, path, e, preIO, supply, q);
    }
  }

  /** The found leaf is full: use the next one if that has room, else make a new leaf. */
  method InsertIntoFull(inode: Inode, path: seq<Step>, e: Extent, preIO: bool, supply: Supply, ghost q: Path)
    returns (err: Status, path': seq<Step>, ghost q': Path)
    requires inode.Valid() && Searchable(inode.t) && SearchPath(inode.t, e.block, path)
    requires Insertable(Exts(inode.t), e) && Clean(inode.Universe() + DataOf(e))
    requires q == FindPath(inode.t, e.block) && PathIn(inode.t, q) && At(inode.t, q).Leaf?
    requires |At(inode.t, q).exts| >= At(inode.t, q).max
    modifies inode`root, inode`disk, inode`free, inode`t
    ensures inode.Valid() && (err == Ok || err == ENOSPC)
    ensures err == Ok <==>
      old(NextHasSlot(inode.t, e.block) || LeafCost(inode.t, e.block) <= Within(supply.blocks, inode.free))
    ensures err == Ok ==> inode.Contents() == old(inode.Contents()) + MapOf(e)
    ensures err == Ok ==> inode.Universe() == old(inode.Universe()) + DataOf(e)
    ensures err != Ok ==> Exts(inode.t) == Exts(old(inode.t)) && inode.Universe() == old(inode.Universe())
    ensures err == ENOSPC ==> Searchable(inode.t) && SearchPath(inode.t, e.block, path')
    ensures err == Ok && preIO ==>
      && Exts(inode.t) == InsertSorted(Exts(old(inode.t)), e)
      && Walks(inode.t, q', path') && At(inode.t, q').Leaf? && RightFrom(inode.t, q', e.block)
      && (old(BlocksOk(inode.t, q, path)) ==> BlocksOk(inode.t, q', path'))
  {
    path', q' := path, q;
    FullLeaf(inode.t, q, inode.cap);
    var found, npath;
    ghost var q2;
    found, npath, q2 := TryNextLeaf(inode, path, e, q);
    if found {
      err := InsertNext(inode, path, npath, e, preIO, supply.room, q, q2);
    } else {
      err, path', q' := InsertInNewLeaf(inode, path, e, preIO, supply, q);
    }
  }

  lemma FullLeaf(t: Tree, q: Path, cap: nat)
    requires WellFormed(t, cap) && cap > ROOT_CAP && PathIn(t, q) && At(t, q).Leaf?
    requires |At(t, q).exts| >= At(t, q).max
    ensures At(t, q).exts != [] && FullAt(t, q, |q|)
  {
    AtFits(t, q, cap);
    assert q[..|q|] == q;
  }

  /** Make a new leaf and insert there. */
  method InsertInNewLeaf(inode: Inode, path: seq<Step>, e: Extent, preIO: bool, supply: Supply, ghost q: Path)
    returns (err: Status, path': seq<Step>, ghost q': Path)
    requires inode.Valid() && Cornered(inode.t, path, e)
    requires Insertable(Exts(inode.t), e) && Clean(inode.Universe() + DataOf(e))
    modifies inode`root, inode`disk, inode`free, inode`t
    ensures inode.Valid() && (err == Ok || err == ENOSPC)
    ensures err == Ok <==> old(LeafCost(inode.t, e.block)) <= Within(supply.blocks, old(inode.free))
    ensures err == Ok ==> inode.Contents() == old(inode.Contents()) + MapOf(e)
    ensures err == Ok ==> inode.Universe() == old(inode.Universe()) + DataOf(e)
    ensures err != Ok ==> Exts(inode.t) == Exts(old(inode.t)) && inode.Universe() == old(inode.Universe())
    ensures err == ENOSPC ==> Searchable(inode.t) && SearchPath(inode.t, e.block, path')
    ensures err == Ok && preIO ==>
      && Exts(inode.t) == InsertSorted(Exts(old(inode.t)), e)
      && Walks(inode.t, q', path') && At(inode.t, q').Leaf? && RightFrom(inode.t, q', e.block)
      && BlocksOk(inode.t, q', path')
  {
    q' := q;
    err, path' := CreateNewLeaf(inode, path, e, supply.blocks);
    if err == Ok {
      q' := FindPath(inode.t, e.block);
      ReadySlotted(inode.t, q', inode.cap, e);
      err, path', q' := InsertHere(inode, path', e, preIO, supply.room, q');
    }
  }
}
