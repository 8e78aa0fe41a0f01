/**
 Splitting an extent in place and changing its state: ext4_split_extent_at,
 ext4_split_extent and ext4_ext_convert_to_initialized.
 */
module ExtentConvert {
  import opened Extents
  import opened ExtentTrees
  import opened ExtentSearch
  import opened Inodes
  import opened IndexKeys
  import opened TreeUpdates
  import opened ExtentSplit
  import opened ExtentGrow
  import opened ExtentMerge
  import opened ExtentNeighbours
  import opened ExtentInsert

  /** The EXT4_EXT_* split flags. */
  datatype SplitFlags = SplitFlags(mayZeroout: bool, markUninit1: bool, markUninit2: bool,
                                   dataValid1: bool, dataValid2: bool)

  /** A raw length with the state flag the caller wants. */
  function Part(block: nat, len: nat, pblk: nat, uninit: bool): (e: Extent)
    requires 0 < len <= EXT_INIT_MAX_LEN && (uninit ==> len < EXT_INIT_MAX_LEN)
    ensures Len(e) == len && e.block == block && e.pblk == pblk && IsUninit(e) == uninit && e.eeLen <= 0xFFFF
  {
    Extent(block, if uninit then len + EXT_INIT_MAX_LEN else len, pblk)
  }

  /** e is f again, up to the state flag. */
  ghost predicate SameRange(e: Extent, f: Extent) {
    e.block == f.block && Len(e) == Len(f) && e.pblk == f.pblk && ExtentOk(f)
  }

  // ----- runs ----------------------------------------------------------------------

  lemma SwapInRun(l: seq<Extent>, e: Extent, f: Extent, r: seq<Extent>)
    requires Sorted(l + [e] + r) && ExtentOk(f) && f.block == e.block && End(f) <= End(e)
    ensures Sorted(l + [f] + r)
  {
    SortedNext(l, e, r);
    SortedJoin(l, [f]);
    assert (l + [f])[|l + [f]| - 1] == f;
    SortedJoin(l + [f], r);
  }

  /** Rewriting one extent of a run by another with the same first block. */
  lemma SwapMeaning(l: seq<Extent>, e: Extent, f: Extent, r: seq<Extent>)
    requires Sorted(l + [e] + r) && ExtentOk(f) && f.block == e.block && End(f) <= End(e)
    ensures Sorted(l + [f] + r)
    ensures LMap(l + [e] + r) == LMap(l + r) + MapOf(e) && LMap(l + [f] + r) == LMap(l + r) + MapOf(f)
  {
    SwapInRun(l, e, f, r);
    LMapInsert(l, e, r);
    LMapInsert(l, f, r);
  }

  lemma OverrideOne(a: LogicalMap, m: LogicalMap, m1: LogicalMap)
    requires m1.Keys == m.Keys
    ensures a + m1 == (a + m) + m1
  {
  }

  lemma OverrideTwo(a: LogicalMap, m: LogicalMap, m1: LogicalMap, m2: LogicalMap)
    requires m1.Keys + m2.Keys == m.Keys
    ensures (a + m1) + m2 == ((a + m) + m1) + m2
  {
  }

  lemma HalvesCover(e: Extent, e1: Extent, e2: Extent)
    requires e1.block == e.block && End(e1) == e2.block && End(e2) == End(e)
    ensures MapOf(e1).Keys + MapOf(e2).Keys == MapOf(e).Keys
  {
    forall b ensures b in MapOf(e).Keys <==> b in MapOf(e1).Keys + MapOf(e2).Keys {
      assert Covers(e, b) <==> Covers(e1, b) || Covers(e2, b);
    }
  }

  // ----- rewriting one leaf entry --------------------------------------------------------

  /** Entry j of the leaf at q, with the runs left and right of it in the whole file. */
  lemma EntrySides(t: Tree, q: Path, j: nat, f: Extent)
    requires PathIn(t, q) && At(t, q).Leaf? && j < |At(t, q).exts|
    ensures var x := At(t, q).exts;
      var l, r := LeftOf(t, q) + x[..j], x[j + 1..] + RightOf(t, q);
      && Exts(t) == l + [x[j]] + r
      && LeftOf(t, q) + x[j := f] + RightOf(t, q) == l + [f] + r
  {
    var x := At(t, q).exts;
    ExtsAt(t, q);
    assert x == x[..j] + [x[j]] + x[j + 1..];
    assert x[j := f] == x[..j] + [f] + x[j + 1..];
    InsertOrder(LeftOf(t, q), x[..j], [x[j]], x[j + 1..], RightOf(t, q));
    InsertOrder(LeftOf(t, q), x[..j], [f], x[j + 1..], RightOf(t, q));
  }

  ghost function WithEntry(t: Tree, q: Path, j: nat, f: Extent): Tree
    requires PathIn(t, q) && At(t, q).Leaf? && j < |At(t, q).exts|
  {
    Update(t, q, Leaf(At(t, q).max, At(t, q).exts[j := f]))
  }

  /** Rewriting an entry in place keeps the tree well formed if the run stays sorted. */
  lemma EntryRewrite(t: Tree, q: Path, cap: nat, j: nat, f: Extent)
    requires WellFormed(t, cap) && PathIn(t, q) && At(t, q).Leaf? && j < |At(t, q).exts|
    requires f.block == At(t, q).exts[j].block
    requires Sorted(LeftOf(t, q) + At(t, q).exts[..j] + [f] + (At(t, q).exts[j + 1..] + RightOf(t, q)))
    ensures var t' := WithEntry(t, q, j, f);
      && WellFormed(t', cap) && PathIn(t', q) && At(t', q) == Leaf(At(t, q).max, At(t, q).exts[j := f])
      && Exts(t') == LeftOf(t, q) + At(t, q).exts[..j] + [f] + (At(t, q).exts[j + 1..] + RightOf(t, q))
      && Blocks(t') == Blocks(t)
  {
    EntrySides(t, q, j, f);
    WellFormedNearly(t, q, cap);
    LeafCapacity(t, q, cap);
    LeafRewrite(t, q, cap, At(t, q).exts[j := f]);
  }

  /** The search for b ends at the same place after an entry was rewritten. */
  lemma EntrySearch(t: Tree, q: Path, cap: nat, j: nat, f: Extent, b: nat, path: seq<Step>)
    requires WellFormed(t, cap) && Searchable(t) && q == FindPath(t, b) && PathIn(t, q) && At(t, q).Leaf?
    requires j < |At(t, q).exts| && f.block == At(t, q).exts[j].block
    requires WellFormed(WithEntry(t, q, j, f), cap) && SearchPath(t, b, path)
    ensures Searchable(WithEntry(t, q, j, f)) && SearchPath(WithEntry(t, q, j, f), b, path)
    ensures FindPath(WithEntry(t, q, j, f), b) == q
  {
    var x := At(t, q).exts;
    var s := Leaf(At(t, q).max, x[j := f]);
    assert Starts(x[j := f]) == Starts(x);
    WellFormedSearchable(WithEntry(t, q, j, f));
    AtSearchable(t, q);
    LeafSearch(t, q, s, b);
    AtShape(t, q);
    LeafWalks(t, q, path, s);
    UpdateAt(t, q, s);
  }

  // ----- places after an entry was rewritten -------------------------------------------------

  lemma SlotKept(t: Tree, q: Path, x: seq<Extent>, b: nat)
    requires Shape(t) && Searchable(t) && PathIn(t, q) && At(t, q).Leaf? && Starts(x) == Starts(At(t, q).exts)
    ensures var u := Update(t, q, Leaf(At(t, q).max, x));
      Shape(u) && Searchable(u) && FindPath(u, b) == FindPath(t, b) && (HasSlot(u, b) <==> HasSlot(t, b))
  {
    var s := Leaf(At(t, q).max, x);
    AtSearchable(t, q);
    LeafSearch(t, q, s, b);
    FindPathIn(t, b);
    UpdateAt(t, q, s);
    LeafUpdateAt(t, q, s, FindPath(t, b));
    assert |Starts(x)| == |x|;
  }

  lemma NextSlotKept(t: Tree, q: Path, x: seq<Extent>, b: nat)
    requires Shape(t) && Searchable(t) && q == FindPath(t, b)
    requires PathIn(t, q) && At(t, q).Leaf? && Starts(x) == Starts(At(t, q).exts)
    ensures var u := Update(t, q, Leaf(At(t, q).max, x));
      Shape(u) && Searchable(u) && (NextHasSlot(u, b) <==> NextHasSlot(t, b))
  {
    var s := Leaf(At(t, q).max, x);
    var last: nat := |x|;
    SlotKept(t, q, x, b);
    UpdateAt(t, q, s);
    UpdateSides(t, q, s);
    assert |Starts(x)| == |x| == |At(t, q).exts|;
    assert x != [] ==> Starts(x)[last - 1] == x[last - 1].block;
    if RightOf(t, q) != [] {
      SlotKept(t, q, x, RightOf(t, q)[0].block);
    }
  }

  lemma LeafCostKept(t: Tree, q: Path, x: seq<Extent>, b: nat)
    requires Shape(t) && Searchable(t) && q == FindPath(t, b)
    requires PathIn(t, q) && At(t, q).Leaf? && Starts(x) == Starts(At(t, q).exts)
    ensures var u := Update(t, q, Leaf(At(t, q).max, x));
      Shape(u) && Searchable(u) && LeafCost(u, b) == LeafCost(t, b)
  {
    var s := Leaf(At(t, q).max, x);
    var u := Update(t, q, s);
    SlotKept(t, q, x, b);
    AtShape(t, q);
    UpdateAt(t, q, s);
    forall i | 0 <= i < |q|
      ensures LikeAt(t, u, q, i)
    {
      UpdatePrefix(t, q, s, i);
    }
    SameCost(t, u, q, |q|);
  }

  /** Rewriting an extent of the leaf found changes nothing about the places there are. */
  lemma PlaceKept(t: Tree, q: Path, j: nat, f: Extent, b: nat, pool: nat)
    requires Shape(t) && Searchable(t) && q == FindPath(t, b) && PathIn(t, q) && At(t, q).Leaf?
    requires j < |At(t, q).exts| && f.block == At(t, q).exts[j].block
    ensures Shape(WithEntry(t, q, j, f)) && Searchable(WithEntry(t, q, j, f))
    ensures Placeable(WithEntry(t, q, j, f), b, pool) <==> Placeable(t, b, pool)
  {
    var x := At(t, q).exts[j := f];
    assert Starts(x) == Starts(At(t, q).exts);
    SlotKept(t, q, x, b);
    NextSlotKept(t, q, x, b);
    LeafCostKept(t, q, x, b);
  }

  /** The second part of a trimmed extent is absorbed exactly if it can be merged with the first. */
  lemma RestJoins(t: Tree, q: Path, j: nat, e1: Extent, e2: Extent)
    requires Shape(t) && Searchable(t) && q == FindPath(t, e2.block) && PathIn(t, q) && At(t, q).Leaf?
    requires j < |At(t, q).exts| && At(t, q).exts[j] == e1 && j == Scan(Starts(At(t, q).exts), e2.block)
    requires e1.block < End(e1) == e2.block
    ensures Joins(t, e2) <==> CanMerge(e1, e2)
  {
  }

  lemma {:induction false} AtSearchable(t: Tree, q: Path)
    requires Shape(t) && Searchable(t) && PathIn(t, q)
    ensures Shape(At(t, q)) && Searchable(At(t, q))
  {
    if q != [] {
      AtSearchable(t.kids[q[0]], q[1..]);
    }
  }

  // ----- the extent a search finds, seen in the whole file -----------------------------------

  /** Position of the extent a linear scan of the file picks for b. */
  ghost function Pos(s: seq<Extent>, b: nat): nat {
    Scan(Starts(s), b)
  }

  lemma PosIn(s: seq<Extent>, b: nat)
    requires Sorted(s) && s != []
    ensures Pos(s, b) < |s|
  {
    SortedIncreasing(s);
    ScanPicks(Starts(s), b);
  }

  /** The tree search lands on the extent at flat position Pos. */
  lemma EntryOfSearch(t: Tree, cap: nat, b: nat)
    requires WellFormed(t, cap) && Searchable(t) && Exts(t) != []
    ensures var s, n, q := Exts(t), Pos(Exts(t), b), FindPath(t, b);
      && n < |s| && PathIn(t, q) && At(t, q).Leaf?
      && var x := At(t, q).exts;
         var j := Scan(Starts(x), b);
         && j < |x| && x[j] == s[n]
         && LeftOf(t, q) + x[..j] == s[..n] && x[j + 1..] + RightOf(t, q) == s[n + 1..]
  {
    var s, n, q := Exts(t), Pos(Exts(t), b), FindPath(t, b);
    PosIn(s, b);
    FindPathIn(t, b);
    EntryIndex(t, cap, b, s, n, q);
    CutLeafAt(t, q, Scan(Starts(At(t, q).exts), b), s, n);
  }

  /** Slot j of the leaf at q in the run of the whole file. */
  lemma CutLeafAt(t: Tree, q: Path, j: nat, s: seq<Extent>, n: nat)
    requires PathIn(t, q) && At(t, q).Leaf? && s == Exts(t) && j < |At(t, q).exts| && n == |LeftOf(t, q)| + j
    ensures n < |s| && s[n] == At(t, q).exts[j]
    ensures LeftOf(t, q) + At(t, q).exts[..j] == s[..n] && At(t, q).exts[j + 1..] + RightOf(t, q) == s[n + 1..]
  {
    ExtsAt(t, q);
    CutAt(LeftOf(t, q), At(t, q).exts, RightOf(t, q), j, s, n);
  }

  lemma EntryIndex(t: Tree, cap: nat, b: nat, s: seq<Extent>, n: nat, q: Path)
    requires WellFormed(t, cap) && Searchable(t) && s == Exts(t) != [] && n == Pos(s, b) < |s| && q == FindPath(t, b)
    requires PathIn(t, q) && At(t, q).Leaf?
    ensures Scan(Starts(At(t, q).exts), b) < |At(t, q).exts| && n == |LeftOf(t, q)| + Scan(Starts(At(t, q).exts), b)
  {
    if t.Index? {
      FindFlat(t, b);
      LeafPick(t, q, b);
    }
  }

  lemma CutAt(l: seq<Extent>, x: seq<Extent>, r: seq<Extent>, j: nat, s: seq<Extent>, n: nat)
    requires j < |x| && s == l + x + r && n == |l| + j
    ensures n < |s| && s[n] == x[j] && l + x[..j] == s[..n] && x[j + 1..] + r == s[n + 1..]
  {
  }

  /** Rewriting the extent the search for b found. */
  lemma FoundRewrite(t: Tree, cap: nat, b: nat, f: Extent, path: seq<Step>)
    requires WellFormed(t, cap) && Searchable(t) && Exts(t) != [] && SearchPath(t, b, path)
    requires var s, n := Exts(t), Pos(Exts(t), b);
      n < |s| && f.block == s[n].block && Sorted(s[..n] + [f] + s[n + 1..])
    ensures PathIn(t, FindPath(t, b)) && At(t, FindPath(t, b)).Leaf?
    ensures var q, x := FindPath(t, b), At(t, FindPath(t, b)).exts;
      var s, n, j := Exts(t), Pos(Exts(t), b), Scan(Starts(x), b);
      && j < |x| && x[j] == s[n] && path[|q|].pos == Slot(j)
      && var t' := WithEntry(t, q, j, f);
         && WellFormed(t', cap) && Exts(t') == s[..n] + [f] + s[n + 1..] && Blocks(t') == Blocks(t)
         && Searchable(t') && SearchPath(t', b, path) && FindPath(t', b) == q
         && PathIn(t', q) && At(t', q) == Leaf(At(t, q).max, x[j := f])
  {
    EntryOfSearch(t, cap, b);
    var q, x := FindPath(t, b), At(t, FindPath(t, b)).exts;
    var j := Scan(Starts(x), b);
    EntryRewrite(t, q, cap, j, f);
    EntrySearch(t, q, cap, j, f, b, path);
  }

  /** Slot j of the leaf found for b now holds f. */
  ghost predicate Rewritten(t: Tree, t': Tree, j: nat, f: Extent, b: nat)
    requires Shape(t) && Searchable(t)
  {
    var q := FindPath(t, b);
    && PathIn(t, q) && At(t, q).Leaf? && j < |At(t, q).exts| && At(t, q).exts[j].block == f.block
    && j == Scan(Starts(At(t, q).exts), b) && t' == WithEntry(t, q, j, f)
  }

  /** What a trim leaves for the insertion of the second part. */
  lemma TrimPlace(t: Tree, t': Tree, j: nat, e1: Extent, e2: Extent, pool: nat)
    requires Shape(t) && Searchable(t) && Rewritten(t, t', j, e1, e2.block) && e1.block < End(e1) == e2.block
    ensures Shape(t') && Searchable(t')
    ensures Joins(t', e2) <==> CanMerge(e1, e2)
    ensures Placeable(t', e2.block, pool) <==> Placeable(t, e2.block, pool)
  {
    var q := FindPath(t, e2.block);
    PlaceKept(t, q, j, e1, e2.block, pool);
    SlotKept(t, q, At(t, q).exts[j := e1], e2.block);
    UpdateAt(t, q, Leaf(At(t, q).max, At(t, q).exts[j := e1]));
    assert Starts(At(t, q).exts[j := e1]) == Starts(At(t, q).exts);
    RestJoins(t', q, j, e1, e2);
  }

  /** If the leaf found for b had a free slot, both parts are now in it. */
  ghost predicate CutBeside(t0: Tree, t: Tree, b: nat, q: Path, e1: Extent, e2: Extent)
    requires Shape(t0) && Searchable(t0)
  {
    HasSlot(t0, b) ==>
      && q == FindPath(t0, b) && PathIn(t, q) && At(t, q).Leaf? && e1 in At(t, q).exts && e2 in At(t, q).exts
      && |At(t, q).exts| == |At(t0, q).exts| + 1 && At(t, q).max == At(t0, q).max
      && NewNodes(t, q, |q|) == LeafCost(t0, b)
  }

  lemma TrimBeside(t0: Tree, t1: Tree, t: Tree, j: nat, e1: Extent, e2: Extent, b: nat, q: Path)
    requires Shape(t0) && Searchable(t0) && Rewritten(t0, t1, j, e1, b) && Shape(t1) && Searchable(t1)
    requires HasSlot(t1, b) ==> TakenBy(t1, t, b, q, e2)
    ensures CutBeside(t0, t, b, q, e1, e2) && (HasSlot(t1, b) <==> HasSlot(t0, b))
  {
    var p := FindPath(t0, b);
    var x := At(t0, p).exts;
    assert Starts(x[j := e1]) == Starts(x);
    SlotKept(t0, p, x[j := e1], b);
    UpdateAt(t0, p, Leaf(At(t0, p).max, x[j := e1]));
    LeafCostKept(t0, p, x[j := e1], b);
    if HasSlot(t0, b) {
      assert x[j := e1][j] == e1 && e1 in At(t1, p).exts;
    }
  }

  /** Overwrite the extent the path stands on. */
  method RewriteFound(inode: Inode, path: seq<Step>, f: Extent, ghost b: nat) returns (j: nat)
    requires inode.Stored() && WellFormed(inode.t, inode.cap) && NoDup(Blocks(inode.t)) && Searchable(inode.t)
    requires SearchPath(inode.t, b, path) && Exts(inode.t) != []
    requires var s, n := Exts(inode.t), Pos(Exts(inode.t), b);
      n < |s| && f.block == s[n].block && Sorted(s[..n] + [f] + s[n + 1..])
    modifies inode`root, inode`disk, inode`t
    ensures inode.Stored() && WellFormed(inode.t, inode.cap) && Blocks(inode.t) == Blocks(old(inode.t))
    ensures var s, n := Exts(old(inode.t)), Pos(Exts(old(inode.t)), b); Exts(inode.t) == s[..n] + [f] + s[n + 1..]
    ensures Searchable(inode.t) && SearchPath(inode.t, b, path)
    ensures FindPath(inode.t, b) == FindPath(old(inode.t), b) && PathIn(inode.t, FindPath(inode.t, b))
    ensures BlocksOk(old(inode.t), FindPath(old(inode.t), b), path) ==> BlocksOk(inode.t, FindPath(inode.t, b), path)
    ensures path[|path| - 1].pos == Slot(j) && At(inode.t, FindPath(inode.t, b)).Leaf?
    ensures j < |At(inode.t, FindPath(inode.t, b)).exts|
    ensures Rewritten(old(inode.t), inode.t, j, f, b)
  {
    ghost var t, q := inode.t, FindPath(inode.t, b);
    FoundRewrite(t, inode.cap, b, f, path);
    var depth := |path| - 1;
    assert StepOk(t, q, path, depth) && q[..depth] == q;
    inode.NodeOnPath(q);
    var leaf := inode.NodeAt(path[depth].loc);
    j := path[depth].pos.i;
    LeafUpdateWalks(t, q, Leaf(leaf.max, leaf.exts[j := f]), q, path);
    StoreLeaf(inode, path, leaf.exts[j := f], q);
  }

  // ----- ext4_split_extent_at ---------------------------------------------------------------

  /** The two parts of an extent split at `split`. */
  ghost predicate SplitPoint(e: Extent, split: nat, fl: SplitFlags) {
    && ExtentOk(e) && Covers(e, split)
    && !(fl.dataValid1 && fl.dataValid2)
    && (!IsUninit(e) ==> !fl.mayZeroout && !fl.markUninit1 && !fl.markUninit2)
  }

  function First(e: Extent, split: nat, uninit: bool): Extent
    requires ExtentOk(e) && e.block < split < End(e) && (uninit ==> IsUninit(e))
  {
    Part(e.block, split - e.block, e.pblk, uninit)
  }

  function Second(e: Extent, split: nat, uninit: bool): Extent
    requires ExtentOk(e) && e.block <= split < End(e) && (uninit ==> IsUninit(e))
  {
    Part(split, End(e) - split, e.pblk + (split - e.block), uninit)
  }

  function Whole(e: Extent, uninit: bool): Extent
    requires ExtentOk(e) && (uninit ==> IsUninit(e))
  {
    Part(e.block, Len(e), e.pblk, uninit)
  }

  /** The extent zeroed when no block is left for the split. */
  function ZeroPart(e: Extent, split: nat, fl: SplitFlags): Extent
    requires ExtentOk(e) && e.block < split < End(e)
  {
    if fl.dataValid1 then Second(e, split, false)
    else if fl.dataValid2 then First(e, split, false)
    else Whole(e, false)
  }

  function PhysOf(e: Extent): set<nat> {
    set x: nat | e.pblk <= x < e.pblk + Len(e) && InRun(e.pblk, Len(e), x)
  }

  lemma AllClear(l: seq<Extent>, e1: Extent, r: seq<Extent>, e2: Extent)
    requires ExtentOk(e2) && Clear(e1, e2)
    requires forall i :: 0 <= i < |l| ==> End(l[i]) <= e2.block
    requires forall i :: 0 <= i < |r| ==> End(e2) <= r[i].block
    ensures Insertable(l + [e1] + r, e2)
  {
    var s := l + [e1] + r;
    forall i | 0 <= i < |s| ensures Clear(s[i], e2) {
      if i < |l| {
        assert s[i] == l[i];
      } else if i > |l| {
        assert s[i] == r[i - |l| - 1];
      }
    }
  }

  lemma SortedAround(l: seq<Extent>, e: Extent, r: seq<Extent>)
    requires Sorted(l + [e] + r)
    ensures forall i :: 0 <= i < |l| ==> End(l[i]) <= e.block
    ensures forall i :: 0 <= i < |r| ==> End(e) <= r[i].block
  {
    var s := l + [e] + r;
    assert s[|l|] == e;
    assert forall i :: 0 <= i < |l| ==> s[i] == l[i];
    assert forall i :: 0 <= i < |r| ==> s[|l| + 1 + i] == r[i];
  }

  /** Trimming e to its first part sets the second part free to be inserted. */
  lemma TrimRun(l: seq<Extent>, e: Extent, r: seq<Extent>, e1: Extent, e2: Extent)
    requires Sorted(l + [e] + r) && ExtentOk(e1) && ExtentOk(e2)
    requires e1.block == e.block && End(e1) == e2.block && End(e2) == End(e)
    requires e1.pblk == e.pblk && e2.pblk == e.pblk + Len(e1)
    ensures Sorted(l + [e1] + r) && Insertable(l + [e1] + r, e2)
    ensures Sorted(l + [e1, e2] + r)
  {
    SwapInRun(l, e, e1, r);
    SortedAround(l, e, r);
    AllClear(l, e1, r, e2);
    SortedNext(l, e, r);
    var l1 := l + [e1];
    assert l1[|l1| - 1] == e1;
    PlaceSorted(l1, e2, r);
    assert l1 + [e2] + r == l + [e1, e2] + r;
  }

  lemma TrimInsert(l: seq<Extent>, r: seq<Extent>, e1: Extent, e2: Extent)
    requires Sorted(l + [e1, e2] + r)
    ensures InsertSorted(l + [e1] + r, e2) == l + [e1, e2] + r
  {
    assert l + [e1] + [e2] + r == l + [e1, e2] + r;
    InsertSortedAt(l + [e1], e2, r);
  }

  lemma HalvesData(e: Extent, e1: Extent, e2: Extent)
    requires Len(e1) + Len(e2) == Len(e) && e1.pblk == e.pblk && e2.pblk == e.pblk + Len(e1)
    ensures DataOf(e1) + DataOf(e2) == DataOf(e)
  {
    RunHalves(e.pblk, Len(e1), Len(e2), Len(e));
  }

  lemma RunHalves(p: nat, m: nat, n: nat, len: nat)
    requires m + n == len
    ensures Run(p, m) + Run(p + m, n) == Run(p, len)
  {
    RunSplit(p, m, n);
  }

  lemma TrimData(l: seq<Extent>, e: Extent, r: seq<Extent>, e1: Extent, e2: Extent)
    requires Len(e1) + Len(e2) == Len(e) && e1.pblk == e.pblk && e2.pblk == e.pblk + Len(e1)
    ensures Data(l + [e1] + r) + DataOf(e2) == Data(l + [e] + r)
  {
    OneData(l, e, r);
    OneData(l, e1, r);
    HalvesData(e, e1, e2);
    MoveData(Data(l), DataOf(e1), Data(r), DataOf(e2));
  }

  /** The map after the trim and the insertion of the second part. */
  lemma TrimMeaning(l: seq<Extent>, e: Extent, r: seq<Extent>, e1: Extent, e2: Extent)
    requires Sorted(l + [e] + r) && ExtentOk(e1) && ExtentOk(e2)
    requires e1.block == e.block && End(e1) == e2.block && End(e2) == End(e)
    ensures LMap(l + [e1] + r) + MapOf(e2) == LMap(l + [e] + r) + MapOf(e1) + MapOf(e2)
  {
    SwapMeaning(l, e, e1, r);
    HalvesCover(e, e1, e2);
    OverrideTwo(LMap(l + r), MapOf(e), MapOf(e1), MapOf(e2));
  }

  lemma RelabelMeaning(l: seq<Extent>, e: Extent, r: seq<Extent>, f: Extent)
    requires Sorted(l + [e] + r) && ExtentOk(f) && f.block == e.block && End(f) == End(e)
    ensures Sorted(l + [f] + r) && LMap(l + [f] + r) == LMap(l + [e] + r) + MapOf(f)
  {
    SwapMeaning(l, e, f, r);
    forall b ensures b in MapOf(e).Keys <==> b in MapOf(f).Keys {
      assert Covers(e, b) <==> Covers(f, b);
    }
    OverrideOne(LMap(l + r), MapOf(e), MapOf(f));
  }

  ghost predicate OnEntry(t: Tree, b: nat, path: seq<Step>)
    requires Shape(t)
  {
    Searchable(t) && SearchPath(t, b, path) && Exts(t) != [] && Pos(Exts(t), b) < |Exts(t)|
  }

  ghost function Entry(t: Tree, b: nat): Extent
    requires Exts(t) != [] && Pos(Exts(t), b) < |Exts(t)|
  {
    Exts(t)[Pos(Exts(t), b)]
  }

  lemma AroundEntry(s: seq<Extent>, n: nat)
    requires n < |s|
    ensures s == s[..n] + [s[n]] + s[n + 1..]
  {
  }

  /** Read the extent the path stands on. */
  method ReadFound(inode: Inode, path: seq<Step>, ghost b: nat) returns (e: Extent, j: nat)
    requires inode.Stored() && WellFormed(inode.t, inode.cap) && OnEntry(inode.t, b, path)
    ensures e == Entry(inode.t, b) && path[|path| - 1].pos == Slot(j)
    ensures PathIn(inode.t, FindPath(inode.t, b)) && At(inode.t, FindPath(inode.t, b)).Leaf?
    ensures j < |At(inode.t, FindPath(inode.t, b)).exts|
  {
    ghost var q := FindPath(inode.t, b);
    EntryOfSearch(inode.t, inode.cap, b);
    var depth := |path| - 1;
    assert StepOk(inode.t, q, path, depth) && q[..depth] == q;
    inode.NodeOnPath(q);
    var leaf := inode.NodeAt(path[depth].loc);
    j := path[depth].pos.i;
    e := leaf.exts[j];
  }

  lemma RelabelRun(s: seq<Extent>, n: nat, f: Extent)
    requires Sorted(s) && n < |s| && SameRange(s[n], f)
    ensures Sorted(s[..n] + [f] + s[n + 1..])
    ensures LMap(s[..n] + [f] + s[n + 1..]) == LMap(s) + MapOf(f)
    ensures Data(s[..n] + [f] + s[n + 1..]) == Data(s)
  {
    AroundEntry(s, n);
    RelabelMeaning(s[..n], s[n], s[n + 1..], f);
    OneData(s[..n], s[n], s[n + 1..]);
    OneData(s[..n], f, s[n + 1..]);
  }

  /** Put f in the place of the found extent; `s1` is the run then. */
  method ReplaceEntry(inode: Inode, path: seq<Step>, f: Extent, ghost b: nat, ghost s: seq<Extent>, ghost n: nat,
                      ghost s1: seq<Extent>)
    returns (j: nat)
    requires inode.Valid() && OnEntry(inode.t, b, path) && s == Exts(inode.t) && n == Pos(s, b)
    requires f.block == s[n].block && s1 == s[..n] + [f] + s[n + 1..] && Sorted(s1) && Data(s1) == Data(s)
    modifies inode`root, inode`disk, inode`t
    ensures inode.Valid() && inode.Universe() == old(inode.Universe()) && Exts(inode.t) == s1
    ensures Searchable(inode.t) && SearchPath(inode.t, b, path) && At(inode.t, FindPath(inode.t, b)).Leaf?
    ensures j < |At(inode.t, FindPath(inode.t, b)).exts| && path[|path| - 1].pos.Slot?
  {
    CleanBlocks(inode);
    j := RewriteFound(inode, path, f, b);
    assert Exts(inode.t) == s1;
  }

  /** Mark the found extent in place. */
  method RelabelEntry(inode: Inode, path: seq<Step>, f: Extent, ghost b: nat) returns (j: nat)
    requires inode.Valid() && OnEntry(inode.t, b, path)
    requires SameRange(Entry(inode.t, b), f)
    modifies inode`root, inode`disk, inode`t
    ensures inode.Valid() && inode.Universe() == old(inode.Universe())
    ensures inode.Contents() == old(inode.Contents()) + MapOf(f)
    ensures Searchable(inode.t) && SearchPath(inode.t, b, path) && At(inode.t, FindPath(inode.t, b)).Leaf?
    ensures j < |At(inode.t, FindPath(inode.t, b)).exts| && path[|path| - 1].pos.Slot?
  {
    ghost var s, n := Exts(inode.t), Pos(Exts(inode.t), b);
    ghost var s1 := s[..n] + [f] + s[n + 1..];
    RelabelTo(s, n, f, s1);
    j := ReplaceEntry(inode, path, f, b, s, n, s1);
  }

  lemma RelabelTo(s: seq<Extent>, n: nat, f: Extent, s1: seq<Extent>)
    requires Sorted(s) && n < |s| && SameRange(s[n], f) && s1 == s[..n] + [f] + s[n + 1..]
    ensures Sorted(s1) && LMap(s1) == LMap(s) + MapOf(f) && Data(s1) == Data(s) && f.block == s[n].block
  {
    RelabelRun(s, n, f);
  }

  /** Mark the found extent, then merge it with its neighbours unless told not to. */
  method RelabelFound(inode: Inode, path: seq<Step>, f: Extent, preIO: bool, room: bool, ghost b: nat)
    requires inode.Valid() && OnEntry(inode.t, b, path)
    requires SameRange(Entry(inode.t, b), f)
    modifies inode`root, inode`disk, inode`free, inode`t
    ensures inode.Valid() && inode.Universe() == old(inode.Universe())
    ensures inode.Contents() == old(inode.Contents()) + MapOf(f)
  {
    var j := RelabelEntry(inode, path, f, b);
    if !preIO {
      MergeFound(inode, path, j, room, FindPath(inode.t, b));
    }
  }

  /** ext4_ext_try_to_merge on a well-formed tree: no index needs correcting. */
  method MergeFound(inode: Inode, path: seq<Step>, j: nat, room: bool, ghost q: Path)
    requires inode.Valid() && Walks(inode.t, q, path) && At(inode.t, q).Leaf?
    requires j < |At(inode.t, q).exts| && path[|q|].pos.Slot?
    modifies inode`root, inode`disk, inode`free, inode`t
    ensures inode.Valid() && inode.Universe() == old(inode.Universe()) && inode.Contents() == old(inode.Contents())
  {
    WellFormedNearly(inode.t, q, inode.cap);
    var path';
    ghost var q';
    path', q' := TryToMerge(inode, path, j, room, q);
  }

  lemma TrimSorted(s: seq<Extent>, n: nat, e1: Extent, e2: Extent)
    requires Sorted(s) && n < |s| && ExtentOk(e1) && ExtentOk(e2)
    requires e1.block == s[n].block && End(e1) == e2.block && End(e2) == End(s[n])
    ensures Sorted(s[..n] + [e1] + s[n + 1..])
  {
    AroundEntry(s, n);
    SwapInRun(s[..n], s[n], e1, s[n + 1..]);
  }

  /** The second part fits into what is left, and completes it. */
  lemma TrimRest(s: seq<Extent>, n: nat, e1: Extent, e2: Extent, s1: seq<Extent>)
    requires Sorted(s) && n < |s| && ExtentOk(e1) && ExtentOk(e2)
    requires e1.block == s[n].block && End(e1) == e2.block && End(e2) == End(s[n])
    requires e1.pblk == s[n].pblk && e2.pblk == s[n].pblk + Len(e1)
    requires s1 == s[..n] + [e1] + s[n + 1..]
    ensures Insertable(s1, e2) && InsertSorted(s1, e2) == s[..n] + [e1, e2] + s[n + 1..]
    ensures Data(s1) + DataOf(e2) == Data(s)
    ensures LMap(s1) + MapOf(e2) == LMap(s) + MapOf(e1) + MapOf(e2)
  {
    AroundEntry(s, n);
    TrimRun(s[..n], s[n], s[n + 1..], e1, e2);
    TrimInsert(s[..n], s[n + 1..], e1, e2);
    TrimData(s[..n], s[n], s[n + 1..], e1, e2);
    TrimMeaning(s[..n], s[n], s[n + 1..], e1, e2);
  }

  lemma TrimAccount(b: multiset<nat>, d: multiset<nat>, f: multiset<nat>, d1: multiset<nat>, e2: multiset<nat>)
    requires d1 + e2 == d && Clean(b + d + f)
    ensures b + d1 + f + e2 == b + d + f && Clean(b + d1 + f)
  {
    AddData(b, d1, f, e2);
    CleanUpdate(b + d1 + f, e2);
  }

  /** Trim the found extent to its first part; the second can be inserted now. */
  method TrimFound(inode: Inode, path: seq<Step>, e1: Extent, ghost e2: Extent, ghost pool: nat)
    returns (ghost j: nat)
    requires inode.Valid() && OnEntry(inode.t, e2.block, path) && ExtentOk(e1) && ExtentOk(e2)
    requires var e := Entry(inode.t, e2.block);
      && e1.block == e.block && End(e1) == e2.block && End(e2) == End(e)
      && e1.pblk == e.pblk && e2.pblk == e.pblk + Len(e1)
    modifies inode`root, inode`disk, inode`t
    ensures inode.Valid() && Searchable(inode.t) && SearchPath(inode.t, e2.block, path)
    ensures Insertable(Exts(inode.t), e2) && Clean(inode.Universe() + DataOf(e2))
    ensures inode.Universe() + DataOf(e2) == old(inode.Universe())
    ensures inode.Contents() + MapOf(e2) == old(inode.Contents()) + MapOf(e1) + MapOf(e2)
    ensures var s, n := old(Exts(inode.t)), old(Pos(Exts(inode.t), e2.block));
      && Exts(inode.t) == s[..n] + [e1] + s[n + 1..]
      && InsertSorted(Exts(inode.t), e2) == s[..n] + [e1, e2] + s[n + 1..]
    ensures old(BlocksOk(inode.t, FindPath(inode.t, e2.block), path)) ==>
              BlocksOk(inode.t, FindPath(inode.t, e2.block), path)
    ensures Rewritten(old(inode.t), inode.t, j, e1, e2.block)
    ensures Joins(inode.t, e2) <==> CanMerge(e1, e2)
    ensures Placeable(inode.t, e2.block, pool) <==> old(Placeable(inode.t, e2.block, pool))
  {
    ghost var t0 := inode.t;
    ghost var s, n := Exts(inode.t), Pos(Exts(inode.t), e2.block);
    ghost var u := inode.Universe();
    CleanBlocks(inode);
    TrimSorted(s, n, e1, e2);
    j := RewriteFound(inode, path, e1, e2.block);
    TrimRest(s, n, e1, e2, Exts(inode.t));
    TrimAccount(Blocks(inode.t), Data(s), multiset(inode.free), Data(Exts(inode.t)), DataOf(e2));
    TrimPlace(t0, inode.t, j, e1, e2, pool);
  }

  /** Where the second part went, for a caller that goes on walking. */
  ghost predicate CutPlaced(t: Tree, q: Path, path: seq<Step>, split: nat, s: seq<Extent>, n: nat, e1: Extent,
                            e2: Extent)
  {
    && Shape(t) && n < |s| && Exts(t) == s[..n] + [e1, e2] + s[n + 1..]
    && Walks(t, q, path) && At(t, q).Leaf? && RightFrom(t, q, split)
  }

  /** The second part of an extent can be kept apart: merged with the first again, or stored. */
  ghost predicate Partable(t: Tree, e1: Extent, e2: Extent, preIO: bool, pool: nat)
    requires Shape(t) && Searchable(t)
  {
    (!preIO && CanMerge(e1, e2)) || Placeable(t, e2.block, pool)
  }

  /** Both parts stand where they belong, and the caller's path leads to the second. */
  ghost predicate PartsAt(t0: Tree, path0: seq<Step>, t: Tree, q: Path, path: seq<Step>, split: nat, s: seq<Extent>,
                          n: nat, e1: Extent, e2: Extent, free0: set<nat>, free: set<nat>)
    requires Shape(t0) && Searchable(t0)
  {
    && CutPlaced(t, q, path, split, s, n, e1, e2)
    && CutBeside(t0, t, split, q, e1, e2) && (HasSlot(t0, split) ==> free == free0)
    && (BlocksOk(t0, FindPath(t0, split), path0) ==> BlocksOk(t, q, path))
  }

  /** Trim the found extent and insert its second part. */
  method TrimAndInsert(inode: Inode, path: seq<Step>, e1: Extent, e2: Extent, preIO: bool, supply: Supply,
                       ghost s: seq<Extent>, ghost n: nat, ghost m: LogicalMap, ghost u: multiset<nat>)
    returns (err: Status, path': seq<Step>, ghost q': Path)
    requires inode.Valid() && s == Exts(inode.t) && n == Pos(s, e2.block) && m == inode.Contents()
      && u == inode.Universe()
    requires inode.Valid() && OnEntry(inode.t, e2.block, path) && ExtentOk(e1) && ExtentOk(e2)
    requires var e := Entry(inode.t, e2.block);
      && e1.block == e.block && End(e1) == e2.block && End(e2) == End(e)
      && e1.pblk == e.pblk && e2.pblk == e.pblk + Len(e1)
    modifies inode`root, inode`disk, inode`free, inode`t
    ensures inode.Stored() && WellFormed(inode.t, inode.cap) && (err == Ok || err == ENOSPC)
    ensures err == Ok <==> Partable(old(inode.t), e1, e2, preIO, Within(supply.blocks, old(inode.free)))
    ensures err == Ok ==> inode.Valid() && inode.Universe() == u && inode.Contents() == m + MapOf(e1) + MapOf(e2)
    ensures err == Ok && preIO ==>
      PartsAt(old(inode.t), path, inode.t, q', path', e2.block, s, n, e1, e2, old(inode.free), inode.free)
    ensures err == ENOSPC ==>
      && n < |s| && Exts(inode.t) == s[..n] + [e1] + s[n + 1..]
      && Searchable(inode.t) && SearchPath(inode.t, e2.block, path')
      && inode.Universe() + DataOf(e2) == u
  {
    ghost var t0 := inode.t;
    ghost var j := TrimFound(inode, path, e1, e2, Within(supply.blocks, inode.free));
    ghost var t1 := inode.t;
    err, path', q' := InsertExtent(inode, path, e2, preIO, supply);
    if err == Ok && preIO {
      TrimBeside(t0, t1, inode.t, j, e1, e2, e2.block, q');
    }
  }

  lemma PartsOk(e: Extent, split: nat, fl: SplitFlags)
    requires SplitPoint(e, split, fl) && e.block < split
    ensures var e1, e2 := First(e, split, fl.markUninit1), Second(e, split, fl.markUninit2);
      && ExtentOk(e1) && ExtentOk(e2) && e2.block == split
      && e1.block == e.block && End(e1) == e2.block && End(e2) == End(e)
      && e1.pblk == e.pblk && e2.pblk == e.pblk + Len(e1)
  {
  }

  /** The parts are merged again only if neither is to be uninitialised. */
  lemma PartsMerge(e: Extent, split: nat, fl: SplitFlags)
    requires SplitPoint(e, split, fl) && e.block < split
    ensures CanMerge(First(e, split, fl.markUninit1), Second(e, split, fl.markUninit2)) <==>
            !fl.markUninit1 && !fl.markUninit2
  {
  }

  /** The search position does not depend on what happens to the found extent's length. */
  lemma PosKept(s: seq<Extent>, n: nat, f: Extent, b: nat)
    requires n < |s| && f.block == s[n].block && n == Pos(s, b)
    ensures Pos(s[..n] + [f] + s[n + 1..], b) == n
  {
    assert Starts(s[..n] + [f] + s[n + 1..]) == Starts(s);
  }

  lemma RewriteTwice(s: seq<Extent>, n: nat, f: Extent, g: Extent)
    requires n < |s|
    ensures var s1 := s[..n] + [f] + s[n + 1..];
      n < |s1| && s1[n] == f && s1[..n] + [g] + s1[n + 1..] == s[..n] + [g] + s[n + 1..]
  {
  }

  /** Put `f` where the trimmed extent is after the second part could not be inserted. */
  method Undo(inode: Inode, path: seq<Step>, f: Extent, ghost s: seq<Extent>, ghost n: nat, ghost split: nat,
              ghost e1: Extent, ghost u: multiset<nat>)
    returns (j: nat)
    requires inode.Stored() && WellFormed(inode.t, inode.cap) && inode.cap > ROOT_CAP
    requires Sorted(s) && n < |s| && n == Pos(s, split) && SameRange(s[n], f)
    requires e1.block == s[n].block && Exts(inode.t) == s[..n] + [e1] + s[n + 1..]
    requires Searchable(inode.t) && SearchPath(inode.t, split, path)
    requires Clean(u) && u == Blocks(inode.t) + Data(s) + multiset(inode.free)
    modifies inode`root, inode`disk, inode`t
    ensures inode.Valid() && inode.Universe() == u
    ensures Exts(inode.t) == s[..n] + [f] + s[n + 1..]
    ensures Searchable(inode.t) && SearchPath(inode.t, split, path)
    ensures PathIn(inode.t, FindPath(inode.t, split)) && At(inode.t, FindPath(inode.t, split)).Leaf?
    ensures path[|path| - 1].pos == Slot(j) && j < |At(inode.t, FindPath(inode.t, split)).exts|
  {
    PosKept(s, n, e1, split);
    RewriteTwice(s, n, e1, f);
    RelabelRun(s, n, f);
    UsedOnce(Blocks(inode.t), Data(s), multiset(inode.free), u);
    j := RewriteFound(inode, path, f, split);
  }

  lemma UsedOnce(b: multiset<nat>, d: multiset<nat>, f: multiset<nat>, u: multiset<nat>)
    requires u == b + d + f && NoDup(u)
    ensures NoDup(b)
  {
    forall x ensures b[x] <= 1 {
      assert u[x] <= 1;
    }
  }

  lemma SplitSpaceBack(b: multiset<nat>, d1: multiset<nat>, d: multiset<nat>, f: multiset<nat>, e2: multiset<nat>,
                       u: multiset<nat>)
    requires b + d1 + f + e2 == u && d1 + e2 == d
    ensures u == b + d + f
  {
    AddData(b, d1, f, e2);
  }

  /** The three ways a split can end. */
  datatype How = Parted | Zeroed | Untouched

  ghost function MapAfter(how: How, e: Extent, split: nat, fl: SplitFlags, before: LogicalMap): LogicalMap
    requires SplitPoint(e, split, fl) && e.block < split
  {
    match how
    case Parted => before + MapOf(First(e, split, fl.markUninit1)) + MapOf(Second(e, split, fl.markUninit2))
    case Zeroed => before + MapOf(Whole(e, false))
    case Untouched => before
  }

  ghost function ZeroedAfter(how: How, e: Extent, split: nat, fl: SplitFlags, before: set<nat>): set<nat>
    requires SplitPoint(e, split, fl) && e.block < split
  {
    if how == Zeroed then before + PhysOf(ZeroPart(e, split, fl)) else before
  }

  ghost predicate Ended(how: How, err: Status, fl: SplitFlags) {
    match how
    case Parted => err == Ok
    case Zeroed => err == Ok && fl.mayZeroout
    case Untouched => err == ENOSPC && !fl.mayZeroout
  }

  /** ext4_ext_zeroout */
  method Zeroout(inode: Inode, ze: Extent)
    modifies inode`zeroed
    ensures inode.zeroed == old(inode.zeroed) + PhysOf(ze)
  {
    inode.zeroed := inode.zeroed + PhysOf(ze);
  }

  /** The tree still lacks the second part of extent n of the run s it is to hold again. */
  ghost predicate Lacking(inode: Inode, path: seq<Step>, s: seq<Extent>, n: nat, e1: Extent, split: nat,
                          u: multiset<nat>)
    reads inode
  {
    && inode.Stored() && WellFormed(inode.t, inode.cap) && inode.cap > ROOT_CAP
    && Sorted(s) && n < |s| && n == Pos(s, split)
    && e1.block == s[n].block && Exts(inode.t) == s[..n] + [e1] + s[n + 1..]
    && Searchable(inode.t) && SearchPath(inode.t, split, path)
    && Clean(u) && u == Blocks(inode.t) + Data(s) + multiset(inode.free)
  }

  /** The state after a split: what it says about the file, the account of blocks and the zeroed blocks. */
  ghost predicate CutDone(inode: Inode, how: How, err: Status, e: Extent, split: nat, fl: SplitFlags, m: LogicalMap,
                          u: multiset<nat>, z: set<nat>)
    requires SplitPoint(e, split, fl) && e.block < split
    reads inode
  {
    && inode.Valid() && inode.Universe() == u && Ended(how, err, fl)
    && inode.Contents() == MapAfter(how, e, split, fl, m) && inode.zeroed == ZeroedAfter(how, e, split, fl, z)
  }

  /** Zero what the split would have kept apart, then convert the whole extent. */
  method ZeroAndConvert(inode: Inode, path: seq<Step>, e: Extent, split: nat, fl: SplitFlags, room: bool,
                        ghost s: seq<Extent>, ghost n: nat, ghost e1: Extent, ghost u: multiset<nat>,
                        ghost m: LogicalMap, ghost z: set<nat>)
    requires SplitPoint(e, split, fl) && e.block < split && fl.mayZeroout
    requires Lacking(inode, path, s, n, e1, split, u) && e == s[n] && m == LMap(s) && z == inode.zeroed
    modifies inode`root, inode`disk, inode`free, inode`t, inode`zeroed
    ensures CutDone(inode, Zeroed, Ok, e, split, fl, m, u, z)
  {
    Zeroout(inode, ZeroPart(e, split, fl));
    RelabelRun(s, n, Whole(e, false));
    var j := Undo(inode, path, Whole(e, false), s, n, split, e1, u);
    MergeFound(inode, path, j, room, FindPath(inode.t, split));
  }

  /** fix_extent_len: the extent gets its old length and state back. */
  method Restore(inode: Inode, path: seq<Step>, e: Extent, ghost s: seq<Extent>, ghost n: nat,
                 ghost e1: Extent, ghost split: nat, ghost u: multiset<nat>)
    requires Lacking(inode, path, s, n, e1, split, u) && e == s[n]
    modifies inode`root, inode`disk, inode`t
    ensures inode.Valid() && inode.Universe() == u && Exts(inode.t) == s
  {
    AroundEntry(s, n);
    assert ExtentOk(s[n]);
    var j := Undo(inode, path, e, s, n, split, e1, u);
  }

  /** No block for the second part: zero and convert the whole extent, or restore it. */
  method FailedCut(inode: Inode, path: seq<Step>, e: Extent, split: nat, fl: SplitFlags, room: bool,
                   ghost e1: Extent, ghost s: seq<Extent>, ghost n: nat, ghost u: multiset<nat>, ghost m: LogicalMap)
    returns (err: Status, how: How)
    requires SplitPoint(e, split, fl) && e.block < split && m == LMap(s)
    requires Lacking(inode, path, s, n, e1, split, u) && e == s[n]
    modifies inode`root, inode`disk, inode`free, inode`t, inode`zeroed
    ensures CutDone(inode, how, err, e, split, fl, m, u, old(inode.zeroed)) && how != Parted
    ensures how == Untouched ==> Exts(inode.t) == s
  {
    if fl.mayZeroout {
      ZeroAndConvert(inode, path, e, split, fl, room, s, n, e1, u, m, inode.zeroed);
      err, how := Ok, Zeroed;
    } else {
      Restore(inode, path, e, s, n, e1, split, u);
      err, how := ENOSPC, Untouched;
    }
  }

  /** A failed insertion of the second part leaves the tree lacking exactly that part. */
  lemma NowLacking(inode: Inode, path: seq<Step>, s: seq<Extent>, n: nat, e: Extent, split: nat, fl: SplitFlags,
                   e1: Extent, e2: Extent, u: multiset<nat>)
    requires SplitPoint(e, split, fl) && e.block < split && Clean(u)
    requires e1 == First(e, split, fl.markUninit1) && e2 == Second(e, split, fl.markUninit2)
    requires inode.Stored() && WellFormed(inode.t, inode.cap) && inode.cap > ROOT_CAP
    requires Sorted(s) && n < |s| && n == Pos(s, split) && e == s[n]
    requires Exts(inode.t) == s[..n] + [e1] + s[n + 1..]
    requires Searchable(inode.t) && SearchPath(inode.t, split, path)
    requires inode.Universe() + DataOf(e2) == u
    ensures Lacking(inode, path, s, n, e1, split, u)
  {
    PartsOk(e, split, fl);
    TrimBack(s, n, e1, e2);
    SplitSpaceBack(Blocks(inode.t), Data(Exts(inode.t)), Data(s), multiset(inode.free), DataOf(e2), u);
  }

  /** Trim the extent and try to insert its second part. */
  method TryCut(inode: Inode, path: seq<Step>, e: Extent, split: nat, fl: SplitFlags, preIO: bool, supply: Supply,
                e1: Extent, e2: Extent, ghost s: seq<Extent>, ghost n: nat, ghost m: LogicalMap,
                ghost u: multiset<nat>, ghost fits: bool)
    returns (err: Status, path': seq<Step>, ghost q': Path)
    requires inode.Valid() && OnEntry(inode.t, split, path) && e == Entry(inode.t, split)
    requires SplitPoint(e, split, fl) && e.block < split
    requires e1 == First(e, split, fl.markUninit1) && e2 == Second(e, split, fl.markUninit2)
    requires s == Exts(inode.t) && n == Pos(s, split) && m == inode.Contents() && u == inode.Universe()
    requires fits <==> Partable(inode.t, e1, e2, preIO, Within(supply.blocks, inode.free))
    modifies inode`root, inode`disk, inode`free, inode`t
    ensures err == Ok || err == ENOSPC
    ensures err == Ok <==> fits
    ensures err == Ok ==> CutDone(inode, Parted, err, e, split, fl, m, u, inode.zeroed)
    ensures err == Ok && preIO ==>
      PartsAt(old(inode.t), path, inode.t, q', path', split, s, n, e1, e2, old(inode.free), inode.free)
    ensures err == ENOSPC ==> Lacking(inode, path', s, n, e1, split, u)
  {
    PartsOk(e, split, fl);
    err, path', q' := TrimAndInsert(inode, path, e1, e2, preIO, supply, s, n, m, u);
    if err != Ok {
      NowLacking(inode, path', s, n, e, split, fl, e1, e2, u);
    }
  }

  /** Case a of ext4_split_extent_at: the split point lies inside the extent. */
  method CutExtent(inode: Inode, path: seq<Step>, e: Extent, split: nat, fl: SplitFlags, preIO: bool, supply: Supply,
                   e1: Extent, e2: Extent, ghost s: seq<Extent>, ghost n: nat, ghost m: LogicalMap,
                   ghost u: multiset<nat>, ghost z: set<nat>, ghost fits: bool)
    returns (err: Status, path': seq<Step>, ghost q': Path, how: How)
    requires inode.Valid() && OnEntry(inode.t, split, path) && e == Entry(inode.t, split)
    requires SplitPoint(e, split, fl) && e.block < split
    requires e1 == First(e, split, fl.markUninit1) && e2 == Second(e, split, fl.markUninit2)
    requires s == Exts(inode.t) && n == Pos(s, split) && m == inode.Contents()
    requires u == inode.Universe() && z == inode.zeroed
    requires fits <==> Partable(inode.t, e1, e2, preIO, Within(supply.blocks, inode.free))
    modifies inode`root, inode`disk, inode`free, inode`t, inode`zeroed
    ensures CutDone(inode, how, err, e, split, fl, m, u, z) && (how == Parted <==> fits)
    ensures how == Untouched ==> Exts(inode.t) == s
    ensures how == Parted && preIO ==>
      PartsAt(old(inode.t), path, inode.t, q', path', split, s, n, e1, e2, old(inode.free), inode.free)
  {
    err, path', q' := TryCut(inode, path, e, split, fl, preIO, supply, e1, e2, s, n, m, u, fits);
    if err == Ok {
      how := Parted;
    } else {
      err, how := FailedCut(inode, path', e, split, fl, supply.room, e1, s, n, u, m);
    }
  }

  /**
   ext4_split_extent_at: split the found extent before block `split`, labelling the parts
   as the flags say; when no block can be had for the split and the caller allows it, zero
   what must not be exposed and mark the whole extent initialised; otherwise change nothing.
   A split at the extent's first block only relabels it. The parts are kept apart exactly if
   there is a place for the second one, or if both are initialised and may be merged again.
   */
  method SplitExtentAt(inode: Inode, path: seq<Step>, split: nat, fl: SplitFlags, preIO: bool, supply: Supply)
    returns (err: Status, path': seq<Step>, ghost q': Path, how: How)
    requires inode.Valid() && OnEntry(inode.t, split, path) && SplitPoint(Entry(inode.t, split), split, fl)
    modifies inode`root, inode`disk, inode`free, inode`t, inode`zeroed
    ensures inode.Valid() && inode.Universe() == old(inode.Universe())
    ensures var e := old(Entry(inode.t, split));
      split == e.block ==>
        && err == Ok && inode.zeroed == old(inode.zeroed)
        && inode.Contents() == old(inode.Contents()) + MapOf(Whole(e, fl.markUninit2))
    ensures var e := old(Entry(inode.t, split));
      split > e.block ==>
        && Ended(how, err, fl)
        && (how == Parted <==>
              || (!preIO && !fl.markUninit1 && !fl.markUninit2)
              || old(Placeable(inode.t, split, Within(supply.blocks, inode.free))))
        && inode.Contents() == MapAfter(how, e, split, fl, old(inode.Contents()))
        && inode.zeroed == ZeroedAfter(how, e, split, fl, old(inode.zeroed))
        && (how == Untouched ==> Exts(inode.t) == old(Exts(inode.t)))
    ensures var e := old(Entry(inode.t, split));
      how == Parted && preIO && split > e.block ==>
        PartsAt(old(inode.t), path, inode.t, q', path', split, old(Exts(inode.t)), old(Pos(Exts(inode.t), split)),
                First(e, split, fl.markUninit1), Second(e, split, fl.markUninit2), old(inode.free), inode.free)
  {
    path', q', how := path, FindPath(inode.t, split), Parted;
    var e, j := ReadFound(inode, path, split);
    if split == e.block {
      RelabelFound(inode, path, Whole(e, fl.markUninit2), preIO, supply.room, split);
      return Ok, path', q', how;
    }
    var e1, e2 := First(e, split, fl.markUninit1), Second(e, split, fl.markUninit2);
    PartsMerge(e, split, fl);
    ghost var fits := Partable(inode.t, e1, e2, preIO, Within(supply.blocks, inode.free));
    err, path', q', how := CutExtent(inode, path, e, split, fl, preIO, supply, e1, e2, Exts(inode.t),
                                     Pos(Exts(inode.t), split), inode.Contents(), inode.Universe(),
                                     inode.zeroed, fits);
  }

  lemma TrimBack(s: seq<Extent>, n: nat, e1: Extent, e2: Extent)
    requires n < |s| && Len(e1) + Len(e2) == Len(s[n]) && e1.pblk == s[n].pblk && e2.pblk == s[n].pblk + Len(e1)
    ensures Data(s[..n] + [e1] + s[n + 1..]) + DataOf(e2) == Data(s)
  {
    AroundEntry(s, n);
    TrimData(s[..n], s[n], s[n + 1..], e1, e2);
  }
}
