/**
 Writing into preallocated space: ext4_split_extent and ext4_ext_convert_to_initialized,
 seen as changes of the logical map.
 */
module ExtentWritten {
  import opened Extents
  import opened ExtentTrees
  import opened ExtentSearch
  import opened Inodes
  import opened TreeUpdates
  import opened ExtentSplit
  import opened ExtentGrow
  import opened ExtentMerge
  import opened ExtentNeighbours
  import opened ExtentInsert
  import opened ExtentConvert

  // ----- maps -------------------------------------------------------------------------

  /** The same blocks are mapped, to the same places. */
  ghost predicate SameSpots(m: LogicalMap, m': LogicalMap) {
    m'.Keys == m.Keys && forall b :: b in m ==> m'[b].pblk == m[b].pblk
  }

  /**
   A conversion step: nothing moves, nothing becomes uninitialised, and a block outside
   lo..hi-1 that became initialised had its physical block zeroed.
   */
  ghost predicate Converts(m: LogicalMap, m': LogicalMap, lo: nat, hi: nat, zeroed: set<nat>) {
    && SameSpots(m, m')
    && (forall b :: b in m && !m[b].uninit ==> !m'[b].uninit)
    && (forall b :: b in m && m[b].uninit && !m'[b].uninit ==> lo <= b < hi || m[b].pblk in zeroed)
  }

  /** Block b lies in one of the extents. */
  predicate InSome(zs: seq<Extent>, b: nat) {
    exists i :: 0 <= i < |zs| && Covers(zs[i], b)
  }

  /** The file holds the blocks of z as initialised, at its place. */
  ghost predicate Holds(m: LogicalMap, z: Extent) {
    forall b: nat :: Covers(z, b) ==> b in m && m[b] == Mapping(z.pblk + (b - z.block), false)
  }

  /**
   `zs` is the log of the calls of ext4_es_zeroout: every block outside lo..hi-1 that became
   initialised is in one of its extents, and the file holds them.
   */
  ghost predicate Logged(m: LogicalMap, m': LogicalMap, lo: nat, hi: nat, zs: seq<Extent>) {
    && (forall b :: b in m && b in m' && m[b].uninit && !m'[b].uninit ==> lo <= b < hi || InSome(zs, b))
    && forall i :: 0 <= i < |zs| ==> Holds(m', zs[i]) && End(zs[i]) <= EXT_MAX_BLOCKS
  }

  /** All of zs lies inside e. */
  ghost predicate Inside(zs: seq<Extent>, e: Extent) {
    forall i :: 0 <= i < |zs| ==> e.block <= zs[i].block && End(zs[i]) <= End(e)
  }

  /** Outside lo..hi-1 everything is mapped as before, in the same state. */
  ghost predicate Kept(m: LogicalMap, m': LogicalMap, lo: nat, hi: nat) {
    forall b :: b in m && !(lo <= b < hi) ==> b in m' && m'[b] == m[b]
  }

  /** What is not logged stays as it is. */
  lemma LoggedKeeps(m: LogicalMap, m': LogicalMap, lo: nat, hi: nat, to: nat, zs: seq<Extent>, e: Extent,
                    zeroed: set<nat>)
    requires Converts(m, m', lo, hi, zeroed) && Logged(m, m', lo, to, zs) && Inside(zs, e)
    requires e.block <= lo && to <= End(e)
    ensures Kept(m, m', e.block, End(e)) && (zs == [] ==> Kept(m, m', lo, to))
  {
    forall b | b in m && !(e.block <= b < End(e)) ensures !InSome(zs, b) {
    }
  }

  lemma LoggedSelf(m: LogicalMap, lo: nat, hi: nat)
    ensures Logged(m, m, lo, hi, [])
  {
  }

  /** With nothing zeroed every conversion lies in the range. */
  lemma LoggedConverts(m: LogicalMap, m': LogicalMap, lo: nat, hi: nat)
    requires Converts(m, m', lo, hi, {})
    ensures Logged(m, m', lo, hi, [])
  {
  }

  lemma HoldsOn(m: LogicalMap, m': LogicalMap, lo: nat, hi: nat, zeroed: set<nat>, z: Extent)
    requires Holds(m, z) && Converts(m, m', lo, hi, zeroed)
    ensures Holds(m', z)
  {
    forall b: nat | Covers(z, b) ensures b in m' && m'[b] == Mapping(z.pblk + (b - z.block), false) {
      assert b in m;
    }
  }

  lemma LoggedTrans(m: LogicalMap, m1: LogicalMap, m2: LogicalMap, lo: nat, lo2: nat, hi: nat, hi1: nat, hi2: nat,
                    zs: seq<Extent>, zs2: seq<Extent>, zeroed: set<nat>)
    requires SameSpots(m, m1) && Logged(m, m1, lo, hi1, zs) && Logged(m1, m2, lo2, hi2, zs2)
    requires Converts(m1, m2, lo2, hi, zeroed) && lo <= lo2
    ensures Logged(m, m2, lo, Max(hi1, hi2), zs + zs2)
  {
    var all := zs + zs2;
    forall i | 0 <= i < |all| ensures Holds(m2, all[i]) && End(all[i]) <= EXT_MAX_BLOCKS {
      if i < |zs| {
        HoldsOn(m1, m2, lo2, hi, zeroed, zs[i]);
      }
    }
    forall b | b in m && b in m2 && m[b].uninit && !m2[b].uninit ensures lo <= b < Max(hi1, hi2) || InSome(all, b) {
      if m1[b].uninit {
        LaterOf(zs, zs2, b);
      } else if !(lo <= b < hi1) {
        var i :| 0 <= i < |zs| && Covers(zs[i], b);
        assert all[i] == zs[i];
      }
    }
  }

  lemma LaterOf(zs: seq<Extent>, zs2: seq<Extent>, b: nat)
    ensures InSome(zs2, b) ==> InSome(zs + zs2, b)
  {
    if InSome(zs2, b) {
      var i :| 0 <= i < |zs2| && Covers(zs2[i], b);
      assert (zs + zs2)[|zs| + i] == zs2[i];
    }
  }

  /** A whole extent converted and logged. */
  lemma LoggedWhole(m: LogicalMap, e: Extent, lo: nat, hi: nat)
    requires Agrees(m, e) && ExtentOk(e)
    ensures Logged(m, m + MapOf(Whole(e, false)), lo, hi, [Whole(e, false)])
  {
    var f := Whole(e, false);
    var m', zs := m + MapOf(f), [f];
    forall b | b in m && b in m' && m[b].uninit && !m'[b].uninit ensures InSome(zs, b) {
      assert b in MapOf(f);
      assert Covers(zs[0], b);
    }
    forall b: nat | Covers(f, b) ensures b in m' && m'[b] == Mapping(f.pblk + (b - f.block), false) {
      assert b in MapOf(f);
    }
  }

  ghost predicate Initialised(m: LogicalMap, lo: nat, hi: nat) {
    forall b :: lo <= b < hi ==> b in m && !m[b].uninit
  }

  lemma ConvertsSelf(m: LogicalMap, lo: nat, hi: nat, zeroed: set<nat>)
    ensures Converts(m, m, lo, hi, zeroed)
  {
  }

  lemma ConvertsTrans(m: LogicalMap, m1: LogicalMap, m2: LogicalMap, lo: nat, hi: nat, z1: set<nat>, z2: set<nat>)
    requires Converts(m, m1, lo, hi, z1) && Converts(m1, m2, lo, hi, z2) && z1 <= z2
    ensures Converts(m, m2, lo, hi, z2)
  {
    forall b | b in m && m[b].uninit && !m2[b].uninit ensures lo <= b < hi || m[b].pblk in z2 {
      if !m1[b].uninit {
        assert lo <= b < hi || m[b].pblk in z1;
      }
    }
  }

  /** The map agrees with extent e on all of e. */
  ghost predicate Agrees(m: LogicalMap, e: Extent) {
    forall b :: Covers(e, b) ==> b in m && m[b] == MapOf(e)[b]
  }

  lemma EntryAgrees(s: seq<Extent>, n: nat)
    requires Sorted(s) && n < |s|
    ensures Agrees(LMap(s), s[n])
  {
    forall b | Covers(s[n], b) ensures b in LMap(s) && LMap(s)[b] == MapOf(s[n])[b] {
      LMapAt(s, n, b);
    }
  }

  /** Overriding part of an extent with the same places, f initialised: a conversion of that part. */
  lemma OverrideInit(m: LogicalMap, e: Extent, f: Extent, lo: nat, hi: nat, zeroed: set<nat>)
    requires Agrees(m, e) && e.block <= f.block && End(f) <= End(e) && f.pblk == e.pblk + (f.block - e.block)
    requires !IsUninit(f)
    requires (lo <= f.block && End(f) <= hi) || PhysOf(f) <= zeroed
    ensures Converts(m, m + MapOf(f), lo, hi, zeroed)
    ensures Initialised(m + MapOf(f), f.block, End(f))
  {
    var m' := m + MapOf(f);
    forall b | b in MapOf(f)
      ensures b in m && m'[b].pblk == m[b].pblk && !m'[b].uninit && (lo <= b < hi || m[b].pblk in zeroed)
    {
      assert Covers(e, b);
      assert InRun(f.pblk, Len(f), f.pblk + (b - f.block));
      assert f.pblk + (b - f.block) in PhysOf(f);
    }
    forall b | f.block <= b < End(f) ensures b in m' && !m'[b].uninit {
      assert Covers(f, b);
    }
  }

  /** Overriding part of an extent with the same places and the same state changes nothing. */
  lemma OverrideSame(m: LogicalMap, e: Extent, f: Extent)
    requires Agrees(m, e) && e.block <= f.block && End(f) <= End(e) && f.pblk == e.pblk + (f.block - e.block)
    requires IsUninit(f) == IsUninit(e)
    ensures m + MapOf(f) == m
  {
    forall b | b in MapOf(f) ensures b in m && m[b] == MapOf(f)[b] {
      assert Covers(e, b);
    }
  }

  // ----- finding the same extent again ----------------------------------------------------

  lemma PosCovers(s: seq<Extent>, n: nat, b: nat)
    requires Sorted(s) && n < |s| && Covers(s[n], b)
    ensures Pos(s, b) == n
  {
    SortedIncreasing(s);
    forall k | n < k < |s| ensures b < Starts(s)[k] {
    }
    ScanIsPick(Starts(s), b, n);
  }

  /** A mapped block is covered by the extent the search for it finds. */
  lemma EntryCovers(s: seq<Extent>, b: nat)
    requires Sorted(s) && b in LMap(s)
    ensures s != [] && Pos(s, b) < |s| && Covers(s[Pos(s, b)], b) && LMap(s)[b] == MapOf(s[Pos(s, b)])[b]
  {
    LMapDomain(s, b);
    var n :| 0 <= n < |s| && Covers(s[n], b);
    PosCovers(s, n, b);
    LMapAt(s, n, b);
  }

  /** Two blocks of one extent have the same search path. */
  lemma SamePath(t: Tree, cap: nat, b: nat, b': nat, path: seq<Step>)
    requires WellFormed(t, cap) && OnEntry(t, b, path) && Covers(Entry(t, b), b) && Covers(Entry(t, b), b')
    ensures OnEntry(t, b', path) && Entry(t, b') == Entry(t, b) && FindPath(t, b') == FindPath(t, b)
  {
    var s, n := Exts(t), Pos(Exts(t), b);
    PosCovers(s, n, b');
    EntryOfSearch(t, cap, b);
    EntryOfSearch(t, cap, b');
    var q, q' := FindPath(t, b), FindPath(t, b');
    assert s[n] in At(t, q).exts && s[n] in At(t, q').exts;
    OwnerUnique(t, q, q', s[n]);
    var x := At(t, q).exts;
    assert |LeftOf(t, q) + x[..Scan(Starts(x), b)]| == |LeftOf(t, q) + x[..Scan(Starts(x), b')]|;
  }

  // ----- the effect of one split on the map -------------------------------------------------

  /** Both halves of an extent with its own state: the map is unchanged. */
  lemma PartedSame(m: LogicalMap, e: Extent, split: nat, fl: SplitFlags)
    requires SplitPoint(e, split, fl) && e.block < split && Agrees(m, e) && IsUninit(e)
    requires fl.markUninit1 && fl.markUninit2
    ensures MapAfter(Parted, e, split, fl, m) == m
  {
    OverrideSame(m, e, First(e, split, true));
    OverrideSame(m, e, Second(e, split, true));
  }

  /** First half kept, second half initialised. */
  lemma PartedInit(m: LogicalMap, e: Extent, split: nat, fl: SplitFlags, hi: nat, zeroed: set<nat>)
    requires SplitPoint(e, split, fl) && e.block < split && Agrees(m, e)
    requires fl.markUninit1 == IsUninit(e) && !fl.markUninit2 && (IsUninit(e) ==> End(e) <= hi)
    ensures Converts(m, MapAfter(Parted, e, split, fl, m), split, hi, zeroed)
    ensures Initialised(MapAfter(Parted, e, split, fl, m), split, End(e))
  {
    OverrideSame(m, e, First(e, split, fl.markUninit1));
    if IsUninit(e) {
      OverrideInit(m, e, Second(e, split, false), split, hi, zeroed);
    } else {
      OverrideSame(m, e, Second(e, split, false));
      ConvertsSelf(m, split, hi, zeroed);
      forall b | split <= b < End(e) ensures b in m && !m[b].uninit {
        assert Covers(e, b);
      }
    }
  }

  lemma ZeroPartInside(e: Extent, split: nat, fl: SplitFlags)
    requires ExtentOk(e) && e.block < split < End(e)
    ensures Inside([ZeroPart(e, split, fl)], e)
  {
  }

  /** The whole extent converted; what lies outside lo..hi-1 was zeroed. */
  lemma ZeroedConverts(m: LogicalMap, e: Extent, split: nat, fl: SplitFlags, lo: nat, hi: nat, zeroed0: set<nat>)
    requires SplitPoint(e, split, fl) && e.block < split && Agrees(m, e)
    requires fl.dataValid1 ==> lo <= e.block && split <= hi
    requires fl.dataValid2 ==> lo <= split && End(e) <= hi
    ensures Converts(m, MapAfter(Zeroed, e, split, fl, m), lo, hi, ZeroedAfter(Zeroed, e, split, fl, zeroed0))
    ensures Initialised(MapAfter(Zeroed, e, split, fl, m), e.block, End(e))
  {
    var f := Whole(e, false);
    var m', z := m + MapOf(f), ZeroedAfter(Zeroed, e, split, fl, zeroed0);
    var ze := ZeroPart(e, split, fl);
    OverrideInit(m, e, f, e.block, End(e), {});
    forall b | b in m && m[b].uninit && !m'[b].uninit ensures lo <= b < hi || m[b].pblk in z {
      assert Covers(e, b);
      if Covers(ze, b) {
        assert InRun(ze.pblk, Len(ze), m[b].pblk);
        assert m[b].pblk in PhysOf(ze);
      }
    }
  }

  // ----- ext4_split_extent ---------------------------------------------------------------------

  /**
   What the second half of ext4_split_extent finds: the first part of e, ending at `top`, or
   an extent that is initialised.
   */
  ghost predicate RearDone(s: seq<Extent>, m: LogicalMap, e: Extent, lblk: nat, top: nat, rear: How) {
    && lblk in m && s != [] && Pos(s, lblk) < |s|
    && (m[lblk].uninit ==> End(s[Pos(s, lblk)]) <= top)
    && (End(s[Pos(s, lblk)]) >= top || Initialised(m, lblk, top))
    && if rear == Zeroed then !IsUninit(s[Pos(s, lblk)])
       else IsUninit(s[Pos(s, lblk)]) && s[Pos(s, lblk)].block == e.block
  }

  /** The leaf found for b has two free slots. */
  ghost predicate HasTwoSlots(t: Tree, b: nat)
    requires Shape(t) && Searchable(t)
  {
    var q := FindPath(t, b);
    PathIn(t, q) && At(t, q).Leaf? && |At(t, q).exts| + 1 < At(t, q).max
  }

  /** How the split behind the request must end: it is needed only if e reaches beyond hi. */
  ghost predicate RearEnds(t: Tree, e: Extent, hi: nat, mayZeroout: bool, pool: nat, rear: How)
    requires Shape(t)
  {
    if End(e) <= hi || (Searchable(t) && Placeable(t, hi, pool)) then rear == Parted
    else rear == if mayZeroout then Zeroed else Untouched
  }

  /**
   The split in front of lblk gets through: none is needed, or the extent may be zeroed or
   merged again, or there is a place for the second part.
   */
  ghost predicate FrontEnds(t: Tree, lblk: nat, mayZeroout: bool, preIO: bool, pool: nat)
    requires Shape(t)
  {
    && Searchable(t) && Exts(t) != [] && Pos(Exts(t), lblk) < |Exts(t)|
    && var e := Entry(t, lblk);
       lblk == e.block || (if IsUninit(e) then mayZeroout else !preIO) || Placeable(t, lblk, pool)
  }

  /** A leaf that had a free slot has one left for the second split if there were two. */
  ghost predicate OneTaken(t0: Tree, t: Tree, b: nat, free0: set<nat>, free: set<nat>)
    requires Shape(t0) && Searchable(t0) && Shape(t) && Searchable(t)
  {
    HasSlot(t0, b) ==>
      && free == free0 && LeafCost(t, b) == LeafCost(t0, b)
      && (HasSlot(t, b) <==> HasTwoSlots(t0, b)) && !NextHasSlot(t, b)
  }

  lemma SlotTaken(t0: Tree, t: Tree, cap: nat, b: nat, hi: nat, q: Path, e1: Extent, e2: Extent, free0: set<nat>,
                  free: set<nat>)
    requires Shape(t0) && Searchable(t0) && FindPath(t0, hi) == FindPath(t0, b)
    requires WellFormed(t, cap) && Searchable(t) && Exts(t) != [] && Pos(Exts(t), b) < |Exts(t)|
    requires Entry(t, b) == e1 && b < e2.block
    requires CutBeside(t0, t, hi, q, e1, e2) && (HasSlot(t0, hi) ==> free == free0)
    ensures OneTaken(t0, t, b, free0, free)
  {
    if HasSlot(t0, hi) {
      FoundAt(t, cap, b, q, e1);
      NotBehind(t, b, q, e2);
    }
  }

  /** The search ends at the leaf that holds the extent of the file picked for b. */
  lemma FoundAt(t: Tree, cap: nat, b: nat, q: Path, e: Extent)
    requires WellFormed(t, cap) && Searchable(t) && Exts(t) != [] && Pos(Exts(t), b) < |Exts(t)| && Entry(t, b) == e
    requires PathIn(t, q) && At(t, q).Leaf? && e in At(t, q).exts
    ensures FindPath(t, b) == q
  {
    EntryOfSearch(t, cap, b);
    OwnerUnique(t, FindPath(t, b), q, e);
  }

  /** With an extent behind b in the leaf found the next leaf is not asked. */
  lemma NotBehind(t: Tree, b: nat, q: Path, e: Extent)
    requires Shape(t) && Searchable(t) && Sorted(Exts(t)) && FindPath(t, b) == q
    requires PathIn(t, q) && At(t, q).Leaf? && e in At(t, q).exts && b < e.block
    ensures !NextHasSlot(t, b)
  {
    LeafSorted(t, q);
    LastMost(At(t, q).exts, e);
  }

  /** With the data-valid flag a first split that ends in zeroing clears nothing in front of the request. */
  ghost predicate Bare(fl: SplitFlags, rear: How) {
    fl.dataValid2 && rear == Zeroed
  }

  /** No block of lo..hi-1 has been zeroed since. */
  ghost predicate NotCleared(m: LogicalMap, lo: nat, hi: nat, zeroed: set<nat>, zeroed': set<nat>) {
    forall b :: b in m && lo <= b < hi && m[b].pblk in zeroed' ==> m[b].pblk in zeroed
  }

  /** The state after the first split of the request lblk..hi-1 off the extent e, which ended as `rear` says. */
  ghost predicate Begun(m: LogicalMap, m': LogicalMap, e: Extent, lblk: nat, hi: nat, fl: SplitFlags, rear: How,
                        zs: seq<Extent>, zeroed: set<nat>, zeroed': set<nat>)
  {
    && zeroed <= zeroed'
    && Converts(m, m', if Bare(fl, rear) then e.block else lblk, hi, zeroed')
    && Logged(m, m', if Bare(fl, rear) then e.block else lblk, if Bare(fl, rear) then hi else lblk, zs)
    && (Bare(fl, rear) ==> Initialised(m', e.block, End(e)) && NotCleared(m, e.block, lblk, zeroed, zeroed'))
  }

  /** The first split, behind the requested range: both parts keep their state. */
  method SplitBehind(inode: Inode, path: seq<Step>, e: Extent, lblk: nat, hi: nat, fl: SplitFlags, supply: Supply)
    returns (err: Status, zs: seq<Extent>, rear: How)
    requires inode.Valid() && OnEntry(inode.t, lblk, path) && e == Entry(inode.t, lblk)
    requires IsUninit(e) && Covers(e, lblk) && lblk < hi < End(e)
    modifies inode`root, inode`disk, inode`free, inode`t, inode`zeroed
    ensures inode.Valid() && inode.Universe() == old(inode.Universe()) && Ended(rear, err, fl)
    ensures Begun(old(inode.Contents()), inode.Contents(), e, lblk, hi, fl, rear, zs, old(inode.zeroed), inode.zeroed)
    ensures err == Ok ==> RearDone(Exts(inode.t), inode.Contents(), e, lblk, hi, rear)
    ensures RearEnds(old(inode.t), e, hi, fl.mayZeroout, Within(supply.blocks, old(inode.free)), rear)
    ensures rear == Parted ==>
      Searchable(inode.t) && OneTaken(old(inode.t), inode.t, lblk, old(inode.free), inode.free)
    ensures rear != Zeroed ==> zs == [] && inode.zeroed == old(inode.zeroed)
    ensures Inside(zs, e)
  {
    ghost var s, n, m, z := Exts(inode.t), Pos(Exts(inode.t), lblk), inode.Contents(), inode.zeroed;
    assert ExtentOk(s[n]);
    var fl1 := SplitFlags(fl.mayZeroout, true, true, fl.dataValid2, false);
    err, rear := CutBehind(inode, path, e, lblk, hi, fl1, supply, m, z);
    zs := if rear == Zeroed then [ZeroPart(e, hi, fl1)] else [];
    ZeroPartInside(e, hi, fl1);
    BehindBegun(s, n, m, e, lblk, hi, fl, fl1, rear, zs, z);
    if err == Ok {
      RearSplit(Exts(inode.t), inode.Contents(), e, lblk, hi, rear);
    }
  }

  method CutBehind(inode: Inode, path: seq<Step>, e: Extent, ghost lblk: nat, hi: nat, fl: SplitFlags, supply: Supply,
                   ghost m: LogicalMap, ghost z: set<nat>)
    returns (err: Status, how: How)
    requires inode.Valid() && OnEntry(inode.t, lblk, path) && e == Entry(inode.t, lblk) && ExtentOk(e)
    requires IsUninit(e) && Covers(e, lblk) && lblk < hi < End(e) && m == inode.Contents() && z == inode.zeroed
    requires fl.markUninit1 && fl.markUninit2 && SplitPoint(e, hi, fl)
    modifies inode`root, inode`disk, inode`free, inode`t, inode`zeroed
    ensures inode.Valid() && inode.Universe() == old(inode.Universe()) && Ended(how, err, fl)
    ensures inode.Contents() == MapAfter(how, e, hi, fl, m) && inode.zeroed == ZeroedAfter(how, e, hi, fl, z)
    ensures how == Parted ==>
      && lblk in inode.Contents() && Exts(inode.t) != [] && Pos(Exts(inode.t), lblk) < |Exts(inode.t)|
      && Entry(inode.t, lblk) == First(e, hi, true)
      && Searchable(inode.t) && OneTaken(old(inode.t), inode.t, lblk, old(inode.free), inode.free)
    ensures RearEnds(old(inode.t), e, hi, fl.mayZeroout, Within(supply.blocks, old(inode.free)), how)
  {
    ghost var s, t0, free0 := Exts(inode.t), inode.t, inode.free;
    SamePath(inode.t, inode.cap, lblk, hi, path);
    var path';
    ghost var q';
    err, path', q', how := SplitExtentAt(inode, path, hi, fl, true, supply);
    if how == Parted {
      PartedFound(s, Pos(s, hi), e, hi, fl, lblk, inode.t, q', path');
      WellFormedSearchable(inode.t);
      SlotTaken(t0, inode.t, inode.cap, lblk, hi, q', First(e, hi, true), Second(e, hi, true), free0, inode.free);
    }
  }

  /** Whatever way the first split ends. */
  lemma BehindBegun(s: seq<Extent>, n: nat, m: LogicalMap, e: Extent, lblk: nat, hi: nat, fl: SplitFlags,
                    fl1: SplitFlags, rear: How, zs: seq<Extent>, zeroed: set<nat>)
    requires Sorted(s) && n < |s| && e == s[n] && m == LMap(s) && Covers(e, lblk) && lblk < hi < End(e) && IsUninit(e)
    requires fl1 == SplitFlags(fl.mayZeroout, true, true, fl.dataValid2, false) && SplitPoint(e, hi, fl1)
    requires zs == if rear == Zeroed then [ZeroPart(e, hi, fl1)] else []
    ensures Begun(m, MapAfter(rear, e, hi, fl1, m), e, lblk, hi, fl, rear, zs, zeroed,
                  ZeroedAfter(rear, e, hi, fl1, zeroed))
    ensures rear == Zeroed ==> Initialised(MapAfter(rear, e, hi, fl1, m), e.block, End(e))
  {
    EntryAgrees(s, n);
    if rear == Zeroed {
      var lo := if fl.dataValid2 then e.block else lblk;
      ZeroedConverts(m, e, hi, fl1, lo, hi, zeroed);
      if fl.dataValid2 {
        BareLogged(m, e, hi);
        BareCleared(m, e, lblk, hi, zeroed);
      } else {
        LoggedWhole(m, e, lblk, lblk);
      }
    } else {
      PartedSame(m, e, hi, fl1);
      ConvertsSelf(m, lblk, hi, zeroed);
      LoggedSelf(m, lblk, lblk);
    }
  }

  /** The extent converted as a whole with its second part logged. */
  lemma BareLogged(m: LogicalMap, e: Extent, split: nat)
    requires ExtentOk(e) && IsUninit(e) && e.block < split < End(e) && Agrees(m, e)
    ensures Logged(m, m + MapOf(Whole(e, false)), e.block, split, [Second(e, split, false)])
  {
    var f, m' := Second(e, split, false), m + MapOf(Whole(e, false));
    PartLogged(m, e, f);
    forall b | b in m && b in m' && m[b].uninit && !m'[b].uninit ensures e.block <= b < split || InSome([f], b) {
      assert b in MapOf(Whole(e, false));
      assert e.block <= b < split || Covers([f][0], b);
    }
  }

  /** The extent converted as a whole holds each of its parts. */
  lemma PartLogged(m: LogicalMap, e: Extent, f: Extent)
    requires ExtentOk(e) && !IsUninit(f) && e.block <= f.block && End(f) <= End(e)
    requires f.pblk == e.pblk + (f.block - e.block)
    ensures Holds(m + MapOf(Whole(e, false)), f) && End(f) <= EXT_MAX_BLOCKS
  {
    var m' := m + MapOf(Whole(e, false));
    forall b: nat | Covers(f, b) ensures b in m' && m'[b] == Mapping(f.pblk + (b - f.block), false) {
      assert Covers(Whole(e, false), b);
      assert b in MapOf(Whole(e, false));
    }
  }

  /** Zeroing the second part clears nothing of the first. */
  lemma BareCleared(m: LogicalMap, e: Extent, lblk: nat, split: nat, zeroed: set<nat>)
    requires ExtentOk(e) && IsUninit(e) && e.block <= lblk < split < End(e) && Agrees(m, e)
    ensures NotCleared(m, e.block, lblk, zeroed, zeroed + PhysOf(Second(e, split, false)))
  {
    forall b | b in m && e.block <= b < lblk ensures m[b].pblk !in PhysOf(Second(e, split, false)) {
      assert Covers(e, b);
    }
  }

  lemma RearSplit(s: seq<Extent>, m: LogicalMap, e: Extent, lblk: nat, top: nat, how: How)
    requires Sorted(s) && m == LMap(s) && ExtentOk(e) && IsUninit(e) && e.block <= lblk < top < End(e)
    requires how != Untouched
    requires how == Parted ==>
      lblk in m && s != [] && Pos(s, lblk) < |s| && s[Pos(s, lblk)] == First(e, top, true)
    requires how == Zeroed ==> Initialised(m, e.block, End(e))
    ensures RearDone(s, m, e, lblk, top, how)
  {
    if how == Zeroed {
      EntryCovers(s, lblk);
    }
  }

  lemma PartedFound(s: seq<Extent>, n: nat, e: Extent, hi: nat, fl: SplitFlags, lblk: nat, t: Tree, q: Path,
                    path: seq<Step>)
    requires n < |s| && e == s[n] && Sorted(s) && Sorted(Exts(t)) && SplitPoint(e, hi, fl) && e.block <= lblk < hi
    requires IsUninit(e) && fl.markUninit1 && fl.markUninit2
    requires CutPlaced(t, q, path, hi, s, n, First(e, hi, fl.markUninit1), Second(e, hi, fl.markUninit2))
    ensures lblk in LMap(Exts(t)) && Exts(t) != [] && Pos(Exts(t), lblk) < |Exts(t)|
    ensures Entry(t, lblk) == First(e, hi, true)
  {
    var s' := Exts(t);
    FirstFound(s, n, First(e, hi, true), Second(e, hi, true), lblk, s');
  }

  lemma FirstFound(s: seq<Extent>, n: nat, e1: Extent, e2: Extent, b: nat, s': seq<Extent>)
    requires n < |s| && s' == s[..n] + [e1, e2] + s[n + 1..] && Sorted(s') && Covers(e1, b)
    ensures s' != [] && Pos(s', b) == n < |s'| && s'[n] == e1 && b in LMap(s')
  {
    assert s'[n] == e1;
    PosCovers(s', n, b);
    LMapAt(s', n, b);
  }

  /** The second split, in front of the requested range: the second part takes the new state. */
  method SplitFront(inode: Inode, path: seq<Step>, e: Extent, lblk: nat, ghost hi: nat, fl: SplitFlags, preIO: bool,
                    supply: Supply)
    returns (err: Status, zs: seq<Extent>)
    requires inode.Valid() && OnEntry(inode.t, lblk, path) && e == Entry(inode.t, lblk) && Covers(e, lblk)
    requires IsUninit(e) ==> End(e) <= hi
    modifies inode`root, inode`disk, inode`free, inode`t, inode`zeroed
    ensures inode.Valid() && inode.Universe() == old(inode.Universe())
    ensures (err == Ok || err == ENOSPC) && old(inode.zeroed) <= inode.zeroed
    ensures err == Ok <==>
      old(FrontEnds(inode.t, lblk, fl.mayZeroout, preIO, Within(supply.blocks, inode.free)))
    ensures !(IsUninit(e) && fl.mayZeroout) ==> zs == [] && inode.zeroed == old(inode.zeroed)
    ensures Inside(zs, e)
    ensures err == Ok && !fl.markUninit2 ==> Initialised(inode.Contents(), lblk, End(e))
    ensures Converts(old(inode.Contents()), inode.Contents(), lblk, hi, inode.zeroed)
    ensures Logged(old(inode.Contents()), inode.Contents(), lblk, if err == Ok then hi else lblk, zs)
  {
    ghost var s, n, m := Exts(inode.t), Pos(Exts(inode.t), lblk), inode.Contents();
    var u := IsUninit(e);
    var fl2 := SplitFlags(u && fl.mayZeroout, u, u && fl.markUninit2, false, fl.dataValid2);
    EntryAgrees(s, n);
    assert ExtentOk(s[n]);
    ConvertsSelf(m, lblk, hi, inode.zeroed);
    if lblk == e.block {
      RelabelConverts(m, e, fl2.markUninit2, lblk, hi, inode.zeroed);
      RelabelConverts(m, e, fl2.markUninit2, lblk, hi, {});
      LoggedConverts(m, m + MapOf(Whole(e, fl2.markUninit2)), lblk, hi);
    } else {
      FrontConverts(m, e, lblk, fl2, hi, inode.zeroed);
      FrontLogged(m, e, lblk, fl2, hi);
    }
    var path', how;
    ghost var q';
    err, path', q', how := SplitExtentAt(inode, path, lblk, fl2, preIO, supply);
    zs := [];
    if lblk > e.block && how == Zeroed {
      zs := [ZeroPart(e, lblk, fl2)];
      ZeroPartInside(e, lblk, fl2);
    }
  }

  lemma FrontLogged(m: LogicalMap, e: Extent, split: nat, fl: SplitFlags, hi: nat)
    requires SplitPoint(e, split, fl) && e.block < split && Agrees(m, e) && (IsUninit(e) ==> End(e) <= hi)
    requires fl.markUninit1 == IsUninit(e) && !fl.dataValid1
    ensures Logged(m, MapAfter(Parted, e, split, fl, m), split, hi, [])
    ensures Logged(m, m, split, split, [])
    ensures fl.mayZeroout ==> Logged(m, MapAfter(Zeroed, e, split, fl, m), split, hi, [ZeroPart(e, split, fl)])
  {
    if fl.markUninit2 {
      PartedSame(m, e, split, fl);
      LoggedSelf(m, split, hi);
    } else {
      PartedInit(m, e, split, fl, hi, {});
      LoggedConverts(m, MapAfter(Parted, e, split, fl, m), split, hi);
    }
    LoggedSelf(m, split, split);
    if fl.mayZeroout {
      FrontZeroed(m, e, split, fl, hi);
    }
  }

  lemma FrontZeroed(m: LogicalMap, e: Extent, split: nat, fl: SplitFlags, hi: nat)
    requires SplitPoint(e, split, fl) && e.block < split && Agrees(m, e) && End(e) <= hi && !fl.dataValid1
    ensures Logged(m, m + MapOf(Whole(e, false)), split, hi, [ZeroPart(e, split, fl)])
  {
    var f, m' := ZeroPart(e, split, fl), m + MapOf(Whole(e, false));
    PartLogged(m, e, f);
    forall b | b in m && b in m' && m[b].uninit && !m'[b].uninit ensures split <= b < hi || InSome([f], b) {
      assert b in MapOf(Whole(e, false));
      assert split <= b < hi || Covers([f][0], b);
    }
  }

  lemma RelabelConverts(m: LogicalMap, e: Extent, uninit: bool, lblk: nat, hi: nat, zeroed: set<nat>)
    requires ExtentOk(e) && Agrees(m, e) && lblk == e.block && (IsUninit(e) ==> End(e) <= hi)
    requires (uninit ==> IsUninit(e))
    ensures Converts(m, m + MapOf(Whole(e, uninit)), lblk, hi, zeroed)
    ensures !uninit ==> Initialised(m + MapOf(Whole(e, uninit)), lblk, End(e))
  {
    var f := Whole(e, uninit);
    if uninit == IsUninit(e) {
      OverrideSame(m, e, f);
      ConvertsSelf(m, lblk, hi, zeroed);
      forall b | !uninit && lblk <= b < End(e) ensures b in m && !m[b].uninit {
        assert Covers(e, b);
      }
    } else {
      OverrideInit(m, e, f, lblk, hi, zeroed);
    }
  }

  lemma FrontConverts(m: LogicalMap, e: Extent, split: nat, fl: SplitFlags, hi: nat, zeroed: set<nat>)
    requires SplitPoint(e, split, fl) && e.block < split && Agrees(m, e) && (IsUninit(e) ==> End(e) <= hi)
    requires fl.markUninit1 == IsUninit(e) && !fl.dataValid1
    ensures Converts(m, MapAfter(Parted, e, split, fl, m), split, hi, zeroed)
    ensures !fl.markUninit2 ==> Initialised(MapAfter(Parted, e, split, fl, m), split, End(e))
    ensures fl.mayZeroout ==>
      && Converts(m, MapAfter(Zeroed, e, split, fl, m), split, hi, ZeroedAfter(Zeroed, e, split, fl, zeroed))
      && Initialised(MapAfter(Zeroed, e, split, fl, m), split, End(e))
  {
    if fl.markUninit2 {
      PartedSame(m, e, split, fl);
      ConvertsSelf(m, split, hi, zeroed);
    } else {
      PartedInit(m, e, split, fl, hi, zeroed);
    }
    if fl.mayZeroout {
      ZeroedConverts(m, e, split, fl, split, hi, zeroed);
    }
  }

  /** Between the two splits: the extent at lblk is the one to convert. */
  lemma BetweenSplits(s: seq<Extent>, lblk: nat, hi: nat)
    requires Sorted(s) && lblk in LMap(s)
    requires !LMap(s)[lblk].uninit || (s != [] && Pos(s, lblk) < |s| && End(s[Pos(s, lblk)]) <= hi)
    ensures s != [] && Pos(s, lblk) < |s| && Covers(s[Pos(s, lblk)], lblk)
    ensures IsUninit(s[Pos(s, lblk)]) <==> LMap(s)[lblk].uninit
    ensures IsUninit(s[Pos(s, lblk)]) ==> End(s[Pos(s, lblk)]) <= hi
  {
    EntryCovers(s, lblk);
  }

  /** The number of blocks a split reports: those of the request inside the extent. */
  function Reported(e: Extent, lblk: nat, len: nat): nat
    requires Covers(e, lblk)
  {
    if lblk + len < End(e) then len else End(e) - lblk
  }

  /** The leaf in the inode is full and no block is left for another one. */
  ghost predicate Cramped(t: Tree, free: set<nat>) {
    t.Leaf? && |t.exts| == ROOT_CAP && free == {}
  }

  lemma OnlyData(b: multiset<nat>, d: multiset<nat>, f: multiset<nat>)
    requires b + d + f == d
    ensures b == multiset{} && f == multiset{}
  {
    forall x ensures b[x] == 0 && f[x] == 0 {
      assert (b + d + f)[x] == b[x] + d[x] + f[x];
    }
  }

  /** A file without index blocks is small. */
  lemma SmallFile(t: Tree, cap: nat)
    requires WellFormed(t, cap) && Blocks(t) == multiset{}
    ensures t.Leaf? && |Exts(t)| <= ROOT_CAP
  {
  }

  /** In a cramped file there is no place for another extent. */
  lemma CrampedRear(t: Tree, free: set<nat>, e: Extent, hi: nat, blocks: nat, rear: How)
    requires Cramped(t, free) && t.max == ROOT_CAP && Shape(t) && hi < End(e)
    requires RearEnds(t, e, hi, true, Within(blocks, free), rear)
    ensures rear == Zeroed
  {
    if Searchable(t) {
      FindPathIn(t, hi);
      assert FindPath(t, hi) == [] && LeafCost(t, hi) == 1;
    }
  }

  /** Block b became readable without having been written or zeroed. */
  ghost predicate Exposed(m: LogicalMap, m': LogicalMap, zeroed: set<nat>, b: nat) {
    b in m && b in m' && m[b].uninit && !m'[b].uninit && m[b].pblk !in zeroed
  }

  /** What the state before says about the outcome of a call. */
  datatype Verdict = Succeeds | Fails | Open

  ghost predicate Obeys(v: Verdict, ok: bool) {
    match v
    case Succeeds => ok
    case Fails => !ok
    case Open => true
  }

  ghost function Iff(b: bool): Verdict {
    if b then Succeeds else Fails
  }

  /**
   Whether e can be split around the request lblk..hi-1 by at most two splits, for which p1 and
   p2 blocks can be had. Where zeroing is allowed it always can, unless merging is forbidden;
   with both splits needed and no free slot in the leaf found it is left open here.
   */
  ghost function SplitVerdict(t: Tree, e: Extent, lblk: nat, hi: nat, mayZeroout: bool, preIO: bool, p1: nat,
                              p2: nat): Verdict
    requires Shape(t) && Searchable(t)
  {
    if mayZeroout then (if preIO then Open else Succeeds)
    else if hi < End(e) && !Placeable(t, hi, p1) then Fails
    else if lblk == e.block then Succeeds
    else if End(e) <= hi then Iff(Placeable(t, lblk, p2))
    else if HasSlot(t, lblk) then Iff(HasTwoSlots(t, lblk) || LeafCost(t, lblk) <= p2)
    else Open
  }

  /** When the splits of an uninitialised extent get through. */
  lemma SplitOutcome(t: Tree, mid: Tree, e: Extent, lblk: nat, hi: nat, mayZeroout: bool, preIO: bool, rear: How,
                     p1: nat, p2: nat, pool: nat, ok: bool)
    requires Shape(t) && Searchable(t) && Shape(mid) && IsUninit(e)
    requires Exts(t) != [] && Pos(Exts(t), lblk) < |Exts(t)| && e == Entry(t, lblk)
    ensures RearEnds(t, e, hi, mayZeroout, p1, rear) && Halfway(t, mid, e, lblk, hi, rear, p2, pool) &&
            (ok <==> rear != Untouched && FrontEnds(mid, lblk, mayZeroout, preIO, pool)) ==>
              Obeys(SplitVerdict(t, e, lblk, hi, mayZeroout, preIO, p1, p2), ok)
  {
  }

  /**
   What splitting the request lblk..hi-1 off e does to the file: it converts blocks of the
   request, logs the others it converts, and exposes what lies in front if that is bare.
   */
  ghost predicate Changed(m: LogicalMap, m': LogicalMap, e: Extent, lblk: nat, hi: nat, bare: bool, ok: bool,
                          zs: seq<Extent>, zeroed: set<nat>, zeroed': set<nat>)
  {
    && Converts(m, m', if bare then e.block else lblk, hi, zeroed')
    && Logged(m, m', if bare then e.block else lblk, if ok || bare then Min(hi, End(e)) else lblk, zs)
    && forall b {:trigger Exposed(m, m', zeroed', b)} | b in m && !(lblk <= b < hi) ::
         Exposed(m, m', zeroed', b) <==> bare && e.block <= b < lblk && m[b].pblk !in zeroed
  }

  /**
   ext4_split_extent on an uninitialised extent: split behind the range, search again,
   split in front of it. `rear` says how the first split ended (Parted if none was needed).
   Outside the request a block is exposed exactly if it lies in front, the caller says that the
   blocks requested are written (dataValid2), the first split ended in zeroing, and the block
   was not zeroed before.
   */
  method SplitExtent(inode: Inode, path: seq<Step>, lblk: nat, len: nat, fl: SplitFlags, preIO: bool,
                     first: Supply, second: Supply)
    returns (err: Status, done: nat, zs: seq<Extent>, rear: How, ghost mid: Tree, ghost pool: nat)
    requires inode.Valid() && OnEntry(inode.t, lblk, path) && len > 0
    requires IsUninit(Entry(inode.t, lblk)) && Covers(Entry(inode.t, lblk), lblk)
    modifies inode`root, inode`disk, inode`free, inode`t, inode`zeroed
    ensures inode.Valid() && inode.Universe() == old(inode.Universe())
    ensures (err == Ok || err == ENOSPC) && old(inode.zeroed) <= inode.zeroed
    ensures RearEnds(old(inode.t), old(Entry(inode.t, lblk)), lblk + len, fl.mayZeroout,
                     Within(first.blocks, old(inode.free)), rear)
    ensures Shape(mid) && (err == Ok <==> rear != Untouched && FrontEnds(mid, lblk, fl.mayZeroout, preIO, pool))
    ensures Halfway(old(inode.t), mid, old(Entry(inode.t, lblk)), lblk, lblk + len, rear,
                    Within(second.blocks, old(inode.free)), pool)
    ensures Obeys(SplitVerdict(old(inode.t), old(Entry(inode.t, lblk)), lblk, lblk + len, fl.mayZeroout, preIO,
                               Within(first.blocks, old(inode.free)), Within(second.blocks, old(inode.free))),
                  err == Ok)
    ensures !fl.mayZeroout ==> zs == [] && inode.zeroed == old(inode.zeroed)
    ensures Inside(zs, old(Entry(inode.t, lblk)))
    ensures Changed(old(inode.Contents()), inode.Contents(), old(Entry(inode.t, lblk)), lblk, lblk + len,
                    fl.dataValid2 && rear == Zeroed, err == Ok, zs, old(inode.zeroed), inode.zeroed)
    ensures var e := old(Entry(inode.t, lblk));
      err == Ok && !fl.markUninit2 ==> Initialised(inode.Contents(), lblk, Min(lblk + len, End(e)))
    ensures err == Ok ==> done == Reported(old(Entry(inode.t, lblk)), lblk, len)
  {
    var e, j := ReadFound(inode, path, lblk);
    EntryAgrees(Exts(inode.t), Pos(Exts(inode.t), lblk));
    ghost var v := SplitVerdict(inode.t, e, lblk, lblk + len, fl.mayZeroout, preIO, Within(first.blocks, inode.free),
                                Within(second.blocks, inode.free));
    err, done, zs, rear, mid, pool :=
      SplitRange(inode, path, e, lblk, len, fl, preIO, first, second, inode.Contents(), inode.zeroed, inode.t,
                 inode.free, v);
  }

  /** The same for the extent found, with what is to be expected of the outcome. */
  method SplitRange(inode: Inode, path: seq<Step>, e: Extent, lblk: nat, len: nat, fl: SplitFlags, preIO: bool,
                    first: Supply, second: Supply, ghost m: LogicalMap, ghost z: set<nat>, ghost t: Tree,
                    ghost free: set<nat>, ghost v: Verdict)
    returns (err: Status, done: nat, zs: seq<Extent>, rear: How, ghost mid: Tree, ghost pool: nat)
    requires inode.Valid() && OnEntry(inode.t, lblk, path) && len > 0 && e == Entry(inode.t, lblk)
    requires IsUninit(e) && Covers(e, lblk) && Agrees(m, e)
    requires m == inode.Contents() && z == inode.zeroed && t == inode.t && free == inode.free
    requires v == SplitVerdict(t, e, lblk, lblk + len, fl.mayZeroout, preIO, Within(first.blocks, free),
                               Within(second.blocks, free))
    modifies inode`root, inode`disk, inode`free, inode`t, inode`zeroed
    ensures inode.Valid() && inode.Universe() == old(inode.Universe())
    ensures (err == Ok || err == ENOSPC) && z <= inode.zeroed && Obeys(v, err == Ok)
    ensures RearEnds(t, e, lblk + len, fl.mayZeroout, Within(first.blocks, free), rear)
    ensures Shape(mid) && (err == Ok <==> rear != Untouched && FrontEnds(mid, lblk, fl.mayZeroout, preIO, pool))
    ensures Halfway(t, mid, e, lblk, lblk + len, rear, Within(second.blocks, free), pool)
    ensures Inside(zs, e) && (!fl.mayZeroout ==> zs == [] && inode.zeroed == z)
    ensures Changed(m, inode.Contents(), e, lblk, lblk + len, fl.dataValid2 && rear == Zeroed, err == Ok, zs, z,
                    inode.zeroed)
    ensures err == Ok && !fl.markUninit2 ==> Initialised(inode.Contents(), lblk, Min(lblk + len, End(e)))
    ensures err == Ok ==> done == Reported(e, lblk, len)
  {
    err, done, zs, rear, mid, pool := SplitFound(inode, path, e, lblk, len, fl, preIO, first, second, m, z, t, free);
    SplitOutcome(t, mid, e, lblk, lblk + len, fl.mayZeroout, preIO, rear, Within(first.blocks, free),
                 Within(second.blocks, free), pool, err == Ok);
  }

  /** The two splits of the extent found. */
  method SplitFound(inode: Inode, path: seq<Step>, e: Extent, lblk: nat, len: nat, fl: SplitFlags, preIO: bool,
                    first: Supply, second: Supply, ghost m: LogicalMap, ghost z: set<nat>, ghost t: Tree,
                    ghost free: set<nat>)
    returns (err: Status, done: nat, zs: seq<Extent>, rear: How, ghost mid: Tree, ghost pool: nat)
    requires inode.Valid() && OnEntry(inode.t, lblk, path) && len > 0 && e == Entry(inode.t, lblk)
    requires IsUninit(e) && Covers(e, lblk) && Agrees(m, e)
    requires m == inode.Contents() && z == inode.zeroed && t == inode.t && free == inode.free
    modifies inode`root, inode`disk, inode`free, inode`t, inode`zeroed
    ensures inode.Valid() && inode.Universe() == old(inode.Universe())
    ensures (err == Ok || err == ENOSPC) && z <= inode.zeroed
    ensures RearEnds(t, e, lblk + len, fl.mayZeroout, Within(first.blocks, free), rear)
    ensures Shape(mid) && (err == Ok <==> rear != Untouched && FrontEnds(mid, lblk, fl.mayZeroout, preIO, pool))
    ensures Halfway(t, mid, e, lblk, lblk + len, rear, Within(second.blocks, free), pool)
    ensures Inside(zs, e) && (!fl.mayZeroout ==> zs == [] && inode.zeroed == z)
    ensures Changed(m, inode.Contents(), e, lblk, lblk + len, fl.dataValid2 && rear == Zeroed, err == Ok, zs, z,
                    inode.zeroed)
    ensures err == Ok && !fl.markUninit2 ==> Initialised(inode.Contents(), lblk, Min(lblk + len, End(e)))
    ensures err == Ok ==> done == Reported(e, lblk, len)
  {
    var top := Min(lblk + len, End(e));
    err, zs, rear := SplitRear(inode, path, e, lblk, len, fl, first, top, second.blocks);
    done := Reported(e, lblk, len);
    mid, pool := inode.t, Within(second.blocks, inode.free);
    if err == Ok {
      ghost var fits := FrontEnds(mid, lblk, fl.mayZeroout, preIO, pool);
      err, zs := FinishSplit(inode, lblk, top, fl, preIO, second, zs, m, z, e, rear, fits);
    }
    ExposedExactly(m, inode.Contents(), e, lblk, top, lblk + len, Bare(fl, rear), err == Ok, zs, z, inode.zeroed);
  }

  /**
   The tree between the two splits of the request lblk..hi-1 off e, with the blocks the second
   one can have.
   */
  ghost predicate Halfway(t: Tree, mid: Tree, e: Extent, lblk: nat, hi: nat, rear: How, before: nat, pool: nat)
    requires Shape(t) && Shape(mid)
  {
    && (End(e) <= hi ==> mid == t && pool == before)
    && (rear != Untouched ==>
          && Searchable(mid) && Exts(mid) != [] && Pos(Exts(mid), lblk) < |Exts(mid)|
          && if rear == Zeroed then !IsUninit(Entry(mid, lblk))
             else IsUninit(Entry(mid, lblk)) && Entry(mid, lblk).block == e.block)
    && (End(e) > hi && rear == Parted && Searchable(t) && HasSlot(t, lblk) ==>
          && pool == before
          && (Placeable(mid, lblk, pool) <==> HasTwoSlots(t, lblk) || LeafCost(t, lblk) <= pool))
  }

  lemma ReachedMiddle(t: Tree, mid: Tree, m: LogicalMap, e: Extent, lblk: nat, hi: nat, top: nat, rear: How,
                      free: set<nat>, free': set<nat>, blocks: nat)
    requires Shape(t) && Searchable(t) && Shape(mid) && Searchable(mid)
    requires End(e) <= hi ==> mid == t && free' == free
    requires rear != Untouched ==> RearDone(Exts(mid), m, e, lblk, top, rear)
    requires hi < End(e) && rear == Parted ==> OneTaken(t, mid, lblk, free, free')
    ensures Halfway(t, mid, e, lblk, hi, rear, Within(blocks, free), Within(blocks, free'))
  {
  }

  /** Outside the request exactly the front not cleared is exposed. */
  lemma ExposedExactly(m: LogicalMap, m': LogicalMap, e: Extent, lblk: nat, top: nat, hi: nat, bare: bool, ok: bool,
                       zs: seq<Extent>, zeroed: set<nat>, zeroed': set<nat>)
    requires Agrees(m, e) && IsUninit(e) && Covers(e, lblk) && top == Min(hi, End(e)) && zeroed <= zeroed'
    requires Converts(m, m', if bare then e.block else lblk, top, zeroed')
    requires Logged(m, m', if bare then e.block else lblk, if ok || bare then top else lblk, zs)
    requires bare ==> Initialised(m', e.block, lblk) && NotCleared(m, e.block, lblk, zeroed, zeroed')
    ensures Changed(m, m', e, lblk, hi, bare, ok, zs, zeroed, zeroed')
  {
    forall b | b in m && e.block <= b < lblk ensures m[b].uninit {
      assert Covers(e, b);
    }
  }

  // ----- a file in which the front is exposed -------------------------------------------------------

  /** The extents of a preallocated file in four pieces: 20k .. 20k + 9 at 100 + 20k. */
  function Piece(k: nat): Extent {
    Part(20 * k, 10, 100 + 20 * k, true)
  }

  function Pieces(k: nat): (s: seq<Extent>)
    ensures |s| == k && forall i :: 0 <= i < k ==> s[i] == Piece(i)
  {
    if k == 0 then [] else Pieces(k - 1) + [Piece(k - 1)]
  }

  lemma {:induction false} PiecesApart(k: nat, x: nat)
    requires k <= ROOT_CAP
    ensures Data(Pieces(k))[x] <= 1 && (Data(Pieces(k))[x] > 0 ==> 100 <= x < 80 + 20 * k + 10)
  {
    if k > 0 {
      PiecesApart(k - 1, x);
      PiecesData(k - 1);
      RunCount(100 + 20 * (k - 1), 10, x);
    }
  }

  lemma PiecesData(k: nat)
    ensures Data(Pieces(k + 1)) == Data(Pieces(k)) + DataOf(Piece(k))
  {
    OneData(Pieces(k), Piece(k), []);
    assert Pieces(k) + [Piece(k)] + [] == Pieces(k + 1);
  }

  /** The next piece can be put behind those there are. */
  lemma NextPiece(k: nat)
    requires k < ROOT_CAP
    ensures Insertable(Pieces(k), Piece(k)) && InsertSorted(Pieces(k), Piece(k)) == Pieces(k + 1)
  {
    var s, e := Pieces(k), Piece(k);
    assert s + [] == s && s + [e] + [] == Pieces(k + 1);
    PiecesSorted(k + 1);
    InsertSortedAt(s, e, []);
  }

  lemma PiecesSorted(k: nat)
    requires k <= ROOT_CAP
    ensures Sorted(Pieces(k))
  {
    forall i | 0 <= i < k ensures ExtentOk(Pieces(k)[i]) {
      assert Pieces(k)[i] == Piece(i);
    }
  }

  lemma PiecesClean(k: nat, d: multiset<nat>)
    requires k <= ROOT_CAP && d == Data(Pieces(k))
    ensures Clean(d)
  {
    forall x: nat ensures d[x] <= 1 && (d[x] > 0 ==> x > ROOT_CAP) {
      PiecesApart(k, x);
    }
  }

  /** A leaf in the inode with k of the pieces, and no block free. */
  ghost predicate Pieced(inode: Inode, k: nat)
    reads inode
  {
    && inode.Valid() && inode.t.Leaf? && Exts(inode.t) == Pieces(k) && inode.free == {}
    && inode.Universe() == Data(Pieces(k))
  }

  method AddPiece(inode: Inode, k: nat)
    requires Pieced(inode, k) && k < ROOT_CAP
    modifies inode`root, inode`disk, inode`free, inode`t
    ensures Pieced(inode, k + 1)
  {
    NextPiece(k);
    PiecesData(k);
    PiecesClean(k + 1, Data(Pieces(k + 1)));
    var path := inode.FindExtent(20 * k);
    var err, path';
    ghost var q';
    err, path', q' := InsertExtent(inode, path, Piece(k), true, Supply(true, 0));
    OnlyData(Blocks(inode.t), Data(Pieces(k + 1)), multiset(inode.free));
    SmallFile(inode.t, inode.cap);
    NoneFree(inode.free);
  }

  lemma NoneFree(free: set<nat>)
    requires multiset(free) == multiset{}
    ensures free == {}
  {
    forall x: nat ensures x !in free {
      assert multiset(free)[x] == 0;
    }
  }

  /** A preallocated file that fills the leaf in its inode, on a full disk. */
  method PreallocatedFile() returns (inode: Inode)
    ensures fresh(inode) && inode.Valid() && Cramped(inode.t, inode.free) && inode.zeroed == {}
    ensures Exts(inode.t) != [] && Exts(inode.t)[0] == Piece(0)
  {
    inode := new Inode(84, {});
    var k := 0;
    while k < ROOT_CAP
      invariant k <= ROOT_CAP && fresh(inode) && Pieced(inode, k) && inode.zeroed == {}
    {
      AddPiece(inode, k);
      k := k + 1;
    }
    assert Pieces(k)[0] == Piece(0);
  }

  /** Blocks 0 to 9 are preallocated. */
  ghost predicate Preallocated(m: LogicalMap) {
    forall b: nat :: b < 10 ==> b in m && m[b] == Mapping(100 + b, true)
  }

  /** All blocks of lo..hi-1 are exposed. */
  ghost predicate AllExposed(m: LogicalMap, m': LogicalMap, zeroed: set<nat>, lo: nat, hi: nat) {
    forall b: nat :: lo <= b < hi ==> Exposed(m, m', zeroed, b)
  }

  lemma FirstPiece(s: seq<Extent>, m: LogicalMap)
    requires Sorted(s) && s != [] && s[0] == Piece(0) && m == LMap(s)
    ensures Preallocated(m)
  {
    EntryAgrees(s, 0);
    assert forall b: nat :: b < 10 ==> Covers(Piece(0), b);
  }

  /** In a cramped file every block in front of the request is exposed. */
  method SplitCramped(inode: Inode, path: seq<Step>, lblk: nat, len: nat, preIO: bool, first: Supply, second: Supply,
                      ghost e: Extent, ghost t: Tree, ghost free: set<nat>, ghost m: LogicalMap, ghost z: set<nat>)
    requires inode.Valid() && OnEntry(inode.t, lblk, path) && len > 0 && e == Entry(inode.t, lblk)
    requires IsUninit(e) && Covers(e, lblk) && lblk + len < End(e) && Agrees(m, e)
    requires t == inode.t && free == inode.free && m == inode.Contents() && z == inode.zeroed
    requires Cramped(t, free) && z == {}
    modifies inode`root, inode`disk, inode`free, inode`t, inode`zeroed
    ensures inode.Valid() && AllExposed(m, inode.Contents(), inode.zeroed, e.block, lblk)
  {
    var fl, hi := SplitFlags(true, false, true, false, true), lblk + len;
    var err, done, zs, rear;
    ghost var mid, pool;
    err, done, zs, rear, mid, pool := SplitExtent(inode, path, lblk, len, fl, preIO, first, second);
    FrontBare(t, free, m, inode.Contents(), z, inode.zeroed, e, lblk, hi, first.blocks, fl, rear, err == Ok,
              zs);
  }

  lemma FrontBare(t: Tree, free: set<nat>, m: LogicalMap, m': LogicalMap, zeroed: set<nat>, zeroed': set<nat>,
                  e: Extent, lblk: nat, hi: nat, blocks: nat, fl: SplitFlags, rear: How, ok: bool,
                  zs: seq<Extent>)
    requires Cramped(t, free) && t.max == ROOT_CAP && Shape(t) && hi < End(e) && fl.mayZeroout && fl.dataValid2
    requires Agrees(m, e) && Covers(e, lblk) && lblk < hi && zeroed == {}
    ensures RearEnds(t, e, hi, fl.mayZeroout, Within(blocks, free), rear) &&
            Changed(m, m', e, lblk, hi, fl.dataValid2 && rear == Zeroed, ok, zs, zeroed, zeroed') ==>
              AllExposed(m, m', zeroed', e.block, lblk)
  {
    if RearEnds(t, e, hi, fl.mayZeroout, Within(blocks, free), rear) &&
       Changed(m, m', e, lblk, hi, fl.dataValid2 && rear == Zeroed, ok, zs, zeroed, zeroed') {
      CrampedRear(t, free, e, hi, blocks, rear);
      forall b: nat | e.block <= b < lblk ensures Exposed(m, m', zeroed', b) {
        assert Covers(e, b);
      }
    }
  }

  /**
   Blocks 3 and 4 of that file are written by direct I/O and converted at its end: blocks
   0 to 2 become readable too, though nobody wrote or zeroed them.
   */
  method FrontExposed() returns (inode: Inode, ghost before: LogicalMap)
    ensures inode.Valid()
    ensures Preallocated(before) && AllExposed(before, inode.Contents(), inode.zeroed, 0, 3)
  {
    inode := PreallocatedFile();
    before := inode.Contents();
    FirstPiece(Exts(inode.t), before);
    WellFormedSearchable(inode.t);
    PosCovers(Exts(inode.t), 0, 3);
    EntryAgrees(Exts(inode.t), 0);
    var path := inode.FindExtent(3);
    SplitCramped(inode, path, 3, 2, true, Supply(true, 0), Supply(true, 0), Piece(0), inode.t, inode.free, before,
                 inode.zeroed);
  }

  /** The first half of ext4_split_extent: split behind the request if the extent reaches further. */
  method SplitRear(inode: Inode, path: seq<Step>, e: Extent, lblk: nat, len: nat, fl: SplitFlags, supply: Supply,
                   top: nat, ghost later: nat)
    returns (err: Status, zs: seq<Extent>, rear: How)
    requires inode.Valid() && OnEntry(inode.t, lblk, path) && len > 0 && e == Entry(inode.t, lblk)
    requires IsUninit(e) && Covers(e, lblk) && top == Min(lblk + len, End(e))
    modifies inode`root, inode`disk, inode`free, inode`t, inode`zeroed
    ensures inode.Valid() && inode.Universe() == old(inode.Universe())
    ensures Ended(rear, err, fl)
    ensures Begun(old(inode.Contents()), inode.Contents(), e, lblk, top, fl, rear, zs, old(inode.zeroed), inode.zeroed)
    ensures err == Ok ==> RearDone(Exts(inode.t), inode.Contents(), e, lblk, top, rear)
    ensures RearEnds(old(inode.t), e, lblk + len, fl.mayZeroout, Within(supply.blocks, old(inode.free)), rear)
    ensures Halfway(old(inode.t), inode.t, e, lblk, lblk + len, rear, Within(later, old(inode.free)),
                    Within(later, inode.free))
    ensures rear != Zeroed ==> zs == [] && inode.zeroed == old(inode.zeroed)
    ensures Inside(zs, e)
  {
    ghost var t, free := inode.t, inode.free;
    err, zs, rear := Ok, [], Parted;
    if lblk + len < End(e) {
      err, zs, rear := SplitBehind(inode, path, e, lblk, top, fl, supply);
    } else {
      LMapAt(Exts(inode.t), Pos(Exts(inode.t), lblk), lblk);
      ConvertsSelf(inode.Contents(), lblk, top, inode.zeroed);
      LoggedSelf(inode.Contents(), lblk, lblk);
    }
    WellFormedSearchable(inode.t);
    ReachedMiddle(t, inode.t, inode.Contents(), e, lblk, lblk + len, top, rear, free, inode.free, later);
  }

  /** The second half of ext4_split_extent; `zs` is the log of the first. */
  method FinishSplit(inode: Inode, lblk: nat, ghost hi: nat, fl: SplitFlags, preIO: bool, supply: Supply,
                     zs: seq<Extent>, ghost m0: LogicalMap, ghost z0: set<nat>, ghost e: Extent, ghost rear: How,
                     ghost fits: bool)
    returns (err: Status, zs': seq<Extent>)
    requires inode.Valid() && lblk in inode.Contents() && Covers(e, lblk) && lblk < hi <= End(e)
    requires var s := Exts(inode.t);
      !inode.Contents()[lblk].uninit || (s != [] && Pos(s, lblk) < |s| && End(s[Pos(s, lblk)]) <= hi)
    requires Begun(m0, inode.Contents(), e, lblk, hi, fl, rear, zs, z0, inode.zeroed)
    requires RearDone(Exts(inode.t), inode.Contents(), e, lblk, hi, rear) && Inside(zs, e)
    requires fits <==> FrontEnds(inode.t, lblk, fl.mayZeroout, preIO, Within(supply.blocks, inode.free))
    modifies inode`root, inode`disk, inode`free, inode`t, inode`zeroed
    ensures inode.Valid() && inode.Universe() == old(inode.Universe())
    ensures (err == Ok || err == ENOSPC) && old(inode.zeroed) <= inode.zeroed
    ensures err == Ok <==> fits
    ensures Inside(zs', e) && (!fl.mayZeroout && zs == [] ==> zs' == [] && inode.zeroed == old(inode.zeroed))
    ensures Converts(m0, inode.Contents(), if Bare(fl, rear) then e.block else lblk, hi, inode.zeroed)
    ensures Logged(m0, inode.Contents(), if Bare(fl, rear) then e.block else lblk,
                   if err == Ok || Bare(fl, rear) then hi else lblk, zs')
    ensures Bare(fl, rear) ==>
      Initialised(inode.Contents(), e.block, lblk) && NotCleared(m0, e.block, lblk, z0, inode.zeroed)
    ensures old(Exts(inode.t) != [] && Pos(Exts(inode.t), lblk) < |Exts(inode.t)|)
    ensures err == Ok && !fl.markUninit2 ==> Initialised(inode.Contents(), lblk, old(End(Entry(inode.t, lblk))))
    ensures forall a, b :: Initialised(old(inode.Contents()), a, b) ==> Initialised(inode.Contents(), a, b)
  {
    ghost var s1, m1, z1 := Exts(inode.t), inode.Contents(), inode.zeroed;
    var zs2;
    err, zs2 := SplitAgain(inode, lblk, hi, fl, preIO, supply, fits);
    zs' := zs + zs2;
    BegunDone(m0, m1, inode.Contents(), e, lblk, hi, if err == Ok then hi else lblk, fl, rear, zs, zs2, z0, z1,
              inode.zeroed);
    StaysInitialised(m1, inode.Contents(), lblk, hi, inode.zeroed);
    InsideBoth(s1, m1, e, lblk, hi, rear, zs, zs2);
  }

  /** What the two splits zeroed lies in e. */
  lemma InsideBoth(s: seq<Extent>, m: LogicalMap, e: Extent, lblk: nat, hi: nat, rear: How, zs: seq<Extent>,
                   zs2: seq<Extent>)
    requires RearDone(s, m, e, lblk, hi, rear) && hi <= End(e) && Inside(zs, e)
    requires Inside(zs2, s[Pos(s, lblk)]) && (zs2 != [] ==> IsUninit(s[Pos(s, lblk)]) && m[lblk].uninit)
    ensures Inside(zs + zs2, e)
  {
    var all := zs + zs2;
    forall i | 0 <= i < |all| ensures e.block <= all[i].block && End(all[i]) <= End(e) {
      if i >= |zs| {
        assert all[i] == zs2[i - |zs|];
      }
    }
  }

  /** What both splits together leave. */
  lemma BegunDone(m0: LogicalMap, m1: LogicalMap, m2: LogicalMap, e: Extent, lblk: nat, hi: nat, hi2: nat,
                  fl: SplitFlags, rear: How, zs: seq<Extent>, zs2: seq<Extent>, z0: set<nat>, z1: set<nat>,
                  z2: set<nat>)
    requires Begun(m0, m1, e, lblk, hi, fl, rear, zs, z0, z1) && Covers(e, lblk) && lblk <= hi2 <= hi <= End(e)
    requires Converts(m1, m2, lblk, hi, z2) && Logged(m1, m2, lblk, hi2, zs2) && z1 <= z2
    requires Bare(fl, rear) ==> z2 == z1
    ensures Converts(m0, m2, if Bare(fl, rear) then e.block else lblk, hi, z2)
    ensures Logged(m0, m2, if Bare(fl, rear) then e.block else lblk, if Bare(fl, rear) then hi else hi2, zs + zs2)
    ensures Bare(fl, rear) ==> Initialised(m2, e.block, lblk) && NotCleared(m0, e.block, lblk, z0, z2)
  {
    var lo := if Bare(fl, rear) then e.block else lblk;
    LoggedTrans(m0, m1, m2, lo, lblk, hi, if Bare(fl, rear) then hi else lblk, hi2, zs, zs2, z2);
    ConvertsTrans(m0, m1, m2, lo, hi, z1, z2);
    StaysInitialised(m1, m2, lblk, hi, z2);
  }

  /** The path is stale after the first split: search again, then split in front of the range. */
  method SplitAgain(inode: Inode, lblk: nat, ghost hi: nat, fl: SplitFlags, preIO: bool, supply: Supply,
                    ghost fits: bool)
    returns (err: Status, zs: seq<Extent>)
    requires inode.Valid() && lblk in inode.Contents()
    requires var s := Exts(inode.t);
      !inode.Contents()[lblk].uninit || (s != [] && Pos(s, lblk) < |s| && End(s[Pos(s, lblk)]) <= hi)
    requires fits <==> FrontEnds(inode.t, lblk, fl.mayZeroout, preIO, Within(supply.blocks, inode.free))
    modifies inode`root, inode`disk, inode`free, inode`t, inode`zeroed
    ensures inode.Valid() && inode.Universe() == old(inode.Universe())
    ensures (err == Ok || err == ENOSPC) && old(inode.zeroed) <= inode.zeroed
    ensures old(Exts(inode.t) != [] && Pos(Exts(inode.t), lblk) < |Exts(inode.t)|)
    ensures err == Ok && !fl.markUninit2 ==> Initialised(inode.Contents(), lblk, old(End(Entry(inode.t, lblk))))
    ensures err == Ok <==> fits
    ensures !(old(inode.Contents()[lblk].uninit) && fl.mayZeroout) ==> zs == [] && inode.zeroed == old(inode.zeroed)
    ensures Inside(zs, old(Entry(inode.t, lblk))) && (zs != [] ==> IsUninit(old(Entry(inode.t, lblk))))
    ensures Converts(old(inode.Contents()), inode.Contents(), lblk, hi, inode.zeroed)
    ensures Logged(old(inode.Contents()), inode.Contents(), lblk, if err == Ok then hi else lblk, zs)
  {
    BetweenSplits(Exts(inode.t), lblk, hi);
    WellFormedSearchable(inode.t);
    var path := inode.FindExtent(lblk);
    var e, j := ReadFound(inode, path, lblk);
    err, zs := SplitFront(inode, path, e, lblk, hi, fl, preIO, supply);
  }

  lemma StaysInitialised(m: LogicalMap, m': LogicalMap, lblk: nat, hi: nat, z: set<nat>)
    requires Converts(m, m', lblk, hi, z)
    ensures forall a, b :: Initialised(m, a, b) ==> Initialised(m', a, b)
  {
  }

  // ----- handing blocks over to a neighbour ------------------------------------------------------

  /** An extent may be written as two. */
  lemma PartRun(l: seq<Extent>, e: Extent, r: seq<Extent>, e1: Extent, e2: Extent)
    requires Sorted(l + [e] + r) && ExtentOk(e1) && ExtentOk(e2)
    requires e1.block == e.block && End(e1) == e2.block && End(e2) == End(e)
    requires e1.pblk == e.pblk && e2.pblk == e.pblk + Len(e1)
    ensures Sorted(l + [e1, e2] + r)
    ensures LMap(l + [e1, e2] + r) == LMap(l + [e] + r) + MapOf(e1) + MapOf(e2)
    ensures Data(l + [e1, e2] + r) == Data(l + [e] + r)
  {
    TrimRun(l, e, r, e1, e2);
    TrimMeaning(l, e, r, e1, e2);
    TrimData(l, e, r, e1, e2);
    var l1 := l + [e1];
    assert l1 + [e2] + r == l + [e1, e2] + r;
    LMapInsert(l1, e2, r);
    DataInsert(l1, e2, r);
  }

  /** Ways to bracket a run around two or three extents. */
  lemma Bracket(l: seq<Extent>, a: Extent, b: Extent, r: seq<Extent>)
    ensures (l + [a]) + [b] + r == l + [a, b] + r
    ensures l + [a] + ([b] + r) == l + [a, b] + r
  {
  }

  lemma BracketThree(l: seq<Extent>, a: Extent, b: Extent, c: Extent, r: seq<Extent>)
    ensures (l + [a]) + [b, c] + r == l + [a, b] + ([c] + r)
  {
  }

  /** The first blocks of e go to the initialised extent in front of it. */
  lemma GiveLeft(l: seq<Extent>, prev: Extent, e: Extent, r: seq<Extent>, part: Extent, rest: Extent)
    requires Sorted(l + [prev, e] + r) && ExtentOk(part) && ExtentOk(rest) && CanMerge(prev, part)
    requires part.block == e.block && End(part) == rest.block && End(rest) == End(e)
    requires part.pblk == e.pblk && rest.pblk == e.pblk + Len(part) && IsUninit(rest) == IsUninit(e)
    ensures var s, s' := l + [prev, e] + r, l + [Merged(prev, part), rest] + r;
      Sorted(s') && LMap(s') == LMap(s) + MapOf(part) && Data(s') == Data(s)
  {
    Bracket(l, prev, e, r);
    PartRun(l + [prev], e, r, part, rest);
    RestAgrees(l + [prev] + [e] + r, |l| + 1, part, rest);
    BracketThree(l, prev, part, rest, r);
    FuseInRun(l, prev, part, [rest] + r);
    FuseDataSame(l, prev, part, [rest] + r);
    Bracket(l, Merged(prev, part), rest, r);
  }

  lemma RestAgrees(s: seq<Extent>, n: nat, part: Extent, rest: Extent)
    requires Sorted(s) && n < |s| && ExtentOk(part) && ExtentOk(rest)
    requires part.block == s[n].block && End(part) == rest.block && End(rest) == End(s[n])
    requires rest.pblk == s[n].pblk + Len(part) && IsUninit(rest) == IsUninit(s[n])
    ensures LMap(s) + MapOf(part) + MapOf(rest) == LMap(s) + MapOf(part)
  {
    EntryAgrees(s, n);
    var m := LMap(s) + MapOf(part);
    forall b | b in MapOf(rest) ensures b in m && m[b] == MapOf(rest)[b] {
      assert Covers(s[n], b) && !Covers(part, b);
    }
  }

  lemma RestAgreesFront(s: seq<Extent>, n: nat, rest: Extent, part: Extent)
    requires Sorted(s) && n < |s| && ExtentOk(part) && ExtentOk(rest)
    requires rest.block == s[n].block && rest.pblk == s[n].pblk && End(rest) <= End(s[n])
    requires IsUninit(rest) == IsUninit(s[n])
    ensures LMap(s) + MapOf(rest) + MapOf(part) == LMap(s) + MapOf(part)
  {
    EntryAgrees(s, n);
    OverrideSame(LMap(s), s[n], rest);
  }

  lemma FuseDataSame(l: seq<Extent>, a: Extent, b: Extent, r: seq<Extent>)
    requires CanMerge(a, b)
    ensures Data(l + [Merged(a, b)] + r) == Data(l + [a, b] + r)
  {
    MergeKeepsData(a, b);
    DataMiddle(l, [Merged(a, b)], r);
    DataMiddle(l, [a, b], r);
  }

  /** The last blocks of e go to the initialised extent behind it. */
  lemma GiveRight(l: seq<Extent>, e: Extent, next: Extent, r: seq<Extent>, rest: Extent, part: Extent)
    requires Sorted(l + [e, next] + r) && ExtentOk(part) && ExtentOk(rest) && CanMerge(part, next)
    requires rest.block == e.block && End(rest) == part.block && End(part) == End(e)
    requires rest.pblk == e.pblk && part.pblk == e.pblk + Len(rest) && IsUninit(rest) == IsUninit(e)
    ensures var s, s' := l + [e, next] + r, l + [rest, Merged(part, next)] + r;
      Sorted(s') && LMap(s') == LMap(s) + MapOf(part) && Data(s') == Data(s)
  {
    Bracket(l, e, next, r);
    PartRun(l, e, [next] + r, rest, part);
    RestAgreesFront(l + [e] + ([next] + r), |l|, rest, part);
    BracketThree(l, rest, part, next, r);
    FuseInRun(l + [rest], part, next, r);
    FuseDataSame(l + [rest], part, next, r);
    Bracket(l, rest, Merged(part, next), r);
  }

  // ----- the leaf ------------------------------------------------------------------------------------

  /** Slots k and k + 1 of the leaf at q, in the whole file. */
  lemma PairSides(t: Tree, q: Path, k: nat, a: Extent, b: Extent)
    requires PathIn(t, q) && At(t, q).Leaf? && k + 1 < |At(t, q).exts|
    ensures var x := At(t, q).exts;
      var l, r := LeftOf(t, q) + x[..k], x[k + 2..] + RightOf(t, q);
      && Exts(t) == l + [x[k], x[k + 1]] + r
      && LeftOf(t, q) + x[k := a][k + 1 := b] + RightOf(t, q) == l + [a, b] + r
  {
    var x := At(t, q).exts;
    ExtsAt(t, q);
    assert x == x[..k] + [x[k], x[k + 1]] + x[k + 2..];
    assert x[k := a][k + 1 := b] == x[..k] + [a, b] + x[k + 2..];
    InsertOrder(LeftOf(t, q), x[..k], [x[k], x[k + 1]], x[k + 2..], RightOf(t, q));
    InsertOrder(LeftOf(t, q), x[..k], [a, b], x[k + 2..], RightOf(t, q));
  }

  ghost predicate Transfers(s: seq<Extent>, s': seq<Extent>, part: Extent) {
    Sorted(s') && LMap(s') == LMap(s) + MapOf(part) && Data(s') == Data(s)
  }

  /** Write two adjacent slots whose new content hands `part` over. */
  method StorePair(inode: Inode, path: seq<Step>, k: nat, a: Extent, b: Extent, ghost part: Extent, ghost q: Path)
    requires inode.Valid() && Walks(inode.t, q, path) && At(inode.t, q).Leaf? && k + 1 < |At(inode.t, q).exts|
    requires a.block == At(inode.t, q).exts[k].block
    requires var x := At(inode.t, q).exts;
      var l, r := LeftOf(inode.t, q) + x[..k], x[k + 2..] + RightOf(inode.t, q);
      Transfers(l + [x[k], x[k + 1]] + r, l + [a, b] + r, part)
    modifies inode`root, inode`disk, inode`t
    ensures inode.Valid() && inode.Universe() == old(inode.Universe())
    ensures inode.Contents() == old(inode.Contents()) + MapOf(part)
  {
    ghost var t := inode.t;
    PairSides(t, q, k, a, b);
    WellFormedNearly(t, q, inode.cap);
    LeafCapacity(t, q, inode.cap);
    var depth := |path| - 1;
    assert StepOk(t, q, path, depth) && q[..depth] == q;
    inode.NodeOnPath(q);
    var leaf := inode.NodeAt(path[depth].loc);
    LeafRewrite(t, q, inode.cap, leaf.exts[k := a][k + 1 := b]);
    CleanBlocks(inode);
    StoreLeaf(inode, path, leaf.exts[k := a][k + 1 := b], q);
  }

  /** C1 to C4: `prev` can take over blocks from the front of e. */
  predicate CanGiveLeft(prev: Extent, e: Extent, len: nat) {
    && !IsUninit(prev)
    && prev.block + Len(prev) == e.block
    && prev.pblk + Len(prev) == e.pblk
    && Len(prev) < EXT_INIT_MAX_LEN - len
  }

  predicate CanGiveRight(e: Extent, next: Extent, len: nat) {
    && !IsUninit(next)
    && End(e) == next.block
    && e.pblk + Len(e) == next.pblk
    && Len(next) < EXT_INIT_MAX_LEN - len
  }

  lemma GiveLeftOk(l: seq<Extent>, prev: Extent, e: Extent, r: seq<Extent>, len: nat)
    requires Sorted(l + [prev, e] + r) && 0 < len < Len(e) && IsUninit(e) && CanGiveLeft(prev, e, len)
    ensures ExtentOk(e)
    ensures Transfers(l + [prev, e] + r,
                      l + [Extent(prev.block, Len(prev) + len, prev.pblk),
                           Part(e.block + len, Len(e) - len, e.pblk + len, true)] + r,
                      Part(e.block, len, e.pblk, false))
  {
    var s := l + [prev, e] + r;
    assert s[|l|] == prev && s[|l| + 1] == e;
    GiveLeft(l, prev, e, r, Part(e.block, len, e.pblk, false), Part(e.block + len, Len(e) - len, e.pblk + len, true));
  }

  lemma GiveRightOk(l: seq<Extent>, e: Extent, next: Extent, r: seq<Extent>, len: nat)
    requires Sorted(l + [e, next] + r) && 0 < len < Len(e) && IsUninit(e) && CanGiveRight(e, next, len)
    ensures ExtentOk(e)
    ensures Transfers(l + [e, next] + r,
                      l + [Part(e.block, Len(e) - len, e.pblk, true),
                           Extent(next.block - len, Len(next) + len, next.pblk - len)] + r,
                      Part(End(e) - len, len, e.pblk + (Len(e) - len), false))
  {
    var s := l + [e, next] + r;
    assert s[|l|] == e && s[|l| + 1] == next;
    var part := Part(End(e) - len, len, e.pblk + (Len(e) - len), false);
    var rest := Part(e.block, Len(e) - len, e.pblk, true);
    assert Merged(part, next) == Extent(next.block - len, Len(next) + len, next.pblk - len);
    GiveRight(l, e, next, r, rest, part);
  }

  // ----- ext4_ext_convert_to_initialized ----------------------------------------------------------------

  /** Exactly the blocks lo..hi-1 have become initialised. */
  ghost predicate Handed(m: LogicalMap, m': LogicalMap, lo: nat, hi: nat, zeroed: set<nat>) {
    Converts(m, m', lo, hi, zeroed) && Initialised(m', lo, hi) && Logged(m, m', lo, hi, [])
  }

  lemma TransferConverts(m: LogicalMap, e: Extent, part: Extent, lblk: nat, len: nat, zeroed: set<nat>)
    requires Agrees(m, e) && ExtentOk(part) && !IsUninit(part)
    requires e.block <= part.block && End(part) <= End(e) && part.pblk == e.pblk + (part.block - e.block)
    requires part.block == lblk && Len(part) == len
    ensures Handed(m, m + MapOf(part), lblk, lblk + len, zeroed)
  {
    OverrideInit(m, e, part, lblk, lblk + len, zeroed);
    OverrideInit(m, e, part, lblk, lblk + len, {});
    LoggedConverts(m, m + MapOf(part), lblk, lblk + len);
  }

  /** What TransferLeft and TransferRight start from: slot j of the leaf holds e. */
  ghost predicate AtSlot(inode: Inode, path: seq<Step>, q: Path, j: nat, e: Extent)
    reads inode
  {
    && inode.Valid() && Walks(inode.t, q, path) && At(inode.t, q).Leaf?
    && j < |At(inode.t, q).exts| && At(inode.t, q).exts[j] == e && IsUninit(e)
    && ExtentOk(e) && Agrees(inode.Contents(), e)
  }

  /** Hand the first `len` blocks of slot j to the initialised extent in front of it. */
  method TransferLeft(inode: Inode, path: seq<Step>, j: nat, prev: Extent, e: Extent, len: nat, ghost q: Path)
    requires AtSlot(inode, path, q, j, e) && 0 < len < Len(e)
    requires j > 0 && prev == At(inode.t, q).exts[j - 1] && CanGiveLeft(prev, e, len)
    modifies inode`root, inode`disk, inode`t
    ensures inode.Valid() && inode.Universe() == old(inode.Universe())
    ensures Handed(old(inode.Contents()), inode.Contents(), e.block, e.block + len, inode.zeroed)
  {
    ghost var t, x := inode.t, At(inode.t, q).exts;
    var part := Part(e.block, len, e.pblk, false);
    TransferConverts(inode.Contents(), e, part, e.block, len, inode.zeroed);
    PairSides(t, q, j - 1, prev, e);
    GiveLeftOk(LeftOf(t, q) + x[..j - 1], prev, e, x[j + 1..] + RightOf(t, q), len);
    StorePair(inode, path, j - 1, Extent(prev.block, Len(prev) + len, prev.pblk),
              Part(e.block + len, Len(e) - len, e.pblk + len, true), part, q);
  }

  /** Hand the last `len` blocks of slot j to the initialised extent behind it. */
  method TransferRight(inode: Inode, path: seq<Step>, j: nat, e: Extent, next: Extent, len: nat, ghost q: Path)
    requires AtSlot(inode, path, q, j, e) && 0 < len < Len(e)
    requires j + 1 < |At(inode.t, q).exts| && next == At(inode.t, q).exts[j + 1] && CanGiveRight(e, next, len)
    modifies inode`root, inode`disk, inode`t
    ensures inode.Valid() && inode.Universe() == old(inode.Universe())
    ensures Handed(old(inode.Contents()), inode.Contents(), End(e) - len, End(e), inode.zeroed)
  {
    ghost var t, x := inode.t, At(inode.t, q).exts;
    var part := Part(End(e) - len, len, e.pblk + (Len(e) - len), false);
    TransferConverts(inode.Contents(), e, part, End(e) - len, len, inode.zeroed);
    PairSides(t, q, j, e, next);
    GiveRightOk(LeftOf(t, q) + x[..j], e, next, x[j + 2..] + RightOf(t, q), len);
    StorePair(inode, path, j, Part(e.block, Len(e) - len, e.pblk, true),
              Extent(next.block - len, Len(next) + len, next.pblk - len), part, q);
  }

  /**
   Hand the requested blocks to an initialised neighbour in the same leaf: no split, no
   insertion. Left if the request is at the front of the extent, right if at its end; this
   happens exactly if there is such a neighbour.
   */
  method TransferToNeighbour(inode: Inode, path: seq<Step>, lblk: nat, len: nat) returns (done: bool)
    requires inode.Valid() && OnEntry(inode.t, lblk, path) && len > 0
    requires IsUninit(Entry(inode.t, lblk)) && Covers(Entry(inode.t, lblk), lblk)
    modifies inode`root, inode`disk, inode`t
    ensures inode.Valid() && inode.Universe() == old(inode.Universe())
    ensures done <==> old(Transferable(inode.t, lblk, len))
    ensures !done ==> inode.t == old(inode.t)
    ensures done ==>
      && lblk + len <= old(End(Entry(inode.t, lblk)))
      && Handed(old(inode.Contents()), inode.Contents(), lblk, lblk + len, inode.zeroed)
  {
    ghost var q := FindPath(inode.t, lblk);
    var e, j := ReadFound(inode, path, lblk);
    FoundSlot(inode, path, lblk, j);
    var leaf := ReadLeaf(inode, path, q);
    var x := leaf.exts;
    var side := ChooseSide(x, j, e, lblk, len);
    done := side != Nowhere;
    if side == LeftSide {
      TransferLeft(inode, path, j, x[j - 1], e, len, q);
    } else if side == RightSide {
      TransferRight(inode, path, j, e, x[j + 1], len, q);
    }
  }

  lemma FoundSlot(inode: Inode, path: seq<Step>, lblk: nat, j: nat)
    requires inode.Valid() && OnEntry(inode.t, lblk, path) && IsUninit(Entry(inode.t, lblk))
    requires path[|path| - 1].pos == Slot(j)
    ensures AtSlot(inode, path, FindPath(inode.t, lblk), j, Entry(inode.t, lblk))
    ensures j == Scan(Starts(At(inode.t, FindPath(inode.t, lblk)).exts), lblk)
  {
    EntryOfSearch(inode.t, inode.cap, lblk);
    EntryAgrees(Exts(inode.t), Pos(Exts(inode.t), lblk));
  }

  /** The neighbour on the side where the request lies in slot j can take it. */
  ghost predicate SideTakes(x: seq<Extent>, j: nat, e: Extent, lblk: nat, len: nat)
    requires j < |x|
  {
    len < Len(e) &&
    ((lblk == e.block && j > 0 && CanGiveLeft(x[j - 1], e, len)) ||
     (lblk + len == End(e) && j + 1 < |x| && CanGiveRight(e, x[j + 1], len)))
  }

  /** The extent found for lblk has a neighbour in its leaf that can take over the request. */
  ghost predicate Transferable(t: Tree, lblk: nat, len: nat)
    requires Shape(t)
  {
    && Searchable(t) && PathIn(t, FindPath(t, lblk)) && At(t, FindPath(t, lblk)).Leaf?
    && var x := At(t, FindPath(t, lblk)).exts;
       var j := Scan(Starts(x), lblk);
       j < |x| && SideTakes(x, j, x[j], lblk, len)
  }

  /** Which neighbour of slot j can take the request, if any. */
  datatype Side = Nowhere | LeftSide | RightSide

  method ChooseSide(x: seq<Extent>, j: nat, e: Extent, lblk: nat, len: nat) returns (side: Side)
    requires j < |x| && e == x[j] && e.block <= lblk
    ensures side != Nowhere <==> SideTakes(x, j, e, lblk, len)
    ensures side == LeftSide <==> lblk == e.block && len < Len(e) && j > 0 && CanGiveLeft(x[j - 1], e, len)
    ensures side == RightSide <==>
      (&& lblk + len == End(e) && len < Len(e) && j + 1 < |x| && CanGiveRight(e, x[j + 1], len)
       && !(lblk == e.block && j > 0))
  {
    side := Nowhere;
    if lblk == e.block && len < Len(e) && j > 0 {
      if CanGiveLeft(x[j - 1], e, len) {
        side := LeftSide;
      }
    } else if lblk + len == End(e) && len < Len(e) && j < |x| - 1 {
      if CanGiveRight(e, x[j + 1], len) {
        side := RightSide;
      }
    }
  }

  /** Zeroing a stretch of an extent beforehand excuses converting it along. */
  lemma Narrow(m: LogicalMap, m': LogicalMap, e: Extent, ze: Extent, lo: nat, hi: nat, lblk: nat, to: nat,
               zeroed: set<nat>)
    requires Agrees(m, e) && Converts(m, m', lo, hi, zeroed) && PhysOf(ze) <= zeroed
    requires e.block <= ze.block && End(ze) <= End(e) && ze.pblk == e.pblk + (ze.block - e.block)
    requires forall b: nat :: Covers(e, b) && lo <= b < hi && !(lblk <= b < to) ==> Covers(ze, b)
    requires hi <= End(e) && e.block <= lo
    ensures Converts(m, m', lblk, to, zeroed)
  {
    forall b | b in m && m[b].uninit && !m'[b].uninit ensures lblk <= b < to || m[b].pblk in zeroed {
      if lo <= b < hi && !(lblk <= b < to) {
        assert Covers(e, b) && Covers(ze, b);
        assert InRun(ze.pblk, Len(ze), m[b].pblk);
      }
    }
  }

  /**
   What the conversion of the request in e comes to: blocks of the request are converted and all
   others that are are zeroed and logged; on success the request inside e is initialised and
   `done` tells how much of it that is.
   */
  ghost predicate Converted(m: LogicalMap, m': LogicalMap, e: Extent, lblk: nat, len: nat, ok: bool, done: nat,
                            zs: seq<Extent>, zeroed: set<nat>, zeroed': set<nat>)
  {
    && zeroed <= zeroed' && Converts(m, m', lblk, lblk + len, zeroed')
    && Logged(m, m', lblk, if ok then Min(lblk + len, End(e)) else lblk, zs) && Inside(zs, e)
    && (ok ==>
          && Initialised(m', lblk, Min(lblk + len, End(e)))
          && 0 < done && lblk + Min(done, len) == Min(lblk + len, End(e)))
  }

  lemma WholeDone(m: LogicalMap, e: Extent, lblk: nat, len: nat, z: set<nat>)
    requires Agrees(m, e) && ExtentOk(e) && Covers(e, lblk) && len > 0
    ensures SameRange(e, Whole(e, false))
    ensures Initialised(m + MapOf(Whole(e, false)), e.block, End(e))
    ensures Converted(m, m + MapOf(Whole(e, false)), e, lblk, len, true, End(e) - lblk, [Whole(e, false)], z,
                      z + PhysOf(e))
  {
    LoggedWhole(m, e, lblk, Min(lblk + len, End(e)));
    assert PhysOf(Whole(e, false)) == PhysOf(e);
    OverrideInit(m, e, Whole(e, false), lblk, lblk + len, z + PhysOf(e));
  }

  /** An extent small enough is zeroed and converted as a whole. */
  method ZeroWhole(inode: Inode, path: seq<Step>, e: Extent, lblk: nat, len: nat, room: bool, ghost m: LogicalMap,
                   ghost z: set<nat>)
    requires inode.Valid() && OnEntry(inode.t, lblk, path) && e == Entry(inode.t, lblk) && ExtentOk(e)
    requires Covers(e, lblk) && len > 0 && m == inode.Contents() && z == inode.zeroed && Agrees(m, e)
    modifies inode`root, inode`disk, inode`free, inode`t, inode`zeroed
    ensures inode.Valid() && inode.Universe() == old(inode.Universe())
    ensures Initialised(inode.Contents(), e.block, End(e))
    ensures Converted(m, inode.Contents(), e, lblk, len, true, End(e) - lblk, [Whole(e, false)], z, inode.zeroed)
  {
    Zeroout(inode, e);
    WholeDone(m, e, lblk, len, z);
    RelabelFound(inode, path, Whole(e, false), false, room, lblk);
  }

  /** The plan for the split: which range to split off, after zeroing which stretch. */
  datatype SplitChoice = SplitChoice(zero: bool, ze: Extent, lblk: nat, len: nat)

  /** The planned range covers the request, and what it takes in beyond that is zeroed. */
  ghost predicate PlanOk(plan: SplitChoice, e: Extent, lblk: nat, len: nat) {
    && plan.len > 0 && e.block <= plan.lblk <= lblk && Covers(e, plan.lblk)
    && Min(lblk + len, End(e)) <= plan.lblk + plan.len
    && (!plan.zero ==> plan.lblk == lblk && plan.len == len)
    && (plan.zero ==>
          && e.block <= plan.ze.block && End(plan.ze) <= End(e) && plan.ze.pblk == e.pblk + (plan.ze.block - e.block)
          && plan.lblk <= plan.ze.block && End(plan.ze) <= plan.lblk + plan.len
          && (plan.lblk + plan.len > End(e) ==> plan.lblk == lblk && plan.len == len)
          && forall b: nat :: Covers(e, b) && plan.lblk <= b < plan.lblk + plan.len && !(lblk <= b < lblk + len) ==>
            Covers(plan.ze, b))
  }

  /** The planned range takes in lo..hi-1, which lies in e. */
  ghost predicate Spans(plan: SplitChoice, e: Extent, lo: nat, hi: nat) {
    plan.lblk <= lo && hi <= Min(plan.lblk + plan.len, End(e))
  }

  /**
   Cases 2 to 4 of the conversion: zero the rest of the extent behind the request (3) or
   in front of it (2) if that is cheap, and widen the range to split off accordingly.
   */
  method ChooseSplit(e: Extent, lblk: nat, len: nat, maxZeroout: nat) returns (plan: SplitChoice)
    requires ExtentOk(e) && Covers(e, lblk) && len > 0
    ensures Serves(plan, e, lblk, len, maxZeroout) && (maxZeroout == 0 ==> !plan.zero)
  {
    var rest := End(e) - lblk;
    plan := SplitChoice(false, e, lblk, len);
    if maxZeroout > 0 && rest > len {
      if rest <= maxZeroout {
        plan := SplitChoice(true, Part(lblk, rest, e.pblk + (lblk - e.block), false), lblk, rest);
      } else if lblk - e.block + len < maxZeroout {
        var front := lblk - e.block;
        if front != 0 {
          plan := SplitChoice(true, Part(e.block, front, e.pblk, false), e.block, front + len);
        }
      }
    }
  }

  /** What was zeroed beforehand is logged as well. */
  lemma PlanLogged(m: LogicalMap, m': LogicalMap, e: Extent, plan: SplitChoice, lblk: nat, len: nat, zs: seq<Extent>)
    requires Agrees(m, e) && SameSpots(m, m') && plan.zero && ExtentOk(e) && PlanOk(plan, e, lblk, len)
    requires Logged(m, m', plan.lblk, Min(plan.lblk + plan.len, End(e)), zs)
    requires Initialised(m', plan.lblk, Min(plan.lblk + plan.len, End(e)))
    ensures Logged(m, m', lblk, Min(lblk + len, End(e)), zs + [plan.ze])
  {
    var all := zs + [plan.ze];
    assert all[|zs|] == plan.ze;
    forall b: nat | Covers(plan.ze, b) ensures b in m' && m'[b] == Mapping(plan.ze.pblk + (b - plan.ze.block), false) {
      assert Covers(e, b);
    }
    forall b | b in m && b in m' && m[b].uninit && !m'[b].uninit
      ensures lblk <= b < Min(lblk + len, End(e)) || InSome(all, b) {
      if InSome(zs, b) {
        var i :| 0 <= i < |zs| && Covers(zs[i], b);
        assert all[i] == zs[i];
      } else if !(lblk <= b < lblk + len) {
        assert Covers(e, b);
        assert Covers(all[|zs|], b);
      }
    }
  }

  lemma PlanInside(e: Extent, plan: SplitChoice, lblk: nat, len: nat, zs: seq<Extent>, zs': seq<Extent>)
    requires PlanOk(plan, e, lblk, len) && Inside(zs, e)
    requires zs' == zs || (plan.zero && zs' == zs + [plan.ze])
    ensures Inside(zs', e)
  {
  }

  /** The parts of the extent beyond the request that are initialised along with it. */
  ghost predicate Widened(m: LogicalMap, e: Extent, lblk: nat, len: nat, limit: nat) {
    && (End(e) - lblk <= limit ==> Initialised(m, lblk, End(e)))
    && (limit < End(e) - lblk && lblk + len - e.block < limit ==> Initialised(m, e.block, lblk + len))
  }

  /** What a plan must satisfy to serve the request. */
  ghost predicate Serves(plan: SplitChoice, e: Extent, lblk: nat, len: nat, limit: nat) {
    && PlanOk(plan, e, lblk, len) && 0 < Reported(e, plan.lblk, plan.len)
    && lblk + Min(Reported(e, plan.lblk, plan.len), len) == Min(lblk + len, End(e))
    && (0 < End(e) - lblk <= limit ==> Spans(plan, e, lblk, End(e)))
    && (limit < End(e) - lblk && lblk + len - e.block < limit ==> Spans(plan, e, e.block, lblk + len))
  }

  /** What the split of the planned range means for the request. */
  lemma PlanDone(m: LogicalMap, m': LogicalMap, e: Extent, plan: SplitChoice, lblk: nat, len: nat, limit: nat,
                 bare: bool, ok: bool, done: nat, zs: seq<Extent>, zs': seq<Extent>, z0: set<nat>, z1: set<nat>,
                 z2: set<nat>)
    requires ExtentOk(e) && Covers(e, lblk) && len > 0 && !bare
    requires zs' == if plan.zero && ok then zs + [plan.ze] else zs
    requires z1 == if plan.zero then z0 + PhysOf(plan.ze) else z0
    ensures Agrees(m, e) && Serves(plan, e, lblk, len, limit) && z1 <= z2 && Inside(zs, e) &&
            Changed(m, m', e, plan.lblk, plan.lblk + plan.len, bare, ok, zs, z1, z2) &&
            (ok ==> Initialised(m', plan.lblk, Min(plan.lblk + plan.len, End(e)))) &&
            (ok ==> done == Reported(e, plan.lblk, plan.len)) ==>
              Converted(m, m', e, lblk, len, ok, done, zs', z0, z2) && (ok ==> Widened(m', e, lblk, len, limit))
  {
    if Agrees(m, e) && Serves(plan, e, lblk, len, limit) && z1 <= z2 && Inside(zs, e) &&
       Changed(m, m', e, plan.lblk, plan.lblk + plan.len, bare, ok, zs, z1, z2) &&
       (ok ==> Initialised(m', plan.lblk, Min(plan.lblk + plan.len, End(e)))) {
      if plan.zero {
        if plan.lblk + plan.len <= End(e) {
          Narrow(m, m', e, plan.ze, plan.lblk, plan.lblk + plan.len, lblk, lblk + len, z2);
        }
        if ok {
          PlanLogged(m, m', e, plan, lblk, len, zs);
        }
      }
      PlanInside(e, plan, lblk, len, zs, zs');
    }
  }

  /** Split off the planned range, of which some may be zeroed already. */
  method SplitPlanned(inode: Inode, path: seq<Step>, e: Extent, plan: SplitChoice, lblk: nat, len: nat,
                      mayZeroout: bool, preIO: bool, first: Supply, second: Supply, ghost v: Verdict,
                      ghost m: LogicalMap, ghost z0: set<nat>, ghost z1: set<nat>, ghost limit: nat)
    returns (err: Status, done: nat, zs: seq<Extent>)
    requires inode.Valid() && OnEntry(inode.t, plan.lblk, path) && e == Entry(inode.t, plan.lblk) && plan.len > 0
    requires IsUninit(e) && ExtentOk(e) && Covers(e, lblk) && Covers(e, plan.lblk) && len > 0
    requires m == inode.Contents() && z1 == inode.zeroed && Agrees(m, e) && Serves(plan, e, lblk, len, limit)
    requires z1 == if plan.zero then z0 + PhysOf(plan.ze) else z0
    requires v == SplitVerdict(inode.t, e, plan.lblk, plan.lblk + plan.len, mayZeroout, preIO,
                               Within(first.blocks, inode.free), Within(second.blocks, inode.free))
    modifies inode`root, inode`disk, inode`free, inode`t, inode`zeroed
    ensures inode.Valid() && inode.Universe() == old(inode.Universe())
    ensures (err == Ok || err == ENOSPC) && Obeys(v, err == Ok)
    ensures Converted(m, inode.Contents(), e, lblk, len, err == Ok, done, zs, z0, inode.zeroed)
    ensures err == Ok ==> Widened(inode.Contents(), e, lblk, len, limit)
    ensures !mayZeroout && !plan.zero ==> zs == [] && inode.zeroed == z1
  {
    var log, rear;
    ghost var mid, pool;
    var fl := SplitFlags(mayZeroout, false, false, false, false);
    err, done, log, rear, mid, pool :=
      SplitRange(inode, path, e, plan.lblk, plan.len, fl, preIO, first, second, m, z1, inode.t, inode.free, v);
    zs := if plan.zero && err == Ok then log + [plan.ze] else log;
    PlanDone(m, inode.Contents(), e, plan, lblk, len, limit, fl.dataValid2 && rear == Zeroed, err == Ok, done, log, zs,
             z0, z1, inode.zeroed);
  }

  /** Where zeroing is allowed the verdict is the same for every range. */
  lemma ZeroableVerdict(t: Tree, e: Extent, lblk: nat, hi: nat, preIO: bool, p1: nat, p2: nat)
    requires Shape(t) && Searchable(t)
    ensures SplitVerdict(t, e, lblk, hi, true, preIO, p1, p2) == if preIO then Open else Succeeds
  {
  }

  /** A plan other than the request is made only where zeroing is allowed. */
  lemma PlanVerdict(t: Tree, e: Extent, plan: SplitChoice, lblk: nat, len: nat, mayZeroout: bool, preIO: bool, p1: nat,
                    p2: nat)
    requires Shape(t) && Searchable(t) && (mayZeroout || (plan.lblk == lblk && plan.len == len))
    ensures SplitVerdict(t, e, plan.lblk, plan.lblk + plan.len, mayZeroout, preIO, p1, p2) ==
            SplitVerdict(t, e, lblk, lblk + len, mayZeroout, preIO, p1, p2)
  {
    var to, hi := plan.lblk + plan.len, lblk + len;
    if mayZeroout {
      ZeroableVerdict(t, e, plan.lblk, to, preIO, p1, p2);
      ZeroableVerdict(t, e, lblk, hi, preIO, p1, p2);
    } else {
      assert plan.lblk == lblk && to == hi;
    }
  }

  /** Zero a stretch if that pays, then split the requested range off. */
  method ZeroAndSplit(inode: Inode, path: seq<Step>, e: Extent, lblk: nat, len: nat, mayZeroout: bool, maxZeroout: nat,
                      preIO: bool, first: Supply, second: Supply, ghost v: Verdict, ghost m: LogicalMap,
                      ghost z: set<nat>)
    returns (err: Status, done: nat, zs: seq<Extent>)
    requires inode.Valid() && OnEntry(inode.t, lblk, path) && len > 0 && (!mayZeroout ==> maxZeroout == 0)
    requires m == inode.Contents() && z == inode.zeroed && Agrees(m, e)
    requires v == SplitVerdict(inode.t, e, lblk, lblk + len, mayZeroout, preIO, Within(first.blocks, inode.free),
                               Within(second.blocks, inode.free))
    requires e == Entry(inode.t, lblk) && IsUninit(e) && ExtentOk(e) && Covers(e, lblk)
    modifies inode`root, inode`disk, inode`free, inode`t, inode`zeroed
    ensures inode.Valid() && inode.Universe() == old(inode.Universe())
    ensures (err == Ok || err == ENOSPC) && Obeys(v, err == Ok)
    ensures Converted(m, inode.Contents(), e, lblk, len, err == Ok, done, zs, z, inode.zeroed)
    ensures err == Ok ==> Widened(inode.Contents(), e, lblk, len, maxZeroout)
    ensures !mayZeroout ==> zs == [] && inode.zeroed == z
  {
    var plan := ChooseSplit(e, lblk, len, maxZeroout);
    SamePath(inode.t, inode.cap, lblk, plan.lblk, path);
    PlanVerdict(inode.t, e, plan, lblk, len, mayZeroout, preIO, Within(first.blocks, inode.free),
                Within(second.blocks, inode.free));
    if plan.zero {
      Zeroout(inode, plan.ze);
    }
    err, done, zs := SplitPlanned(inode, path, e, plan, lblk, len, mayZeroout, preIO, first, second, v, m, z,
                                  inode.zeroed, maxZeroout);
  }

  /** Zeroing is allowed only if no block of the extent lies behind the end of the file and of the request. */
  predicate MayZero(e: Extent, eof: nat, end: nat) {
    End(e) <= Max(eof, end)
  }

  /** Whether the extent can be converted in its place: a small one is zeroed if that is allowed. */
  ghost function ZeroVerdict(t: Tree, e: Extent, lblk: nat, len: nat, eof: nat, zeroLimit: nat, preIO: bool, p1: nat,
                             p2: nat): Verdict
    requires Shape(t) && Searchable(t)
  {
    if MayZero(e, eof, lblk + len) && Len(e) <= zeroLimit then Succeeds
    else SplitVerdict(t, e, lblk, lblk + len, MayZero(e, eof, lblk + len), preIO, p1, p2)
  }

  /** Whether the conversion succeeds: a neighbour that can take the request always does. */
  ghost function ConvertVerdict(t: Tree, e: Extent, lblk: nat, len: nat, eof: nat, zeroLimit: nat, preIO: bool,
                                p1: nat, p2: nat): Verdict
    requires Shape(t) && Searchable(t)
  {
    if Transferable(t, lblk, len) then Succeeds
    else ZeroVerdict(t, e, lblk, len, eof, zeroLimit, preIO, p1, p2)
  }

  /**
   What the conversion touches: with zeroing allowed the extent, else the request; so no block
   behind the end of the file and of the request changes.
   */
  ghost predicate Touched(m: LogicalMap, m': LogicalMap, e: Extent, lblk: nat, len: nat, eof: nat) {
    && (if MayZero(e, eof, lblk + len) then Kept(m, m', e.block, End(e))
        else Kept(m, m', lblk, Min(lblk + len, End(e))))
    && Kept(m, m', 0, Max(eof, lblk + len))
  }

  lemma TouchedBy(m: LogicalMap, m': LogicalMap, e: Extent, lblk: nat, len: nat, eof: nat, ok: bool, done: nat,
                  zs: seq<Extent>, z: set<nat>, z': set<nat>)
    requires Covers(e, lblk) && (!MayZero(e, eof, lblk + len) ==> zs == [])
    ensures Converted(m, m', e, lblk, len, ok, done, zs, z, z') ==> Touched(m, m', e, lblk, len, eof)
  {
    if Converted(m, m', e, lblk, len, ok, done, zs, z, z') {
      LoggedKeeps(m, m', lblk, lblk + len, if ok then Min(lblk + len, End(e)) else lblk, zs, e, z');
    }
  }

  /**
   ext4_ext_convert_to_initialized: make the part of the found uninitialised extent inside
   lblk .. lblk + len - 1 initialised. `eof` is the file size in blocks, `zeroLimit` the
   size up to which zeroing is preferred to splitting; `zs` lists the extents for which
   ext4_es_zeroout is called. Nothing behind the end of the file and of the request changes.
   With zeroing allowed it always succeeds, else when the splits do.
   */
  method ConvertToInitialized(inode: Inode, path: seq<Step>, lblk: nat, len: nat, eof: nat, zeroLimit: nat,
                              preIO: bool, first: Supply, second: Supply)
    returns (err: Status, done: nat, zs: seq<Extent>)
    requires inode.Valid() && OnEntry(inode.t, lblk, path) && len > 0
    requires IsUninit(Entry(inode.t, lblk)) && Covers(Entry(inode.t, lblk), lblk)
    modifies inode`root, inode`disk, inode`free, inode`t, inode`zeroed
    ensures inode.Valid() && inode.Universe() == old(inode.Universe())
    ensures err == Ok || err == ENOSPC
    ensures Converted(old(inode.Contents()), inode.Contents(), old(Entry(inode.t, lblk)), lblk, len, err == Ok, done,
                      zs, old(inode.zeroed), inode.zeroed)
    ensures Touched(old(inode.Contents()), inode.Contents(), old(Entry(inode.t, lblk)), lblk, len, eof)
    ensures Obeys(ConvertVerdict(old(inode.t), old(Entry(inode.t, lblk)), lblk, len, eof, zeroLimit, preIO,
                                 Within(first.blocks, old(inode.free)), Within(second.blocks, old(inode.free))),
                  err == Ok)
    ensures old(Transferable(inode.t, lblk, len)) || !MayZero(old(Entry(inode.t, lblk)), eof, lblk + len) ==>
      zs == [] && inode.zeroed == old(inode.zeroed)
    ensures err == Ok && !old(Transferable(inode.t, lblk, len)) &&
            MayZero(old(Entry(inode.t, lblk)), eof, lblk + len) ==>
      ZeroedAlong(inode.Contents(), old(Entry(inode.t, lblk)), lblk, len, zeroLimit)
  {
    var e, j := ReadFound(inode, path, lblk);
    EntryAgrees(Exts(inode.t), Pos(Exts(inode.t), lblk));
    assert ExtentOk(Exts(inode.t)[Pos(Exts(inode.t), lblk)]);
    ghost var v := ConvertVerdict(inode.t, e, lblk, len, eof, zeroLimit, preIO, Within(first.blocks, inode.free),
                                  Within(second.blocks, inode.free));
    err, done, zs := ConvertEntry(inode, path, e, lblk, len, eof, zeroLimit, preIO, first, second, v, inode.Contents(),
                                  inode.zeroed, Transferable(inode.t, lblk, len));
  }

  lemma HandedConverted(m: LogicalMap, m': LogicalMap, e: Extent, lblk: nat, len: nat, z: set<nat>)
    requires Covers(e, lblk) && lblk + len <= End(e) && len > 0
    ensures Handed(m, m', lblk, lblk + len, z) ==> Converted(m, m', e, lblk, len, true, len, [], z, z)
  {
  }

  /** The same for the extent found; `moves` says whether a neighbour takes the request. */
  method ConvertEntry(inode: Inode, path: seq<Step>, e: Extent, lblk: nat, len: nat, eof: nat, zeroLimit: nat,
                      preIO: bool, first: Supply, second: Supply, ghost v: Verdict, ghost m: LogicalMap,
                      ghost z: set<nat>, ghost moves: bool)
    returns (err: Status, done: nat, zs: seq<Extent>)
    requires inode.Valid() && OnEntry(inode.t, lblk, path) && len > 0
    requires e == Entry(inode.t, lblk) && IsUninit(e) && ExtentOk(e) && Covers(e, lblk)
    requires m == inode.Contents() && z == inode.zeroed && Agrees(m, e) && moves == Transferable(inode.t, lblk, len)
    requires v == ConvertVerdict(inode.t, e, lblk, len, eof, zeroLimit, preIO, Within(first.blocks, inode.free),
                                 Within(second.blocks, inode.free))
    modifies inode`root, inode`disk, inode`free, inode`t, inode`zeroed
    ensures inode.Valid() && inode.Universe() == old(inode.Universe())
    ensures (err == Ok || err == ENOSPC) && Obeys(v, err == Ok)
    ensures Converted(m, inode.Contents(), e, lblk, len, err == Ok, done, zs, z, inode.zeroed)
    ensures Touched(m, inode.Contents(), e, lblk, len, eof)
    ensures moves || !MayZero(e, eof, lblk + len) ==> zs == [] && inode.zeroed == z
    ensures err == Ok && !moves && MayZero(e, eof, lblk + len) ==>
      ZeroedAlong(inode.Contents(), e, lblk, len, zeroLimit)
  {
    var moved := TransferToNeighbour(inode, path, lblk, len);
    if moved {
      err, done, zs := Ok, len, [];
      HandedConverted(m, inode.Contents(), e, lblk, len, z);
    } else {
      err, done, zs := ConvertInPlace(inode, path, e, lblk, len, eof, zeroLimit, preIO, first, second, v, m, z);
    }
    TouchedBy(m, inode.Contents(), e, lblk, len, eof, err == Ok, done, zs, z, inode.zeroed);
  }

  /** With zeroing allowed a small extent is initialised as a whole, a larger one beyond the request. */
  ghost predicate ZeroedAlong(m: LogicalMap, e: Extent, lblk: nat, len: nat, limit: nat) {
    (Len(e) <= limit ==> Initialised(m, e.block, End(e))) && (limit < Len(e) ==> Widened(m, e, lblk, len, limit))
  }

  /** No neighbour took the request: zero the extent if it is small, else split. */
  method ConvertInPlace(inode: Inode, path: seq<Step>, e: Extent, lblk: nat, len: nat, eof: nat, zeroLimit: nat,
                        preIO: bool, first: Supply, second: Supply, ghost v: Verdict, ghost m: LogicalMap,
                        ghost z: set<nat>)
    returns (err: Status, done: nat, zs: seq<Extent>)
    requires inode.Valid() && OnEntry(inode.t, lblk, path) && len > 0
    requires e == Entry(inode.t, lblk) && IsUninit(e) && ExtentOk(e) && Covers(e, lblk)
    requires m == inode.Contents() && z == inode.zeroed && Agrees(m, e)
    requires v == ZeroVerdict(inode.t, e, lblk, len, eof, zeroLimit, preIO, Within(first.blocks, inode.free),
                              Within(second.blocks, inode.free))
    modifies inode`root, inode`disk, inode`free, inode`t, inode`zeroed
    ensures inode.Valid() && inode.Universe() == old(inode.Universe())
    ensures (err == Ok || err == ENOSPC) && Obeys(v, err == Ok)
    ensures Converted(m, inode.Contents(), e, lblk, len, err == Ok, done, zs, z, inode.zeroed)
    ensures !MayZero(e, eof, lblk + len) ==> zs == [] && inode.zeroed == z
    ensures err == Ok && MayZero(e, eof, lblk + len) ==> ZeroedAlong(inode.Contents(), e, lblk, len, zeroLimit)
  {
    var mayZeroout := End(e) <= Max(eof, lblk + len);
    var maxZeroout := if mayZeroout then zeroLimit else 0;
    if maxZeroout > 0 && Len(e) <= maxZeroout {
      ZeroWhole(inode, path, e, lblk, len, first.room, m, z);
      err, done, zs := Ok, End(e) - lblk, [Whole(e, false)];
    } else {
      err, done, zs := ZeroAndSplit(inode, path, e, lblk, len, mayZeroout, maxZeroout, preIO, first, second, v, m, z);
    }
  }
}
