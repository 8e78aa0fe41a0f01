/**
 The block bitmap of a group that was never initialised (ext4/balloc.c): building it, and the
 closed form for its number of free clusters.
 */
module BlockBitmap {
  import opened Divisions

  // ----- which groups hold a copy of the superblock ----------------------------------------------

  function Power(b: nat, k: nat): nat {
    if k == 0 then 1 else b * Power(b, k - 1)
  }

  ghost predicate IsPower(a: nat, b: nat) {
    exists k: nat :: k > 0 && Power(b, k) == a
  }

  /** test_root: is a one of b, b * b, b * b * b, ...? */
  method TestRoot(a: nat, b: nat) returns (r: bool)
    requires b > 1
    ensures r <==> IsPower(a, b)
  {
    var num := b;
    ghost var k: nat := 1;
    assert Power(b, 1) == b * Power(b, 0);
    while a > num
      invariant k > 0 && num == Power(b, k) > 0
      invariant forall j: nat :: 0 < j < k ==> Power(b, j) < a
      decreases a - num
    {
      Grows(b, k);
      num := b * num;
      k := k + 1;
    }
    r := num == a;
    if a < num {
      forall j: nat | j > 0 ensures Power(b, j) != a {
        if j >= k {
          Monotone(b, k, j);
        }
      }
    }
  }

  lemma Grows(b: nat, k: nat)
    requires b > 1 && Power(b, k) > 0
    ensures Power(b, k + 1) == b * Power(b, k) > Power(b, k)
  {
    var p := Power(b, k);
    assert b * p >= 2 * p;
  }

  lemma {:induction false} Monotone(b: nat, k: nat, j: nat)
    requires b > 1 && k <= j && Power(b, k) > 0
    ensures Power(b, k) <= Power(b, j) && Power(b, j) > 0
    decreases j
  {
    if k < j {
      Monotone(b, k, j - 1);
      Grows(b, j - 1);
    }
  }

  ghost predicate Sparse(group: nat) {
    group <= 1 || IsPower(group, 3) || IsPower(group, 5) || IsPower(group, 7)
  }

  /** ext4_group_sparse: groups 0 and 1 and the powers of 3, 5 and 7; the test for odd numbers loses none. */
  method GroupSparse(group: nat) returns (r: bool)
    ensures r <==> Sparse(group)
  {
    if group <= 1 {
      return true;
    }
    if group % 2 == 0 {
      EvenNotPower(group, 3);
      EvenNotPower(group, 5);
      EvenNotPower(group, 7);
      return false;
    }
    r := TestRoot(group, 7);
    if !r {
      r := TestRoot(group, 5);
    }
    if !r {
      r := TestRoot(group, 3);
    }
  }

  lemma EvenNotPower(a: nat, b: nat)
    requires a % 2 == 0 && b % 2 == 1
    ensures !IsPower(a, b)
  {
    forall k: nat ensures Power(b, k) % 2 == 1 {
      OddPower(b, k);
    }
  }

  lemma {:induction false} OddPower(b: nat, k: nat)
    requires b % 2 == 1
    ensures Power(b, k) % 2 == 1
  {
    if k > 0 {
      OddPower(b, k - 1);
      OddTimes(b, Power(b, k - 1));
    }
  }

  lemma OddTimes(a: nat, b: nat)
    requires a % 2 == 1 && b % 2 == 1
    ensures (a * b) % 2 == 1
  {
    var i, j := a / 2, b / 2;
    assert a == 2 * i + 1 && b == 2 * j + 1;
    assert a * b == 2 * (2 * i * j + i + j) + 1;
  }

  // ----- superblock and descriptors at the start of a group ------------------------------------------

  /** Features and superblock fields that decide what begins a group. */
  datatype Layout = Layout(sparseSuper: bool, metaBg: bool, firstMetaBg: nat, descPerBlock: nat, gdbCount: nat,
    reservedGdt: nat)

  ghost predicate HasSuper(l: Layout, group: nat) {
    !l.sparseSuper || Sparse(group)
  }

  /** ext4_bg_has_super */
  method BgHasSuper(l: Layout, group: nat) returns (r: bool)
    ensures r <==> HasSuper(l, group)
  {
    var sparse := GroupSparse(group);
    r := !(l.sparseSuper && !sparse);
  }

  /** The group has its own descriptor blocks, not those of the whole file system. */
  predicate InMetaBg(l: Layout, group: nat)
    requires l.descPerBlock > 0
  {
    l.metaBg && group / l.descPerBlock >= l.firstMetaBg
  }

  /** First, second and last group of a meta group hold its descriptor block. */
  predicate HoldsMetaGdb(l: Layout, group: nat)
    requires l.descPerBlock > 0
  {
    var pos := group % l.descPerBlock;
    pos == 0 || pos == l.descPerBlock - 1 || (pos == 1 && l.descPerBlock > 1)
  }

  /** Blocks of superblock, descriptors and reserved descriptors at the start of the group. */
  ghost function BaseBlocks(l: Layout, group: nat): nat
    requires l.descPerBlock > 0
  {
    if InMetaBg(l, group) then
      (if HasSuper(l, group) then 1 else 0) + (if HoldsMetaGdb(l, group) then 1 else 0)
    else if HasSuper(l, group) then 1 + (if l.metaBg then l.firstMetaBg else l.gdbCount) + l.reservedGdt
    else 0
  }

  /** ext4_bg_num_gdb */
  method BgNumGdb(l: Layout, group: nat) returns (n: nat)
    requires l.descPerBlock > 1
    ensures n == if InMetaBg(l, group) then (if HoldsMetaGdb(l, group) then 1 else 0)
                 else if HasSuper(l, group) then (if l.metaBg then l.firstMetaBg else l.gdbCount) else 0
  {
    var metagroup := group / l.descPerBlock;
    if !l.metaBg || metagroup < l.firstMetaBg {
      var super := BgHasSuper(l, group);
      if !super {
        return 0;
      }
      return if l.metaBg then l.firstMetaBg else l.gdbCount;
    }
    var first := metagroup * l.descPerBlock;
    var last := first + l.descPerBlock - 1;
    assert group == l.descPerBlock * metagroup + group % l.descPerBlock;
    n := if group == first || group == first + 1 || group == last then 1 else 0;
  }

  /** The part of ext4_num_base_meta_clusters before the rounding to clusters. */
  method NumBaseMeta(l: Layout, group: nat) returns (num: nat)
    requires l.descPerBlock > 1
    ensures num == BaseBlocks(l, group)
  {
    var super := BgHasSuper(l, group);
    num := if super then 1 else 0;
    var gdb := BgNumGdb(l, group);
    MetaBgBound(group, l.descPerBlock, l.firstMetaBg);
    if !l.metaBg || group < l.firstMetaBg * l.descPerBlock {
      if num != 0 {
        num := num + gdb;
        num := num + l.reservedGdt;
      }
    } else {
      num := num + gdb;
    }
  }

  lemma MetaBgBound(group: nat, q: nat, n: nat)
    requires q > 0
    ensures group < n * q <==> group / q < n
  {
    var a := group / q;
    assert group == q * a + group % q;
    if a < n {
      MulGap(a, n, q);
    } else if n < a {
      MulGap(n, a, q);
    }
  }

  // ----- the group of a block ----------------------------------------------------------------------

  /** ext4_get_group_number; `std` is the shift used for groups of standard size. */
  function GroupNumber(std: bool, first: nat, perGroup: nat, block: nat): nat
    requires perGroup > 0 && first <= block
  {
    if std then (first + block) / perGroup else (block - first) / perGroup
  }

  /**
   The shift adds the first data block instead of subtracting it: it gives the group exactly
   if the block is not among the last 2 * first blocks of its group.
   */
  lemma GroupNumberExactly(first: nat, perGroup: nat, block: nat)
    requires 2 * first < perGroup && first <= block
    ensures GroupNumber(true, first, perGroup, block) == GroupNumber(false, first, perGroup, block)
      <==> (block - first) % perGroup + 2 * first < perGroup
  {
    var o, g := (block - first) % perGroup, (block - first) / perGroup;
    assert block - first == perGroup * g + o;
    assert first + block == perGroup * g + (o + 2 * first);
    if o + 2 * first < perGroup {
      DivIs(first + block, perGroup, g, o + 2 * first);
    } else {
      assert perGroup * (g + 1) == perGroup * g + perGroup;
      DivIs(first + block, perGroup, g + 1, o + 2 * first - perGroup);
    }
  }

  // ----- the meta-data of a group ------------------------------------------------------------------

  /**
   A group: its number and first block, blocks in it and in a full group, blocks to a cluster,
   the places named by its descriptor, and the bits of a bitmap block. `std` is the shift of
   ext4_get_group_number, `first` the first data block of the file system.
   */
  datatype Group = Group(number: nat, std: bool, first: nat, blocks: nat, perGroup: nat, ratio: nat, layout: Layout,
                         blockBitmap: nat, inodeBitmap: nat, inodeTable: nat, itbPerGroup: nat, flexBg: bool, bits: nat)

  /** ext4_group_first_block_no */
  function Start(g: Group): nat {
    g.first + g.number * g.perGroup
  }

  /** ext4_block_in_group */
  predicate InGroup(g: Group, b: nat)
    requires g.perGroup > 0
  {
    g.first <= b && GroupNumber(g.std, g.first, g.perGroup, b) == g.number
  }

  predicate Lies(g: Group, b: nat) {
    Start(g) <= b < Start(g) + g.blocks
  }

  /**
   EXT4_B2C of the block's offset in the group, as the int the code keeps it in: for a block
   before the group it is negative.
   */
  function ClusterOf(g: Group, b: nat): int
    requires g.ratio > 0
  {
    (b - Start(g)) / g.ratio
  }

  predicate Shape(g: Group) {
    g.ratio > 0 && g.perGroup > 0 && g.layout.descPerBlock > 1
  }

  /** EXT4_NUM_B2C rounds up. */
  function NumB2C(ratio: nat, blocks: nat): nat
    requires ratio > 0
  {
    (blocks + ratio - 1) / ratio
  }

  /** num_clusters_in_group */
  function Clusters(g: Group): nat
    requires g.ratio > 0
  {
    NumB2C(g.ratio, g.blocks)
  }

  /** Clusters of the meta-data at the start of the group. */
  ghost function Base(g: Group): nat
    requires g.ratio > 0 && g.layout.descPerBlock > 0
  {
    NumB2C(g.ratio, BaseBlocks(g.layout, g.number))
  }

  /** ext4_num_base_meta_clusters */
  method NumBaseMetaClusters(g: Group) returns (n: nat)
    requires g.ratio > 0 && g.layout.descPerBlock > 1
    ensures n == Base(g)
  {
    var num := NumBaseMeta(g.layout, g.number);
    n := NumB2C(g.ratio, num);
  }

  function TableBlock(g: Group, i: nat): nat {
    g.inodeTable + i
  }

  /**
   What the code relies on: meta-data it takes to be in the group does not lie behind its end,
   and without flex_bg all of it lies in the group. A block before the group is not excluded.
   */
  ghost predicate Sane(g: Group) {
    && Shape(g) && 0 < g.blocks <= g.perGroup
    && Base(g) <= Clusters(g) <= g.bits && g.bits % 8 == 0
    && Placed(g, g.blockBitmap) && Placed(g, g.inodeBitmap)
    && forall i: nat :: i < g.itbPerGroup ==> Placed(g, TableBlock(g, i))
  }

  predicate Placed(g: Group, b: nat)
    requires g.perGroup > 0
  {
    if g.flexBg then InGroup(g, b) ==> b < Start(g) + g.blocks else Lies(g, b)
  }

  /** The cluster of one block, if the code takes it to be in the group. */
  function Spot(g: Group, b: nat): (s: set<int>)
    requires g.ratio > 0 && g.perGroup > 0
  {
    if InGroup(g, b) then {ClusterOf(g, b)} else {}
  }

  /** The bit set for one block; without flex_bg the group is not asked for. */
  function Bit(g: Group, b: nat): (s: set<int>)
    requires g.ratio > 0 && g.perGroup > 0
  {
    if !g.flexBg || InGroup(g, b) then {ClusterOf(g, b)} else {}
  }

  function Prefix(n: nat): (s: set<int>)
    ensures forall c :: c in s <==> 0 <= c < n
    ensures |s| == n
  {
    if n == 0 then {} else Prefix(n - 1) + {n - 1}
  }

  function Table(g: Group, n: nat): set<int>
    requires Shape(g)
  {
    if n == 0 then {} else Table(g, n - 1) + Spot(g, TableBlock(g, n - 1))
  }

  function TableBits(g: Group, n: nat): set<int>
    requires Shape(g)
  {
    if n == 0 then {} else TableBits(g, n - 1) + Bit(g, TableBlock(g, n - 1))
  }

  /** The clusters of meta-data as they are counted. */
  ghost function Meta(g: Group): set<int>
    requires Shape(g)
  {
    Prefix(Base(g)) + Spot(g, g.blockBitmap) + Spot(g, g.inodeBitmap) + Table(g, g.itbPerGroup)
  }

  /** The clusters of meta-data as they are marked in the bitmap. */
  ghost function Marked(g: Group): set<int>
    requires Shape(g)
  {
    Prefix(Base(g)) + Bit(g, g.blockBitmap) + Bit(g, g.inodeBitmap) + TableBits(g, g.itbPerGroup)
  }

  /** Both bitmaps are remembered apart for the same cluster: one behind the base or before the group. */
  ghost predicate Shared(g: Group)
    requires Shape(g)
  {
    && InGroup(g, g.blockBitmap) && InGroup(g, g.inodeBitmap)
    && ClusterOf(g, g.blockBitmap) == ClusterOf(g, g.inodeBitmap)
    && (ClusterOf(g, g.blockBitmap) > Base(g) || ClusterOf(g, g.blockBitmap) < -1)
  }

  ghost function Extra(g: Group): nat
    requires Shape(g)
  {
    if Shared(g) then 1 else 0
  }

  lemma AddOne(s: set<int>, c: int)
    ensures |s + {c}| == |s| + if c in s then 0 else 1
  {
    if c in s {
      assert s + {c} == s;
    }
  }

  // ----- counting ------------------------------------------------------------------------------------

  function Tracked(c: int): nat {
    if c == -1 then 0 else 1
  }

  /** What has been counted: n clusters, and up to three remembered apart (-1 for none). */
  datatype Tally = Tally(n: nat, bc: int, ic: int, itc: int)

  function Amount(t: Tally): nat {
    t.n + Tracked(t.bc) + Tracked(t.ic)
  }

  /** A cluster of the inode table; compared as unsigned numbers a negative one is never below n. */
  function Step(t: Tally, c: int): Tally {
    if 0 <= c < t.n || c == t.ic || c == t.bc || c == t.itc then t
    else if c == t.n then t.(n := t.n + 1)
    else t.(n := t.n + 1, itc := c)
  }

  /** The tally after the first i blocks of the inode table. */
  ghost function Tallied(g: Group, t: Tally, i: nat): Tally
    requires Shape(g)
  {
    if i == 0 then t
    else
      var b := TableBlock(g, i - 1);
      if InGroup(g, b) then Step(Tallied(g, t, i - 1), ClusterOf(g, b)) else Tallied(g, t, i - 1)
  }

  /** What is tracked for one bitmap, n clusters having been counted. */
  function Apart(g: Group, b: nat, n: nat): int
    requires Shape(g)
  {
    if InGroup(g, b) && !(0 <= ClusterOf(g, b) <= n) then ClusterOf(g, b) else -1
  }

  function Next(g: Group, b: nat, n: nat): nat
    requires Shape(g)
  {
    if InGroup(g, b) && ClusterOf(g, b) == n then n + 1 else n
  }

  /** A bitmap's cluster: counted already, next to what is counted, or to be tracked. */
  method TrackSpot(g: Group, b: nat, n: nat) returns (n': nat, tracked: int)
    requires Shape(g)
    ensures tracked == Apart(g, b, n) && n' == Next(g, b, n)
  {
    n', tracked := n, -1;
    if InGroup(g, b) {
      tracked := ClusterOf(g, b);
      if 0 <= tracked < n {
        tracked := -1;
      } else if tracked == n {
        n', tracked := n + 1, -1;
      }
    }
  }

  /** The tally of base and bitmaps. */
  ghost function BitmapTally(g: Group): Tally
    requires Shape(g)
  {
    var n := Next(g, g.blockBitmap, Base(g));
    Tally(Next(g, g.inodeBitmap, n), Apart(g, g.blockBitmap, Base(g)), Apart(g, g.inodeBitmap, n), -1)
  }

  method CountBitmaps(g: Group) returns (t: Tally)
    requires Shape(g)
    ensures t == BitmapTally(g)
  {
    var base := NumBaseMetaClusters(g);
    var n, bc := TrackSpot(g, g.blockBitmap, base);
    var n2, ic := TrackSpot(g, g.inodeBitmap, n);
    t := Tally(n2, bc, ic, -1);
  }

  /** The blocks of the inode table. */
  method CountTable(g: Group, t0: Tally) returns (t: Tally)
    requires Shape(g)
    ensures t == Tallied(g, t0, g.itbPerGroup)
  {
    t := t0;
    var i := 0;
    while i < g.itbPerGroup
      invariant i <= g.itbPerGroup && t == Tallied(g, t0, i)
    {
      if InGroup(g, TableBlock(g, i)) {
        var c := ClusterOf(g, TableBlock(g, i));
        if !(0 <= c < t.n || c == t.ic || c == t.bc || c == t.itc) {
          t := if c == t.n then t.(n := t.n + 1) else t.(n := t.n + 1, itc := c);
        }
      }
      i := i + 1;
    }
  }

  // ----- what the count comes to ---------------------------------------------------------------------

  /** The clusters of base and bitmaps. */
  ghost function Bitmaps(g: Group): set<int>
    requires Shape(g)
  {
    Prefix(Base(g)) + Spot(g, g.blockBitmap) + Spot(g, g.inodeBitmap)
  }

  /** Meta-data counted though it lies before the group. */
  ghost function Foreign(g: Group): set<int>
    requires Shape(g)
  {
    Negative(Meta(g))
  }

  function Negative(s: set<int>): set<int> {
    set c | c in s && c < 0
  }

  /** Clusters of the table n before the group, but for -1 and those of the bitmaps b. */
  function StraysOf(n: set<int>, b: set<int>): set<int> {
    set c | c in n && c < -1 && c !in b
  }

  /** Cluster -1 is counted although -1 also says that nothing is remembered: three others are. */
  ghost predicate NeighbourOf(n: set<int>, b: set<int>, t0: Tally) {
    -1 in n && StraysOf(n, b) != {} && t0.bc != -1 && t0.ic != -1
  }

  ghost function Strays(g: Group): set<int>
    requires Shape(g)
  {
    StraysOf(Table(g, g.itbPerGroup), Bitmaps(g))
  }

  ghost predicate NeighbourCounted(g: Group)
    requires Shape(g)
  {
    NeighbourOf(Table(g, g.itbPerGroup), Bitmaps(g), BitmapTally(g))
  }

  /** What the count is when the inode table reaches the group. */
  ghost function Reached(g: Group): nat
    requires Shape(g)
  {
    BitmapTally(g).n + |Strays(g)| + if NeighbourCounted(g) then 1 else 0
  }

  /**
   Clusters not counted: -1 if it is taken for "none", and those of the inode table below what
   the count has come to through strays.
   */
  ghost function Lost(g: Group): set<int>
    requires Shape(g)
  {
    LostOf(Meta(g), Bitmaps(g), Reached(g), NeighbourCounted(g))
  }

  function LostOf(m: set<int>, b: set<int>, reached: nat, neighbour: bool): set<int> {
    set c | c in m && if c == -1 then !neighbour else 0 <= c < reached && c !in b
  }

  /** One more spot: counted, unless it was there before or is -1. */
  lemma SpotCounted(g: Group, b: nat, n: nat, d: set<int>)
    requires Shape(g) && forall c :: 0 <= c < n ==> c in d
    ensures forall c :: 0 <= c < Next(g, b, n) ==> c in d + Spot(g, b)
    ensures (InGroup(g, b) ==> 0 <= ClusterOf(g, b) < n || ClusterOf(g, b) !in d)
      ==> |d + Spot(g, b)| == |d| + (Next(g, b, n) - n) + Tracked(Apart(g, b, n)) + if -1 in Spot(g, b) then 1 else 0
    ensures InGroup(g, b) && ClusterOf(g, b) in d ==> d + Spot(g, b) == d
  {
    if InGroup(g, b) {
      AddOne(d, ClusterOf(g, b));
    } else {
      assert d + Spot(g, b) == d;
    }
  }

  /** The tally t speaks for the clusters d, apart from -1. */
  ghost predicate SpeaksFor(d: set<int>, t: Tally) {
    && (forall c :: 0 <= c < t.n ==> c in d)
    && (t.bc != -1 ==> t.bc in d) && (t.ic != -1 ==> t.ic in d)
    && (forall c :: c in d ==> c == -1 || 0 <= c < t.n || c == t.bc || c == t.ic)
    && (-1 in d ==> t.bc == -1 || t.ic == -1)
  }

  lemma BitmapsCounted(g: Group)
    requires Shape(g)
    ensures Amount(BitmapTally(g)) + (if -1 in Bitmaps(g) then 1 else 0) == |Bitmaps(g)| + Extra(g)
    ensures SpeaksFor(Bitmaps(g), BitmapTally(g))
  {
    var n := Next(g, g.blockBitmap, Base(g));
    var t := BitmapTally(g);
    SpotsCounted(g, Prefix(Base(g)), Base(g), n, t.n, t.bc, t.ic);
  }

  lemma SpotsCounted(g: Group, d: set<int>, n0: nat, n1: nat, n2: nat, bc: int, ic: int)
    requires Shape(g) && d == Prefix(n0) && n0 == Base(g)
    requires n1 == Next(g, g.blockBitmap, n0) && bc == Apart(g, g.blockBitmap, n0)
    requires n2 == Next(g, g.inodeBitmap, n1) && ic == Apart(g, g.inodeBitmap, n1)
    ensures var b := d + Spot(g, g.blockBitmap) + Spot(g, g.inodeBitmap);
      && n2 + Tracked(bc) + Tracked(ic) + (if -1 in b then 1 else 0) == |b| + Extra(g)
      && SpeaksFor(b, Tally(n2, bc, ic, -1))
  {
    var d1 := d + Spot(g, g.blockBitmap);
    SpotCounted(g, g.blockBitmap, n0, d);
    SpotCounted(g, g.inodeBitmap, n1, d1);
  }

  // ----- the part of the inode table before the group ------------------------------------------------

  /** The clusters n, all before the group: each stray counts, and -1 if nothing hides it. */
  ghost predicate CountedBefore(t0: Tally, n: set<int>, b: set<int>, t: Tally) {
    var d := StraysOf(n, b);
    && t.bc == t0.bc && t.ic == t0.ic
    && t.n == t0.n + |d| + (if NeighbourOf(n, b, t0) then 1 else 0)
    && (if d == {} || NeighbourOf(n, b, t0) then t.itc == -1 else t.itc in d && AtMost(d, t.itc))
  }

  ghost predicate AtMost(s: set<int>, c: int) {
    forall x :: x in s ==> x <= c
  }

  ghost predicate AtLeast(s: set<int>, c: int) {
    forall x :: x in s ==> c <= x
  }

  lemma StepBefore(t0: Tally, n: set<int>, b: set<int>, t: Tally, c: int)
    requires SpeaksFor(b, t0) && CountedBefore(t0, n, b, t) && c < 0 && AtMost(n, c)
    ensures CountedBefore(t0, n + {c}, b, Step(t, c))
  {
    var d := StraysOf(n, b);
    if c < -1 && c !in b {
      assert StraysOf(n + {c}, b) == d + {c};
      AddOne(d, c);
    } else {
      assert StraysOf(n + {c}, b) == d;
    }
  }

  lemma {:induction false} TableBefore(g: Group, i: nat)
    requires Shape(g) && (i > 0 ==> TableBlock(g, i - 1) < Start(g))
    ensures if i == 0 then Table(g, i) == {} else AtMost(Table(g, i), ClusterOf(g, TableBlock(g, i - 1)))
    ensures AtMost(Table(g, i), -1)
    ensures CountedBefore(BitmapTally(g), Table(g, i), Bitmaps(g), Tallied(g, BitmapTally(g), i))
  {
    if i > 0 {
      var b, n := TableBlock(g, i - 1), Table(g, i - 1);
      TableBefore(g, i - 1);
      BeforeStart(g, b);
      if i > 1 {
        Ascending(g, TableBlock(g, i - 2), b);
      }
      assert AtMost(n, ClusterOf(g, b));
      if InGroup(g, b) {
        BitmapsCounted(g);
        StepBefore(BitmapTally(g), n, Bitmaps(g), Tallied(g, BitmapTally(g), i - 1), ClusterOf(g, b));
      } else {
        assert Table(g, i) == n;
      }
    }
  }

  lemma BeforeStart(g: Group, b: nat)
    requires g.ratio > 0
    ensures b < Start(g) <==> ClusterOf(g, b) < 0
  {
    var k, c := b - Start(g), ClusterOf(g, b);
    assert k == g.ratio * c + k % g.ratio;
    if c < 0 {
      Signs(g.ratio, c);
    } else {
      Signs(g.ratio, -1 - c);
    }
  }

  /** A negative multiple of q is at most -q. */
  lemma Signs(q: nat, c: int)
    requires q > 0 && c < 0
    ensures q * c <= 0 - q && q * (-1 - c) == -1 * q - q * c
  {
    assert q * (c + 1) == q * c + q;
    assert q * (c + 1) <= 0;
  }

  lemma Ascending(g: Group, a: nat, b: nat)
    requires g.ratio > 0 && a <= b
    ensures ClusterOf(g, a) <= ClusterOf(g, b)
  {
    DivMonotone(a - Start(g), b - Start(g), g.ratio);
  }

  lemma DivMonotone(a: int, b: int, q: nat)
    requires q > 0 && a <= b
    ensures a / q <= b / q
  {
    var x, y := a / q, b / q;
    assert a == q * x + a % q && b == q * y + b % q;
    if y < x {
      Signs(q, y - x);
    }
  }

  // ----- the part of the inode table in the group ------------------------------------------------------

  /**
   The tally of the clusters d: all below n0, the bitmaps' and those of the table so far, the
   last of which is `last`.
   */
  ghost predicate Counting(d: set<int>, n0: nat, t: Tally, last: int) {
    && (forall c :: 0 <= c < n0 ==> c in d)
    && (t.bc != -1 ==> t.bc in d) && (t.ic != -1 ==> t.ic in d) && (t.itc != -1 ==> t.itc in d)
    && last >= -1 && t.n >= n0 && (t.n <= n0 || t.n <= last + 1)
    && (last >= 0 ==> last in d && (last < t.n || last == t.bc || last == t.ic || last == t.itc))
    && (forall c :: c in d ==> c < n0 || c == t.bc || c == t.ic || c <= last)
  }

  /** One cluster of the inode table: skipped exactly if it has been counted or is tracked. */
  lemma StepCounted(d: set<int>, w: set<int>, n0: nat, t: Tally, last: int, c: int)
    requires Counting(d + w, n0, t, last) && last <= c && c >= 0
    ensures Counting(d + (w + {c}), n0, Step(t, c), c)
    ensures Amount(Step(t, c)) - Amount(t) == |d + (w + {c})| - |d + w|
  {
    assert d + (w + {c}) == (d + w) + {c};
    AddOne(d + w, c);
  }

  /** The cluster met last among blocks p..i-1 of the table. */
  ghost function LastMet(g: Group, p: nat, i: nat): int
    requires Shape(g) && p <= i
  {
    if i == p then -1
    else if InGroup(g, TableBlock(g, i - 1)) then ClusterOf(g, TableBlock(g, i - 1)) else LastMet(g, p, i - 1)
  }

  lemma {:induction false} LastMetBelow(g: Group, p: nat, i: nat, b: nat)
    requires Shape(g) && p <= i && (p < i ==> TableBlock(g, i - 1) <= b) && Start(g) <= b
    ensures LastMet(g, p, i) <= ClusterOf(g, b)
  {
    BeforeStart(g, b);
    if p < i {
      LastMetBelow(g, p, i - 1, b);
      Ascending(g, TableBlock(g, i - 1), b);
    }
  }

  /** The tally t of the clusters d and w began as tp with d alone. */
  ghost predicate Grown(d: set<int>, w: set<int>, tp: Tally, t: Tally, last: int) {
    Counting(d + w, tp.n, t, last) && Amount(t) - Amount(tp) == |d + w| - |d|
  }

  lemma GrownStep(d: set<int>, w: set<int>, tp: Tally, t: Tally, last: int, c: int)
    requires Grown(d, w, tp, t, last) && last <= c && c >= 0
    ensures Grown(d, w + {c}, tp, Step(t, c), c)
  {
    StepCounted(d, w, tp.n, t, last, c);
  }

  lemma GrownNone(d: set<int>, tp: Tally)
    requires Counting(d, tp.n, tp, -1)
    ensures Grown(d, {}, tp, tp, -1)
  {
    assert d + {} == d;
  }

  /** From block p on the table lies behind the start of the group. */
  lemma {:induction false} TableBehind(g: Group, p: nat, i: nat, tp: Tally, d: set<int>)
    requires Shape(g) && p <= i && Start(g) <= TableBlock(g, p) && Counting(d, tp.n, tp, -1)
    requires tp == Tallied(g, BitmapTally(g), p)
    ensures Grown(d, Between(g, p, i), tp, Tallied(g, BitmapTally(g), i), LastMet(g, p, i))
  {
    if i == p {
      GrownNone(d, tp);
    } else {
      var b, w := TableBlock(g, i - 1), Between(g, p, i - 1);
      TableBehind(g, p, i - 1, tp, d);
      if InGroup(g, b) {
        LastMetBelow(g, p, i - 1, b);
        BeforeStart(g, b);
        GrownStep(d, w, tp, Tallied(g, BitmapTally(g), i - 1), LastMet(g, p, i - 1), ClusterOf(g, b));
      } else {
        assert w + {} == w;
      }
    }
  }

  /** The clusters of blocks p..i-1 of the table. */
  ghost function Between(g: Group, p: nat, i: nat): set<int>
    requires Shape(g) && p <= i
  {
    if i == p then {} else Between(g, p, i - 1) + Spot(g, TableBlock(g, i - 1))
  }

  lemma {:induction false} TableParts(g: Group, p: nat, i: nat)
    requires Shape(g) && p <= i && Start(g) <= TableBlock(g, p)
    ensures Table(g, i) == Table(g, p) + Between(g, p, i) && AtLeast(Between(g, p, i), 0)
  {
    if p < i {
      TableParts(g, p, i - 1);
      BeforeStart(g, TableBlock(g, i - 1));
    }
  }

  // ----- both parts --------------------------------------------------------------------------------------

  /** The blocks of the table before the group. */
  ghost function BlocksBefore(g: Group): (p: nat)
    ensures p <= g.itbPerGroup && (p > 0 ==> TableBlock(g, p - 1) < Start(g))
    ensures p < g.itbPerGroup ==> Start(g) <= TableBlock(g, p)
  {
    if Start(g) <= g.inodeTable then 0
    else if Start(g) - g.inodeTable <= g.itbPerGroup then Start(g) - g.inodeTable else g.itbPerGroup
  }

  /** The clusters of the table behind the start of the group. */
  ghost function Within(g: Group): (s: set<int>)
    requires Shape(g)
    ensures Table(g, g.itbPerGroup) == Table(g, BlocksBefore(g)) + s
    ensures AtLeast(s, 0)
  {
    var p := BlocksBefore(g);
    if p < g.itbPerGroup then
      TableParts(g, p, g.itbPerGroup);
      Between(g, p, g.itbPerGroup)
    else {}
  }

  lemma SameStrays(g: Group, n: set<int>)
    requires Shape(g) && n == Table(g, BlocksBefore(g))
    ensures StraysOf(n, Bitmaps(g)) == Strays(g) && AtMost(n, -1)
    ensures NeighbourOf(n, Bitmaps(g), BitmapTally(g)) == NeighbourCounted(g)
    ensures CountedBefore(BitmapTally(g), n, Bitmaps(g), Tallied(g, BitmapTally(g), BlocksBefore(g)))
  {
    TableBefore(g, BlocksBefore(g));
    var s := Within(g);
    assert StraysOf(n, Bitmaps(g)) == Strays(g);
  }

  lemma StartsCounting(b: set<int>, n: set<int>, t0: Tally, t: Tally)
    requires SpeaksFor(b, t0) && CountedBefore(t0, n, b, t) && AtMost(n, -1)
    ensures Counting(b + n + Prefix(t.n), t.n, t, -1)
  {
  }

  lemma WithinGrown(g: Group, p: nat, tp: Tally, d: set<int>)
    requires Shape(g) && p == BlocksBefore(g) && tp == Tallied(g, BitmapTally(g), p) && Counting(d, tp.n, tp, -1)
    ensures Amount(Tallied(g, BitmapTally(g), g.itbPerGroup)) - Amount(tp) == |d + Within(g)| - |d|
  {
    if p < g.itbPerGroup {
      TableBehind(g, p, g.itbPerGroup, tp, d);
    } else {
      assert d + Within(g) == d;
    }
  }

  /** What the part in the group adds to the count. */
  lemma WithinCounted(g: Group, p: nat, n: set<int>, tp: Tally)
    requires Shape(g) && p == BlocksBefore(g) && n == Table(g, p) && AtMost(n, -1)
    requires tp == Tallied(g, BitmapTally(g), p)
    ensures Amount(Tallied(g, BitmapTally(g), g.itbPerGroup))
      == Amount(tp) + |Within(g) - Bitmaps(g) - Prefix(tp.n)|
  {
    var d := Bitmaps(g) + n + Prefix(tp.n);
    assert Counting(d, tp.n, tp, -1) by {
      BitmapsCounted(g);
      SameStrays(g, n);
      StartsCounting(Bitmaps(g), n, BitmapTally(g), tp);
    }
    WithinGrown(g, p, tp, d);
    NewOnes(Bitmaps(g), n, Prefix(tp.n), Within(g));
  }

  lemma NewOnes(b: set<int>, n: set<int>, f: set<int>, w: set<int>)
    requires AtMost(n, -1) && AtLeast(w, 0)
    ensures |b + n + f + w| == |b + n + f| + |w - b - f|
  {
    var d := b + n + f;
    SetParts(d, d + w);
    forall c ensures c in d + w - d <==> c in w - b - f {
    }
    assert d + w - d == w - b - f;
  }

  lemma SetParts(a: set<int>, b: set<int>)
    requires a <= b
    ensures |b| == |a| + |b - a|
  {
    assert b == a + (b - a);
  }

  /** The clusters behind those of base and bitmaps, by what becomes of them. */
  lemma MetaParts(b: set<int>, n: set<int>, w: set<int>, f: set<int>)
    requires AtMost(n, -1) && AtLeast(w, 0)
    ensures |b + (n + w)| == |b| + |StraysOf(n, b)| + |w * f - b| + |w - b - f| + if -1 in n && -1 !in b then 1 else 0
  {
    SetParts(b, b + n);
    StrayParts(n, b);
    SetParts(b + n, b + n + w);
    SetParts(w * f - b, w - b);
    assert w - b - (w * f - b) == w - b - f;
    forall c ensures c in b + n + w - (b + n) <==> c in w - b {
    }
    assert b + n + w - (b + n) == w - b && b + (n + w) == b + n + w;
  }

  lemma StrayParts(n: set<int>, b: set<int>)
    requires AtMost(n, -1)
    ensures |b + n - b| == |StraysOf(n, b)| + if -1 in n && -1 !in b then 1 else 0
  {
    AddOne(StraysOf(n, b), -1);
    forall c ensures c in b + n - b <==> c in StraysOf(n, b) || (c == -1 && c in n && c !in b) {
    }
    if -1 in n && -1 !in b {
      assert b + n - b == StraysOf(n, b) + {-1};
    } else {
      assert b + n - b == StraysOf(n, b);
    }
  }

  lemma LostParts(b: set<int>, n: set<int>, w: set<int>, reached: nat, neighbour: bool)
    requires AtMost(n, -1) && AtLeast(w, 0)
    ensures var m := b + (n + w);
      |LostOf(m, b, reached, neighbour)| == |w * Prefix(reached) - b| + if -1 in m && !neighbour then 1 else 0
  {
    var m, sw := b + (n + w), w * Prefix(reached) - b;
    AddOne(sw, -1);
    forall c ensures c in LostOf(m, b, reached, neighbour) <==> c in sw || (c == -1 && c in m && !neighbour) {
      assert c in m <==> c in b || c in n || c in w;
    }
    if -1 in m && !neighbour {
      assert LostOf(m, b, reached, neighbour) == sw + {-1};
    } else {
      assert LostOf(m, b, reached, neighbour) == sw;
    }
  }

  /** What the part before the group adds to the count. */
  lemma BeforeCounted(g: Group, n: set<int>, tp: Tally)
    requires Shape(g) && n == Table(g, BlocksBefore(g)) && tp == Tallied(g, BitmapTally(g), BlocksBefore(g))
    ensures tp.n == Reached(g) && AtMost(n, -1)
    ensures Amount(tp) == Amount(BitmapTally(g)) + |StraysOf(n, Bitmaps(g))| + if NeighbourCounted(g) then 1 else 0
    ensures NeighbourCounted(g) ==> -1 in n && -1 !in Bitmaps(g)
  {
    SameStrays(g, n);
    BitmapsCounted(g);
  }

  lemma BitmapsSum(g: Group)
    requires Shape(g)
    ensures Amount(BitmapTally(g)) + (if -1 in Bitmaps(g) then 1 else 0) == |Bitmaps(g)| + Extra(g)
  {
    BitmapsCounted(g);
  }

  /** The count and what it misses. */
  lemma CountsTo(g: Group, t: Tally)
    requires Shape(g) && t == Tallied(g, BitmapTally(g), g.itbPerGroup)
    ensures Amount(t) + |Lost(g)| == |Meta(g)| + Extra(g)
  {
    var p, b, w := BlocksBefore(g), Bitmaps(g), Within(g);
    var n, tp := Table(g, p), Tallied(g, BitmapTally(g), p);
    BitmapsSum(g);
    BeforeCounted(g, n, tp);
    WithinCounted(g, p, n, tp);
    MetaParts(b, n, w, Prefix(Reached(g)));
    LostParts(b, n, w, Reached(g), NeighbourCounted(g));
    assert Meta(g) == b + (n + w);
    assert -1 !in w;
  }

  /**
   ext4_num_overhead_clusters: the number of clusters of recognised meta-data, plus one if both
   bitmaps are remembered for the same cluster, without those lost.
   */
  method NumOverheadClusters(g: Group) returns (n: nat)
    requires Shape(g)
    ensures n + |Lost(g)| == |Meta(g)| + Extra(g)
  {
    var t := CountBitmaps(g);
    t := CountTable(g, t);
    CountsTo(g, t);
    n := t.n;
    if t.bc != -1 {
      n := n + 1;
    }
    if t.ic != -1 {
      n := n + 1;
    }
  }

  /** Only meta-data before the group makes the count lose some in it. */
  lemma NoneForeign(g: Group)
    requires Shape(g) && AtLeast(Meta(g), 0)
    ensures Foreign(g) == Lost(g) == {}
  {
    BitmapsCounted(g);
    NoneLost(Meta(g), Bitmaps(g), Table(g, g.itbPerGroup), BitmapTally(g), NeighbourCounted(g));
    assert Foreign(g) == {};
  }

  lemma NoneLost(m: set<int>, b: set<int>, n: set<int>, t: Tally, neighbour: bool)
    requires AtLeast(m, 0) && n <= m && SpeaksFor(b, t)
    ensures StraysOf(n, b) == {} && LostOf(m, b, t.n, neighbour) == {} && -1 !in n
  {
  }

  // ----- the bitmap ----------------------------------------------------------------------------------

  function RoundUp8(n: nat): nat {
    (n + 7) / 8 * 8
  }

  /** ext4_mark_bitmap_end: single bits up to a byte boundary, then whole bytes. */
  method MarkBitmapEnd(startBit: nat, endBit: nat, bh: array<bool>)
    requires endBit <= bh.Length && endBit % 8 == 0
    modifies bh
    ensures forall k :: 0 <= k < bh.Length ==> bh[k] == (old(bh[k]) || startBit <= k < endBit)
  {
    if startBit >= endBit {
      return;
    }
    var i := startBit;
    while i < RoundUp8(startBit)
      invariant startBit <= i <= RoundUp8(startBit) <= endBit
      invariant forall k :: 0 <= k < bh.Length ==> bh[k] == (old(bh[k]) || startBit <= k < i)
    {
      bh[i] := true;
      i := i + 1;
    }
    if i < endBit {
      SetBytes(bh, i / 8, (endBit - i) / 8);
    }
  }

  /** memset of n bytes to 0xff. */
  method SetBytes(bh: array<bool>, first: nat, n: nat)
    requires 8 * (first + n) <= bh.Length
    modifies bh
    ensures forall k :: 0 <= k < bh.Length ==> bh[k] == (old(bh[k]) || 8 * first <= k < 8 * (first + n))
  {
    var k := 8 * first;
    while k < 8 * (first + n)
      invariant 8 * first <= k <= 8 * (first + n)
      invariant forall j :: 0 <= j < bh.Length ==> bh[j] == (old(bh[j]) || 8 * first <= j < k)
    {
      bh[k] := true;
      k := k + 1;
    }
  }

  /**
   ext4_init_block_bitmap: a bit is set exactly for a cluster of meta-data taken to be in the
   group and behind the end of the group; with a bad checksum all bits are. `outside` holds the
   numbers of bits set in front of the bitmap: those of blocks before the group.
   */
  method InitBlockBitmap(g: Group, bh: array<bool>, csumOk: bool) returns (outside: set<int>)
    requires Sane(g) && bh.Length == g.bits
    modifies bh
    ensures outside == if csumOk then Foreign(g) else {}
    ensures forall k: nat :: k < bh.Length ==> bh[k] == (!csumOk || k in Marked(g) || k >= Clusters(g))
  {
    outside := {};
    if !csumOk {
      SetBytes(bh, 0, g.bits / 8);
      return;
    }
    ClearBits(bh);
    var bitMax := NumBaseMetaClusters(g);
    var bit := 0;
    while bit < bitMax
      invariant bit <= bitMax && forall k: nat :: k < bh.Length ==> bh[k] == (k < bit)
    {
      bh[bit] := true;
      bit := bit + 1;
    }
    var o1 := SetSpot(g, g.blockBitmap, bh);
    var o2 := SetSpot(g, g.inodeBitmap, bh);
    var o3 := SetTable(g, bh);
    outside := o1 + o2 + o3;
    ForeignParts(g);
    MarkBitmapEnd(Clusters(g), g.bits, bh);
  }

  /** memset to 0 */
  method ClearBits(bh: array<bool>)
    modifies bh
    ensures forall k: nat :: k < bh.Length ==> !bh[k]
  {
    var j := 0;
    while j < bh.Length
      invariant j <= bh.Length && forall k: nat :: k < j ==> !bh[k]
    {
      bh[j] := false;
      j := j + 1;
    }
  }

  method SetTable(g: Group, bh: array<bool>) returns (outside: set<int>)
    requires Sane(g) && bh.Length == g.bits
    modifies bh
    ensures forall k: nat :: k < bh.Length ==> bh[k] == (old(bh[k]) || k in TableBits(g, g.itbPerGroup))
    ensures outside == Negative(TableBits(g, g.itbPerGroup))
  {
    var i := 0;
    outside := {};
    while i < g.itbPerGroup
      invariant i <= g.itbPerGroup && forall k: nat :: k < bh.Length ==> bh[k] == (old(bh[k]) || k in TableBits(g, i))
      invariant outside == Negative(TableBits(g, i))
    {
      assert Placed(g, TableBlock(g, i));
      var o := SetSpot(g, TableBlock(g, i), bh);
      outside := outside + o;
      i := i + 1;
    }
  }

  /** Set the bit of a block if it lies in the group, which without flex_bg is not even asked. */
  method SetSpot(g: Group, b: nat, bh: array<bool>) returns (outside: set<int>)
    requires Sane(g) && Placed(g, b) && bh.Length == g.bits
    modifies bh
    ensures forall k: nat :: k < bh.Length ==> bh[k] == (old(bh[k]) || k in Bit(g, b))
    ensures outside == Negative(Bit(g, b))
  {
    outside := {};
    if !g.flexBg || InGroup(g, b) {
      SpotFits(g, b);
      var bit := ClusterOf(g, b);
      if bit < 0 {
        outside := {bit};
      } else {
        bh[bit] := true;
      }
    }
  }

  /** The bits outside are those of the clusters before the group that are counted too. */
  lemma ForeignParts(g: Group)
    requires Sane(g)
    ensures Negative(Bit(g, g.blockBitmap)) + Negative(Bit(g, g.inodeBitmap)) + Negative(TableBits(g, g.itbPerGroup))
      == Foreign(g)
  {
    BitFits(g, g.blockBitmap);
    BitFits(g, g.inodeBitmap);
    TableFits(g, g.itbPerGroup);
  }

  lemma SpotFits(g: Group, b: nat)
    requires Shape(g) && g.blocks > 0 && b < Start(g) + g.blocks
    ensures ClusterOf(g, b) < Clusters(g)
  {
    var last, q := g.blocks - 1, g.ratio;
    DivMonotone(b - Start(g), last, q);
    assert q * (last / q + 1) == q * (last / q) + q;
    DivIs(last + q, q, last / q + 1, last % q);
  }

  // ----- both agree ----------------------------------------------------------------------------------

  function Zeros(s: seq<bool>): nat {
    if s == [] then 0 else Zeros(s[..|s| - 1]) + if s[|s| - 1] then 0 else 1
  }

  lemma NoMembers(m: set<int>)
    requires forall c :: c in m ==> 0 <= c < 0
    ensures |m| == 0
  {
    assert m <= Prefix(0);
    assert m == {};
  }

  /** The zero bits are the clusters of the group without meta-data. */
  lemma {:induction false} ZerosCounted(s: seq<bool>, m: set<int>, n: nat)
    requires n <= |s| && (forall c :: c in m ==> 0 <= c < n)
    requires forall k: nat :: k < |s| ==> s[k] == (k in m || k >= n)
    ensures Zeros(s) + |m| == n
    decreases |s|
  {
    if s == [] {
      NoMembers(m);
    } else {
      var k := |s| - 1;
      var r := s[..k];
      if n == |s| {
        var m' := m - {k};
        assert m == if k in m then m' + {k} else m';
        ZerosCounted(r, m', k);
      } else {
        ZerosCounted(r, m, n);
      }
    }
  }

  /** Meta-data that is marked in the bitmap but not counted: its block is taken for one of another group. */
  ghost function Missed(g: Group): set<int>
    requires Shape(g)
  {
    Marked(g) - Meta(g)
  }

  lemma {:induction false} TableFits(g: Group, n: nat)
    requires Sane(g) && n <= g.itbPerGroup
    ensures Table(g, n) <= TableBits(g, n)
    ensures forall c :: c in TableBits(g, n) ==> c < Clusters(g) && (c < 0 ==> c in Table(g, n))
  {
    if n > 0 {
      TableFits(g, n - 1);
      assert Placed(g, TableBlock(g, n - 1));
      BitFits(g, TableBlock(g, n - 1));
    }
  }

  lemma BitFits(g: Group, b: nat)
    requires Shape(g) && g.blocks > 0 && Placed(g, b)
    ensures Spot(g, b) <= Bit(g, b)
    ensures forall c :: c in Bit(g, b) ==> c < Clusters(g) && (c < 0 ==> c in Spot(g, b))
  {
    if InGroup(g, b) || !g.flexBg {
      SpotFits(g, b);
      BeforeStart(g, b);
    }
  }

  lemma MetaFits(g: Group)
    requires Sane(g)
    ensures forall c :: c in Marked(g) - Foreign(g) ==> 0 <= c < Clusters(g)
    ensures |Marked(g) - Foreign(g)| + |Foreign(g)| == |Meta(g)| + |Missed(g)|
  {
    MarkedFits(g, Meta(g), Marked(g));
    SetParts(Meta(g), Marked(g));
    SetParts(Foreign(g), Marked(g));
  }

  lemma MarkedFits(g: Group, m: set<int>, k: set<int>)
    requires Sane(g) && m == Meta(g) && k == Marked(g)
    ensures m <= k && forall c :: c in k ==> c < Clusters(g) && (c < 0 ==> c in m)
  {
    TableFits(g, g.itbPerGroup);
    BitFits(g, g.blockBitmap);
    BitFits(g, g.inodeBitmap);
  }

  /** Blocks the code recognises as its own are not missed; with flex_bg none is. */
  lemma {:induction false} TableSame(g: Group, n: nat)
    requires Sane(g) && n <= g.itbPerGroup
    requires forall i: nat :: i < n ==> g.flexBg || InGroup(g, TableBlock(g, i))
    ensures Table(g, n) == TableBits(g, n)
  {
    if n > 0 {
      TableSame(g, n - 1);
    }
  }

  lemma FlexMarks(g: Group)
    requires Sane(g) && g.flexBg
    ensures Missed(g) == {}
  {
    TableSame(g, g.itbPerGroup);
  }

  // ----- what is in the group, and what is taken to be ----------------------------------------------------

  /** The cluster of one block, if it lies in the group. */
  function Home(g: Group, b: nat): set<int>
    requires g.ratio > 0
  {
    if Lies(g, b) then {ClusterOf(g, b)} else {}
  }

  function HomeTable(g: Group, n: nat): set<int>
    requires g.ratio > 0
  {
    if n == 0 then {} else HomeTable(g, n - 1) + Home(g, TableBlock(g, n - 1))
  }

  /** The clusters with meta-data in the group, as the descriptor places it. */
  ghost function Own(g: Group): set<int>
    requires Shape(g)
  {
    Prefix(Base(g)) + Home(g, g.blockBitmap) + Home(g, g.inodeBitmap) + HomeTable(g, g.itbPerGroup)
  }

  /**
   A block is taken to be in the group exactly if it is, but for the shift: of the blocks of
   the group the last 2 * first are not, and of those before it the last 2 * first are.
   */
  lemma InGroupExactly(g: Group, b: nat)
    requires Shape(g) && g.blocks == g.perGroup && 2 * g.first < g.perGroup && g.first <= b
    ensures InGroup(g, b) <==>
      if g.std then Start(g) - 2 * g.first <= b < Start(g) + g.blocks - 2 * g.first else Lies(g, b)
  {
    var q, k := g.perGroup, if g.std then g.first + b else b - g.first;
    assert k == q * (k / q) + k % q;
    if k / q < g.number {
      MulGap(k / q, g.number, q);
    } else if g.number < k / q {
      MulGap(g.number, k / q, q);
    }
  }

  /** No block is taken for one of another group. */
  ghost predicate Exact(g: Group) {
    !g.std || g.first == 0
  }

  lemma {:induction false} TableHome(g: Group, n: nat)
    requires Sane(g) && n <= g.itbPerGroup && (Exact(g) || !g.flexBg)
    ensures HomeTable(g, n) == TableBits(g, n) && (Exact(g) ==> HomeTable(g, n) == Table(g, n))
  {
    if n > 0 {
      TableHome(g, n - 1);
      assert Placed(g, TableBlock(g, n - 1));
      BlockHome(g, TableBlock(g, n - 1));
    }
  }

  lemma BlockHome(g: Group, b: nat)
    requires Shape(g) && 0 < g.blocks <= g.perGroup && Placed(g, b) && (Exact(g) || !g.flexBg)
    ensures Home(g, b) == Bit(g, b) && (Exact(g) ==> Home(g, b) == Spot(g, b))
  {
    if Exact(g) {
      if InGroup(g, b) {
        var k := b - g.first;
        assert k == g.perGroup * (k / g.perGroup) + k % g.perGroup;
      }
      if Lies(g, b) {
        OwnGroup(g, b);
      }
    }
  }

  lemma OwnGroup(g: Group, b: nat)
    requires Shape(g) && g.blocks <= g.perGroup && Lies(g, b) && Exact(g)
    ensures InGroup(g, b)
  {
    DivIs(b - g.first, g.perGroup, g.number, b - Start(g));
  }

  /**
   Without a first data block, or without the shift, bitmap and count speak about the meta-data
   in the group and nothing else.
   */
  lemma NothingMissed(g: Group)
    requires Sane(g) && Exact(g)
    ensures Marked(g) == Meta(g) == Own(g) && Missed(g) == Foreign(g) == Lost(g) == {}
  {
    TableHome(g, g.itbPerGroup);
    BlockHome(g, g.blockBitmap);
    BlockHome(g, g.inodeBitmap);
    OwnAhead(g);
    NoneForeign(g);
  }

  lemma {:induction false} HomeAhead(g: Group, n: nat)
    requires Shape(g)
    ensures AtLeast(HomeTable(g, n), 0)
  {
    if n > 0 {
      HomeAhead(g, n - 1);
      BeforeStart(g, TableBlock(g, n - 1));
    }
  }

  lemma OwnAhead(g: Group)
    requires Shape(g)
    ensures AtLeast(Own(g), 0)
  {
    HomeAhead(g, g.itbPerGroup);
    BeforeStart(g, g.blockBitmap);
    BeforeStart(g, g.inodeBitmap);
  }

  /** Without flex_bg the bitmap is right in any case, and the count sees nothing before the group. */
  lemma PlainMarks(g: Group)
    requires Sane(g) && !g.flexBg
    ensures Marked(g) == Own(g) && Foreign(g) == Lost(g) == {}
  {
    TableHome(g, g.itbPerGroup);
    BlockHome(g, g.blockBitmap);
    BlockHome(g, g.inodeBitmap);
    OwnAhead(g);
    MarkedFits(g, Meta(g), Marked(g));
    NoneForeign(g);
  }

  /**
   ext4_free_clusters_after_init, next to the bitmap it speaks about: it is off by the cluster
   counted twice and those counted before the group on one side, by those marked and missed and
   those lost on the other. It is the number of zero bits exactly if these are equally many.
   */
  method FreeClustersAfterInit(g: Group, bh: array<bool>) returns (free: int, outside: set<int>)
    requires Sane(g) && bh.Length == g.bits
    modifies bh
    ensures free + Extra(g) + |Foreign(g)| == Zeros(bh[..]) + |Missed(g)| + |Lost(g)|
    ensures free == Zeros(bh[..]) <==> Extra(g) + |Foreign(g)| == |Missed(g)| + |Lost(g)|
    ensures forall k: nat :: k < bh.Length ==> bh[k] == (k in Marked(g) || k >= Clusters(g))
    ensures outside == Foreign(g)
  {
    var n := NumOverheadClusters(g);
    outside := InitBlockBitmap(g, bh, true);
    MetaFits(g);
    ZerosCounted(bh[..], Marked(g) - Foreign(g), Clusters(g));
    free := Clusters(g) - n;
  }

  // ----- layouts for which the closed form is wrong ------------------------------------------------

  /** No superblock copies but in groups 0 and 1 and the powers of 3, 5, 7; one descriptor block. */
  function PlainLayout(): Layout {
    Layout(true, false, 0, 32, 1, 0)
  }

  /** Both bitmaps in the second cluster of group 2, with four blocks to a cluster: it counts twice. */
  lemma SharedCluster(g: Group)
    requires g.number == 2 && !g.std && g.first == 0 && g.blocks == g.perGroup == g.bits == 32768 && g.ratio == 4
    requires g.layout == PlainLayout() && g.blockBitmap == 65540 && g.inodeBitmap == 65541
    requires 65552 <= g.inodeTable && g.inodeTable + g.itbPerGroup <= 98304
    ensures Sane(g) && Shared(g) && Missed(g) == {}
  {
    NoSuper(g);
    AllPlaced(g);
    NothingMissed(g);
  }

  lemma NoSuper(g: Group)
    requires g.number == 2 && g.layout == PlainLayout() && g.ratio > 0
    ensures Base(g) == 0
  {
    EvenNotPower(2, 3);
    EvenNotPower(2, 5);
    EvenNotPower(2, 7);
    assert BaseBlocks(g.layout, 2) == 0;
  }

  lemma AllPlaced(g: Group)
    requires g.perGroup > 0 && g.blocks == g.perGroup && Start(g) <= g.inodeTable
    requires g.inodeTable + g.itbPerGroup <= Start(g) + g.blocks
    ensures forall i: nat :: i < g.itbPerGroup ==> Placed(g, TableBlock(g, i))
  {
  }

  /**
   Blocks of 1 KiB, so that the first data block is 1: the inode table ends with the last block
   of group 0, and the shift takes that one for a block of group 1.
   */
  lemma LastBlockMissed(g: Group)
    requires g.number == 0 && g.std && g.first == 1 && g.blocks == g.perGroup == g.bits == 8192 && g.ratio == 1
    requires !g.flexBg
    requires g.layout == PlainLayout() && g.blockBitmap == 3 && g.inodeBitmap == 4
    requires 5 <= g.inodeTable && 0 < g.itbPerGroup && g.inodeTable + g.itbPerGroup == 8193
    ensures Sane(g) && !Shared(g) && !InGroup(g, 8192) && 8191 in Missed(g)
  {
    LastBase(g);
    AllPlaced(g);
    MissedBlock(g, g.itbPerGroup - 1);
  }

  /**
   The same file system with flexible groups: nobody marks that block, so the bitmap of group 0
   shows it free.
   */
  lemma LastBlockOverlooked(g: Group)
    requires g.number == 0 && g.std && g.first == 1 && g.blocks == g.perGroup == g.bits == 8192 && g.ratio == 1
    requires g.flexBg
    requires g.layout == PlainLayout() && g.blockBitmap == 3 && g.inodeBitmap == 4
    requires 5 <= g.inodeTable && 0 < g.itbPerGroup && g.inodeTable + g.itbPerGroup == 8193
    ensures Sane(g) && 8191 in Own(g) && 8191 !in Marked(g) && Missed(g) == {}
  {
    LastBase(g);
    AllPlaced(g);
    FlexMarks(g);
    InHomeTable(g, g.itbPerGroup, g.itbPerGroup - 1);
    NotSpot(g, 3, 8191);
    NotSpot(g, 4, 8191);
    NotInTable(g, g.itbPerGroup, 8191);
  }

  lemma {:induction false} InHomeTable(g: Group, n: nat, i: nat)
    requires Shape(g) && i < n && Lies(g, TableBlock(g, i))
    ensures ClusterOf(g, TableBlock(g, i)) in HomeTable(g, n)
  {
    if i < n - 1 {
      InHomeTable(g, n - 1, i);
    }
  }

  /**
   Flexible groups and blocks of 1 KiB: a table of two blocks that begins with the last but one
   of group 0. Both are taken for blocks of group 1, whose number of free clusters comes out
   two too small, and two bits in front of its bitmap are set.
   */
  lemma TableBeforeGroup(g: Group)
    requires g.number == 1 && g.std && g.first == 1 && g.blocks == g.perGroup == g.bits == 8192 && g.ratio == 1
    requires g.flexBg && g.layout == PlainLayout()
    requires g.blockBitmap == 10000 && g.inodeBitmap == 10001 && g.inodeTable == 8191 && g.itbPerGroup == 2
    ensures Sane(g) && Foreign(g) == {-2, -1}
    ensures Extra(g) == 0 && Missed(g) == Lost(g) == {}
  {
    FirstBase(g);
    FlexMarks(g);
    TwoBlocks(g);
    BitmapsBehind(g);
    OneStray(Bitmaps(g), Table(g, 2), BitmapTally(g));
    assert Meta(g) == Bitmaps(g) + Table(g, 2);
  }

  lemma BitmapsBehind(g: Group)
    requires Shape(g) && Base(g) == 2 && g.number == 1 && g.std && g.first == 1 && g.perGroup == 8192 && g.ratio == 1
    requires g.blockBitmap == 10000 && g.inodeBitmap == 10001
    ensures BitmapTally(g) == Tally(2, 1807, 1808, -1)
    ensures forall c :: c in Bitmaps(g) <==> 0 <= c < 2 || c == 1807 || c == 1808
  {
    assert Start(g) == 8193;
    assert ClusterOf(g, 10000) == 1807 && ClusterOf(g, 10001) == 1808;
  }

  lemma OneStray(b: set<int>, n: set<int>, t: Tally)
    requires n == {-2, -1} && t == Tally(2, 1807, 1808, -1)
    requires forall c :: c in b <==> 0 <= c < 2 || c == 1807 || c == 1808
    ensures StraysOf(n, b) == {-2} && NeighbourOf(n, b, t)
    ensures LostOf(b + n, b, 4, true) == {} && Negative(b + n) == n
  {
    assert StraysOf(n, b) == {-2};
  }

  lemma FirstBase(g: Group)
    requires g.number == 1 && g.ratio == 1 && g.layout == PlainLayout()
    ensures Base(g) == 2
  {
    assert BaseBlocks(g.layout, 1) == 2;
  }

  lemma TwoBlocks(g: Group)
    requires Shape(g) && g.number == 1 && g.std && g.first == 1 && g.perGroup == 8192 && g.ratio == 1
    requires g.inodeTable == 8191
    ensures Table(g, 2) == {-2, -1}
  {
    assert Spot(g, TableBlock(g, 0)) == {-2} && Spot(g, TableBlock(g, 1)) == {-1};
    assert Table(g, 1) == {-2};
  }

  lemma LastBase(g: Group)
    requires g.number == 0 && g.ratio == 1 && g.layout == PlainLayout()
    ensures Base(g) == 2 && Start(g) == g.first
  {
    assert BaseBlocks(g.layout, 0) == 2;
  }

  /** A block of the table that is not recognised is marked but not counted, one block to a cluster. */
  lemma MissedBlock(g: Group, i: nat)
    requires Shape(g) && g.ratio == 1 && !g.flexBg && i < g.itbPerGroup && Start(g) <= TableBlock(g, i)
    requires !InGroup(g, TableBlock(g, i)) && ClusterOf(g, TableBlock(g, i)) >= Base(g)
    ensures ClusterOf(g, TableBlock(g, i)) in Missed(g)
  {
    var c := ClusterOf(g, TableBlock(g, i));
    SingleBlock(g, TableBlock(g, i));
    NotSpot(g, g.blockBitmap, c);
    NotSpot(g, g.inodeBitmap, c);
    NotInTable(g, g.itbPerGroup, c);
    InTableBits(g, g.itbPerGroup, i);
  }

  lemma {:induction false} InTableBits(g: Group, n: nat, i: nat)
    requires Shape(g) && !g.flexBg && i < n && Start(g) <= TableBlock(g, i)
    ensures ClusterOf(g, TableBlock(g, i)) in TableBits(g, n)
  {
    if i < n - 1 {
      InTableBits(g, n - 1, i);
    }
  }

  lemma SingleBlock(g: Group, b: nat)
    requires Shape(g) && g.ratio == 1 && Start(g) <= b
    ensures Start(g) + ClusterOf(g, b) == b
  {
  }

  lemma NotSpot(g: Group, b: nat, c: nat)
    requires Shape(g) && g.ratio == 1 && !InGroup(g, Start(g) + c)
    ensures c !in Spot(g, b)
  {
    if Start(g) <= b {
      SingleBlock(g, b);
    }
  }

  lemma {:induction false} NotInTable(g: Group, n: nat, c: nat)
    requires Shape(g) && g.ratio == 1 && !InGroup(g, Start(g) + c)
    ensures c !in Table(g, n)
  {
    if n > 0 {
      NotInTable(g, n - 1, c);
      NotSpot(g, TableBlock(g, n - 1), c);
    }
  }
}
