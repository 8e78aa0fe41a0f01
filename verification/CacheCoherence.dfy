/**
 ext4_map_blocks and its neighbours: the extent tree together with the status cache in front
 of it. Every operation keeps the cache truthful: a mapped entry gives the place the tree
 gives, any other entry covers only blocks the tree does not map.
 */
module CacheCoherence {
  import opened Extents
  import opened ExtentTrees
  import opened ExtentSearch
  import opened Inodes
  import opened ExtentGrow
  import opened ExtentMerge
  import opened ExtentNeighbours
  import opened ExtentGaps
  import opened ExtentInsert
  import opened ExtentConvert
  import opened ExtentWritten
  import opened RangeRemoval
  import opened RemoveSpace
  import S = StatusRuns
  import T = StatusTree

  // ----- truth of the cache --------------------------------------------------------------

  /** A cached place is the file's place, and what is cached as absent is absent. */
  ghost predicate True(m: LogicalMap, b: nat, s: S.Status) {
    if S.Mapped(s.flags) then b in m && m[b].pblk == s.pblk else b !in m
  }

  /** The state is right too: written blocks are initialised and not delayed, unwritten ones are not initialised. */
  ghost predicate Exact(m: LogicalMap, b: nat, s: S.Status) {
    && True(m, b, s)
    && (s.flags.written ==> b in m && !m[b].uninit && !s.flags.delayed)
    && (s.flags.unwritten && !s.flags.written ==> b in m && m[b].uninit)
  }

  ghost predicate Agree(m: LogicalMap, c: S.StatusMap) {
    forall b :: b in c ==> True(m, b, c[b])
  }

  ghost predicate Faithful(m: LogicalMap, c: S.StatusMap) {
    forall b :: b in c ==> Exact(m, b, c[b])
  }

  /** What every step of a run keeps. */
  ghost predicate Coherent(inode: Inode, tree: T.EsTree)
    reads inode, tree
  {
    inode.Valid() && tree.Valid() && Faithful(inode.Contents(), tree.Contents())
  }

  lemma FaithfulAgree(m: LogicalMap, c: S.StatusMap)
    requires Faithful(m, c)
    ensures Agree(m, c)
  {
    forall b | b in c ensures True(m, b, c[b]) {
      assert Exact(m, b, c[b]);
    }
  }

  /** Forgetting is safe. */
  lemma FaithfulSub(m: LogicalMap, c: S.StatusMap, c': S.StatusMap)
    requires c'.Keys <= c.Keys && forall b :: b in c' ==> c'[b] == c[b]
    ensures Faithful(m, c) ==> Faithful(m, c')
    ensures Agree(m, c) ==> Agree(m, c')
  {
    forall b | b in c' ensures b in c {
      assert b in c'.Keys;
    }
  }

  lemma FaithfulDropped(m: LogicalMap, c: S.StatusMap, lo: nat, hi: nat)
    ensures Faithful(m, c) ==> Faithful(m, S.Dropped(c, lo, hi))
    ensures Agree(m, c) ==> Agree(m, S.Dropped(c, lo, hi))
  {
    FaithfulSub(m, c, S.Dropped(c, lo, hi));
  }

  /** A true entry may be put in place of anything. */
  lemma FaithfulEntry(m: LogicalMap, c: S.StatusMap, e: S.Es)
    ensures Faithful(m, c) && Faithful(m, S.EsMap(e)) ==> Faithful(m, c + S.EsMap(e))
    ensures Agree(m, c) && Agree(m, S.EsMap(e)) ==> Agree(m, c + S.EsMap(e))
  {
    var c' := c + S.EsMap(e);
    forall b | b in c' ensures if b in S.EsMap(e) then c'[b] == S.EsMap(e)[b] else b in c && c'[b] == c[b] {
    }
  }

  /** Blocks the cache knows nothing about may leave the file. */
  lemma FaithfulWithout(m: LogicalMap, c: S.StatusMap, lo: nat, hi: nat)
    requires Faithful(m, c) && forall b :: lo <= b <= hi ==> b !in c
    ensures Faithful(Without(m, lo, hi), c)
  {
    forall b | b in c ensures Exact(Without(m, lo, hi), b, c[b]) {
      assert Exact(m, b, c[b]);
    }
  }

  /** Conversions move nothing, so they do not touch the cached places. */
  lemma AgreeSpots(m: LogicalMap, m': LogicalMap, c: S.StatusMap)
    requires Agree(m, c) && SameSpots(m, m')
    ensures Agree(m', c)
  {
    forall b | b in c ensures True(m', b, c[b]) {
      assert True(m, b, c[b]);
    }
  }

  /** The blocks are mapped, one after the other, to p, p + 1, ... */
  ghost predicate MapsTo(m: LogicalMap, lblk: nat, n: nat, p: nat) {
    forall b :: lblk <= b < lblk + n ==> b in m && m[b].pblk == p + (b - lblk)
  }

  /** The blocks are mapped, all initialised or all not. */
  ghost predicate StateIs(m: LogicalMap, lo: nat, hi: nat, uninit: bool) {
    forall b :: lo <= b < hi ==> b in m && m[b].uninit == uninit
  }

  lemma EntryTrue(m: LogicalMap, e: S.Es)
    requires if S.Mapped(e.flags) then MapsTo(m, e.lblk, e.len, e.pblk) else Unmapped(m, e.lblk, S.EsEnd(e))
    ensures Agree(m, S.EsMap(e))
    ensures (S.Mapped(e.flags) ==> Plain(e.flags) && StateIs(m, e.lblk, S.EsEnd(e), e.flags.unwritten)) ==>
      Faithful(m, S.EsMap(e))
  {
    forall b | b in S.EsMap(e) ensures True(m, b, S.EsMap(e)[b]) && S.Spans(e, b) {
      assert S.Spans(e, b);
    }
  }

  /** One mapped state, and no delayed block is written. */
  predicate Plain(f: S.Flags) {
    f.written != f.unwritten && (f.written ==> !f.delayed)
  }

  /** No block became delayed. */
  ghost predicate NoNewDelayed(c: S.StatusMap, c': S.StatusMap) {
    forall b :: b in c' && c'[b].flags.delayed ==> b in c && c[b].flags.delayed
  }

  const HOLE := S.Flags(false, false, false, true)
  const DELAYED := S.Flags(false, false, true, false)
  const WRITTEN := S.Flags(true, false, false, false)

  // ----- filling the cache -------------------------------------------------------------------

  /** Tell the cache about blocks the file maps. */
  method CacheMapped(inode: Inode, tree: T.EsTree, lblk: nat, n: nat, p: nat, flags: S.Flags, mem: T.Memory)
    returns (err: T.Result)
    requires tree.Valid() && lblk + n <= S.ES_END && S.Sane(flags) && Plain(flags)
    requires MapsTo(inode.Contents(), lblk, n, p)
    modifies tree
    ensures tree.Valid()
    ensures err == T.Done ==> tree.Contents() == old(tree.Contents()) + S.EsMap(S.Es(0, lblk, n, p, flags))
    ensures err == T.ENOMEM ==> Unchanged(old(tree.nodes), tree.nodes, lblk, n, mem)
    ensures T.NoRoomToSplit(old(tree.nodes), lblk, lblk + n, mem) ==> err == T.ENOMEM
    ensures old(Agree(inode.Contents(), tree.Contents())) ==> Agree(inode.Contents(), tree.Contents())
    ensures
      StateIs(inode.Contents(), lblk, lblk + n, flags.unwritten) && old(Faithful(inode.Contents(), tree.Contents())) ==>
      Faithful(inode.Contents(), tree.Contents())
  {
    ghost var m, c, e := inode.Contents(), tree.Contents(), S.Es(0, lblk, n, p, flags);
    err := tree.InsertExtent(lblk, n, p, flags, mem);
    EntryTrue(m, e);
    FaithfulEntry(m, c, e);
    FaithfulDropped(m, c, lblk, lblk + n);
  }

  /** The cache after an entry for n blocks could not be inserted. */
  ghost predicate Unchanged(s: seq<S.Es>, s': seq<S.Es>, lblk: nat, n: nat, mem: T.Memory) {
    if T.NoRoomToSplit(s, lblk, lblk + n, mem) then s' == s
    else S.Meaning(s') == S.Dropped(S.Meaning(s), lblk, lblk + n)
  }

  /** Tell the cache about blocks the file does not map. */
  method CacheUnmapped(inode: Inode, tree: T.EsTree, lblk: nat, n: nat, flags: S.Flags) returns (err: T.Result)
    requires Coherent(inode, tree) && lblk + n <= S.ES_END && S.Sane(flags) && !S.Mapped(flags)
    requires Unmapped(inode.Contents(), lblk, lblk + n)
    modifies tree
    ensures Coherent(inode, tree)
    ensures err == T.Done ==> tree.Contents() == old(tree.Contents()) + S.EsMap(S.Es(0, lblk, n, 0, flags))
    ensures !flags.delayed ==> NoNewDelayed(old(tree.Contents()), tree.Contents())
  {
    ghost var m, c, e := inode.Contents(), tree.Contents(), S.Es(0, lblk, n, 0, flags);
    var mem: T.Memory := *;
    err := tree.InsertExtent(lblk, n, 0, flags, mem);
    EntryTrue(m, e);
    FaithfulEntry(m, c, e);
    FaithfulDropped(m, c, lblk, lblk + n);
  }

  /** ext4_ext_put_gap_in_cache: remember the hole around b, unless some of it is delayed. */
  method PutGapInCache(inode: Inode, tree: T.EsTree, path: seq<Step>, b: nat)
    requires Coherent(inode, tree) && Searchable(inode.t) && SearchPath(inode.t, b, path)
    requires b < EXT_MAX_BLOCKS && b !in inode.Contents()
    modifies tree
    ensures Coherent(inode, tree) && NoNewDelayed(old(tree.Contents()), tree.Contents())
  {
    var depth := |path| - 1;
    if path[depth].pos.Null? {
      return;
    }
    ghost var s := Exts(inode.t);
    LeafNotEmpty(inode, path, b);
    EntryOfSearch(inode.t, inode.cap, b);
    var e, j := ReadFound(inode, path, b);
    NotCovered(s, b);
    FoundGap(s, b);
    var lo, hi := b, e.block;
    if e.block <= b {
      lo := End(e);
      hi := GapBehind(inode, path, b);
    }
    FillGap(inode, tree, lo, hi);
  }

  /** Cache lo..hi-1 as a hole unless a delayed block lies in it. */
  method FillGap(inode: Inode, tree: T.EsTree, lo: nat, hi: nat)
    requires Coherent(inode, tree) && lo < hi <= S.ES_END && Unmapped(inode.Contents(), lo, hi)
    modifies tree
    ensures Coherent(inode, tree) && NoNewDelayed(old(tree.Contents()), tree.Contents())
  {
    var delayed := tree.FindDelallocRange(lo, hi - 1);
    if !delayed {
      var err := CacheUnmapped(inode, tree, lo, hi - lo, HOLE);
    }
  }

  // ----- ext4_map_blocks: looking up -----------------------------------------------------------

  datatype MapErr = MapOk | NoSpace | NoMemory

  /** The result of a mapping request: n blocks from p on (none if n == 0), and their state. */
  datatype Found = Found(err: MapErr, n: nat, p: nat, unwritten: bool)

  ghost predicate Answers(m: LogicalMap, lblk: nat, len: nat, r: Found) {
    && r.n <= len
    && MapsTo(m, lblk, r.n, r.p)
    && (r.err == MapOk && r.n == 0 ==> lblk !in m)
  }

  lemma EntryMaps(s: seq<Extent>, b: nat, n: nat)
    requires Sorted(s) && s != [] && Pos(s, b) < |s| && Covers(s[Pos(s, b)], b) && b + n <= End(s[Pos(s, b)])
    ensures MapsTo(LMap(s), b, n, s[Pos(s, b)].pblk + (b - s[Pos(s, b)].block))
  {
    EntryAgrees(s, Pos(s, b));
    forall x | b <= x < b + n
      ensures x in LMap(s) && LMap(s)[x].pblk == s[Pos(s, b)].pblk + (b - s[Pos(s, b)].block) + (x - b)
    {
      assert Covers(s[Pos(s, b)], x);
    }
  }

  /** Does the extent the search ended at cover lblk? If not, lblk is not mapped. */
  method FindCovering(inode: Inode, lblk: nat) returns (covered: bool, path: seq<Step>, e: Extent)
    requires inode.Valid()
    ensures Searchable(inode.t) && SearchPath(inode.t, lblk, path)
    ensures BlocksOk(inode.t, FindPath(inode.t, lblk), path)
    ensures covered <==> lblk in inode.Contents()
    ensures covered ==> OnEntry(inode.t, lblk, path) && e == Entry(inode.t, lblk) && Covers(e, lblk) && ExtentOk(e)
  {
    WellFormedSearchable(inode.t);
    path := inode.FindExtent(lblk);
    covered, e := false, Extent(0, 0, 0);
    if path[|path| - 1].pos.Null? {
      EmptyFile(inode, path, lblk);
      return;
    }
    LeafNotEmpty(inode, path, lblk);
    var j;
    e, j := ReadFound(inode, path, lblk);
    covered := Covers(e, lblk);
    CoveredIff(Exts(inode.t), lblk);
  }

  /** The answer for a mapped block goes to the end of its extent or of the request. */
  ghost predicate UpToEnd(s: seq<Extent>, lblk: nat, len: nat, n: nat) {
    s != [] && Pos(s, lblk) < |s| && lblk + n == Min(End(s[Pos(s, lblk)]), lblk + len)
  }

  /** ext4_ext_map_blocks without the create flag. */
  method MapFromTree(inode: Inode, tree: T.EsTree, lblk: nat, len: nat, putHole: bool) returns (r: Found)
    requires Coherent(inode, tree) && len > 0 && lblk + len <= EXT_MAX_BLOCKS
    modifies tree
    ensures Coherent(inode, tree) && r.err == MapOk && Answers(inode.Contents(), lblk, len, r)
    ensures NoNewDelayed(old(tree.Contents()), tree.Contents())
    ensures r.n > 0 ==> inode.Contents()[lblk].uninit == r.unwritten
    ensures lblk in inode.Contents() ==> UpToEnd(Exts(inode.t), lblk, len, r.n)
    ensures r.n > 0 || !putHole ==> tree.nodes == old(tree.nodes)
    ensures StateIs(inode.Contents(), lblk, lblk + r.n, r.unwritten)
  {
    var covered, path, e := FindCovering(inode, lblk);
    if covered {
      var n := Min(End(e) - lblk, len);
      EntryMaps(Exts(inode.t), lblk, n);
      SameState(Exts(inode.t), lblk);
      return Found(MapOk, n, e.pblk + (lblk - e.block), IsUninit(e));
    }
    if putHole {
      PutGapInCache(inode, tree, path, lblk);
    }
    r := Found(MapOk, 0, 0, false);
  }

  lemma SameState(s: seq<Extent>, b: nat)
    requires Sorted(s) && s != [] && Pos(s, b) < |s| && Covers(s[Pos(s, b)], b)
    ensures forall x :: b <= x < End(s[Pos(s, b)]) ==> x in LMap(s) && LMap(s)[x].uninit == IsUninit(s[Pos(s, b)])
  {
    EntryAgrees(s, Pos(s, b));
    forall x | b <= x < End(s[Pos(s, b)]) ensures x in LMap(s) && LMap(s)[x].uninit == IsUninit(s[Pos(s, b)]) {
      assert Covers(s[Pos(s, b)], x);
    }
  }

  /** The cache after the answer was to be inserted. */
  ghost predicate Told(s: seq<S.Es>, s': seq<S.Es>, lblk: nat, r: Found, mem: T.Memory, err: T.Result) {
    && (err == T.Done ==>
        exists f :: Plain(f) && f.unwritten == r.unwritten
          && S.Meaning(s') == S.Meaning(s) + S.EsMap(S.Es(0, lblk, r.n, r.p, f)))
    && (err == T.ENOMEM ==> Unchanged(s, s', lblk, r.n, mem))
    && (T.NoRoomToSplit(s, lblk, lblk + r.n, mem) ==> err == T.ENOMEM)
  }

  /** The status ext4_map_blocks caches for blocks the tree gave it. */
  method CacheAnswer(inode: Inode, tree: T.EsTree, lblk: nat, r: Found, reserve: bool,
                     mem: T.Memory) returns (err: T.Result)
    requires tree.Valid() && r.n > 0 && lblk + r.n <= S.ES_END && MapsTo(inode.Contents(), lblk, r.n, r.p)
    requires r.unwritten || reserve || !T.HasDelayed(tree.Contents(), lblk, lblk + r.n - 1)
    modifies tree
    ensures tree.Valid()
    ensures Told(old(tree.nodes), tree.nodes, lblk, r, mem, err)
    ensures
      StateIs(inode.Contents(), lblk, lblk + r.n, r.unwritten) && old(Faithful(inode.Contents(), tree.Contents())) ==>
      Faithful(inode.Contents(), tree.Contents())
    ensures QuietRange(old(tree.Contents()), tree.Contents(), lblk, r.n)
  {
    var delayed := false;
    if !reserve {
      delayed := tree.FindDelallocRange(lblk, lblk + r.n - 1);
    }
    var f := S.Flags(!r.unwritten, r.unwritten, delayed, false);
    ghost var c := tree.Contents();
    err := CacheMapped(inode, tree, lblk, r.n, r.p, f, mem);
    assert delayed ==> T.HasDelayed(c, lblk, lblk + r.n - 1);
  }

  /** A block becomes delayed only within the range, and only if the range had a delayed block. */
  ghost predicate QuietRange(c: S.StatusMap, c': S.StatusMap, lblk: nat, n: nat) {
    forall b :: b in c' && c'[b].flags.delayed ==>
      (b in c && c[b].flags.delayed) || (n > 0 && lblk <= b < lblk + n && T.HasDelayed(c, lblk, lblk + n - 1))
  }

  /** Initialised blocks are not delayed. */
  lemma NoDelayedInit(m: LogicalMap, c: S.StatusMap, lblk: nat, n: nat)
    requires n > 0 && Faithful(m, c) && StateIs(m, lblk, lblk + n, false)
    ensures !T.HasDelayed(c, lblk, lblk + n - 1)
  {
    forall b | lblk <= b <= lblk + n - 1 && b in c ensures !c[b].flags.delayed {
      assert Exact(m, b, c[b]);
    }
  }

  /** What the cache alone says about a request. */
  function FromCache(e: S.Es, lblk: nat, len: nat): Found
    requires S.Spans(e, lblk)
  {
    if S.Mapped(e.flags) then
      Found(MapOk, Min(S.EsEnd(e) - lblk, len), e.pblk + (lblk - e.lblk), !e.flags.written)
    else Found(MapOk, 0, 0, false)
  }

  /** The answer for a cached block goes to the end of a mapped entry or of the request. */
  ghost predicate UpToEntryEnd(s: seq<S.Es>, lblk: nat, len: nat, n: nat) {
    exists e :: e in s && S.Spans(e, lblk) && n == if S.Mapped(e.flags) then Min(S.EsEnd(e) - lblk, len) else 0
  }

  lemma CacheTruth(m: LogicalMap, c: S.StatusMap, e: S.Es, lblk: nat, len: nat)
    requires Faithful(m, c) && S.Spans(e, lblk) && len > 0
    requires forall b :: S.Spans(e, b) ==> b in c && c[b] == S.StatusOf(e, b)
    ensures Answers(m, lblk, len, FromCache(e, lblk, len))
    ensures var r := FromCache(e, lblk, len); StateIs(m, lblk, lblk + r.n, r.unwritten)
  {
    var r := FromCache(e, lblk, len);
    assert Exact(m, lblk, c[lblk]);
    forall b | lblk <= b < lblk + r.n ensures b in m && m[b].pblk == r.p + (b - lblk) && m[b].uninit == r.unwritten {
      assert S.Spans(e, b) && Exact(m, b, c[b]);
    }
  }

  /**
   ext4_map_blocks without the create flag: whether it comes from the cache or from the
   tree, the answer is what the tree says, places and state, and asking keeps the cache
   faithful, with or without memory.
   */
  method MapBlocksLookup(inode: Inode, tree: T.EsTree, lblk: nat, len: nat, reserve: bool) returns (r: Found)
    requires Coherent(inode, tree) && len > 0 && lblk + len <= EXT_MAX_BLOCKS
    modifies tree
    ensures Coherent(inode, tree) && Answers(inode.Contents(), lblk, len, r)
    ensures StateIs(inode.Contents(), lblk, lblk + r.n, r.unwritten)
    ensures r.err == MapOk || r.n > 0
    ensures !T.HasDelayed(old(tree.Contents()), lblk, lblk + len - 1) ==>
      !T.HasDelayed(tree.Contents(), lblk, lblk + len - 1)
    ensures old(lblk in tree.Contents()) ==>
      tree.nodes == old(tree.nodes) && UpToEntryEnd(tree.nodes, lblk, len, r.n)
    ensures old(lblk !in tree.Contents()) && lblk in inode.Contents() ==> UpToEnd(Exts(inode.t), lblk, len, r.n)
  {
    var hit, e := tree.Lookup(lblk);
    if hit {
      CacheTruth(inode.Contents(), tree.Contents(), e, lblk, len);
      return FromCache(e, lblk, len);
    }
    r := LookupTree(inode, tree, lblk, len, reserve);
  }

  method LookupTree(inode: Inode, tree: T.EsTree, lblk: nat, len: nat, reserve: bool) returns (r: Found)
    requires Coherent(inode, tree) && len > 0 && lblk + len <= EXT_MAX_BLOCKS
    modifies tree
    ensures Coherent(inode, tree) && Answers(inode.Contents(), lblk, len, r)
    ensures StateIs(inode.Contents(), lblk, lblk + r.n, r.unwritten)
    ensures r.err == MapOk || r.n > 0
    ensures !T.HasDelayed(old(tree.Contents()), lblk, lblk + len - 1) ==>
      !T.HasDelayed(tree.Contents(), lblk, lblk + len - 1)
    ensures lblk in inode.Contents() ==> UpToEnd(Exts(inode.t), lblk, len, r.n)
  {
    ghost var c := tree.Contents();
    r := MapFromTree(inode, tree, lblk, len, true);
    if r.n > 0 {
      if !r.unwritten {
        NoDelayedInit(inode.Contents(), tree.Contents(), lblk, r.n);
      }
      var mem: T.Memory := *;
      var err := CacheAnswer(inode, tree, lblk, r, reserve, mem);
      StillQuiet(c, tree.Contents(), lblk, r.n, len);
      if err != T.Done {
        r := r.(err := NoMemory);
      }
    } else {
      NewNotDelayed(c, tree.Contents(), lblk, len);
    }
  }

  lemma StillQuiet(c: S.StatusMap, c': S.StatusMap, lblk: nat, n: nat, len: nat)
    requires QuietRange(c, c', lblk, n) && 0 < n <= len
    ensures !T.HasDelayed(c, lblk, lblk + len - 1) ==> !T.HasDelayed(c', lblk, lblk + len - 1)
  {
  }

  lemma NewNotDelayed(c: S.StatusMap, c': S.StatusMap, lblk: nat, len: nat)
    requires NoNewDelayed(c, c') && len > 0
    ensures !T.HasDelayed(c, lblk, lblk + len - 1) ==> !T.HasDelayed(c', lblk, lblk + len - 1)
  {
  }

  // ----- ext4_map_blocks: allocating -------------------------------------------------------------

  /** The file gained exactly the blocks lblk .. lblk + n - 1. */
  ghost predicate Gains(m: LogicalMap, m': LogicalMap, lblk: nat, n: nat) {
    && Unmapped(m, lblk, lblk + n)
    && (forall b :: b in m' <==> b in m || lblk <= b < lblk + n)
    && (forall b :: b in m ==> m'[b] == m[b])
  }

  /** What the block allocator settles on: up to n blocks from p on. */
  datatype Grant = Grant(p: nat, n: nat)

  /** There is something in it. */
  predicate Usable(grant: Grant, free: set<nat>) {
    grant.n > 0 && grant.p in free
  }

  /** ext4_mb_new_blocks: the free blocks of the grant from its first on, at most `want`, or none. */
  method NewBlocks(inode: Inode, want: nat, grant: Grant) returns (n: nat)
    requires want > 0
    modifies inode`free
    ensures n == 0 ==> inode.free == old(inode.free)
    ensures n > 0 <==> Usable(grant, old(inode.free))
    ensures n <= want && multiset(inode.free) + Run(grant.p, n) == multiset(old(inode.free))
  {
    var p := grant.p;
    n := 0;
    while n < want && n < grant.n && p + n in inode.free
      invariant n <= want && n <= grant.n && forall x: nat :: p <= x < p + n ==> x in inode.free
    {
      n := n + 1;
    }
    TakeRun(inode.free, p, n);
    inode.free := inode.free - set x: nat | p <= x < p + n && InRun(p, n, x);
  }

  lemma TakeRun(free: set<nat>, p: nat, n: nat)
    requires forall x: nat :: p <= x < p + n ==> x in free
    ensures multiset(free - set x: nat | p <= x < p + n && InRun(p, n, x)) + Run(p, n) == multiset(free)
  {
    forall x: nat ensures Run(p, n)[x] == if p <= x < p + n then 1 else 0 {
      RunCount(p, n, x);
    }
    var rest := free - set x: nat | p <= x < p + n && InRun(p, n, x);
    var a: multiset<nat>, b: multiset<nat> := multiset(rest), multiset(free);
    assert a + Run(p, n) == b;
  }

  /** Where the hole at lblk ends: at the found extent, or at the next allocated block. */
  method GapLimit(inode: Inode, path: seq<Step>, lblk: nat) returns (limit: nat)
    requires inode.Valid() && OnEntry(inode.t, lblk, path) && lblk !in inode.Contents() && lblk < EXT_MAX_BLOCKS
    ensures lblk < limit && Unmapped(inode.Contents(), lblk, limit)
  {
    HoleUpTo(Exts(inode.t), lblk);
    var e, j := ReadFound(inode, path, lblk);
    limit := e.block;
    if e.block < lblk {
      limit := GapBehind(inode, path, lblk);
    }
  }

  /** The length limits and ext4_ext_check_overlap: how much may be allocated at lblk. */
  method RoomAt(inode: Inode, path: seq<Step>, lblk: nat, len: nat, uninit: bool) returns (want: nat)
    requires inode.Valid() && Searchable(inode.t) && SearchPath(inode.t, lblk, path)
    requires lblk !in inode.Contents() && len > 0 && lblk + len <= EXT_MAX_BLOCKS
    ensures 0 < want <= len && want <= EXT_INIT_MAX_LEN && (uninit ==> want <= EXT_UNINIT_MAX_LEN)
    ensures Unmapped(inode.Contents(), lblk, lblk + want)
  {
    want := Min(len, if uninit then EXT_UNINIT_MAX_LEN else EXT_INIT_MAX_LEN);
    if path[|path| - 1].pos.Null? {
      EmptyFile(inode, path, lblk);
      return;
    }
    LeafNotEmpty(inode, path, lblk);
    var limit := GapLimit(inode, path, lblk);
    if lblk + want > limit {
      want := limit - lblk;
    }
  }

  lemma NewExtentFits(s: seq<Extent>, e: Extent)
    requires Sorted(s) && ExtentOk(e) && Unmapped(LMap(s), e.block, End(e))
    ensures Insertable(s, e)
  {
    forall b | b in MapOf(e).Keys ensures b !in LMap(s).Keys {
      assert Covers(e, b);
    }
    InsertableIff(s, e);
  }

  lemma GainsOf(m: LogicalMap, e: Extent)
    requires Unmapped(m, e.block, End(e))
    ensures Gains(m, m + MapOf(e), e.block, Len(e)) && MapsTo(m + MapOf(e), e.block, Len(e), e.pblk)
    ensures StateIs(m + MapOf(e), e.block, End(e), IsUninit(e))
  {
    forall b: nat ensures b in MapOf(e) <==> e.block <= b < End(e) {
      assert b in MapOf(e) <==> Covers(e, b);
    }
  }

  lemma BackToFree(b: multiset<nat>, d: multiset<nat>, free: multiset<nat>, run: multiset<nat>, free0: multiset<nat>)
    requires free + run == free0
    ensures b + d + free + run == b + d + free0
  {
  }

  /** The hole at lblk was filled with the blocks of r, or there was no space and nothing changed. */
  ghost predicate Allocated(m: LogicalMap, m': LogicalMap, lblk: nat, uninit: bool, r: Found) {
    if r.err == MapOk then
      && r.n > 0 && r.unwritten == uninit && MapsTo(m', lblk, r.n, r.p) && Gains(m, m', lblk, r.n)
      && StateIs(m', lblk, lblk + r.n, uninit)
    else r.err == NoSpace && r.n == 0 && m' == m
  }

  /** There is a place for an extent at b once n of the free blocks hold data. */
  ghost predicate PlaceLeft(t: Tree, b: nat, n: nat, blocks: nat, free: set<nat>)
    requires Shape(t)
  {
    Searchable(t) && (HasSlot(t, b) || NextHasSlot(t, b) || (LeafCost(t, b) <= blocks && LeafCost(t, b) + n <= |free|))
  }

  lemma StillPlace(t: Tree, b: nat, want: nat, blocks: nat, free: set<nat>, free': set<nat>, n: nat)
    requires Shape(t) && Searchable(t) && |free'| + n == |free| && n <= want
    ensures PlaceLeft(t, b, want, blocks, free) ==> Placeable(t, b, Within(blocks, free'))
  {
  }

  /** Allocate blocks for the hole at lblk and insert them; give them back if that fails. */
  method AllocateHole(inode: Inode, path: seq<Step>, lblk: nat, len: nat, uninit: bool, supply: Supply, grant: Grant)
    returns (r: Found)
    requires inode.Valid() && Searchable(inode.t) && SearchPath(inode.t, lblk, path)
    requires lblk !in inode.Contents() && len > 0 && lblk + len <= EXT_MAX_BLOCKS
    modifies inode`root, inode`disk, inode`free, inode`t
    ensures inode.Valid() && inode.Universe() == old(inode.Universe())
    ensures Allocated(old(inode.Contents()), inode.Contents(), lblk, uninit, r) && r.n <= len
    ensures r.err == MapOk ==> old(Usable(grant, inode.free))
    ensures old(Usable(grant, inode.free) && PlaceLeft(inode.t, lblk, len, supply.blocks, inode.free)) ==>
      r.err == MapOk
  {
    var want := RoomAt(inode, path, lblk, len, uninit);
    r := FillHole(inode, path, lblk, want, uninit, supply, grant);
  }

  method FillHole(inode: Inode, path: seq<Step>, lblk: nat, want: nat, uninit: bool, supply: Supply, grant: Grant)
    returns (r: Found)
    requires inode.Valid() && Searchable(inode.t) && SearchPath(inode.t, lblk, path)
    requires 0 < want <= EXT_INIT_MAX_LEN && (uninit ==> want <= EXT_UNINIT_MAX_LEN)
    requires lblk + want <= EXT_MAX_BLOCKS && Unmapped(inode.Contents(), lblk, lblk + want)
    modifies inode`root, inode`disk, inode`free, inode`t
    ensures inode.Valid() && inode.Universe() == old(inode.Universe())
    ensures Allocated(old(inode.Contents()), inode.Contents(), lblk, uninit, r) && r.n <= want
    ensures r.err == MapOk ==> old(Usable(grant, inode.free))
    ensures old(Usable(grant, inode.free) && PlaceLeft(inode.t, lblk, want, supply.blocks, inode.free)) ==>
      r.err == MapOk
  {
    ghost var t, free := inode.t, inode.free;
    var e := NewExtent(inode, lblk, want, uninit, grant);
    if Len(e) == 0 {
      r := Found(NoSpace, 0, 0, false);
    } else {
      StillPlace(t, lblk, want, supply.blocks, free, inode.free, Len(e));
      r := InsertNew(inode, path, e, supply);
    }
  }

  lemma {:induction false} RunSize(p: nat, n: nat)
    ensures |Run(p, n)| == n
  {
    if n > 0 {
      RunSize(p, n - 1);
    }
  }

  /** Allocate a run and make the extent for it; an empty extent stands for failure. */
  method NewExtent(inode: Inode, lblk: nat, want: nat, uninit: bool, grant: Grant) returns (e: Extent)
    requires inode.Valid() && 0 < want <= EXT_INIT_MAX_LEN && (uninit ==> want <= EXT_UNINIT_MAX_LEN)
    requires lblk + want <= EXT_MAX_BLOCKS && Unmapped(inode.Contents(), lblk, lblk + want)
    modifies inode`free
    ensures inode.Universe() + DataOf(e) == old(inode.Universe())
    ensures Len(e) == 0 ==> inode.free == old(inode.free)
    ensures Len(e) > 0 <==> Usable(grant, old(inode.free))
    ensures |inode.free| + Len(e) == |old(inode.free)|
    ensures Len(e) > 0 ==>
      && inode.Stored() && WellFormed(inode.t, inode.cap) && Clean(inode.Universe() + DataOf(e))
      && ExtentOk(e) && IsUninit(e) == uninit && e.block == lblk && Len(e) <= want
      && Unmapped(inode.Contents(), e.block, End(e))
  {
    ghost var free0 := inode.free;
    var n := NewBlocks(inode, want, grant);
    e := if n == 0 then Extent(lblk, 0, grant.p) else Part(lblk, n, grant.p, uninit);
    BackToFree(Blocks(inode.t), Data(Exts(inode.t)), multiset(inode.free), Run(grant.p, n), multiset(free0));
    RunSize(grant.p, n);
    assert |multiset(inode.free) + Run(grant.p, n)| == |multiset(free0)|;
  }

  /** Insert freshly allocated blocks; on failure they go back to the free pool. */
  method InsertNew(inode: Inode, path: seq<Step>, e: Extent, supply: Supply) returns (r: Found)
    requires inode.Stored() && WellFormed(inode.t, inode.cap) && inode.cap > ROOT_CAP
    requires Clean(inode.Universe() + DataOf(e)) && Searchable(inode.t) && SearchPath(inode.t, e.block, path)
    requires ExtentOk(e) && Unmapped(inode.Contents(), e.block, End(e))
    modifies inode`root, inode`disk, inode`free, inode`t
    ensures inode.Valid() && inode.Universe() == old(inode.Universe()) + DataOf(e)
    ensures Allocated(old(inode.Contents()), inode.Contents(), e.block, IsUninit(e), r) && r.n <= Len(e)
    ensures r.err == MapOk <==>
      old(Joins(inode.t, e)) || old(Placeable(inode.t, e.block, Within(supply.blocks, inode.free)))
  {
    CleanUpdate(inode.Universe(), DataOf(e));
    NewExtentFits(Exts(inode.t), e);
    GainsOf(inode.Contents(), e);
    var inserted := TryInsert(inode, path, e, supply);
    if inserted {
      r := Found(MapOk, Len(e), e.pblk, IsUninit(e));
    } else {
      r := Found(NoSpace, 0, 0, false);
      GiveRunBack(inode, e);
    }
  }

  method TryInsert(inode: Inode, path: seq<Step>, e: Extent, supply: Supply) returns (inserted: bool)
    requires inode.Valid() && Searchable(inode.t) && SearchPath(inode.t, e.block, path)
    requires Insertable(Exts(inode.t), e) && Clean(inode.Universe() + DataOf(e))
    modifies inode`root, inode`disk, inode`free, inode`t
    ensures inode.Valid()
    ensures inserted ==>
      inode.Contents() == old(inode.Contents()) + MapOf(e) && inode.Universe() == old(inode.Universe()) + DataOf(e)
    ensures !inserted ==> inode.Contents() == old(inode.Contents()) && inode.Universe() == old(inode.Universe())
    ensures inserted <==>
      old(Joins(inode.t, e)) || old(Placeable(inode.t, e.block, Within(supply.blocks, inode.free)))
  {
    var err, path';
    ghost var q';
    err, path', q' := InsertExtent(inode, path, e, false, supply);
    inserted := err == Ok;
  }

  /** ext4_free_blocks on the blocks of an extent that could not be inserted. */
  method GiveRunBack(inode: Inode, e: Extent)
    requires inode.Valid() && Clean(inode.Universe() + DataOf(e))
    modifies inode`free
    ensures inode.Valid() && inode.Universe() == old(inode.Universe()) + DataOf(e)
  {
    ReturnRun(Blocks(inode.t) + Data(Exts(inode.t)), inode.free, e.pblk, Len(e));
    inode.FreeBlocks(e.pblk, Len(e));
  }

  lemma ReturnRun(b: multiset<nat>, free: set<nat>, p: nat, n: nat)
    requires NoDup(b + multiset(free) + Run(p, n))
    ensures forall x :: x in Run(p, n) ==> x !in free
    ensures b + (multiset(free) + Run(p, n)) == b + multiset(free) + Run(p, n)
  {
    forall x | x in Run(p, n) ensures x !in free {
      assert (b + multiset(free) + Run(p, n))[x] <= 1;
    }
  }

  // ----- ext4_map_blocks: writing into preallocated space -----------------------------------------

  /** Exact but for lo .. hi - 1 and, as to the state, the blocks of zs. */
  ghost predicate FaithfulBut(m: LogicalMap, c: S.StatusMap, lo: nat, hi: nat, zs: seq<Extent>) {
    forall b :: b in c ==> Exact(m, b, c[b]) || lo <= b < hi || (InSome(zs, b) && True(m, b, c[b]))
  }

  lemma AllButNone(m: LogicalMap, c: S.StatusMap, lo: nat)
    requires FaithfulBut(m, c, lo, lo, [])
    ensures Faithful(m, c)
  {
  }

  /** What a conversion leaves to be told to the cache: the request, and the extents zeroed. */
  lemma ConvertedBut(m: LogicalMap, m': LogicalMap, c: S.StatusMap, lo: nat, hi: nat, zs: seq<Extent>)
    requires Faithful(m, c) && SameSpots(m, m') && (forall b :: b in m && !m[b].uninit ==> !m'[b].uninit)
    requires Logged(m, m', lo, hi, zs)
    ensures FaithfulBut(m', c, lo, hi, zs) && Agree(m', c)
  {
    FaithfulAgree(m, c);
    AgreeSpots(m, m', c);
    forall b | b in c ensures Exact(m', b, c[b]) || lo <= b < hi || InSome(zs, b) {
      assert Exact(m, b, c[b]);
    }
  }

  lemma HoldsMaps(m: LogicalMap, z: Extent)
    requires Holds(m, z)
    ensures MapsTo(m, z.block, Len(z), z.pblk) && StateIs(m, z.block, End(z), false)
  {
    forall b | z.block <= b < End(z) ensures b in m && m[b] == Mapping(z.pblk + (b - z.block), false) {
      assert Covers(z, b);
    }
  }

  /** One entry of the log told to the cache. */
  lemma LoggedOne(m: LogicalMap, c: S.StatusMap, lo: nat, hi: nat, zs: seq<Extent>)
    requires zs != [] && FaithfulBut(m, c, lo, hi, zs) && Holds(m, zs[0])
    ensures FaithfulBut(m, c + S.EsMap(S.Es(0, zs[0].block, Len(zs[0]), zs[0].pblk, WRITTEN)), lo, hi, zs[1..])
  {
    var z := zs[0];
    var e := S.Es(0, z.block, Len(z), z.pblk, WRITTEN);
    var c' := c + S.EsMap(e);
    HoldsMaps(m, z);
    EntryTrue(m, e);
    forall b | b in c'
      ensures Exact(m, b, c'[b]) || lo <= b < hi || (InSome(zs[1..], b) && True(m, b, c'[b]))
    {
      if b in S.EsMap(e) {
        assert Exact(m, b, S.EsMap(e)[b]);
      } else {
        assert b in c && !S.Spans(e, b);
        if InSome(zs, b) {
          var i :| 0 <= i < |zs| && Covers(zs[i], b);
          assert zs[1..][i - 1] == zs[i];
        }
      }
    }
  }

  /** ext4_es_zeroout: remember an extent the file holds as written. */
  method CacheZeroed(inode: Inode, tree: T.EsTree, z: Extent) returns (err: T.Result)
    requires tree.Valid() && End(z) <= EXT_MAX_BLOCKS && Holds(inode.Contents(), z)
    modifies tree
    ensures tree.Valid()
    ensures err == T.Done ==>
      tree.Contents() == old(tree.Contents()) + S.EsMap(S.Es(0, z.block, Len(z), z.pblk, WRITTEN))
    ensures old(Agree(inode.Contents(), tree.Contents())) ==> Agree(inode.Contents(), tree.Contents())
  {
    HoldsMaps(inode.Contents(), z);
    var mem: T.Memory := *;
    err := CacheMapped(inode, tree, z.block, Len(z), z.pblk, WRITTEN, mem);
  }

  /** All calls of ext4_es_zeroout a conversion makes, up to the first that finds no memory. */
  method CacheAllZeroed(inode: Inode, tree: T.EsTree, zs: seq<Extent>, ghost lo: nat,
                        ghost hi: nat) returns (err: T.Result)
    requires tree.Valid() && Agree(inode.Contents(), tree.Contents())
    requires FaithfulBut(inode.Contents(), tree.Contents(), lo, hi, zs)
    requires forall i :: 0 <= i < |zs| ==> Holds(inode.Contents(), zs[i]) && End(zs[i]) <= EXT_MAX_BLOCKS
    modifies tree
    ensures tree.Valid() && Agree(inode.Contents(), tree.Contents())
    ensures zs == [] ==> err == T.Done
    ensures err == T.Done ==>
      && FaithfulBut(inode.Contents(), tree.Contents(), lo, hi, [])
      && NoNewDelayed(old(tree.Contents()), tree.Contents())
  {
    ghost var m := inode.Contents();
    err := T.Done;
    var i := 0;
    while i < |zs| && err == T.Done
      invariant i <= |zs| && tree.Valid() && Agree(m, tree.Contents()) && (i == 0 ==> err == T.Done)
      invariant err == T.Done ==>
        FaithfulBut(m, tree.Contents(), lo, hi, zs[i..]) && NoNewDelayed(old(tree.Contents()), tree.Contents())
    {
      assert zs[i..][0] == zs[i] && zs[i..][1..] == zs[i + 1..];
      LoggedOne(m, tree.Contents(), lo, hi, zs[i..]);
      err := CacheZeroed(inode, tree, zs[i]);
      i := i + 1;
    }
  }

  lemma SpotsMap(m: LogicalMap, m': LogicalMap, e: Extent, b: nat, n: nat)
    requires Agrees(m, e) && SameSpots(m, m') && Covers(e, b) && b + n <= End(e)
    ensures MapsTo(m', b, n, e.pblk + (b - e.block))
  {
    forall x | b <= x < b + n ensures x in m' && m'[x].pblk == e.pblk + (b - e.block) + (x - b) {
      assert Covers(e, x);
    }
  }

  /** File and cache after a request at lblk was worked on: what was mapped stays where it was. */
  ghost predicate Worked(m: LogicalMap, m': LogicalMap, c': S.StatusMap, lblk: nat, len: nat, r: Found) {
    && r.n <= len && MapsTo(m', lblk, r.n, r.p) && StateIs(m', lblk, lblk + r.n, r.unwritten)
    && (r.err == MapOk <==> r.n > 0)
    && (r.err != NoMemory ==> FaithfulBut(m', c', lblk, lblk + r.n, []))
    && (if lblk in m then SameSpots(m, m') && Agree(m', c')
        else if r.n > 0 then Gains(m, m', lblk, r.n)
        else m' == m && r.err == NoSpace)
  }

  /** Whether a buffered write into preallocated space finds the blocks it needs. */
  ghost function WriteVerdict(t: Tree, lblk: nat, len: nat, eof: nat, zeroLimit: nat, p1: nat, p2: nat): Verdict
    requires Shape(t)
  {
    if Searchable(t) && Exts(t) != [] && Pos(Exts(t), lblk) < |Exts(t)| then
      ConvertVerdict(t, Entry(t, lblk), lblk, len, eof, zeroLimit, false, p1, p2)
    else Open
  }

  /** A buffered write into preallocated space. */
  method ConvertFound(inode: Inode, tree: T.EsTree, path: seq<Step>, e: Extent, lblk: nat, len: nat, eof: nat,
                      zeroLimit: nat, first: Supply, second: Supply)
    returns (r: Found)
    requires Coherent(inode, tree) && OnEntry(inode.t, lblk, path) && e == Entry(inode.t, lblk) && len > 0
    requires IsUninit(e) && ExtentOk(e) && Covers(e, lblk)
    modifies inode`root, inode`disk, inode`free, inode`t, inode`zeroed, tree
    ensures inode.Valid() && tree.Valid() && inode.Universe() == old(inode.Universe())
    ensures lblk in old(inode.Contents())
    ensures Worked(old(inode.Contents()), inode.Contents(), tree.Contents(), lblk, len, r)
    ensures !r.unwritten && (r.err == MapOk ==> NoNewDelayed(old(tree.Contents()), tree.Contents()))
    ensures Obeys(WriteVerdict(old(inode.t), lblk, len, eof, zeroLimit, Within(first.blocks, old(inode.free)),
                               Within(second.blocks, old(inode.free))), r.err != NoSpace)
    ensures old(Transferable(inode.t, lblk, len)) || !MayZero(e, eof, lblk + len) ==> r.err != NoMemory
  {
    ghost var m, c := inode.Contents(), tree.Contents();
    EntryAgrees(Exts(inode.t), Pos(Exts(inode.t), lblk));
    var err, done, zs := ConvertToInitialized(inode, path, lblk, len, eof, zeroLimit, false, first, second);
    var n := if err == Ok then Min(done, len) else 0;
    ConvertedBut(m, inode.Contents(), c, lblk, lblk + n, zs);
    SpotsMap(m, inode.Contents(), e, lblk, n);
    var told := CacheAllZeroed(inode, tree, zs, lblk, lblk + n);
    if told != T.Done {
      r := Found(NoMemory, 0, 0, false);
    } else if err != Ok {
      r := Found(NoSpace, 0, 0, false);
    } else {
      r := Found(MapOk, n, e.pblk + (lblk - e.block), false);
    }
  }

  lemma FaithfulHole(m: LogicalMap, m': LogicalMap, c: S.StatusMap, lblk: nat, n: nat)
    requires Faithful(m, c) && Gains(m, m', lblk, n)
    ensures FaithfulBut(m', c, lblk, lblk + n, [])
  {
    forall b | b in c ensures Exact(m', b, c[b]) || lblk <= b < lblk + n {
      assert Exact(m, b, c[b]);
    }
  }

  /** The allocator finds a block, and there is a place for the new extent. */
  ghost predicate CanFill(inode: Inode, lblk: nat, len: nat, grant: Grant, blocks: nat)
    reads inode
  {
    Shape(inode.t) && Usable(grant, inode.free) && PlaceLeft(inode.t, lblk, len, blocks, inode.free)
  }

  /** What a request with the create flag finds: a hole, blocks to be handed out, or preallocated ones to write. */
  datatype Kind = ToFill | ToRead | ToWrite

  ghost function KindOf(m: LogicalMap, lblk: nat, uninitExt: bool): Kind {
    if lblk !in m then ToFill else if m[lblk].uninit && !uninitExt then ToWrite else ToRead
  }

  /** ext4_ext_map_blocks with the create flag. */
  method MapInTree(inode: Inode, tree: T.EsTree, lblk: nat, len: nat, uninitExt: bool, eof: nat, zeroLimit: nat,
                   first: Supply, second: Supply, grant: Grant)
    returns (r: Found)
    requires Coherent(inode, tree) && len > 0 && lblk + len <= EXT_MAX_BLOCKS
    modifies inode`root, inode`disk, inode`free, inode`t, inode`zeroed, tree
    ensures inode.Valid() && tree.Valid() && inode.Universe() == old(inode.Universe())
    ensures Worked(old(inode.Contents()), inode.Contents(), tree.Contents(), lblk, len, r)
    ensures lblk !in old(inode.Contents()) || uninitExt ==> tree.nodes == old(tree.nodes)
    ensures r.err == MapOk ==> NoNewDelayed(old(tree.Contents()), tree.Contents()) && (r.unwritten ==> uninitExt)
    ensures uninitExt && r.err == MapOk && !r.unwritten ==> inode.Contents() == old(inode.Contents())
    ensures lblk !in old(inode.Contents()) && old(CanFill(inode, lblk, len, grant, first.blocks)) ==> r.err == MapOk
    ensures KindOf(old(inode.Contents()), lblk, uninitExt) == ToRead ==>
      r.err == MapOk && UpToEnd(old(Exts(inode.t)), lblk, len, r.n)
    ensures KindOf(old(inode.Contents()), lblk, uninitExt) == ToWrite ==>
      Obeys(WriteVerdict(old(inode.t), lblk, len, eof, zeroLimit, Within(first.blocks, old(inode.free)),
                         Within(second.blocks, old(inode.free))), r.err != NoSpace)
  {
    var covered, path, e := FindCovering(inode, lblk);
    if !covered {
      ghost var m := inode.Contents();
      r := AllocateHole(inode, path, lblk, len, uninitExt, first, grant);
      if r.n > 0 {
        FaithfulHole(m, inode.Contents(), tree.Contents(), lblk, r.n);
      }
      return;
    }
    SameState(Exts(inode.t), lblk);
    var n := Min(End(e) - lblk, len);
    EntryMaps(Exts(inode.t), lblk, n);
    if !IsUninit(e) || uninitExt {
      FaithfulAgree(inode.Contents(), tree.Contents());
      return Found(MapOk, n, e.pblk + (lblk - e.block), IsUninit(e));
    }
    r := ConvertFound(inode, tree, path, e, lblk, len, eof, zeroLimit, first, second);
  }

  // ----- ext4_map_blocks: both halves ---------------------------------------------------------------

  /** The answer put in the cache completes it. */
  lemma AnswerCompletes(m: LogicalMap, c: S.StatusMap, e: S.Es)
    requires FaithfulBut(m, c, e.lblk, S.EsEnd(e), []) && Plain(e.flags)
    requires MapsTo(m, e.lblk, e.len, e.pblk) && StateIs(m, e.lblk, S.EsEnd(e), e.flags.unwritten)
    ensures Faithful(m, c + S.EsMap(e))
  {
    EntryTrue(m, e);
    var c' := c + S.EsMap(e);
    forall b | b in c' ensures Exact(m, b, c'[b]) {
      if b in S.EsMap(e) {
        assert Exact(m, b, S.EsMap(e)[b]);
      } else {
        assert b in c && !S.Spans(e, b);
      }
    }
  }

  /** Without the entries over new blocks the cache agrees. */
  lemma DroppedBut(m: LogicalMap, c: S.StatusMap, lo: nat, hi: nat)
    requires FaithfulBut(m, c, lo, hi, [])
    ensures Faithful(m, S.Dropped(c, lo, hi)) && Agree(m, S.Dropped(c, lo, hi))
  {
    forall b | b in S.Dropped(c, lo, hi) ensures Exact(m, b, S.Dropped(c, lo, hi)[b]) {
      assert Exact(m, b, c[b]);
    }
    FaithfulAgree(m, S.Dropped(c, lo, hi));
  }

  /** An entry that encloses new blocks is wrong about them. */
  lemma EnclosedWrong(m: LogicalMap, m': LogicalMap, s: seq<S.Es>, lblk: nat, n: nat)
    requires S.Ordered(s) && Faithful(m, S.Meaning(s)) && Gains(m, m', lblk, n) && n > 0
    requires T.Enclosed(s, lblk, lblk + n)
    ensures !Agree(m', S.Meaning(s))
  {
    var k: nat :| k < |s| && s[k].lblk < lblk && lblk + n < S.EsEnd(s[k]);
    S.MeaningAt(s, k, lblk);
    assert Exact(m, lblk, S.Meaning(s)[lblk]);
    assert lblk !in m && lblk in m';
    assert !True(m', lblk, S.Meaning(s)[lblk]);
  }

  /** Nothing that was mapped is lost or moved, and what is new lies in the request. */
  ghost predicate Adds(m: LogicalMap, m': LogicalMap, lblk: nat, len: nat) {
    && (forall b :: b in m ==> b in m' && m'[b].pblk == m[b].pblk)
    && (forall b :: b in m' ==> b in m || lblk <= b < lblk + len)
  }

  /**
   What a create request promises; `mid` is the cache between its two halves. Only without
   memory for a split that takes a node can the cache come to contradict the file, and then
   it does.
   */
  ghost predicate Outcome(m: LogicalMap, m': LogicalMap, mid: seq<S.Es>, c': S.StatusMap, lblk: nat, len: nat,
                          mem: T.Memory, r: Found) {
    && Adds(m, m', lblk, len)
    && r.n <= len && MapsTo(m', lblk, r.n, r.p) && StateIs(m', lblk, lblk + r.n, r.unwritten)
    && (r.err == MapOk ==> r.n > 0) && (r.n > 0 && lblk !in m ==> Gains(m, m', lblk, r.n))
    && (r.err != NoMemory ==> Faithful(m', c'))
    && (r.err == NoMemory && r.n == 0 ==> lblk in m)
    && (r.err == NoMemory && r.n > 0 ==>
          (lblk !in c' ==> Faithful(m', c')) && (lblk in c' && lblk !in m ==> !Agree(m', c')))
    && (Agree(m', c') <==> lblk in m || r.n == 0 || !T.NoRoomToSplit(mid, lblk, lblk + r.n, mem))
  }

  lemma AfterAnswer(m: LogicalMap, c: S.StatusMap, s: seq<S.Es>, s': seq<S.Es>, lblk: nat, r: Found, mem: T.Memory)
    requires S.Meaning(s) == c && FaithfulBut(m, c, lblk, lblk + r.n, []) && Told(s, s', lblk, r, mem, T.Done)
    requires MapsTo(m, lblk, r.n, r.p) && StateIs(m, lblk, lblk + r.n, r.unwritten)
    ensures Faithful(m, S.Meaning(s')) && Agree(m, S.Meaning(s'))
  {
    var f :| Plain(f) && f.unwritten == r.unwritten && S.Meaning(s') == c + S.EsMap(S.Es(0, lblk, r.n, r.p, f));
    AnswerCompletes(m, c, S.Es(0, lblk, r.n, r.p, f));
    FaithfulAgree(m, S.Meaning(s'));
  }

  /** No node for the second part of an entry that encloses new blocks. */
  lemma LeftEnclosed(m: LogicalMap, m': LogicalMap, s: seq<S.Es>, lblk: nat, n: nat)
    requires S.Ordered(s) && Faithful(m, S.Meaning(s)) && Gains(m, m', lblk, n) && n > 0
    requires T.SplitAllocates(s, lblk, lblk + n)
    ensures !Agree(m', S.Meaning(s))
  {
    T.SplitEncloses(s, lblk, lblk + n);
    EnclosedWrong(m, m', s, lblk, n);
  }

  lemma AfterNoMemory(m: LogicalMap, m': LogicalMap, s: seq<S.Es>, s': seq<S.Es>, lblk: nat, n: nat, mem: T.Memory)
    requires S.Ordered(s) && FaithfulBut(m', S.Meaning(s), lblk, lblk + n, []) && Unchanged(s, s', lblk, n, mem)
    requires n > 0
    requires if lblk in m then Agree(m', S.Meaning(s)) else Gains(m, m', lblk, n) && Faithful(m, S.Meaning(s))
    ensures Agree(m', S.Meaning(s')) <==> lblk in m || !T.NoRoomToSplit(s, lblk, lblk + n, mem)
    ensures lblk !in S.Meaning(s') ==> Faithful(m', S.Meaning(s'))
    ensures lblk in S.Meaning(s') && lblk !in m ==> !Agree(m', S.Meaning(s'))
  {
    DroppedBut(m', S.Meaning(s), lblk, lblk + n);
    if T.SplitAllocates(s, lblk, lblk + n) {
      SplitKnows(s, lblk, lblk + n);
      if lblk !in m {
        LeftEnclosed(m, m', s, lblk, n);
      }
    }
  }

  /** An entry to be split around lblk spans it. */
  lemma SplitKnows(s: seq<S.Es>, lblk: nat, hi: nat)
    requires S.Ordered(s) && T.SplitAllocates(s, lblk, hi) && lblk < hi
    ensures lblk in S.Meaning(s)
  {
    T.SplitEncloses(s, lblk, hi);
    var k: nat :| k < |s| && s[k].lblk < lblk && hi < S.EsEnd(s[k]);
    S.MeaningAt(s, k, lblk);
  }

  /** May the answer be cached with the status the code computes? */
  lemma MayCache(m: LogicalMap, m': LogicalMap, c: S.StatusMap, c': S.StatusMap, lblk: nat, len: nat, r: Found,
                 uninitExt: bool,
                 reserve: bool)
    requires 0 < r.n <= len && Faithful(m, c) && NoNewDelayed(c, c')
    requires reserve || uninitExt || !T.HasDelayed(c, lblk, lblk + len - 1)
    requires StateIs(m', lblk, lblk + r.n, r.unwritten) && (uninitExt && !r.unwritten ==> m' == m)
    ensures r.unwritten || reserve || !T.HasDelayed(c', lblk, lblk + r.n - 1)
  {
    if uninitExt && !r.unwritten {
      NoDelayedInit(m, c, lblk, r.n);
    }
  }

  /**
   ext4_map_blocks with the create flag: the request is answered with mapped blocks, no
   mapping is lost or moved, and the cache stays faithful unless it runs out of memory. Even
   then it agrees with the file, with one exact exception: new blocks inside a cached entry
   that has to be split around them, and no memory for the second part. A caller that has
   not reserved the blocks and asks for initialised ones has none of them delayed. `want` is
   the length the second half is left with: it goes no further than what the first half found.
   */
  method MapBlocksCreate(inode: Inode, tree: T.EsTree, lblk: nat, len: nat, uninitExt: bool, reserve: bool,
                         eof: nat, zeroLimit: nat, first: Supply, second: Supply, grant: Grant, mem: T.Memory)
    returns (r: Found, ghost mid: seq<S.Es>, ghost want: nat)
    requires Coherent(inode, tree) && len > 0 && lblk + len <= EXT_MAX_BLOCKS
    requires reserve || uninitExt || !T.HasDelayed(tree.Contents(), lblk, lblk + len - 1)
    modifies inode`root, inode`disk, inode`free, inode`t, inode`zeroed, tree
    ensures inode.Valid() && tree.Valid() && inode.Universe() == old(inode.Universe())
    ensures old(lblk in tree.Contents()) ==> mid == old(tree.nodes)
    ensures Outcome(old(inode.Contents()), inode.Contents(), mid, tree.Contents(), lblk, len, mem, r)
    ensures lblk !in old(inode.Contents()) && old(CanFill(inode, lblk, len, grant, first.blocks)) ==> r.n > 0
    ensures 0 < want <= len && (lblk in old(inode.Contents()) && lblk !in old(tree.Contents()) ==>
      UpToEnd(old(Exts(inode.t)), lblk, len, want))
    ensures KindOf(old(inode.Contents()), lblk, uninitExt) == ToRead ==> r.n > 0 && r.err != NoSpace
    ensures KindOf(old(inode.Contents()), lblk, uninitExt) == ToWrite ==>
      Obeys(WriteVerdict(old(inode.t), lblk, want, eof, zeroLimit, Within(first.blocks, old(inode.free)),
                         Within(second.blocks, old(inode.free))), r.err != NoSpace)
  {
    r := MapBlocksLookup(inode, tree, lblk, len, reserve);
    mid, want := tree.nodes, if r.n > 0 then r.n else len;
    if r.err == MapOk && r.n > 0 && !r.unwritten {
      FaithfulAgree(inode.Contents(), tree.Contents());
      assert lblk in inode.Contents();
      return;
    }
    var left := if r.n > 0 then r.n else len;
    SmallerRequest(tree.Contents(), lblk, len, left);
    r := MapAndCache(inode, tree, lblk, left, uninitExt, reserve, eof, zeroLimit, first, second, grant, mem);
  }

  lemma SmallerRequest(c: S.StatusMap, lblk: nat, len: nat, want: nat)
    requires 0 < want <= len
    ensures !T.HasDelayed(c, lblk, lblk + len - 1) ==> !T.HasDelayed(c, lblk, lblk + want - 1)
  {
  }

  /** The second half, under the write lock. */
  method MapAndCache(inode: Inode, tree: T.EsTree, lblk: nat, len: nat, uninitExt: bool, reserve: bool,
                     eof: nat, zeroLimit: nat, first: Supply, second: Supply, grant: Grant, mem: T.Memory)
    returns (r: Found)
    requires Coherent(inode, tree) && len > 0 && lblk + len <= EXT_MAX_BLOCKS
    requires reserve || uninitExt || !T.HasDelayed(tree.Contents(), lblk, lblk + len - 1)
    modifies inode`root, inode`disk, inode`free, inode`t, inode`zeroed, tree
    ensures inode.Valid() && tree.Valid() && inode.Universe() == old(inode.Universe())
    ensures Outcome(old(inode.Contents()), inode.Contents(), old(tree.nodes), tree.Contents(), lblk, len, mem, r)
    ensures lblk !in old(inode.Contents()) && old(CanFill(inode, lblk, len, grant, first.blocks)) ==> r.n > 0
    ensures KindOf(old(inode.Contents()), lblk, uninitExt) == ToRead ==>
      r.err != NoSpace && r.n > 0 && UpToEnd(old(Exts(inode.t)), lblk, len, r.n)
    ensures KindOf(old(inode.Contents()), lblk, uninitExt) == ToWrite ==>
      Obeys(WriteVerdict(old(inode.t), lblk, len, eof, zeroLimit, Within(first.blocks, old(inode.free)),
                         Within(second.blocks, old(inode.free))), r.err != NoSpace)
  {
    ghost var m, c := inode.Contents(), tree.Contents();
    r := MapInTree(inode, tree, lblk, len, uninitExt, eof, zeroLimit, first, second, grant);
    if r.err != MapOk {
      WorkedNothing(m, inode.Contents(), tree.Contents(), lblk, len, r);
      return;
    }
    MayCache(m, inode.Contents(), c, tree.Contents(), lblk, len, r, uninitExt, reserve);
    r := TellAnswer(inode, tree, lblk, len, r, reserve, mem, m, c);
  }

  /** Nothing was mapped. */
  lemma WorkedNothing(m: LogicalMap, m': LogicalMap, c': S.StatusMap, lblk: nat, len: nat, r: Found)
    requires Worked(m, m', c', lblk, len, r) && r.n == 0
    ensures Adds(m, m', lblk, len) && (r.err != NoMemory ==> Faithful(m', c')) && (lblk !in m ==> r.err == NoSpace)
    ensures Agree(m', c')
  {
    if r.err != NoMemory {
      AllButNone(m', c', lblk);
      FaithfulAgree(m', c');
    }
  }

  lemma AnswerOutcome(m: LogicalMap, m': LogicalMap, s: seq<S.Es>, s': seq<S.Es>, lblk: nat, len: nat, found: Found,
                      mem: T.Memory,
                      err: T.Result)
    requires S.Ordered(s) && Worked(m, m', S.Meaning(s), lblk, len, found) && found.err == MapOk
    requires (lblk !in m ==> Faithful(m, S.Meaning(s))) && Told(s, s', lblk, found, mem, err)
    ensures Outcome(m, m', s, S.Meaning(s'), lblk, len, mem, if err == T.Done then found else found.(err := NoMemory))
  {
    if err == T.Done {
      AfterAnswer(m', S.Meaning(s), s, s', lblk, found, mem);
    } else {
      AfterNoMemory(m, m', s, s', lblk, found.n, mem);
    }
  }

  /** Put the answer of the tree into the cache; m and c are file and cache before the request. */
  method TellAnswer(inode: Inode, tree: T.EsTree, lblk: nat, len: nat, found: Found, reserve: bool, mem: T.Memory,
                    ghost m: LogicalMap, ghost c: S.StatusMap)
    returns (r: Found)
    requires tree.Valid() && found.err == MapOk && lblk + len <= EXT_MAX_BLOCKS && Faithful(m, c)
    requires Worked(m, inode.Contents(), tree.Contents(), lblk, len, found) && (lblk !in m ==> tree.Contents() == c)
    requires found.unwritten || reserve || !T.HasDelayed(tree.Contents(), lblk, lblk + found.n - 1)
    modifies tree
    ensures tree.Valid()
    ensures Outcome(m, inode.Contents(), old(tree.nodes), tree.Contents(), lblk, len, mem, r)
    ensures r.n == found.n && r.err != NoSpace
  {
    ghost var m', s := inode.Contents(), tree.nodes;
    var err := CacheAnswer(inode, tree, lblk, found, reserve, mem);
    AnswerOutcome(m, m', s, tree.nodes, lblk, len, found, mem, err);
    r := if err == T.Done then found else found.(err := NoMemory);
  }

  /**
   The exception is real: the file is empty, a hole 0 .. 99 is cached, block 50 gets
   allocated, and there is no memory to split the hole. From then on the cache denies block
   50 although the file maps it.
   */
  method StaleHole(inode: Inode, tree: T.EsTree, uninitExt: bool, supply: Supply, grant: Grant) returns (r: Found)
    requires inode.Valid() && inode.Contents() == map[] && Usable(grant, inode.free)
    requires tree.Valid() && tree.nodes == [S.Es(0, 0, 100, 0, HOLE)]
    modifies inode`root, inode`disk, inode`free, inode`t, inode`zeroed, tree
    ensures 50 in inode.Contents() && !Agree(inode.Contents(), tree.Contents())
  {
    var mem := T.Memory(false, true);
    ghost var s, c := tree.nodes, tree.Contents();
    OneHole(s);
    EmptyHasSlot(inode, 50);
    ghost var mid, want;
    r, mid, want := MapBlocksCreate(inode, tree, 50, 1, uninitExt, true, 0, 0, supply, supply, grant, mem);
    assert T.NoRoomToSplit(s, 50, 51, mem);
  }

  /** The root of an empty file has room. */
  lemma EmptyHasSlot(inode: Inode, b: nat)
    requires inode.Valid() && inode.Contents() == map[]
    ensures Searchable(inode.t) && HasSlot(inode.t, b)
  {
    WellFormedSearchable(inode.t);
    FirstMapped(Exts(inode.t));
    if inode.t.Index? {
      LKeyFirst(inode.t);
    }
  }

  lemma FirstMapped(s: seq<Extent>)
    requires Sorted(s)
    ensures s != [] ==> s[0].block in LMap(s)
  {
    if s != [] {
      EntryAgrees(s, 0);
      assert Covers(s[0], s[0].block);
    }
  }

  lemma OneHole(s: seq<S.Es>)
    requires s == [S.Es(0, 0, 100, 0, HOLE)]
    ensures Faithful(map[], S.Meaning(s)) && 50 in S.Meaning(s) && T.SplitAllocates(s, 50, 51)
  {
    S.MeaningOne(s[0]);
    assert S.Spans(s[0], 50);
    assert T.SplitsAt(s, 0, 50, 51);
  }

  // ----- the other steps of a run ---------------------------------------------------------------------

  /** ext4_da_map_blocks for one block: a hole becomes delayed if ext4_da_reserve_space finds space for it. */
  method DelayBlock(inode: Inode, tree: T.EsTree, lblk: nat, reserved: bool) returns (r: Found)
    requires Coherent(inode, tree) && lblk < EXT_MAX_BLOCKS
    modifies tree
    ensures Coherent(inode, tree) && Answers(inode.Contents(), lblk, 1, r)
    ensures r.err == MapOk && r.n == 0 ==> lblk in tree.Contents() && tree.Contents()[lblk].flags.delayed
    ensures r.err == NoSpace ==> !reserved
    ensures !reserved && r.n == 0 ==> tree.nodes == old(tree.nodes)
  {
    var hit, e := tree.Lookup(lblk);
    if hit {
      CacheTruth(inode.Contents(), tree.Contents(), e, lblk, 1);
      if !e.flags.hole {
        r := FromCache(e, lblk, 1);
        if S.Mapped(e.flags) {
          return;
        }
        if e.flags.delayed {
          return;
        }
      }
    } else {
      r := MapFromTree(inode, tree, lblk, 1, false);
      if r.n > 0 {
        r := CacheState(inode, tree, lblk, r);
        return;
      }
    }
    if !reserved {
      return Found(NoSpace, 0, 0, false);
    }
    r := Found(MapOk, 0, 0, false);
    var err := CacheUnmapped(inode, tree, lblk, 1, DELAYED);
    if err != T.Done {
      r := Found(NoMemory, 0, 0, false);
    } else {
      assert S.Spans(S.Es(0, lblk, 1, 0, DELAYED), lblk);
    }
  }

  /** Cache the blocks the tree gave a delayed write. */
  method CacheState(inode: Inode, tree: T.EsTree, lblk: nat, r: Found) returns (r': Found)
    requires Coherent(inode, tree) && lblk + r.n <= S.ES_END && r.err == MapOk
    requires MapsTo(inode.Contents(), lblk, r.n, r.p) && StateIs(inode.Contents(), lblk, lblk + r.n, r.unwritten)
    modifies tree
    ensures Coherent(inode, tree) && r'.n == r.n && r'.p == r.p && r'.err != NoSpace
  {
    var mem: T.Memory := *;
    var err := CacheMapped(inode, tree, lblk, r.n, r.p, S.Flags(!r.unwritten, r.unwritten, false, false), mem);
    r' := if err == T.Done then r else r.(err := NoMemory);
  }

  /** First the cache forgets first .. last. */
  method ForgetRange(inode: Inode, tree: T.EsTree, first: nat, last: nat, mem: bool) returns (res: T.Result)
    requires Coherent(inode, tree) && first <= last + 1
    modifies tree
    ensures Coherent(inode, tree)
    ensures res == T.Done ==> forall b :: first <= b <= last ==> b !in tree.Contents()
    ensures res == if !mem && T.SplitAllocates(old(tree.nodes), first, last + 1) then T.ENOMEM else T.Done
  {
    ghost var c := tree.Contents();
    res := tree.RemoveExtent(first, last + 1 - first, mem);
    FaithfulDropped(inode.Contents(), c, first, last + 1);
  }

  /** Then the blocks leave the file. */
  method RemoveFromFile(inode: Inode, tree: T.EsTree, first: nat, last: nat, restarts: nat, blocks: nat)
    returns (status: Status)
    requires Coherent(inode, tree) && forall b :: first <= b <= last ==> b !in tree.Contents()
    modifies inode`root, inode`disk, inode`free, inode`t, inode`zeroed
    ensures Coherent(inode, tree) && inode.Universe() == old(inode.Universe())
    ensures status == Ok ==> inode.Contents() == Without(old(inode.Contents()), first, last)
    ensures status != Ok ==> inode.Contents() == old(inode.Contents())
    ensures status == Ok <==> old(Severable(inode.t, last, Within(blocks, inode.free)))
  {
    ghost var m := inode.Contents();
    FaithfulWithout(m, tree.Contents(), first, last);
    status := RemoveBlocks(inode, first, last, restarts, blocks);
  }

  /** ext4_punch_hole from the status cache on: blocks first .. last (stop_block - 1) leave cache and file. */
  method PunchHole(inode: Inode, tree: T.EsTree, first: nat, last: nat, restarts: nat, blocks: nat, mem: bool)
    returns (err: MapErr)
    requires Coherent(inode, tree) && first <= last
    modifies inode`root, inode`disk, inode`free, inode`t, inode`zeroed, tree
    ensures Coherent(inode, tree) && inode.Universe() == old(inode.Universe())
    ensures err == NoMemory <==> !mem && T.SplitAllocates(old(tree.nodes), first, last + 1)
    ensures err == MapOk <==> err != NoMemory && old(Severable(inode.t, last, Within(blocks, inode.free)))
    ensures inode.Contents() ==
      if err == MapOk then Without(old(inode.Contents()), first, last) else old(inode.Contents())
  {
    var res := ForgetRange(inode, tree, first, last, mem);
    err := NoMemory;
    if res == T.Done {
      var status := RemoveFromFile(inode, tree, first, last, restarts, blocks);
      err := if status == Ok then MapOk else NoSpace;
    }
  }

  /**
   ext4_ext_truncate ignores both results. It may: nothing in the cache or in the tree
   reaches beyond the end of the range, so neither removal can fail.
   */
  method TruncateFile(inode: Inode, tree: T.EsTree, last: nat, restarts: nat, mem: bool)
    requires Coherent(inode, tree) && last <= EXT_MAX_BLOCKS
    modifies inode`root, inode`disk, inode`free, inode`t, inode`zeroed, tree
    ensures Coherent(inode, tree) && inode.Universe() == old(inode.Universe())
    ensures inode.Contents() == Without(old(inode.Contents()), last, EXT_MAX_BLOCKS - 1)
  {
    NothingBeyond(tree.nodes, last);
    var res := ForgetRange(inode, tree, last, EXT_MAX_BLOCKS - 1, mem);
    AllInReach(Exts(inode.t), last, EXT_MAX_BLOCKS - 1);
    var status := RemoveFromFile(inode, tree, last, EXT_MAX_BLOCKS - 1, restarts, 0);
  }

  lemma NothingBeyond(s: seq<S.Es>, lo: nat)
    requires S.Ordered(s)
    ensures !T.SplitAllocates(s, lo, EXT_MAX_BLOCKS)
  {
    forall k: nat | k < |s| ensures !(s[k].lblk < lo && EXT_MAX_BLOCKS < S.EsEnd(s[k])) {
      assert S.EsOk(s[k]);
    }
  }

  /** The shrinker takes entries away. */
  method ShrinkCache(inode: Inode, tree: T.EsTree, nrToScan: nat) returns (shrunk: nat)
    requires Coherent(inode, tree) && nrToScan > 0
    modifies tree
    ensures Coherent(inode, tree)
  {
    ghost var c := tree.Contents();
    shrunk := tree.Reclaim(nrToScan);
    FaithfulSub(inode.Contents(), c, tree.Contents());
  }

  // ----- whole runs ---------------------------------------------------------------------------------

  /** The requests a file can be sent. */
  datatype Request =
    | Look(lblk: nat, len: nat, reserve: bool)
    | Create(lblk: nat, len: nat, uninitExt: bool, reserve: bool, eof: nat, zeroLimit: nat, split: Supply,
             supply: Supply, grant: Grant, mem: T.Memory)
    | Delay(lblk: nat, reserved: bool)
    | Punch(first: nat, last: nat, restarts: nat, blocks: nat, memory: bool)
    | Truncate(from: nat, restarts: nat, memory: bool)
    | Shrink(nrToScan: nat)

  /** Within the limits of a file. */
  predicate InBounds(q: Request) {
    match q
    case Look(lblk, len, reserve) => len > 0 && lblk + len <= EXT_MAX_BLOCKS
    case Create(lblk, len, _, _, _, _, _, _, _, _) => len > 0 && lblk + len <= EXT_MAX_BLOCKS
    case Delay(lblk, reserved) => lblk < EXT_MAX_BLOCKS
    case Punch(first, last, _, _, _) => first <= last
    case Truncate(from, restarts, memory) => from <= EXT_MAX_BLOCKS
    case Shrink(nrToScan) => nrToScan > 0
  }

  /** And what the callers of ext4_map_blocks see to. */
  ghost predicate Allowed(q: Request, c: S.StatusMap) {
    && InBounds(q)
    && (q.Create? ==> q.reserve || q.uninitExt || !T.HasDelayed(c, q.lblk, q.lblk + q.len - 1))
  }

  /** What a request may do to the file. */
  ghost predicate Effect(q: Request, m: LogicalMap, m': LogicalMap) {
    match q
    case Create(lblk, len, _, _, _, _, _, _, _, _) => Adds(m, m', lblk, len)
    case Punch(first, last, _, _, _) => m' == Without(m, first, last) || m' == m
    case Truncate(from, restarts, memory) => m' == Without(m, from, EXT_MAX_BLOCKS - 1)
    case _ => m' == m
  }

  /**
   How serving requests ends: all done, a request nobody may send, or no memory for a status
   entry while the cache still knows the block, from before: rightly as to the place exactly if
   the file had it already. An entry that is just missing from the cache does no harm.
   */
  datatype Ending = Served | Refused | Starved

  method ServeCreate(inode: Inode, tree: T.EsTree, q: Request) returns (end: Ending)
    requires Coherent(inode, tree) && q.Create? && InBounds(q)
    modifies inode`root, inode`disk, inode`free, inode`t, inode`zeroed, tree
    ensures inode.Valid() && tree.Valid() && (end != Starved ==> Faithful(inode.Contents(), tree.Contents()))
    ensures inode.Universe() == old(inode.Universe())
    ensures Adds(old(inode.Contents()), inode.Contents(), q.lblk, q.len)
    ensures end == Refused <==> !Allowed(q, old(tree.Contents()))
    ensures end == Refused ==> inode.Contents() == old(inode.Contents())
    ensures end == Starved ==> (Agree(inode.Contents(), tree.Contents()) <==> q.lblk in old(inode.Contents()))
  {
    if !q.reserve && !q.uninitExt {
      var delayed := tree.FindDelallocRange(q.lblk, q.lblk + q.len - 1);
      if delayed {
        return Refused;
      }
    }
    ghost var mid, want;
    var r;
    r, mid, want := MapBlocksCreate(inode, tree, q.lblk, q.len, q.uninitExt, q.reserve, q.eof, q.zeroLimit, q.split,
                              q.supply, q.grant, q.mem);
    end := Served;
    if r.err == NoMemory {
      var known, e := tree.Lookup(q.lblk);
      end := if r.n > 0 && !known then Served else Starved;
    }
  }

  /** Requests that leave the file alone. */
  method ServeCached(inode: Inode, tree: T.EsTree, q: Request)
    requires Coherent(inode, tree) && InBounds(q) && (q.Look? || q.Delay? || q.Shrink?)
    modifies tree
    ensures Coherent(inode, tree)
  {
    match q
    case Look(lblk, len, reserve) => var r := MapBlocksLookup(inode, tree, lblk, len, reserve);
    case Delay(lblk, reserved) => var r := DelayBlock(inode, tree, lblk, reserved);
    case Shrink(nrToScan) => var n := ShrinkCache(inode, tree, nrToScan);
  }

  method ServeRemoval(inode: Inode, tree: T.EsTree, q: Request)
    requires Coherent(inode, tree) && InBounds(q) && (q.Punch? || q.Truncate?)
    modifies inode`root, inode`disk, inode`free, inode`t, inode`zeroed, tree
    ensures Coherent(inode, tree) && inode.Universe() == old(inode.Universe())
    ensures Effect(q, old(inode.Contents()), inode.Contents())
  {
    if q.Punch? {
      var err := PunchHole(inode, tree, q.first, q.last, q.restarts, q.blocks, q.memory);
    } else {
      TruncateFile(inode, tree, q.from, q.restarts, q.memory);
    }
  }

  method Serve(inode: Inode, tree: T.EsTree, q: Request) returns (end: Ending)
    requires Coherent(inode, tree)
    modifies inode`root, inode`disk, inode`free, inode`t, inode`zeroed, tree
    ensures inode.Valid() && tree.Valid() && (end != Starved ==> Faithful(inode.Contents(), tree.Contents()))
    ensures inode.Universe() == old(inode.Universe())
    ensures end == Served ==> Effect(q, old(inode.Contents()), inode.Contents())
    ensures end == Refused <==> !Allowed(q, old(tree.Contents()))
    ensures end == Refused ==> inode.Contents() == old(inode.Contents())
    ensures end == Starved ==>
      && q.Create? && Adds(old(inode.Contents()), inode.Contents(), q.lblk, q.len)
      && (Agree(inode.Contents(), tree.Contents()) <==> q.lblk in old(inode.Contents()))
  {
    end := Served;
    if !InBounds(q) {
      end := Refused;
    } else if q.Create? {
      end := ServeCreate(inode, tree, q);
    } else if q.Punch? || q.Truncate? {
      ServeRemoval(inode, tree, q);
    } else {
      ServeCached(inode, tree, q);
    }
  }

  /** File and cache. */
  datatype State = State(m: LogicalMap, c: S.StatusMap)

  /** One state for the start and one after each request served. */
  ghost predicate FaithfulRun(qs: seq<Request>, run: seq<State>) {
    && 0 < |run| <= |qs| + 1
    && (forall i :: 0 <= i < |run| ==> Faithful(run[i].m, run[i].c))
    && (forall i :: 0 <= i < |run| - 1 ==> Allowed(qs[i], run[i].c) && Effect(qs[i], run[i].m, run[i + 1].m))
  }

  lemma RunOn(qs: seq<Request>, run: seq<State>, last: State, next: State)
    requires FaithfulRun(qs, run) && |run| <= |qs| && run[|run| - 1] == last && Faithful(next.m, next.c)
    requires Allowed(qs[|run| - 1], last.c) && Effect(qs[|run| - 1], last.m, next.m)
    ensures FaithfulRun(qs, run + [next]) && (run + [next])[0] == run[0] && (run + [next])[|run|] == next
  {
    var n, run' := |run|, run + [next];
    forall i | 0 <= i < n ensures Allowed(qs[i], run'[i].c) && Effect(qs[i], run'[i].m, run'[i + 1].m) {
      assert run'[i] == run[i];
      if i == n - 1 {
        assert run'[i + 1] == next;
      }
    }
  }

  /** The run has come to the present state. */
  ghost predicate Running(inode: Inode, tree: T.EsTree, qs: seq<Request>, run: seq<State>)
    reads inode, tree
  {
    Coherent(inode, tree) && FaithfulRun(qs, run) && run[|run| - 1] == State(inode.Contents(), tree.Contents())
  }

  /** The run ends in front of request q. */
  ghost predicate Stops(inode: Inode, tree: T.EsTree, end: Ending, q: Request, last: State)
    reads inode, tree
  {
    && inode.Valid() && tree.Valid()
    && (end == Refused <==> !Allowed(q, last.c))
    && (end == Refused ==> inode.Contents() == last.m && Faithful(inode.Contents(), tree.Contents()))
    && (end == Starved ==>
          && q.Create? && Adds(last.m, inode.Contents(), q.lblk, q.len)
          && (Agree(inode.Contents(), tree.Contents()) <==> q.lblk in last.m))
  }

  method ServeNext(inode: Inode, tree: T.EsTree, qs: seq<Request>, n: nat, ghost run: seq<State>)
    returns (end: Ending, ghost run': seq<State>)
    requires Running(inode, tree, qs, run) && |run| == n + 1 && n < |qs|
    modifies inode`root, inode`disk, inode`free, inode`t, inode`zeroed, tree
    ensures inode.Universe() == old(inode.Universe())
    ensures run' != [] && run'[..1] == run[..1]
    ensures end == Served ==> Running(inode, tree, qs, run') && |run'| == n + 2
    ensures end != Served ==> run' == run && Stops(inode, tree, end, qs[n], run[n])
  {
    ghost var last := State(inode.Contents(), tree.Contents());
    end := Serve(inode, tree, qs[n]);
    run' := run;
    if end == Served {
      ghost var next := State(inode.Contents(), tree.Contents());
      RunOn(qs, run, last, next);
      run' := run + [next];
    }
  }

  /**
   Any run of lookups, allocations and writes, delayed writes, hole punches, truncations and
   shrinker calls: in every state it goes through the cache is faithful to the file, blocks
   neither get lost nor move but by a removal, and no disk block leaks. The run ends early
   only at a request no caller may send, or when an old entry outlives an allocation for lack
   of memory.
   */
  method RunRequests(inode: Inode, tree: T.EsTree, qs: seq<Request>)
    returns (end: Ending, done: nat, ghost run: seq<State>)
    requires Coherent(inode, tree)
    modifies inode`root, inode`disk, inode`free, inode`t, inode`zeroed, tree
    ensures |run| == done + 1 && FaithfulRun(qs, run)
    ensures run[0] == old(State(inode.Contents(), tree.Contents()))
    ensures inode.Universe() == old(inode.Universe())
    ensures end == Served ==> done == |qs| && Running(inode, tree, qs, run)
    ensures end != Served ==> done < |qs| && Stops(inode, tree, end, qs[done], run[done])
  {
    done, run := 0, [State(inode.Contents(), tree.Contents())];
    ghost var start := run[..1];
    end := Served;
    while done < |qs|
      invariant done <= |qs| && |run| == done + 1 && run[..1] == start && end == Served
      invariant Running(inode, tree, qs, run) && inode.Universe() == old(inode.Universe())
    {
      end, run := ServeNext(inode, tree, qs, done, run);
      if end != Served {
        break;
      }
      done := done + 1;
    }
    assert run[0] == run[..1][0] == start[0];
  }
}
