/**
 Truncating a file mapped by indirect blocks: ext4_get_branch, ext4_find_shared and
 ext4_ind_truncate.
 */
module IndirectTruncate {
  import opened IndirectTree
  import opened IndirectFile
  import opened IndirectPrune

  /** Indirect: the block holding the pointer (0 is the inode), the position there, and the pointer. */
  datatype Indirect = Indirect(bh: nat, pos: nat, key: nat)

  /** The entry of the chain at level i of the path. */
  ghost function Link(b: Branch, offsets: seq<nat>, i: nat): Indirect
    requires 0 < |offsets| && i < |offsets| && Reaches(b, offsets[1..], i)
    requires i > 0 ==> Reaches(b, offsets[1..], i - 1)
  {
    Indirect(if i == 0 then 0 else Ptr(Sub(b, offsets[1..], i - 1)), offsets[i], Ptr(Sub(b, offsets[1..], i)))
  }

  ghost predicate Linked(b: Branch, offsets: seq<nat>, i: nat, c: Indirect) {
    && i < |offsets| && Reaches(b, offsets[1..], i) && (i > 0 ==> Reaches(b, offsets[1..], i - 1))
    && (i > 0 ==> Sub(b, offsets[1..], i - 1).Node?) && c == Link(b, offsets, i)
  }

  ghost predicate Chain(b: Branch, offsets: seq<nat>, chain: seq<Indirect>) {
    forall i :: 0 <= i < |chain| ==> Linked(b, offsets, i, chain[i])
  }

  /**
   ext4_get_branch: follow the first `depth` offsets until a zero pointer. `complete` is the
   NULL result: every pointer is there.
   */
  method GetBranch(f: IndFile, depth: nat, offsets: seq<nat>) returns (chain: seq<Indirect>, complete: bool)
    requires f.Valid() && ValidPath(f.P, offsets) && 1 <= depth <= |offsets|
    ensures 1 <= |chain| <= depth && Chain(f.tops[offsets[0]], offsets, chain)
    ensures complete <==> chain[|chain| - 1].key != 0
    ensures complete ==> |chain| == depth
  {
    ghost var b := f.tops[offsets[0]];
    AllTops(f);
    chain := [Indirect(0, offsets[0], f.idata[offsets[0]])];
    if chain[0].key == 0 {
      return chain, false;
    }
    var p := 0;
    while p + 1 < depth
      invariant p < depth && |chain| == p + 1 && Chain(b, offsets, chain) && chain[p].key != 0
    {
      var next := p + 1;
      Descend(f.disk, b, offsets, p, chain[p], f.P);
      var bh := chain[p].key;
      chain := chain + [Indirect(bh, offsets[next], f.disk[bh][offsets[next]])];
      p := next;
      if chain[p].key == 0 {
        return chain, false;
      }
    }
    complete := true;
  }

  /** One level down: the block is an indirect block and lists the next pointer. */
  lemma Descend(disk: Disk, b: Branch, offsets: seq<nat>, p: nat, c: Indirect, P: nat)
    requires ValidPath(P, offsets) && p + 1 < |offsets| && Linked(b, offsets, p, c) && c.key != 0
    requires Held(disk, b, P) && Uniform(b, TopDepth(offsets[0]), P)
    ensures c.key in disk && offsets[p + 1] < |disk[c.key]|
    ensures Linked(b, offsets, p + 1, Indirect(c.key, offsets[p + 1], disk[c.key][offsets[p + 1]]))
  {
    var offs := offsets[1..];
    SubHeld(disk, b, offs, p, TopDepth(offsets[0]), P);
    assert offs[p] == offsets[p + 1];
    SubNext(b, offs, p);
  }

  method AllZeroes(block: seq<nat>, end: nat) returns (r: bool)
    requires end <= |block|
    ensures r <==> forall i :: 0 <= i < end ==> block[i] == 0
  {
    var p := 0;
    while p < end
      invariant p <= end && forall i :: 0 <= i < p ==> block[i] == 0
    {
      if block[p] != 0 {
        return false;
      }
      p := p + 1;
    }
    r := true;
  }

  /** Everything from the pointer at level p of the path on is to go. */
  ghost predicate DeadFrom(b: Branch, offsets: seq<nat>, p: nat) {
    p < |offsets| && Reaches(b, offsets[1..], p) && Dead(Sub(b, offsets[1..], p), offsets[1..][p..])
  }

  /** What ext4_find_shared reports about the place where the detached part begins. */
  ghost predicate Found(b: Branch, offsets: seq<nat>, c: Indirect, p: nat, top: nat) {
    (Linked(b, offsets, p, c) && top == c.key)
    || (p > 0 && top == 0 && Linked(b, offsets, p, c.(pos := c.pos + 1)))
  }

  ghost predicate SomeBefore(kids: seq<Branch>, n: nat)
    requires n <= |kids|
  {
    exists j :: 0 <= j < n && kids[j] != Hole
  }

  /** A pointer before the path survives in the block at level p. */
  ghost predicate Survivor(b: Branch, offsets: seq<nat>, p: nat)
    requires 0 < p < |offsets|
  {
    && Reaches(b, offsets[1..], p - 1) && Sub(b, offsets[1..], p - 1).Node?
    && offsets[p] <= |Sub(b, offsets[1..], p - 1).kids|
    && SomeBefore(Sub(b, offsets[1..], p - 1).kids, offsets[p])
  }

  /** The block of a link above the inode, and the meaning of its pointers before the path. */
  lemma Container(f: IndFile, offsets: seq<nat>, p: nat, c: Indirect)
    requires f.Valid() && ValidPath(f.P, offsets) && 0 < p < |offsets| && Linked(f.tops[offsets[0]], offsets, p, c)
    ensures c.bh in f.disk && c.pos < |f.disk[c.bh]| == f.P
    ensures (forall i :: 0 <= i < c.pos ==> f.disk[c.bh][i] == 0) <==> !Survivor(f.tops[offsets[0]], offsets, p)
  {
    var b, offs := f.tops[offsets[0]], offsets[1..];
    AllTops(f);
    SubHeld(f.disk, b, offs, p - 1, TopDepth(offsets[0]), f.P);
    var nd := Sub(b, offs, p - 1);
    forall i | 0 <= i < c.pos ensures f.disk[c.bh][i] == 0 <==> nd.kids[i] == Hole {
      assert Uniform(nd.kids[i], TopDepth(offsets[0]) - p, f.P);
    }
  }

  /** At the end of the chain the rest of the path has zero offsets only, or nothing hangs there. */
  lemma EndDead(b: Branch, offsets: seq<nat>, k: nat, p: nat, c: Indirect, d: nat, P: nat)
    requires 1 <= k <= |offsets| && p < k && Linked(b, offsets, p, c) && (c.key != 0 ==> p + 1 == k)
    requires forall i :: k <= i < |offsets| ==> offsets[i] == 0
    requires Reaches(b, offsets[1..], p) && Uniform(Sub(b, offsets[1..], p), d, P)
    ensures DeadFrom(b, offsets, p)
  {
  }

  /** Nothing survives before the path in its block: the block itself is to go. */
  lemma DeadUp(b: Branch, offsets: seq<nat>, p: nat)
    requires 0 < p < |offsets| && DeadFrom(b, offsets, p) && Reaches(b, offsets[1..], p - 1)
    requires Sub(b, offsets[1..], p - 1).Node? && !Survivor(b, offsets, p)
    ensures DeadFrom(b, offsets, p - 1)
  {
    var offs := offsets[1..];
    var nd := Sub(b, offs, p - 1);
    assert offs[p - 1] == offsets[p] && offs[p - 1..][1..] == offs[p..];
    SubKid(b, offs, p - 1);
  }

  lemma {:induction false} SubKid(b: Branch, offs: seq<nat>, l: nat)
    requires l < |offs| && Reaches(b, offs, l + 1)
    ensures Reaches(b, offs, l) && Sub(b, offs, l).Node? && offs[l] < |Sub(b, offs, l).kids|
    ensures Sub(b, offs, l + 1) == Sub(b, offs, l).kids[offs[l]]
  {
    if l > 0 {
      SubKid(b.kids[offs[0]], offs[1..], l - 1);
    } else {
      assert Reaches(b.kids[offs[0]], offs[1..], 0);
    }
  }

  /** The deepest non-zero offset, plus one. */
  method Deepest(offsets: seq<nat>) returns (k: nat)
    requires offsets != []
    ensures 1 <= k <= |offsets| && (k > 1 ==> offsets[k - 1] != 0)
    ensures forall i :: k <= i < |offsets| ==> offsets[i] == 0
  {
    k := |offsets|;
    while k > 1 && offsets[k - 1] == 0
      invariant 1 <= k <= |offsets| && forall i :: k <= i < |offsets| ==> offsets[i] == 0
    {
      k := k - 1;
    }
  }

  /** From the end of the chain up to the last block that must survive. */
  method ClimbZeroes(f: IndFile, offsets: seq<nat>, chain: seq<Indirect>) returns (p: nat)
    requires f.Valid() && ValidPath(f.P, offsets) && 0 < |chain| <= |offsets|
    requires Chain(f.tops[offsets[0]], offsets, chain) && DeadFrom(f.tops[offsets[0]], offsets, |chain| - 1)
    ensures p < |chain| && DeadFrom(f.tops[offsets[0]], offsets, p)
    ensures p > 0 ==> Survivor(f.tops[offsets[0]], offsets, p)
  {
    p := |chain| - 1;
    while p > 0
      invariant p < |chain| && DeadFrom(f.tops[offsets[0]], offsets, p)
    {
      Container(f, offsets, p, chain[p]);
      var zeroes := AllZeroes(f.disk[chain[p].bh], chain[p].pos);
      if !zeroes {
        break;
      }
      DeadUp(f.tops[offsets[0]], offsets, p);
      p := p - 1;
    }
  }

  /** The end of the chain ext4_get_branch returned. */
  lemma ChainEnd(f: IndFile, offsets: seq<nat>, k: nat, chain: seq<Indirect>)
    requires f.Valid() && ValidPath(f.P, offsets) && 1 <= |chain| <= k <= |offsets|
    requires Chain(f.tops[offsets[0]], offsets, chain) && (chain[|chain| - 1].key != 0 ==> |chain| == k)
    requires forall i :: k <= i < |offsets| ==> offsets[i] == 0
    ensures DeadFrom(f.tops[offsets[0]], offsets, |chain| - 1)
  {
    var b, p, d := f.tops[offsets[0]], |chain| - 1, TopDepth(offsets[0]);
    assert f.TopOk(offsets[0]);
    assert Linked(b, offsets, p, chain[p]);
    SubHeld2(b, offsets[1..], p, d, f.P);
    EndDead(b, offsets, k, p, chain[p], d - p, f.P);
  }

  /**
   ext4_find_shared: the deepest block of the path that must survive. chain[p] is where the
   detached part begins; either `top` is the pointer to it, or nothing hangs there, or the
   position was moved back by one so that the pointer is erased with those behind it.
   */
  method FindShared(f: IndFile, depth: nat, offsets: seq<nat>) returns (chain: seq<Indirect>, p: nat, top: nat)
    requires f.Valid() && ValidPath(f.P, offsets) && 1 < depth == |offsets|
    ensures p < |chain| <= depth && CutAt(f.tops[offsets[0]], offsets[1..], p)
    ensures var b := f.tops[offsets[0]];
      forall i :: 0 <= i < |chain| && i != p ==> Linked(b, offsets, i, chain[i])
    ensures Found(f.tops[offsets[0]], offsets, chain[p], p, top)
    ensures p > 0 ==> Survivor(f.tops[offsets[0]], offsets, p)
  {
    var k := Deepest(offsets);
    var complete: bool;
    chain, complete := GetBranch(f, k, offsets);
    ChainEnd(f, offsets, k, chain);
    p := ClimbZeroes(f, offsets, chain);
    CutAtSub(f.tops[offsets[0]], offsets[1..], p);
    if p == k - 1 && p > 0 {
      top := 0;
      chain := chain[p := chain[p].(pos := chain[p].pos - 1)];
    } else {
      top := chain[p].key;
    }
  }

  /** Where the erasing of level i starts: behind the path, or at it if the position was moved back. */
  ghost predicate Ready(b: Branch, b1: Branch, offsets: seq<nat>, p: nat, i: nat, pos: nat)
    requires 0 < i <= p < |offsets| && Reaches(b, offsets[1..], i)
  {
    (pos == offsets[i] && b1 == ChopFrom(b, offsets[1..], p, i)) || (i == p && pos + 1 == offsets[i] && b1 == b)
  }

  /** One step of erasing makes the cut one level further up. */
  lemma ReadyStep(b: Branch, b1: Branch, offsets: seq<nat>, p: nat, i: nat, pos: nat, d: nat, P: nat)
    requires 0 < i <= p < |offsets| && CutAt(b, offsets[1..], p) && offsets[i] < P && Uniform(b, d, P)
    requires Reaches(b, offsets[1..], i) && Ready(b, b1, offsets, p, i, pos)
    ensures Reaches(b, offsets[1..], i - 1) && Sub(b, offsets[1..], i - 1).Node?
    ensures Reaches(b1, offsets[1..], i - 1) && Sub(b1, offsets[1..], i - 1).Node?
    ensures Sub(b1, offsets[1..], i - 1).blk == Sub(b, offsets[1..], i - 1).blk
    ensures Erase(b1, offsets[1..], i - 1, pos + 1, P) == ChopFrom(b, offsets[1..], p, i - 1)
  {
    var offs := offsets[1..];
    assert offs[i - 1] == offsets[i];
    CutReaches(b, offs, p, i - 1);
    SubHeld2(b, offs, i - 1, d, P);
    if b1 == ChopFrom(b, offs, p, i) && pos == offsets[i] {
      ChopFromPath(b, offs, p, i - 1);
      EraseAfter(b, offs, p, i - 1, P);
    } else {
      EraseTail(b, offs, i - 1, P);
    }
  }

  lemma {:induction false} SubHeld2(b: Branch, offs: seq<nat>, l: nat, d: nat, P: nat)
    requires Reaches(b, offs, l) && Uniform(b, d, P)
    ensures l <= d && Uniform(Sub(b, offs, l), d - l, P)
  {
    if l > 0 {
      SubHeld2(b.kids[offs[0]], offs[1..], l - 1, d - 1, P);
    }
  }

  /**
   The part of ext4_ind_truncate that deals with the shared branch: its top is released,
   then the ends of the indirect blocks on the way back to the inode are cleared.
   */
  method CutShared(f: IndFile, offsets: seq<nat>) returns (ghost p: nat)
    requires f.Valid() && ValidPath(f.P, offsets) && 1 < |offsets|
    modifies f`disk, f`free, f`tops, f`idata
    ensures CutAt(old(f.tops[offsets[0]]), offsets[1..], p)
    ensures (p > 0 ==> p < |offsets| && Survivor(old(f.tops[offsets[0]]), offsets, p))
    ensures Replaced(f, old(f.tops), offsets[0], Chop(old(f.tops[offsets[0]]), offsets[1..], p), old(f.Universe()))
  {
    var n := |offsets|;
    ghost var b, tops0, u := f.tops[offsets[0]], f.tops, f.Universe();
    var chain, partial, nr := FindShared(f, n, offsets);
    p := partial;
    AllTops(f);
    KillTop(f, offsets, chain, partial, nr);
    while partial > 0
      invariant 0 <= partial <= p && f.Valid() && f.Universe() == u && f.tops == tops0[offsets[0] := f.tops[offsets[0]]]
      invariant Undone(b, f.tops[offsets[0]], offsets, p, partial, chain)
    {
      ClearEnd(f, offsets, chain, p, partial, b);
      partial := partial - 1;
    }
  }

  /** "Clear the ends of indirect blocks on the shared branch": the block at level i. */
  method ClearEnd(f: IndFile, offsets: seq<nat>, chain: seq<Indirect>, ghost p: nat, i: nat, ghost b: Branch)
    requires f.Valid() && ValidPath(f.P, offsets) && 0 < i <= p < |chain| <= |offsets|
    requires CutAt(b, offsets[1..], p) && Uniform(b, |offsets| - 1, f.P)
    requires Linked(b, offsets, i, chain[i].(pos := offsets[i])) && (i > 1 ==> chain[i - 1].pos == offsets[i - 1])
    requires Undone(b, f.tops[offsets[0]], offsets, p, i, chain)
    modifies f`disk, f`free, f`tops
    ensures f.Valid() && f.Universe() == old(f.Universe())
    ensures f.tops == old(f.tops)[offsets[0] := f.tops[offsets[0]]]
    ensures Undone(b, f.tops[offsets[0]], offsets, p, i - 1, chain)
  {
    ReadyStep(b, f.tops[offsets[0]], offsets, p, i, chain[i].pos, |offsets| - 1, f.P);
    Prune(f, offsets[0], offsets[1..], i - 1, chain[i].bh, chain[i].pos + 1, f.P, |offsets| - 1 - i);
  }

  /** The cut is carried out at the levels below i. */
  ghost predicate Undone(b: Branch, b1: Branch, offsets: seq<nat>, p: nat, i: nat, chain: seq<Indirect>)
    requires i <= p < |offsets| && p < |chain|
  {
    if i == 0 then b1 == Chop(b, offsets[1..], p)
    else Reaches(b, offsets[1..], i) && Ready(b, b1, offsets, p, i, chain[i].pos)
  }

  /** "Kill the top of shared branch". */
  method KillTop(f: IndFile, offsets: seq<nat>, chain: seq<Indirect>, p: nat, nr: nat)
    requires f.Valid() && ValidPath(f.P, offsets) && p < |chain| <= |offsets| && 1 < |offsets|
    requires CutAt(f.tops[offsets[0]], offsets[1..], p)
    requires Found(f.tops[offsets[0]], offsets, chain[p], p, nr)
    modifies f`disk, f`free, f`tops, f`idata
    ensures f.Valid() && f.Universe() == old(f.Universe())
    ensures f.tops == old(f.tops)[offsets[0] := f.tops[offsets[0]]]
    ensures Undone(old(f.tops[offsets[0]]), f.tops[offsets[0]], offsets, p, p, chain)
  {
    ghost var b, tops0 := f.tops[offsets[0]], f.tops;
    CutReaches(b, offsets[1..], p, p);
    if nr != 0 {
      if p == 0 {
        DropTop(f, offsets[0]);
      } else {
        EraseOne(b, offsets[1..], p - 1);
        Prune(f, offsets[0], offsets[1..], p - 1, chain[p].bh, chain[p].pos, chain[p].pos + 1, |offsets| - 1 - p);
      }
    } else if Linked(b, offsets, p, chain[p]) {
      assert f.TopOk(offsets[0]);
      SubHeld2(b, offsets[1..], p, TopDepth(offsets[0]), f.P);
      EraseNone(b, offsets[1..], p);
    }
  }

  /** The branches that remain: those before `first`, and `rest` in its place. */
  ghost predicate OnlyUpTo(tops: seq<Branch>, tops0: seq<Branch>, first: nat, rest: Branch) {
    && |tops| == |tops0| == N_BLOCKS && first < N_BLOCKS && tops[first] == rest
    && forall j :: 0 <= j < N_BLOCKS && j != first ==> tops[j] == if j < first then tops0[j] else Hole
  }

  /** do_indirects: "Kill the remaining (whole) subtrees" behind the one the path starts in. */
  method DoIndirects(f: IndFile, first: nat)
    requires f.Valid() && first < N_BLOCKS && forall j :: first < j < NDIR ==> f.tops[j] == Hole
    modifies f`disk, f`free, f`tops, f`idata
    ensures f.Valid() && f.Universe() == old(f.Universe())
    ensures OnlyUpTo(f.tops, old(f.tops), first, old(f.tops[first]))
  {
    if first < IND {
      DropTop(f, IND);
    }
    if first < DIND {
      DropTop(f, DIND);
    }
    if first < TIND {
      DropTop(f, TIND);
    }
  }

  /** Direct blocks: ext4_free_data on i_data[first..11]. */
  method FreeDirect(f: IndFile, first: nat)
    requires f.Valid() && first < NDIR
    modifies f`free, f`tops, f`idata
    ensures f.Valid() && f.Universe() == old(f.Universe()) && f.tops == HolesIn(old(f.tops), first, NDIR)
  {
    ghost var tops0, free0: multiset<nat>, idata0 := f.tops, multiset(f.free), f.idata;
    AllTops(f);
    DirectBlocks(tops0, idata0, first, free0, f.P);
    f.idata := f.FreeData(f.idata, first, NDIR);
    f.tops := HolesIn(f.tops, first, NDIR);
    HolesBlocks(tops0, first, NDIR);
    AddMoved(BlocksOf(f.tops), BlocksOf(tops0[first..NDIR]), free0, multiset(f.free));
    forall j | 0 <= j < N_BLOCKS ensures f.TopOk(j) {
      assert idata0[j] == Ptr(tops0[j]) && Held(f.disk, tops0[j], f.P);
    }
  }

  lemma AddMoved(a: multiset<nat>, b: multiset<nat>, c: multiset<nat>, d: multiset<nat>)
    requires d == c + b
    ensures a + d == (a + b) + c
  {
  }

  lemma DirectBlocks(tops: seq<Branch>, idata: seq<nat>, first: nat, free0: multiset<nat>, P: nat)
    requires first < NDIR && |tops| == |idata| == N_BLOCKS && NoDup(BlocksOf(tops) + free0)
    requires forall j :: 0 <= j < N_BLOCKS ==> idata[j] == Ptr(tops[j]) && Uniform(tops[j], TopDepth(j), P)
    ensures BlocksOf(tops[first..NDIR]) == NonZero(idata[first..NDIR])
    ensures NoDup(NonZero(idata[first..NDIR]) + free0)
  {
    LowestBlocks(tops[first..NDIR], idata[first..NDIR], P);
    RangePart(tops, first, NDIR);
    NoDupPart(BlocksOf(tops[first..NDIR]) + free0, BlocksOf(tops) + free0);
  }

  /** The pointer a path leads to from the inode. */
  ghost function Lookup(tops: seq<Branch>, path: seq<nat>): nat {
    if path != [] && path[0] < |tops| then Follow(tops[path[0]], path[1..]) else 0
  }

  /** Exactly the paths before the cut are left. */
  lemma CutLookup(tops: seq<Branch>, tops0: seq<Branch>, offsets: seq<nat>, p: nat, q: seq<nat>)
    requires offsets != [] && offsets[0] < N_BLOCKS == |tops0| && CutAt(tops0[offsets[0]], offsets[1..], p)
    requires OnlyUpTo(tops, tops0, offsets[0], Chop(tops0[offsets[0]], offsets[1..], p))
    ensures Lookup(tops, q) == if Less(q, offsets) then Lookup(tops0, q) else 0
  {
    if q != [] && q[0] == offsets[0] {
      ChopFollow(tops0[offsets[0]], offsets[1..], p, q[1..]);
    }
  }

  /** No indirect block of the branch has zero pointers only. */
  ghost predicate Full(b: Branch) {
    b.Node? ==> SomeBefore(b.kids, |b.kids|) && forall i :: 0 <= i < |b.kids| ==> Full(b.kids[i])
  }

  /** Cutting below a survivor leaves no empty indirect block behind. */
  lemma {:induction false} ChopFull(b: Branch, offs: seq<nat>, p: nat)
    requires 0 < p <= |offs| && CutAt(b, offs, p) && Full(b)
    requires Reaches(b, offs, p - 1) && offs[p - 1] <= |Below(b, offs, p)| && SomeBefore(Below(b, offs, p), offs[p - 1])
    ensures Full(Chop(b, offs, p)) && Chop(b, offs, p).Node?
  {
    var o, c := offs[0], Chop(b, offs, p);
    if p > 1 {
      ChopFull(b.kids[o], offs[1..], p - 1);
      assert c.kids[o] != Hole;
    } else {
      var j: nat :| j < o && b.kids[j] != Hole;
      assert c.kids[j] == b.kids[j];
      assert Chop(b.kids[o], offs[1..], 0) == Hole;
    }
    forall i | 0 <= i < |c.kids| ensures Full(c.kids[i]) {
      assert i < o ==> c.kids[i] == b.kids[i];
      assert i > o ==> c.kids[i] == Hole;
      assert i == o ==> c.kids[i] == Chop(b.kids[o], offs[1..], p - 1);
    }
  }

  ghost function Below(b: Branch, offs: seq<nat>, p: nat): seq<Branch>
    requires 0 < p && CutAt(b, offs, p) && Reaches(b, offs, p - 1)
  {
    CutReaches(b, offs, p, p - 1);
    Sub(b, offs, p - 1).kids
  }

  ghost predicate AllFull(tops: seq<Branch>) {
    forall j :: 0 <= j < |tops| ==> Full(tops[j])
  }

  lemma CutFull(tops: seq<Branch>, tops0: seq<Branch>, offsets: seq<nat>, p: nat)
    requires offsets != [] && offsets[0] < N_BLOCKS == |tops0| && CutAt(tops0[offsets[0]], offsets[1..], p)
    requires p > 0 ==> p < |offsets| && Survivor(tops0[offsets[0]], offsets, p)
    requires OnlyUpTo(tops, tops0, offsets[0], Chop(tops0[offsets[0]], offsets[1..], p)) && AllFull(tops0)
    ensures AllFull(tops)
  {
    if p > 0 {
      CutReaches(tops0[offsets[0]], offsets[1..], p, p - 1);
      ChopFull(tops0[offsets[0]], offsets[1..], p);
    }
    forall j | 0 <= j < |tops| ensures Full(tops[j]) {
      assert j < offsets[0] ==> Full(tops0[j]);
    }
  }

  /** No block at or beyond b is mapped. */
  ghost predicate NothingFrom(f: IndFile, b: nat)
    requires f.P > 0
    reads f
  {
    forall x :: x >= b ==> f.Get(x) == 0
  }

  /**
   ext4_ind_truncate to `last` blocks, with `maxBlock` the largest file size in blocks: every
   block before `last` keeps its mapping, every other block is unmapped, and what is no longer
   reachable, data or indirect block, is free, once. No indirect block is left without a use.
   */
  method IndTruncate(f: IndFile, last: nat, maxBlock: nat)
    requires f.Valid() && NothingFrom(f, maxBlock)
    modifies f`disk, f`free, f`tops, f`idata
    ensures f.Valid() && f.Universe() == old(f.Universe())
    ensures forall x: nat :: f.Get(x) == if x < last then old(f.Get(x)) else 0
    ensures AllFull(old(f.tops)) ==> AllFull(f.tops)
  {
    if last == maxBlock {
      return;
    }
    var offsets := BlockToPath(f.P, last);
    PathThere(f.P, last);
    if offsets == [] {
      OutOfRange(f, last);
      return;
    }
    ghost var tops0, p: nat := f.tops, 0;
    if |offsets| == 1 {
      FreeDirect(f, offsets[0]);
    } else {
      p := CutShared(f, offsets);
    }
    DoIndirects(f, offsets[0]);
    forall x: nat ensures f.Get(x) == if x < last then old(f.Get(x)) else 0 {
      CutMeaning(f.P, f.tops, tops0, last, p, x);
    }
    if AllFull(tops0) {
      CutFull(f.tops, tops0, offsets, p);
    }
  }

  /** The cut read in block numbers. */
  lemma CutMeaning(P: nat, tops: seq<Branch>, tops0: seq<Branch>, last: nat, p: nat, x: nat)
    requires P > 0 && last < Capacity(P) && |tops0| == N_BLOCKS && BlockToPath(P, last) != []
    requires var offsets := BlockToPath(P, last);
      offsets[0] < N_BLOCKS && CutAt(tops0[offsets[0]], offsets[1..], p)
      && OnlyUpTo(tops, tops0, offsets[0], Chop(tops0[offsets[0]], offsets[1..], p))
    ensures Lookup(tops, BlockToPath(P, x)) == if x < last then Lookup(tops0, BlockToPath(P, x)) else 0
  {
    CutLookup(tops, tops0, BlockToPath(P, last), p, BlockToPath(P, x));
    PathThere(P, x);
    if x < Capacity(P) {
      PathOrder(P, x, last);
    }
  }

  lemma OutOfRange(f: IndFile, last: nat)
    requires f.P > 0 && BlockToPath(f.P, last) == []
    ensures NothingFrom(f, last)
  {
    forall x | x >= last ensures f.Get(x) == 0 {
      PathThere(f.P, x);
      PathThere(f.P, last);
    }
  }
}
