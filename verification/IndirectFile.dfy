/**
 An inode mapped by indirect blocks: its fifteen pointers, the pointer blocks on disk, and
 the freeing of branches (ext4_clear_blocks, ext4_free_data, ext4_free_branches).
 */
module IndirectFile {
  import opened IndirectTree
  import E = Extents

  type Disk = map<nat, seq<nat>>

  /** The disk holds the branch: every indirect block lists the pointers to its children. */
  ghost predicate Held(disk: Disk, b: Branch, P: nat) {
    b.Node? ==>
      && b.blk in disk && |disk[b.blk]| == P == |b.kids|
      && forall i :: 0 <= i < P ==> disk[b.blk][i] == Ptr(b.kids[i]) && Held(disk, b.kids[i], P)
  }

  ghost predicate NoDup(m: multiset<nat>) {
    forall x :: m[x] <= 1
  }

  lemma NoDupPart(a: multiset<nat>, b: multiset<nat>)
    requires NoDup(b) && a <= b
    ensures NoDup(a)
  {
    forall x ensures a[x] <= 1 {
      assert b[x] <= 1;
    }
  }

  /** A branch stays on disk as long as its own blocks are not touched. */
  lemma {:induction false} HeldFrame(disk: Disk, disk': Disk, b: Branch, P: nat)
    requires Held(disk, b, P)
    requires forall x :: x in Blocks(b) && x in disk ==> x in disk' && disk'[x] == disk[x]
    ensures Held(disk', b, P)
  {
    if b.Node? {
      forall i | 0 <= i < P ensures Held(disk', b.kids[i], P) {
        KidBlocks(b.kids, i);
        HeldFrame(disk, disk', b.kids[i], P);
      }
    }
  }

  function Zeroed(s: seq<nat>, from: nat, to: nat): (r: seq<nat>)
    ensures |r| == |s| && forall i :: 0 <= i < |s| ==> r[i] == if from <= i < to then 0 else s[i]
  {
    seq(|s|, i requires 0 <= i < |s| => if from <= i < to then 0 else s[i])
  }

  /** The non-zero pointers of an array. */
  ghost function NonZero(s: seq<nat>): multiset<nat> {
    if s == [] then multiset{}
    else NonZero(s[..|s| - 1]) + (if s[|s| - 1] == 0 then multiset{} else multiset{s[|s| - 1]})
  }

  lemma NonZeroNext(s: seq<nat>, first: nat, p: nat)
    requires first <= p < |s|
    ensures NonZero(s[first..p + 1]) == NonZero(s[first..p]) + (if s[p] == 0 then multiset{} else multiset{s[p]})
  {
    assert s[first..p + 1][..p - first] == s[first..p];
  }

  lemma {:induction false} NonZeroPart(s: seq<nat>, n: nat)
    requires n <= |s|
    ensures NonZero(s[..n]) <= NonZero(s)
  {
    if n < |s| {
      assert s[..|s| - 1][..n] == s[..n];
      NonZeroPart(s[..|s| - 1], n);
    } else {
      assert s[..n] == s;
    }
  }

  /** At the lowest level the blocks of the branches are the non-zero pointers. */
  lemma {:induction false} LowestBlocks(kids: seq<Branch>, ptrs: seq<nat>, P: nat)
    requires |kids| == |ptrs| && forall i :: 0 <= i < |kids| ==> Uniform(kids[i], 0, P) && ptrs[i] == Ptr(kids[i])
    ensures BlocksOf(kids) == NonZero(ptrs)
  {
    if kids != [] {
      var n := |kids| - 1;
      LowestBlocks(kids[..n], ptrs[..n], P);
      BlocksSplit(kids, n);
      assert kids[n + 1..] == [];
      assert Uniform(kids[n], 0, P);
    }
  }

  function TopDepth(i: nat): nat {
    if i < NDIR then 0 else i - NDIR + 1
  }

  /** Block bh lists the pointers to the branches. */
  ghost predicate Lists(disk: Disk, bh: nat, kids: seq<Branch>, P: nat) {
    bh in disk && |disk[bh]| == P == |kids| && forall i :: 0 <= i < P ==>
      disk[bh][i] == Ptr(kids[i]) && Held(disk, kids[i], P)
  }

  /** Only the blocks of m may have changed. */
  ghost predicate Kept(disk: Disk, disk': Disk, m: multiset<nat>) {
    forall x :: x in disk && x !in m ==> x in disk' && disk'[x] == disk[x]
  }

  lemma WholeRange(kids: seq<Branch>, P: nat)
    requires |kids| == P
    ensures kids[0..P] == kids
  {
  }

  lemma RangeEmpty(kids: seq<Branch>, p: nat)
    requires p <= |kids|
    ensures kids[p..p] == [] && BlocksOf(kids[p..p]) == multiset{}
  {
  }

  lemma MiddleWithin(a: multiset<nat>, b: multiset<nat>, c: multiset<nat>)
    ensures b <= a + (b + c)
  {
  }

  lemma RangePart(kids: seq<Branch>, first: nat, last: nat)
    requires first <= last <= |kids|
    ensures BlocksOf(kids[first..last]) <= BlocksOf(kids)
  {
    var r := kids[first..];
    BlocksCut(kids, first);
    BlocksCut(r, last - first);
    SliceTwice(kids, first, last);
    MiddleWithin(BlocksOf(kids[..first]), BlocksOf(r[..last - first]), BlocksOf(r[last - first..]));
  }

  lemma SliceTwice(kids: seq<Branch>, first: nat, last: nat)
    requires first <= last <= |kids|
    ensures kids[first..][..last - first] == kids[first..last]
  {
  }

  lemma RangeNoDup(bh: nat, kids: seq<Branch>, first: nat, last: nat, free: multiset<nat>)
    requires first <= last <= |kids| && NoDup(multiset{bh} + BlocksOf(kids) + free)
    ensures NoDup(BlocksOf(kids[first..last]) + free)
  {
    RangePart(kids, first, last);
    NoDupPart(BlocksOf(kids[first..last]) + free, multiset{bh} + BlocksOf(kids) + free);
  }

  lemma DataRange(ptrs: seq<nat>, kids: seq<Branch>, first: nat, last: nat, P: nat)
    requires first <= last <= P && |kids| == |ptrs| == P
    requires forall i :: 0 <= i < P ==> Uniform(kids[i], 0, P) && ptrs[i] == Ptr(kids[i])
    ensures BlocksOf(kids[first..last]) == NonZero(ptrs[first..last])
  {
    LowestBlocks(kids[first..last], ptrs[first..last], P);
  }

  /** The next branch to free shares no block with what was freed before, nor with its parent. */
  lemma ChildApart(bh: nat, kids: seq<Branch>, next: nat, p: nat, last: nat, free0: multiset<nat>)
    requires next < p == next + 1 <= last <= |kids| && NoDup(multiset{bh} + BlocksOf(kids) + free0)
    ensures bh !in Blocks(kids[next])
    ensures forall x :: x in Blocks(kids[next]) ==> x !in multiset{bh} + BlocksOf(kids[p..last])
    ensures NoDup(Blocks(kids[next]) + (free0 + BlocksOf(kids[p..last])))
  {
    var b, r, u := Blocks(kids[next]), BlocksOf(kids[p..last]), multiset{bh} + BlocksOf(kids) + free0;
    RangePart(kids, next, last);
    BlocksRange(kids, next, last);
    assert b + r <= BlocksOf(kids);
    forall x ensures (b + (free0 + r))[x] <= 1 && (x in b ==> x != bh && x !in r) {
      assert u[x] <= 1;
      assert (b + r)[x] <= BlocksOf(kids)[x];
    }
  }

  lemma ZeroedStep(s: seq<nat>, next: nat, p: nat, last: nat)
    requires next < p == next + 1 <= last <= |s|
    ensures Zeroed(s, p, last)[next := 0] == Zeroed(s, next, last)
  {
  }

  lemma HoleChild(s: seq<nat>, kids: seq<Branch>, next: nat, p: nat, last: nat)
    requires next < p == next + 1 <= last <= |s| == |kids| && s[next] == 0 && Ptr(kids[next]) == 0
    requires kids[next].Hole?
    ensures Zeroed(s, p, last) == Zeroed(s, next, last) && BlocksOf(kids[next..last]) == BlocksOf(kids[p..last])
  {
    BlocksRange(kids, next, last);
  }

  /** After everything below it the node itself is released. */
  lemma ReturnNode(free: set<nat>, nr: nat, below: multiset<nat>, free0: multiset<nat>)
    requires multiset(free) == free0 + below && NoDup((multiset{nr} + below) + free0)
    ensures E.Run(nr, 1) == multiset{nr} && forall x :: x in E.Run(nr, 1) ==> x !in free
    ensures multiset(free) + E.Run(nr, 1) == free0 + (multiset{nr} + below)
  {
    RunOne(nr);
    var m: multiset<nat> := multiset(free);
    assert ((multiset{nr} + below) + free0)[nr] <= 1;
    assert m[nr] == 0;
  }

  lemma {:induction false} HolesOnly(bs: seq<Branch>)
    requires forall i :: 0 <= i < |bs| ==> bs[i] == Hole
    ensures BlocksOf(bs) == multiset{}
  {
    if bs != [] {
      HolesOnly(bs[1..]);
    }
  }

  class IndFile {
    /** Pointers per block. */
    const P: nat
    /** ei->i_data */
    var idata: seq<nat>
    /** Contents of the indirect blocks. */
    var disk: Disk
    var free: set<nat>
    /** The branches hanging on idata. */
    ghost var tops: seq<Branch>

    /** An empty file. */
    constructor (P: nat, free: set<nat>)
      ensures this.P == P && this.free == free && Stored() && (P > NDIR ==> Valid())
      ensures forall i :: 0 <= i < |tops| ==> tops[i] == Hole
    {
      this.P, this.free, disk := P, free, map[];
      idata := seq(N_BLOCKS, i => 0);
      tops := seq(N_BLOCKS, i => Hole);
      new;
      HolesOnly(tops);
    }

    ghost predicate Stored()
      reads this
    {
      && |idata| == N_BLOCKS == |tops|
      && forall i :: 0 <= i < N_BLOCKS ==> TopOk(i)
    }

    ghost predicate TopOk(i: nat)
      requires i < |idata| && i < |tops|
      reads this
    {
      idata[i] == Ptr(tops[i]) && Uniform(tops[i], TopDepth(i), P) && Held(disk, tops[i], P)
    }

    /** Every block the file system knows: indirect, data and free blocks. */
    ghost function Universe(): multiset<nat>
      reads this
    {
      BlocksOf(tops) + multiset(free)
    }

    ghost predicate Valid()
      reads this
    {
      P > NDIR && Stored() && NoDup(Universe())
    }

    /** The physical block of logical block b, 0 if there is none. */
    ghost function Get(b: nat): nat
      requires P > 0
      reads this
    {
      var path := BlockToPath(P, b);
      if path != [] && path[0] < |tops| then Follow(tops[path[0]], path[1..]) else 0
    }

    /** ext4_free_blocks */
    method FreeBlocks(p: nat, n: nat)
      requires forall x :: x in E.Run(p, n) ==> x !in free
      modifies this`free
      ensures multiset(free) == multiset(old(free)) + E.Run(p, n)
    {
      ghost var m0: multiset<nat> := multiset(free);
      forall x: nat ensures E.Run(p, n)[x] == if p <= x < p + n then 1 else 0 {
        E.RunCount(p, n, x);
      }
      free := free + set x: nat | p <= x < p + n && E.InRun(p, n, x);
      ghost var m: multiset<nat> := multiset(free);
      assert m == m0 + E.Run(p, n);
    }

    /** ext4_clear_blocks: free a run and zero the stretch of pointers that named it. */
    method ClearBlocks(arr: seq<nat>, blk: nat, count: nat, from: nat, to: nat) returns (arr': seq<nat>)
      requires from <= to <= |arr| && forall x :: x in E.Run(blk, count) ==> x !in free
      modifies this`free
      ensures arr' == Zeroed(arr, from, to)
      ensures multiset(free) == multiset(old(free)) + E.Run(blk, count)
    {
      arr' := arr;
      var p := from;
      while p < to
        invariant from <= p <= to && |arr'| == |arr| && arr' == Zeroed(arr, from, p)
      {
        arr' := arr'[p := 0];
        p := p + 1;
      }
      FreeBlocks(blk, count);
    }

    /** ext4_free_data: free what the pointers first..last-1 name, run by run, and zero them. */
    method FreeData(arr: seq<nat>, first: nat, last: nat) returns (arr': seq<nat>)
      requires first <= last <= |arr| && NoDup(NonZero(arr[first..last]) + multiset(free))
      modifies this`free
      ensures arr' == Zeroed(arr, first, last)
      ensures multiset(free) == multiset(old(free)) + NonZero(arr[first..last])
    {
      var blk: nat, count: nat, from: nat, p: nat := 0, 0, first, first;
      arr' := arr;
      ghost var free0: multiset<nat> := multiset(free);
      ghost var pool := free0;
      NothingYet(arr, first, pool);
      while p < last
        invariant first <= p <= last && pool == multiset(free)
        invariant Collected(arr, arr', first, p, blk, count, from, pool, free0)
      {
        var next := p + 1;
        if arr[p] == 0 {
          SkipHole(arr, arr', first, p, next, blk, count, from, pool, free0);
        } else {
          arr', blk, count, from, pool := FreeStep(arr, arr', first, last, p, next, blk, count, from, pool, free0);
        }
        p := next;
      }
      RunOne(blk);
      if count > 0 {
        arr', pool := Flush(arr', blk, count, from, p, arr, first, last, pool, free0);
      }
    }

    /**
     The body of the loop of ext4_free_branches for one pointer: everything below it is
     released first, then the indirect block itself.
     */
    method FreeBranch(nr: nat, depth: nat, ghost b: Branch)
      requires depth > 0 && b.Node? && b.blk == nr && Uniform(b, depth, P) && Held(disk, b, P)
      requires NoDup(Blocks(b) + multiset(free))
      modifies this`disk, this`free
      ensures multiset(free) == multiset(old(free)) + Blocks(b)
      ensures Kept(old(disk), disk, Blocks(b))
      decreases depth, 0
    {
      ghost var free0: multiset<nat> := multiset(free);
      WholeRange(b.kids, P);
      FreeBranches(nr, 0, P, depth - 1, b.kids);
      ReturnNode(free, nr, BlocksOf(b.kids), free0);
      FreeBlocks(nr, 1);
    }

    /**
     ext4_free_branches on the pointers first..last-1 of block bh, the roots of branches
     `kids` of the given depth: right to left, free every branch and zero its pointer.
     */
    method FreeBranches(bh: nat, first: nat, last: nat, depth: nat, ghost kids: seq<Branch>)
      requires first <= last <= P && Lists(disk, bh, kids, P)
      requires forall i :: 0 <= i < P ==> Uniform(kids[i], depth, P)
      requires NoDup(multiset{bh} + BlocksOf(kids) + multiset(free))
      modifies this`disk, this`free
      ensures bh in disk && disk[bh] == Zeroed(old(disk)[bh], first, last)
      ensures multiset(free) == multiset(old(free)) + BlocksOf(kids[first..last])
      ensures Kept(old(disk), disk, multiset{bh} + BlocksOf(kids[first..last]))
      decreases depth, 2
    {
      if depth == 0 {
        DataRange(disk[bh], kids, first, last, P);
        RangeNoDup(bh, kids, first, last, multiset(free));
        var arr := FreeData(disk[bh], first, last);
        disk := disk[bh := arr];
        return;
      }
      var p := last;
      ghost var disk0: Disk, free0: multiset<nat> := disk, multiset(free);
      RangeEmpty(kids, last);
      assert disk[bh] == Zeroed(disk[bh], last, last);
      while p > first
        invariant first <= p <= last && bh in disk && disk[bh] == Zeroed(disk0[bh], p, last)
        invariant multiset(free) == free0 + BlocksOf(kids[p..last])
        invariant Kept(disk0, disk, multiset{bh} + BlocksOf(kids[p..last]))
      {
        var next := p - 1;
        var nr := disk[bh][next];
        if nr != 0 {
          FreeChild(bh, next, p, last, nr, depth, kids, disk0, free0);
        } else {
          HoleChild(disk0[bh], kids, next, p, last);
        }
        p := next;
      }
    }

    /** One branch of ext4_free_branches, and its pointer. */
    method FreeChild(bh: nat, next: nat, ghost p: nat, ghost last: nat, nr: nat, depth: nat, ghost kids: seq<Branch>,
                     ghost disk0: Disk, ghost free0: multiset<nat>)
      requires next < p == next + 1 <= last <= P && depth > 0 && Lists(disk0, bh, kids, P)
      requires Uniform(kids[next], depth, P) && NoDup(multiset{bh} + BlocksOf(kids) + free0)
      requires bh in disk && disk[bh] == Zeroed(disk0[bh], p, last) && nr == disk[bh][next] != 0
      requires multiset(free) == free0 + BlocksOf(kids[p..last])
      requires Kept(disk0, disk, multiset{bh} + BlocksOf(kids[p..last]))
      modifies this`disk, this`free
      ensures bh in disk && disk[bh] == Zeroed(disk0[bh], next, last)
      ensures multiset(free) == free0 + BlocksOf(kids[next..last])
      ensures Kept(disk0, disk, multiset{bh} + BlocksOf(kids[next..last]))
      decreases depth, 1
    {
      ghost var b, disk1 := kids[next], disk;
      ChildApart(bh, kids, next, p, last, free0);
      HeldFrame(disk0, disk, b, P);
      FreeBranch(nr, depth, b);
      BlocksRange(kids, next, last);
      ZeroedStep(disk0[bh], next, p, last);
      disk := disk[bh := disk[bh][next := 0]];
    }

    /** One pointer that is not a hole: the next block of the run, or the start of another run. */
    method FreeStep(arr: seq<nat>, arr1: seq<nat>, first: nat, ghost last: nat, p: nat, ghost next: nat,
                    blk: nat, count: nat, from: nat, ghost pool: multiset<nat>, ghost free0: multiset<nat>)
      returns (arr': seq<nat>, blk': nat, count': nat, from': nat, ghost pool': multiset<nat>)
      requires first <= p < last <= |arr| && NoDup(NonZero(arr[first..last]) + free0) && next == p + 1
      requires arr[p] != 0 && pool == multiset(free) && Collected(arr, arr1, first, p, blk, count, from, pool, free0)
      modifies this`free
      ensures pool' == multiset(free)
      ensures Collected(arr, arr', first, next, blk', count', from', pool', free0)
    {
      if count > 0 && arr[p] == blk + count {
        ExtendRun(arr, arr1, first, p, next, blk, count, from, pool, free0);
        arr', blk', count', from', pool' := arr1, blk, count + 1, from, pool;
      } else {
        blk', count', from' := arr[p], 1, p;
        arr', pool' := NewRun(arr, arr1, first, last, p, next, blk, count, from, pool, free0);
      }
    }

    /** The pointer does not continue the run: free the run and start another. */
    method NewRun(arr: seq<nat>, arr1: seq<nat>, first: nat, ghost last: nat, p: nat, ghost next: nat,
                  blk: nat, count: nat, from: nat, ghost pool: multiset<nat>, ghost free0: multiset<nat>)
      returns (arr': seq<nat>, ghost pool': multiset<nat>)
      requires first <= p < last <= |arr| && NoDup(NonZero(arr[first..last]) + free0) && next == p + 1
      requires arr[p] != 0 && pool == multiset(free) && Collected(arr, arr1, first, p, blk, count, from, pool, free0)
      modifies this`free
      ensures pool' == multiset(free) && Collected(arr, arr', first, next, arr[p], 1, p, pool', free0)
    {
      arr', pool' := arr1, pool;
      if count > 0 {
        arr', pool' := Flush(arr1, blk, count, from, p, arr, first, last, pool, free0);
      } else {
        RunOne(blk);
      }
      StartRun(arr, arr', first, p, next, pool', free0);
    }

    /** Free the collected run. */
    method Flush(arr1: seq<nat>, blk: nat, count: nat, from: nat, p: nat, ghost arr: seq<nat>, ghost first: nat,
                 ghost last: nat, ghost pool: multiset<nat>, ghost free0: multiset<nat>)
      returns (arr': seq<nat>, ghost pool': multiset<nat>)
      requires first <= p <= last <= |arr| == |arr1| && NoDup(NonZero(arr[first..last]) + free0)
      requires pool == multiset(free) && count > 0 && Collected(arr, arr1, first, p, blk, count, from, pool, free0)
      modifies this`free
      ensures arr' == Zeroed(arr, first, p) && pool' == multiset(free) == free0 + NonZero(arr[first..p])
    {
      RunNotFree(free, blk, count, free0, arr, first, p, last);
      arr' := ClearBlocks(arr1, blk, count, from, p);
      ZeroedTwice(arr, first, from, p);
      pool' := multiset(free);
    }
  }

  /**
   ext4_free_data at pointer p: the pointers before `from` are dealt with, those from there
   on name the run blk .. blk + count - 1; `pool` is what is free now.
   */
  ghost predicate Collected(arr: seq<nat>, arr': seq<nat>, first: nat, p: nat, blk: nat, count: nat, from: nat,
                            pool: multiset<nat>, free0: multiset<nat>)
    requires first <= p <= |arr|
  {
    && pool + E.Run(blk, count) == free0 + NonZero(arr[first..p])
    && if count == 0 then arr' == Zeroed(arr, first, p)
       else first <= from < p && blk > 0 && arr' == Zeroed(arr, first, from)
  }

  lemma NothingYet(arr: seq<nat>, first: nat, pool: multiset<nat>)
    requires first <= |arr|
    ensures Collected(arr, arr, first, first, 0, 0, first, pool, pool)
  {
    assert arr[first..first] == [] && arr == Zeroed(arr, first, first);
    RunOne(0);
  }

  lemma SkipHole(arr: seq<nat>, arr': seq<nat>, first: nat, p: nat, next: nat, blk: nat, count: nat, from: nat,
                 pool: multiset<nat>, free0: multiset<nat>)
    requires first <= p < |arr| && next == p + 1 && arr[p] == 0
    requires Collected(arr, arr', first, p, blk, count, from, pool, free0)
    ensures Collected(arr, arr', first, next, blk, count, from, pool, free0)
  {
    NonZeroNext(arr, first, p);
    if count == 0 {
      assert Zeroed(arr, first, p) == Zeroed(arr, first, p + 1);
    }
  }

  lemma StartRun(arr: seq<nat>, arr': seq<nat>, first: nat, p: nat, next: nat, pool: multiset<nat>,
                 free0: multiset<nat>)
    requires first <= p < |arr| && next == p + 1 && arr[p] != 0 && arr' == Zeroed(arr, first, p)
    requires pool == free0 + NonZero(arr[first..p])
    ensures Collected(arr, arr', first, next, arr[p], 1, p, pool, free0)
  {
    NonZeroNext(arr, first, p);
    RunOne(arr[p]);
  }

  lemma ExtendRun(arr: seq<nat>, arr': seq<nat>, first: nat, p: nat, next: nat, blk: nat, count: nat, from: nat,
                  pool: multiset<nat>, free0: multiset<nat>)
    requires first <= p < |arr| && next == p + 1 && count > 0 && arr[p] == blk + count
    requires Collected(arr, arr', first, p, blk, count, from, pool, free0)
    ensures Collected(arr, arr', first, next, blk, count + 1, from, pool, free0)
  {
    NonZeroNext(arr, first, p);
    RunNext(blk, count);
    AddBoth(pool, E.Run(blk, count), free0, NonZero(arr[first..p]), multiset{arr[p]});
  }

  lemma AddBoth(a: multiset<nat>, b: multiset<nat>, c: multiset<nat>, d: multiset<nat>, x: multiset<nat>)
    requires a + b == c + d
    ensures a + (b + x) == c + (d + x)
  {
    assert a + (b + x) == (a + b) + x;
  }

  /** The run collected from the pointers so far is not free yet. */
  lemma RunNotFree(free: set<nat>, blk: nat, count: nat, free0: multiset<nat>, arr: seq<nat>, first: nat, p: nat,
                   last: nat)
    requires first <= p <= last <= |arr| && NoDup(NonZero(arr[first..last]) + free0)
    requires multiset(free) + E.Run(blk, count) == free0 + NonZero(arr[first..p])
    ensures forall x :: x in E.Run(blk, count) ==> x !in free
  {
    assert arr[first..last][..p - first] == arr[first..p];
    NonZeroPart(arr[first..last], p - first);
    var m: multiset<nat> := multiset(free);
    forall x | x in E.Run(blk, count) ensures x !in free {
      assert (NonZero(arr[first..last]) + free0)[x] <= 1;
      assert (m + E.Run(blk, count))[x] == (free0 + NonZero(arr[first..p]))[x];
    }
  }

  lemma RunOne(nr: nat)
    ensures E.Run(nr, 1) == multiset{nr} && E.Run(nr, 0) == multiset{}
  {
    assert E.Run(nr, 0) == multiset{};
  }

  lemma RunNext(blk: nat, count: nat)
    ensures E.Run(blk, count + 1) == E.Run(blk, count) + multiset{blk + count}
  {
  }

  lemma ZeroedTwice(s: seq<nat>, a: nat, b: nat, c: nat)
    requires a <= b <= c <= |s|
    ensures Zeroed(Zeroed(s, a, b), b, c) == Zeroed(s, a, c)
  {
  }
}
