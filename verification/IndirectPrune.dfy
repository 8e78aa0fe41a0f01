/**
 Removing part of an indirect branch: the branch as a value along a path of offsets, and the
 methods that free a stretch of pointers of one block, or a whole branch.
 */
module IndirectPrune {
  import opened IndirectTree
  import opened IndirectFile

  // ----- along a path --------------------------------------------------------------------

  ghost predicate Reaches(b: Branch, offs: seq<nat>, l: nat) {
    l == 0 || (b.Node? && offs != [] && offs[0] < |b.kids| && Reaches(b.kids[offs[0]], offs[1..], l - 1))
  }

  /** What hangs on b after l offsets. */
  ghost function Sub(b: Branch, offs: seq<nat>, l: nat): Branch
    requires Reaches(b, offs, l)
  {
    if l == 0 then b else Sub(b.kids[offs[0]], offs[1..], l - 1)
  }

  lemma {:induction false} SubNext(b: Branch, offs: seq<nat>, l: nat)
    requires Reaches(b, offs, l) && l < |offs|
    requires Sub(b, offs, l).Node? && offs[l] < |Sub(b, offs, l).kids|
    ensures Reaches(b, offs, l + 1) && Sub(b, offs, l + 1) == Sub(b, offs, l).kids[offs[l]]
  {
    if l > 0 {
      SubNext(b.kids[offs[0]], offs[1..], l - 1);
    } else {
      assert Reaches(b.kids[offs[0]], offs[1..], 0);
    }
  }

  lemma {:induction false} SubHeld(disk: Disk, b: Branch, offs: seq<nat>, l: nat, d: nat, P: nat)
    requires Reaches(b, offs, l) && Held(disk, b, P) && Uniform(b, d, P)
    ensures l <= d && Held(disk, Sub(b, offs, l), P) && Uniform(Sub(b, offs, l), d - l, P)
  {
    if l > 0 {
      SubHeld(disk, b.kids[offs[0]], offs[1..], l - 1, d - 1, P);
    }
  }

  lemma {:induction false} SubBlocks(b: Branch, offs: seq<nat>, l: nat)
    requires Reaches(b, offs, l)
    ensures Blocks(Sub(b, offs, l)) <= Blocks(b)
  {
    if l > 0 {
      SubBlocks(b.kids[offs[0]], offs[1..], l - 1);
      KidBlocks(b.kids, offs[0]);
    }
  }

  /** The path exists down to level p with a dead rest: stated at the end of the path. */
  lemma {:induction false} CutAtSub(b: Branch, offs: seq<nat>, p: nat)
    requires Reaches(b, offs, p) && p <= |offs| && Dead(Sub(b, offs, p), offs[p..])
    ensures CutAt(b, offs, p)
  {
    if p > 0 {
      assert offs[1..][p - 1..] == offs[p..];
      CutAtSub(b.kids[offs[0]], offs[1..], p - 1);
    } else {
      assert offs[0..] == offs;
    }
  }

  // ----- erasing pointers ----------------------------------------------------------------

  ghost function HolesIn(kids: seq<Branch>, from: nat, to: nat): (r: seq<Branch>)
    ensures |r| == |kids| && forall i :: 0 <= i < |kids| ==> r[i] == if from <= i < to then Hole else kids[i]
  {
    seq(|kids|, i requires 0 <= i < |kids| => if from <= i < to then Hole else kids[i])
  }

  /** b without what hangs on the pointers from..to-1 of the block at level l of the path. */
  ghost function Erase(b: Branch, offs: seq<nat>, l: nat, from: nat, to: nat): Branch
    requires Reaches(b, offs, l)
  {
    if l > 0 then b.(kids := b.kids[offs[0] := Erase(b.kids[offs[0]], offs[1..], l - 1, from, to)])
    else if b.Node? then b.(kids := HolesIn(b.kids, from, to)) else b
  }

  /** b with the cut at `offs` down to level p carried out from level l on. */
  ghost function ChopFrom(b: Branch, offs: seq<nat>, p: nat, l: nat): Branch
    requires l <= p && Reaches(b, offs, l)
  {
    if l > 0 then b.(kids := b.kids[offs[0] := ChopFrom(b.kids[offs[0]], offs[1..], p - 1, l - 1)])
    else Chop(b, offs, p)
  }

  lemma {:induction false} CutReaches(b: Branch, offs: seq<nat>, p: nat, l: nat)
    requires l <= p && CutAt(b, offs, p)
    ensures Reaches(b, offs, l) && (l < p ==> Sub(b, offs, l).Node?)
    decreases l
  {
    if l > 0 {
      CutReaches(b.kids[offs[0]], offs[1..], p - 1, l - 1);
    }
  }

  /** Cutting from level l on leaves the blocks above in place. */
  lemma {:induction false} ChopFromPath(b: Branch, offs: seq<nat>, p: nat, l: nat)
    requires l < p && CutAt(b, offs, p)
    ensures Reaches(b, offs, l) && Reaches(b, offs, l + 1)
    ensures var c := ChopFrom(b, offs, p, l + 1);
      Reaches(c, offs, l) && Sub(c, offs, l).Node? && Sub(b, offs, l).Node?
        && Sub(c, offs, l).blk == Sub(b, offs, l).blk
    decreases l
  {
    CutReaches(b, offs, p, l);
    CutReaches(b, offs, p, l + 1);
    if l > 0 {
      ChopFromPath(b.kids[offs[0]], offs[1..], p - 1, l - 1);
    }
  }

  /** The cut one level further up: erase what follows the path there. */
  lemma {:induction false} EraseAfter(b: Branch, offs: seq<nat>, p: nat, l: nat, P: nat)
    requires l < p && CutAt(b, offs, p) && l < |offs| && offs[l] < P
    requires Reaches(b, offs, l) && Sub(b, offs, l).Node? && |Sub(b, offs, l).kids| == P
    ensures Reaches(b, offs, l + 1) && Reaches(ChopFrom(b, offs, p, l + 1), offs, l)
    ensures Erase(ChopFrom(b, offs, p, l + 1), offs, l, offs[l] + 1, P) == ChopFrom(b, offs, p, l)
    decreases l
  {
    ChopFromPath(b, offs, p, l);
    if l > 0 {
      EraseAfter(b.kids[offs[0]], offs[1..], p - 1, l - 1, P);
    } else {
      EraseAfterHere(b, offs, p, P);
    }
  }

  lemma EraseAfterHere(b: Branch, offs: seq<nat>, p: nat, P: nat)
    requires 0 < p && CutAt(b, offs, p) && |b.kids| == P && Reaches(b, offs, 1)
    ensures Erase(ChopFrom(b, offs, p, 1), offs, 0, offs[0] + 1, P) == ChopFrom(b, offs, p, 0)
  {
    var o := offs[0];
    var k := Chop(b.kids[o], offs[1..], p - 1);
    assert ChopFrom(b.kids[o], offs[1..], p - 1, 0) == k;
    assert HolesIn(b.kids[o := k], o + 1, P) == b.kids[..o] + [k] + Holes(P - o - 1);
  }

  /** Erasing the pointer at the end of the path together with what follows it. */
  lemma {:induction false} EraseTail(b: Branch, offs: seq<nat>, l: nat, P: nat)
    requires CutAt(b, offs, l + 1) && l < |offs| && offs[l] < P
    requires Reaches(b, offs, l) && Sub(b, offs, l).Node? && |Sub(b, offs, l).kids| == P
    ensures Erase(b, offs, l, offs[l], P) == ChopFrom(b, offs, l + 1, l)
  {
    if l > 0 {
      EraseTail(b.kids[offs[0]], offs[1..], l - 1, P);
    } else {
      assert Chop(b.kids[offs[0]], offs[1..], 0) == Hole;
      assert HolesIn(b.kids, offs[0], P) == b.kids[..offs[0]] + [Hole] + Holes(P - offs[0] - 1);
    }
  }

  /** Erasing just that pointer. */
  lemma {:induction false} EraseOne(b: Branch, offs: seq<nat>, l: nat)
    requires CutAt(b, offs, l + 1) && l < |offs| && Reaches(b, offs, l)
    ensures Reaches(b, offs, l + 1) && Erase(b, offs, l, offs[l], offs[l] + 1) == ChopFrom(b, offs, l + 1, l + 1)
  {
    CutReaches(b, offs, l + 1, l + 1);
    if l > 0 {
      EraseOne(b.kids[offs[0]], offs[1..], l - 1);
    } else {
      assert ChopFrom(b.kids[offs[0]], offs[1..], 0, 0) == Hole;
      assert HolesIn(b.kids, offs[0], offs[0] + 1) == b.kids[offs[0] := Hole];
    }
  }

  /** Nothing to erase where nothing hangs. */
  lemma {:induction false} EraseNone(b: Branch, offs: seq<nat>, p: nat)
    requires Reaches(b, offs, p) && Sub(b, offs, p).Hole?
    ensures ChopFrom(b, offs, p, p) == b
  {
    if p > 0 {
      EraseNone(b.kids[offs[0]], offs[1..], p - 1);
      assert b.kids[offs[0] := b.kids[offs[0]]] == b.kids;
    }
  }

  lemma {:induction false} EraseUniform(b: Branch, offs: seq<nat>, l: nat, from: nat, to: nat, d: nat, P: nat)
    requires Reaches(b, offs, l) && Uniform(b, d, P)
    ensures Uniform(Erase(b, offs, l, from, to), d, P) && Ptr(Erase(b, offs, l, from, to)) == Ptr(b)
  {
    if l > 0 {
      EraseUniform(b.kids[offs[0]], offs[1..], l - 1, from, to, d - 1, P);
    }
  }

  lemma BlocksPut(s: seq<Branch>, i: nat, b: Branch)
    requires i < |s|
    ensures BlocksOf(s[i := b]) + Blocks(s[i]) == BlocksOf(s) + Blocks(b)
  {
    BlocksSplit(s, i);
    BlocksSplit(s[i := b], i);
    assert s[i := b][..i] == s[..i] && s[i := b][i + 1..] == s[i + 1..];
  }

  lemma NoBlocks(n: nat)
    ensures BlocksOf(Holes(n)) == multiset{}
  {
    if n > 0 {
      NoBlocks(n - 1);
      assert Holes(n)[1..] == Holes(n - 1);
    }
  }

  lemma HolesSlices(kids: seq<Branch>, from: nat, to: nat)
    requires from <= to <= |kids|
    ensures HolesIn(kids, from, to)[..from] == kids[..from] && HolesIn(kids, from, to)[to..] == kids[to..]
    ensures HolesIn(kids, from, to)[from..to] == Holes(to - from)
  {
  }

  lemma HolesBlocks(kids: seq<Branch>, from: nat, to: nat)
    requires from <= to <= |kids|
    ensures BlocksOf(HolesIn(kids, from, to)) + BlocksOf(kids[from..to]) == BlocksOf(kids)
  {
    ThreeParts(kids, from, to);
    ThreeParts(HolesIn(kids, from, to), from, to);
    HolesSlices(kids, from, to);
    NoBlocks(to - from);
    NoMiddle(BlocksOf(kids[..from]), BlocksOf(kids[from..to]), BlocksOf(kids[to..]));
  }

  lemma NoMiddle(a: multiset<nat>, m: multiset<nat>, c: multiset<nat>)
    ensures (a + multiset{} + c) + m == a + m + c
  {
  }

  lemma ThreeParts(s: seq<Branch>, from: nat, to: nat)
    requires from <= to <= |s|
    ensures BlocksOf(s) == BlocksOf(s[..from]) + BlocksOf(s[from..to]) + BlocksOf(s[to..])
  {
    BlocksCut(s, to);
    BlocksCut(s[..to], from);
    assert s[..to][..from] == s[..from] && s[..to][from..] == s[from..to];
  }

  /** What erasing takes away is exactly what hung on the erased pointers. */
  lemma {:induction false} EraseBlocks(b: Branch, offs: seq<nat>, l: nat, from: nat, to: nat)
    requires Reaches(b, offs, l) && Sub(b, offs, l).Node? && from <= to <= |Sub(b, offs, l).kids|
    ensures Blocks(Erase(b, offs, l, from, to)) + BlocksOf(Sub(b, offs, l).kids[from..to]) == Blocks(b)
  {
    if l > 0 {
      var k, gone := Erase(b.kids[offs[0]], offs[1..], l - 1, from, to), BlocksOf(Sub(b, offs, l).kids[from..to]);
      EraseBlocks(b.kids[offs[0]], offs[1..], l - 1, from, to);
      BlocksPut(b.kids, offs[0], k);
      Shift(BlocksOf(b.kids[offs[0] := k]), Blocks(k), gone, BlocksOf(b.kids));
      AddAside(multiset{b.blk}, BlocksOf(b.kids[offs[0] := k]), gone);
    } else {
      HolesBlocks(b.kids, from, to);
      AddAside(multiset{b.blk}, BlocksOf(HolesIn(b.kids, from, to)), BlocksOf(b.kids[from..to]));
    }
  }

  lemma AddAside(a: multiset<nat>, b: multiset<nat>, c: multiset<nat>)
    ensures (a + b) + c == a + (b + c)
  {
  }

  /** Different children share no block, nor with their parent. */
  lemma KidsApart(nr: nat, kids: seq<Branch>, i: nat, j: nat)
    requires i < |kids| && j < |kids| && i != j && NoDup(multiset{nr} + BlocksOf(kids))
    ensures nr !in Blocks(kids[i]) && forall x :: x in Blocks(kids[i]) ==> x !in Blocks(kids[j])
  {
    var m := multiset{nr} + BlocksOf(kids);
    BlocksSplit(kids, i);
    forall x | x in Blocks(kids[i]) ensures x != nr && x !in Blocks(kids[j]) {
      assert m[x] <= 1;
      if j < i {
        KidBlocks(kids[..i], j);
      } else {
        KidBlocks(kids[i + 1..], j - i - 1);
      }
    }
  }

  lemma RangeApart(nr: nat, kids: seq<Branch>, i: nat, from: nat, to: nat)
    requires from <= to <= |kids| && i < |kids| && !(from <= i < to) && NoDup(multiset{nr} + BlocksOf(kids))
    ensures forall x :: x in Blocks(kids[i]) ==> x != nr && x !in BlocksOf(kids[from..to])
  {
    var a, m, c := BlocksOf(kids[..from]), BlocksOf(kids[from..to]), BlocksOf(kids[to..]);
    ThreeParts(kids, from, to);
    if i < from {
      KidBlocks(kids[..from], i);
    } else {
      KidBlocks(kids[to..], i - to);
    }
    PartsApart(nr, a, m, c, BlocksOf(kids));
  }

  lemma PartsApart(nr: nat, a: multiset<nat>, m: multiset<nat>, c: multiset<nat>, all: multiset<nat>)
    requires all == a + m + c && NoDup(multiset{nr} + all)
    ensures forall x :: x in a || x in c ==> x != nr && x !in m
  {
    forall x | x in a || x in c ensures x != nr && x !in m {
      assert (multiset{nr} + all)[x] <= 1;
    }
  }

  /** The blocks touched by erasing: the block of the pointers and all that hung on them. */
  ghost function Touched(b: Branch, from: nat, to: nat): multiset<nat>
    requires b.Node? && from <= to <= |b.kids|
  {
    multiset{b.blk} + BlocksOf(b.kids[from..to])
  }

  lemma TouchedWithin(b: Branch, from: nat, to: nat)
    requires b.Node? && from <= to <= |b.kids|
    ensures Touched(b, from, to) <= Blocks(b)
  {
    RangePart(b.kids, from, to);
  }

  /** After the pointers were zeroed and their branches released the disk holds the erased branch. */
  lemma {:induction false} EraseHeld(disk: Disk, disk': Disk, b: Branch, offs: seq<nat>, l: nat, from: nat, to: nat,
                                     d: nat, P: nat)
    requires Reaches(b, offs, l) && Held(disk, b, P) && Uniform(b, d, P) && NoDup(Blocks(b))
    requires Sub(b, offs, l).Node? && from <= to <= P == |Sub(b, offs, l).kids|
    requires Sub(b, offs, l).blk in disk && Sub(b, offs, l).blk in disk'
    requires disk'[Sub(b, offs, l).blk] == Zeroed(disk[Sub(b, offs, l).blk], from, to)
    requires Kept(disk, disk', Touched(Sub(b, offs, l), from, to))
    ensures Held(disk', Erase(b, offs, l, from, to), P)
  {
    if l > 0 {
      EraseHeldBelow(disk, disk', b, offs, l, from, to, d, P);
      NoDupPart(Blocks(b.kids[offs[0]]), Blocks(b)) by { KidBlocks(b.kids, offs[0]); }
      EraseHeld(disk, disk', b.kids[offs[0]], offs[1..], l - 1, from, to, d - 1, P);
      EraseUniform(b.kids[offs[0]], offs[1..], l - 1, from, to, d - 1, P);
    } else {
      forall i | 0 <= i < P && !(from <= i < to) ensures Held(disk', b.kids[i], P) {
        RangeApart(b.blk, b.kids, i, from, to);
        HeldFrame(disk, disk', b.kids[i], P);
      }
    }
  }

  /** Off the path nothing is touched. */
  lemma EraseHeldBelow(disk: Disk, disk': Disk, b: Branch, offs: seq<nat>, l: nat, from: nat, to: nat, d: nat, P: nat)
    requires l > 0 && Reaches(b, offs, l) && Held(disk, b, P) && Uniform(b, d, P) && NoDup(Blocks(b))
    requires Sub(b, offs, l).Node? && from <= to <= P == |Sub(b, offs, l).kids|
    requires Kept(disk, disk', Touched(Sub(b, offs, l), from, to))
    ensures b.blk in disk' && disk'[b.blk] == disk[b.blk]
    ensures forall i :: 0 <= i < P && i != offs[0] ==> Held(disk', b.kids[i], P)
  {
    var k, t := b.kids[offs[0]], Touched(Sub(b, offs, l), from, to);
    SubBlocks(k, offs[1..], l - 1);
    TouchedWithin(Sub(b, offs, l), from, to);
    assert t <= Blocks(k);
    assert b.blk !in t by {
      KidBlocks(b.kids, offs[0]);
      assert Blocks(b)[b.blk] <= 1;
    }
    forall i | 0 <= i < P && i != offs[0] ensures Held(disk', b.kids[i], P) {
      KidsApart(b.blk, b.kids, i, offs[0]);
      HeldFrame(disk, disk', b.kids[i], P);
    }
  }

  // ----- on the inode --------------------------------------------------------------------

  lemma TopsApart(tops: seq<Branch>, i: nat, j: nat, rest: multiset<nat>)
    requires i < |tops| && j < |tops| && i != j && NoDup(BlocksOf(tops) + rest)
    ensures forall x :: x in Blocks(tops[i]) ==> x !in Blocks(tops[j])
  {
    var m := BlocksOf(tops) + rest;
    BlocksSplit(tops, i);
    if j < i {
      KidBlocks(tops[..i], j);
    } else {
      KidBlocks(tops[i + 1..], j - i - 1);
    }
    forall x | x in Blocks(tops[i]) ensures x !in Blocks(tops[j]) {
      assert m[x] <= 1;
    }
  }

  lemma TopNoDup(tops: seq<Branch>, i: nat, rest: multiset<nat>)
    requires i < |tops| && NoDup(BlocksOf(tops) + rest)
    ensures NoDup(Blocks(tops[i]) + rest) && NoDup(Blocks(tops[i]))
  {
    KidBlocks(tops, i);
    NoDupPart(Blocks(tops[i]) + rest, BlocksOf(tops) + rest);
    NoDupPart(Blocks(tops[i]), BlocksOf(tops) + rest);
  }

  /** Replacing one branch by a smaller one and freeing the difference loses no block. */
  lemma SameUniverse(tops: seq<Branch>, i: nat, b: Branch, gone: multiset<nat>, free0: multiset<nat>,
                     free1: multiset<nat>)
    requires i < |tops| && Blocks(b) + gone == Blocks(tops[i]) && free1 == free0 + gone
    ensures BlocksOf(tops[i := b]) + free1 == BlocksOf(tops) + free0
  {
    BlocksPut(tops, i, b);
    Shift(BlocksOf(tops[i := b]), Blocks(b), gone, BlocksOf(tops));
  }

  lemma Shift(x: multiset<nat>, b: multiset<nat>, gone: multiset<nat>, y: multiset<nat>)
    requires x + (b + gone) == y + b
    ensures x + gone == y
  {
    forall e ensures (x + gone)[e] == y[e] {
      assert (x + (b + gone))[e] == (y + b)[e];
    }
  }

  /** The other branches of the inode are not affected by changes within branch i. */
  lemma OthersHeld(disk: Disk, disk': Disk, tops: seq<Branch>, i: nat, m: multiset<nat>, rest: multiset<nat>, P: nat)
    requires i < |tops| && NoDup(BlocksOf(tops) + rest) && m <= Blocks(tops[i]) && Kept(disk, disk', m)
    requires forall j :: 0 <= j < |tops| ==> Held(disk, tops[j], P)
    ensures forall j :: 0 <= j < |tops| && j != i ==> Held(disk', tops[j], P)
  {
    forall j | 0 <= j < |tops| && j != i ensures Held(disk', tops[j], P) {
      TopsApart(tops, j, i, rest);
      HeldFrame(disk, disk', tops[j], P);
    }
  }

  lemma AllTops(f: IndFile)
    requires f.Stored()
    ensures forall j :: 0 <= j < N_BLOCKS ==> f.idata[j] == Ptr(f.tops[j]) && Uniform(f.tops[j], TopDepth(j), f.P)
    ensures forall j :: 0 <= j < N_BLOCKS ==> Held(f.disk, f.tops[j], f.P)
  {
    forall j | 0 <= j < N_BLOCKS
      ensures f.idata[j] == Ptr(f.tops[j]) && Uniform(f.tops[j], TopDepth(j), f.P) && Held(f.disk, f.tops[j], f.P)
    {
      assert f.TopOk(j);
    }
  }

  lemma TopsAgain(f: IndFile, tops0: seq<Branch>, i: nat)
    requires |f.idata| == N_BLOCKS == |tops0| == |f.tops| && i < N_BLOCKS && f.tops == tops0[i := f.tops[i]]
    requires forall j :: 0 <= j < N_BLOCKS && j != i ==>
      f.idata[j] == Ptr(tops0[j]) && Uniform(tops0[j], TopDepth(j), f.P) && Held(f.disk, tops0[j], f.P)
    requires f.TopOk(i)
    ensures f.Stored()
  {
    forall j | 0 <= j < N_BLOCKS ensures f.TopOk(j) {
      assert j != i ==> f.tops[j] == tops0[j];
    }
  }

  /** The state after branch i was replaced by b. */
  ghost predicate Replaced(f: IndFile, tops0: seq<Branch>, i: nat, b: Branch, u: multiset<nat>)
    requires i < |tops0|
    reads f
  {
    f.Valid() && f.tops == tops0[i := b] && f.Universe() == u
  }

  /**
   ext4_free_branches on the pointers from..to-1 of block bh, which lies at level l of the
   path in branch i: what hung on them is freed, the rest of the file is as before.
   */
  method Prune(f: IndFile, i: nat, ghost offs: seq<nat>, l: nat, bh: nat, from: nat, to: nat, depth: nat)
    requires f.Valid() && i < N_BLOCKS && Reaches(f.tops[i], offs, l) && Sub(f.tops[i], offs, l).Node?
    requires bh == Sub(f.tops[i], offs, l).blk && from <= to <= f.P && depth + l + 1 == TopDepth(i)
    modifies f`disk, f`free, f`tops
    ensures Replaced(f, old(f.tops), i, Erase(old(f.tops[i]), offs, l, from, to), old(f.Universe()))
  {
    ghost var b, free0: multiset<nat>, disk0, tops0 := f.tops[i], multiset(f.free), f.disk, f.tops;
    AllTops(f);
    PruneStart(disk0, tops0, i, offs, l, TopDepth(i), free0, f.P);
    f.FreeBranches(bh, from, to, depth, Sub(b, offs, l).kids);
    PruneEnd(disk0, f.disk, tops0, i, offs, l, from, to, free0, multiset(f.free), f.P);
    f.tops := f.tops[i := Erase(b, offs, l, from, to)];
    TopsAgain(f, tops0, i);
  }

  ghost predicate AllHeld(disk: Disk, tops: seq<Branch>, P: nat) {
    forall j :: 0 <= j < |tops| ==> Held(disk, tops[j], P)
  }

  lemma PruneStart(disk: Disk, tops: seq<Branch>, i: nat, offs: seq<nat>, l: nat, d: nat, free0: multiset<nat>, P: nat)
    requires i < |tops| && Uniform(tops[i], d, P) && Held(disk, tops[i], P)
    requires NoDup(BlocksOf(tops) + free0) && Reaches(tops[i], offs, l) && Sub(tops[i], offs, l).Node?
    ensures l < d && Lists(disk, Sub(tops[i], offs, l).blk, Sub(tops[i], offs, l).kids, P)
    ensures var kids := Sub(tops[i], offs, l).kids; |kids| == P && forall k :: 0 <= k < P ==>
      Uniform(kids[k], d - l - 1, P)
    ensures NoDup(Blocks(Sub(tops[i], offs, l)) + free0)
  {
    TopNoDup(tops, i, free0);
    SubHeld(disk, tops[i], offs, l, d, P);
    SubBlocks(tops[i], offs, l);
    NoDupPart(Blocks(Sub(tops[i], offs, l)) + free0, Blocks(tops[i]) + free0);
  }

  lemma PruneEnd(disk: Disk, disk': Disk, tops: seq<Branch>, i: nat, offs: seq<nat>, l: nat, from: nat, to: nat,
                 free0: multiset<nat>, free1: multiset<nat>, P: nat)
    requires i < |tops| == N_BLOCKS && Uniform(tops[i], TopDepth(i), P) && AllHeld(disk, tops, P)
    requires NoDup(BlocksOf(tops) + free0) && Reaches(tops[i], offs, l) && Sub(tops[i], offs, l).Node?
    requires from <= to <= P == |Sub(tops[i], offs, l).kids|
    requires Sub(tops[i], offs, l).blk in disk && Sub(tops[i], offs, l).blk in disk'
    requires disk'[Sub(tops[i], offs, l).blk] == Zeroed(disk[Sub(tops[i], offs, l).blk], from, to)
    requires Kept(disk, disk', Touched(Sub(tops[i], offs, l), from, to))
    requires free1 == free0 + BlocksOf(Sub(tops[i], offs, l).kids[from..to])
    ensures var e := Erase(tops[i], offs, l, from, to);
      Held(disk', e, P) && Uniform(e, TopDepth(i), P) && Ptr(e) == Ptr(tops[i])
      && BlocksOf(tops[i := e]) + free1 == BlocksOf(tops) + free0
    ensures forall j :: 0 <= j < |tops| && j != i ==> Held(disk', tops[j], P)
  {
    var b, nd, d := tops[i], Sub(tops[i], offs, l), TopDepth(i);
    TopNoDup(tops, i, free0);
    SubBlocks(b, offs, l);
    TouchedWithin(nd, from, to);
    EraseHeld(disk, disk', b, offs, l, from, to, d, P);
    EraseUniform(b, offs, l, from, to, d, P);
    EraseBlocks(b, offs, l, from, to);
    SameUniverse(tops, i, Erase(b, offs, l, from, to), BlocksOf(nd.kids[from..to]), free0, free1);
    OthersHeld(disk, disk', tops, i, Touched(nd, from, to), free0, P);
  }

  /**
   The single pointers of the inode: ext4_free_branches on a copy of i_data[i], and the
   pointer cleared afterwards.
   */
  method DropTop(f: IndFile, i: nat)
    requires f.Valid() && NDIR <= i < N_BLOCKS
    modifies f`disk, f`free, f`tops, f`idata
    ensures Replaced(f, old(f.tops), i, Hole, old(f.Universe()))
  {
    ghost var b, free0: multiset<nat>, disk0, tops0 := f.tops[i], multiset(f.free), f.disk, f.tops;
    AllTops(f);
    var nr := f.idata[i];
    if nr != 0 {
      TopNoDup(tops0, i, free0);
      f.FreeBranch(nr, TopDepth(i), b);
      f.idata := f.idata[i := 0];
      SameUniverse(tops0, i, Hole, Blocks(b), free0, multiset(f.free));
      OthersHeld(disk0, f.disk, tops0, i, Blocks(b), free0, f.P);
    } else {
      assert f.tops[i := Hole] == f.tops;
    }
    f.tops := f.tops[i := Hole];
    TopsAgain(f, tops0, i);
  }
}
