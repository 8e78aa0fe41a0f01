/**
 A file the migration gets wrong: for every block size there is one with a run of more than
 32768 contiguous blocks.
 */
module LongRuns {
  import opened Extents
  import opened ExtentTrees
  import opened Inodes
  import opened MigrateFile
  import opened Migration
  import I = IndirectTree
  import F = IndirectFile

  /** The physical block of logical block 0. */
  const FIRST: nat := 1000

  /** Data blocks from p on. */
  ghost predicate Leaves(bs: seq<I.Branch>, p: nat) {
    forall i :: 0 <= i < |bs| ==> bs[i] == I.Data(p + i)
  }

  function Row(i: nat, P: nat): nat {
    i * P
  }

  /** An indirect block for the data blocks from p on. */
  ghost predicate IsRow(b: I.Branch, x: nat, p: nat, P: nat) {
    b.Node? && b.blk == x && |b.kids| == P && Leaves(b.kids, p)
  }

  /** Indirect blocks from x on, for the data blocks from p on. */
  ghost predicate Rows(bs: seq<I.Branch>, x: nat, p: nat, P: nat) {
    forall i :: 0 <= i < |bs| ==> IsRow(bs[i], x + i, p + Row(i, P), P)
  }

  /** The first indirect block, behind all data blocks. */
  function Above(P: nat): nat {
    FIRST + I.NDIR + P + Row(P, P)
  }

  /** Direct, single and double indirect blocks all in use, one data block after the other. */
  ghost predicate Solid(tops: seq<I.Branch>, P: nat) {
    && |tops| == I.N_BLOCKS && Leaves(tops[..I.NDIR], FIRST)
    && IsRow(tops[I.IND], Above(P), FIRST + I.NDIR, P)
    && IsDouble(tops[I.DIND], P)
    && tops[I.TIND] == I.Hole
  }

  ghost predicate IsDouble(b: I.Branch, P: nat) {
    b.Node? && b.blk == Above(P) + 1 && |b.kids| == P && Rows(b.kids, Above(P) + 2, FIRST + I.NDIR + P, P)
  }

  // ----- its blocks ----------------------------------------------------------------------------

  function One(p: nat, n: nat, y: nat): nat {
    if p <= y < p + n then 1 else 0
  }

  /** How often block y occurs among the blocks of the branches. */
  lemma {:induction false} LeavesCount(bs: seq<I.Branch>, p: nat, y: nat)
    requires Leaves(bs, p)
    ensures I.BlocksOf(bs)[y] == One(p, |bs|, y)
  {
    if bs != [] {
      var n := |bs| - 1;
      LeavesCount(bs[..n], p, y);
      I.BlocksSplit(bs, n);
      assert bs[n + 1..] == [];
    }
  }

  lemma RowNext(n: nat, P: nat)
    ensures Row(n + 1, P) == Row(n, P) + P
  {
  }

  lemma RowCount(b: I.Branch, x: nat, p: nat, P: nat, y: nat)
    requires IsRow(b, x, p, P)
    ensures I.Blocks(b)[y] == One(x, 1, y) + One(p, P, y)
  {
    LeavesCount(b.kids, p, y);
  }

  lemma {:induction false} RowsCount(bs: seq<I.Branch>, x: nat, p: nat, P: nat, y: nat)
    requires Rows(bs, x, p, P)
    ensures I.BlocksOf(bs)[y] == One(x, |bs|, y) + One(p, Row(|bs|, P), y)
  {
    if bs != [] {
      var n := |bs| - 1;
      RowsCount(bs[..n], x, p, P, y);
      RowCount(bs[n], x + n, p + Row(n, P), P, y);
      RowNext(n, P);
      I.BlocksSplit(bs, n);
      assert bs[n + 1..] == [];
    }
  }

  /** Each once: the data blocks, and behind them the indirect blocks. */
  lemma SolidCount(tops: seq<I.Branch>, P: nat, y: nat)
    requires Solid(tops, P)
    ensures I.BlocksOf(tops)[y] == One(FIRST, I.NDIR + P + Row(P, P), y) + One(Above(P), P + 2, y)
  {
    var a, one, two := Above(P), tops[I.IND], tops[I.DIND];
    I.BlocksCut(tops, I.NDIR);
    assert tops[I.NDIR..] == [one, two, I.Hole];
    LastThree(one, two);
    LeavesCount(tops[..I.NDIR], FIRST, y);
    RowCount(one, a, FIRST + I.NDIR, P, y);
    RowsCount(two.kids, a + 2, FIRST + I.NDIR + P, P, y);
  }

  lemma LastThree(one: I.Branch, two: I.Branch)
    ensures I.BlocksOf([one, two, I.Hole]) == I.Blocks(one) + I.Blocks(two)
  {
    var s := [one, two, I.Hole];
    assert s[1..] == [two, I.Hole] && s[1..][1..] == [I.Hole];
    I.BlocksOne(I.Hole);
  }

  lemma SolidClean(tops: seq<I.Branch>, P: nat)
    requires Solid(tops, P)
    ensures Clean(I.BlocksOf(tops))
  {
    forall y: nat ensures I.BlocksOf(tops)[y] <= 1 && (y in I.BlocksOf(tops) ==> y > ROOT_CAP) {
      SolidCount(tops, P, y);
    }
  }

  // ----- its mapping ---------------------------------------------------------------------------

  /** Logical block b lies at FIRST + b. */
  lemma SolidGet(src: F.IndFile, b: nat)
    requires src.P > 0 && Solid(src.tops, src.P) && b < I.NDIR + src.P + src.P * src.P
    ensures src.Get(b) == FIRST + b
  {
    var P := src.P;
    if b < I.NDIR {
      assert src.tops[b] == src.tops[..I.NDIR][b];
    } else if b < I.NDIR + P {
      FollowRow(src.tops[I.IND], Above(P), FIRST + I.NDIR, P, b - I.NDIR);
    } else {
      I.TwoDigits(b - I.NDIR - P, P);
      FollowDouble(src.tops[I.DIND], P, (b - I.NDIR - P) / P, (b - I.NDIR - P) % P);
    }
  }

  lemma FollowRow(b: I.Branch, x: nat, p: nat, P: nat, i: nat)
    requires IsRow(b, x, p, P) && i < P
    ensures I.Follow(b, [i]) == p + i
  {
    assert [i][1..] == [] && b.kids[i] == I.Data(p + i);
    assert [i][0] == i;
  }

  lemma FollowDouble(b: I.Branch, P: nat, i: nat, j: nat)
    requires IsDouble(b, P) && i < P && j < P
    ensures I.Follow(b, [i, j]) == FIRST + I.NDIR + P + I.Pair(P, i, j)
  {
    assert [i, j][1..] == [j] && [i, j][0] == i;
    assert IsRow(b.kids[i], Above(P) + 2 + i, FIRST + I.NDIR + P + Row(i, P), P);
    FollowRow(b.kids[i], Above(P) + 2 + i, FIRST + I.NDIR + P + Row(i, P), P, j);
  }

  // ----- on disk -------------------------------------------------------------------------------

  function Numbers(p: nat, n: nat): (s: seq<nat>)
    ensures |s| == n && forall i :: 0 <= i < n ==> s[i] == p + i
  {
    seq(n, i requires 0 <= i < n => p + i)
  }

  /** What the indirect block x lists. */
  function Listed(x: nat, P: nat): seq<nat> {
    if x <= Above(P) then Numbers(FIRST + I.NDIR, P)
    else if x == Above(P) + 1 then Numbers(Above(P) + 2, P)
    else Numbers(FIRST + I.NDIR + P + Row(x - Above(P) - 2, P), P)
  }

  function SolidDisk(P: nat): (d: F.Disk)
    ensures forall x: nat :: InRun(Above(P), P + 2, x) ==> x in d && d[x] == Listed(x, P)
  {
    var a := Above(P);
    map x: nat | a <= x < a + P + 2 && InRun(a, P + 2, x) :: Listed(x, P)
  }

  lemma OnDisk(P: nat, x: nat)
    requires Above(P) <= x < Above(P) + P + 2
    ensures x in SolidDisk(P) && SolidDisk(P)[x] == Listed(x, P)
  {
    assert InRun(Above(P), P + 2, x);
  }

  lemma HeldRow(d: F.Disk, b: I.Branch, x: nat, p: nat, P: nat)
    requires IsRow(b, x, p, P) && p > 0 && x > 0 && x in d && d[x] == Numbers(p, P)
    ensures F.Held(d, b, P) && I.Uniform(b, 1, P)
  {
    forall i | 0 <= i < P ensures d[x][i] == I.Ptr(b.kids[i]) && F.Held(d, b.kids[i], P) && I.Uniform(b.kids[i], 0, P) {
      assert b.kids[i] == I.Data(p + i);
    }
  }

  lemma HeldDouble(d: F.Disk, b: I.Branch, P: nat)
    requires IsDouble(b, P) && d == SolidDisk(P)
    ensures F.Held(d, b, P) && I.Uniform(b, 2, P)
  {
    OnDisk(P, Above(P) + 1);
    forall i | 0 <= i < P
      ensures d[b.blk][i] == I.Ptr(b.kids[i]) && F.Held(d, b.kids[i], P) && I.Uniform(b.kids[i], 1, P)
    {
      assert IsRow(b.kids[i], Above(P) + 2 + i, FIRST + I.NDIR + P + Row(i, P), P);
      OnDisk(P, Above(P) + 2 + i);
      HeldRow(d, b.kids[i], Above(P) + 2 + i, FIRST + I.NDIR + P + Row(i, P), P);
    }
  }

  /** A file with direct, single and double indirect blocks all in use. */
  method SolidFile(P: nat) returns (src: F.IndFile)
    requires P > I.NDIR
    ensures fresh(src) && src.P == P && src.Stored() && Solid(src.tops, P) && src.free == {}
  {
    src := new F.IndFile(P, {});
    src.idata := Numbers(FIRST, I.NDIR) + [Above(P), Above(P) + 1, 0];
    src.disk := SolidDisk(P);
    ghost var rows := seq(P, i requires 0 <= i < P =>
      I.Node(Above(P) + 2 + i, Data(FIRST + I.NDIR + P + Row(i, P), P)));
    ghost var one, two := I.Node(Above(P), Data(FIRST + I.NDIR, P)), I.Node(Above(P) + 1, rows);
    src.tops := Data(FIRST, I.NDIR) + [one, two, I.Hole];
    assert src.tops[..I.NDIR] == Data(FIRST, I.NDIR);
    OnDisk(P, Above(P));
    HeldRow(src.disk, one, Above(P), FIRST + I.NDIR, P);
    HeldDouble(src.disk, two, P);
  }

  ghost function Data(p: nat, n: nat): (s: seq<I.Branch>)
    ensures |s| == n && Leaves(s, p)
  {
    seq(n, i requires 0 <= i < n => I.Data(p + i))
  }

  /**
   With 256 to 16384 pointers to a block, that is, with every block size from 1 to 64 KiB, there
   is a file that meets all requirements of the migration and has a run that is too long.
   */
  method TooLongFile(P: nat) returns (src: F.IndFile)
    requires 256 <= P <= 16384
    ensures fresh(src) && src.P == P && src.Stored() && InReach(src)
    ensures Clean(I.BlocksOf(src.tops) + multiset(src.free)) && LongRun(src)
  {
    src := SolidFile(P);
    SolidClean(src.tops, P);
    Sizes(P);
    assert I.BlocksOf(src.tops) + multiset(src.free) == I.BlocksOf(src.tops);
    forall x: nat | x <= EXT_INIT_MAX_LEN ensures src.Get(x) == FIRST + x {
      SolidGet(src, x);
    }
    assert RunFrom(src, 0);
    forall b: nat | src.Get(b) != 0 ensures b < EXT_MAX_BLOCKS {
      SolidEnd(src, b);
    }
  }

  /** Nothing is mapped behind the double indirect blocks. */
  lemma SolidEnd(src: F.IndFile, b: nat)
    requires src.P > 0 && Solid(src.tops, src.P) && src.Get(b) != 0
    ensures b < I.NDIR + src.P + src.P * src.P
  {
    I.PathThere(src.P, b);
  }

  lemma Sizes(P: nat)
    requires 256 <= P <= 16384
    ensures EXT_INIT_MAX_LEN < P * P && I.NDIR + P + P * P <= EXT_MAX_BLOCKS
  {
    TimesAtMost(256, P, P);
    TimesAtMost(P, 16384, P);
  }

  lemma TimesAtMost(a: nat, b: nat, q: nat)
    requires a <= b
    ensures q * a <= q * b
  {
    assert q * b == q * a + q * (b - a);
  }
}
