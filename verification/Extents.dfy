/**
 The on-disk extent record of ext4/ext4_extents.h and the logical map a run of
 extents stands for.

 Everything above this module (the B-tree, the status cache, migration) is
 specified by the function `LMap`: a finite map from logical block to the
 physical block behind it and to whether that block is still uninitialised.
 */
module Extents {

  /** One past the largest logical block (ee_block is 32 bits wide). */
  const EXT_MAX_BLOCKS: nat := 0xFFFF_FFFF

  /** Longest initialised extent; also the flag bit of ee_len. */
  const EXT_INIT_MAX_LEN: nat := 0x8000

  const EXT_UNINIT_MAX_LEN: nat := 0x7FFF

  /** `eeLen` is the raw 16-bit field: values above 0x8000 mean "uninitialised". */
  datatype Extent = Extent(block: nat, eeLen: nat, pblk: nat)

  datatype Mapping = Mapping(pblk: nat, uninit: bool)

  type LogicalMap = map<nat, Mapping>

  predicate IsUninit(e: Extent) {
    e.eeLen > EXT_INIT_MAX_LEN
  }

  function Len(e: Extent): nat {
    if e.eeLen <= EXT_INIT_MAX_LEN then e.eeLen else e.eeLen - EXT_INIT_MAX_LEN
  }

  function End(e: Extent): nat {
    e.block + Len(e)
  }

  function Min(a: nat, b: nat): nat {
    if a < b then a else b
  }

  function Max(a: nat, b: nat): nat {
    if a < b then b else a
  }

  predicate ExtentOk(e: Extent) {
    && 0 < Len(e)
    && e.eeLen <= 0xFFFF
    && End(e) <= EXT_MAX_BLOCKS
  }

  predicate Covers(e: Extent, b: nat) {
    e.block <= b < End(e)
  }

  function MapOf(e: Extent): (m: LogicalMap)
    ensures forall b :: b in m <==> Covers(e, b)
    ensures forall b :: b in m ==> b >= e.block && m[b] == Mapping(e.pblk + (b - e.block), IsUninit(e))
  {
    map b: nat | e.block <= b < End(e) && Covers(e, b) :: Mapping(e.pblk + (b - e.block), IsUninit(e))
  }

  /** The meaning of a left-to-right run of extents. */
  function LMap(s: seq<Extent>): LogicalMap {
    if s == [] then map[] else MapOf(s[0]) + LMap(s[1..])
  }

  ghost predicate Sorted(s: seq<Extent>) {
    && (forall i :: 0 <= i < |s| ==> ExtentOk(s[i]))
    && (forall i, j :: 0 <= i < j < |s| ==> End(s[i]) <= s[j].block)
  }

  /** The n blocks starting at p, as a multiset. */
  ghost function Run(p: nat, n: nat): multiset<nat> {
    if n == 0 then multiset{} else Run(p, n - 1) + multiset{p + n - 1}
  }

  predicate InRun(p: nat, n: nat, x: nat) {
    p <= x < p + n
  }

  lemma {:induction false} RunCount(p: nat, n: nat, x: nat)
    ensures Run(p, n)[x] == if InRun(p, n, x) then 1 else 0
  {
    if n > 0 {
      RunCount(p, n - 1, x);
    }
  }

  lemma RunSplitCount(p: nat, m: nat, n: nat, x: nat)
    ensures Run(p, m + n)[x] == Run(p, m)[x] + Run(p + m, n)[x]
  {
    RunCount(p, m + n, x);
    RunCount(p, m, x);
    RunCount(p + m, n, x);
  }

  lemma RunSplit(p: nat, m: nat, n: nat)
    ensures Run(p, m + n) == Run(p, m) + Run(p + m, n)
  {
    var u, a, b := Run(p, m + n), Run(p, m), Run(p + m, n);
    assert forall x: nat :: u[x] == a[x] + b[x] by {
      forall x: nat ensures u[x] == a[x] + b[x] {
        RunSplitCount(p, m, n, x);
      }
    }
    assert u == a + b;
  }

  /** The physical blocks of an extent, and of a run of extents, counted with multiplicity. */
  ghost function DataOf(e: Extent): multiset<nat> {
    Run(e.pblk, Len(e))
  }

  ghost function Data(s: seq<Extent>): multiset<nat> {
    if s == [] then multiset{} else DataOf(s[0]) + Data(s[1..])
  }

  lemma MapAssoc(a: LogicalMap, b: LogicalMap, c: LogicalMap)
    ensures (a + b) + c == a + (b + c)
  {
  }

  // ----- runs ------------------------------------------------------------

  lemma {:induction false} LMapAppend(a: seq<Extent>, b: seq<Extent>)
    ensures LMap(a + b) == LMap(a) + LMap(b)
  {
    if a == [] {
      assert a + b == b;
    } else {
      assert (a + b)[1..] == a[1..] + b;
      LMapAppend(a[1..], b);
      MapAssoc(MapOf(a[0]), LMap(a[1..]), LMap(b));
    }
  }

  lemma {:induction false} DataAppend(a: seq<Extent>, b: seq<Extent>)
    ensures Data(a + b) == Data(a) + Data(b)
  {
    if a == [] {
      assert a + b == b;
    } else {
      assert (a + b)[1..] == a[1..] + b;
      DataAppend(a[1..], b);
    }
  }

  lemma DataSingle(e: Extent)
    ensures Data([e]) == DataOf(e)
  {
    assert [e][1..] == [];
  }

  lemma LMapSingle(e: Extent)
    ensures LMap([e]) == MapOf(e)
  {
    assert [e][1..] == [];
  }

  /** A block is mapped exactly when some extent of the run covers it. */
  lemma {:induction false} LMapDomain(s: seq<Extent>, b: nat)
    ensures b in LMap(s) <==> exists i :: 0 <= i < |s| && Covers(s[i], b)
  {
    if s != [] {
      LMapDomain(s[1..], b);
      if exists i :: 0 <= i < |s[1..]| && Covers(s[1..][i], b) {
        var i :| 0 <= i < |s[1..]| && Covers(s[1..][i], b);
        assert Covers(s[i + 1], b);
      }
      if exists i :: 0 <= i < |s| && Covers(s[i], b) {
        var i :| 0 <= i < |s| && Covers(s[i], b);
        if i == 0 {
        } else {
          assert Covers(s[1..][i - 1], b);
        }
      }
    }
  }

  /** In a sorted run the covering extent alone decides the mapping. */
  lemma {:induction false} LMapAt(s: seq<Extent>, i: nat, b: nat)
    requires Sorted(s) && i < |s| && Covers(s[i], b)
    ensures b in LMap(s) && LMap(s)[b] == MapOf(s[i])[b]
  {
    if i == 0 {
      LMapDomain(s[1..], b);
      forall k | 0 <= k < |s[1..]| ensures !Covers(s[1..][k], b) {
        assert s[1..][k] == s[k + 1];
      }
    } else {
      SortedSlice(s, 1, |s|);
      assert s[1..][i - 1] == s[i];
      LMapAt(s[1..], i - 1, b);
    }
  }

  lemma SortedSlice(s: seq<Extent>, i: nat, j: nat)
    requires Sorted(s) && i <= j <= |s|
    ensures Sorted(s[i..j])
  {
  }

  ghost predicate Meet(a: seq<Extent>, b: seq<Extent>) {
    a != [] && b != [] ==> End(a[|a| - 1]) <= b[0].block
  }

  /** Two sorted runs that meet without overlap form a sorted run, and back. */
  lemma SortedJoin(a: seq<Extent>, b: seq<Extent>)
    requires Sorted(a) && Sorted(b) && Meet(a, b)
    ensures Sorted(a + b)
  {
    var s := a + b;
    forall i, j | 0 <= i < j < |s| ensures End(s[i]) <= s[j].block {
      if i < |a| <= j {
        assert i < |a| - 1 ==> End(a[i]) <= a[|a| - 1].block;
        assert 0 < j - |a| ==> End(b[0]) <= b[j - |a|].block;
      }
    }
  }

  lemma SortedParts(a: seq<Extent>, b: seq<Extent>)
    requires Sorted(a + b)
    ensures Sorted(a) && Sorted(b) && Meet(a, b)
    ensures forall i, j :: 0 <= i < |a| && 0 <= j < |b| ==> End(a[i]) <= b[j].block
  {
    var s := a + b;
    assert forall i :: 0 <= i < |a| ==> a[i] == s[i];
    assert forall j :: 0 <= j < |b| ==> b[j] == s[|a| + j];
  }

  lemma SortedPair(a: seq<Extent>, b: seq<Extent>, e: Extent, f: Extent)
    requires Sorted(a + b) && e in a && f in b
    ensures End(e) <= f.block && e.block < f.block
  {
    SortedParts(a, b);
    var i :| 0 <= i < |a| && a[i] == e;
    assert ExtentOk(a[i]);
  }

  /** An extent inside a sorted run lies strictly between its neighbours. */
  lemma SortedNext(l: seq<Extent>, e: Extent, r: seq<Extent>)
    requires Sorted(l + [e] + r)
    ensures Sorted(l) && Sorted(r) && ExtentOk(e)
    ensures l != [] ==> End(l[|l| - 1]) <= e.block && l[|l| - 1].block < e.block
    ensures r != [] ==> End(e) <= r[0].block && e.block < r[0].block
  {
    var s := l + [e] + r;
    SortedParts(l + [e], r);
    SortedParts(l, [e]);
    assert s[|l|] == e;
    if l != [] {
      assert s[|l| - 1] == l[|l| - 1] && ExtentOk(s[|l| - 1]);
    }
    if r != [] {
      assert s[|l| + 1] == r[0];
    }
  }

  /** Maps with disjoint domains merge in either order. */
  lemma MapSwap(a: LogicalMap, b: LogicalMap)
    requires a.Keys !! b.Keys
    ensures a + b == b + a
  {
  }

  /** Inserting one extent at its place overrides the map by exactly that extent. */
  lemma LMapInsert(l: seq<Extent>, e: Extent, r: seq<Extent>)
    requires Sorted(l + [e] + r)
    ensures LMap(l + [e] + r) == LMap(l + r) + MapOf(e)
    ensures MapOf(e).Keys !! LMap(l + r).Keys
  {
    LMapAppend(l + [e], r);
    LMapAppend(l, [e]);
    LMapAppend(l, r);
    LMapSingle(e);
    InsertDisjoint(l, e, r);
    MapAssoc(LMap(l), MapOf(e), LMap(r));
    MapSwap(MapOf(e), LMap(r));
    MapAssoc(LMap(l), LMap(r), MapOf(e));
  }

  lemma InsertDisjoint(l: seq<Extent>, e: Extent, r: seq<Extent>)
    requires Sorted(l + [e] + r)
    ensures MapOf(e).Keys !! LMap(l).Keys
    ensures MapOf(e).Keys !! LMap(r).Keys
  {
    SortedParts(l + [e], r);
    SortedParts(l, [e]);
    assert (l + [e])[|l|] == e;
    forall b | b in MapOf(e) ensures b !in LMap(r) && b !in LMap(l) {
      LMapDomain(r, b);
      LMapDomain(l, b);
      assert [e][0] == e;
    }
  }

  lemma DataInsert(l: seq<Extent>, e: Extent, r: seq<Extent>)
    ensures Data(l + [e] + r) == Data(l + r) + DataOf(e)
  {
    DataAppend(l + [e], r);
    DataAppend(l, [e]);
    DataAppend(l, r);
    DataSingle(e);
  }

  /** Replacing the middle of a run by another with the same meaning keeps the meaning. */
  lemma LMapMiddle(l: seq<Extent>, m: seq<Extent>, m': seq<Extent>, r: seq<Extent>)
    requires LMap(m) == LMap(m')
    ensures LMap(l + m + r) == LMap(l + m' + r)
  {
    LMapAppend(l + m, r);
    LMapAppend(l, m);
    LMapAppend(l + m', r);
    LMapAppend(l, m');
  }

  lemma DataMiddle(l: seq<Extent>, m: seq<Extent>, r: seq<Extent>)
    ensures Data(l + m + r) == Data(l) + Data(m) + Data(r)
  {
    DataAppend(l + m, r);
    DataAppend(l, m);
  }

  lemma MoveData(a: multiset<nat>, b: multiset<nat>, c: multiset<nat>, d: multiset<nat>)
    ensures a + b + c + d == a + (b + d) + c
  {
  }

  // ----- merging -----------------------------------------------------------

  /** ext4_can_extents_be_merged: both initialised, logically and physically abutting, short enough. */
  predicate CanMerge(e1: Extent, e2: Extent) {
    && !IsUninit(e1)
    && !IsUninit(e2)
    && e1.block + Len(e1) == e2.block
    && Len(e1) + Len(e2) <= EXT_INIT_MAX_LEN
    && e1.pblk + Len(e1) == e2.pblk
  }

  function Merged(e1: Extent, e2: Extent): Extent {
    Extent(e1.block, Len(e1) + Len(e2), e1.pblk)
  }

  lemma MergeKeepsMeaning(e1: Extent, e2: Extent)
    requires CanMerge(e1, e2)
    requires ExtentOk(e1) && ExtentOk(e2)
    ensures ExtentOk(Merged(e1, e2))
    ensures !IsUninit(Merged(e1, e2)) && End(Merged(e1, e2)) == End(e2)
    ensures LMap([e1, e2]) == LMap([Merged(e1, e2)])
  {
    var m := Merged(e1, e2);
    LMapSingle(m);
    LMapSingle(e2);
    assert [e1, e2][1..] == [e2];
    assert LMap([e1, e2]) == MapOf(e1) + MapOf(e2);
    forall b ensures b in MapOf(e1) + MapOf(e2) <==> b in MapOf(m) {
      assert Covers(m, b) <==> Covers(e1, b) || Covers(e2, b);
    }
    assert MapOf(e1) + MapOf(e2) == MapOf(m);
  }

  lemma MergeKeepsData(e1: Extent, e2: Extent)
    requires CanMerge(e1, e2)
    ensures Data([e1, e2]) == Data([Merged(e1, e2)])
  {
    assert [e1, e2][1..] == [e2];
    DataSingle(Merged(e1, e2));
    DataSingle(e2);
    RunSplit(e1.pblk, Len(e1), Len(e2));
  }
}
