/**
 Removing a range of logical blocks from a run of extents. The code guarantees
 beforehand that no extent reaches across the end of the range, so every extent is kept,
 shortened at its end, or dropped.
 */
module RangeRemoval {
  import opened Extents

  /** The first n blocks of e, state kept. */
  function Shorten(e: Extent, n: nat): Extent {
    Extent(e.block, if IsUninit(e) && n > 0 then n + EXT_INIT_MAX_LEN else n, e.pblk)
  }

  /** What is left of one extent after removing blocks lo .. hi. */
  function CutOne(e: Extent, lo: nat, hi: nat): seq<Extent> {
    if End(e) <= lo || hi < e.block then [e]
    else if e.block < lo then [Shorten(e, lo - e.block)]
    else []
  }

  function Cut(s: seq<Extent>, lo: nat, hi: nat): seq<Extent> {
    if s == [] then [] else CutOne(s[0], lo, hi) + Cut(s[1..], lo, hi)
  }

  /** The physical blocks freed with it. */
  ghost function Freed(e: Extent, lo: nat, hi: nat): multiset<nat> {
    if End(e) <= lo || hi < e.block then multiset{}
    else if e.block < lo then Run(e.pblk + (lo - e.block), End(e) - lo)
    else Run(e.pblk, Len(e))
  }

  /** No extent of the run reaches across the end of the range. */
  ghost predicate NoStraddle(s: seq<Extent>, hi: nat) {
    forall i :: 0 <= i < |s| ==> End(s[i]) <= hi + 1 || hi < s[i].block
  }

  ghost function Without(m: LogicalMap, lo: nat, hi: nat): LogicalMap {
    map b | b in m && !(lo <= b <= hi) :: m[b]
  }

  lemma {:induction false} CutAppend(a: seq<Extent>, b: seq<Extent>, lo: nat, hi: nat)
    ensures Cut(a + b, lo, hi) == Cut(a, lo, hi) + Cut(b, lo, hi)
  {
    if a == [] {
      assert a + b == b;
    } else {
      assert (a + b)[1..] == a[1..] + b;
      CutAppend(a[1..], b, lo, hi);
    }
  }

  lemma CutSingle(e: Extent, lo: nat, hi: nat)
    ensures Cut([e], lo, hi) == CutOne(e, lo, hi)
  {
    assert [e][1..] == [];
  }

  /** Extents that end at or before lo are left alone. */
  ghost predicate Safe(s: seq<Extent>, lo: nat) {
    forall i :: 0 <= i < |s| ==> End(s[i]) <= lo
  }

  lemma {:induction false} CutSafe(s: seq<Extent>, lo: nat, hi: nat)
    requires Safe(s, lo)
    ensures Cut(s, lo, hi) == s
  {
    if s != [] {
      assert End(s[0]) <= lo;
      CutSafe(s[1..], lo, hi);
      assert s == [s[0]] + s[1..];
    }
  }

  lemma {:induction false} CutTwice(s: seq<Extent>, lo: nat, hi: nat)
    requires forall i :: 0 <= i < |s| ==> s[i].eeLen <= 0xFFFF
    ensures Cut(Cut(s, lo, hi), lo, hi) == Cut(s, lo, hi)
  {
    if s != [] {
      CutTwice(s[1..], lo, hi);
      CutAppend(CutOne(s[0], lo, hi), Cut(s[1..], lo, hi), lo, hi);
      var c := CutOne(s[0], lo, hi);
      if c != [] {
        CutSingle(c[0], lo, hi);
        assert c == [c[0]];
      }
    }
  }

  /** What a cut leaves starts below lo or beyond hi. */
  lemma {:induction false} CutElement(s: seq<Extent>, lo: nat, hi: nat, e: Extent)
    requires Sorted(s) && e in Cut(s, lo, hi)
    ensures e.block < lo || hi < e.block
    ensures ExtentOk(e) && exists i :: 0 <= i < |s| && s[i].block == e.block
  {
    assert ExtentOk(s[0]);
    if e in CutOne(s[0], lo, hi) {
      assert s[0].block == e.block;
    } else {
      CutElement(s[1..], lo, hi, e);
      var i :| 0 <= i < |s[1..]| && s[1..][i].block == e.block;
      assert s[i + 1].block == e.block;
    }
  }

  lemma {:induction false} CutSorted(s: seq<Extent>, lo: nat, hi: nat)
    requires Sorted(s)
    ensures Sorted(Cut(s, lo, hi))
    ensures s != [] && Cut(s, lo, hi) != [] ==> s[0].block <= Cut(s, lo, hi)[0].block
  {
    if s != [] {
      var c, d := CutOne(s[0], lo, hi), Cut(s[1..], lo, hi);
      assert ExtentOk(s[0]);
      CutSorted(s[1..], lo, hi);
      if d != [] {
        assert s[1..] != [] && s[1..][0] == s[1];
      }
      if c != [] {
        SortedOne(c, s[0]);
        SortedJoin(c, d);
      } else {
        assert c + d == d;
      }
    }
  }

  lemma SortedOne(c: seq<Extent>, e: Extent)
    requires |c| == 1 && ExtentOk(e) && c[0].block == e.block && 0 < Len(c[0]) && End(c[0]) <= End(e)
    requires c[0].eeLen <= 0xFFFF
    ensures Sorted(c)
  {
  }

  // ----- meaning ------------------------------------------------------------------

  lemma CutOneMeaning(e: Extent, lo: nat, hi: nat)
    requires ExtentOk(e) && (End(e) <= hi + 1 || hi < e.block)
    ensures LMap(CutOne(e, lo, hi)) == Without(MapOf(e), lo, hi)
  {
    var c := CutOne(e, lo, hi);
    if c != [] {
      LMapSingle(c[0]);
      assert c == [c[0]];
    }
    var m, w := LMap(c), Without(MapOf(e), lo, hi);
    forall b ensures b in m <==> b in w {
      assert b in MapOf(e) <==> Covers(e, b);
      if c != [] {
        assert b in MapOf(c[0]) <==> Covers(c[0], b);
      }
    }
    assert m == w;
  }

  lemma WithoutJoin(a: LogicalMap, b: LogicalMap, lo: nat, hi: nat)
    ensures Without(a + b, lo, hi) == Without(a, lo, hi) + Without(b, lo, hi)
  {
  }

  /** Cutting a run is deleting the range from its map. */
  lemma {:induction false} CutMeaning(s: seq<Extent>, lo: nat, hi: nat)
    requires Sorted(s) && NoStraddle(s, hi)
    ensures LMap(Cut(s, lo, hi)) == Without(LMap(s), lo, hi)
  {
    if s != [] {
      assert ExtentOk(s[0]);
      CutMeaning(s[1..], lo, hi);
      CutOneMeaning(s[0], lo, hi);
      LMapAppend(CutOne(s[0], lo, hi), Cut(s[1..], lo, hi));
      WithoutJoin(MapOf(s[0]), LMap(s[1..]), lo, hi);
    }
  }

  lemma CutOneData(e: Extent, lo: nat, hi: nat)
    requires ExtentOk(e)
    ensures Data(CutOne(e, lo, hi)) + Freed(e, lo, hi) == DataOf(e)
  {
    if End(e) <= lo || hi < e.block {
      DataSingle(e);
    } else if e.block < lo {
      ShortenData(e, lo - e.block);
    } else {
      assert Data([]) + DataOf(e) == DataOf(e);
    }
  }

  lemma ShortenData(e: Extent, n: nat)
    requires 0 < n <= Len(e) && e.eeLen <= 0xFFFF
    ensures Data([Shorten(e, n)]) + Run(e.pblk + n, Len(e) - n) == DataOf(e)
  {
    DataSingle(Shorten(e, n));
    RunSplit(e.pblk, n, Len(e) - n);
  }

  // ----- cutting from the right -----------------------------------------------------

  /** The run s with everything from slot i on already cut. */
  function CutFrom(s: seq<Extent>, i: nat, lo: nat, hi: nat): (r: seq<Extent>)
    requires i <= |s|
    ensures s[..i] <= r
  {
    s[..i] + Cut(s[i..], lo, hi)
  }

  lemma CutNext(s: seq<Extent>, i: nat, lo: nat, hi: nat)
    requires i < |s|
    ensures CutFrom(s, i + 1, lo, hi) == s[..i] + [s[i]] + Cut(s[i + 1..], lo, hi)
    ensures CutFrom(s, i, lo, hi) == s[..i] + CutOne(s[i], lo, hi) + Cut(s[i + 1..], lo, hi)
  {
    assert s[..i + 1] == s[..i] + [s[i]];
    assert s[i..][1..] == s[i + 1..];
  }

  lemma CutNextData(s: seq<Extent>, i: nat, lo: nat, hi: nat)
    requires i < |s| && ExtentOk(s[i])
    ensures Data(CutFrom(s, i, lo, hi)) + Freed(s[i], lo, hi) == Data(CutFrom(s, i + 1, lo, hi))
  {
    CutNext(s, i, lo, hi);
    var l, r := s[..i], Cut(s[i + 1..], lo, hi);
    DataMiddle(l, [s[i]], r);
    DataMiddle(l, CutOne(s[i], lo, hi), r);
    DataSingle(s[i]);
    CutOneData(s[i], lo, hi);
    MoveData(Data(l), Data(CutOne(s[i], lo, hi)), Data(r), Freed(s[i], lo, hi));
  }

  lemma AllEndBefore(s: seq<Extent>, i: nat, lo: nat)
    requires Sorted(s) && i <= |s| && (i > 0 ==> End(s[i - 1]) <= lo)
    ensures forall k :: 0 <= k < i ==> End(s[..i][k]) <= lo
  {
    forall k | 0 <= k < i ensures End(s[..i][k]) <= lo {
      if k < i - 1 {
        assert End(s[k]) <= s[i - 1].block;
      }
    }
  }

  lemma TwoHalves(s: seq<Extent>, i: nat)
    requires i <= |s|
    ensures s == s[..i] + s[i..]
  {
  }

  /** From a safe extent on, everything to the left stays. */
  lemma CutFromSafe(s: seq<Extent>, i: nat, lo: nat, hi: nat)
    requires Sorted(s) && i <= |s| && (i > 0 ==> End(s[i - 1]) <= lo)
    ensures CutFrom(s, i, lo, hi) == Cut(s, lo, hi)
  {
    AllEndBefore(s, i, lo);
    CutSafe(s[..i], lo, hi);
    CutAppend(s[..i], s[i..], lo, hi);
    TwoHalves(s, i);
  }

  /** Extents that start inside the range and do not reach across its end vanish. */
  lemma {:induction false} CutAll(s: seq<Extent>, lo: nat, hi: nat)
    requires forall i :: 0 <= i < |s| ==> lo <= s[i].block <= hi && 0 < Len(s[i])
    ensures Cut(s, lo, hi) == []
  {
    if s != [] {
      assert lo <= s[0].block <= hi;
      CutAll(s[1..], lo, hi);
    }
  }

  /** A truncation finds nothing behind the extent it is about to remove. */
  lemma CutTail(s: seq<Extent>, i: nat, lo: nat, hi: nat)
    requires Sorted(s) && i < |s| && End(s[i]) > lo && hi + 1 >= EXT_MAX_BLOCKS
    ensures Cut(s[i + 1..], lo, hi) == []
  {
    var r := s[i + 1..];
    forall k | 0 <= k < |r| ensures lo <= r[k].block <= hi && 0 < Len(r[k]) {
      assert r[k] == s[i + 1 + k];
      assert End(s[i]) <= s[i + 1 + k].block && ExtentOk(s[i + 1 + k]);
    }
    CutAll(r, lo, hi);
  }

  lemma {:induction false} CutLength(s: seq<Extent>, lo: nat, hi: nat)
    ensures |Cut(s, lo, hi)| <= |s|
  {
    if s != [] {
      CutLength(s[1..], lo, hi);
    }
  }

  lemma {:induction false} CutBeyond(s: seq<Extent>, lo: nat, hi: nat)
    requires forall i :: 0 <= i < |s| ==> hi < s[i].block
    ensures Cut(s, lo, hi) == s
  {
    if s != [] {
      assert hi < s[0].block;
      CutBeyond(s[1..], lo, hi);
      assert s == [s[0]] + s[1..];
    }
  }

  /** Nothing of a run interrupted in the middle is lost or added by starting over. */
  lemma CutFromMeaning(s: seq<Extent>, m: nat, lo: nat, hi: nat)
    requires Sorted(s) && NoStraddle(s, hi) && m <= |s|
    ensures NoStraddle(CutFrom(s, m, lo, hi), hi)
    ensures Cut(CutFrom(s, m, lo, hi), lo, hi) == Cut(s, lo, hi)
  {
    CutFromStraddles(s, m, lo, hi);
    CutFromAgain(s, m, lo, hi);
  }

  lemma CutFromStraddles(s: seq<Extent>, m: nat, lo: nat, hi: nat)
    requires Sorted(s) && NoStraddle(s, hi) && m <= |s|
    ensures NoStraddle(CutFrom(s, m, lo, hi), hi)
  {
    SortedSlice(s, m, |s|);
    var c := Cut(s[m..], lo, hi);
    assert forall i :: 0 <= i < |s[m..]| ==> s[m..][i] == s[m + i];
    CutNoStraddle(s[m..], lo, hi);
    forall i | 0 <= i < |CutFrom(s, m, lo, hi)|
      ensures End(CutFrom(s, m, lo, hi)[i]) <= hi + 1 || hi < CutFrom(s, m, lo, hi)[i].block
    {
      assert CutFrom(s, m, lo, hi)[i] == if i < m then s[i] else c[i - m];
    }
  }

  lemma CutFromAgain(s: seq<Extent>, m: nat, lo: nat, hi: nat)
    requires Sorted(s) && m <= |s|
    ensures Cut(CutFrom(s, m, lo, hi), lo, hi) == Cut(s, lo, hi)
  {
    SortedSlice(s, m, |s|);
    CutAppend(s[..m], Cut(s[m..], lo, hi), lo, hi);
    CutAppend(s[..m], s[m..], lo, hi);
    CutTwice(s[m..], lo, hi);
    TwoHalves(s, m);
  }

  lemma {:induction false} CutNoStraddle(s: seq<Extent>, lo: nat, hi: nat)
    requires Sorted(s) && NoStraddle(s, hi)
    ensures NoStraddle(Cut(s, lo, hi), hi)
  {
    if s != [] {
      SortedSlice(s, 1, |s|);
      assert forall i :: 0 <= i < |s[1..]| ==> s[1..][i] == s[i + 1];
      CutNoStraddle(s[1..], lo, hi);
      var c, d := CutOne(s[0], lo, hi), Cut(s[1..], lo, hi);
      assert ExtentOk(s[0]) && (End(s[0]) <= hi + 1 || hi < s[0].block);
      forall i | 0 <= i < |c + d| ensures End((c + d)[i]) <= hi + 1 || hi < (c + d)[i].block {
        if i >= |c| {
          assert (c + d)[i] == d[i - |c|];
        }
      }
    }
  }
}
