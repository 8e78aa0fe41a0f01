/**
 The index of blocks that hold file system meta-data (ext4/block_validity.c): adding ranges
 with merging, and the check that a range of data blocks avoids them.

 The red-black tree is the sequence of its zones from left to right; a search descends
 through any tree over them, that is, it compares with an arbitrary zone of the stretch that
 is left.
 */
module SystemZones {

  const U32: nat := 0x1_0000_0000
  const U64: nat := 0x1_0000_0000_0000_0000

  datatype Zone = Zone(start: nat, count: nat)

  datatype Result = Done | OutOfMemory

  function End(z: Zone): nat {
    z.start + z.count
  }

  predicate Covered(zs: seq<Zone>, b: nat) {
    exists i :: 0 <= i < |zs| && zs[i].start <= b < End(zs[i])
  }

  /** The order of the tree: by first block. */
  predicate Ordered(zs: seq<Zone>) {
    && (forall i :: 0 <= i < |zs| ==> zs[i].count > 0)
    && forall i, j :: 0 <= i < j < |zs| ==> zs[i].start < zs[j].start
  }

  /** Disjoint zones that do not even touch: what adding and merging keeps. */
  predicate Apart(zs: seq<Zone>) {
    Ordered(zs) && forall i, j :: 0 <= i < j < |zs| ==> End(zs[i]) < zs[j].start
  }

  predicate Avoids(zs: seq<Zone>, start: nat, count: nat) {
    forall i :: 0 <= i < |zs| ==> start + count <= zs[i].start || End(zs[i]) <= start
  }

  /** Some tree over the zones lo .. hi - 1 lets the search for the range end without a hit. */
  ghost predicate MayPass(zs: seq<Zone>, lo: nat, hi: nat, start: nat, count: nat)
    requires lo <= hi <= |zs|
    decreases hi - lo
  {
    lo == hi || exists m | lo <= m < hi :: PassesAt(zs, lo, hi, m, start, count)
  }

  ghost predicate PassesAt(zs: seq<Zone>, lo: nat, hi: nat, m: nat, start: nat, count: nat)
    requires lo <= m < hi <= |zs|
    decreases hi - lo, 0
  {
    if start + count - 1 < zs[m].start then MayPass(zs, lo, m, start, count)
    else if start >= End(zs[m]) then MayPass(zs, m + 1, hi, start, count)
    else false
  }

  /** Whatever the shape of the tree, only ranges that avoid all zones pass. */
  ghost predicate Sound(zs: seq<Zone>) {
    forall start: nat, count: nat :: count > 0 && MayPass(zs, 0, |zs|, start, count) ==> Avoids(zs, start, count)
  }

  /** A block behind the end of zone j that belongs to an earlier zone belongs to a later one as well. */
  ghost predicate Shielded(zs: seq<Zone>) {
    forall i, j, b: nat :: 0 <= i < j < |zs| && End(zs[j]) <= b < End(zs[i]) ==> CoveredBehind(zs, j, b)
  }

  predicate CoveredBehind(zs: seq<Zone>, j: int, b: nat) {
    exists k :: 0 <= j < k < |zs| && zs[k].start <= b < End(zs[k])
  }

  lemma SearchExactly(zs: seq<Zone>)
    requires Ordered(zs)
    ensures Sound(zs) <==> Shielded(zs)
  {
    if Shielded(zs) {
      forall start: nat, count: nat | count > 0 && MayPass(zs, 0, |zs|, start, count) ensures Avoids(zs, start, count) {
        PassAvoids(zs, 0, |zs|, start, count);
      }
    } else {
      var i, j, b: nat :| 0 <= i < j < |zs| && End(zs[j]) <= b < End(zs[i]) && !CoveredBehind(zs, j, b);
      Fooled(zs, i, j, b);
      assert !Avoids(zs, b, 1);
    }
  }

  predicate Hits(z: Zone, start: nat, count: nat) {
    z.start < start + count && start < End(z)
  }

  lemma {:induction false} PassAvoids(zs: seq<Zone>, lo: nat, hi: nat, start: nat, count: nat)
    requires Ordered(zs) && Shielded(zs) && lo <= hi <= |zs| && count > 0 && MayPass(zs, lo, hi, start, count)
    requires hi < |zs| ==> start + count - 1 < zs[hi].start
    ensures forall i :: lo <= i < hi ==> !Hits(zs[i], start, count)
    decreases hi - lo
  {
    if lo < hi {
      var m: nat :| lo <= m < hi && PassesAt(zs, lo, hi, m, start, count);
      if start + count - 1 < zs[m].start {
        PassAvoids(zs, lo, m, start, count);
      } else {
        PassAvoids(zs, m + 1, hi, start, count);
        forall i | lo <= i < m ensures !Hits(zs[i], start, count) {
          if Hits(zs[i], start, count) {
            LaterHit(zs, i, m, hi, start, count);
          }
        }
      }
    }
  }

  /** A hit to the left of m that the search gives up is matched by one to the right. */
  lemma LaterHit(zs: seq<Zone>, i: nat, m: nat, hi: nat, start: nat, count: nat)
    requires Ordered(zs) && Shielded(zs) && i < m < hi <= |zs| && count > 0 && start >= End(zs[m])
    requires hi < |zs| ==> start + count - 1 < zs[hi].start
    requires Hits(zs[i], start, count)
    ensures exists k :: m < k < hi && Hits(zs[k], start, count)
  {
    assert End(zs[m]) <= start < End(zs[i]);
    assert CoveredBehind(zs, m, start);
    forall k | hi <= k < |zs| ensures start + count - 1 < zs[k].start {
      assert hi < k ==> zs[hi].start < zs[k].start;
    }
    var k :| m < k < |zs| && zs[k].start <= start < End(zs[k]);
    assert Hits(zs[k], start, count);
  }

  /** A tree with zone j at its root does not see that b lies in zone i. */
  lemma Fooled(zs: seq<Zone>, i: nat, j: nat, b: nat)
    requires Ordered(zs) && i < j < |zs| && End(zs[j]) <= b < End(zs[i]) && !CoveredBehind(zs, j, b)
    ensures MayPass(zs, 0, |zs|, b, 1) && Hits(zs[i], b, 1)
  {
    FreePasses(zs, j + 1, |zs|, b);
    assert PassesAt(zs, 0, |zs|, j, b, 1);
  }

  lemma {:induction false} FreePasses(zs: seq<Zone>, lo: nat, hi: nat, b: nat)
    requires lo <= hi <= |zs| && forall k :: lo <= k < hi ==> !(zs[k].start <= b < End(zs[k]))
    ensures MayPass(zs, lo, hi, b, 1)
    decreases hi - lo
  {
    if lo < hi {
      if b < zs[lo].start {
        FreePasses(zs, lo, lo, b);
      } else {
        FreePasses(zs, lo + 1, hi, b);
      }
      assert PassesAt(zs, lo, hi, lo, b, 1);
    }
  }

  lemma ApartSound(zs: seq<Zone>)
    requires Apart(zs)
    ensures Sound(zs)
  {
    SearchExactly(zs);
    assert forall i, j :: 0 <= i < j < |zs| ==> End(zs[i]) <= End(zs[j]);
  }

  // ----- one zone that may reach over those behind it ------------------------------------------

  /** The zones of l lie before z and those of r begin behind its start; l and r are apart. */
  predicate Between(l: seq<Zone>, z: Zone, r: seq<Zone>) {
    && Apart(l) && Apart(r) && z.count > 0
    && (forall i :: 0 <= i < |l| ==> End(l[i]) <= z.start)
    && (forall j :: 0 <= j < |r| ==> z.start < r[j].start)
    && forall i, j :: 0 <= i < |l| && 0 <= j < |r| ==> End(l[i]) < r[j].start
  }

  /** ... and none of those before z touches it. */
  predicate Clear(l: seq<Zone>, z: Zone) {
    forall i :: 0 <= i < |l| ==> End(l[i]) < z.start
  }

  /** e lies beyond the end of none of the zones. */
  predicate Reaches(e: nat, r: seq<Zone>) {
    forall j :: 0 <= j < |r| ==> e <= End(r[j])
  }

  /** e lies beyond the start of none of the zones. */
  predicate Stops(e: nat, r: seq<Zone>) {
    forall j :: 0 <= j < |r| ==> e <= r[j].start
  }

  /** The zones begin behind the end of z, and do not touch it. */
  predicate Free(z: Zone, r: seq<Zone>) {
    forall j :: 0 <= j < |r| ==> End(z) < r[j].start
  }

  lemma Parts(l: seq<Zone>, z: Zone, r: seq<Zone>)
    ensures (l + [z] + r)[..|l|] == l && (l + [z] + r)[|l|] == z && (l + [z] + r)[|l| + 1..] == r
  {
  }

  lemma Split(zs: seq<Zone>, i: nat)
    requires i < |zs|
    ensures zs == zs[..i] + [zs[i]] + zs[i + 1..]
  {
  }

  lemma BetweenOrdered(l: seq<Zone>, z: Zone, r: seq<Zone>)
    requires Between(l, z, r)
    ensures Ordered(l + [z] + r)
  {
    var zs := l + [z] + r;
    forall i, j | 0 <= i < j < |zs| ensures zs[i].start < zs[j].start {
      if i < |l| < j {
        assert l[i].start < End(l[i]);
      }
    }
  }

  lemma BetweenApart(l: seq<Zone>, z: Zone, r: seq<Zone>)
    requires Between(l, z, r) && Clear(l, z)
    ensures Apart(l + [z] + r) <==> Free(z, r)
  {
    var zs := l + [z] + r;
    BetweenOrdered(l, z, r);
    Parts(l, z, r);
    if Apart(zs) {
      forall j | 0 <= j < |r| ensures End(z) < r[j].start {
        assert zs[|l| + 1 + j] == r[j];
      }
    }
  }

  lemma BetweenSound(l: seq<Zone>, z: Zone, r: seq<Zone>)
    requires Between(l, z, r)
    ensures Sound(l + [z] + r) <==> Reaches(End(z), r)
  {
    var zs := l + [z] + r;
    BetweenOrdered(l, z, r);
    SearchExactly(zs);
    Parts(l, z, r);
    if Reaches(End(z), r) {
      forall i, j | 0 <= i < j < |zs| ensures End(zs[i]) <= End(zs[j]) {
        EndsGrow(l, z, r, i, j);
      }
    } else {
      var j :| 0 <= j < |r| && End(z) > End(r[j]);
      var k := |l| + 1 + j;
      assert zs[k] == r[j];
      forall m | k < m < |zs| ensures End(r[j]) < zs[m].start {
        assert zs[m] == r[m - |l| - 1];
      }
      assert !CoveredBehind(zs, k, End(r[j])) && End(zs[k]) <= End(r[j]) < End(zs[|l|]);
    }
  }

  lemma EndsGrow(l: seq<Zone>, z: Zone, r: seq<Zone>, i: nat, j: nat)
    requires Between(l, z, r) && Reaches(End(z), r) && i < j < |l| + 1 + |r|
    ensures End((l + [z] + r)[i]) <= End((l + [z] + r)[j])
  {
    var zs := l + [z] + r;
    if j > |l| {
      assert zs[j] == r[j - |l| - 1];
    }
  }

  // ----- adding --------------------------------------------------------------------------------

  ghost predicate SameBlocks(a: seq<Zone>, b: seq<Zone>) {
    forall x: nat :: Covered(a, x) <==> Covered(b, x)
  }

  function Joined(a: Zone, b: Zone): Zone {
    Zone(a.start, a.count + b.count)
  }

  /** Two neighbours that touch made into one. */
  lemma JoinAt(zs: seq<Zone>, i: nat)
    requires i + 1 < |zs| && End(zs[i]) == zs[i + 1].start
    ensures SameBlocks(zs[..i] + [Joined(zs[i], zs[i + 1])] + zs[i + 2..], zs)
  {
    var r := zs[..i] + [Joined(zs[i], zs[i + 1])] + zs[i + 2..];
    forall x: nat ensures Covered(r, x) <==> Covered(zs, x) {
      if Covered(r, x) {
        var k :| 0 <= k < |r| && r[k].start <= x < End(r[k]);
        var k' := if k < i then k else if k > i then k + 1 else if x < End(zs[i]) then i else i + 1;
        assert zs[k'].start <= x < End(zs[k']);
      }
      if Covered(zs, x) {
        var k :| 0 <= k < |zs| && zs[k].start <= x < End(zs[k]);
        var k' := if k <= i then k else k - 1;
        assert r[k'].start <= x < End(r[k']);
      }
    }
  }

  lemma ExtendCovers(zs: seq<Zone>, i: nat, e: nat)
    requires i < |zs| && zs[i].start <= e && End(zs[i]) <= e
    ensures var r := zs[i := Zone(zs[i].start, e - zs[i].start)];
      forall x: nat :: Covered(r, x) <==> Covered(zs, x) || End(zs[i]) <= x < e
  {
    var r := zs[i := Zone(zs[i].start, e - zs[i].start)];
    forall x: nat ensures Covered(r, x) <==> Covered(zs, x) || End(zs[i]) <= x < e {
      if Covered(zs, x) {
        var k :| 0 <= k < |zs| && zs[k].start <= x < End(zs[k]);
        assert r[k].start <= x < End(r[k]);
      }
      if End(zs[i]) <= x < e {
        assert r[i].start <= x < End(r[i]);
      }
      if Covered(r, x) {
        var k :| 0 <= k < |r| && r[k].start <= x < End(r[k]);
        assert x < End(zs[i]) || k != i ==> zs[k].start <= x < End(zs[k]);
      }
    }
  }

  lemma InsertCovers(zs: seq<Zone>, i: nat, z: Zone)
    requires i <= |zs|
    ensures var r := zs[..i] + [z] + zs[i..];
      forall x: nat :: Covered(r, x) <==> Covered(zs, x) || z.start <= x < End(z)
  {
    var r := zs[..i] + [z] + zs[i..];
    forall x: nat ensures Covered(r, x) <==> Covered(zs, x) || z.start <= x < End(z) {
      if Covered(zs, x) {
        var k :| 0 <= k < |zs| && zs[k].start <= x < End(zs[k]);
        var k' := if k < i then k else k + 1;
        assert r[k'].start <= x < End(r[k']);
      }
      assert r[i] == z;
      if Covered(r, x) {
        var k :| 0 <= k < |r| && r[k].start <= x < End(r[k]);
        var k' := if k < i then k else k - 1;
        assert k != i ==> zs[k'].start <= x < End(zs[k']);
      }
    }
  }

  lemma InZone(zs: seq<Zone>, i: nat, start: nat, count: nat)
    requires i < |zs| && zs[i].start <= start < End(zs[i])
    ensures forall x: nat :: start <= x < start + count && x < End(zs[i]) ==> Covered(zs, x)
  {
  }

  lemma JoinLeft(l: seq<Zone>, z: Zone, r: seq<Zone>)
    requires Between(l, z, r) && l != [] && End(l[|l| - 1]) == z.start
    ensures var n := |l| - 1;
      Between(l[..n], Joined(l[n], z), r) && Clear(l[..n], Joined(l[n], z)) && End(Joined(l[n], z)) == End(z)
  {
    var n := |l| - 1;
    forall j | 0 <= j < |r| ensures l[n].start < r[j].start {
      assert l[n].start < End(l[n]);
    }
  }

  lemma MergedLeft(zs: seq<Zone>, i: nat, n: nat)
    requires 0 < i < |zs| && n == i - 1 && End(zs[n]) == zs[i].start && Between(zs[..i], zs[i], zs[i + 1..])
    ensures var j := Joined(zs[n], zs[i]);
      var r := zs[..n] + [j] + zs[i + 1..];
      && r[..n] == zs[..n] && r[n] == j && r[n + 1..] == zs[i + 1..] && SameBlocks(r, zs)
      && Between(r[..n], r[n], r[n + 1..]) && Clear(r[..n], r[n]) && End(r[n]) == End(zs[i])
  {
    var j := Joined(zs[n], zs[i]);
    JoinAt(zs, n);
    JoinLeft(zs[..i], zs[i], zs[i + 1..]);
    assert zs[..i][..n] == zs[..n];
    Parts(zs[..n], j, zs[i + 1..]);
  }

  lemma ClearLeft(l: seq<Zone>, z: Zone)
    requires Apart(l) && (forall i :: 0 <= i < |l| ==> End(l[i]) <= z.start) && (l != [] ==> End(l[|l| - 1]) != z.start)
    ensures Clear(l, z)
  {
    forall i | 0 <= i < |l| ensures End(l[i]) < z.start {
      assert i < |l| - 1 ==> End(l[i]) < l[|l| - 1].start < End(l[|l| - 1]);
    }
  }

  lemma JoinRight(l: seq<Zone>, z: Zone, r: seq<Zone>)
    requires Between(l, z, r) && Clear(l, z) && r != [] && End(z) == r[0].start
    ensures Between(l, Joined(z, r[0]), r[1..]) && Clear(l, Joined(z, r[0]))
    ensures Reaches(End(z), r) && Stops(End(z), r) && Reaches(End(Joined(z, r[0])), r[1..])
    ensures Free(Joined(z, r[0]), r[1..])
  {
    forall j | 0 <= j < |r| ensures End(z) <= r[j].start < End(r[j]) {
      assert j > 0 ==> End(r[0]) < r[j].start;
    }
    forall j | 0 <= j < |r[1..]| ensures End(Joined(z, r[0])) < r[1..][j].start {
      assert r[1..][j] == r[j + 1];
    }
  }

  lemma NoJoin(z: Zone, r: seq<Zone>)
    requires Apart(r) && (r != [] ==> End(z) != r[0].start)
    ensures Stops(End(z), r) <==> Free(z, r)
  {
    if Stops(End(z), r) {
      forall j | 0 <= j < |r| ensures End(z) < r[j].start {
        assert j > 0 ==> r[0].start < r[j].start;
      }
    }
  }

  /** The zones of zs that begin behind `start`. */
  ghost predicate Behind(r: seq<Zone>, zs: seq<Zone>, start: nat) {
    && (forall j :: 0 <= j < |r| ==> r[j] in zs && r[j].start > start)
    && forall k :: 0 <= k < |zs| && zs[k].start > start ==> zs[k] in r
  }

  /** Placing the range at e: it ends there, or it lies within a zone that was there before. */
  ghost predicate Placed(e: nat, r: seq<Zone>, start: nat, count: nat) {
    e == start + count || (e >= start + count && forall j :: 0 <= j < |r| ==> e < r[j].start)
  }

  lemma BehindRange(e: nat, r: seq<Zone>, zs: seq<Zone>, start: nat, count: nat)
    requires Behind(r, zs, start) && Placed(e, r, start, count)
    ensures Stops(e, r) <==> forall k :: 0 <= k < |zs| && zs[k].start > start ==> start + count <= zs[k].start
    ensures Reaches(e, r) <==> forall k :: 0 <= k < |zs| && zs[k].start > start ==> start + count <= End(zs[k])
  {
    forall k | 0 <= k < |zs| && zs[k].start > start ensures exists j :: 0 <= j < |r| && r[j] == zs[k] {
      assert zs[k] in r;
    }
    forall j | 0 <= j < |r| ensures exists k :: 0 <= k < |zs| && zs[k] == r[j] {
      assert r[j] in zs;
    }
  }

  /** z takes the place of zone i, which holds `start`. */
  lemma FoundBetween(zs: seq<Zone>, i: nat, z: Zone, start: nat, count: nat)
    requires Apart(zs) && i < |zs| && zs[i].start == z.start <= start < End(zs[i]) && z.count > 0
    requires if End(zs[i]) >= start + count then z == zs[i] else End(z) == start + count
    ensures Between(zs[..i], z, zs[i + 1..]) && Behind(zs[i + 1..], zs, start)
    ensures Placed(End(z), zs[i + 1..], start, count)
  {
    SliceApart(zs, i);
    SliceApart(zs, i + 1);
    TailBehind(zs, i + 1, start);
  }

  lemma SliceApart(zs: seq<Zone>, i: nat)
    requires Apart(zs) && i <= |zs|
    ensures Apart(zs[..i]) && Apart(zs[i..])
  {
  }

  lemma TailBehind(zs: seq<Zone>, i: nat, start: nat)
    requires Apart(zs) && i <= |zs| && (i > 0 ==> zs[i - 1].start <= start) && (i < |zs| ==> start < zs[i].start)
    ensures Behind(zs[i..], zs, start)
  {
    var r := zs[i..];
    forall j | 0 <= j < |r| ensures r[j] in zs && r[j].start > start {
      assert r[j] == zs[i + j];
      assert j > 0 ==> zs[i].start < zs[i + j].start;
    }
    forall k | 0 <= k < i ensures zs[k].start <= start {
      assert k < i - 1 ==> zs[k].start < zs[i - 1].start;
    }
    forall k | i <= k < |zs| ensures zs[k] in r {
      assert r[k - i] == zs[k];
    }
  }

  lemma NewBetween(zs: seq<Zone>, i: nat, start: nat, count: nat)
    requires Apart(zs) && i <= |zs| && count > 0
    requires (forall k :: 0 <= k < i ==> End(zs[k]) <= start) && forall k :: i <= k < |zs| ==> start < zs[k].start
    ensures Between(zs[..i], Zone(start, count), zs[i..]) && Behind(zs[i..], zs, start)
  {
    SliceApart(zs, i);
    assert i > 0 ==> zs[i - 1].start < End(zs[i - 1]);
    TailBehind(zs, i, start);
  }

  /** No two ranges have a block in common. */
  predicate Disjoint(rs: seq<Zone>) {
    && (forall i :: 0 <= i < |rs| ==> rs[i].count > 0)
    && forall i, j :: 0 <= i < j < |rs| ==> End(rs[i]) <= rs[j].start || End(rs[j]) <= rs[i].start
  }

  /** The ranges are among the first n. */
  ghost predicate From(added: seq<Zone>, rs: seq<Zone>, n: nat)
    requires n <= |rs|
  {
    forall z :: z in added ==> z in rs[..n]
  }

  lemma FromNext(added: seq<Zone>, rs: seq<Zone>, n: nat)
    requires n < |rs| && forall z :: z in added ==> z in rs[..n] || z == rs[n]
    ensures From(added, rs, n + 1)
  {
    assert rs[..n + 1] == rs[..n] + [rs[n]];
  }

  lemma OneMore(zs: seq<Zone>, zs0: seq<Zone>, added: seq<Zone>, z: Zone)
    requires SameBlocks(zs0, added)
    requires forall x: nat :: Covered(zs, x) <==> Covered(zs0, x) || z.start <= x < End(z)
    ensures SameBlocks(zs, added + [z])
  {
    InsertCovers(added, |added|, z);
    assert added + [z] == added[..|added|] + [z] + added[|added|..];
  }

  /** A range avoids the zones if none of its blocks is in one. */
  lemma AvoidsBlocks(zs: seq<Zone>, start: nat, count: nat)
    requires count > 0 && forall i :: 0 <= i < |zs| ==> zs[i].count > 0
    ensures Avoids(zs, start, count) <==> forall x: nat :: start <= x < start + count ==> !Covered(zs, x)
  {
    if !Avoids(zs, start, count) {
      var i :| 0 <= i < |zs| && !(start + count <= zs[i].start || End(zs[i]) <= start);
      assert Covered(zs, if start < zs[i].start then zs[i].start else start);
    }
  }

  lemma SameAvoids(zs: seq<Zone>, rs: seq<Zone>)
    requires SameBlocks(zs, rs) && Ordered(zs) && forall i :: 0 <= i < |rs| ==> rs[i].count > 0
    ensures forall start: nat, count: nat :: count > 0 ==> (Avoids(zs, start, count) <==> Avoids(rs, start, count))
  {
    forall start: nat, count: nat | count > 0 ensures Avoids(zs, start, count) <==> Avoids(rs, start, count) {
      AvoidsBlocks(zs, start, count);
      AvoidsBlocks(rs, start, count);
    }
  }

  class SystemBlocks {
    var zones: seq<Zone>
    const firstDataBlock: nat
    const blocksCount: nat

    /** Mounting starts with an empty index. */
    constructor (firstDataBlock: nat, blocksCount: nat)
      ensures zones == [] && Apart(zones)
      ensures this.firstDataBlock == firstDataBlock && this.blocksCount == blocksCount
    {
      this.zones, this.firstDataBlock, this.blocksCount := [], firstDataBlock, blocksCount;
    }

    /** The descent of add_system_zone: the zone holding `start`, or the place for a new one. */
    method Descend(start: nat) returns (found: bool, at: nat)
      requires Apart(zones)
      ensures found ==> at < |zones| && zones[at].start <= start < End(zones[at])
      ensures !found ==> at <= |zones| && !Covered(zones, start)
      ensures forall k :: 0 <= k < at ==> End(zones[k]) <= start
      ensures forall k :: at < k < |zones| || (k == at < |zones| && !found) ==> start < zones[k].start
    {
      var lo, hi := 0, |zones|;
      while lo < hi
        invariant lo <= hi <= |zones|
        invariant forall k :: 0 <= k < lo ==> End(zones[k]) <= start
        invariant forall k :: hi <= k < |zones| ==> start < zones[k].start
        decreases hi - lo
      {
        var m :| lo <= m < hi;
        if start < zones[m].start {
          hi := m;
        } else if start >= End(zones[m]) {
          lo := m + 1;
        } else {
          return true, m;
        }
      }
      return false, lo;
    }

    /** Zone `at`, what is before it and what is behind. */
    ghost predicate BetweenAt(at: nat)
      reads this
    {
      at < |zones| && Between(zones[..at], zones[at], zones[at + 1..])
    }

    /** "Can we merge to the left?" */
    method MergeLeft(i: nat) returns (at: nat)
      requires BetweenAt(i)
      modifies this`zones
      ensures BetweenAt(at) && Clear(zones[..at], zones[at]) && SameBlocks(zones, old(zones))
      ensures zones[at + 1..] == old(zones)[i + 1..] && End(zones[at]) == End(old(zones)[i])
    {
      at := i;
      if i > 0 && End(zones[i - 1]) == zones[i].start {
        MergedLeft(zones, i, i - 1);
        zones := zones[..i - 1] + [Joined(zones[i - 1], zones[i])] + zones[i + 1..];
        at := i - 1;
      } else {
        ClearLeft(zones[..i], zones[i]);
      }
    }

    /** "Can we merge to the right?" */
    method MergeRight(i: nat)
      requires BetweenAt(i) && Clear(zones[..i], zones[i])
      modifies this`zones
      ensures BetweenAt(i) && Clear(zones[..i], zones[i]) && SameBlocks(zones, old(zones))
      ensures Reaches(End(zones[i]), zones[i + 1..]) <==> Reaches(End(old(zones)[i]), old(zones)[i + 1..])
      ensures Free(zones[i], zones[i + 1..]) <==> Stops(End(old(zones)[i]), old(zones)[i + 1..])
    {
      ghost var l, z, r := zones[..i], zones[i], zones[i + 1..];
      if i + 1 < |zones| && End(zones[i]) == zones[i + 1].start {
        JoinAt(zones, i);
        JoinRight(l, z, r);
        Parts(l, Joined(z, r[0]), r[1..]);
        zones := zones[..i] + [Joined(zones[i], zones[i + 1])] + zones[i + 2..];
        assert r[1..] == old(zones)[i + 2..];
      } else {
        NoJoin(z, r);
      }
    }

    /** Put the range into the tree: extend the zone it starts in, or link a new one. */
    method Place(start: nat, count: nat) returns (err: Result, at: nat)
      requires Apart(zones) && count > 0
      modifies this`zones
      ensures err == OutOfMemory ==> zones == old(zones)
      ensures err == Done ==> BetweenAt(at)
      ensures err == Done ==> Behind(zones[at + 1..], old(zones), start)
      ensures err == Done ==> Placed(End(zones[at]), zones[at + 1..], start, count)
      ensures err == Done ==>
        forall x: nat :: Covered(zones, x) <==> Covered(old(zones), x) || start <= x < start + count
    {
      var found;
      found, at := Descend(start);
      err := Done;
      if found {
        ExtendFound(start, count, at);
      } else {
        var room := *;
        if !room {
          return OutOfMemory, 0;
        }
        LinkNew(start, count, at);
      }
    }

    method LinkNew(start: nat, count: nat, at: nat)
      requires Apart(zones) && count > 0 && at <= |zones|
      requires (forall k :: 0 <= k < at ==> End(zones[k]) <= start) && forall k :: at <= k < |zones| ==>
        start < zones[k].start
      modifies this`zones
      ensures BetweenAt(at) && Behind(zones[at + 1..], old(zones), start)
      ensures Placed(End(zones[at]), zones[at + 1..], start, count)
      ensures forall x: nat :: Covered(zones, x) <==> Covered(old(zones), x) || start <= x < start + count
    {
      InsertCovers(zones, at, Zone(start, count));
      NewBetween(zones, at, start, count);
      Parts(zones[..at], Zone(start, count), zones[at..]);
      zones := zones[..at] + [Zone(start, count)] + zones[at..];
    }

    method ExtendFound(start: nat, count: nat, at: nat)
      requires Apart(zones) && count > 0 && at < |zones| && zones[at].start <= start < End(zones[at])
      modifies this`zones
      ensures BetweenAt(at) && Behind(zones[at + 1..], old(zones), start)
      ensures Placed(End(zones[at]), zones[at + 1..], start, count)
      ensures forall x: nat :: Covered(zones, x) <==> Covered(old(zones), x) || start <= x < start + count
    {
      var e := zones[at];
      InZone(zones, at, start, count);
      if start + count > End(e) {
        ExtendCovers(zones, at, start + count);
        FoundBetween(zones, at, Zone(e.start, start + count - e.start), start, count);
        zones := zones[at := Zone(e.start, start + count - e.start)];
        assert zones[..at] == old(zones)[..at] && zones[at + 1..] == old(zones)[at + 1..];
      } else {
        FoundBetween(zones, at, e, start, count);
      }
    }

    /** The range ends no later than any zone that begins behind its start. */
    predicate Within(start: nat, count: nat)
      reads this
    {
      forall k :: 0 <= k < |zones| && zones[k].start > start ==> start + count <= End(zones[k])
    }

    /** The range ends before every zone that begins behind its start. */
    predicate Before(start: nat, count: nat)
      reads this
    {
      forall k :: 0 <= k < |zones| && zones[k].start > start ==> start + count <= zones[k].start
    }

    /**
     add_system_zone: the blocks of the range are added, whatever it overlaps. The zones stay
     apart exactly if it runs into no zone behind its start. The check stays sound for every
     shape the tree may have exactly if the range does not run past the end of a zone behind
     its start; if it does, some shape of the tree lets bad ranges pass.
     */
    method AddZone(start: nat, count: nat) returns (err: Result)
      requires Apart(zones) && count > 0
      modifies this`zones
      ensures err == OutOfMemory ==> zones == old(zones)
      ensures err == Done ==>
        forall x: nat :: Covered(zones, x) <==> Covered(old(zones), x) || start <= x < start + count
      ensures err == Done ==> Ordered(zones) && (Apart(zones) <==> old(Before(start, count)))
      ensures err == Done ==> (Sound(zones) <==> old(Within(start, count)))
    {
      var at;
      err, at := Place(start, count);
      if err == Done {
        BehindRange(End(zones[at]), zones[at + 1..], old(zones), start, count);
        at := MergeLeft(at);
        MergeRight(at);
        Split(zones, at);
        BetweenApart(zones[..at], zones[at], zones[at + 1..]);
        BetweenSound(zones[..at], zones[at], zones[at + 1..]);
        BetweenOrdered(zones[..at], zones[at], zones[at + 1..]);
      }
    }

    /** A range apart from all that was added runs into no zone. */
    lemma DisjointBefore(rs: seq<Zone>, n: nat, added: seq<Zone>)
      requires n < |rs| && Disjoint(rs) && SameBlocks(zones, added) && From(added, rs, n)
      requires forall i :: 0 <= i < |zones| ==> zones[i].count > 0
      ensures Before(rs[n].start, rs[n].count)
    {
      forall k | 0 <= k < |zones| && zones[k].start > rs[n].start ensures End(rs[n]) <= zones[k].start {
        assert Covered(zones, zones[k].start);
        assert Covered(added, zones[k].start);
        var m :| 0 <= m < |added| && added[m].start <= zones[k].start < End(added[m]);
        assert added[m] in added;
        var j :| 0 <= j < n && rs[..n][j] == added[m];
        assert rs[j] == added[m];
      }
    }

    /**
     ext4_setup_system_zone: any pairwise disjoint ranges, in any order, added to the empty
     index one after the other; a failure ends it, except for the ranges whose result is
     ignored. The zones stay apart, cover exactly the ranges added, and are avoided exactly by
     what avoids those; so the check of a data range is exact.
     */
    method AddAll(rs: seq<Zone>, checked: seq<bool>) returns (err: Result, added: seq<Zone>)
      requires zones == [] && Disjoint(rs) && |checked| == |rs|
      modifies this`zones
      ensures Apart(zones) && Sound(zones) && SameBlocks(zones, added)
      ensures forall z :: z in added ==> z in rs
      ensures err == Done ==> forall i :: 0 <= i < |rs| && checked[i] ==> rs[i] in added
      ensures forall start: nat, count: nat :: count > 0 ==>
        (Avoids(zones, start, count) <==> Avoids(added, start, count))
    {
      added, err := [], Done;
      var i := 0;
      while i < |rs| && err == Done
        invariant i <= |rs| && Apart(zones) && SameBlocks(zones, added) && From(added, rs, i)
        invariant err == Done ==> forall j :: 0 <= j < i && checked[j] ==> rs[j] in added
      {
        DisjointBefore(rs, i, added);
        ghost var before := zones;
        var res := AddZone(rs[i].start, rs[i].count);
        if res == Done {
          OneMore(zones, before, added, rs[i]);
          added := added + [rs[i]];
        } else if checked[i] {
          err := res;
        }
        FromNext(added, rs, i);
        i := i + 1;
      }
      ApartSound(zones);
      assert forall k :: 0 <= k < |added| ==> added[k] in added;
      SameAvoids(zones, added);
    }

    /** The range lies behind the first data block and within the file system. */
    predicate InBounds(start: nat, count: nat) {
      firstDataBlock < start && start + count < U64 && start + count <= blocksCount
    }

    /**
     ext4_data_block_valid: on a sound index a non-empty range is accepted exactly if it is
     in bounds and avoids every zone.
     */
    method DataBlockValid(start: nat, count: nat) returns (valid: bool)
      requires Ordered(zones) && Sound(zones) && start < U64 && count < U32
      ensures count > 0 ==> (valid <==> InBounds(start, count) && Avoids(zones, start, count))
      ensures !InBounds(start, count) ==> !valid
    {
      if start <= firstDataBlock || (start + count) % U64 < start || (start + count) % U64 > blocksCount {
        return false;
      }
      var lo, hi := 0, |zones|;
      while lo < hi
        invariant lo <= hi <= |zones|
        invariant count > 0 && MayPass(zones, lo, hi, start, count) ==> MayPass(zones, 0, |zones|, start, count)
        decreases hi - lo
      {
        var m :| lo <= m < hi;
        ghost var lo0, hi0 := lo, hi;
        if start + count - 1 < zones[m].start {
          hi := m;
        } else if start >= End(zones[m]) {
          lo := m + 1;
        } else {
          return false;
        }
        assert MayPass(zones, lo, hi, start, count) ==> PassesAt(zones, lo0, hi0, m, start, count);
      }
      return true;
    }
  }

  /** A range that runs past the zone behind it hides its own end, if that zone is at the root. */
  lemma BlindSpot()
    ensures var zs := [Zone(10, 20), Zone(20, 2)];
      Ordered(zs) && PassesAt(zs, 0, 2, 1, 25, 1) && Covered(zs, 25)
  {
    var zs := [Zone(10, 20), Zone(20, 2)];
    assert !CoveredBehind(zs, 1, 25);
    FreePasses(zs, 2, 2, 25);
    assert zs[0].start <= 25 < End(zs[0]);
  }

  /** It comes about when 20 .. 21 is added first, and so is the root, and then 10 .. 29. */
  method OverlapMissed(firstDataBlock: nat, blocksCount: nat) returns (sb: SystemBlocks, err: Result)
    ensures fresh(sb) && (err == Done ==> Covered(sb.zones, 25) && !Apart(sb.zones) && !Sound(sb.zones))
  {
    sb := new SystemBlocks(firstDataBlock, blocksCount);
    err := sb.AddZone(20, 2);
    if err == Done {
      OnlyTwenty(sb);
      err := sb.AddZone(10, 20);
    }
  }

  lemma OnlyTwenty(sb: SystemBlocks)
    requires Apart(sb.zones) && forall x: nat :: Covered(sb.zones, x) <==> 20 <= x < 22
    ensures !sb.Within(10, 20) && !sb.Before(10, 20)
  {
    var zs := sb.zones;
    assert Covered(zs, 20);
    var k :| 0 <= k < |zs| && zs[k].start <= 20 < End(zs[k]);
    assert Covered(zs, zs[k].start) && Covered(zs, End(zs[k]) - 1);
  }
}
