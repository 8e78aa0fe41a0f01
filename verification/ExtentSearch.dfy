/**
 Search in the extent tree: the linear scan kept in the source as the reference for
 the binary search, the path it induces, and why that path is the right one.
 */
module ExtentSearch {
  import opened Extents
  import opened ExtentTrees

  function Keys(idx: seq<Idx>): (r: seq<nat>)
    ensures |r| == |idx| && forall i :: 0 <= i < |r| ==> r[i] == idx[i].key
  {
    seq(|idx|, i requires 0 <= i < |idx| => idx[i].key)
  }

  function Starts(exts: seq<Extent>): (r: seq<nat>)
    ensures |r| == |exts| && forall i :: 0 <= i < |r| ==> r[i] == exts[i].block
  {
    seq(|exts|, i requires 0 <= i < |exts| => exts[i].block)
  }

  ghost predicate Increasing(keys: seq<nat>) {
    forall i, j :: 0 <= i < j < |keys| ==> keys[i] < keys[j]
  }

  /** The reference scan: walk right until a key exceeds b, keep the last one passed. */
  function Scan(keys: seq<nat>, b: nat): nat {
    ScanFrom(keys, b, 0, 0)
  }

  function ScanFrom(keys: seq<nat>, b: nat, k: nat, chosen: nat): nat
    requires k <= |keys|
    decreases |keys| - k
  {
    if k == |keys| || b < keys[k] then chosen else ScanFrom(keys, b, k + 1, k)
  }

  ghost predicate IsPick(keys: seq<nat>, b: nat, r: nat) {
    && r < |keys|
    && (r > 0 ==> keys[r] <= b)
    && forall k :: r < k < |keys| ==> b < keys[k]
  }

  lemma {:induction false} ScanFromPicks(keys: seq<nat>, b: nat, k: nat, r: nat)
    requires Increasing(keys) && IsPick(keys, b, r) && k <= r
    ensures ScanFrom(keys, b, k, if k == 0 then 0 else k - 1) == r
    decreases r - k
  {
    if k < r {
      assert keys[k] < keys[r];
      ScanFromPicks(keys, b, k + 1, r);
    } else if k + 1 < |keys| && keys[k] <= b {
      assert b < keys[k + 1];
    }
  }

  /** The scan stops at the last key not above b (or at the first key). */
  lemma ScanIsPick(keys: seq<nat>, b: nat, r: nat)
    requires Increasing(keys) && IsPick(keys, b, r)
    ensures Scan(keys, b) == r
  {
    ScanFromPicks(keys, b, 0, r);
  }

  /** ext4_ext_binsearch_idx */
  method BinsearchIdx(idx: seq<Idx>, b: nat) returns (pos: nat)
    requires idx != [] && Increasing(Keys(idx))
    ensures pos == Scan(Keys(idx), b)
    ensures IsPick(Keys(idx), b, pos)
  {
    var l, r := 1, |idx| - 1;
    while l <= r
      invariant 1 <= l <= r + 1 <= |idx|
      invariant forall k :: 1 <= k < l ==> Keys(idx)[k] <= b
      invariant forall k :: r < k < |idx| ==> b < Keys(idx)[k]
    {
      var m := l + (r - l) / 2;
      if b < idx[m].key {
        forall k | m <= k < |idx| ensures b < Keys(idx)[k] {
          assert m < k ==> Keys(idx)[m] < Keys(idx)[k];
        }
        r := m - 1;
      } else {
        forall k | 1 <= k <= m ensures Keys(idx)[k] <= b {
          assert k < m ==> Keys(idx)[k] < Keys(idx)[m];
        }
        l := m + 1;
      }
    }
    pos := l - 1;
    ScanIsPick(Keys(idx), b, pos);
  }

  /** ext4_ext_binsearch; in an empty leaf nothing is found. */
  method Binsearch(exts: seq<Extent>, b: nat) returns (found: bool, pos: nat)
    requires Increasing(Starts(exts))
    ensures found <==> exts != []
    ensures found ==> pos == Scan(Starts(exts), b) && IsPick(Starts(exts), b, pos)
  {
    found, pos := exts != [], 0;
    if !found {
      return;
    }
    var l, r := 1, |exts| - 1;
    while l <= r
      invariant 1 <= l <= r + 1 <= |exts|
      invariant forall k :: 1 <= k < l ==> Starts(exts)[k] <= b
      invariant forall k :: r < k < |exts| ==> b < Starts(exts)[k]
    {
      var m := l + (r - l) / 2;
      if b < exts[m].block {
        forall k | m <= k < |exts| ensures b < Starts(exts)[k] {
          assert m < k ==> Starts(exts)[m] < Starts(exts)[k];
        }
        r := m - 1;
      } else {
        forall k | 1 <= k <= m ensures Starts(exts)[k] <= b {
          assert k < m ==> Starts(exts)[k] < Starts(exts)[m];
        }
        l := m + 1;
      }
    }
    pos := l - 1;
    ScanIsPick(Starts(exts), b, pos);
  }

  // ----- the search path -------------------------------------------------------

  /** Index nodes are non-empty with increasing keys, leaf entries increase: enough to search. */
  ghost predicate Searchable(t: Tree) {
    match t
    case Leaf(_, exts) => Increasing(Starts(exts))
    case Index(_, _, idx, kids) =>
      idx != [] && Increasing(Keys(idx)) && forall i :: 0 <= i < |kids| ==> Searchable(kids[i])
  }

  lemma ScanPicks(keys: seq<nat>, b: nat)
    requires keys != [] && Increasing(keys)
    ensures IsPick(keys, b, Scan(keys, b))
  {
    var r := |keys| - 1;
    while r > 0 && b < keys[r]
      invariant 0 <= r < |keys| && forall k :: r < k < |keys| ==> b < keys[k]
    {
      r := r - 1;
    }
    ScanIsPick(keys, b, r);
  }

  ghost function FindPath(t: Tree, b: nat): Path
    requires Shape(t) && Searchable(t)
  {
    if t.Leaf? then [] else
      ScanPicks(Keys(t.idx), b);
      [Scan(Keys(t.idx), b)] + FindPath(t.kids[Scan(Keys(t.idx), b)], b)
  }

  lemma {:induction false} FindPathIn(t: Tree, b: nat)
    requires Shape(t) && Searchable(t)
    ensures PathIn(t, FindPath(t, b)) && At(t, FindPath(t, b)).Leaf? && |FindPath(t, b)| == Depth(t)
  {
    if t.Index? {
      var i := Scan(Keys(t.idx), b);
      ScanPicks(Keys(t.idx), b);
      FindPathIn(t.kids[i], b);
      assert FindPath(t, b)[1..] == FindPath(t.kids[i], b);
    }
  }

  lemma {:induction false} WellFormedSearchable(t: Tree)
    requires Shape(t) && Tight(t) && (t.Index? ==> NoEmpty(t)) && Sorted(Exts(t))
    ensures Searchable(t)
  {
    if t.Index? {
      KeysSorted(t);
      forall i | 0 <= i < |t.kids| ensures Searchable(t.kids[i]) {
        KidSorted(t, i);
        WellFormedSearchable(t.kids[i]);
      }
    } else {
      forall i, j | 0 <= i < j < |t.exts| ensures Starts(t.exts)[i] < Starts(t.exts)[j] {
        assert ExtentOk(t.exts[i]);
      }
    }
  }

  /** Everything left of the found leaf starts at or below b, everything right of it above b. */
  lemma {:induction false} FindLeft(t: Tree, b: nat)
    requires Shape(t) && Tight(t) && NoEmpty(t) && Searchable(t)
    ensures PathIn(t, FindPath(t, b)) && At(t, FindPath(t, b)).Leaf? && !Empty(At(t, FindPath(t, b)))
    ensures LKey(t) <= b || LeftOf(t, FindPath(t, b)) != [] ==> LKey(At(t, FindPath(t, b))) <= b
  {
    if t.Index? {
      var i := Scan(Keys(t.idx), b);
      ScanPicks(Keys(t.idx), b);
      var k := t.kids[i];
      assert FindPath(t, b)[1..] == FindPath(k, b);
      FindLeft(k, b);
      assert TightEdge(t, i);
      assert i == 0 ==> t.kids[..i] == [];
    }
  }

  lemma {:induction false} FindRight(t: Tree, b: nat)
    requires Shape(t) && Tight(t) && NoEmpty(t) && Searchable(t) && Sorted(Exts(t))
    ensures PathIn(t, FindPath(t, b))
    ensures RightOf(t, FindPath(t, b)) != [] ==> b < RightOf(t, FindPath(t, b))[0].block
  {
    if t.Index? {
      var i := Scan(Keys(t.idx), b);
      ScanPicks(Keys(t.idx), b);
      var k := t.kids[i];
      assert FindPath(t, b)[1..] == FindPath(k, b);
      KidSorted(t, i);
      FindRight(k, b);
      if i + 1 < |t.kids| {
        var k' := t.kids[i + 1];
        assert TightEdge(t, i + 1);
        LKeyFirst(k');
        assert b < Keys(t.idx)[i + 1];
        assert t.kids[i + 1..][0] == k';
      } else {
        assert t.kids[i + 1..] == [];
      }
    }
  }
}
