/**
 How local changes of a node act on the tree-wide properties.
 */
module TreeUpdates {
  import opened Extents
  import opened ExtentTrees
  import opened ExtentSearch
  import opened IndexKeys

  /** Exchanging a subtree for one with the same first key keeps all keys right. */
  lemma {:induction false} UpdateTight(t: Tree, p: Path, s: Tree)
    requires Shape(t) && PathIn(t, p) && Tight(t)
    requires Shape(s) && Depth(s) == Depth(At(t, p)) && Tight(s)
    requires p != [] && !Empty(s) ==> !Empty(At(t, p)) && LKey(s) == LKey(At(t, p))
    ensures Shape(Update(t, p, s)) && Tight(Update(t, p, s))
  {
    UpdateShape(t, p, s);
    if p != [] {
      var c, k := p[0], t.kids[p[0]];
      UpdateTight(k, p[1..], s);
      var u, k' := Update(t, p, s), Update(k, p[1..], s);
      UpdateAt(k, p[1..], s);
      forall j | 0 <= j < |u.kids| ensures TightEdge(u, j) && Tight(u.kids[j]) {
        assert TightEdge(t, j);
      }
    }
  }

  /** After any change below q, only the key pointing at q can be wrong. */
  lemma {:induction false} UpdateTightBut(t: Tree, q: Path, s: Tree)
    requires Shape(t) && PathIn(t, q) && TightBut(t, q)
    requires Shape(s) && Depth(s) == Depth(At(t, q)) && Tight(s)
    ensures Shape(Update(t, q, s)) && PathIn(Update(t, q, s), q) && TightBut(Update(t, q, s), q)
  {
    UpdateShape(t, q, s);
    UpdateAt(t, q, s);
    if q != [] {
      var c, k := q[0], t.kids[q[0]];
      UpdateTightBut(k, q[1..], s);
      var u := Update(t, q, s);
      UpdateAt(k, q[1..], s);
      forall j | 0 <= j < |u.kids| && j != c ensures TightEdge(u, j) && Tight(u.kids[j]) {
        assert TightEdge(t, j);
      }
      if |q| > 1 {
        assert TightEdge(t, c);
        assert TightEdge(u, c);
      }
    }
  }

  lemma {:induction false} UpdateNoEmpty(t: Tree, p: Path, s: Tree)
    requires PathIn(t, p) && NoEmpty(t) && NoEmpty(s)
    ensures NoEmpty(Update(t, p, s))
  {
    if p != [] {
      UpdateNoEmpty(t.kids[p[0]], p[1..], s);
    }
  }

  lemma {:induction false} UpdateFits(t: Tree, p: Path, s: Tree, cap: nat)
    requires PathIn(t, p) && Fits(t, cap) && Fits(s, cap)
    requires p != [] ==> s.max == cap && Entries(Top(s)) <= cap
    ensures Fits(Update(t, p, s), cap)
  {
    if p != [] {
      var k := t.kids[p[0]];
      UpdateFits(k, p[1..], s, cap);
      UpdateAt(k, p[1..], s);
    }
  }

  lemma {:induction false} AtFits(t: Tree, p: Path, cap: nat)
    requires PathIn(t, p) && Fits(t, cap)
    ensures Fits(At(t, p), cap)
    ensures p != [] ==> At(t, p).max == cap && Entries(Top(At(t, p))) <= cap
  {
    if p != [] {
      AtFits(t.kids[p[0]], p[1..], cap);
    }
  }

  lemma {:induction false} AtTightNoEmpty(t: Tree, p: Path)
    requires Shape(t) && PathIn(t, p)
    ensures Shape(At(t, p))
    ensures Tight(t) ==> Tight(At(t, p))
    ensures NoEmpty(t) ==> NoEmpty(At(t, p))
  {
    if p != [] {
      AtTightNoEmpty(t.kids[p[0]], p[1..]);
    }
  }

  /** Emptying or filling a leaf does not disturb the search above it. */
  lemma {:induction false} LeafSearch(t: Tree, q: Path, s: Tree, b: nat)
    requires Shape(t) && Searchable(t) && PathIn(t, q) && At(t, q).Leaf? && s.Leaf? && Searchable(s)
    ensures Shape(Update(t, q, s)) && Searchable(Update(t, q, s))
    ensures FindPath(Update(t, q, s), b) == FindPath(t, b)
  {
    UpdateShape(t, q, s);
    if q != [] {
      var k := t.kids[q[0]];
      LeafSearch(k, q[1..], s, b);
      ScanPicks(Keys(t.idx), b);
    }
  }

  /** In a sorted tree an extent lies in one leaf only. */
  lemma {:induction false} OwnerUnique(t: Tree, p: Path, q: Path, e: Extent)
    requires Sorted(Exts(t)) && PathIn(t, p) && PathIn(t, q)
    requires At(t, p).Leaf? && At(t, q).Leaf? && e in At(t, p).exts && e in At(t, q).exts
    ensures p == q
  {
    if p != [] && q != [] {
      ExtsAt(t.kids[p[0]], p[1..]);
      ExtsAt(t.kids[q[0]], q[1..]);
      if p[0] < q[0] {
        KidsOrder(t, p[0], q[0], e, e);
      } else if q[0] < p[0] {
        KidsOrder(t, q[0], p[0], e, e);
      } else {
        KidSorted(t, p[0]);
        OwnerUnique(t.kids[p[0]], p[1..], q[1..], e);
      }
    }
  }

  /** The tree search picks the very extent a linear scan over the whole file picks. */
  lemma FindFlat(t: Tree, b: nat)
    requires Shape(t) && Tight(t) && NoEmpty(t) && Sorted(Exts(t)) && Searchable(t)
    ensures PathIn(t, FindPath(t, b)) && At(t, FindPath(t, b)).Leaf? && At(t, FindPath(t, b)).exts != []
    ensures Scan(Starts(Exts(t)), b) ==
            |LeftOf(t, FindPath(t, b))| + Scan(Starts(At(t, FindPath(t, b)).exts), b)
    ensures IsPick(Starts(Exts(t)), b, Scan(Starts(Exts(t)), b))
  {
    var q := FindPath(t, b);
    FindLeft(t, b);
    FindRight(t, b);
    ExtsAt(t, q);
    SortedIncreasing(Exts(t));
    var l, x, r := LeftOf(t, q), At(t, q).exts, RightOf(t, q);
    SortedParts(l + x, r);
    SortedParts(l, x);
    SortedIncreasing(x);
    ScanPicks(Starts(x), b);
    var n := |l| + Scan(Starts(x), b);
    FlatPick(l, x, r, b, Scan(Starts(x), b));
    ScanIsPick(Starts(Exts(t)), b, n);
  }

  lemma SortedIncreasing(s: seq<Extent>)
    requires Sorted(s)
    ensures Increasing(Starts(s))
  {
    forall i, j | 0 <= i < j < |s| ensures Starts(s)[i] < Starts(s)[j] {
      assert ExtentOk(s[i]);
    }
  }

  lemma FlatPick(l: seq<Extent>, x: seq<Extent>, r: seq<Extent>, b: nat, n: nat)
    requires Sorted(l + x + r) && x != [] && IsPick(Starts(x), b, n)
    requires l != [] ==> x[0].block <= b
    requires r != [] ==> b < r[0].block
    ensures IsPick(Starts(l + x + r), b, |l| + n)
  {
    var s := l + x + r;
    SortedIncreasing(s);
    assert Starts(s)[|l| + n] == x[n].block;
    forall k | |l| + n < k < |s| ensures b < Starts(s)[k] {
      if k < |l| + |x| {
        assert s[k] == x[k - |l|];
        assert b < Starts(x)[k - |l|];
      } else {
        assert s[|l| + |x|] == r[0];
        assert Starts(s)[|l| + |x|] <= Starts(s)[k];
      }
    }
  }
}
