/**
 Repairing index keys after the first entry of a node changed:
 ext4_ext_correct_indexes and the loop at the end of ext4_ext_rm_idx.
 */
module IndexKeys {
  import opened Extents
  import opened ExtentTrees
  import opened ExtentSearch
  import opened Inodes

  /** The two trees differ at most in their index keys. */
  ghost predicate SameButKeys(t: Tree, u: Tree) {
    match t
    case Leaf(_, _) => u == t
    case Index(max, depth, idx, kids) =>
      && u.Index? && u.max == max && u.depth == depth && |u.idx| == |idx| && |u.kids| == |kids|
      && (forall i :: 0 <= i < |idx| ==> u.idx[i].ptr == idx[i].ptr)
      && (forall i :: 0 <= i < |kids| ==> SameButKeys(kids[i], u.kids[i]))
  }

  lemma {:induction false} SameRefl(t: Tree)
    ensures SameButKeys(t, t)
  {
    if t.Index? {
      forall i | 0 <= i < |t.kids| ensures SameButKeys(t.kids[i], t.kids[i]) {
        SameRefl(t.kids[i]);
      }
    }
  }

  lemma {:induction false} SameTrans(t: Tree, u: Tree, v: Tree)
    requires SameButKeys(t, u) && SameButKeys(u, v)
    ensures SameButKeys(t, v)
  {
    if t.Index? {
      forall i | 0 <= i < |t.kids| ensures SameButKeys(t.kids[i], v.kids[i]) {
        SameTrans(t.kids[i], u.kids[i], v.kids[i]);
      }
    }
  }

  lemma {:induction false} SameExts(t: Tree, u: Tree)
    requires SameButKeys(t, u)
    ensures Exts(u) == Exts(t) && Blocks(u) == Blocks(t)
  {
    if t.Index? {
      SameExtsOf(t.kids, u.kids);
      SamePtrs(t.idx, u.idx);
    }
  }

  lemma {:induction false} SameExtsOf(ts: seq<Tree>, us: seq<Tree>)
    requires |ts| == |us| && forall i :: 0 <= i < |ts| ==> SameButKeys(ts[i], us[i])
    ensures ExtsOf(us) == ExtsOf(ts) && BlocksOf(us) == BlocksOf(ts)
  {
    if ts != [] {
      SameExts(ts[0], us[0]);
      SameExtsOf(ts[1..], us[1..]);
    }
  }

  lemma {:induction false} SamePtrs(a: seq<Idx>, b: seq<Idx>)
    requires |a| == |b| && forall i :: 0 <= i < |a| ==> b[i].ptr == a[i].ptr
    ensures Ptrs(a) == Ptrs(b)
  {
    if a != [] {
      SamePtrs(a[1..], b[1..]);
    }
  }

  lemma {:induction false} SameStructure(t: Tree, u: Tree, cap: nat)
    requires SameButKeys(t, u)
    ensures u.max == t.max && Entries(Top(u)) == Entries(Top(t)) && Depth(u) == Depth(t)
    ensures Empty(u) == Empty(t) && NoEmpty(u) == NoEmpty(t)
    ensures Shape(t) ==> Shape(u)
    ensures Fits(t, cap) ==> Fits(u, cap)
  {
    if t.Index? {
      forall i | 0 <= i < |t.kids|
        ensures u.kids[i].max == t.kids[i].max && Entries(Top(u.kids[i])) == Entries(Top(t.kids[i]))
        ensures Depth(u.kids[i]) == Depth(t.kids[i]) && NoEmpty(u.kids[i]) == NoEmpty(t.kids[i])
        ensures Shape(t.kids[i]) ==> Shape(u.kids[i])
        ensures Fits(t.kids[i], cap) ==> Fits(u.kids[i], cap)
      {
        SameStructure(t.kids[i], u.kids[i], cap);
      }
    }
  }

  lemma {:induction false} SameAt(t: Tree, u: Tree, p: Path)
    requires SameButKeys(t, u) && PathIn(t, p)
    ensures PathIn(u, p) && SameButKeys(At(t, p), At(u, p))
    ensures LeftOf(u, p) == LeftOf(t, p) && RightOf(u, p) == RightOf(t, p)
    ensures Shape(t) && Shape(u) && p != [] ==> BlockAt(u, p) == BlockAt(t, p)
  {
    if p != [] {
      var i := p[0];
      SameAt(t.kids[i], u.kids[i], p[1..]);
      SameExtsOf(t.kids[..i], u.kids[..i]);
      SameExtsOf(t.kids[i + 1..], u.kids[i + 1..]);
    }
  }

  lemma SameWalks(t: Tree, u: Tree, q: Path, path: seq<Step>)
    requires SameButKeys(t, u) && Shape(t) && Shape(u) && Walks(t, q, path)
    ensures Walks(u, q, path)
  {
    SameAt(t, u, q);
    forall k | 0 <= k <= |q| ensures StepOk(u, q, path, k) {
      assert StepOk(t, q, path, k);
      SameAt(t, u, q[..k]);
    }
  }

  // ----- setting one key ---------------------------------------------------------

  function WithKey(idx: seq<Idx>, i: nat, key: nat): seq<Idx>
    requires i < |idx|
  {
    idx[i := Idx(key, idx[i].ptr)]
  }

  ghost predicate HasKey(t: Tree, p: Path, i: nat) {
    PathIn(t, p) && At(t, p).Index? && i < |At(t, p).idx| == |At(t, p).kids|
  }

  ghost function SetKey(t: Tree, p: Path, i: nat, key: nat): Tree
    requires HasKey(t, p, i)
  {
    Update(t, p, At(t, p).(idx := WithKey(At(t, p).idx, i, key)))
  }

  lemma {:induction false} SetKeySame(t: Tree, p: Path, i: nat, key: nat)
    requires HasKey(t, p, i)
    ensures SameButKeys(t, SetKey(t, p, i, key))
  {
    if p == [] {
      SameRefl(t);
    } else {
      SetKeySame(t.kids[p[0]], p[1..], i, key);
      var u := SetKey(t, p, i, key);
      forall j | 0 <= j < |t.kids| ensures SameButKeys(t.kids[j], u.kids[j]) {
        SameRefl(t.kids[j]);
      }
    }
  }

  /** Every key is right except possibly the one pointing at the node at q. */
  ghost predicate TightBut(t: Tree, q: Path)
    requires Shape(t) && PathIn(t, q)
  {
    if q == [] then Tight(t) else
      && (forall i :: 0 <= i < |t.kids| && i != q[0] ==> TightEdge(t, i) && Tight(t.kids[i]))
      && (|q| > 1 ==> TightEdge(t, q[0]))
      && TightBut(t.kids[q[0]], q[1..])
  }

  lemma {:induction false} TightTightBut(t: Tree, q: Path)
    requires Shape(t) && PathIn(t, q) && Tight(t)
    ensures TightBut(t, q)
  {
    if q != [] {
      assert TightEdge(t, q[0]);
      TightTightBut(t.kids[q[0]], q[1..]);
    }
  }

  /** Setting that key repairs it; the damage moves up only if it was the node's first key. */
  lemma {:induction false} SetKeyTight(t: Tree, p: Path, i: nat, key: nat)
    requires Shape(t) && HasKey(t, p, i)
    requires PathIn(t, p + [i]) && TightBut(t, p + [i])
    requires !Empty(At(t, p + [i])) ==> key == LKey(At(t, p + [i]))
    ensures var u := SetKey(t, p, i, key);
      Shape(u) && PathIn(u, p) && TightBut(u, p) && (i != 0 ==> Tight(u))
  {
    var u := SetKey(t, p, i, key);
    var q := p + [i];
    AtShape(t, p);
    UpdateShape(t, p, At(t, p).(idx := WithKey(At(t, p).idx, i, key)));
    UpdateAt(t, p, At(t, p).(idx := WithKey(At(t, p).idx, i, key)));
    if p == [] {
      assert q == [i] && q[1..] == [] && At(t, q) == t.kids[i];
      forall j | 0 <= j < |u.kids| ensures TightEdge(u, j) && Tight(u.kids[j]) {
        assert j != i ==> TightEdge(t, j) && Tight(t.kids[j]);
      }
    } else {
      var c, k := p[0], t.kids[p[0]];
      assert q[0] == c && q[1..] == p[1..] + [i];
      SetKeyTight(k, p[1..], i, key);
      var k' := SetKey(k, p[1..], i, key);
      assert u.kids == t.kids[c := k'];
      assert TightEdge(t, c);
      SetKeySame(k, p[1..], i, key);
      SameStructure(k, k', 0);
      assert |p| > 1 || i != 0 ==> (!Empty(k) ==> LKey(k') == LKey(k));
      forall j | 0 <= j < |u.kids| && j != c ensures TightEdge(u, j) && Tight(u.kids[j]) {
        assert TightEdge(t, j);
      }
      if i != 0 {
        assert TightEdge(u, c);
      }
    }
  }

  // ----- the loops ---------------------------------------------------------------

  /** Write `key` into slot i of the node named by `step`. */
  method StoreKey(inode: Inode, step: Step, key: nat, ghost p: Path, i: nat)
    requires inode.Stored() && NoDup(Blocks(inode.t))
    requires HasKey(inode.t, p, i) && step.loc == LocAt(inode.t, p)
    modifies inode`root, inode`disk, inode`t
    ensures inode.Stored() && inode.t == SetKey(old(inode.t), p, i, key)
    ensures SameButKeys(old(inode.t), inode.t)
  {
    ghost var t := inode.t;
    inode.NodeOnPath(p);
    var n := inode.NodeAt(step.loc);
    ghost var s := At(t, p).(idx := WithKey(n.idx, i, key));
    AtRep(inode.disk, t, p);
    SetKeySame(t, p, i, key);
    SetKeySame(At(t, p), [], i, key);
    SameExts(At(t, p), s);
    SameStructure(At(t, p), s, 0);
    if p != [] {
      BlockNotBelow(t, p);
    }
    inode.WriteNode(step.loc, IndexNode(n.max, n.depth, WithKey(n.idx, i, key)), p, s);
  }

  lemma {:induction false} BlockNotBelow(t: Tree, p: Path)
    requires Shape(t) && NoDup(Blocks(t)) && PathIn(t, p) && p != []
    ensures BlockAt(t, p) !in Blocks(At(t, p))
  {
    if |p| == 1 {
      PtrNotBelow(t, p[0], p[0]);
      assert At(t, p) == t.kids[p[0]];
    } else {
      KidNoDup(t, p[0]);
      BlockNotBelow(t.kids[p[0]], p[1..]);
    }
  }

  /** Put `border`, the new first key of the node at q, into the keys above it. */
  method RaiseKey(inode: Inode, path: seq<Step>, border: nat, ghost q: Path)
    requires inode.Stored() && NoDup(Blocks(inode.t)) && Walks(inode.t, q, path) && TightBut(inode.t, q)
    requires !Empty(At(inode.t, q)) ==> LKey(At(inode.t, q)) == border
    modifies inode`root, inode`disk, inode`t
    ensures inode.Stored() && SameButKeys(old(inode.t), inode.t) && Tight(inode.t)
  {
    ghost var t0 := inode.t;
    SameRefl(t0);
    var k := |path| - 1;
    assert q[..k] == q;
    while k > 0
      invariant 0 <= k <= |q|
      invariant inode.Stored() && SameButKeys(t0, inode.t)
      invariant PathIn(inode.t, q) && PathIn(inode.t, q[..k]) && TightBut(inode.t, q[..k])
      invariant !Empty(At(inode.t, q[..k])) ==> LKey(At(inode.t, q[..k])) == border
    {
      ghost var t := inode.t;
      ghost var p := q[..k - 1];
      assert q[..k] == p + [q[k - 1]];
      SameExts(t0, t);
      SameWalks(t0, t, q, path);
      assert StepOk(t, q, path, k - 1);
      PathPrefix(t, q, k - 1);
      AtShape(t, p);
      var i := path[k - 1].pos.i;
      StoreKey(inode, path[k - 1], border, p, i);
      SetKeyTight(t, p, i, border);
      SameTrans(t0, t, inode.t);
      SameAt(t, inode.t, q);
      UpdateAt(t, p, At(t, p).(idx := WithKey(At(t, p).idx, i, border)));
      k := k - 1;
      if i != 0 {
        break;
      }
    }
    assert k == 0 ==> q[..k] == [];
  }

  /**
   ext4_ext_correct_indexes: after the leaf at q changed in place, make every key above
   it agree again. Only a change of the leaf's first entry needs work.
   */
  method CorrectIndexes(inode: Inode, path: seq<Step>, ghost q: Path) returns (err: Status)
    requires inode.Stored() && NoDup(Blocks(inode.t))
    requires Walks(inode.t, q, path) && At(inode.t, q).Leaf? && At(inode.t, q).exts != []
    requires path[|q|].pos.Slot?
    requires if path[|q|].pos == Slot(0) then TightBut(inode.t, q) else Tight(inode.t)
    modifies inode`root, inode`disk, inode`t
    ensures err == Ok
    ensures inode.Stored() && SameButKeys(old(inode.t), inode.t) && Tight(inode.t)
  {
    ghost var t0 := inode.t;
    SameRefl(t0);
    var depth := NodeDepth(inode.root);
    AtShape(t0, q);
    assert depth == |q|;
    if depth == 0 {
      return Ok;
    }
    if path[depth].pos != Slot(0) {
      return Ok;
    }
    assert StepOk(t0, q, path, depth) && q[..depth] == q;
    inode.NodeOnPath(q);
    var border := inode.NodeAt(path[depth].loc).exts[0].block;
    RaiseKey(inode, path, border, q);
    return Ok;
  }
}
