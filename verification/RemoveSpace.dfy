/**
 ext4_ext_remove_space: remove a range of logical blocks from the whole tree. The code walks
 the tree from right to left with an explicit path array and uses `p_block` of an index
 level to remember how many entries it had before the walk went below.
 */
module RemoveSpace {
  import opened Extents
  import opened ExtentTrees
  import opened ExtentSearch
  import opened Inodes
  import opened IndexKeys
  import opened TreeUpdates
  import opened ExtentSplit
  import opened ExtentGrow
  import opened ExtentMerge
  import opened ExtentNeighbours
  import opened ExtentInsert
  import opened ExtentConvert
  import opened ExtentWritten
  import opened RangeRemoval
  import opened ExtentRemove
  import opened RemovalWalk

  // ----- runs --------------------------------------------------------------------------

  /** Every extent of the run starts inside or in front of the range. */
  ghost predicate UpTo(s: seq<Extent>, hi: nat) {
    forall i :: 0 <= i < |s| ==> s[i].block <= hi
  }

  lemma CutSplit(s: seq<Extent>, m: nat, n: nat, lo: nat, hi: nat)
    requires m <= n <= |s|
    ensures Cut(s[m..], lo, hi) == Cut(s[m..n], lo, hi) + Cut(s[n..], lo, hi)
  {
    assert s[m..] == s[m..n] + s[n..];
    CutAppend(s[m..n], s[n..], lo, hi);
  }

  /**
   Something survived among the extents m..n-1, which all start at or before hi: then it
   starts before lo, and everything left of m is out of reach.
   */
  lemma SurvivorSafe(s: seq<Extent>, m: nat, n: nat, lo: nat, hi: nat)
    requires Sorted(s) && m <= n <= |s| && UpTo(s[..n], hi) && Cut(s[m..n], lo, hi) != []
    ensures Safe(s[..m], lo)
  {
    var e := Cut(s[m..n], lo, hi)[0];
    SortedSlice(s, m, n);
    CutElement(s[m..n], lo, hi, e);
    var i :| 0 <= i < |s[m..n]| && s[m..n][i].block == e.block;
    assert s[..n][m + i].block <= hi;
    assert s[m + i].block < lo;
    forall k | 0 <= k < m ensures End(s[..m][k]) <= lo {
      assert End(s[k]) <= s[m + i].block;
    }
  }

  lemma SamePrefix(y: seq<Extent>, a: seq<Extent>, r: seq<Extent>)
    requires y + r == a + r
    ensures y == a
  {
    assert |y| == |a|;
    assert y == (y + r)[..|y|] && a == (a + r)[..|a|];
  }

  /** The child was not removed, so it kept a survivor: the walk may stop at this level. */
  lemma StopHere(s: seq<Extent>, m: nat, n: nat, y: seq<Extent>, lo: nat, hi: nat)
    requires Sorted(s) && m <= |s| && n <= |s| && UpTo(s[..n], hi) && y != []
    requires y + Cut(s[n..], lo, hi) == Cut(s[m..], lo, hi)
    ensures Safe(s[..m], lo)
  {
    assert |y| + |Cut(s[n..], lo, hi)| == |Cut(s[m..], lo, hi)|;
    if n <= m {
      CutSplit(s, n, m, lo, hi);
    } else {
      CutSplit(s, m, n, lo, hi);
      SamePrefix(y, Cut(s[m..n], lo, hi), Cut(s[n..], lo, hi));
      SurvivorSafe(s, m, n, lo, hi);
    }
  }

  // ----- the state of the walk -------------------------------------------------------------

  /** The extents the walk has not dealt with yet. */
  ghost function Pending(t: Tree, q: Path, pos: Cursor): seq<Extent>
    requires PathIn(t, q)
  {
    var n := At(t, q);
    if n.Leaf? then LeftOf(t, q) + n.exts
    else if pos.Slot? && 0 <= pos.i <= |n.kids| then LeftOf(t, q) + ExtsOf(n.kids[..pos.i])
    else LeftOf(t, q) + ExtsOf(n.kids)
  }

  /** The run s0 is whole up to `pending`, and cut from there on. */
  ghost predicate Progress(exts: seq<Extent>, pending: seq<Extent>, s0: seq<Extent>, lo: nat, hi: nat) {
    pending <= s0 && exts == CutFrom(s0, |pending|, lo, hi)
  }

  /**
   What p_block of a level above the walk means: if the entry count still equals it when
   the walk comes back, no entry was removed, and everything below started in front of hi.
   `n` extents were pending when the walk went below.
   */
  ghost predicate LevelOk(t: Tree, q: Path, path: seq<Step>, k: nat, s0: seq<Extent>, n: nat, lo: nat, hi: nat)
    requires k < |q| && k < |path|
  {
    && PathIn(t, q[..k]) && At(t, q[..k]).Index? && PathIn(t, q[..k + 1])
    && |At(t, q[..k]).idx| <= path[k].pblock
    && (|At(t, q[..k]).idx| == path[k].pblock ==>
          n <= |s0| && UpTo(s0[..n], hi) && RightOf(t, q[..k + 1]) == Cut(s0[n..], lo, hi))
  }

  ghost predicate LevelsOk(t: Tree, q: Path, path: seq<Step>, s0: seq<Extent>, ns: seq<nat>, lo: nat, hi: nat)
    requires |q| <= |path|
  {
    |ns| == |q| && forall k :: 0 <= k < |q| ==> LevelOk(t, q, path, k, s0, ns[k], lo, hi)
  }

  /** p_block of the level the walk stands on, after it came back from below. */
  ghost predicate Returned(n: Tree, step: Step, pending: seq<Extent>, lo: nat)
    requires n.Index?
  {
    && step.pos.Slot? && 0 <= step.pos.i <= |n.kids|
    && |n.idx| <= step.pblock
    && (|n.idx| == step.pblock ==> Safe(pending, lo))
  }

  ghost predicate Fresh(t: Tree, q: Path, path: seq<Step>)
    requires PathIn(t, q) && |path| > |q|
  {
    At(t, q).Leaf? || path[|q|].pos.Null?
  }

  /** The walk stands on the node at q. `first`: still on the leaf a search for the range's end found. */
  ghost predicate Visiting(t: Tree, cap: nat, q: Path, path: seq<Step>, s0: seq<Extent>, ns: seq<nat>,
                           lo: nat, hi: nat, first: bool) {
    && Trimmed(t, q, cap) && Walks(t, q, path)
    && Progress(Exts(t), Pending(t, q, path[|q|].pos), s0, lo, hi)
    && LevelsOk(t, q, path, s0, ns, lo, hi)
    && (if first then At(t, q).Leaf? && RightFrom(t, q, hi + 1) else UpTo(Pending(t, q, path[|q|].pos), hi))
    && (if Fresh(t, q, path) then !Empty(At(t, q)) || (q == [] && t.Leaf?)
        else Returned(At(t, q), path[|q|], Pending(t, q, path[|q|].pos), lo))
  }

  ghost predicate Finished(t: Tree, cap: nat, s0: seq<Extent>, lo: nat, hi: nat) {
    Trimmed(t, [], cap) && Exts(t) == Cut(s0, lo, hi)
  }

  // ----- going up ----------------------------------------------------------------------------

  lemma LevelUp(t: Tree, u: Tree, q: Path, path: seq<Step>, k: nat, s0: seq<Extent>, n: nat, lo: nat, hi: nat)
    requires k + 1 < |q| && |path| > |q| && LevelOk(t, q, path, k, s0, n, lo, hi)
    requires SameBeside(t, u, q[..|q| - 1], k)
    ensures LevelOk(u, q[..|q| - 1], path[..|q|], k, s0, n, lo, hi)
  {
    var p := q[..|q| - 1];
    assert p[..k] == q[..k] && p[..k + 1] == q[..k + 1];
  }

  lemma LevelsUp(t: Tree, u: Tree, q: Path, path: seq<Step>, s0: seq<Extent>, ns: seq<nat>, lo: nat, hi: nat)
    requires q != [] && |path| > |q| && LevelsOk(t, q, path, s0, ns, lo, hi) && Beside(t, u, q[..|q| - 1])
    ensures LevelsOk(u, q[..|q| - 1], path[..|q|], s0, ns[..|q| - 1], lo, hi)
  {
    var p, path', ns' := q[..|q| - 1], path[..|q|], ns[..|q| - 1];
    forall k | 0 <= k < |p| ensures LevelOk(u, p, path', k, s0, ns'[k], lo, hi) {
      assert LevelOk(t, q, path, k, s0, ns[k], lo, hi);
      assert SameBeside(t, u, p, k);
      LevelUp(t, u, q, path, k, s0, ns[k], lo, hi);
    }
  }

  lemma ReturnedUp(t: Tree, u: Tree, q: Path, path: seq<Step>, s0: seq<Extent>, n: nat, lo: nat, hi: nat,
                   y: seq<Extent>)
    requires q != [] && |path| > |q| && Climbed(t, q, u, y) && LevelOk(t, q, path, |q| - 1, s0, n, lo, hi)
    requires path[|q| - 1].pos == Slot(q[|q| - 1]) && Sorted(s0) && LeftOf(t, q) <= s0
    requires y + RightOf(t, q) == Cut(s0[|LeftOf(t, q)|..], lo, hi)
    ensures Returned(At(u, q[..|q| - 1]), path[|q| - 1], LeftOf(t, q), lo)
  {
    var d := |q| - 1;
    assert q[..d + 1] == q;
    if |At(u, q[..d]).idx| == path[d].pblock {
      assert y != [];
      StopHere(s0, |LeftOf(t, q)|, n, y, lo, hi);
      assert s0[..|LeftOf(t, q)|] == LeftOf(t, q);
    }
  }

  /** The walk after a step up from the child at q, of which y is left. */
  lemma StepUp(t: Tree, u: Tree, cap: nat, q: Path, path: seq<Step>, s0: seq<Extent>, ns: seq<nat>,
               lo: nat, hi: nat, y: seq<Extent>)
    requires q != [] && |path| == |q| + 1 && Shape(t) && Walks(t, q, path) && Climbed(t, q, u, y)
    requires Trimmed(u, q[..|q| - 1], cap) && Walks(u, q[..|q| - 1], path[..|q|])
    requires LevelsOk(t, q, path, s0, ns, lo, hi) && Sorted(s0) && LeftOf(t, q) <= s0 && UpTo(LeftOf(t, q), hi)
    requires y + RightOf(t, q) == Cut(s0[|LeftOf(t, q)|..], lo, hi)
    ensures Visiting(u, cap, q[..|q| - 1], path[..|q|], s0, ns[..|q| - 1], lo, hi, false)
    ensures Pending(u, q[..|q| - 1], path[|q| - 1].pos) == LeftOf(t, q)
    ensures !Fresh(u, q[..|q| - 1], path[..|q|])
  {
    var d := |q| - 1;
    WalksPrefix(t, q, path, d);
    LevelsUp(t, u, q, path, s0, ns, lo, hi);
    assert LevelOk(t, q, path, d, s0, ns[d], lo, hi);
    ReturnedUp(t, u, q, path, s0, ns[d], lo, hi, y);
    SeqAssoc(LeftOf(t, q), y, RightOf(t, q));
    assert LeftOf(t, q) == s0[..|LeftOf(t, q)|];
  }

  lemma LeafInRun(l: seq<Extent>, x: seq<Extent>, s0: seq<Extent>, hi: nat)
    requires l + x <= s0 && Sorted(s0) && NoStraddle(s0, hi)
    ensures Sorted(x) && NoStraddle(x, hi)
    ensures l != [] && l[|l| - 1].block <= hi ==> UpTo(l, hi)
  {
    assert x == s0[|l|..|l| + |x|];
    assert forall i :: 0 <= i < |l| ==> l[i] == s0[i];
    forall i | 0 <= i < |l| && l[|l| - 1].block <= hi ensures l[i].block <= hi {
      assert ExtentOk(s0[i]);
      assert i < |l| - 1 ==> End(s0[i]) <= s0[|l| - 1].block;
    }
  }

  lemma LeafVisit(t: Tree, cap: nat, q: Path, path: seq<Step>, s0: seq<Extent>, ns: seq<nat>, lo: nat, hi: nat,
                  first: bool)
    requires Visiting(t, cap, q, path, s0, ns, lo, hi, first) && At(t, q).Leaf? && Sorted(s0) && NoStraddle(s0, hi)
    ensures LeafAt(t, q, hi)
    ensures UpTo(LeftOf(t, q), hi) && LeftOf(t, q) <= s0
    ensures Cut(At(t, q).exts, lo, hi) + RightOf(t, q) == Cut(s0[|LeftOf(t, q)|..], lo, hi)
  {
    var l, x, r := LeftOf(t, q), At(t, q).exts, RightOf(t, q);
    LeafInRun(l, x, s0, hi);
    ExtsAt(t, q);
    assert s0[..|l + x|] == l + x;
    SameSuffix(l + x, r, Cut(s0[|l + x|..], lo, hi));
    CutSplit(s0, |l|, |l + x|, lo, hi);
    assert s0[|l|..|l + x|] == x;
    if !first {
      UpToPart(l, x, hi);
    }
  }

  lemma UpToPart(l: seq<Extent>, x: seq<Extent>, hi: nat)
    requires UpTo(l + x, hi)
    ensures UpTo(l, hi)
  {
    forall i | 0 <= i < |l| ensures l[i].block <= hi {
      assert (l + x)[i] == l[i];
    }
  }

  lemma SameSuffix(p: seq<Extent>, a: seq<Extent>, b: seq<Extent>)
    requires p + a == p + b
    ensures a == b
  {
    assert a == (p + a)[|p|..] && b == (p + b)[|p|..];
  }

  /** After ext4_ext_rm_leaf: finished, or one level up. */
  lemma LeafStep(t: Tree, u: Tree, cap: nat, q: Path, path: seq<Step>, s0: seq<Extent>, ns: seq<nat>,
                 lo: nat, hi: nat, first: bool)
    requires Visiting(t, cap, q, path, s0, ns, lo, hi, first) && At(t, q).Leaf? && Sorted(s0) && NoStraddle(s0, hi)
    requires LeafDone(t, q, u, Cut(At(t, q).exts, lo, hi), cap, path)
    ensures q == [] ==> Finished(u, cap, s0, lo, hi)
    ensures q != [] ==>
      && Visiting(u, cap, q[..|q| - 1], path[..|q|], s0, ns[..|q| - 1], lo, hi, false)
      && !Fresh(u, q[..|q| - 1], path[..|q|])
      && |Pending(u, q[..|q| - 1], path[|q| - 1].pos)| < |Pending(t, q, path[|q|].pos)|
  {
    LeafVisit(t, cap, q, path, s0, ns, lo, hi, first);
    if q != [] {
      StepUp(t, u, cap, q, path, s0, ns, lo, hi, Cut(At(t, q).exts, lo, hi));
    }
  }

  /** A level is done: no entry left of the walk, or the child below kept a survivor. */
  ghost predicate NoMore(n: Tree, step: Step)
    requires n.Index? && step.pos.Slot?
  {
    step.pos.i == 0 || |n.idx| == step.pblock
  }

  lemma NodeVisit(t: Tree, cap: nat, q: Path, path: seq<Step>, s0: seq<Extent>, ns: seq<nat>, lo: nat, hi: nat)
    requires Visiting(t, cap, q, path, s0, ns, lo, hi, false) && At(t, q).Index? && !Fresh(t, q, path)
    requires NoMore(At(t, q), path[|q|])
    ensures UpTo(LeftOf(t, q), hi) && LeftOf(t, q) <= s0
    ensures Exts(At(t, q)) + RightOf(t, q) == Cut(s0[|LeftOf(t, q)|..], lo, hi)
  {
    var n := At(t, q);
    var l, z, r := LeftOf(t, q), ExtsOf(n.kids[..path[|q|].pos.i]), RightOf(t, q);
    UpToPart(l, z, hi);
    assert s0[..|l + z|] == l + z;
    ExtsAt(t, q);
    SeqAssoc(l, Exts(n), r);
    SeqAssoc(l, z, Cut(s0[|l + z|..], lo, hi));
    SameSuffix(l, Exts(n) + r, z + Cut(s0[|l + z|..], lo, hi));
    CutSplit(s0, |l|, |l + z|, lo, hi);
    assert s0[|l|..|l + z|] == z;
    if path[|q|].pos.i == 0 {
      assert n.kids[..0] == [];
    } else {
      forall i | 0 <= i < |z| ensures End(z[i]) <= lo {
        assert (l + z)[|l| + i] == z[i];
      }
      CutSafe(z, lo, hi);
    }
  }

  lemma ClimbStay(t: Tree, q: Path, cap: nat)
    requires Trimmed(t, q, cap) && q != [] && !Empty(At(t, q))
    ensures Climbed(t, q, t, Exts(At(t, q)))
  {
    var d := |q| - 1;
    ButFull(t, q);
    AtTightNoEmpty(t, q);
    LKeyFirst(At(t, q));
    SidesAt(t, q, d);
    assert q[..d + 1] == q;
    ExtsAt(t, q);
    SameRefl(t);
    PathPrefix(t, q, d);
    SameBesideAll(t, t, q[..d]);
  }

  lemma EmptyNode(n: Tree)
    requires Shape(n) && n.Index? && Empty(n)
    ensures Exts(n) == [] && Blocks(n) == multiset{}
  {
    assert n.kids == [];
  }

  /** Leaving a node that still has entries. */
  lemma NodeStep(t: Tree, cap: nat, q: Path, path: seq<Step>, s0: seq<Extent>, ns: seq<nat>, lo: nat, hi: nat)
    requires Visiting(t, cap, q, path, s0, ns, lo, hi, false) && At(t, q).Index? && !Fresh(t, q, path)
    requires NoMore(At(t, q), path[|q|]) && q != [] && !Empty(At(t, q)) && Sorted(s0)
    ensures Visiting(t, cap, q[..|q| - 1], path[..|q|], s0, ns[..|q| - 1], lo, hi, false)
    ensures !Fresh(t, q[..|q| - 1], path[..|q|])
    ensures |Pending(t, q[..|q| - 1], path[|q| - 1].pos)| <= |Pending(t, q, path[|q|].pos)|
  {
    NodeVisit(t, cap, q, path, s0, ns, lo, hi);
    ClimbStay(t, q, cap);
    TrimmedUp(t, q, cap, |q| - 1);
    WalksPrefix(t, q, path, |q| - 1);
    StepUp(t, t, cap, q, path, s0, ns, lo, hi, Exts(At(t, q)));
  }

  /** Leaving a node whose entries were all removed, and which was removed with them. */
  lemma GoneStep(t: Tree, u: Tree, cap: nat, q: Path, path: seq<Step>, s0: seq<Extent>, ns: seq<nat>, lo: nat, hi: nat)
    requires Visiting(t, cap, q, path, s0, ns, lo, hi, false) && At(t, q).Index? && !Fresh(t, q, path)
    requires NoMore(At(t, q), path[|q|]) && q != [] && Exts(At(t, q)) == [] && Sorted(s0)
    requires Climbed(t, q, u, []) && Trimmed(u, q[..|q| - 1], cap) && Walks(u, q[..|q| - 1], path[..|q|])
    ensures Visiting(u, cap, q[..|q| - 1], path[..|q|], s0, ns[..|q| - 1], lo, hi, false)
    ensures !Fresh(u, q[..|q| - 1], path[..|q|])
    ensures |Pending(u, q[..|q| - 1], path[|q| - 1].pos)| <= |Pending(t, q, path[|q|].pos)|
  {
    NodeVisit(t, cap, q, path, s0, ns, lo, hi);
    StepUp(t, u, cap, q, path, s0, ns, lo, hi, []);
  }

  // ----- going down --------------------------------------------------------------------------

  /** The path array after one step down to child c. */
  function Descended(path: seq<Step>, n: Node, c: nat): seq<Step>
    requires path != [] && n.IndexNode? && c < |n.idx|
  {
    var d := |path| - 1;
    path[..d] + [Step(path[d].loc, Slot(c), |n.idx|), Step(InBlock(n.idx[c].ptr), Null, 0)]
  }

  lemma WalksDown(t: Tree, q: Path, path: seq<Step>, c: nat)
    requires Shape(t) && Walks(t, q, path) && At(t, q).Index? && c < |At(t, q).kids|
    ensures Shape(At(t, q)) && PathIn(t, q + [c]) && Walks(t, q + [c], Descended(path, Top(At(t, q)), c))
  {
    AtShape(t, q);
    PathJoin(t, q, [c]);
    BlockAtJoin(t, q, c);
    var q', path' := q + [c], Descended(path, Top(At(t, q)), c);
    forall k | 0 <= k <= |q'| ensures StepOk(t, q', path', k) {
      if k <= |q| {
        assert StepOk(t, q, path, k);
        assert q'[..k] == q[..k];
      } else {
        assert q'[..k] == q';
      }
    }
  }

  lemma LevelsDown(t: Tree, q: Path, path: seq<Step>, c: nat, s0: seq<Extent>, ns: seq<nat>, n: nat, lo: nat, hi: nat)
    requires Shape(t) && Walks(t, q, path) && At(t, q).Index? && c < |At(t, q).kids| == |At(t, q).idx|
    requires PathIn(t, q + [c])
    requires LevelsOk(t, q, path, s0, ns, lo, hi)
    requires n <= |s0| && UpTo(s0[..n], hi) && RightOf(t, q + [c]) == Cut(s0[n..], lo, hi)
    ensures LevelsOk(t, q + [c], Descended(path, Top(At(t, q)), c), s0, ns + [n], lo, hi)
  {
    var q', path', ns' := q + [c], Descended(path, Top(At(t, q)), c), ns + [n];
    forall k | 0 <= k < |q'| ensures LevelOk(t, q', path', k, s0, ns'[k], lo, hi) {
      assert q'[..k] == q[..k];
      if k < |q| {
        assert LevelOk(t, q, path, k, s0, ns[k], lo, hi);
        assert q'[..k + 1] == q[..k + 1];
      } else {
        assert q[..k] == q && q'[..k + 1] == q';
      }
    }
  }

  /** Which child is next. */
  ghost predicate NextChild(n: Tree, pos: Cursor, c: nat)
    requires n.Index?
  {
    c < |n.kids| && (if pos.Null? then c + 1 == |n.kids| else pos == Slot(c + 1))
  }

  lemma LeftDown(t: Tree, q: Path, c: nat)
    requires PathIn(t, q) && At(t, q).Index? && c < |At(t, q).kids|
    ensures PathIn(t, q + [c]) && At(t, q + [c]) == At(t, q).kids[c]
    ensures LeftOf(t, q + [c]) == LeftOf(t, q) + ExtsOf(At(t, q).kids[..c])
  {
    PathJoin(t, q, [c]);
    var q' := q + [c];
    assert q'[..|q|] == q && q'[..|q| + 1] == q';
    SidesAt(t, q', |q|);
  }

  lemma KidsUpTo(ts: seq<Tree>, c: nat)
    requires c < |ts|
    ensures ExtsOf(ts[..c + 1]) == ExtsOf(ts[..c]) + Exts(ts[c])
  {
    assert ts[..c + 1] == ts[..c] + [ts[c]];
    ExtsAppend(ts[..c], [ts[c]]);
    ExtsSingle(ts[c]);
  }

  lemma PendingNext(t: Tree, q: Path, pos: Cursor, c: nat)
    requires PathIn(t, q) && At(t, q).Index? && NextChild(At(t, q), pos, c)
    ensures Pending(t, q, pos) == LeftOf(t, q) + ExtsOf(At(t, q).kids[..c + 1])
  {
    var n := At(t, q);
    assert n.kids[..|n.kids|] == n.kids;
  }

  lemma PendingDown(t: Tree, q: Path, pos: Cursor, c: nat)
    requires PathIn(t, q) && At(t, q).Index? && NextChild(At(t, q), pos, c)
    ensures PathIn(t, q + [c]) && LeftOf(t, q + [c]) + Exts(At(t, q + [c])) == Pending(t, q, pos)
    ensures Pending(t, q + [c], Null) == Pending(t, q, pos)
  {
    var n := At(t, q);
    LeftDown(t, q, c);
    KidsUpTo(n.kids, c);
    PendingNext(t, q, pos, c);
    SeqAssoc(LeftOf(t, q), ExtsOf(n.kids[..c]), Exts(n.kids[c]));
  }

  lemma StepDownTo(t: Tree, cap: nat, q: Path, path: seq<Step>, s0: seq<Extent>, ns: seq<nat>, lo: nat, hi: nat, c: nat)
    requires Visiting(t, cap, q, path, s0, ns, lo, hi, false) && At(t, q).Index?
    requires NextChild(At(t, q), path[|q|].pos, c)
    ensures Shape(At(t, q)) && PathIn(t, q + [c])
    ensures var path' := Descended(path, Top(At(t, q)), c);
      && Visiting(t, cap, q + [c], path', s0, ns + [|Pending(t, q, path[|q|].pos)|], lo, hi, false)
      && Fresh(t, q + [c], path') && path'[|q| + 1].pos.Null?
    ensures Pending(t, q + [c], Null) == Pending(t, q, path[|q|].pos)
  {
    var q', pend := q + [c], Pending(t, q, path[|q|].pos);
    PendingDown(t, q, path[|q|].pos, c);
    WalksDown(t, q, path, c);
    ExtsAt(t, q');
    assert s0[..|pend|] == pend;
    SameSuffix(pend, RightOf(t, q'), Cut(s0[|pend|..], lo, hi));
    LevelsDown(t, q, path, c, s0, ns, |pend|, lo, hi);
    ButFull(t, q);
    FullBut(t, q');
    AtTightNoEmpty(t, q');
  }

  // ----- the loop ------------------------------------------------------------------------------

  /** The walk is at level i of a tree of the given depth, or past the root. */
  ghost predicate Walking(t: Tree, cap: nat, i: int, q: Path, path: seq<Step>, s0: seq<Extent>, ns: seq<nat>,
                          lo: nat, hi: nat, first: bool, depth: nat) {
    if i < 0 then Finished(t, cap, s0, lo, hi)
    else |q| == i && Visiting(t, cap, q, path, s0, ns, lo, hi, first) && Depth(t) == depth
  }

  ghost function Rank(t: Tree, i: int, q: Path, path: seq<Step>, depth: nat): int
    requires i >= 0 ==> PathIn(t, q) && |path| > |q|
  {
    if i < 0 then 0 else if Fresh(t, q, path) then depth - i + 1 else depth + i + 2
  }

  ghost function Work(t: Tree, i: int, q: Path, path: seq<Step>): nat
    requires i >= 0 ==> PathIn(t, q) && |path| > |q|
  {
    if i < 0 then 0 else |Pending(t, q, path[|q|].pos)|
  }

  /** A restart inside the leaf: everything right of some extent is cut, the tree is whole. */
  ghost predicate Interrupted(t: Tree, cap: nat, s0: seq<Extent>, lo: nat, hi: nat) {
    WellFormed(t, cap) && PartlyCut(Exts(t), s0, lo, hi)
  }

  ghost predicate PartlyCut(s: seq<Extent>, s0: seq<Extent>, lo: nat, hi: nat) {
    exists m :: 0 <= m <= |s0| && s == CutFrom(s0, m, lo, hi)
  }

  lemma CutFromSorted(s: seq<Extent>, m: nat, lo: nat, hi: nat)
    requires Sorted(s) && m <= |s|
    ensures Sorted(CutFrom(s, m, lo, hi))
  {
    SortedSlice(s, 0, m);
    SortedSlice(s, m, |s|);
    CutSorted(s[m..], lo, hi);
    if m > 0 && m < |s| {
      assert End(s[m - 1]) <= s[m].block;
    }
    SortedJoin(s[..m], Cut(s[m..], lo, hi));
  }

  lemma CutBehind(l: seq<Extent>, x: seq<Extent>, r: seq<Extent>, s0: seq<Extent>, lo: nat, hi: nat)
    requires Progress(l + x + r, l + x, s0, lo, hi)
    ensures r == Cut(s0[|l + x|..], lo, hi)
  {
    var p := l + x;
    assert s0[..|p|] == p;
    SameSuffix(p, r, Cut(s0[|p|..], lo, hi));
  }

  lemma InterruptedExts(l: seq<Extent>, x: seq<Extent>, r: seq<Extent>, s0: seq<Extent>, lo: nat, hi: nat, n: nat)
    requires n <= |x| && Progress(l + x + r, l + x, s0, lo, hi) && Sorted(s0)
    ensures PartlyCut(l + CutFrom(x, n, lo, hi) + r, s0, lo, hi) && Sorted(l + CutFrom(x, n, lo, hi) + r)
  {
    CutBehind(l, x, r, s0, lo, hi);
    InterruptedRun(s0, l, x, r, n, lo, hi);
    CutFromSorted(s0, |l| + n, lo, hi);
  }

  lemma LeafHolds(t: Tree, q: Path, y: seq<Extent>)
    requires PathIn(t, q) && At(t, q).Leaf? && y != []
    ensures var u := Update(t, q, Leaf(At(t, q).max, y));
      Exts(u) == LeftOf(t, q) + y + RightOf(t, q) && PathIn(u, q) && !Empty(At(u, q))
  {
    LeafContent(t, q, y);
    UpdateAt(t, q, Leaf(At(t, q).max, y));
  }

  lemma LeafInterrupted(t: Tree, u: Tree, cap: nat, q: Path, s0: seq<Extent>, lo: nat, hi: nat, n: nat)
    requires PathIn(t, q) && At(t, q).Leaf? && Sorted(s0) && n <= |At(t, q).exts|
    requires Progress(Exts(t), LeftOf(t, q) + At(t, q).exts, s0, lo, hi)
    requires Trimmed(u, q, cap) && !Empty(At(u, q))
    requires Exts(u) == LeftOf(t, q) + CutFrom(At(t, q).exts, n, lo, hi) + RightOf(t, q)
    ensures Interrupted(u, cap, s0, lo, hi)
  {
    ExtsAt(t, q);
    InterruptedExts(LeftOf(t, q), At(t, q).exts, RightOf(t, q), s0, lo, hi, n);
    ButFull(u, q);
  }

  lemma InterruptedRun(s0: seq<Extent>, l: seq<Extent>, x: seq<Extent>, r: seq<Extent>, n: nat, lo: nat, hi: nat)
    requires n <= |x| && l + x <= s0 && r == Cut(s0[|l + x|..], lo, hi)
    ensures l + CutFrom(x, n, lo, hi) + r == CutFrom(s0, |l| + n, lo, hi)
  {
    CutSplit(s0, |l| + n, |l + x|, lo, hi);
    PrefixParts(s0, l, x, n);
    Regroup(l, x[..n], Cut(x[n..], lo, hi), r);
  }

  lemma PrefixParts(s0: seq<Extent>, l: seq<Extent>, x: seq<Extent>, n: nat)
    requires n <= |x| && l + x <= s0
    ensures s0[..|l| + n] == l + x[..n] && s0[|l| + n..|l + x|] == x[n..]
  {
  }

  lemma Regroup(a: seq<Extent>, b: seq<Extent>, c: seq<Extent>, d: seq<Extent>)
    ensures a + (b + c) + d == (a + b) + (c + d)
  {
  }

  /** Leaf level of the loop. */
  method VisitLeaf(inode: Inode, path: seq<Step>, start: nat, end: nat, restarts: nat,
                   ghost q: Path, ghost s0: seq<Extent>, ghost ns: seq<nat>, ghost first: bool, ghost depth: nat)
    returns (err: Status, left: nat)
    requires inode.Stored() && Clean(inode.Universe()) && Sorted(s0) && NoStraddle(s0, end)
    requires Walking(inode.t, inode.cap, |q|, q, path, s0, ns, start, end, first, depth) && |q| == depth
    modifies inode`root, inode`disk, inode`free, inode`t
    ensures inode.Stored() && inode.Universe() == old(inode.Universe())
    ensures err == Ok || err == EAGAIN
    ensures err == Ok ==> left == restarts
    ensures err == Ok && q == [] ==> Finished(inode.t, inode.cap, s0, start, end)
    ensures err == Ok && q != [] ==>
      && Walking(inode.t, inode.cap, |q| - 1, q[..|q| - 1], path[..|q|], s0, ns[..|q| - 1], start, end, false, depth)
      && Work(inode.t, |q| - 1, q[..|q| - 1], path[..|q|]) < old(Work(inode.t, |q|, q, path))
    ensures err == EAGAIN ==> left < restarts && Interrupted(inode.t, inode.cap, s0, start, end)
  {
    ghost var t, n := inode.t, 0;
    AtShape(t, q);
    LeafVisit(t, inode.cap, q, path, s0, ns, start, end, first);
    err, left, n := RmLeaf(inode, path, start, end, restarts, q);
    if err == Ok {
      LeafStep(t, inode.t, inode.cap, q, path, s0, ns, start, end, first);
    } else {
      LeafHolds(t, q, CutFrom(At(t, q).exts, n, start, end));
      LeafInterrupted(t, inode.t, inode.cap, q, s0, start, end, n);
    }
  }

  /** Index level of the loop: go to the next child on the left, or leave the node. */
  method VisitNode(inode: Inode, path: seq<Step>, ghost lo: nat, ghost hi: nat,
                   ghost q: Path, ghost s0: seq<Extent>, ghost ns: seq<nat>, ghost depth: nat)
    returns (down: bool, path': seq<Step>, ghost q': Path, ghost ns': seq<nat>)
    requires inode.Stored() && Clean(inode.Universe()) && Sorted(s0)
    requires Walking(inode.t, inode.cap, |q|, q, path, s0, ns, lo, hi, false, depth) && |q| < depth
    modifies inode`root, inode`disk, inode`free, inode`t
    ensures inode.Stored() && inode.Universe() == old(inode.Universe())
    ensures down || q != [] ==>
      var i := if down then |q| + 1 else |q| - 1;
      && Walking(inode.t, inode.cap, i, q', path', s0, ns', lo, hi, false, depth)
      && Work(inode.t, i, q', path') <= old(Work(inode.t, |q|, q, path))
      && Rank(inode.t, i, q', path', depth) < old(Rank(inode.t, |q|, q, path, depth))
    ensures !down && q == [] ==> Finished(inode.t, inode.cap, s0, lo, hi)
  {
    ghost var t := inode.t;
    var i := |path| - 1;
    AtShape(t, q);
    assert StepOk(t, q, path, i) && q[..i] == q;
    inode.NodeOnPath(q);
    var n := inode.NodeAt(path[i].loc);
    var pos, pblock := |n.idx| - 1, |n.idx| + 1;
    if path[i].pos.Slot? {
      pos, pblock := path[i].pos.i - 1, path[i].pblock;
    }
    down := pos >= 0 && |n.idx| != pblock;
    if down {
      path', q', ns' := Descended(path, n, pos), q + [pos], ns + [|Pending(t, q, path[i].pos)|];
      StepDownTo(t, inode.cap, q, path, s0, ns, lo, hi, pos);
      return;
    }
    path', q', ns' := path[..i], q, ns;
    LeaveNode(inode, path, q, s0, ns, lo, hi);
    if i > 0 {
      q', ns' := q[..|q| - 1], ns[..|q| - 1];
    }
  }

  /** Go up; an index node without entries is removed first. */
  method LeaveNode(inode: Inode, path: seq<Step>, ghost q: Path, ghost s0: seq<Extent>, ghost ns: seq<nat>,
                   ghost lo: nat, ghost hi: nat)
    requires inode.Stored() && Clean(inode.Universe()) && Sorted(s0)
    requires Visiting(inode.t, inode.cap, q, path, s0, ns, lo, hi, false) && At(inode.t, q).Index?
    requires !Fresh(inode.t, q, path) && NoMore(At(inode.t, q), path[|q|])
    modifies inode`root, inode`disk, inode`free, inode`t
    ensures inode.Stored() && inode.Universe() == old(inode.Universe()) && Depth(inode.t) == Depth(old(inode.t))
    ensures q == [] ==> Finished(inode.t, inode.cap, s0, lo, hi)
    ensures q != [] ==>
      && Visiting(inode.t, inode.cap, q[..|q| - 1], path[..|q|], s0, ns[..|q| - 1], lo, hi, false)
      && !Fresh(inode.t, q[..|q| - 1], path[..|q|])
      && |Pending(inode.t, q[..|q| - 1], path[|q| - 1].pos)| <= |Pending(old(inode.t), q, path[|q|].pos)|
  {
    ghost var t := inode.t;
    var i := |path| - 1;
    AtShape(t, q);
    assert StepOk(t, q, path, i) && q[..i] == q;
    inode.NodeOnPath(q);
    var n := inode.NodeAt(path[i].loc);
    if i == 0 {
      NodeVisit(t, inode.cap, q, path, s0, ns, lo, hi);
      assert Exts(t) + [] == Exts(t) && s0[0..] == s0;
    } else if |n.idx| == 0 {
      EmptyNode(At(t, q));
      RemoveNode(inode, path, q);
      GoneStep(t, inode.t, inode.cap, q, path, s0, ns, lo, hi);
    } else {
      NodeStep(t, inode.cap, q, path, s0, ns, lo, hi);
    }
  }

  /** The while loop of ext4_ext_remove_space. */
  method Walk(inode: Inode, path0: seq<Step>, start: nat, end: nat, restarts: nat,
              ghost q0: Path, ghost s0: seq<Extent>, ghost ns0: seq<nat>, ghost first0: bool)
    returns (err: Status, left: nat)
    requires inode.Stored() && Clean(inode.Universe()) && Sorted(s0) && NoStraddle(s0, end)
    requires Walking(inode.t, inode.cap, |q0|, q0, path0, s0, ns0, start, end, first0, Depth(inode.t))
    modifies inode`root, inode`disk, inode`free, inode`t
    ensures inode.Stored() && inode.Universe() == old(inode.Universe())
    ensures err == Ok || err == EAGAIN
    ensures err == Ok ==> Finished(inode.t, inode.cap, s0, start, end)
    ensures err == EAGAIN ==> left < restarts && Interrupted(inode.t, inode.cap, s0, start, end)
  {
    var depth := NodeDepth(inode.root);
    ghost var u := inode.Universe();
    var path, i := path0, |path0| - 1;
    ghost var q, ns, first := q0, ns0, first0;
    err, left := Ok, restarts;
    while i >= 0 && err == Ok
      invariant inode.Stored() && inode.Universe() == u
      invariant err == Ok || err == EAGAIN
      invariant err == Ok ==>
        left == restarts && Walking(inode.t, inode.cap, i, q, path, s0, ns, start, end, first, depth)
      invariant err == EAGAIN ==> left < restarts && Interrupted(inode.t, inode.cap, s0, start, end)
      decreases err == Ok, if err == Ok then Work(inode.t, i, q, path) else 0,
                if err == Ok then Rank(inode.t, i, q, path, depth) else 0
    {
      AtShape(inode.t, q);
      if i == depth {
        err, left := VisitLeaf(inode, path, start, end, left, q, s0, ns, first, depth);
        path := path[..i];
        if err == Ok {
          q, ns, first := if i > 0 then q[..i - 1] else q, if i > 0 then ns[..i - 1] else ns, false;
        }
        i := i - 1;
      } else {
        var down;
        down, path, q, ns := VisitNode(inode, path, start, end, q, s0, ns, depth);
        i := if down then i + 1 else i - 1;
      }
    }
  }

  // ----- where the walk starts ---------------------------------------------------------------

  lemma NoStraddleFound(s: seq<Extent>, end: nat)
    requires Sorted(s) && s != [] && Pos(s, end) < |s|
    requires !(s[Pos(s, end)].block <= end < End(s[Pos(s, end)]) - 1)
    ensures NoStraddle(s, end)
  {
    forall i | 0 <= i < |s| ensures End(s[i]) <= end + 1 || end < s[i].block {
      if Covers(s[i], end) {
        PosCovers(s, i, end);
      }
    }
  }

  lemma NoStraddleSplit(l: seq<Extent>, e1: Extent, e2: Extent, r: seq<Extent>, end: nat)
    requires Sorted(l + [e1, e2] + r) && End(e1) == end + 1 == e2.block
    ensures NoStraddle(l + [e1, e2] + r, end)
  {
    var s := l + [e1, e2] + r;
    assert s[|l|] == e1 && s[|l| + 1] == e2;
    forall i | 0 <= i < |s| ensures End(s[i]) <= end + 1 || end < s[i].block {
      assert ExtentOk(s[|l|]) && ExtentOk(s[|l| + 1]);
      if i < |l| {
        assert End(s[i]) <= s[|l|].block;
      } else if i > |l| + 1 {
        assert End(s[|l| + 1]) <= s[i].block;
      }
    }
  }

  lemma PlacedStart(t: Tree, q: Path, path: seq<Step>, end: nat, s: seq<Extent>, n: nat, e1: Extent, e2: Extent)
    requires CutPlaced(t, q, path, end + 1, s, n, e1, e2) && Sorted(Exts(t)) && BlocksOk(t, q, path)
    requires End(e1) == end + 1 == e2.block
    ensures StartOk(t, q, path, end)
  {
    NoStraddleSplit(s[..n], e1, e2, s[n + 1..], end);
  }

  lemma FoundBeside(t: Tree, cap: nat, b: nat)
    requires WellFormed(t, cap) && Searchable(t)
    ensures RightFrom(t, FindPath(t, b), b + 1)
  {
    FindPathIn(t, b);
    if t.Index? {
      FindLeft(t, b);
      FindRight(t, b);
      LeftBelow(t, FindPath(t, b));
    }
  }

  /** Every index level has room to lose entries: the walk is not stopped there. */
  ghost predicate Armed(t: Tree, q: Path, path: seq<Step>) {
    |path| == |q| + 1 && forall k :: 0 <= k < |q| ==> ArmedAt(t, q, path, k)
  }

  ghost predicate ArmedAt(t: Tree, q: Path, path: seq<Step>, k: nat)
    requires k < |q| && k < |path|
  {
    && PathIn(t, q[..k]) && At(t, q[..k]).Index? && PathIn(t, q[..k + 1])
    && |At(t, q[..k]).idx| < path[k].pblock
  }

  lemma BeyondReach(p: seq<Extent>, r: seq<Extent>, lo: nat, hi: nat)
    requires Sorted(p + r) && (r != [] ==> hi < r[0].block)
    ensures Progress(p + r, p, p + r, lo, hi)
  {
    var s0 := p + r;
    forall i | 0 <= i < |r| ensures hi < r[i].block {
      assert s0[|p| + i] == r[i];
      assert ExtentOk(s0[|p|]);
    }
    CutBeyond(r, lo, hi);
    assert s0[|p|..] == r;
  }

  /** Nothing right of the leaf is in reach. */
  lemma FoundRight(t: Tree, q: Path, lo: nat, hi: nat)
    requires PathIn(t, q) && At(t, q).Leaf? && Sorted(Exts(t)) && RightFrom(t, q, hi + 1)
    ensures Progress(Exts(t), LeftOf(t, q) + At(t, q).exts, Exts(t), lo, hi)
  {
    ExtsAt(t, q);
    BeyondReach(LeftOf(t, q) + At(t, q).exts, RightOf(t, q), lo, hi);
  }

  lemma ArmedLevels(t: Tree, q: Path, path: seq<Step>, s0: seq<Extent>, lo: nat, hi: nat)
    requires Armed(t, q, path)
    ensures LevelsOk(t, q, path, s0, seq(|q|, _ => 0), lo, hi)
  {
    var ns := seq(|q|, _ => 0);
    forall k | 0 <= k < |q| ensures LevelOk(t, q, path, k, s0, ns[k], lo, hi) {
      assert ArmedAt(t, q, path, k);
    }
  }

  lemma FoundVisiting(t: Tree, cap: nat, q: Path, path: seq<Step>, lo: nat, hi: nat)
    requires WellFormed(t, cap) && Walks(t, q, path) && At(t, q).Leaf? && Armed(t, q, path) && RightFrom(t, q, hi + 1)
    ensures Visiting(t, cap, q, path, Exts(t), seq(|q|, _ => 0), lo, hi, true)
  {
    FullBut(t, q);
    EmptyLeafIsRoot(t, q, cap);
    FoundRight(t, q, lo, hi);
    ArmedLevels(t, q, path, Exts(t), lo, hi);
  }

  lemma AllInReach(s0: seq<Extent>, lo: nat, hi: nat)
    requires Sorted(s0) && hi + 1 >= EXT_MAX_BLOCKS
    ensures NoStraddle(s0, hi) && UpTo(s0, hi) && Progress(s0, s0, s0, lo, hi)
  {
    assert s0[..|s0|] == s0 && s0[|s0|..] == [];
    forall i | 0 <= i < |s0| ensures s0[i].block <= hi && End(s0[i]) <= hi + 1 {
      assert ExtentOk(s0[i]);
    }
  }

  lemma RootVisiting(t: Tree, cap: nat, path: seq<Step>, lo: nat, hi: nat)
    requires WellFormed(t, cap) && path == [Step(InInode, Null, 0)] && hi + 1 >= EXT_MAX_BLOCKS
    ensures Visiting(t, cap, [], path, Exts(t), [], lo, hi, false) && NoStraddle(Exts(t), hi)
  {
    FullBut(t, []);
    assert StepOk(t, [], path, 0);
    AllInReach(Exts(t), lo, hi);
    assert Pending(t, [], Null) == Exts(t);
  }

  function Counted(path: seq<Step>, k: nat, n: nat): seq<Step>
    requires k < |path|
  {
    path[k := path[k].(pblock := n)]
  }

  lemma CountedWalks(t: Tree, q: Path, path: seq<Step>, k: nat, n: nat)
    requires Shape(t) && Walks(t, q, path) && k < |path|
    ensures Walks(t, q, Counted(path, k, n))
  {
    forall j | 0 <= j <= |q| ensures StepOk(t, q, Counted(path, k, n), j) {
      assert StepOk(t, q, path, j);
    }
  }

  /** The root level keeps the child's block number in p_block, which exceeds its capacity. */
  lemma RootArmed(inode: Inode, path: seq<Step>, q: Path)
    requires inode.Valid() && Walks(inode.t, q, path) && At(inode.t, q).Leaf? && q != [] && BlocksOk(inode.t, q, path)
    ensures ArmedAt(inode.t, q, path, 0)
  {
    var t := inode.t;
    assert BlockOk(t, q, path, 0);
    NodeOnWay(t, q, 0, inode.cap);
    BlockAtIn(t, q[..1]);
    assert BlockAt(t, q[..1]) in inode.Universe();
    assert q[..0] == [];
  }

  /** p_block of every index level below the root: more than the entries it has. */
  method ArmLevels(inode: Inode, path: seq<Step>, ghost q: Path) returns (path': seq<Step>)
    requires inode.Valid() && Walks(inode.t, q, path) && At(inode.t, q).Leaf?
    requires BlocksOk(inode.t, q, path)
    ensures Walks(inode.t, q, path') && Armed(inode.t, q, path')
  {
    ghost var t := inode.t;
    path' := path;
    var k := |path| - 1;
    if k > 0 {
      RootArmed(inode, path, q);
    }
    while k > 1
      invariant 0 <= k <= |q| && (|q| > 0 ==> k > 0)
      invariant Walks(t, q, path')
      invariant |q| > 0 ==> ArmedAt(t, q, path', 0)
      invariant forall j :: k <= j < |q| ==> ArmedAt(t, q, path', j)
    {
      k := k - 1;
      NodeOnWay(t, q, k, inode.cap);
      PathPrefix(t, q, k + 1);
      assert StepOk(t, q, path', k);
      inode.NodeOnPath(q[..k]);
      var n := inode.NodeAt(path'[k].loc);
      CountedWalks(t, q, path', k, |n.idx| + 1);
      ghost var path1 := path';
      path' := Counted(path', k, |n.idx| + 1);
      forall j | k <= j < |q| ensures ArmedAt(t, q, path', j) {
        assert j > k ==> ArmedAt(t, q, path1, j);
      }
      assert ArmedAt(t, q, path1, 0);
    }
  }

  /** A split without zeroing changes neither the meaning nor the blocks zeroed. */
  lemma EndKeeps(how: How, err: Status, e: Extent, split: nat, fl: SplitFlags, m: LogicalMap, z: set<nat>)
    requires ExtentOk(e) && e.block < split < End(e) && Agrees(m, e) && SplitPoint(e, split, fl) && Ended(how, err, fl)
    requires fl == SplitFlags(false, IsUninit(e), IsUninit(e), false, false)
    ensures MapAfter(how, e, split, fl, m) == m && ZeroedAfter(how, e, split, fl, z) == z
    ensures err == Ok <==> how == Parted
  {
    PartedKeeps(m, e, split, fl);
  }

  lemma PartedKeeps(m: LogicalMap, e: Extent, split: nat, fl: SplitFlags)
    requires SplitPoint(e, split, fl) && e.block < split && Agrees(m, e)
    requires fl.markUninit1 == fl.markUninit2 == IsUninit(e)
    ensures MapAfter(Parted, e, split, fl, m) == m
  {
    OverrideSame(m, e, First(e, split, fl.markUninit1));
    OverrideSame(m, e, Second(e, split, fl.markUninit2));
  }

  /** The place the walk starts from: the leaf where the range ends, no extent in the way. */
  ghost predicate StartOk(t: Tree, q: Path, path: seq<Step>, end: nat) {
    && Shape(t) && Walks(t, q, path) && At(t, q).Leaf? && BlocksOk(t, q, path)
    && RightFrom(t, q, end + 1) && NoStraddle(Exts(t), end)
  }

  /** The extent covering `end` reaches further: split it behind `end`. */
  method SplitAtEnd(inode: Inode, path: seq<Step>, e: Extent, end: nat, blocks: nat)
    returns (err: Status, path': seq<Step>, ghost q': Path)
    requires inode.Valid() && OnEntry(inode.t, end, path) && e == Entry(inode.t, end)
    requires BlocksOk(inode.t, FindPath(inode.t, end), path) && e.block <= end < End(e) - 1
    modifies inode`root, inode`disk, inode`free, inode`t, inode`zeroed
    ensures inode.Valid() && inode.Universe() == old(inode.Universe()) && inode.Contents() == old(inode.Contents())
    ensures inode.zeroed == old(inode.zeroed)
    ensures err == Ok || err == ENOSPC
    ensures err == Ok <==> old(Placeable(inode.t, end + 1, Within(blocks, inode.free)))
    ensures err == ENOSPC ==> Exts(inode.t) == old(Exts(inode.t))
    ensures err == Ok ==> StartOk(inode.t, q', path', end)
  {
    ghost var s, n, m, z := Exts(inode.t), Pos(Exts(inode.t), end), inode.Contents(), inode.zeroed;
    var split := end + 1;
    var fl := SplitFlags(false, IsUninit(e), IsUninit(e), false, false);
    SamePath(inode.t, inode.cap, end, split, path);
    assert ExtentOk(s[n]);
    ghost var how;
    err, path', q', how := SplitExtentAt(inode, path, split, fl, true, Supply(false, blocks));
    EntryAgrees(s, n);
    EndKeeps(how, err, e, split, fl, m, z);
    if err == Ok {
      PosCovers(s, n, split);
      PlacedStart(inode.t, q', path', end, s, n, First(e, split, IsUninit(e)), Second(e, split, IsUninit(e)));
    }
  }

  /** No extent reaches across the end of the range, or there is a place for the part behind it. */
  ghost predicate Severable(t: Tree, end: nat, pool: nat)
    requires Shape(t)
  {
    NoStraddle(Exts(t), end) || (Searchable(t) && Placeable(t, end + 1, pool))
  }

  /** Look up the end of the range and split the extent there if it reaches across. */
  method FindStart(inode: Inode, end: nat, blocks: nat)
    returns (err: Status, empty: bool, path: seq<Step>, ghost q: Path)
    requires inode.Valid()
    modifies inode`root, inode`disk, inode`free, inode`t, inode`zeroed
    ensures inode.Valid() && inode.Universe() == old(inode.Universe()) && inode.Contents() == old(inode.Contents())
    ensures inode.zeroed == old(inode.zeroed)
    ensures err == Ok || err == ENOSPC
    ensures err == Ok <==> old(Severable(inode.t, end, Within(blocks, inode.free)))
    ensures err == ENOSPC ==> Exts(inode.t) == old(Exts(inode.t))
    ensures empty ==> err == Ok && Exts(inode.t) == []
    ensures err == Ok && !empty ==> StartOk(inode.t, q, path, end)
  {
    WellFormedSearchable(inode.t);
    path := inode.FindExtent(end);
    q := FindPath(inode.t, end);
    FindPathIn(inode.t, end);
    err, empty := Ok, path[|path| - 1].pos.Null?;
    EmptyLeafIsRoot(inode.t, q, inode.cap);
    if empty {
      ExtsAt(inode.t, q);
      return;
    }
    ExtsAt(inode.t, q);
    PosIn(Exts(inode.t), end);
    var e, j := ReadFound(inode, path, end);
    if e.block <= end && end + 1 < End(e) {
      StraddleFound(Exts(inode.t), end);
      err, path, q := SplitAtEnd(inode, path, e, end, blocks);
    } else {
      NoStraddleFound(Exts(inode.t), end);
      FoundBeside(inode.t, inode.cap, end);
    }
  }

  lemma StraddleFound(s: seq<Extent>, end: nat)
    requires s != [] && Pos(s, end) < |s|
    requires s[Pos(s, end)].block <= end < End(s[Pos(s, end)]) - 1
    ensures !NoStraddle(s, end)
  {
  }

  // ----- ext4_ext_remove_space ------------------------------------------------------------------

  /** An empty root becomes a leaf again. */
  method ResetRoot(inode: Inode, ghost s0: seq<Extent>, ghost lo: nat, ghost hi: nat)
    requires inode.Stored() && Clean(inode.Universe()) && inode.cap > ROOT_CAP && Sorted(s0)
    requires Finished(inode.t, inode.cap, s0, lo, hi)
    modifies inode`root, inode`t
    ensures inode.Valid() && inode.Universe() == old(inode.Universe()) && Exts(inode.t) == Cut(s0, lo, hi)
  {
    CutSorted(s0, lo, hi);
    if Entries(inode.root) == 0 {
      if inode.t.Index? {
        EmptyNode(inode.t);
      }
      inode.root := LeafNode(ROOT_CAP, []);
      inode.t := Leaf(ROOT_CAP, []);
    }
  }

  lemma InterruptedMeaning(t: Tree, cap: nat, s0: seq<Extent>, lo: nat, hi: nat)
    requires Interrupted(t, cap, s0, lo, hi) && Sorted(s0) && NoStraddle(s0, hi)
    ensures NoStraddle(Exts(t), hi) && Without(LMap(Exts(t)), lo, hi) == Without(LMap(s0), lo, hi)
  {
    var m :| 0 <= m <= |s0| && Exts(t) == CutFrom(s0, m, lo, hi);
    CutFromMeaning(s0, m, lo, hi);
    CutMeaning(s0, lo, hi);
    CutMeaning(Exts(t), lo, hi);
  }

  /** The walk and what follows it. */
  method WalkAndReset(inode: Inode, path: seq<Step>, start: nat, end: nat, restarts: nat,
                      ghost q: Path, ghost ns: seq<nat>, ghost first: bool)
    returns (err: Status, left: nat)
    requires inode.Valid() && NoStraddle(Exts(inode.t), end)
    requires Visiting(inode.t, inode.cap, q, path, Exts(inode.t), ns, start, end, first)
    modifies inode`root, inode`disk, inode`free, inode`t
    ensures inode.Valid() && inode.Universe() == old(inode.Universe())
    ensures err == Ok || err == EAGAIN
    ensures err == Ok ==> inode.Contents() == Without(old(inode.Contents()), start, end)
    ensures err == EAGAIN ==>
      left < restarts && NoStraddle(Exts(inode.t), end)
      && Without(inode.Contents(), start, end) == Without(old(inode.Contents()), start, end)
  {
    ghost var s0 := Exts(inode.t);
    err, left := Walk(inode, path, start, end, restarts, q, s0, ns, first);
    if err == Ok {
      ResetRoot(inode, s0, start, end);
      CutMeaning(s0, start, end);
    } else {
      InterruptedMeaning(inode.t, inode.cap, s0, start, end);
    }
  }

  lemma WithoutNothing(m: LogicalMap, lo: nat, hi: nat)
    requires m == map[]
    ensures Without(m, lo, hi) == m
  {
  }

  /** One pass from `again:` on. */
  method Attempt(inode: Inode, start: nat, end: nat, restarts: nat, blocks: nat) returns (err: Status, left: nat)
    requires inode.Valid()
    modifies inode`root, inode`disk, inode`free, inode`t, inode`zeroed
    ensures inode.Valid() && inode.Universe() == old(inode.Universe()) && inode.zeroed == old(inode.zeroed)
    ensures err == Ok || err == EAGAIN || err == ENOSPC
    ensures err == ENOSPC <==> !old(Severable(inode.t, end, Within(blocks, inode.free)))
    ensures err == Ok ==> inode.Contents() == Without(old(inode.Contents()), start, end)
    ensures err == ENOSPC ==> inode.Contents() == old(inode.Contents())
    ensures err == EAGAIN ==>
      left < restarts && NoStraddle(Exts(inode.t), end)
      && Without(inode.Contents(), start, end) == Without(old(inode.Contents()), start, end)
  {
    if end < EXT_MAX_BLOCKS - 1 {
      err, left := AttemptPunch(inode, start, end, restarts, blocks);
    } else {
      AllInReach(Exts(inode.t), start, end);
      err, left := AttemptTruncate(inode, start, end, restarts);
    }
  }

  /** The range ends inside the file: the walk starts at its end. */
  method AttemptPunch(inode: Inode, start: nat, end: nat, restarts: nat, blocks: nat) returns (err: Status, left: nat)
    requires inode.Valid()
    modifies inode`root, inode`disk, inode`free, inode`t, inode`zeroed
    ensures inode.Valid() && inode.Universe() == old(inode.Universe()) && inode.zeroed == old(inode.zeroed)
    ensures err == Ok || err == EAGAIN || err == ENOSPC
    ensures err == ENOSPC <==> !old(Severable(inode.t, end, Within(blocks, inode.free)))
    ensures err == Ok ==> inode.Contents() == Without(old(inode.Contents()), start, end)
    ensures err == ENOSPC ==> inode.Contents() == old(inode.Contents())
    ensures err == EAGAIN ==>
      left < restarts && NoStraddle(Exts(inode.t), end)
      && Without(inode.Contents(), start, end) == Without(old(inode.Contents()), start, end)
  {
    left := restarts;
    var empty, path;
    ghost var q;
    err, empty, path, q := FindStart(inode, end, blocks);
    if err == Ok {
      if empty {
        WithoutNothing(inode.Contents(), start, end);
      } else {
        err, left := WalkFrom(inode, path, start, end, restarts, q);
      }
    }
  }

  /** The walk down the path found. */
  method WalkFrom(inode: Inode, path: seq<Step>, start: nat, end: nat, restarts: nat,
                  ghost q: Path) returns (err: Status, left: nat)
    requires inode.Valid() && StartOk(inode.t, q, path, end)
    modifies inode`root, inode`disk, inode`free, inode`t
    ensures inode.Valid() && inode.Universe() == old(inode.Universe())
    ensures err == Ok || err == EAGAIN
    ensures err == Ok ==> inode.Contents() == Without(old(inode.Contents()), start, end)
    ensures err == EAGAIN ==>
      left < restarts && NoStraddle(Exts(inode.t), end)
      && Without(inode.Contents(), start, end) == Without(old(inode.Contents()), start, end)
  {
    var armed := ArmLevels(inode, path, q);
    FoundVisiting(inode.t, inode.cap, q, armed, start, end);
    err, left := WalkAndReset(inode, armed, start, end, restarts, q, seq(|q|, _ => 0), true);
  }

  /** The range has no end: the walk starts at the right edge of the tree. */
  method AttemptTruncate(inode: Inode, start: nat, end: nat, restarts: nat) returns (err: Status, left: nat)
    requires inode.Valid() && end >= EXT_MAX_BLOCKS - 1
    modifies inode`root, inode`disk, inode`free, inode`t
    ensures inode.Valid() && inode.Universe() == old(inode.Universe())
    ensures err == Ok || err == EAGAIN
    ensures err == Ok ==> inode.Contents() == Without(old(inode.Contents()), start, end)
    ensures err == EAGAIN ==>
      left < restarts && NoStraddle(Exts(inode.t), end)
      && Without(inode.Contents(), start, end) == Without(old(inode.Contents()), start, end)
  {
    var path := [Step(InInode, Null, 0)];
    RootVisiting(inode.t, inode.cap, path, start, end);
    err, left := WalkAndReset(inode, path, start, end, restarts, [], [], false);
  }

  /**
   ext4_ext_remove_space: afterwards exactly the blocks start..end are unmapped and every
   other mapping is as before. Each physical block is still accounted for exactly once, so
   every removed data block and every emptied tree node was freed once, and nothing that is
   still in use was. It fails exactly if an extent reaches across the end of the range and
   there is no place for the part behind it (`blocks` as the allocator grants them); then
   nothing changes.
   */
  method RemoveBlocks(inode: Inode, start: nat, end: nat, restarts: nat, blocks: nat) returns (err: Status)
    requires inode.Valid()
    modifies inode`root, inode`disk, inode`free, inode`t, inode`zeroed
    ensures inode.Valid() && inode.Universe() == old(inode.Universe()) && inode.zeroed == old(inode.zeroed)
    ensures err == Ok || err == ENOSPC
    ensures err == Ok <==> old(Severable(inode.t, end, Within(blocks, inode.free)))
    ensures err == Ok ==> inode.Contents() == Without(old(inode.Contents()), start, end)
    ensures err == ENOSPC ==> inode.Contents() == old(inode.Contents())
  {
    var left;
    ghost var severable := Severable(inode.t, end, Within(blocks, inode.free));
    err, left := Attempt(inode, start, end, restarts, blocks);
    while err == EAGAIN
      invariant inode.Valid() && inode.Universe() == old(inode.Universe()) && inode.zeroed == old(inode.zeroed)
      invariant err == Ok || err == ENOSPC || err == EAGAIN
      invariant err == ENOSPC <==> !severable
      invariant err == Ok ==> inode.Contents() == Without(old(inode.Contents()), start, end)
      invariant err == ENOSPC ==> inode.Contents() == old(inode.Contents())
      invariant err == EAGAIN ==>
        NoStraddle(Exts(inode.t), end)
        && Without(inode.Contents(), start, end) == Without(old(inode.Contents()), start, end)
      decreases err == EAGAIN, left
    {
      err, left := Attempt(inode, start, end, left, blocks);
    }
  }
}
