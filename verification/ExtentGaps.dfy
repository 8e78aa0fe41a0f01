/**
 The holes of a file: what the extent a search ends at says about the blocks around the one
 looked for.
 */
module ExtentGaps {
  import opened Extents
  import opened ExtentTrees
  import opened ExtentSearch
  import opened Inodes
  import opened ExtentGrow
  import opened ExtentMerge
  import opened ExtentNeighbours
  import opened ExtentConvert
  import opened ExtentWritten

  ghost predicate Unmapped(m: LogicalMap, lo: nat, hi: nat) {
    forall b :: lo <= b < hi ==> b !in m
  }

  /** Between two neighbouring extents nothing is mapped. */
  lemma GapUnmapped(s: seq<Extent>, n: nat, lo: nat, hi: nat)
    requires Sorted(s) && n <= |s|
    requires n > 0 ==> End(s[n - 1]) <= lo
    requires n < |s| ==> hi <= s[n].block
    ensures Unmapped(LMap(s), lo, hi)
  {
    forall b: nat | lo <= b < hi ensures b !in LMap(s) {
      LMapDomain(s, b);
      forall i | 0 <= i < |s| ensures !Covers(s[i], b) {
        if i < n {
          assert i < n - 1 ==> End(s[i]) <= s[n - 1].block && ExtentOk(s[n - 1]);
        } else {
          assert n < i ==> End(s[n]) <= s[i].block && ExtentOk(s[n]);
        }
      }
    }
  }

  /** The gap found by a search: in front of the first extent, or behind the one found. */
  lemma FoundGap(s: seq<Extent>, b: nat)
    requires Sorted(s) && s != [] && Pos(s, b) < |s| && !Covers(s[Pos(s, b)], b)
    ensures b < s[Pos(s, b)].block ==> Unmapped(LMap(s), b, s[Pos(s, b)].block)
    ensures b >= s[Pos(s, b)].block ==> End(s[Pos(s, b)]) <= b < FirstBlockIn(s[Pos(s, b) + 1..], b)
    ensures b >= s[Pos(s, b)].block ==> Unmapped(LMap(s), End(s[Pos(s, b)]), FirstBlock(s[Pos(s, b) + 1..]))
    ensures Unmapped(LMap(s), b, b + 1)
  {
    var n := Pos(s, b);
    FoundPick(s, b);
    if b < s[n].block {
      GapUnmapped(s, 0, b, s[n].block);
    } else {
      GapUnmapped(s, n + 1, End(s[n]), FirstBlock(s[n + 1..]));
      GapUnmapped(s, n + 1, b, b + 1);
    }
  }

  ghost function FirstBlockIn(s: seq<Extent>, b: nat): nat {
    if s == [] then b + 1 else s[0].block
  }

  lemma FoundPick(s: seq<Extent>, b: nat)
    requires Sorted(s) && s != []
    ensures Pos(s, b) < |s| && (b < s[Pos(s, b)].block ==> Pos(s, b) == 0)
    ensures Pos(s, b) + 1 < |s| ==> b < s[Pos(s, b) + 1].block
  {
    PosPick(s, b);
    assert Pos(s, b) > 0 ==> Starts(s)[Pos(s, b)] <= b;
    assert Pos(s, b) + 1 < |s| ==> b < Starts(s)[Pos(s, b) + 1];
  }

  lemma PosPick(s: seq<Extent>, b: nat)
    requires Sorted(s) && s != []
    ensures IsPick(Starts(s), b, Pos(s, b))
  {
    forall i, j | 0 <= i < j < |s| ensures Starts(s)[i] < Starts(s)[j] {
      assert ExtentOk(s[i]);
    }
    ScanPicks(Starts(s), b);
  }

  lemma LeafNotEmpty(inode: Inode, path: seq<Step>, b: nat)
    requires inode.Valid() && Searchable(inode.t) && SearchPath(inode.t, b, path) && path[|path| - 1].pos.Slot?
    ensures OnEntry(inode.t, b, path)
  {
    FindPathIn(inode.t, b);
    ExtsAt(inode.t, FindPath(inode.t, b));
    PosIn(Exts(inode.t), b);
  }

  lemma NotCovered(s: seq<Extent>, b: nat)
    requires Sorted(s) && b !in LMap(s) && s != [] && Pos(s, b) < |s|
    ensures !Covers(s[Pos(s, b)], b)
  {
    LMapDomain(s, b);
  }

  lemma NextIsGapEnd(inode: Inode, path: seq<Step>, b: nat)
    requires inode.Valid() && OnEntry(inode.t, b, path)
    ensures var q := FindPath(inode.t, b);
      PathIn(inode.t, q) && At(inode.t, q).Leaf? && |path| == |q| + 1
      && path[|q|].pos.Slot? && 0 <= path[|q|].pos.i < |At(inode.t, q).exts|
      && At(inode.t, q).exts[path[|q|].pos.i + 1..] + RightOf(inode.t, q) == Exts(inode.t)[Pos(Exts(inode.t), b) + 1..]
  {
    EntryOfSearch(inode.t, inode.cap, b);
  }

  lemma EmptyFile(inode: Inode, path: seq<Step>, lblk: nat)
    requires inode.Valid() && Searchable(inode.t) && SearchPath(inode.t, lblk, path) && path[|path| - 1].pos.Null?
    ensures Exts(inode.t) == []
  {
    FindPathIn(inode.t, lblk);
    EmptyLeafIsRoot(inode.t, FindPath(inode.t, lblk), inode.cap);
  }

  lemma CoveredIff(s: seq<Extent>, b: nat)
    requires Sorted(s) && s != [] && Pos(s, b) < |s|
    ensures Covers(s[Pos(s, b)], b) <==> b in LMap(s)
    ensures ExtentOk(s[Pos(s, b)])
  {
    if b in LMap(s) {
      EntryCovers(s, b);
    }
    if Covers(s[Pos(s, b)], b) {
      LMapAt(s, Pos(s, b), b);
    }
  }

  /** The hole at b reaches up to the extent found or, if that lies in front of b, to the next one. */
  lemma HoleUpTo(s: seq<Extent>, b: nat)
    requires Sorted(s) && s != [] && Pos(s, b) < |s| && b !in LMap(s) && b < EXT_MAX_BLOCKS
    ensures var n := Pos(s, b);
      var limit := if s[n].block < b then FirstBlock(s[n + 1..]) else s[n].block;
      b < limit && Unmapped(LMap(s), b, limit)
  {
    NotCovered(s, b);
    FoundGap(s, b);
    assert ExtentOk(s[Pos(s, b)]);
  }

  /** Where the hole behind the extent found for b ends. */
  method GapBehind(inode: Inode, path: seq<Step>, b: nat) returns (hi: nat)
    requires inode.Valid() && OnEntry(inode.t, b, path)
    ensures Pos(Exts(inode.t), b) < |Exts(inode.t)| && hi == FirstBlock(Exts(inode.t)[Pos(Exts(inode.t), b) + 1..])
  {
    NextIsGapEnd(inode, path, b);
    hi := NextAllocatedBlock(inode, path, FindPath(inode.t, b));
  }
}
