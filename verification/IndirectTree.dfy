/**
 Files mapped by indirect blocks (ext4/indirect.c): offset paths, and the three-level pointer
 tree as a value.
 */
module IndirectTree {

  const NDIR: nat := 12
  const IND: nat := 12
  const DIND: nat := 13
  const TIND: nat := 14
  const N_BLOCKS: nat := 15

  // ----- ext4_block_to_path --------------------------------------------------------------

  /** Number of blocks reachable with P pointers to a block. */
  function Capacity(P: nat): nat {
    NDIR + P + P * P + P * P * P
  }

  /** The path of offsets for block b, empty if b is out of range; `final` of its last array. */
  function BlockToPath(P: nat, b: nat): seq<nat>
    requires P > 0
  {
    if b < NDIR then [b]
    else if b - NDIR < P then [IND, b - NDIR]
    else if b - NDIR - P < P * P then
      var r := b - NDIR - P;
      [DIND, r / P, r % P]
    else if (b - NDIR - P - P * P) / (P * P) < P then
      var r := b - NDIR - P - P * P;
      [TIND, r / (P * P), (r / P) % P, r % P]
    else []
  }

  /** The pointers left in the array that holds the pointer to b. */
  function Boundary(P: nat, b: nat): int
    requires P > 0
  {
    if b < NDIR then NDIR - 1 - b % P
    else if b - NDIR < P then P - 1 - (b - NDIR) % P
    else if b - NDIR - P < P * P then P - 1 - (b - NDIR - P) % P
    else if (b - NDIR - P - P * P) / (P * P) < P then P - 1 - (b - NDIR - P - P * P) % P
    else -1 - (b - NDIR - P - P * P) % P
  }

  predicate ValidPath(P: nat, path: seq<nat>) {
    && 1 <= |path| <= 4
    && (if |path| == 1 then path[0] < NDIR else path[0] == NDIR + (|path| - 2))
    && forall i :: 1 <= i < |path| ==> path[i] < P
  }

  function Pair(P: nat, hi: nat, lo: nat): nat {
    hi * P + lo
  }

  /** The block an offset path leads to. */
  function PathToBlock(P: nat, path: seq<nat>): nat
    requires ValidPath(P, path)
  {
    if |path| == 1 then path[0]
    else if |path| == 2 then NDIR + path[1]
    else if |path| == 3 then NDIR + P + Pair(P, path[1], path[2])
    else NDIR + P + P * P + Pair(P, Pair(P, path[1], path[2]), path[3])
  }

  lemma DivMod(r: nat, P: nat)
    requires P > 0
    ensures r == (r / P) * P + r % P && r % P < P
  {
  }

  lemma MulPair(x: nat, y: nat, P: nat)
    ensures (x * P + y) * P == x * (P * P) + y * P
  {
    MulSum(x * P, y, P);
    MulTwice(x, P);
  }

  lemma MulSum(a: nat, b: nat, P: nat)
    ensures (a + b) * P == a * P + b * P
  {
  }

  lemma MulTwice(x: nat, P: nat)
    ensures (x * P) * P == x * (P * P)
  {
  }

  lemma LowPart(a: nat, b: nat, P: nat)
    requires a < P && b < P
    ensures a * P + b < P * P
  {
    MulGap(a, P, P);
  }

  lemma DivTwice(r: nat, P: nat)
    requires P > 0
    ensures r / (P * P) == (r / P) / P
  {
    var a, b := r / P, (r / P) / P;
    var x, y := a % P, r % P;
    DivMod(r, P);
    DivMod(a, P);
    MulPair(b, x, P);
    LowPart(x, y, P);
    DivUnique(r, P * P, b, x * P + y);
  }

  lemma DivUnique(r: nat, d: nat, q: nat, low: nat)
    requires d > 0 && r == q * d + low && low < d
    ensures r / d == q && r % d == low
  {
    DivMod(r, d);
    if r / d < q {
      MulGap(r / d, q, d);
    } else if r / d > q {
      MulGap(q, r / d, d);
    }
  }

  lemma MulNext(b: nat, d: nat)
    requires b > 0
    ensures b * d == (b - 1) * d + d
  {
  }

  lemma {:induction false} MulGap(a: nat, b: nat, d: nat)
    requires a < b
    ensures a * d + d <= b * d
    decreases b
  {
    MulNext(b, d);
    if a + 1 < b {
      MulGap(a, b - 1, d);
    }
  }

  lemma DivBelow(r: nat, P: nat, n: nat)
    requires P > 0
    ensures r < n * P <==> r / P < n
  {
    DivMod(r, P);
    if r / P < n {
      MulGap(r / P, n, P);
    } else if n < r / P {
      MulGap(n, r / P, P);
    }
  }

  /** Digits of a number below P * P, and below P * P * P. */
  lemma TwoDigits(r: nat, P: nat)
    requires P > 0
    ensures Pair(P, r / P, r % P) == r && (r < P * P <==> r / P < P)
  {
    DivMod(r, P);
    DivBelow(r, P, P);
  }

  lemma ThreeDigits(r: nat, P: nat)
    requires P > 0
    ensures Pair(P, Pair(P, r / (P * P), (r / P) % P), r % P) == r
    ensures r < P * P * P <==> r / (P * P) < P
  {
    DivTwice(r, P);
    DivMod(r, P);
    DivMod(r / P, P);
    Square(P);
    DivBelow(r, P * P, P);
    MulTwice(P, P);
  }

  lemma Square(P: nat)
    requires P > 0
    ensures P * P > 0
  {
  }

  /** Every block in range has a valid path that leads back to it; no other block has a path. */
  lemma PathThere(P: nat, b: nat)
    requires P > 0
    ensures BlockToPath(P, b) != [] <==> b < Capacity(P)
    ensures b < Capacity(P) ==> ValidPath(P, BlockToPath(P, b)) && PathToBlock(P, BlockToPath(P, b)) == b
  {
    var base := NDIR + P + P * P;
    if b >= base {
      ThreeDigits(b - base, P);
    } else if b >= NDIR + P {
      TwoDigits(b - NDIR - P, P);
    }
  }

  /** Every valid path is the path of the block it leads to. */
  lemma PathBack(P: nat, path: seq<nat>)
    requires P > 0 && ValidPath(P, path)
    ensures PathToBlock(P, path) < Capacity(P) && BlockToPath(P, PathToBlock(P, path)) == path
  {
    if |path| == 3 {
      PathBackTwo(P, path);
    } else if |path| == 4 {
      PathBackThree(P, path);
    }
  }

  lemma PathBackTwo(P: nat, path: seq<nat>)
    requires P > 0 && ValidPath(P, path) && |path| == 3
    ensures PathToBlock(P, path) < Capacity(P) && BlockToPath(P, PathToBlock(P, path)) == path
  {
    var r := Pair(P, path[1], path[2]);
    DivUnique(r, P, path[1], path[2]);
    TwoDigits(r, P);
    assert path == [path[0], path[1], path[2]];
  }

  lemma PathBackThree(P: nat, path: seq<nat>)
    requires P > 0 && ValidPath(P, path) && |path| == 4
    ensures PathToBlock(P, path) < Capacity(P) && BlockToPath(P, PathToBlock(P, path)) == path
  {
    var a := Pair(P, path[1], path[2]);
    var r := Pair(P, a, path[3]);
    DivUnique(r, P, a, path[3]);
    DivUnique(a, P, path[1], path[2]);
    DivTwice(r, P);
    ThreeDigits(r, P);
    assert path == [path[0], path[1], path[2], path[3]];
  }

  /** Two blocks share an array of pointers: their paths differ in the last offset only. */
  predicate SameArray(p: seq<nat>, q: seq<nat>) {
    |p| == |q| > 0 && p[..|p| - 1] == q[..|q| - 1]
  }

  /**
   `boundary` counts exactly the blocks that follow b in the same array: b + i is in b's
   array for every i up to it, and not beyond.
   */
  lemma BoundaryExact(P: nat, b: nat, i: nat)
    requires P > NDIR && b < Capacity(P)
    ensures Boundary(P, b) >= 0
    ensures SameArray(BlockToPath(P, b), BlockToPath(P, b + i)) <==> i <= Boundary(P, b)
  {
    PathThere(P, b);
    LastOffset(P, b);
    if i <= Boundary(P, b) {
      Within(P, b, i);
    } else if SameArray(BlockToPath(P, b), BlockToPath(P, b + i)) {
      Beyond(P, b, i);
    }
  }

  lemma Within(P: nat, b: nat, i: nat)
    requires P > NDIR && b < Capacity(P) && i <= Boundary(P, b)
    ensures SameArray(BlockToPath(P, b), BlockToPath(P, b + i))
  {
    PathThere(P, b);
    LastOffset(P, b);
    var path := BlockToPath(P, b);
    var q := path[|path| - 1 := path[|path| - 1] + i];
    StepPath(P, path, i);
    PathBack(P, q);
    assert q[..|q| - 1] == path[..|path| - 1];
  }

  lemma Beyond(P: nat, b: nat, i: nat)
    requires P > NDIR && b < Capacity(P) && SameArray(BlockToPath(P, b), BlockToPath(P, b + i))
    ensures i <= Boundary(P, b)
  {
    PathThere(P, b);
    PathThere(P, b + i);
    LastOffset(P, b);
    SamePrefix(P, BlockToPath(P, b), BlockToPath(P, b + i));
  }

  /** boundary is the distance of the last offset from the end of its array. */
  lemma LastOffset(P: nat, b: nat)
    requires P > NDIR && b < Capacity(P)
    ensures BlockToPath(P, b) != []
    ensures var path := BlockToPath(P, b);
      Boundary(P, b) == (if |path| == 1 then NDIR else P) - 1 - path[|path| - 1] >= 0
  {
    PathThere(P, b);
    if b < NDIR {
      DivUnique(b, P, 0, b);
    } else if b - NDIR < P {
      DivUnique(b - NDIR, P, 0, b - NDIR);
    }
  }

  lemma StepPath(P: nat, path: seq<nat>, i: nat)
    requires ValidPath(P, path) && path[|path| - 1] + i < if |path| == 1 then NDIR else P
    ensures var q := path[|path| - 1 := path[|path| - 1] + i];
      ValidPath(P, q) && PathToBlock(P, q) == PathToBlock(P, path) + i
  {
  }

  lemma SamePrefix(P: nat, p: seq<nat>, q: seq<nat>)
    requires ValidPath(P, p) && ValidPath(P, q) && SameArray(p, q)
    ensures PathToBlock(P, q) + p[|p| - 1] == PathToBlock(P, p) + q[|q| - 1]
  {
    var n := |p| - 1;
    assert forall i :: 0 <= i < n ==> p[i] == p[..n][i] && q[i] == q[..n][i];
  }

  // ----- order ---------------------------------------------------------------------------

  predicate Less(a: seq<nat>, b: seq<nat>) {
    a != [] && b != [] && (a[0] < b[0] || (a[0] == b[0] && Less(a[1..], b[1..])))
  }

  lemma PairLess(P: nat, a: nat, b: nat, x: nat, y: nat)
    requires b < P && (a < x || (a == x && b < y))
    ensures Pair(P, a, b) < Pair(P, x, y)
  {
    if a < x {
      MulGap(a, x, P);
    }
  }

  lemma LessUnfold(p: seq<nat>, q: seq<nat>)
    requires |p| == |q| && 2 <= |p| <= 4 && p[0] == q[0] && Less(p, q)
    ensures p[1] < q[1] || (p[1] == q[1] && |p| > 2 && (p[2] < q[2] || (p[2] == q[2] && |p| > 3 && p[3] < q[3])))
  {
    LessHead(p, q);
    LessHead(p[1..], q[1..]);
    if |p| > 2 {
      LessHead(p[1..][1..], q[1..][1..]);
    }
    if |p| > 3 {
      LessHead(p[1..][1..][1..], q[1..][1..][1..]);
    }
  }

  lemma LessHead(p: seq<nat>, q: seq<nat>)
    requires |p| == |q| > 0
    ensures Less(p, q) <==> p[0] < q[0] || (p[0] == q[0] && |p| > 1 && Less(p[1..], q[1..]))
  {
    if |p| == 1 {
      assert p[1..] == [];
    }
  }

  lemma ShapeBounds(P: nat, p: seq<nat>)
    requires ValidPath(P, p)
    ensures |p| == 1 ==> PathToBlock(P, p) < NDIR
    ensures |p| == 2 ==> NDIR <= PathToBlock(P, p) < NDIR + P
    ensures |p| == 3 ==> NDIR + P <= PathToBlock(P, p) < NDIR + P + P * P
    ensures |p| == 4 ==> NDIR + P + P * P <= PathToBlock(P, p)
  {
    if |p| == 3 {
      LowPart(p[1], p[2], P);
    }
  }

  lemma LessBlock(P: nat, p: seq<nat>, q: seq<nat>)
    requires P > 0 && ValidPath(P, p) && ValidPath(P, q) && Less(p, q)
    ensures PathToBlock(P, p) < PathToBlock(P, q)
  {
    ShapeBounds(P, p);
    ShapeBounds(P, q);
    if |p| == |q| && |p| > 1 {
      LessUnfold(p, q);
      if |p| == 3 {
        PairLess(P, p[1], p[2], q[1], q[2]);
      } else if |p| == 4 {
        var a, x := Pair(P, p[1], p[2]), Pair(P, q[1], q[2]);
        if p[1] != q[1] || p[2] != q[2] {
          PairLess(P, p[1], p[2], q[1], q[2]);
        }
        PairLess(P, a, p[3], x, q[3]);
      }
    }
  }

  lemma {:induction false} LessTotal(p: seq<nat>, q: seq<nat>)
    requires |p| == |q|
    ensures p == q || Less(p, q) || Less(q, p)
  {
    if p != [] {
      LessTotal(p[1..], q[1..]);
      assert p == [p[0]] + p[1..] && q == [q[0]] + q[1..];
    }
  }

  /** Blocks are ordered as their paths are. */
  lemma PathOrder(P: nat, b: nat, c: nat)
    requires P > 0 && b < Capacity(P) && c < Capacity(P)
    ensures b < c <==> Less(BlockToPath(P, b), BlockToPath(P, c))
  {
    var p, q := BlockToPath(P, b), BlockToPath(P, c);
    PathThere(P, b);
    PathThere(P, c);
    if Less(p, q) {
      LessBlock(P, p, q);
    } else if |p| == |q| {
      LessTotal(p, q);
      if Less(q, p) {
        LessBlock(P, q, p);
      }
    } else {
      ShapeBounds(P, p);
      ShapeBounds(P, q);
    }
  }

  // ----- branches ------------------------------------------------------------------------

  /** What hangs on a pointer: nothing, a data block, or an indirect block with its own pointers. */
  datatype Branch = Hole | Data(blk: nat) | Node(blk: nat, kids: seq<Branch>)

  /** The pointer to a branch. */
  function Ptr(b: Branch): nat {
    if b.Hole? then 0 else b.blk
  }

  /** d levels of indirect blocks, P pointers in each. */
  ghost predicate Uniform(b: Branch, d: nat, P: nat) {
    match b
    case Hole => true
    case Data(x) => d == 0 && x != 0
    case Node(x, kids) => d > 0 && x != 0 && |kids| == P && forall i :: 0 <= i < |kids| ==> Uniform(kids[i], d - 1, P)
  }

  /** The block a path of offsets leads to, 0 for none. */
  function Follow(b: Branch, offs: seq<nat>): nat {
    match b
    case Hole => 0
    case Data(x) => if offs == [] then x else 0
    case Node(_, kids) => if offs != [] && offs[0] < |kids| then Follow(kids[offs[0]], offs[1..]) else 0
  }

  /** All blocks of a branch, indirect and data, with multiplicity. */
  ghost function Blocks(b: Branch): multiset<nat> {
    match b
    case Hole => multiset{}
    case Data(x) => multiset{x}
    case Node(x, kids) => multiset{x} + BlocksOf(kids)
  }

  ghost function BlocksOf(bs: seq<Branch>): multiset<nat> {
    if bs == [] then multiset{} else Blocks(bs[0]) + BlocksOf(bs[1..])
  }

  lemma {:induction false} BlocksAppend(a: seq<Branch>, b: seq<Branch>)
    ensures BlocksOf(a + b) == BlocksOf(a) + BlocksOf(b)
  {
    if a == [] {
      assert a + b == b;
    } else {
      assert (a + b)[1..] == a[1..] + b;
      BlocksAppend(a[1..], b);
    }
  }

  lemma BlocksOne(b: Branch)
    ensures BlocksOf([b]) == Blocks(b)
  {
    assert [b][1..] == [];
  }

  lemma Around<T>(s: seq<T>, i: nat)
    requires i < |s|
    ensures s == (s[..i] + [s[i]]) + s[i + 1..]
  {
  }

  lemma BlocksSplit(bs: seq<Branch>, i: nat)
    requires i < |bs|
    ensures BlocksOf(bs) == BlocksOf(bs[..i]) + Blocks(bs[i]) + BlocksOf(bs[i + 1..])
  {
    Around(bs, i);
    BlocksAppend(bs[..i] + [bs[i]], bs[i + 1..]);
    BlocksAppend(bs[..i], [bs[i]]);
    BlocksOne(bs[i]);
  }

  lemma BlocksCut(bs: seq<Branch>, i: nat)
    requires i <= |bs|
    ensures BlocksOf(bs) == BlocksOf(bs[..i]) + BlocksOf(bs[i..])
  {
    assert bs == bs[..i] + bs[i..];
    BlocksAppend(bs[..i], bs[i..]);
  }

  lemma BlocksRange(bs: seq<Branch>, p: nat, last: nat)
    requires p < last <= |bs|
    ensures BlocksOf(bs[p..last]) == Blocks(bs[p]) + BlocksOf(bs[p + 1..last])
  {
    assert bs[p..last][0] == bs[p] && bs[p..last][1..] == bs[p + 1..last];
  }

  lemma KidBlocks(bs: seq<Branch>, i: nat)
    requires i < |bs|
    ensures Blocks(bs[i]) <= BlocksOf(bs)
  {
    BlocksSplit(bs, i);
  }

  // ----- cutting a branch --------------------------------------------------------------------

  function Holes(n: nat): (r: seq<Branch>)
    ensures |r| == n && forall i :: 0 <= i < n ==> r[i] == Hole
  {
    seq(n, _ => Hole)
  }

  /** Nothing below b comes before the cut at `offs`. */
  ghost predicate Dead(b: Branch, offs: seq<nat>) {
    b.Hole? || (forall i :: 0 <= i < |offs| ==> offs[i] == 0)
    || (b.Node? && offs != [] && offs[0] < |b.kids|
        && (forall i :: 0 <= i < offs[0] ==> b.kids[i] == Hole) && Dead(b.kids[offs[0]], offs[1..]))
  }

  lemma {:induction false} NothingLess(offs: seq<nat>, q: seq<nat>)
    requires forall i :: 0 <= i < |offs| ==> offs[i] == 0
    ensures !Less(q, offs)
  {
    if offs != [] && q != [] {
      NothingLess(offs[1..], q[1..]);
    }
  }

  lemma {:induction false} DeadFollow(b: Branch, offs: seq<nat>, q: seq<nat>)
    requires Dead(b, offs) && Less(q, offs)
    ensures Follow(b, q) == 0
  {
    if forall i :: 0 <= i < |offs| ==> offs[i] == 0 {
      NothingLess(offs, q);
    } else if b.Node? && q[0] == offs[0] {
      DeadFollow(b.kids[offs[0]], offs[1..], q[1..]);
    }
  }

  /** b cut at `offs`, down to level p: from there on everything at or behind the path goes. */
  ghost function Chop(b: Branch, offs: seq<nat>, p: nat): Branch {
    if p == 0 then Hole
    else if b.Node? && offs != [] && offs[0] < |b.kids| then
      b.(kids := b.kids[..offs[0]] + [Chop(b.kids[offs[0]], offs[1..], p - 1)] + Holes(|b.kids| - offs[0] - 1))
    else b
  }

  /** The path exists down to level p, and what hangs on it there is dead. */
  ghost predicate CutAt(b: Branch, offs: seq<nat>, p: nat) {
    if p == 0 then Dead(b, offs)
    else b.Node? && offs != [] && offs[0] < |b.kids| && CutAt(b.kids[offs[0]], offs[1..], p - 1)
  }

  /** Cutting keeps exactly what comes before the path. */
  lemma {:induction false} ChopFollow(b: Branch, offs: seq<nat>, p: nat, q: seq<nat>)
    requires CutAt(b, offs, p)
    ensures Follow(Chop(b, offs, p), q) == if Less(q, offs) then Follow(b, q) else 0
    decreases p
  {
    if p == 0 {
      if Less(q, offs) {
        DeadFollow(b, offs, q);
      }
    } else if q != [] && q[0] < |b.kids| {
      var k, c := b.kids[offs[0]], Chop(b, offs, p);
      ChopFollow(k, offs[1..], p - 1, q[1..]);
      if q[0] < offs[0] {
        assert c.kids[q[0]] == b.kids[q[0]];
      } else if q[0] > offs[0] {
        assert c.kids[q[0]] == Hole;
      } else {
        assert c.kids[q[0]] == Chop(k, offs[1..], p - 1);
      }
    }
  }
}
