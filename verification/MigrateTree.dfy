/**
 The indirect tree as a function from logical to physical blocks in the order in which the
 migration walks it, and its blocks split into data and indirect blocks.
 */
module MigrateTree {
  import opened IndirectTree
  import opened IndirectFile
  import opened MigrateRanges

  /** Logical blocks below a branch with d levels of indirect blocks. */
  function Span(d: nat, P: nat): nat {
    if d == 0 then 1 else P * Span(d - 1, P)
  }

  function Times(i: nat, span: nat): nat {
    i * span
  }

  lemma TimesNext(i: nat, span: nat)
    ensures Times(i + 1, span) == Times(i, span) + span
  {
  }

  lemma TimesBelow(i: nat, n: nat, span: nat)
    requires i < n
    ensures Times(i, span) + span <= n * span
  {
    MulGap(i, n, span);
  }

  /** What was seen of the stretch from `base` on is exactly the branch. */
  ghost predicate Shows(seen: Seen, b: Branch, d: nat, base: nat, P: nat)
    decreases d
  {
    match b
    case Hole => forall x: nat :: base <= x < base + Span(d, P) ==> x !in seen
    case Data(y) => d == 0 && base in seen && seen[base] == y
    case Node(_, kids) =>
      d > 0 && |kids| == P && forall i: nat :: i < P ==> Shows(seen, kids[i], d - 1, base + Times(i, Span(d - 1, P)), P)
  }

  /** Two records agree on from .. to - 1. */
  ghost predicate Agree(a: Seen, b: Seen, from: nat, to: nat) {
    forall x: nat :: from <= x < to ==> (x in a <==> x in b) && (x in a ==> a[x] == b[x])
  }

  lemma {:induction false} ShowsFrame(seen: Seen, seen': Seen, b: Branch, d: nat, base: nat, P: nat)
    requires Shows(seen, b, d, base, P) && Agree(seen, seen', base, base + Span(d, P))
    ensures Shows(seen', b, d, base, P)
    decreases d
  {
    if b.Node? {
      forall i: nat | i < P ensures Shows(seen', b.kids[i], d - 1, base + Times(i, Span(d - 1, P)), P) {
        TimesBelow(i, P, Span(d - 1, P));
        ShowsFrame(seen, seen', b.kids[i], d - 1, base + Times(i, Span(d - 1, P)), P);
      }
    }
  }

  // ----- paths and positions ------------------------------------------------------------

  function Rank(offs: seq<nat>, P: nat): nat {
    if offs == [] then 0 else Times(offs[0], Span(|offs| - 1, P)) + Rank(offs[1..], P)
  }

  function ValueAt(seen: Seen, x: nat): nat {
    if x in seen then seen[x] else 0
  }

  lemma {:induction false} RankBelow(offs: seq<nat>, P: nat)
    requires forall i :: 0 <= i < |offs| ==> offs[i] < P
    ensures Rank(offs, P) < Span(|offs|, P)
  {
    if offs != [] {
      RankBelow(offs[1..], P);
      TimesBelow(offs[0], P, Span(|offs| - 1, P));
    }
  }

  /** Following a path finds what was seen at its position. */
  lemma {:induction false} FollowShows(seen: Seen, b: Branch, offs: seq<nat>, base: nat, P: nat)
    requires Shows(seen, b, |offs|, base, P) && Uniform(b, |offs|, P)
    requires forall i :: 0 <= i < |offs| ==> offs[i] < P
    ensures Follow(b, offs) == ValueAt(seen, base + Rank(offs, P))
  {
    RankBelow(offs, P);
    if b.Node? {
      FollowShows(seen, b.kids[offs[0]], offs[1..], base + Times(offs[0], Span(|offs| - 1, P)), P);
    }
  }

  /** The first logical block behind pointer i of the inode. */
  function TopBase(i: nat, P: nat): nat {
    if i <= IND then i else if i == DIND then NDIR + P else NDIR + P + P * P
  }

  lemma SpanValues(P: nat)
    ensures Span(0, P) == 1 && Span(1, P) == P && Span(2, P) == P * P && Span(3, P) == P * P * P
  {
    assert Span(1, P) == P * Span(0, P);
    assert Span(2, P) == P * Span(1, P);
    assert Span(3, P) == P * Span(2, P);
    MulTwice(P, P);
  }

  lemma PathRank(P: nat, path: seq<nat>)
    requires ValidPath(P, path)
    ensures PathToBlock(P, path) == TopBase(path[0], P) + Rank(path[1..], P)
  {
    SpanValues(P);
    var o := path[1..];
    if |path| >= 2 {
      assert Rank(o, P) == Times(path[1], Span(|o| - 1, P)) + Rank(o[1..], P);
    }
    if |path| >= 3 {
      assert Rank(o[1..], P) == Times(path[2], Span(|o| - 2, P)) + Rank(o[1..][1..], P);
    }
    if |path| == 4 {
      assert Rank(o[1..][1..], P) == Times(path[3], Span(0, P)) + Rank(o[1..][1..][1..], P);
      MulPair(path[1], path[2], P);
    }
  }

  ghost predicate ShowsTops(seen: Seen, tops: seq<Branch>, n: nat, P: nat)
    requires n <= |tops|
  {
    forall i: nat :: i < n ==> Shows(seen, tops[i], TopDepth(i), TopBase(i, P), P)
  }

  /** Everything the inode maps was seen, at its place, and nothing else. */
  lemma SeenIsFile(seen: Seen, tops: seq<Branch>, P: nat, b: nat)
    requires P > 0 && |tops| == N_BLOCKS && ShowsTops(seen, tops, N_BLOCKS, P)
    requires forall i: nat :: i < N_BLOCKS ==> Uniform(tops[i], TopDepth(i), P)
    requires forall x :: x in seen ==> x < Capacity(P)
    ensures var path := BlockToPath(P, b);
      ValueAt(seen, b) == if path != [] && path[0] < |tops| then Follow(tops[path[0]], path[1..]) else 0
  {
    PathThere(P, b);
    if b < Capacity(P) {
      var path := BlockToPath(P, b);
      PathRank(P, path);
      var i := path[0];
      assert Shows(seen, tops[i], TopDepth(i), TopBase(i, P), P) && Uniform(tops[i], TopDepth(i), P);
      FollowShows(seen, tops[i], path[1..], TopBase(i, P), P);
    }
  }

  // ----- blocks within a limit ------------------------------------------------------------

  /** All data blocks of a branch that begins at `base` belong to logical blocks before top. */
  ghost predicate Confined(b: Branch, d: nat, base: nat, P: nat, top: nat)
    decreases d
  {
    match b
    case Hole => true
    case Data(_) => base < top
    case Node(_, kids) =>
      d > 0 && |kids| == P &&
      forall i: nat :: i < P ==> Confined(kids[i], d - 1, base + Times(i, Span(d - 1, P)), P, top)
  }

  lemma ConfinedKid(b: Branch, depth: nat, d: nat, base: nat, P: nat, top: nat, i: nat, at: nat)
    requires b.Node? && depth == d + 1 && i < P && Confined(b, depth, base, P, top)
    requires at == base + Times(i, Span(d, P))
    ensures i < |b.kids| && Confined(b.kids[i], d, at, P, top)
  {
  }

  /** The offsets of a path through d levels. */
  ghost predicate Offsets(offs: seq<nat>, d: nat, P: nat) {
    |offs| == d && forall i :: 0 <= i < d ==> offs[i] < P
  }

  ghost predicate LeadsBelow(b: Branch, offs: seq<nat>, base: nat, P: nat, top: nat) {
    Follow(b, offs) != 0 ==> base + Rank(offs, P) < top
  }

  lemma {:induction false} BelowFrom(b: Branch, d: nat, base: nat, P: nat, top: nat)
    requires Uniform(b, d, P) && forall offs :: Offsets(offs, d, P) ==> LeadsBelow(b, offs, base, P, top)
    ensures Confined(b, d, base, P, top)
    decreases d
  {
    match b
    case Hole =>
    case Data(_) =>
      assert Offsets([], d, P);
      assert LeadsBelow(b, [], base, P, top);
    case Node(_, kids) =>
      forall i: nat | i < P ensures Confined(kids[i], d - 1, base + Times(i, Span(d - 1, P)), P, top) {
        KidBelow(b, d, d - 1, base, P, top, i);
        BelowFrom(kids[i], d - 1, base + Times(i, Span(d - 1, P)), P, top);
      }
  }

  lemma KidBelow(b: Branch, d: nat, k: nat, base: nat, P: nat, top: nat, i: nat)
    requires b.Node? && d == k + 1 && i < P == |b.kids|
    requires forall offs :: Offsets(offs, d, P) ==> LeadsBelow(b, offs, base, P, top)
    ensures forall offs :: Offsets(offs, k, P) ==> LeadsBelow(b.kids[i], offs, base + Times(i, Span(k, P)), P, top)
  {
    forall offs | Offsets(offs, k, P) ensures LeadsBelow(b.kids[i], offs, base + Times(i, Span(k, P)), P, top) {
      var all := [i] + offs;
      assert all[0] == i && all[1..] == offs;
      assert Offsets(all, d, P) && LeadsBelow(b, all, base, P, top);
    }
  }

  /** The block b of a file with these pointers, 0 for none. */
  ghost function BlockOf(tops: seq<Branch>, P: nat, b: nat): nat
    requires P > 0
  {
    var path := BlockToPath(P, b);
    if path != [] && path[0] < |tops| then Follow(tops[path[0]], path[1..]) else 0
  }

  lemma TopBelow(tops: seq<Branch>, P: nat, i: nat, top: nat)
    requires P > 0 && i < N_BLOCKS == |tops| && Uniform(tops[i], TopDepth(i), P)
    requires forall b: nat :: BlockOf(tops, P, b) != 0 ==> b < top
    ensures Confined(tops[i], TopDepth(i), TopBase(i, P), P, top)
  {
    forall offs | Offsets(offs, TopDepth(i), P) ensures LeadsBelow(tops[i], offs, TopBase(i, P), P, top) {
      var path := [i] + offs;
      assert path[0] == i && path[1..] == offs;
      assert ValidPath(P, path);
      PathBack(P, path);
      PathRank(P, path);
      assert BlockOf(tops, P, PathToBlock(P, path)) == Follow(tops[i], offs);
    }
    BelowFrom(tops[i], TopDepth(i), TopBase(i, P), P, top);
  }

  // ----- data blocks and indirect blocks -------------------------------------------------

  ghost function DataIn(b: Branch): multiset<nat> {
    match b
    case Hole => multiset{}
    case Data(x) => multiset{x}
    case Node(_, kids) => DataInAll(kids)
  }

  ghost function DataInAll(bs: seq<Branch>): multiset<nat> {
    if bs == [] then multiset{} else DataInAll(bs[..|bs| - 1]) + DataIn(bs[|bs| - 1])
  }

  /** The indirect blocks. */
  ghost function NodesIn(b: Branch): multiset<nat> {
    match b
    case Node(x, kids) => multiset{x} + NodesInAll(kids)
    case _ => multiset{}
  }

  ghost function NodesInAll(bs: seq<Branch>): multiset<nat> {
    if bs == [] then multiset{} else NodesInAll(bs[..|bs| - 1]) + NodesIn(bs[|bs| - 1])
  }

  lemma {:induction false} BlocksParts(b: Branch)
    ensures Blocks(b) == DataIn(b) + NodesIn(b)
  {
    if b.Node? {
      BlocksPartsAll(b.kids);
    }
  }

  lemma {:induction false} BlocksPartsAll(bs: seq<Branch>)
    ensures BlocksOf(bs) == DataInAll(bs) + NodesInAll(bs)
  {
    if bs != [] {
      var n := |bs| - 1;
      BlocksPartsAll(bs[..n]);
      BlocksParts(bs[n]);
      BlocksSplit(bs, n);
      assert bs[n + 1..] == [];
    }
  }

  lemma InAllNext(bs: seq<Branch>, i: nat)
    requires i < |bs|
    ensures DataInAll(bs[..i + 1]) == DataInAll(bs[..i]) + DataIn(bs[i])
    ensures NodesInAll(bs[..i + 1]) == NodesInAll(bs[..i]) + NodesIn(bs[i])
  {
    assert bs[..i + 1][..i] == bs[..i];
  }

  lemma {:induction false} DataPrefix(bs: seq<Branch>, i: nat)
    requires i <= |bs|
    ensures DataInAll(bs[..i]) <= DataInAll(bs)
    decreases |bs| - i
  {
    if i < |bs| {
      InAllNext(bs, i);
      DataPrefix(bs, i + 1);
    } else {
      assert bs[..i] == bs;
    }
  }

  // ----- walking -------------------------------------------------------------------------

  ghost predicate KeysBelow(seen: Seen, c: nat) {
    forall x :: x in seen ==> x < c
  }

  /** How far the reading has got: blocks seen, data blocks counted, next logical block. */
  datatype Mark = Mark(seen: Seen, data: multiset<nat>, at: nat)

  /** Reading branch b: everything before is as it was, the branch is shown. */
  ghost predicate Advanced(m0: Mark, m1: Mark, b: Branch, d: nat, P: nat) {
    && m1.at == m0.at + Span(d, P) && m1.data == m0.data + DataIn(b) && KeysBelow(m1.seen, m1.at)
    && Agree(m0.seen, m1.seen, 0, m0.at) && Shows(m1.seen, b, d, m0.at, P)
  }

  ghost predicate ShowsKids(seen: Seen, kids: seq<Branch>, n: nat, d: nat, base: nat, P: nat)
    requires n <= |kids|
  {
    forall j: nat :: j < n ==> Shows(seen, kids[j], d, base + Times(j, Span(d, P)), P)
  }

  /** The same for the first i of the branches of one block. */
  ghost predicate AdvancedTo(m0: Mark, m1: Mark, kids: seq<Branch>, i: nat, d: nat, P: nat)
    requires i <= |kids|
  {
    && m1.at == m0.at + Times(i, Span(d, P)) && m1.data == m0.data + DataInAll(kids[..i]) && KeysBelow(m1.seen, m1.at)
    && Agree(m0.seen, m1.seen, 0, m0.at) && ShowsKids(m1.seen, kids, i, d, m0.at, P)
  }

  lemma StartAdvance(m: Mark, kids: seq<Branch>, d: nat, P: nat)
    requires KeysBelow(m.seen, m.at)
    ensures AdvancedTo(m, m, kids, 0, d, P)
  {
  }

  lemma KidsFrame(seen: Seen, seen': Seen, kids: seq<Branch>, n: nat, d: nat, base: nat, P: nat, to: nat)
    requires n <= |kids| && ShowsKids(seen, kids, n, d, base, P)
    requires to == base + Times(n, Span(d, P)) && Agree(seen, seen', 0, to)
    ensures ShowsKids(seen', kids, n, d, base, P)
  {
    forall j: nat | j < n ensures Shows(seen', kids[j], d, base + Times(j, Span(d, P)), P) {
      TimesBelow(j, n, Span(d, P));
      ShowsFrame(seen, seen', kids[j], d, base + Times(j, Span(d, P)), P);
    }
  }

  lemma NextAdvance(m0: Mark, m1: Mark, m2: Mark, kids: seq<Branch>, i: nat, next: nat, d: nat, P: nat)
    requires i < next == i + 1 <= |kids| && AdvancedTo(m0, m1, kids, i, d, P) && Advanced(m1, m2, kids[i], d, P)
    ensures AdvancedTo(m0, m2, kids, next, d, P)
  {
    TimesNext(i, Span(d, P));
    DataNext(m0.data, kids, i, next);
    KidsFrame(m1.seen, m2.seen, kids, i, d, m0.at, P, m1.at);
    KidsNext(m2.seen, kids, i, next, d, m0.at, m1.at, P);
    AgreeTrans(m0.seen, m1.seen, m2.seen, m0.at, m1.at);
  }

  lemma KidsNext(seen: Seen, kids: seq<Branch>, i: nat, next: nat, d: nat, base: nat, at: nat, P: nat)
    requires i < next == i + 1 <= |kids| && ShowsKids(seen, kids, i, d, base, P)
    requires at == base + Times(i, Span(d, P)) && Shows(seen, kids[i], d, at, P)
    ensures ShowsKids(seen, kids, next, d, base, P)
  {
  }

  lemma DataNext(data: multiset<nat>, kids: seq<Branch>, i: nat, next: nat)
    requires i < next == i + 1 <= |kids|
    ensures data + DataInAll(kids[..next]) == (data + DataInAll(kids[..i])) + DataIn(kids[i])
  {
    InAllNext(kids, i);
  }

  lemma AgreeTrans(seen0: Seen, seen1: Seen, seen2: Seen, c0: nat, c1: nat)
    requires c0 <= c1 && Agree(seen0, seen1, 0, c0) && Agree(seen1, seen2, 0, c1)
    ensures Agree(seen0, seen2, 0, c0)
  {
    forall x: nat | x < c0 ensures (x in seen0 <==> x in seen2) && (x in seen0 ==> seen0[x] == seen2[x]) {
      assert x in seen0 <==> x in seen1;
    }
  }

  lemma EndAdvance(m0: Mark, m1: Mark, b: Branch, i: nat, d: nat, k: nat, P: nat)
    requires d == k + 1 && b.Node? && |b.kids| == i == P && AdvancedTo(m0, m1, b.kids, i, k, P)
    ensures Advanced(m0, m1, b, d, P)
  {
    assert b.kids[..P] == b.kids;
  }

  lemma HoleAdvance(m: Mark, d: nat, P: nat)
    requires KeysBelow(m.seen, m.at)
    ensures Advanced(m, m.(at := m.at + Span(d, P)), Hole, d, P)
  {
  }

  lemma DataAdvance(m: Mark, q: nat, P: nat)
    requires KeysBelow(m.seen, m.at)
    ensures Advanced(m, Mark(m.seen[m.at := q], m.data + multiset{q}, m.at + 1), Data(q), 0, P)
  {
  }

  // ----- the pointers of the inode ---------------------------------------------------------

  /** The first n pointers of the inode have been read. */
  ghost predicate ReadTo(m: Mark, tops: seq<Branch>, n: nat, P: nat)
    requires n <= |tops|
  {
    m.at == TopBase(n, P) && m.data == DataInAll(tops[..n]) && KeysBelow(m.seen, m.at) && ShowsTops(m.seen, tops, n, P)
  }

  /** All of them have. */
  ghost predicate ReadAll(m: Mark, tops: seq<Branch>, P: nat) {
    |tops| == N_BLOCKS && m.data == DataInAll(tops) && KeysBelow(m.seen, Capacity(P))
      && ShowsTops(m.seen, tops, N_BLOCKS, P)
  }

  lemma TopNext(i: nat, P: nat)
    requires i < TIND
    ensures TopBase(i + 1, P) == TopBase(i, P) + Span(TopDepth(i), P)
  {
    SpanValues(P);
  }

  lemma {:induction false} TopOrder(i: nat, n: nat, P: nat)
    requires i < n <= TIND
    ensures TopBase(i, P) + Span(TopDepth(i), P) <= TopBase(n, P)
    decreases n
  {
    TopNext(n - 1, P);
    if i < n - 1 {
      TopOrder(i, n - 1, P);
    }
  }

  lemma TopsFrame(seen: Seen, seen': Seen, tops: seq<Branch>, n: nat, P: nat)
    requires n <= TIND < |tops| && ShowsTops(seen, tops, n, P) && Agree(seen, seen', 0, TopBase(n, P))
    ensures ShowsTops(seen', tops, n, P)
  {
    forall i: nat | i < n ensures Shows(seen', tops[i], TopDepth(i), TopBase(i, P), P) {
      TopOrder(i, n, P);
      ShowsFrame(seen, seen', tops[i], TopDepth(i), TopBase(i, P), P);
    }
  }

  lemma ReadNext(m: Mark, m': Mark, tops: seq<Branch>, n: nat, next: nat, P: nat)
    requires n < next == n + 1 <= TIND < |tops| && ReadTo(m, tops, n, P) && Advanced(m, m', tops[n], TopDepth(n), P)
    ensures ReadTo(m', tops, next, P)
  {
    InAllNext(tops, n);
    TopsFrame(m.seen, m'.seen, tops, n, P);
    TopNext(n, P);
  }

  lemma ReadLast(m: Mark, m': Mark, tops: seq<Branch>, P: nat)
    requires |tops| == N_BLOCKS && ReadTo(m, tops, TIND, P) && Advanced(m, m', tops[TIND], TopDepth(TIND), P)
    ensures ReadAll(m', tops, P)
  {
    InAllNext(tops, TIND);
    assert tops[..N_BLOCKS] == tops;
    TopsFrame(m.seen, m'.seen, tops, TIND, P);
    SpanValues(P);
  }
}
