/**
 The extent B-tree as a value: node shapes, paths into it, and the disk blocks that
 hold it. The imperative code works on raw nodes in a block map; `Rep` says that a
 block map holds a given tree.
 */
module ExtentTrees {
  import opened Extents

  /** struct ext4_extent_idx: first logical block below, and the node's block number. */
  datatype Idx = Idx(key: nat, ptr: nat)

  /** A node as stored: header (eh_max, eh_depth) and its live entries. */
  datatype Node =
    | LeafNode(max: nat, exts: seq<Extent>)
    | IndexNode(max: nat, depth: nat, idx: seq<Idx>)

  type Disk = map<nat, Node>

  datatype Tree =
    | Leaf(max: nat, exts: seq<Extent>)
    | Index(max: nat, depth: nat, idx: seq<Idx>, kids: seq<Tree>)

  /** Child positions from the root downwards. */
  type Path = seq<nat>

  function Top(t: Tree): Node {
    match t
    case Leaf(max, exts) => LeafNode(max, exts)
    case Index(max, depth, idx, _) => IndexNode(max, depth, idx)
  }

  function Depth(t: Tree): nat {
    if t.Leaf? then 0 else t.depth
  }

  function NodeDepth(n: Node): nat {
    if n.LeafNode? then 0 else n.depth
  }

  function Entries(n: Node): nat {
    if n.LeafNode? then |n.exts| else |n.idx|
  }

  // ----- structure ---------------------------------------------------------

  /** Uniform depth, one child per index entry. */
  ghost predicate Shape(t: Tree) {
    t.Index? ==>
      && t.depth > 0
      && |t.idx| == |t.kids|
      && forall i :: 0 <= i < |t.kids| ==> Depth(t.kids[i]) == t.depth - 1 && Shape(t.kids[i])
  }

  ghost predicate Rep(disk: Disk, t: Tree)
    requires Shape(t)
  {
    t.Index? ==>
      forall i :: 0 <= i < |t.kids| ==>
        && t.idx[i].ptr in disk
        && disk[t.idx[i].ptr] == Top(t.kids[i])
        && Rep(disk, t.kids[i])
  }

  /** All extents of a tree, left to right. */
  ghost function Exts(t: Tree): seq<Extent> {
    match t
    case Leaf(_, exts) => exts
    case Index(_, _, _, kids) => ExtsOf(kids)
  }

  ghost function ExtsOf(ts: seq<Tree>): seq<Extent> {
    if ts == [] then [] else Exts(ts[0]) + ExtsOf(ts[1..])
  }

  /** The block numbers of all nodes below the root, with multiplicity. */
  ghost function Blocks(t: Tree): multiset<nat> {
    match t
    case Leaf(_, _) => multiset{}
    case Index(_, _, idx, kids) => Ptrs(idx) + BlocksOf(kids)
  }

  ghost function BlocksOf(ts: seq<Tree>): multiset<nat> {
    if ts == [] then multiset{} else Blocks(ts[0]) + BlocksOf(ts[1..])
  }

  ghost function Ptrs(idx: seq<Idx>): multiset<nat> {
    if idx == [] then multiset{} else multiset{idx[0].ptr} + Ptrs(idx[1..])
  }

  ghost predicate NoDup(m: multiset<nat>) {
    forall x :: m[x] <= 1
  }

  // ----- concatenation -----------------------------------------------------

  lemma {:induction false} ExtsAppend(a: seq<Tree>, b: seq<Tree>)
    ensures ExtsOf(a + b) == ExtsOf(a) + ExtsOf(b)
  {
    if a == [] {
      assert a + b == b;
    } else {
      assert (a + b)[1..] == a[1..] + b;
      ExtsAppend(a[1..], b);
    }
  }

  lemma ExtsSingle(t: Tree)
    ensures ExtsOf([t]) == Exts(t)
  {
    assert [t][1..] == [];
  }

  lemma {:induction false} BlocksAppend(a: seq<Tree>, b: seq<Tree>)
    ensures BlocksOf(a + b) == BlocksOf(a) + BlocksOf(b)
  {
    if a == [] {
      assert a + b == b;
    } else {
      assert (a + b)[1..] == a[1..] + b;
      BlocksAppend(a[1..], b);
    }
  }

  lemma BlocksSingle(t: Tree)
    ensures BlocksOf([t]) == Blocks(t)
  {
    assert [t][1..] == [];
  }

  lemma {:induction false} PtrsAppend(a: seq<Idx>, b: seq<Idx>)
    ensures Ptrs(a + b) == Ptrs(a) + Ptrs(b)
  {
    if a == [] {
      assert a + b == b;
    } else {
      assert (a + b)[1..] == a[1..] + b;
      PtrsAppend(a[1..], b);
    }
  }

  lemma PtrsSingle(x: Idx)
    ensures Ptrs([x]) == multiset{x.ptr}
  {
    assert [x][1..] == [];
  }

  lemma SplitAround<T>(s: seq<T>, i: nat)
    requires i < |s|
    ensures s == (s[..i] + [s[i]]) + s[i + 1..]
  {
  }

  /** Splitting a list of children around position i. */
  lemma KidsSplit(ts: seq<Tree>, i: nat)
    requires i < |ts|
    ensures ExtsOf(ts) == ExtsOf(ts[..i]) + Exts(ts[i]) + ExtsOf(ts[i + 1..])
    ensures BlocksOf(ts) == BlocksOf(ts[..i]) + Blocks(ts[i]) + BlocksOf(ts[i + 1..])
  {
    var l, m, r := ts[..i], [ts[i]], ts[i + 1..];
    SplitAround(ts, i);
    ExtsAppend(l + m, r);
    ExtsAppend(l, m);
    ExtsSingle(ts[i]);
    BlocksAppend(l + m, r);
    BlocksAppend(l, m);
    BlocksSingle(ts[i]);
  }

  lemma PtrsSplit(idx: seq<Idx>, i: nat)
    requires i < |idx|
    ensures Ptrs(idx) == Ptrs(idx[..i]) + multiset{idx[i].ptr} + Ptrs(idx[i + 1..])
  {
    var l, m, r := idx[..i], [idx[i]], idx[i + 1..];
    SplitAround(idx, i);
    PtrsAppend(l + m, r);
    PtrsAppend(l, m);
    PtrsSingle(idx[i]);
  }

  // ----- paths ---------------------------------------------------------------

  ghost predicate PathIn(t: Tree, p: Path) {
    p == [] || (t.Index? && p[0] < |t.kids| && PathIn(t.kids[p[0]], p[1..]))
  }

  ghost function At(t: Tree, p: Path): Tree
    requires PathIn(t, p)
  {
    if p == [] then t else At(t.kids[p[0]], p[1..])
  }

  /** The tree with the subtree at p exchanged. */
  ghost function Update(t: Tree, p: Path, s: Tree): Tree
    requires PathIn(t, p)
  {
    if p == [] then s
    else t.(kids := t.kids[p[0] := Update(t.kids[p[0]], p[1..], s)])
  }

  /** Extents strictly left, and strictly right, of the subtree at p. */
  ghost function LeftOf(t: Tree, p: Path): seq<Extent>
    requires PathIn(t, p)
  {
    if p == [] then [] else ExtsOf(t.kids[..p[0]]) + LeftOf(t.kids[p[0]], p[1..])
  }

  ghost function RightOf(t: Tree, p: Path): seq<Extent>
    requires PathIn(t, p)
  {
    if p == [] then [] else RightOf(t.kids[p[0]], p[1..]) + ExtsOf(t.kids[p[0] + 1..])
  }

  lemma {:induction false} ExtsAt(t: Tree, p: Path)
    requires PathIn(t, p)
    ensures Exts(t) == LeftOf(t, p) + Exts(At(t, p)) + RightOf(t, p)
  {
    if p != [] {
      ExtsAt(t.kids[p[0]], p[1..]);
      KidsSplit(t.kids, p[0]);
    }
  }

  lemma {:induction false} UpdateShape(t: Tree, p: Path, s: Tree)
    requires PathIn(t, p) && Shape(t) && Shape(s) && Depth(s) == Depth(At(t, p))
    ensures Shape(Update(t, p, s)) && Depth(Update(t, p, s)) == Depth(t)
  {
    if p != [] {
      UpdateShape(t.kids[p[0]], p[1..], s);
    }
  }

  lemma {:induction false} AtShape(t: Tree, p: Path)
    requires PathIn(t, p) && Shape(t)
    ensures Shape(At(t, p)) && Depth(At(t, p)) == Depth(t) - |p|
  {
    if p != [] {
      AtShape(t.kids[p[0]], p[1..]);
    }
  }

  lemma {:induction false} UpdateAt(t: Tree, p: Path, s: Tree)
    requires PathIn(t, p)
    ensures PathIn(Update(t, p, s), p) && At(Update(t, p, s), p) == s
    ensures p != [] ==> Top(Update(t, p, s)) == Top(t)
  {
    if p != [] {
      UpdateAt(t.kids[p[0]], p[1..], s);
    }
  }

  lemma {:induction false} UpdateTwice(t: Tree, p: Path, s: Tree, s': Tree)
    requires PathIn(t, p)
    ensures PathIn(Update(t, p, s), p)
    ensures Update(Update(t, p, s), p, s') == Update(t, p, s')
  {
    UpdateAt(t, p, s);
    if p != [] {
      UpdateTwice(t.kids[p[0]], p[1..], s, s');
    }
  }

  lemma {:induction false} UpdateSelf(t: Tree, p: Path)
    requires PathIn(t, p)
    ensures Update(t, p, At(t, p)) == t
  {
    if p != [] {
      UpdateSelf(t.kids[p[0]], p[1..]);
    }
  }

  lemma {:induction false} UpdateSides(t: Tree, p: Path, s: Tree)
    requires PathIn(t, p)
    ensures PathIn(Update(t, p, s), p)
    ensures LeftOf(Update(t, p, s), p) == LeftOf(t, p)
    ensures RightOf(Update(t, p, s), p) == RightOf(t, p)
  {
    UpdateAt(t, p, s);
    if p != [] {
      UpdateSides(t.kids[p[0]], p[1..], s);
    }
  }

  lemma UpdateExts(t: Tree, p: Path, s: Tree)
    requires PathIn(t, p)
    ensures Exts(Update(t, p, s)) == LeftOf(t, p) + Exts(s) + RightOf(t, p)
  {
    UpdateAt(t, p, s);
    UpdateSides(t, p, s);
    ExtsAt(Update(t, p, s), p);
  }

  lemma {:induction false} UpdateBlocks(t: Tree, p: Path, s: Tree)
    requires PathIn(t, p)
    ensures Blocks(Update(t, p, s)) + Blocks(At(t, p)) == Blocks(t) + Blocks(s)
  {
    if p != [] {
      var i, k := p[0], t.kids[p[0]];
      var k' := Update(k, p[1..], s);
      UpdateBlocks(k, p[1..], s);
      KidsSplit(t.kids, i);
      var ks := t.kids[i := k'];
      KidsSplit(ks, i);
      assert ks[..i] == t.kids[..i] && ks[i + 1..] == t.kids[i + 1..];
      Exchange(Ptrs(t.idx), BlocksOf(t.kids[..i]), BlocksOf(t.kids[i + 1..]),
               Blocks(k), Blocks(k'), Blocks(At(t, p)), Blocks(s));
    }
  }

  lemma Exchange(a: multiset<nat>, b: multiset<nat>, d: multiset<nat>, c: multiset<nat>, c': multiset<nat>,
                 f: multiset<nat>, e: multiset<nat>)
    requires c' + f == c + e
    ensures (a + (b + c' + d)) + f == (a + (b + c + d)) + e
  {
    var u, v := (a + (b + c' + d)) + f, (a + (b + c + d)) + e;
    forall x: nat ensures u[x] == v[x] {
      assert (c' + f)[x] == (c + e)[x];
    }
  }

  // ----- concatenated paths ----------------------------------------------------

  lemma {:induction false} PathJoin(t: Tree, p: Path, q: Path)
    requires PathIn(t, p)
    ensures PathIn(t, p + q) <==> PathIn(At(t, p), q)
    ensures PathIn(t, p + q) ==> At(t, p + q) == At(At(t, p), q)
  {
    if p == [] {
      assert p + q == q;
    } else {
      assert (p + q)[1..] == p[1..] + q;
      PathJoin(t.kids[p[0]], p[1..], q);
    }
  }

  lemma {:induction false} LeftJoin(t: Tree, p: Path, q: Path)
    requires PathIn(t, p) && PathIn(At(t, p), q)
    ensures PathIn(t, p + q)
    ensures LeftOf(t, p + q) == LeftOf(t, p) + LeftOf(At(t, p), q)
  {
    PathJoin(t, p, q);
    if p == [] {
      assert p + q == q;
    } else {
      assert (p + q)[1..] == p[1..] + q && (p + q)[0] == p[0];
      var k := t.kids[p[0]];
      LeftJoin(k, p[1..], q);
      SeqAssoc(ExtsOf(t.kids[..p[0]]), LeftOf(k, p[1..]), LeftOf(At(t, p), q));
    }
  }

  lemma {:induction false} RightJoin(t: Tree, p: Path, q: Path)
    requires PathIn(t, p) && PathIn(At(t, p), q)
    ensures PathIn(t, p + q)
    ensures RightOf(t, p + q) == RightOf(At(t, p), q) + RightOf(t, p)
  {
    PathJoin(t, p, q);
    if p == [] {
      assert p + q == q;
    } else {
      assert (p + q)[1..] == p[1..] + q && (p + q)[0] == p[0];
      var k := t.kids[p[0]];
      RightJoin(k, p[1..], q);
      SeqAssoc(RightOf(At(t, p), q), RightOf(k, p[1..]), ExtsOf(t.kids[p[0] + 1..]));
    }
  }

  lemma SeqAssoc(a: seq<Extent>, b: seq<Extent>, c: seq<Extent>)
    ensures (a + b) + c == a + (b + c)
  {
  }

  lemma {:induction false} UpdateJoin(t: Tree, p: Path, q: Path, s: Tree)
    requires PathIn(t, p) && PathIn(At(t, p), q)
    ensures PathIn(t, p + q)
    ensures Update(t, p + q, s) == Update(t, p, Update(At(t, p), q, s))
  {
    PathJoin(t, p, q);
    if p == [] {
      assert p + q == q;
    } else {
      assert (p + q)[1..] == p[1..] + q;
      UpdateJoin(t.kids[p[0]], p[1..], q, s);
    }
  }

  lemma PathPrefix(t: Tree, p: Path, k: nat)
    requires PathIn(t, p) && k <= |p|
    ensures PathIn(t, p[..k]) && PathIn(At(t, p[..k]), p[k..])
    ensures At(At(t, p[..k]), p[k..]) == At(t, p)
    decreases p
  {
    assert p == p[..k] + p[k..];
    if k == 0 {
      assert p[..k] == [] && p[k..] == p;
    } else {
      assert p[..k][1..] == p[1..][..k - 1] && p[k..] == p[1..][k - 1..];
      PathPrefix(t.kids[p[0]], p[1..], k - 1);
    }
  }

  // ----- disk ------------------------------------------------------------------

  lemma {:induction false} BlocksOfKid(ts: seq<Tree>, i: nat)
    requires i < |ts|
    ensures Blocks(ts[i]) <= BlocksOf(ts)
  {
    KidsSplit(ts, i);
  }

  lemma PtrsOne(idx: seq<Idx>, i: nat)
    requires i < |idx|
    ensures Ptrs(idx)[idx[i].ptr] >= 1
  {
    PtrsSplit(idx, i);
  }

  /** A tree stays on disk as long as its own blocks are not touched. */
  lemma {:induction false} RepFrame(disk: Disk, disk': Disk, t: Tree)
    requires Shape(t) && Rep(disk, t)
    requires forall x :: x in Blocks(t) ==> x in disk && x in disk' && disk'[x] == disk[x]
    ensures Rep(disk', t)
  {
    if t.Index? {
      forall i | 0 <= i < |t.kids|
        ensures t.idx[i].ptr in disk' && disk'[t.idx[i].ptr] == Top(t.kids[i]) && Rep(disk', t.kids[i])
      {
        PtrsOne(t.idx, i);
        BlocksOfKid(t.kids, i);
        RepFrame(disk, disk', t.kids[i]);
      }
    }
  }

  lemma {:induction false} RepBlocks(disk: Disk, t: Tree, x: nat)
    requires Shape(t) && Rep(disk, t) && x in Blocks(t)
    ensures x in disk
  {
    if x in Ptrs(t.idx) {
      PtrsMember(t.idx, x);
    } else {
      var i := BlocksOfMember(t.kids, x);
      RepBlocks(disk, t.kids[i], x);
    }
  }

  lemma {:induction false} PtrsMember(idx: seq<Idx>, x: nat)
    requires x in Ptrs(idx)
    ensures exists i :: 0 <= i < |idx| && idx[i].ptr == x
  {
    if idx[0].ptr != x {
      PtrsMember(idx[1..], x);
      var i :| 0 <= i < |idx[1..]| && idx[1..][i].ptr == x;
      assert idx[i + 1].ptr == x;
    }
  }

  lemma {:induction false} BlocksOfMember(ts: seq<Tree>, x: nat) returns (i: nat)
    requires x in BlocksOf(ts)
    ensures i < |ts| && x in Blocks(ts[i])
  {
    if x in Blocks(ts[0]) {
      i := 0;
    } else {
      i := BlocksOfMember(ts[1..], x);
      i := i + 1;
    }
  }

  /** The block of the node at p (which is not the root). */
  ghost function BlockAt(t: Tree, p: Path): nat
    requires PathIn(t, p) && p != [] && Shape(t)
  {
    if |p| == 1 then t.idx[p[0]].ptr else BlockAt(t.kids[p[0]], p[1..])
  }

  lemma {:induction false} BlockAtIn(t: Tree, p: Path)
    requires PathIn(t, p) && p != [] && Shape(t)
    ensures BlockAt(t, p) in Blocks(t)
  {
    if |p| == 1 {
      PtrsOne(t.idx, p[0]);
    } else {
      BlockAtIn(t.kids[p[0]], p[1..]);
      BlocksOfKid(t.kids, p[0]);
    }
  }

  lemma {:induction false} BlocksAt(t: Tree, p: Path)
    requires PathIn(t, p)
    ensures Blocks(At(t, p)) <= Blocks(t)
  {
    if p != [] {
      BlocksAt(t.kids[p[0]], p[1..]);
      BlocksOfKid(t.kids, p[0]);
    }
  }

  /** With no block used twice, different children occupy different blocks. */
  lemma Separate(t: Tree, i: nat, j: nat)
    requires t.Index? && Shape(t) && NoDup(Blocks(t)) && i < |t.kids| && j < |t.kids| && i != j
    ensures t.idx[i].ptr != t.idx[j].ptr
    ensures forall x :: x in Blocks(t.kids[i]) ==> x !in Blocks(t.kids[j])
  {
    var a, b := if i < j then i else j, if i < j then j else i;
    KidsSplit(t.kids, a);
    PtrsSplit(t.idx, a);
    BlocksOfKid(t.kids[a + 1..], b - a - 1);
    PtrsOne(t.idx[a + 1..], b - a - 1);
    assert t.kids[a + 1..][b - a - 1] == t.kids[b] && t.idx[a + 1..][b - a - 1] == t.idx[b];
    assert NoDup(Ptrs(t.idx) + BlocksOf(t.kids));
    assert Blocks(t)[t.idx[a].ptr] <= 1;
    forall x | x in Blocks(t.kids[a]) ensures x !in Blocks(t.kids[b]) {
      assert Blocks(t)[x] <= 1;
    }
  }

  lemma PtrNotBelow(t: Tree, i: nat, j: nat)
    requires t.Index? && Shape(t) && NoDup(Blocks(t)) && i < |t.kids| && j < |t.kids|
    ensures t.idx[i].ptr !in Blocks(t.kids[j])
  {
    BlocksOfKid(t.kids, j);
    PtrsOne(t.idx, i);
    assert Blocks(t)[t.idx[i].ptr] <= 1;
  }

  lemma KidNoDup(t: Tree, i: nat)
    requires t.Index? && NoDup(Blocks(t)) && i < |t.kids|
    ensures NoDup(Blocks(t.kids[i]))
  {
    BlocksOfKid(t.kids, i);
    forall x ensures Blocks(t.kids[i])[x] <= 1 {
      assert Blocks(t)[x] <= 1;
    }
  }

  lemma {:induction false} AtRep(disk: Disk, t: Tree, p: Path)
    requires PathIn(t, p) && Shape(t) && Rep(disk, t)
    ensures Shape(At(t, p)) && Rep(disk, At(t, p))
    ensures p != [] ==> BlockAt(t, p) in disk && disk[BlockAt(t, p)] == Top(At(t, p))
  {
    if p != [] {
      AtRep(disk, t.kids[p[0]], p[1..]);
    }
  }

  /** The kids other than i are untouched when only blocks at or below kid i change. */
  lemma SiblingRep(disk: Disk, disk': Disk, t: Tree, i: nat, j: nat, changed: set<nat>)
    requires t.Index? && Shape(t) && Rep(disk, t) && NoDup(Blocks(t)) && i < |t.kids| && j < |t.kids| && i != j
    requires forall x :: x in changed ==> x == t.idx[i].ptr || x in Blocks(t.kids[i])
    requires forall x :: x in Blocks(t) && x !in changed ==> x in disk' && x in disk && disk'[x] == disk[x]
    ensures t.idx[j].ptr in disk' && disk'[t.idx[j].ptr] == Top(t.kids[j]) && Rep(disk', t.kids[j])
  {
    Separate(t, i, j);
    PtrNotBelow(t, j, i);
    PtrNotBelow(t, i, j);
    PtrsOne(t.idx, j);
    BlocksOfKid(t.kids, j);
    RepFrame(disk, disk', t.kids[j]);
  }

  /** Storing a new subtree at p, and touching nothing else, stores the updated tree. */
  lemma {:induction false} RepUpdate(disk: Disk, disk': Disk, t: Tree, p: Path, s: Tree, changed: set<nat>)
    requires PathIn(t, p) && p != [] && Shape(t) && Shape(s) && Depth(s) == Depth(At(t, p))
    requires Rep(disk, t) && NoDup(Blocks(t)) && Rep(disk', s)
    requires BlockAt(t, p) in disk' && disk'[BlockAt(t, p)] == Top(s)
    requires forall x :: x in changed ==> x == BlockAt(t, p) || x in Blocks(At(t, p))
    requires forall x :: x in Blocks(t) && x !in changed ==> x in disk && x in disk' && disk'[x] == disk[x]
    ensures Shape(Update(t, p, s)) && Rep(disk', Update(t, p, s))
  {
    UpdateShape(t, p, s);
    var i, k := p[0], t.kids[p[0]];
    BlocksAt(k, p[1..]);
    if |p| > 1 {
      BlockAtIn(k, p[1..]);
      assert BlockAt(t, p) == BlockAt(k, p[1..]);
      KidNoDup(t, i);
      BlocksOfKid(t.kids, i);
      RepUpdate(disk, disk', k, p[1..], s, changed);
      UpdateAt(k, p[1..], s);
      PtrNotBelow(t, i, i);
      PtrsOne(t.idx, i);
    }
    var u := Update(t, p, s);
    forall j | 0 <= j < |u.kids|
      ensures u.idx[j].ptr in disk' && disk'[u.idx[j].ptr] == Top(u.kids[j]) && Rep(disk', u.kids[j])
    {
      if j != i {
        SiblingRep(disk, disk', t, i, j, changed);
      }
    }
  }

  // ----- order and capacity -------------------------------------------------------

  predicate Empty(t: Tree) {
    if t.Leaf? then t.exts == [] else t.idx == []
  }

  /** First key stored in a node. */
  function LKey(t: Tree): nat
    requires !Empty(t)
  {
    if t.Leaf? then t.exts[0].block else t.idx[0].key
  }

  /** Every index key repeats the first key of the node it points to. */
  ghost predicate Tight(t: Tree)
    requires Shape(t)
  {
    t.Index? ==> forall i :: 0 <= i < |t.kids| ==> TightEdge(t, i) && Tight(t.kids[i])
  }

  ghost predicate TightEdge(t: Tree, i: nat)
    requires t.Index? && Shape(t) && i < |t.kids|
  {
    !Empty(t.kids[i]) ==> t.idx[i].key == LKey(t.kids[i])
  }

  ghost predicate NoEmpty(t: Tree) {
    !Empty(t) && (t.Index? ==> forall i :: 0 <= i < |t.kids| ==> NoEmpty(t.kids[i]))
  }

  /** Nodes below the root have capacity `cap` and respect it. */
  ghost predicate Fits(t: Tree, cap: nat) {
    t.Index? ==> forall i :: 0 <= i < |t.kids| ==>
      t.kids[i].max == cap && Entries(Top(t.kids[i])) <= cap && Fits(t.kids[i], cap)
  }

  /** Strictly increasing keys in every index node. */
  ghost predicate SortedKeys(t: Tree) {
    t.Index? ==>
      && (forall i, j :: 0 <= i < j < |t.idx| ==> t.idx[i].key < t.idx[j].key)
      && (forall i :: 0 <= i < |t.kids| ==> SortedKeys(t.kids[i]))
  }

  /** Entries that fit in the inode body: (60 - 12) / 12. */
  const ROOT_CAP: nat := 4

  ghost predicate WellFormed(t: Tree, cap: nat) {
    && Shape(t)
    && Tight(t)
    && (t.Index? ==> NoEmpty(t))
    && Fits(t, cap)
    && t.max == ROOT_CAP
    && Entries(Top(t)) <= ROOT_CAP
    && Sorted(Exts(t))
  }

  lemma {:induction false} LKeyFirst(t: Tree)
    requires Shape(t) && Tight(t) && NoEmpty(t)
    ensures Exts(t) != [] && LKey(t) == Exts(t)[0].block
  {
    if t.Index? {
      LKeyFirst(t.kids[0]);
      assert TightEdge(t, 0);
    }
  }

  lemma {:induction false} ExtsOfKid(ts: seq<Tree>, i: nat, e: Extent)
    requires i < |ts| && e in Exts(ts[i])
    ensures e in ExtsOf(ts)
  {
    KidsSplit(ts, i);
  }

  lemma KidsOrder(t: Tree, i: nat, j: nat, e: Extent, f: Extent)
    requires t.Index? && Sorted(Exts(t)) && i < j < |t.kids|
    requires e in Exts(t.kids[i]) && f in Exts(t.kids[j])
    ensures End(e) <= f.block && e.block < f.block
  {
    KidsSplit(t.kids, i);
    var rest := t.kids[i + 1..];
    assert t.kids[j] == rest[j - i - 1];
    ExtsOfKid(rest, j - i - 1, f);
    SortedPair(ExtsOf(t.kids[..i]) + Exts(t.kids[i]), ExtsOf(rest), e, f);
  }

  lemma KidSorted(t: Tree, i: nat)
    requires t.Index? && Sorted(Exts(t)) && i < |t.kids|
    ensures Sorted(Exts(t.kids[i]))
  {
    KidsSplit(t.kids, i);
    SortedParts(ExtsOf(t.kids[..i]) + Exts(t.kids[i]), ExtsOf(t.kids[i + 1..]));
    SortedParts(ExtsOf(t.kids[..i]), Exts(t.kids[i]));
  }

  lemma {:induction false} KeysSorted(t: Tree)
    requires Shape(t) && Tight(t) && NoEmpty(t) && Sorted(Exts(t))
    ensures SortedKeys(t)
  {
    if t.Index? {
      forall i, j | 0 <= i < j < |t.idx| ensures t.idx[i].key < t.idx[j].key {
        assert TightEdge(t, i) && TightEdge(t, j);
        LKeyFirst(t.kids[i]);
        LKeyFirst(t.kids[j]);
        KidsOrder(t, i, j, Exts(t.kids[i])[0], Exts(t.kids[j])[0]);
      }
      forall i | 0 <= i < |t.kids| ensures SortedKeys(t.kids[i]) {
        KidSorted(t, i);
        KeysSorted(t.kids[i]);
      }
    }
  }
}
