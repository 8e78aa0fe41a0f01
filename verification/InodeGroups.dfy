/**
 Allocation of inodes from the groups' bitmaps, freeing, and the lazy zeroing of the inode
 tables (ext4/ialloc.c), with descriptor checksums on.

 Taking the bit and bringing the descriptor up to date are separate steps, as in the source:
 other allocations, frees and the lazy zeroing may come in between.
 */
module InodeGroups {

  /** Bitmap of a group and whether it has been read, descriptor fields, contents of the inodes. */
  datatype Grp = Grp(bitmap: seq<bool>, uptodate: bool, free: nat, unused: nat, uninit: bool, zeroed: bool,
    table: seq<nat>)

  datatype Result = Ok | ENOSPC | Error

  /** The bitmap as ext4_read_inode_bitmap delivers it. */
  function Loaded(g: Grp): (b: seq<bool>)
    ensures |b| == |g.bitmap|
  {
    if !g.uptodate && g.uninit then seq(|g.bitmap|, _ => false) else g.bitmap
  }

  predicate Below(s: set<nat>, n: int) {
    forall k :: k in s ==> k < n
  }

  /** The inodes a group has handed out: set bits, those among them below the mark. */
  ghost predicate GrpOk(g: Grp, perGroup: nat, live: set<nat>, pending: set<nat>) {
    && |g.bitmap| == |g.table| == perGroup && g.unused <= perGroup && live !! pending
    && (forall k: nat :: k < perGroup ==> (Loaded(g)[k] <==> k in live || k in pending))
    && Below(live, perGroup) && Below(pending, perGroup)
    && g.free + |live| == perGroup
    && (if g.uninit then live == {} else Below(live, perGroup - g.unused))
  }

  function Ones(s: seq<bool>): nat {
    if s == [] then 0 else Ones(s[..|s| - 1]) + if s[|s| - 1] then 1 else 0
  }

  lemma {:induction false} OnesCounted(s: seq<bool>, m: set<nat>)
    requires Below(m, |s|) && forall k: nat :: k < |s| ==> (s[k] <==> k in m)
    ensures Ones(s) == |m|
    decreases |s|
  {
    if s == [] {
      assert m == {};
    } else {
      var k := |s| - 1;
      var m' := m - {k};
      assert m == if k in m then m' + {k} else m';
      OnesCounted(s[..k], m');
    }
  }

  /** Free count and set bits make up the group, except for inodes whose allocation is under way. */
  lemma BitsAddUp(g: Grp, perGroup: nat, live: set<nat>, pending: set<nat>)
    requires GrpOk(g, perGroup, live, pending)
    ensures g.free + Ones(Loaded(g)) == perGroup + |pending|
  {
    OnesCounted(Loaded(g), live + pending);
    assert |live + pending| == |live| + |pending|;
  }

  /** DIV_ROUND_UP */
  function RoundUp(n: nat, d: nat): nat
    requires d > 0
  {
    (n + d - 1) / d
  }

  lemma DivBounds(n: nat, d: nat)
    requires d > 0
    ensures d * (n / d) <= n < d * (n / d) + d
  {
  }

  /** Inodes below n lie in the first RoundUp(n, d) blocks. */
  lemma RoundUpCovers(k: nat, n: nat, d: nat)
    requires d > 0 && k < n
    ensures k / d < RoundUp(n, d)
  {
    DivBounds(k, d);
    DivBounds(n + d - 1, d);
    var x, y := k / d, (n + d - 1) / d;
    if y <= x {
      Product(y, x, d);
    }
  }

  lemma {:induction false} Product(a: nat, b: nat, d: nat)
    requires a <= b
    ensures d * a <= d * b
  {
  }

  lemma RoundUpFits(n: nat, m: nat, d: nat)
    requires d > 0 && n <= m * d
    ensures RoundUp(n, d) <= m
  {
    DivBounds(n + d - 1, d);
    var y := (n + d - 1) / d;
    assert d * (m + 1) == m * d + d;
    if m < y {
      Product(m + 1, y, d);
    }
  }

  /** The descriptor of a new group whose first m inodes are in use; uninitialised if there are none. */
  function NewGroup(perGroup: nat, m: nat): Grp
    requires m <= perGroup
  {
    Grp(seq(perGroup, k => k < m), m > 0, perGroup - m, perGroup - m, m == 0, false, seq(perGroup, k => 0))
  }

  function FirstInodes(m: nat): (s: set<nat>)
    ensures |s| == m && forall k: nat :: k in s <==> k < m
  {
    if m == 0 then {} else FirstInodes(m - 1) + {m - 1}
  }

  lemma NewGroupOk(perGroup: nat, m: nat)
    requires m <= perGroup
    ensures GrpOk(NewGroup(perGroup, m), perGroup, FirstInodes(m), {})
    ensures forall k: nat :: k < m ==> Loaded(NewGroup(perGroup, m))[k]
  {
  }

  /** The inodes of a group from this one on have never been used. */
  function Mark(g: Grp, perGroup: nat): int {
    if g.uninit then 0 else perGroup - g.unused
  }

  function MaxInt(a: int, b: int): int {
    if a < b then b else a
  }

  /** Bit k is the first clear one from `from` on. */
  ghost predicate FirstClear(b: seq<bool>, from: nat, k: nat) {
    from <= k < |b| && !b[k] && forall j: nat :: from <= j < k ==> b[j]
  }

  class InodeAllocator {
    /** Inodes to a group and to a block, blocks of an inode table, first inode for files. */
    const perGroup: nat
    const perBlock: nat
    const itbPerGroup: nat
    const firstIno: nat
    var groups: seq<Grp>
    /** Inodes in use, and inodes whose bit has been taken but not accounted for yet. */
    ghost var live: seq<set<nat>>
    ghost var pending: seq<set<nat>>

    /** A new file system: n groups, no inode in use but the reserved ones of the first group. */
    constructor (perGroup: nat, perBlock: nat, itbPerGroup: nat, firstIno: nat, n: nat)
      requires perBlock > 0 && perGroup <= itbPerGroup * perBlock && 0 < firstIno <= perGroup && n > 0
      ensures Valid() && ReservedSet() && |groups| == n && this.perGroup == perGroup && this.firstIno == firstIno
      ensures forall i :: 0 <= i < n ==> pending[i] == {} && |live[i]| == if i == 0 then firstIno - 1 else 0
    {
      var m := firstIno - 1;
      this.perGroup, this.perBlock, this.itbPerGroup, this.firstIno := perGroup, perBlock, itbPerGroup, firstIno;
      groups := seq(n, i => NewGroup(perGroup, if i == 0 then m else 0));
      live := seq(n, i => FirstInodes(if i == 0 then m else 0));
      pending := seq(n, i => {});
      new;
      forall i | 0 <= i < n
        ensures GrpOk(groups[i], perGroup, live[i], pending[i]) && |live[i]| == if i == 0 then m else 0
      {
        NewGroupOk(perGroup, if i == 0 then m else 0);
        assert live[i] == FirstInodes(if i == 0 then m else 0);
      }
      assert groups[0] == NewGroup(perGroup, m);
      NewGroupOk(perGroup, m);
    }

    ghost predicate Valid()
      reads this
    {
      && perBlock > 0 && perGroup <= itbPerGroup * perBlock && |live| == |pending| == |groups|
      && forall i :: 0 <= i < |groups| ==> GrpOk(groups[i], perGroup, live[i], pending[i])
    }

    /** Group i is the only one that has changed. */
    twostate predicate OnlyGroup(i: nat)
      reads this
    {
      && |groups| == |old(groups)| && |live| == |old(live)| && |pending| == |old(pending)|
      && forall j :: 0 <= j < |groups| && j != i && j < |live| && j < |pending| ==>
        groups[j] == old(groups)[j] && live[j] == old(live)[j] && pending[j] == old(pending)[j]
    }

    /** ext4_read_inode_bitmap: an uninitialised bitmap is built, all inodes free. */
    method ReadBitmap(i: nat)
      requires Valid() && i < |groups|
      modifies this`groups
      ensures Valid() && groups == old(groups)[i := old(groups)[i].(bitmap := Loaded(old(groups)[i]), uptodate := true)]
    {
      var g := groups[i];
      if !g.uptodate {
        if g.uninit {
          g := g.(bitmap := seq(perGroup, _ => false));
        }
        groups := groups[i := g.(uptodate := true)];
      } else {
        assert groups[i := groups[i]] == groups;
      }
    }

    /** ext4_find_next_zero_bit */
    method FindNextZero(i: nat, from: nat) returns (r: nat)
      requires i < |groups| && |groups[i].bitmap| == perGroup
      ensures r >= from && (r < perGroup ==> !groups[i].bitmap[r])
      ensures forall k :: from <= k < r && k < perGroup ==> groups[i].bitmap[k]
    {
      r := from;
      while r < perGroup && groups[i].bitmap[r]
        invariant r >= from && forall k :: from <= k < r && k < perGroup ==> groups[i].bitmap[k]
        decreases perGroup - r
      {
        r := r + 1;
      }
    }

    /** ext4_test_and_set_bit: whoever finds the bit clear owns the inode. */
    method TakeBit(i: nat, k: nat) returns (wasSet: bool)
      requires Valid() && i < |groups| && groups[i].uptodate && k < perGroup
      modifies this`groups, this`pending
      ensures Valid() && wasSet == old(groups)[i].bitmap[k]
      ensures wasSet ==> groups == old(groups) && pending == old(pending)
      ensures !wasSet ==> groups == old(groups)[i := old(groups)[i].(bitmap := old(groups)[i].bitmap[k := true])]
      ensures !wasSet ==> pending == old(pending)[i := old(pending)[i] + {k}] && k !in old(live)[i] + old(pending)[i]
    {
      wasSet := groups[i].bitmap[k];
      if !wasSet {
        groups := groups[i := groups[i].(bitmap := groups[i].bitmap[k := true])];
        pending := pending[i := pending[i] + {k}];
      }
    }

    /** The inodes reserved for the file system itself are in use. */
    predicate ReservedSet()
      reads this
    {
      |groups| > 0 && forall k: nat :: k < |Loaded(groups[0])| && k + 1 < firstIno ==> Loaded(groups[0])[k]
    }

    /**
     The search loop of __ext4_new_inode from inode goalIno of group goalGroup, without other
     allocators: all groups are visited once, the first only from goalIno on, and the first
     free inode on this way is taken. It fails exactly if there is none.
     */
    method FindInode(goalGroup: nat, goalIno: nat) returns (err: Result, group: nat, ino: nat)
      requires Valid() && goalGroup < |groups|
      modifies this`groups, this`pending
      ensures Valid() && |groups| == |old(groups)| && (err == Ok || err == ENOSPC)
      ensures err == Ok ==> Taken(group, ino, old(live), old(pending))
      ensures err == ENOSPC ==> pending == old(pending)
      ensures old(ReservedSet()) ==>
        (err == Ok <==>
         exists n: nat :: n < |old(groups)| && HasCandidate(old(groups), perGroup, goalGroup, goalIno, n))
      ensures old(ReservedSet()) && err == Ok ==>
        exists n: nat :: n < |old(groups)| && FirstOnWay(old(groups), perGroup, goalGroup, goalIno, n, group, ino)
    {
      group, ino := goalGroup, goalIno;
      var i := 0;
      while i < |groups|
        invariant i <= |groups| && Valid() && group < |groups| && pending == old(pending) && live == old(live)
        invariant SameLoaded(old(groups), groups) && ino == From(goalIno, i)
        invariant old(ReservedSet()) ==> i < |groups| ==> group == Visited(|groups|, goalGroup, i)
        invariant old(ReservedSet()) ==> NoneOf(old(groups), perGroup, goalGroup, goalIno, i)
      {
        CandidateSame(old(groups), groups, perGroup, group, ino);
        ghost var before := groups;
        var taken, next, k := VisitGroup(group, ino);
        if taken {
          assert old(ReservedSet()) ==> HasCandidate(old(groups), perGroup, goalGroup, goalIno, i);
          assert old(ReservedSet()) ==> FirstOnWay(old(groups), perGroup, goalGroup, goalIno, i, group, k);
          return Ok, group, k;
        }
        SameTrans(old(groups), before, groups);
        NoneNext(old(groups), perGroup, goalGroup, goalIno, i, group);
        group, i, ino := next, i + 1, 0;
      }
      return ENOSPC, group, ino;
    }

    /** Inode k of group i is being allocated; it was not in use before. */
    ghost predicate Taken(i: nat, k: nat, live0: seq<set<nat>>, pending0: seq<set<nat>>)
      reads this
    {
      && i < |groups| == |live0| == |pending0| && k < perGroup && groups[i].uptodate && (i == 0 ==> k + 1 >= firstIno)
      && k !in live0[i] + pending0[i] && live == live0 && pending == pending0[i := pending0[i] + {k}]
    }

    /** One round of the loop: take a bit of the group, or say which group comes next. */
    method VisitGroup(group: nat, from: nat) returns (taken: bool, next: nat, k: nat)
      requires Valid() && group < |groups|
      modifies this`groups, this`pending
      ensures Valid() && |groups| == |old(groups)| && next < |groups|
      ensures taken ==> Taken(group, k, old(live), old(pending))
      ensures taken ==> FirstClear(Loaded(old(groups)[group]), from, k)
      ensures !taken ==> SameLoaded(old(groups), groups) && pending == old(pending)
      ensures old(ReservedSet()) ==> (taken <==> CandidateIn(old(groups), perGroup, group, from))
      ensures old(ReservedSet()) && !taken ==> next == if group + 1 == |groups| then 0 else group + 1
    {
      var found;
      found, k := SearchGroup(group, from);
      next := group;
      if !found {
        next := if group + 1 == |groups| then 0 else group + 1;
        return false, next, k;
      }
      if group == 0 && k + 1 < firstIno {
        return false, next, k;
      }
      var wasSet := TakeBit(group, k);
      taken := true;
    }

    /** The first free bit of a group from `from` on, if its free count is not zero. */
    method SearchGroup(i: nat, from: nat) returns (found: bool, k: nat)
      requires Valid() && i < |groups|
      modifies this`groups
      ensures Valid() && SameLoaded(old(groups), groups)
      ensures found <==> Candidate(old(groups)[i], perGroup, from)
      ensures found ==> k < perGroup && groups[i].uptodate && !groups[i].bitmap[k]
      ensures found ==> FirstClear(Loaded(old(groups)[i]), from, k)
    {
      if groups[i].free == 0 {
        return false, 0;
      }
      ReadBitmap(i);
      k := FindNextZero(i, from);
      found := k < perGroup;
    }

    /** "Update the relevant bg descriptor fields" for the inode taken, 0-based k. */
    method AccountFor(i: nat, k: nat)
      requires Valid() && i < |groups| && groups[i].uptodate && k in pending[i]
      modifies this`groups, this`live, this`pending
      ensures Valid() && OnlyGroup(i) && groups[i].free == old(groups)[i].free - 1
      ensures live[i] == old(live)[i] + {k} && pending[i] == old(pending)[i] - {k}
      ensures groups[i].table == old(groups)[i].table && groups[i].bitmap == old(groups)[i].bitmap
      ensures !groups[i].uninit && Mark(groups[i], perGroup) == MaxInt(Mark(old(groups)[i], perGroup), k + 1)
    {
      var g, ino := groups[i], k + 1;
      Room(i, k);
      var free := perGroup - g.unused;
      if g.uninit {
        g := g.(uninit := false);
        free := 0;
      }
      if ino > free {
        g := g.(unused := perGroup - ino);
      }
      groups := groups[i := g.(free := g.free - 1)];
      live := live[i := live[i] + {k}];
      pending := pending[i := pending[i] - {k}];
    }

    lemma Room(i: nat, k: nat)
      requires Valid() && i < |groups| && k in pending[i]
      ensures groups[i].free > 0 && |live[i] + {k}| == |live[i]| + 1
    {
      AllBelow(live[i] + {k}, perGroup);
    }

    /** ext4_free_inode on bit k of group i. */
    method FreeBit(i: nat, k: nat) returns (err: Result)
      requires Valid() && i < |groups| && k < perGroup && k !in pending[i]
      modifies this`groups, this`live
      ensures Valid() && |groups| == |old(groups)|
      ensures err == (if k in old(live)[i] then Ok else Error) && live == old(live)[i := old(live)[i] - {k}]
      ensures forall j :: 0 <= j < |groups| ==> groups[j].table == old(groups)[j].table
    {
      ReadBitmap(i);
      var g := groups[i];
      if !g.bitmap[k] {
        assert live[i] - {k} == live[i];
        return Error;
      }
      groups := groups[i := g.(bitmap := g.bitmap[k := false], free := g.free + 1)];
      live := live[i := live[i] - {k}];
      return Ok;
    }

    /** The block of the inode table that holds inode k. */
    function BlockOf(k: nat): nat
      requires perBlock > 0
    {
      k / perBlock
    }

    /**
     ext4_init_inode_table: zero the part of the table behind the blocks with used inodes. No
     inode in use loses its contents; everything behind the mark, rounded up to a block, is zero.
     */
    method InitInodeTable(i: nat)
      requires Valid() && i < |groups|
      modifies this`groups
      ensures Valid() && groups == old(groups)[i := old(groups)[i].(zeroed := true, table := groups[i].table)]
      ensures forall k :: k in live[i] ==> groups[i].table[k] == old(groups)[i].table[k]
      ensures !old(groups)[i].zeroed ==>
        var used := if old(groups)[i].uninit then 0 else perGroup - old(groups)[i].unused;
        forall k: nat :: k < perGroup && BlockOf(k) >= RoundUp(used, perBlock) ==> groups[i].table[k] == 0
    {
      var g := groups[i];
      if g.zeroed {
        assert groups[i := g] == groups;
        return;
      }
      var usedBlks := 0;
      if !g.uninit {
        usedBlks := RoundUp(perGroup - g.unused, perBlock);
        RoundUpFits(perGroup - g.unused, itbPerGroup, perBlock);
        forall k | k in live[i] ensures BlockOf(k) < usedBlks {
          RoundUpCovers(k, perGroup - g.unused, perBlock);
        }
      }
      var num := itbPerGroup - usedBlks;
      if num != 0 {
        g := g.(table := ZeroedFrom(g.table, usedBlks));
      } else {
        forall k: nat | k < perGroup ensures BlockOf(k) < usedBlks {
          RoundUpCovers(k, perGroup, perBlock);
          RoundUpFits(perGroup, itbPerGroup, perBlock);
        }
      }
      groups := groups[i := g.(zeroed := true)];
    }

    /** sb_issue_zeroout from block `first` of the table to its end. */
    function ZeroedFrom(t: seq<nat>, first: nat): (r: seq<nat>)
      requires perBlock > 0
      ensures |r| == |t| && forall k: nat :: k < |t| ==> r[k] == if BlockOf(k) >= first then 0 else t[k]
    {
      seq(|t|, k requires 0 <= k < |t| => if BlockOf(k) >= first then 0 else t[k])
    }
  }

  /** Reading bitmaps does not change what they say. */
  predicate SameLoaded(a: seq<Grp>, b: seq<Grp>) {
    |a| == |b| && forall i :: 0 <= i < |a| ==> Loaded(a[i]) == Loaded(b[i]) && a[i].free == b[i].free
  }

  /** Group i has an inode that a search from bit `from` can hand out. */
  ghost predicate Candidate(g: Grp, perGroup: nat, from: nat)
    requires |g.bitmap| == perGroup
  {
    g.free > 0 && exists k: nat :: from <= k < perGroup && !Loaded(g)[k]
  }

  /** n steps of "if (++group == ngroups) group = 0". */
  function Visited(groups: nat, start: nat, n: nat): nat
    requires start < groups && n < groups
  {
    if start + n < groups then start + n else start + n - groups
  }

  /** Where the search of the n-th group visited begins. */
  function From(goalIno: nat, n: nat): nat {
    if n == 0 then goalIno else 0
  }

  /** The search of the n-th group visited would find an inode. */
  ghost predicate HasCandidate(gs: seq<Grp>, perGroup: nat, start: nat, goalIno: nat, n: nat)
    requires start < |gs| && n < |gs|
  {
    CandidateIn(gs, perGroup, Visited(|gs|, start, n), From(goalIno, n))
  }

  ghost predicate CandidateIn(gs: seq<Grp>, perGroup: nat, i: nat, from: nat) {
    i < |gs| && |gs[i].bitmap| == perGroup && Candidate(gs[i], perGroup, from)
  }

  ghost predicate NoneOf(gs: seq<Grp>, perGroup: nat, start: nat, goalIno: nat, n: nat)
    requires start < |gs| && n <= |gs|
  {
    forall m: nat :: m < n ==> !HasCandidate(gs, perGroup, start, goalIno, m)
  }

  /** Inode k of group i is the first the search comes to; that is in the n-th group visited. */
  ghost predicate FirstOnWay(gs: seq<Grp>, perGroup: nat, start: nat, goalIno: nat, n: nat, i: nat, k: nat)
    requires start < |gs| && n < |gs|
  {
    && NoneOf(gs, perGroup, start, goalIno, n) && i == Visited(|gs|, start, n)
    && FirstClear(Loaded(gs[i]), From(goalIno, n), k)
  }

  lemma NoneNext(gs: seq<Grp>, perGroup: nat, start: nat, goalIno: nat, n: nat, group: nat)
    requires start < |gs| && n < |gs|
    ensures (NoneOf(gs, perGroup, start, goalIno, n) && group == Visited(|gs|, start, n)
             && !CandidateIn(gs, perGroup, group, From(goalIno, n))) ==> NoneOf(gs, perGroup, start, goalIno, n + 1)
  {
  }

  /** A free inode before the goal in the goal's own group is not looked for: the search fails beside it. */
  lemma MissedBelowGoal()
    ensures var gs := [Grp([false, true], true, 1, 0, false, false, [0, 0])];
      Candidate(gs[0], 2, 0) && forall n: nat :: n < |gs| ==> !HasCandidate(gs, 2, 0, 1, n)
  {
    var gs := [Grp([false, true], true, 1, 0, false, false, [0, 0])];
    assert !Loaded(gs[0])[0] && Loaded(gs[0])[1];
  }

  lemma CandidateSame(a: seq<Grp>, b: seq<Grp>, perGroup: nat, i: nat, from: nat)
    requires SameLoaded(a, b)
    ensures CandidateIn(a, perGroup, i, from) <==> CandidateIn(b, perGroup, i, from)
  {
    if i < |a| {
      assert |Loaded(a[i])| == |Loaded(b[i])|;
    }
  }

  lemma SameTrans(a: seq<Grp>, b: seq<Grp>, c: seq<Grp>)
    requires SameLoaded(a, b) && SameLoaded(b, c)
    ensures SameLoaded(a, c)
  {
  }

  lemma {:induction false} AllBelow(s: set<nat>, n: nat)
    requires Below(s, n)
    ensures |s| <= n
    decreases n
  {
    if n == 0 {
      assert s == {};
    } else {
      AllBelow(s - {n - 1}, n - 1);
      assert |s| <= |s - {n - 1}| + 1;
    }
  }
}
