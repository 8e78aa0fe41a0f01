/**
 The extent status tree of an inode (ext4/extents_status.c). The red-black tree appears as
 its in-order sequence of nodes; a descent picks an arbitrary node of the remaining
 interval, so every shape the tree can have is covered.
 */
module StatusTree {
  import opened StatusRuns

  datatype Result = Done | ENOMEM

  /** Whether a split, and the entry to be inserted, would find memory for a node. */
  datatype Memory = Memory(split: bool, insert: bool)

  /** tree->cache_es: NULL, or the identity of a node. */
  datatype Cached = NoEs | EsRef(id: nat)

  /** Every node lies beside the new entry. */
  ghost predicate Room(s: seq<Es>, e: Es) {
    forall i :: 0 <= i < |s| ==> EsEnd(s[i]) <= e.lblk || EsEnd(e) <= s[i].lblk
  }

  /** e belongs between slots k-1 and k. */
  ghost predicate Fits(s: seq<Es>, k: nat, e: Es) {
    && k <= |s|
    && (forall i :: 0 <= i < k ==> EsEnd(s[i]) <= e.lblk)
    && (forall i :: k <= i < |s| ==> EsEnd(e) <= s[i].lblk)
  }

  /** One node reaches beyond the range on both sides: removing the range takes a split. */
  ghost predicate Enclosed(s: seq<Es>, lo: nat, hi: nat) {
    exists k: nat :: k < |s| && s[k].lblk < lo && hi < EsEnd(s[k])
  }

  /** What a descent for e has left: it belongs between slots lo and hi, and no node met takes it up. */
  ghost predicate Window(s: seq<Es>, lo: nat, hi: nat, e: Es) {
    && lo <= hi <= |s|
    && (forall i :: 0 <= i < lo ==> EsEnd(s[i]) <= e.lblk)
    && (forall i :: hi <= i < |s| ==> EsEnd(e) <= s[i].lblk)
    && (lo > 0 ==> !CanBeMerged(s[lo - 1], e)) && (hi < |s| ==> !CanBeMerged(e, s[hi]))
  }

  lemma Narrow(s: seq<Es>, lo: nat, hi: nat, m: nat, next: nat, e: Es)
    requires Ordered(s) && EsOk(e) && Room(s, e) && Window(s, lo, hi, e) && lo <= m < hi && next == m + 1
    ensures e.lblk < s[m].lblk && !CanBeMerged(e, s[m]) ==> Window(s, lo, m, e)
    ensures e.lblk >= s[m].lblk && !CanBeMerged(s[m], e) ==> Window(s, next, hi, e)
  {
    InsertStep(s, m, e);
  }

  /** Where the descent for a new entry ends. */
  datatype Way = Before(m: nat) | Behind(m: nat) | Between(k: nat)

  /** No node can take the entry up: inserting it takes a node of its own. */
  ghost predicate Lonely(s: seq<Es>, e: Es) {
    forall i :: 0 <= i < |s| ==> !CanBeMerged(e, s[i]) && !CanBeMerged(s[i], e)
  }

  /** What is known about the blocks next to e continues it: an entry for them can take e up. */
  predicate Joins(c: StatusMap, e: Es) {
    || (e.lblk > 0 && e.lblk - 1 in c
        && Continues(Status(e.flags, e.pblk), c[e.lblk - 1].flags, c[e.lblk - 1].pblk + 1))
    || (EsEnd(e) in c && Continues(c[EsEnd(e)], e.flags, e.pblk + e.len))
  }

  /** The block with status s may be in one entry with the one before it, where p is the next place. */
  predicate Continues(s: Status, f: Flags, p: nat) {
    s.flags == f && ((Mapped(f) && s.pblk == p) || f.hole || (f.delayed && !f.unwritten))
  }

  /** Whether an entry finds a node to join depends on what is known only, not on the nodes. */
  lemma LonelyMeaning(s: seq<Es>, e: Es)
    requires Ordered(s) && Room(s, e) && EsOk(e)
    ensures Lonely(s, e) <==> !Joins(Meaning(s), e)
  {
    var c := Meaning(s);
    forall i | 0 <= i < |s| && (CanBeMerged(s[i], e) || CanBeMerged(e, s[i])) ensures Joins(c, e) {
      MergedJoins(s, i, e);
    }
    if Joins(c, e) {
      JoinsMerged(s, e);
    }
  }

  lemma MergedJoins(s: seq<Es>, i: nat, e: Es)
    requires Ordered(s) && EsOk(e) && i < |s| && (CanBeMerged(s[i], e) || CanBeMerged(e, s[i]))
    ensures Joins(Meaning(s), e)
  {
    assert EsOk(s[i]);
    if CanBeMerged(s[i], e) {
      MeaningAt(s, i, e.lblk - 1);
    } else {
      MeaningAt(s, i, EsEnd(e));
    }
  }

  lemma JoinsMerged(s: seq<Es>, e: Es)
    requires Ordered(s) && Room(s, e) && EsOk(e) && Joins(Meaning(s), e)
    ensures !Lonely(s, e)
  {
    var c := Meaning(s);
    var left := e.lblk > 0 && e.lblk - 1 in c
      && Continues(Status(e.flags, e.pblk), c[e.lblk - 1].flags, c[e.lblk - 1].pblk + 1);
    var b := if left then e.lblk - 1 else EsEnd(e);
    var k := OwnerOf(s, b);
    assert EsOk(s[k]);
    assert if left then CanBeMerged(s[k], e) else CanBeMerged(e, s[k]);
  }

  /** The entry that speaks for b. */
  lemma OwnerOf(s: seq<Es>, b: nat) returns (k: nat)
    requires Ordered(s) && b in Meaning(s)
    ensures k < |s| && Spans(s[k], b) && Meaning(s)[b] == StatusOf(s[k], b)
  {
    MeaningDomain(s, b);
    k :| k < |s| && Spans(s[k], b);
    MeaningAt(s, k, b);
  }

  /** Removing the range splits a node, and the tail of it takes a node of its own. */
  ghost predicate SplitAllocates(s: seq<Es>, lo: nat, hi: nat) {
    exists k: nat :: k < |s| && SplitsAt(s, k, lo, hi)
  }

  ghost predicate SplitsAt(s: seq<Es>, k: nat, lo: nat, hi: nat)
    requires k < |s|
  {
    s[k].lblk < lo < hi < EsEnd(s[k]) && Lonely(s[k := Head(s[k], lo)], Tail(s[k], hi))
  }

  /** The split the insertion begins with takes a node and finds no memory. */
  ghost predicate NoRoomToSplit(s: seq<Es>, lo: nat, hi: nat, mem: Memory) {
    !mem.split && SplitAllocates(s, lo, hi)
  }

  lemma SplitEncloses(s: seq<Es>, lo: nat, hi: nat)
    requires SplitAllocates(s, lo, hi)
    ensures Enclosed(s, lo, hi)
  {
  }

  /** At most one node encloses a range. */
  lemma OneSplit(s: seq<Es>, k: nat, lo: nat, hi: nat)
    requires Ordered(s) && k < |s| && s[k].lblk < lo < hi < EsEnd(s[k])
    ensures SplitAllocates(s, lo, hi) <==> SplitsAt(s, k, lo, hi)
  {
    forall j: nat | j < |s| && j != k ensures !(s[j].lblk < lo < hi < EsEnd(s[j])) {
      assert j < k ==> EsEnd(s[j]) <= s[k].lblk;
      assert k < j ==> EsEnd(s[k]) <= s[j].lblk;
    }
  }

  lemma NoSplit(s: seq<Es>, k: nat, lo: nat, hi: nat)
    requires Ordered(s) && FirstAt(s, k, lo) && lo < hi && (k < |s| ==> !(s[k].lblk < lo && hi < EsEnd(s[k])))
    ensures !SplitAllocates(s, lo, hi)
  {
    forall j: nat | j < |s| ensures !(s[j].lblk < lo < hi < EsEnd(s[j])) {
      assert k < j ==> EsEnd(s[k]) <= s[j].lblk;
    }
  }

  lemma NothingToSplit(s: seq<Es>, k: nat, lo: nat, hi: nat)
    requires Ordered(s) && k <= |s| && (forall i :: 0 <= i < k ==> EsEnd(s[i]) <= lo) && (k < |s| ==> hi <= s[k].lblk)
    ensures !SplitAllocates(s, lo, hi)
  {
    forall j: nat | j < |s| ensures !(s[j].lblk < lo < hi < EsEnd(s[j])) {
      assert k < j ==> EsOk(s[k]) && EsEnd(s[k]) <= s[j].lblk;
    }
  }

  /** What can be merged does not depend on the place of an unmapped entry, nor on the identity. */
  lemma LonelySame(s: seq<Es>, e: Es, f: Es)
    requires SameSay(e, f)
    ensures Lonely(s, e) <==> Lonely(s, f)
  {
  }

  /** The tail of a node split around lo..hi-1 stays alone exactly if the split takes a node of its own. */
  lemma LonelySplit(s: seq<Es>, k: nat, lo: nat, hi: nat, s1: seq<Es>, e: Es)
    requires k < |s| && s[k].lblk < lo < hi < EsEnd(s[k])
    requires s1 == s[k := Head(s[k], lo)] && SameSay(e, Tail(s[k], hi))
    ensures Lonely(s1, e) <==> SplitsAt(s, k, lo, hi)
  {
    LonelySame(s1, e, Tail(s[k], hi));
  }

  /** Only the two neighbours of the place found can take the entry up. */
  lemma NotTaken(s: seq<Es>, k: nat, e: Es)
    requires Ordered(s) && EsOk(e) && Fits(s, k, e)
    requires (k > 0 ==> !CanBeMerged(s[k - 1], e)) && (k < |s| ==> !CanBeMerged(e, s[k]))
    ensures Lonely(s, e)
  {
    forall i | 0 <= i < |s| ensures !CanBeMerged(e, s[i]) && !CanBeMerged(s[i], e) {
      assert EsOk(s[i]);
      if i < k - 1 {
        assert EsEnd(s[i]) <= s[k - 1].lblk && EsOk(s[k - 1]);
      } else if i > k {
        assert EsEnd(s[k]) <= s[i].lblk && EsOk(s[k]);
      }
    }
  }

  lemma PlaceEntry(s: seq<Es>, k: nat, e: Es)
    requires Ordered(s) && EsOk(e) && Fits(s, k, e)
    ensures Ordered(s[..k] + [e] + s[k..])
    ensures Meaning(s[..k] + [e] + s[k..]) == Meaning(s) + EsMap(e)
  {
    var l, r := s[..k], s[k..];
    OrderedJoin(l, [e]);
    assert (l + [e])[|l|] == e;
    OrderedJoin(l + [e], r);
    MeaningInsert(l, e, r);
    InTwo(s, k);
  }

  /** A right neighbour that can take e up starts where e ends; nothing lies between. */
  lemma FitsBefore(s: seq<Es>, m: nat, e: Es)
    requires Ordered(s) && EsOk(e) && Room(s, e) && m < |s| && EsEnd(e) == s[m].lblk
    ensures Fits(s, m, e)
  {
    forall i | 0 <= i < m ensures EsEnd(s[i]) <= e.lblk {
      assert EsEnd(s[i]) <= s[m].lblk && EsOk(s[i]);
    }
    forall i | m <= i < |s| ensures EsEnd(e) <= s[i].lblk {
      assert EsOk(s[m]) && (m < i ==> EsEnd(s[m]) <= s[i].lblk);
    }
  }

  lemma FitsBehind(s: seq<Es>, m: nat, e: Es)
    requires Ordered(s) && EsOk(e) && Room(s, e) && m < |s| && EsEnd(s[m]) == e.lblk
    ensures Fits(s, m + 1, e)
  {
    forall i | 0 <= i <= m ensures EsEnd(s[i]) <= e.lblk {
      assert EsOk(s[m]) && (i < m ==> EsEnd(s[i]) <= s[m].lblk);
    }
    forall i | m < i < |s| ensures EsEnd(e) <= s[i].lblk {
      assert EsEnd(s[m]) <= s[i].lblk && EsOk(s[i]);
    }
  }

  /** Slot m absorbs e, which ends where slot m starts. */
  lemma AbsorbLeft(s: seq<Es>, m: nat, e: Es, j: Es)
    requires Ordered(s) && EsOk(e) && Room(s, e) && m < |s| && CanBeMerged(e, s[m])
    requires SameSay(j, Joined(e, s[m], j.id))
    ensures Ordered(s[m := j]) && Meaning(s[m := j]) == Meaning(s) + EsMap(e)
  {
    FitsBefore(s, m, e);
    PlaceEntry(s, m, e);
    var l, r := s[..m], s[m + 1..];
    assert s[..m] + [e] + s[m..] == l + [e, s[m]] + r;
    assert s[m := j] == l + [j] + r;
    FuseEntries(l, e, s[m], r, j.id);
    Restate(l, Joined(e, s[m], j.id), j, r);
  }

  lemma AbsorbRight(s: seq<Es>, m: nat, e: Es, j: Es)
    requires Ordered(s) && EsOk(e) && Room(s, e) && m < |s| && CanBeMerged(s[m], e)
    requires SameSay(j, Joined(s[m], e, j.id))
    ensures Ordered(s[m := j]) && Meaning(s[m := j]) == Meaning(s) + EsMap(e)
  {
    FitsBehind(s, m, e);
    PlaceEntry(s, m + 1, e);
    var l, r := s[..m], s[m + 1..];
    assert s[..m + 1] + [e] + s[m + 1..] == l + [s[m], e] + r;
    assert s[m := j] == l + [j] + r;
    FuseEntries(l, s[m], e, r, j.id);
    Restate(l, Joined(s[m], e, j.id), j, r);
  }

  lemma Restate(l: seq<Es>, a: Es, b: Es, r: seq<Es>)
    requires Ordered(l + [a] + r) && SameSay(b, a)
    ensures Ordered(l + [b] + r) && Meaning(l + [b] + r) == Meaning(l + [a] + r)
  {
    SameSayMap(b, a);
    MeaningOne(a);
    MeaningOne(b);
    MeaningMiddle(l, [b], [a], r);
    var s, s' := l + [a] + r, l + [b] + r;
    assert forall i :: 0 <= i < |s| ==> SameSay(s'[i], s[i]);
  }

  lemma AroundSlot(s: seq<Es>, k: nat)
    requires k < |s|
    ensures s == s[..k] + [s[k]] + s[k + 1..]
  {
  }

  lemma AroundTwo(s: seq<Es>, k: nat)
    requires k + 1 < |s|
    ensures s == s[..k] + [s[k], s[k + 1]] + s[k + 2..]
  {
  }

  function Weight(e: Es): nat {
    if e.flags.delayed then 0 else 1
  }

  lemma CountedOne(e: Es)
    ensures Counted([e]) == Weight(e)
  {
    assert [e][1..] == [];
  }

  lemma CountedTwo(a: Es, b: Es)
    ensures Counted([a, b]) == Weight(a) + Weight(b)
  {
    assert [a, b] == [a] + [b];
    CountedAppend([a], [b]);
    CountedOne(a);
    CountedOne(b);
  }

  /** Slots m and m+1 become one. */
  function Fused(s: seq<Es>, m: nat): seq<Es>
    requires m + 1 < |s|
  {
    s[..m] + [Joined(s[m], s[m + 1], s[m].id)] + s[m + 2..]
  }

  lemma FuseSlots(s: seq<Es>, m: nat)
    requires Ordered(s) && m + 1 < |s| && CanBeMerged(s[m], s[m + 1])
    ensures Ordered(Fused(s, m)) && Meaning(Fused(s, m)) == Meaning(s)
  {
    AroundTwo(s, m);
    FuseEntries(s[..m], s[m], s[m + 1], s[m + 2..], s[m].id);
  }

  lemma FuseCount(s: seq<Es>, m: nat)
    requires m + 1 < |s| && s[m].flags == s[m + 1].flags
    ensures Counted(Fused(s, m)) + Weight(s[m + 1]) == Counted(s)
  {
    AroundTwo(s, m);
    CountedMiddle(s[..m], [s[m], s[m + 1]], s[m + 2..]);
    CountedMiddle(s[..m], [Joined(s[m], s[m + 1], s[m].id)], s[m + 2..]);
    CountedTwo(s[m], s[m + 1]);
    CountedOne(Joined(s[m], s[m + 1], s[m].id));
  }

  lemma FuseIds(s: seq<Es>, m: nat, next: nat)
    requires m + 1 < |s| && Distinct(s) && Issued(s, next)
    ensures Distinct(Fused(s, m)) && Issued(Fused(s, m), next)
  {
    var s' := Fused(s, m);
    forall i | 0 <= i < |s'| ensures s'[i].id == s[if i <= m then i else i + 1].id {
    }
  }

  /** All identities are below the next one to give out. */
  ghost predicate Issued(s: seq<Es>, next: nat) {
    forall i :: 0 <= i < |s| ==> s[i].id < next
  }

  lemma RestateCount(s: seq<Es>, m: nat, e: Es)
    requires m < |s| && e.flags == s[m].flags
    ensures Counted(s[m := e]) == Counted(s)
  {
    AroundSlot(s, m);
    AroundSlot(s[m := e], m);
    CountedMiddle(s[..m], [s[m]], s[m + 1..]);
    CountedMiddle(s[..m], [e], s[m + 1..]);
    CountedOne(s[m]);
    CountedOne(e);
  }

  lemma InsertCount(s: seq<Es>, k: nat, e: Es)
    requires k <= |s|
    ensures Counted(s[..k] + [e] + s[k..]) == Counted(s) + Weight(e)
  {
    CountedMiddle(s[..k], [e], s[k..]);
    InTwo(s, k);
    CountedAppend(s[..k], s[k..]);
    CountedOne(e);
  }

  lemma InTwo(s: seq<Es>, k: nat)
    requires k <= |s|
    ensures s == s[..k] + s[k..]
  {
  }

  function Without(s: seq<Es>, k: nat): seq<Es>
    requires k < |s|
  {
    s[..k] + s[k + 1..]
  }

  lemma EraseCount(s: seq<Es>, k: nat)
    requires k < |s|
    ensures Counted(Without(s, k)) + Weight(s[k]) == Counted(s)
  {
    AroundSlot(s, k);
    CountedMiddle(s[..k], [s[k]], s[k + 1..]);
    CountedAppend(s[..k], s[k + 1..]);
    CountedOne(s[k]);
  }

  lemma EraseKeeps(s: seq<Es>, k: nat, next: nat)
    requires Ordered(s) && k < |s| && Distinct(s) && Issued(s, next)
    ensures Ordered(Without(s, k)) && Distinct(Without(s, k)) && Issued(Without(s, k), next)
  {
    var s' := Without(s, k);
    forall i | 0 <= i < |s'| ensures s'[i] == s[if i < k then i else i + 1] {
    }
  }

  class EsTree {
    /** The nodes in order. */
    var nodes: seq<Es>
    var cache: Cached
    /** i_es_lru_nr */
    var lruNr: nat
    /** Source of fresh node identities. */
    var nextId: nat

    /** Everything but the cache. */
    ghost predicate Sound()
      reads this
    {
      && Ordered(nodes)
      && Distinct(nodes) && Issued(nodes, nextId)
      && lruNr == Counted(nodes)
    }

    ghost predicate Valid()
      reads this
    {
      Sound() && (cache.EsRef? ==> Live(nodes, cache.id))
    }

    /** What the cache knows about each block. */
    ghost function Contents(): StatusMap
      reads this
    {
      Meaning(nodes)
    }

    /** ext4_es_init_tree */
    constructor ()
      ensures Valid() && Contents() == map[]
    {
      nodes, cache, lruNr, nextId := [], NoEs, 0, 0;
    }

    /** __es_tree_search: the node spanning lblk, else the next one; |nodes| stands for NULL. */
    method TreeSearch(lblk: nat) returns (k: nat)
      requires Sound()
      ensures k <= |nodes|
      ensures forall i :: 0 <= i < k ==> EsEnd(nodes[i]) <= lblk
      ensures forall i :: k <= i < |nodes| ==> lblk < EsEnd(nodes[i])
    {
      var lo, hi := 0, |nodes|;
      while lo < hi
        invariant lo <= hi <= |nodes|
        invariant forall i :: 0 <= i < lo ==> EsEnd(nodes[i]) <= lblk
        invariant forall i :: hi <= i < |nodes| ==> lblk < EsEnd(nodes[i])
      {
        var m :| lo <= m < hi;
        SearchStep(nodes, m, lblk);
        if lblk < nodes[m].lblk {
          hi := m;
        } else if lblk > EsEnd(nodes[m]) - 1 {
          lo := m + 1;
        } else {
          return m;
        }
      }
      k := lo;
    }

    /** ext4_es_free_extent and rb_erase of slot k. */
    method Erase(k: nat)
      requires Sound() && k < |nodes|
      modifies this`nodes, this`lruNr
      ensures Sound() && nodes == Without(old(nodes), k) && lruNr + Weight(old(nodes)[k]) == old(lruNr)
    {
      EraseCount(nodes, k);
      EraseKeeps(nodes, k, nextId);
      if !nodes[k].flags.delayed {
        lruNr := lruNr - 1;
      }
      nodes := nodes[..k] + nodes[k + 1..];
    }

    /** Node m takes up the blocks of its right neighbour, which is erased and freed. */
    method FuseAt(m: nat)
      requires Sound() && m + 1 < |nodes| && CanBeMerged(nodes[m], nodes[m + 1])
      modifies this`nodes, this`lruNr
      ensures Sound() && nodes == Fused(old(nodes), m) && Contents() == old(Contents())
    {
      FuseSlots(nodes, m);
      FuseCount(nodes, m);
      FuseIds(nodes, m, nextId);
      var e, e1 := nodes[m], nodes[m + 1];
      var grown := e.(len := e.len + e1.len);
      assert grown == Joined(e, e1, e.id);
      if !e1.flags.delayed {
        lruNr := lruNr - 1;
      }
      nodes := nodes[..m] + [grown] + nodes[m + 2..];
    }

    /** ext4_es_try_to_merge_left */
    method TryToMergeLeft(m: nat) returns (m': nat)
      requires Sound() && m < |nodes|
      modifies this`nodes, this`lruNr
      ensures Sound() && m' < |nodes| && Contents() == old(Contents())
    {
      m' := m;
      if m > 0 && CanBeMerged(nodes[m - 1], nodes[m]) {
        m' := m - 1;
        FuseAt(m');
      }
    }

    /** ext4_es_try_to_merge_right */
    method TryToMergeRight(m: nat) returns (m': nat)
      requires Sound() && m < |nodes|
      modifies this`nodes, this`lruNr
      ensures Sound() && m' < |nodes| && Contents() == old(Contents())
    {
      m' := m;
      if m + 1 < |nodes| && CanBeMerged(nodes[m], nodes[m + 1]) {
        FuseAt(m);
      }
    }

    /** A node was resized in place: same identity, same flags. */
    method Resize(k: nat, e: Es)
      requires Sound() && k < |nodes| && e.id == nodes[k].id && e.flags == nodes[k].flags
      requires Ordered(nodes[k := e])
      modifies this`nodes
      ensures Sound() && nodes == old(nodes)[k := e]
    {
      RestateCount(nodes, k, e);
      nodes := nodes[k := e];
    }

    /** ext4_es_alloc_extent and rb_link_node at slot k. */
    method Link(k: nat, lblk: nat, len: nat, pblk: nat, flags: Flags)
      requires Sound()
      requires var e := Es(nextId, lblk, len, pblk, flags); EsOk(e) && Fits(nodes, k, e)
      modifies this`nodes, this`lruNr, this`nextId
      ensures Sound() && k < |nodes| && Contents() == old(Contents()) + EsMap(Es(old(nextId), lblk, len, pblk, flags))
    {
      var e := Es(nextId, lblk, len, pblk, flags);
      PlaceEntry(nodes, k, e);
      InsertCount(nodes, k, e);
      LinkIds(nodes, k, e, nextId);
      if !flags.delayed {
        lruNr := lruNr + 1;
      }
      nextId := nextId + 1;
      nodes := nodes[..k] + [e] + nodes[k..];
    }

    /**
     __es_insert_extent: let a neighbour met on the way down absorb the entry, or link a new
     node. `mem` says whether there is memory for one; without it nothing changes.
     */
    method InsertNode(lblk: nat, len: nat, pblk: nat, flags: Flags, mem: bool) returns (err: Result)
      requires Sound()
      requires var e := Es(0, lblk, len, pblk, flags); EsOk(e) && Room(nodes, e)
      modifies this
      ensures err == if !mem && Lonely(old(nodes), Es(0, lblk, len, pblk, flags)) then ENOMEM else Done
      ensures err == Done ==> Valid() && Contents() == old(Contents()) + EsMap(Es(0, lblk, len, pblk, flags))
      ensures err == ENOMEM ==> unchanged(this)
    {
      var e := Es(0, lblk, len, pblk, flags);
      var way := Descend(e);
      match way
      case Before(m) => JoinBefore(m, e); err := Done;
      case Behind(m) => JoinBehind(m, e); err := Done;
      case Between(k) => err := LinkNew(k, e, mem);
    }

    /** The descent: to a node that takes the entry up, or to the place for a new one. */
    method Descend(e: Es) returns (way: Way)
      requires Sound() && EsOk(e) && Room(nodes, e)
      ensures match way
        case Before(m) => m < |nodes| && CanBeMerged(e, nodes[m])
        case Behind(m) => m < |nodes| && CanBeMerged(nodes[m], e)
        case Between(k) => Fits(nodes, k, e) && Lonely(nodes, e)
    {
      var lo: nat, hi: nat := 0, |nodes|;
      while lo < hi
        invariant Window(nodes, lo, hi, e)
      {
        var m: nat :| lo <= m < hi;
        var node, next := nodes[m], m + 1;
        Narrow(nodes, lo, hi, m, next, e);
        if e.lblk < node.lblk {
          if CanBeMerged(e, node) {
            return Before(m);
          }
          hi := m;
        } else {
          if CanBeMerged(node, e) {
            return Behind(m);
          }
          lo := next;
        }
      }
      NotTaken(nodes, lo, e);
      way := Between(lo);
    }

    /** A node for the entry, if there is memory. */
    method LinkNew(k: nat, e: Es, mem: bool) returns (err: Result)
      requires Sound() && EsOk(e) && e.id == 0 && Fits(nodes, k, e)
      modifies this
      ensures err == if mem then Done else ENOMEM
      ensures err == Done ==> Valid() && Contents() == old(Contents()) + EsMap(e)
      ensures err == ENOMEM ==> unchanged(this)
    {
      if !mem {
        return ENOMEM;
      }
      SameSayMap(Es(nextId, e.lblk, e.len, e.pblk, e.flags), e);
      Link(k, e.lblk, e.len, e.pblk, e.flags);
      cache := EsRef(nodes[k].id);
      err := Done;
    }

    /** Node m takes up the entry that ends where it starts; then its left neighbour may take it up. */
    method JoinBefore(m: nat, e: Es)
      requires Sound() && m < |nodes| && EsOk(e) && Room(nodes, e) && CanBeMerged(e, nodes[m])
      modifies this
      ensures Valid() && Contents() == old(Contents()) + EsMap(e)
    {
      var node := nodes[m];
      AbsorbAt(m, e, Es(node.id, e.lblk, node.len + e.len, if Mapped(node.flags) then e.pblk else node.pblk,
        node.flags));
      var m' := TryToMergeLeft(m);
      cache := EsRef(nodes[m'].id);
    }

    /** Node m takes up the entry behind it, and perhaps its right neighbour. */
    method JoinBehind(m: nat, e: Es)
      requires Sound() && m < |nodes| && EsOk(e) && Room(nodes, e) && CanBeMerged(nodes[m], e)
      modifies this
      ensures Valid() && Contents() == old(Contents()) + EsMap(e)
    {
      AbsorbAt(m, e, nodes[m].(len := nodes[m].len + e.len));
      var m' := TryToMergeRight(m);
      cache := EsRef(nodes[m'].id);
    }

    /** Node m is enlarged by the entry e that abuts it. */
    method AbsorbAt(m: nat, e: Es, j: Es)
      requires Sound() && m < |nodes| && EsOk(e) && Room(nodes, e) && j.id == nodes[m].id && j.flags == nodes[m].flags
      requires (CanBeMerged(e, nodes[m]) && SameSay(j, Joined(e, nodes[m], j.id)))
            || (CanBeMerged(nodes[m], e) && SameSay(j, Joined(nodes[m], e, j.id)))
      modifies this`nodes
      ensures Sound() && m < |nodes| && Contents() == old(Contents()) + EsMap(e)
    {
      if CanBeMerged(e, nodes[m]) && SameSay(j, Joined(e, nodes[m], j.id)) {
        AbsorbLeft(nodes, m, e, j);
      } else {
        AbsorbRight(nodes, m, e, j);
      }
      Resize(m, j);
    }

    /** Split node k around the range: keep its head, insert its tail as a new entry. */
    method SplitNode(k: nat, lblk: nat, end: nat, mem: bool, ghost hi: nat, ghost takes: bool) returns (err: Result)
      requires Sound() && cache == NoEs && k < |nodes| && nodes[k].lblk < lblk <= end < EsEnd(nodes[k]) - 1
      requires hi == end + 1 && takes == SplitsAt(nodes, k, lblk, hi)
      modifies this
      ensures err == if !mem && takes then ENOMEM else Done
      ensures err == Done ==> Valid() && Contents() == Dropped(old(Contents()), lblk, hi)
      ensures err == ENOMEM ==> Sound() && nodes == old(nodes) && cache == NoEs
    {
      ghost var s := nodes;
      var orig := nodes[k];
      var e := TailEntry(orig, end);
      KeepHead(k, lblk, hi, e);
      assert Lonely(nodes, e) == takes by {
        LonelySplit(s, k, lblk, hi, nodes, e);
      }
      err := InsertTail(e, mem, takes, Dropped(Meaning(s), lblk, hi));
      if err != Done {
        Restore(k, orig, s);
      }
    }

    /** The tail of the node split becomes an entry. */
    method InsertTail(e: Es, mem: bool, ghost takes: bool, ghost c: StatusMap) returns (err: Result)
      requires Sound() && EsOk(e) && Room(nodes, e) && e.id == 0 && Contents() + EsMap(e) == c
      requires Lonely(nodes, e) == takes
      modifies this
      ensures err == if !mem && takes then ENOMEM else Done
      ensures err == Done ==> Valid() && Contents() == c
      ensures err == ENOMEM ==> unchanged(this)
    {
      assert e == Es(0, e.lblk, e.len, e.pblk, e.flags);
      err := InsertNode(e.lblk, e.len, e.pblk, e.flags, mem);
    }

    /** newes: only a mapped entry gets a physical block, otherwise the field stays arbitrary. */
    method TailEntry(orig: Es, end: nat) returns (e: Es)
      requires EsOk(orig) && orig.lblk <= end < EsEnd(orig) - 1
      ensures e.id == 0 && SameSay(e, Tail(orig, end + 1))
    {
      var len2 := EsEnd(orig) - 1 - end;
      var pblk: nat := *;
      if Mapped(orig.flags) {
        pblk := orig.pblk + orig.len - len2;
      }
      e := Es(0, end + 1, len2, pblk, orig.flags);
    }

    /** The node gets its old length back. */
    method Restore(k: nat, orig: Es, ghost s: seq<Es>)
      requires Sound() && k < |s| && Ordered(s) && orig == s[k]
      requires |nodes| == |s| && nodes == s[k := nodes[k]] && nodes[k].id == orig.id && nodes[k].flags == orig.flags
      modifies this`nodes
      ensures Sound() && nodes == s
    {
      assert nodes[k := orig] == s;
      Resize(k, orig);
    }

    /** Shorten node k to its head; its tail e can be inserted then. */
    method KeepHead(k: nat, lo: nat, ghost hi: nat, ghost e: Es)
      requires Sound() && k < |nodes| && nodes[k].lblk < lo < hi < EsEnd(nodes[k]) && SameSay(e, Tail(nodes[k], hi))
      modifies this`nodes
      ensures Sound() && nodes == old(nodes)[k := Head(old(nodes)[k], lo)]
      ensures EsOk(e) && Room(nodes, e) && Contents() + EsMap(e) == Dropped(old(Contents()), lo, hi)
    {
      SplitRoom(nodes, k, lo, hi, e);
      Resize(k, Head(nodes[k], lo));
    }

    /** Erase the nodes from slot k on that lie in the range, and trim the one that reaches out of it. */
    method EraseFrom(k: nat, lo: nat, end: nat)
      requires Sound() && k <= |nodes| && lo <= end && forall i :: k <= i < |nodes| ==> lo <= nodes[i].lblk
      modifies this`nodes, this`lruNr
      ensures Sound() && nodes == old(nodes)[..k] + CutRun(old(nodes)[k..], lo, end + 1)
    {
      ghost var pre, s, x := nodes[..k], nodes, k;
      assert nodes == pre + s[x..];
      while k < |nodes| && EsEnd(nodes[k]) - 1 <= end
        invariant Sound() && k <= x <= |s| && nodes == pre + s[x..]
        invariant CutRun(s[k..], lo, end + 1) == CutRun(s[x..], lo, end + 1)
        decreases |nodes|
      {
        assert nodes[k] == s[x] && EsOk(nodes[k]);
        EraseStep(pre, s, x, lo, end + 1);
        Erase(k);
        x := x + 1;
      }
      TrimFront(k, lo, end, pre, s[x..]);
    }

    /** Cut the front off the node in slot k if the range still reaches it. */
    method TrimFront(k: nat, lo: nat, end: nat, ghost pre: seq<Es>, ghost r: seq<Es>)
      requires Sound() && nodes == pre + r && |pre| == k
      requires r != [] ==> lo <= r[0].lblk && end + 1 < EsEnd(r[0])
      modifies this`nodes
      ensures Sound() && nodes == pre + CutRun(r, lo, end + 1)
    {
      if k == |nodes| {
        assert r == [] && pre + [] == pre;
        return;
      }
      assert nodes[k] == r[0];
      OrderedParts(pre, r);
      LastStep(r, lo, end + 1);
      if nodes[k].lblk < end + 1 {
        CutFront(k, end + 1, pre, r);
      }
    }

    method CutFront(k: nat, hi: nat, ghost pre: seq<Es>, ghost r: seq<Es>)
      requires Sound() && nodes == pre + r && |pre| == k && r != [] && r[0].lblk < hi < EsEnd(r[0])
      modifies this`nodes
      ensures Sound() && nodes == pre + ([Tail(r[0], hi)] + r[1..])
    {
      TrimBehind(pre, r, hi);
      Resize(k, Tail(nodes[k], hi));
    }

    /**
     __es_remove_extent: afterwards the cache knows nothing about lblk..end and what it knew
     about every other block; if the one split this can need finds no memory, the nodes are
     as before. `mem` says whether there is memory.
     */
    method RemoveRange(lblk: nat, end: nat, mem: bool) returns (err: Result)
      requires Valid() && lblk <= end
      modifies this
      ensures Valid()
      ensures err == Done ==> Contents() == Dropped(old(Contents()), lblk, end + 1)
      ensures err == if !mem && SplitAllocates(old(nodes), lblk, end + 1) then ENOMEM else Done
      ensures err == ENOMEM ==> nodes == old(nodes)
    {
      err := Done;
      var k := TreeSearch(lblk);
      if k == |nodes| || nodes[k].lblk > end {
        NothingThere(nodes, k, lblk, end + 1);
        return;
      }
      err := RemoveFound(k, lblk, end, mem);
    }

    /** Node k is the first that reaches into the range. */
    method RemoveFound(k: nat, lblk: nat, end: nat, mem: bool) returns (err: Result)
      requires Valid() && lblk <= end && FirstAt(nodes, k, lblk) && k < |nodes| && nodes[k].lblk <= end
      modifies this
      ensures Valid()
      ensures err == Done ==> Contents() == Dropped(old(Contents()), lblk, end + 1)
      ensures err == if !mem && SplitAllocates(old(nodes), lblk, end + 1) then ENOMEM else Done
      ensures err == ENOMEM ==> nodes == old(nodes)
    {
      cache := NoEs;
      ghost var hi := end + 1;
      ghost var takes := SplitAllocates(nodes, lblk, hi);
      if nodes[k].lblk < lblk && end < EsEnd(nodes[k]) - 1 {
        OneSplit(nodes, k, lblk, hi);
        err := SplitNode(k, lblk, end, mem, hi, takes);
      } else {
        NoSplit(nodes, k, lblk, end + 1);
        CutRunMeaning(nodes, lblk, end + 1);
        RemoveWhole(k, lblk, end);
        err := Done;
      }
    }

    /** The cases that need no new node. */
    method RemoveWhole(k: nat, lblk: nat, end: nat)
      requires Sound() && lblk <= end && FirstAt(nodes, k, lblk) && nodes[k].lblk <= end
      requires !(nodes[k].lblk < lblk && end + 1 < EsEnd(nodes[k]))
      modifies this`nodes, this`lruNr
      ensures Sound() && nodes == CutRun(old(nodes), lblk, end + 1)
    {
      if end < EsEnd(nodes[k]) - 1 {
        KeepTail(k, lblk, end);
      } else if nodes[k].lblk < lblk {
        RemoveBehind(k, lblk, end);
      } else {
        RemoveFrom(k, lblk, end);
      }
    }

    /** Only the front of the first node goes. */
    method KeepTail(k: nat, lblk: nat, end: nat)
      requires Sound() && FirstAt(nodes, k, lblk) && lblk <= nodes[k].lblk <= end < EsEnd(nodes[k]) - 1
      modifies this`nodes
      ensures Sound() && nodes == CutRun(old(nodes), lblk, end + 1)
    {
      CutTail(nodes, k, lblk, end + 1);
      Resize(k, Tail(nodes[k], end + 1));
    }

    /** The first node goes, and what lies behind it. */
    method RemoveFrom(k: nat, lblk: nat, end: nat)
      requires Sound() && lblk <= end && FirstAt(nodes, k, lblk) && lblk <= nodes[k].lblk
      modifies this`nodes, this`lruNr
      ensures Sound() && nodes == CutRun(old(nodes), lblk, end + 1)
    {
      BehindStart(nodes, k, lblk);
      CutInside(nodes, k, lblk, end + 1);
      EraseFrom(k, lblk, end);
    }

    /** The first node keeps its head, the nodes behind it go. */
    method RemoveBehind(k: nat, lblk: nat, end: nat)
      requires Sound() && lblk <= end && FirstAt(nodes, k, lblk) && nodes[k].lblk < lblk && EsEnd(nodes[k]) <= end + 1
      modifies this`nodes, this`lruNr
      ensures Sound() && nodes == CutRun(old(nodes), lblk, end + 1)
    {
      BehindStart(nodes, k, lblk);
      CutHead(nodes, k, lblk, end + 1);
      Resize(k, Head(nodes[k], lblk));
      EraseFrom(k + 1, lblk, end);
    }

    /**
     ext4_es_insert_extent: the entry overrides whatever was known about its blocks. It fails
     exactly if a split finds no memory, and then the old knowledge stays, or if the entry finds
     none and what is known next to it does not continue it, and then the knowledge about its
     blocks is lost. `mem` says whether there is memory for a split and for the entry itself.
     */
    method InsertExtent(lblk: nat, len: nat, pblk: nat, flags: Flags, mem: Memory) returns (err: Result)
      requires Valid() && lblk + len <= ES_END && Sane(flags)
      modifies this
      ensures Valid()
      ensures err == Done ==> Contents() == old(Contents()) + EsMap(Es(0, lblk, len, pblk, flags))
      ensures err == ENOMEM ==>
        if NoRoomToSplit(old(nodes), lblk, lblk + len, mem) then nodes == old(nodes)
        else Contents() == Dropped(old(Contents()), lblk, lblk + len)
      ensures err == ENOMEM <==>
        || NoRoomToSplit(old(nodes), lblk, lblk + len, mem)
        || (!mem.insert && len > 0 && !Joins(old(Contents()), Es(0, lblk, len, pblk, flags)))
    {
      ghost var e := Es(0, lblk, len, pblk, flags);
      if len == 0 {
        assert EsMap(e) == map[];
        return Done;
      }
      err := RemoveRange(lblk, lblk + len - 1, mem.split);
      if err != Done {
        return;
      }
      ReadyFor(nodes, old(Contents()), e);
      err := InsertNode(lblk, len, pblk, flags, mem.insert);
    }

    /** ext4_es_remove_extent */
    method RemoveExtent(lblk: nat, len: nat, mem: bool) returns (err: Result)
      requires Valid()
      modifies this
      ensures Valid()
      ensures err == if !mem && SplitAllocates(old(nodes), lblk, lblk + len) then ENOMEM else Done
      ensures err == Done ==> Contents() == Dropped(old(Contents()), lblk, lblk + len)
      ensures err == ENOMEM ==> nodes == old(nodes)
    {
      if len == 0 {
        DroppedNone(Contents(), lblk, lblk);
        return Done;
      }
      err := RemoveRange(lblk, lblk + len - 1, mem);
    }

    /** Follow the cached pointer. */
    method Deref() returns (k: nat)
      requires Valid() && cache.EsRef?
      ensures k < |nodes| && nodes[k].id == cache.id
    {
      k :| 0 <= k < |nodes| && nodes[k].id == cache.id;
    }

    /** ext4_es_lookup_extent */
    method Lookup(lblk: nat) returns (found: bool, e: Es)
      requires Valid()
      ensures found <==> lblk in Contents()
      ensures found ==>
        e in nodes && Spans(e, lblk) && forall b :: Spans(e, b) ==> b in Contents() && Contents()[b] == StatusOf(e, b)
    {
      if cache.EsRef? {
        var k := Deref();
        if Spans(nodes[k], lblk) {
          EntrySays(nodes, k);
          return true, nodes[k];
        }
      }
      e := Es(0, 0, 0, 0, Flags(false, false, false, false));
      var lo, hi := 0, |nodes|;
      while lo < hi
        invariant lo <= hi <= |nodes|
        invariant forall i :: 0 <= i < lo ==> EsEnd(nodes[i]) <= lblk
        invariant forall i :: hi <= i < |nodes| ==> lblk < nodes[i].lblk
      {
        var m :| lo <= m < hi;
        LookupStep(nodes, m, lblk);
        if lblk < nodes[m].lblk {
          hi := m;
        } else if lblk > EsEnd(nodes[m]) - 1 {
          lo := m + 1;
        } else {
          EntrySays(nodes, m);
          return true, nodes[m];
        }
      }
      found := false;
      NotSpanned(nodes, lo, lblk);
    }

    /** ext4_es_find_delayed_extent_range; no entry stands for es_len == 0. */
    method FindDelayed(lblk: nat, end: nat) returns (found: bool, e: Es)
      requires Valid() && lblk <= end
      modifies this`cache
      ensures Valid()
      ensures found ==> exists k: nat :: IsNextDelayed(nodes, lblk, k) && e == nodes[k]
      ensures !found ==>
        forall i :: 0 <= i < |nodes| && lblk < EsEnd(nodes[i]) && nodes[i].lblk <= end ==> !nodes[i].flags.delayed
    {
      found, e := false, Es(0, 0, 0, 0, Flags(false, false, false, false));
      var k := FindFrom(lblk);
      ghost var first := k;
      if k < |nodes| && !nodes[k].flags.delayed {
        while k + 1 < |nodes|
          invariant first <= k < |nodes| && forall i :: first <= i <= k ==> !nodes[i].flags.delayed
        {
          if nodes[k + 1].lblk > end {
            NoneUpTo(nodes, first, k + 1, lblk, end);
            return;
          }
          k := k + 1;
          if nodes[k].flags.delayed {
            break;
          }
        }
      }
      if k < |nodes| && nodes[k].flags.delayed {
        cache := EsRef(nodes[k].id);
        found, e := true, nodes[k];
        assert IsNextDelayed(nodes, lblk, k);
      }
    }

    /** The cached node if it spans lblk, else what the tree search finds. */
    method FindFrom(lblk: nat) returns (k: nat)
      requires Valid()
      ensures k <= |nodes|
      ensures forall i :: 0 <= i < k ==> EsEnd(nodes[i]) <= lblk
      ensures forall i :: k <= i < |nodes| ==> lblk < EsEnd(nodes[i])
    {
      if cache.EsRef? {
        k := Deref();
        if Spans(nodes[k], lblk) {
          SearchStep(nodes, k, lblk);
          return;
        }
      }
      k := TreeSearch(lblk);
    }

    /** ext4_find_delalloc_range: is some block of start..end delayed? */
    method FindDelallocRange(start: nat, end: nat) returns (yes: bool)
      requires Valid() && start <= end
      modifies this`cache
      ensures Valid()
      ensures yes <==> HasDelayed(Contents(), start, end)
    {
      var found, e := FindDelayed(start, end);
      if !found {
        DelayedNowhere(nodes, start, end);
        return false;
      }
      ghost var k: nat :| IsNextDelayed(nodes, start, k) && e == nodes[k];
      DelayedHere(nodes, start, end, k);
      return (e.lblk <= start && start < e.lblk + e.len) || (start <= e.lblk && e.lblk <= end);
    }

    /**
     __es_try_to_reclaim_extents: forget up to nrToScan entries, never a delayed one.
     */
    method Reclaim(nrToScan: nat) returns (shrunk: nat)
      requires Valid() && nrToScan > 0
      modifies this
      ensures Valid()
      ensures shrunk == if old(lruNr) < nrToScan then old(lruNr) else nrToScan
      ensures lruNr == old(lruNr) - shrunk
      ensures Contents().Keys <= old(Contents()).Keys
      ensures forall b :: b in Contents() ==> Contents()[b] == old(Contents())[b]
      ensures forall b :: b in old(Contents()) && old(Contents())[b].flags.delayed ==> b in Contents()
    {
      shrunk := 0;
      if lruNr == 0 {
        return;
      }
      ghost var s := nodes;
      var k, left := 0, nrToScan;
      ghost var x := 0;
      assert s[..0] == [] && s[0..] == s;
      while k < |nodes| && left > 0
        invariant Sound() && 0 <= x <= |s| && left + shrunk == nrToScan && lruNr + shrunk == old(lruNr)
        invariant k == |OnlyDelayed(s[..x])| && nodes == OnlyDelayed(s[..x]) + s[x..]
        decreases |nodes| - k
      {
        ReclaimStep(s, x);
        if !nodes[k].flags.delayed {
          Erase(k);
          shrunk, left := shrunk + 1, left - 1;
        } else {
          k := k + 1;
        }
        x := x + 1;
      }
      cache := NoEs;
      ReclaimMeaning(s, x, nodes);
      if left > 0 {
        AllDelayed(s, x);
      }
    }
  }

  lemma BehindStart(s: seq<Es>, k: nat, lo: nat)
    requires Ordered(s) && FirstAt(s, k, lo)
    ensures forall i :: k < i < |s| ==> lo <= s[i].lblk
  {
    forall i | k < i < |s| ensures lo <= s[i].lblk {
      assert EsEnd(s[k]) <= s[i].lblk;
    }
  }

  lemma ShrinkOrdered(s: seq<Es>, k: nat, e: Es)
    requires Ordered(s) && k < |s| && EsOk(e) && s[k].lblk <= e.lblk && EsEnd(e) <= EsEnd(s[k])
    ensures Ordered(s[k := e])
  {
  }

  lemma HeadOk(e: Es, lo: nat)
    requires EsOk(e) && e.lblk < lo < EsEnd(e)
    ensures EsOk(Head(e, lo)) && Head(e, lo).lblk == e.lblk && EsEnd(Head(e, lo)) == lo
  {
  }

  lemma TailOk(e: Es, hi: nat)
    requires EsOk(e) && e.lblk < hi < EsEnd(e)
    ensures EsOk(Tail(e, hi)) && Tail(e, hi).lblk == hi && EsEnd(Tail(e, hi)) == EsEnd(e)
  {
  }

  lemma UpdateAround(s: seq<Es>, k: nat, e: Es)
    requires k < |s|
    ensures s[k := e] == s[..k] + [e] + s[k + 1..]
  {
  }

  /** Only from slot k on is there something to cut. */
  lemma CutAround(s: seq<Es>, k: nat, lo: nat, hi: nat)
    requires k < |s| && forall i :: 0 <= i < k ==> EsEnd(s[i]) <= lo
    ensures CutRun(s, lo, hi) == s[..k] + Pieces(s[k], lo, hi) + CutRun(s[k + 1..], lo, hi)
  {
    AroundSlot(s, k);
    CutRunAppend(s[..k] + [s[k]], s[k + 1..], lo, hi);
    CutRunAppend(s[..k], [s[k]], lo, hi);
    CutRunApart(s[..k], lo, hi);
    CutRunOne(s[k], lo, hi);
  }

  lemma CutRunOne(e: Es, lo: nat, hi: nat)
    ensures CutRun([e], lo, hi) == Pieces(e, lo, hi)
  {
    assert [e][1..] == [];
  }

  /** A node that reaches beyond the range shields everything right of it. */
  lemma RestApart(s: seq<Es>, k: nat, lo: nat, hi: nat)
    requires Ordered(s) && k < |s| && hi <= EsEnd(s[k])
    ensures CutRun(s[k + 1..], lo, hi) == s[k + 1..]
  {
    var r := s[k + 1..];
    forall i | 0 <= i < |r| ensures hi <= r[i].lblk {
      assert r[i] == s[k + 1 + i] && EsEnd(s[k]) <= s[k + 1 + i].lblk;
    }
    CutRunApart(r, lo, hi);
  }

  /** All nodes left of the first one the range reaches end in front of it. */
  ghost predicate FirstAt(s: seq<Es>, k: nat, lo: nat) {
    && k < |s| && lo < EsEnd(s[k])
    && forall i :: 0 <= i < k ==> EsEnd(s[i]) <= lo
  }

  lemma CutTail(s: seq<Es>, k: nat, lo: nat, hi: nat)
    requires Ordered(s) && FirstAt(s, k, lo) && lo <= s[k].lblk < hi < EsEnd(s[k])
    ensures Ordered(s[k := Tail(s[k], hi)]) && CutRun(s, lo, hi) == s[k := Tail(s[k], hi)]
  {
    var t := Tail(s[k], hi);
    CutAround(s, k, lo, hi);
    RestApart(s, k, lo, hi);
    assert Pieces(s[k], lo, hi) == [t];
    UpdateAround(s, k, t);
    TailOk(s[k], hi);
    ShrinkOrdered(s, k, t);
  }

  lemma CutHead(s: seq<Es>, k: nat, lo: nat, hi: nat)
    requires Ordered(s) && FirstAt(s, k, lo) && s[k].lblk < lo && EsEnd(s[k]) <= hi
    ensures Ordered(s[k := Head(s[k], lo)])
    ensures var s1 := s[k := Head(s[k], lo)]; CutRun(s, lo, hi) == s1[..k + 1] + CutRun(s1[k + 1..], lo, hi)
  {
    var h := Head(s[k], lo);
    CutAround(s, k, lo, hi);
    assert Pieces(s[k], lo, hi) == [h];
    assert s[k := h][..k + 1] == s[..k] + [h] && s[k := h][k + 1..] == s[k + 1..];
    HeadOk(s[k], lo);
    ShrinkOrdered(s, k, h);
  }

  lemma CutInside(s: seq<Es>, k: nat, lo: nat, hi: nat)
    requires k <= |s| && forall i :: 0 <= i < k ==> EsEnd(s[i]) <= lo
    ensures CutRun(s, lo, hi) == s[..k] + CutRun(s[k..], lo, hi)
  {
    assert s == s[..k] + s[k..];
    CutRunAppend(s[..k], s[k..], lo, hi);
    CutRunApart(s[..k], lo, hi);
  }

  lemma BothPieces(e: Es, lo: nat, hi: nat)
    requires e.lblk < lo < hi < EsEnd(e)
    ensures Pieces(e, lo, hi) == [Head(e, lo), Tail(e, hi)]
  {
  }

  lemma CutBoth(s: seq<Es>, k: nat, lo: nat, hi: nat)
    requires Ordered(s) && FirstAt(s, k, lo) && s[k].lblk < lo < hi < EsEnd(s[k])
    ensures CutRun(s, lo, hi) == s[..k] + [Head(s[k], lo), Tail(s[k], hi)] + s[k + 1..]
  {
    CutAround(s, k, lo, hi);
    RestApart(s, k, lo, hi);
    BothPieces(s[k], lo, hi);
  }

  lemma LeftBefore(s: seq<Es>, k: nat, lo: nat)
    requires Ordered(s) && k < |s| && s[k].lblk < lo < EsEnd(s[k])
    ensures FirstAt(s, k, lo)
  {
    forall i | 0 <= i < k ensures EsEnd(s[i]) <= lo {
      assert EsEnd(s[i]) <= s[k].lblk;
    }
  }

  /** The tail of a node fits right behind its head, and completes the cut. */
  lemma SplitRoom(s: seq<Es>, k: nat, lo: nat, hi: nat, e: Es)
    requires Ordered(s) && k < |s| && s[k].lblk < lo < hi < EsEnd(s[k]) && SameSay(e, Tail(s[k], hi))
    ensures Ordered(s[k := Head(s[k], lo)]) && EsOk(e) && Room(s[k := Head(s[k], lo)], e)
    ensures Meaning(s[k := Head(s[k], lo)]) + EsMap(e) == Dropped(Meaning(s), lo, hi)
  {
    var h, t := Head(s[k], lo), Tail(s[k], hi);
    var s1 := s[k := h];
    HeadOk(s[k], lo);
    TailOk(s[k], hi);
    ShrinkOrdered(s, k, h);
    TailFits(s, k, h, t);
    PlaceEntry(s1, k + 1, t);
    SameSayMap(e, t);
    LeftBefore(s, k, lo);
    CutBoth(s, k, lo, hi);
    CutRunMeaning(s, lo, hi);
    HeadThenTail(s, k, h, t);
  }

  lemma HeadThenTail(s: seq<Es>, k: nat, h: Es, t: Es)
    requires k < |s|
    ensures s[k := h][..k + 1] + [t] + s[k := h][k + 1..] == s[..k] + [h, t] + s[k + 1..]
  {
  }

  lemma TailFits(s: seq<Es>, k: nat, h: Es, t: Es)
    requires Ordered(s) && k < |s| && EsOk(t) && h.lblk == s[k].lblk && EsEnd(h) <= t.lblk && EsEnd(t) <= EsEnd(s[k])
    ensures Fits(s[k := h], k + 1, t) && Room(s[k := h], t)
  {
    var s1 := s[k := h];
    forall i | 0 <= i <= k ensures EsEnd(s1[i]) <= t.lblk {
      if i < k {
        assert EsEnd(s[i]) <= s[k].lblk;
      }
    }
    forall i | k < i < |s1| ensures EsEnd(t) <= s1[i].lblk {
      assert EsEnd(s[k]) <= s[i].lblk;
    }
  }

  /** No node reaches into the range. */
  lemma NothingThere(s: seq<Es>, k: nat, lo: nat, hi: nat)
    requires Ordered(s) && k <= |s| && (forall i :: 0 <= i < k ==> EsEnd(s[i]) <= lo) && (k < |s| ==> hi <= s[k].lblk)
    requires lo < hi
    ensures Meaning(s) == Dropped(Meaning(s), lo, hi) && !SplitAllocates(s, lo, hi)
  {
    NothingToCut(s, k, lo, hi);
    CutRunMeaning(s, lo, hi);
    NothingToSplit(s, k, lo, hi);
  }

  lemma NothingToCut(s: seq<Es>, k: nat, lo: nat, hi: nat)
    requires Ordered(s) && k <= |s| && (forall i :: 0 <= i < k ==> EsEnd(s[i]) <= lo) && (k < |s| ==> hi <= s[k].lblk)
    ensures CutRun(s, lo, hi) == s
  {
    forall i | k < i < |s| ensures hi <= s[i].lblk {
      assert EsEnd(s[k]) <= s[i].lblk && EsOk(s[k]);
    }
    CutRunApart(s, lo, hi);
  }

  lemma EraseStep(pre: seq<Es>, s: seq<Es>, x: nat, lo: nat, hi: nat)
    requires x < |s| && lo <= s[x].lblk && EsEnd(s[x]) <= hi && s[x].len > 0
    ensures Without(pre + s[x..], |pre|) == pre + s[x + 1..]
    ensures CutRun(s[x..], lo, hi) == CutRun(s[x + 1..], lo, hi)
  {
    assert s[x..][1..] == s[x + 1..];
    assert CutRun(s[x..], lo, hi) == [] + CutRun(s[x + 1..], lo, hi);
  }

  lemma FrontPiece(e: Es, lo: nat, hi: nat)
    requires lo <= e.lblk && hi < EsEnd(e) && EsOk(e)
    ensures e.lblk < hi && lo < EsEnd(e) ==> Pieces(e, lo, hi) == [Tail(e, hi)]
    ensures hi <= e.lblk ==> Pieces(e, lo, hi) == [e]
  {
  }

  /** The node the erasing stopped at starts a run of its own. */
  lemma LastStep(r: seq<Es>, lo: nat, hi: nat)
    requires Ordered(r) && r != [] && lo <= r[0].lblk && hi < EsEnd(r[0])
    ensures r[0].lblk < hi ==> CutRun(r, lo, hi) == [Tail(r[0], hi)] + r[1..]
    ensures hi <= r[0].lblk ==> CutRun(r, lo, hi) == r
  {
    assert EsOk(r[0]);
    FrontPiece(r[0], lo, hi);
    RestApart(r, 0, lo, hi);
    AroundSlot(r, 0);
  }

  lemma TrimBehind(pre: seq<Es>, r: seq<Es>, hi: nat)
    requires Ordered(pre + r) && r != [] && r[0].lblk < hi < EsEnd(r[0])
    ensures (pre + r)[|pre|] == r[0] && Ordered((pre + r)[|pre| := Tail(r[0], hi)])
    ensures (pre + r)[|pre| := Tail(r[0], hi)] == pre + ([Tail(r[0], hi)] + r[1..])
  {
    var s := pre + r;
    assert s[|pre|] == r[0];
    TailOk(r[0], hi);
    ShrinkOrdered(s, |pre|, Tail(r[0], hi));
  }

  lemma LinkIds(s: seq<Es>, k: nat, e: Es, next: nat)
    requires k <= |s| && Distinct(s) && Issued(s, next) && e.id == next
    ensures Distinct(s[..k] + [e] + s[k..]) && Issued(s[..k] + [e] + s[k..], next + 1)
  {
    var s' := s[..k] + [e] + s[k..];
    forall i | 0 <= i < |s'| ensures s'[i] == if i < k then s[i] else if i == k then e else s[i - 1] {
    }
  }

  /** One step of the descent: the entry does not overlap the node met, which BUG_ON relies on. */
  lemma InsertStep(s: seq<Es>, m: nat, e: Es)
    requires Ordered(s) && EsOk(e) && Room(s, e) && m < |s|
    ensures e.lblk < s[m].lblk ==> forall i :: m <= i < |s| ==> EsEnd(e) <= s[i].lblk
    ensures e.lblk >= s[m].lblk ==> forall i :: 0 <= i <= m ==> EsEnd(s[i]) <= e.lblk
  {
    assert EsOk(s[m]);
    if e.lblk < s[m].lblk {
      forall i | m < i < |s| ensures EsEnd(e) <= s[i].lblk {
        assert EsEnd(s[m]) <= s[i].lblk;
      }
    }
  }

  lemma SearchStep(s: seq<Es>, m: nat, lblk: nat)
    requires Ordered(s) && m < |s|
    ensures lblk < s[m].lblk ==> forall i :: m <= i < |s| ==> lblk < EsEnd(s[i])
    ensures lblk >= s[m].lblk ==> forall i :: 0 <= i < m ==> EsEnd(s[i]) <= lblk
    ensures lblk < EsEnd(s[m]) ==> forall i :: m <= i < |s| ==> lblk < EsEnd(s[i])
    ensures lblk >= EsEnd(s[m]) ==> forall i :: 0 <= i <= m ==> EsEnd(s[i]) <= lblk
  {
    forall i | m < i < |s| ensures EsEnd(s[m]) <= s[i].lblk < EsEnd(s[i]) {
      assert EsOk(s[i]);
    }
    assert EsOk(s[m]);
  }

  // ----- what the operations rely on --------------------------------------------------------

  lemma RoomMade(s: seq<Es>, m: StatusMap, e: Es)
    requires Ordered(s) && Meaning(s) == Dropped(m, e.lblk, EsEnd(e)) && e.len > 0
    ensures Room(s, e)
  {
    forall i | 0 <= i < |s| ensures EsEnd(s[i]) <= e.lblk || EsEnd(e) <= s[i].lblk {
      assert EsOk(s[i]);
      var b := if s[i].lblk < e.lblk then e.lblk else s[i].lblk;
      if Spans(s[i], b) && Spans(e, b) {
        MeaningAt(s, i, b);
      }
    }
  }

  /** Once the range of e is forgotten, e can go in: what becomes of it depends on what was known before. */
  lemma ReadyFor(s: seq<Es>, m: StatusMap, e: Es)
    requires Ordered(s) && Meaning(s) == Dropped(m, e.lblk, EsEnd(e)) && EsOk(e)
    ensures Room(s, e) && (Lonely(s, e) <==> !Joins(m, e)) && Meaning(s) + EsMap(e) == m + EsMap(e)
  {
    RoomMade(s, m, e);
    LonelyMeaning(s, e);
    OverrideDropped(m, e);
  }

  lemma OverrideDropped(m: StatusMap, e: Es)
    ensures Dropped(m, e.lblk, EsEnd(e)) + EsMap(e) == m + EsMap(e)
  {
    var a, b := Dropped(m, e.lblk, EsEnd(e)) + EsMap(e), m + EsMap(e);
    forall x: nat ensures x in a <==> x in b {
      assert x in EsMap(e) <==> Spans(e, x);
    }
  }

  lemma EntrySays(s: seq<Es>, k: nat)
    requires Ordered(s) && k < |s|
    ensures forall b :: Spans(s[k], b) ==> b in Meaning(s) && Meaning(s)[b] == StatusOf(s[k], b)
  {
    forall b | Spans(s[k], b) ensures b in Meaning(s) && Meaning(s)[b] == StatusOf(s[k], b) {
      MeaningAt(s, k, b);
    }
  }

  lemma LookupStep(s: seq<Es>, m: nat, lblk: nat)
    requires Ordered(s) && m < |s|
    ensures lblk < s[m].lblk ==> forall i :: m <= i < |s| ==> lblk < s[i].lblk
    ensures lblk >= EsEnd(s[m]) ==> forall i :: 0 <= i <= m ==> EsEnd(s[i]) <= lblk
  {
    assert EsOk(s[m]);
    forall i | m < i < |s| ensures EsEnd(s[m]) <= s[i].lblk {
    }
  }

  lemma NotSpanned(s: seq<Es>, k: nat, lblk: nat)
    requires k <= |s| && (forall i :: 0 <= i < k ==> EsEnd(s[i]) <= lblk)
    requires (forall i :: k <= i < |s| ==> lblk < s[i].lblk)
    ensures lblk !in Meaning(s)
  {
    MeaningDomain(s, lblk);
  }

  /** Entry k is the first delayed one that reaches beyond lblk. */
  ghost predicate IsNextDelayed(s: seq<Es>, lblk: nat, k: nat) {
    && k < |s| && s[k].flags.delayed && lblk < EsEnd(s[k])
    && forall i :: 0 <= i < k ==> EsEnd(s[i]) <= lblk || !s[i].flags.delayed
  }

  lemma NoneUpTo(s: seq<Es>, first: nat, k: nat, lblk: nat, end: nat)
    requires Ordered(s) && first <= k < |s| && end < s[k].lblk
    requires forall i :: 0 <= i < first ==> EsEnd(s[i]) <= lblk
    requires forall i :: first <= i < k ==> !s[i].flags.delayed
    ensures forall i :: 0 <= i < |s| && lblk < EsEnd(s[i]) && s[i].lblk <= end ==> !s[i].flags.delayed
  {
    forall i | k < i < |s| ensures end < s[i].lblk {
      assert EsEnd(s[k]) <= s[i].lblk;
    }
  }

  ghost predicate HasDelayed(m: StatusMap, start: nat, end: nat) {
    exists b :: start <= b <= end && b in m && m[b].flags.delayed
  }

  lemma DelayedNowhere(s: seq<Es>, start: nat, end: nat)
    requires Ordered(s)
    requires forall i :: 0 <= i < |s| && start < EsEnd(s[i]) && s[i].lblk <= end ==> !s[i].flags.delayed
    ensures !HasDelayed(Meaning(s), start, end)
  {
    forall b | start <= b <= end && b in Meaning(s) ensures !Meaning(s)[b].flags.delayed {
      MeaningDomain(s, b);
      var i :| 0 <= i < |s| && Spans(s[i], b);
      MeaningAt(s, i, b);
    }
  }

  lemma DelayedHere(s: seq<Es>, start: nat, end: nat, k: nat)
    requires Ordered(s) && IsNextDelayed(s, start, k) && start <= end
    ensures HasDelayed(Meaning(s), start, end) <==> s[k].lblk <= end
  {
    assert EsOk(s[k]);
    if s[k].lblk <= end {
      var b := if s[k].lblk < start then start else s[k].lblk;
      MeaningAt(s, k, b);
      assert b in Meaning(s) && Meaning(s)[b].flags.delayed;
    } else {
      NoneBefore(s, start, end, k);
      DelayedNowhere(s, start, end);
    }
  }

  lemma NoneBefore(s: seq<Es>, start: nat, end: nat, k: nat)
    requires Ordered(s) && IsNextDelayed(s, start, k) && end < s[k].lblk
    ensures forall i :: 0 <= i < |s| && start < EsEnd(s[i]) && s[i].lblk <= end ==> !s[i].flags.delayed
  {
    forall i | k < i < |s| ensures end < s[i].lblk {
      assert EsEnd(s[k]) <= s[i].lblk;
    }
  }

  function OnlyDelayed(s: seq<Es>): seq<Es> {
    if s == [] then []
    else OnlyDelayed(s[..|s| - 1]) + (if s[|s| - 1].flags.delayed then [s[|s| - 1]] else [])
  }

  lemma OnlyDelayedNext(s: seq<Es>, x: nat)
    requires x < |s|
    ensures OnlyDelayed(s[..x + 1]) == OnlyDelayed(s[..x]) + (if s[x].flags.delayed then [s[x]] else [])
  {
    assert s[..x + 1][..|s[..x + 1]| - 1] == s[..x];
  }

  lemma ShiftOne(d: seq<Es>, s: seq<Es>, x: nat)
    requires x < |s|
    ensures d + s[x..] == (d + [s[x]]) + s[x + 1..]
    ensures (d + s[x..])[|d|] == s[x] && Without(d + s[x..], |d|) == d + s[x + 1..]
  {
  }

  lemma ReclaimStep(s: seq<Es>, x: nat)
    requires x <= |s| && |OnlyDelayed(s[..x])| < |OnlyDelayed(s[..x]) + s[x..]|
    ensures x < |s|
    ensures var t, k := OnlyDelayed(s[..x]) + s[x..], |OnlyDelayed(s[..x])|;
      && t[k] == s[x]
      && (s[x].flags.delayed ==> t == OnlyDelayed(s[..x + 1]) + s[x + 1..] && |OnlyDelayed(s[..x + 1])| == k + 1)
      && (!s[x].flags.delayed ==>
        Without(t, k) == OnlyDelayed(s[..x + 1]) + s[x + 1..] && |OnlyDelayed(s[..x + 1])| == k)
  {
    OnlyDelayedNext(s, x);
    ShiftOne(OnlyDelayed(s[..x]), s, x);
  }

  lemma {:induction false} OnlyDelayedIn(s: seq<Es>, e: Es)
    ensures e in OnlyDelayed(s) <==> e in s && e.flags.delayed
  {
    if s != [] {
      OnlyDelayedIn(s[..|s| - 1], e);
      assert s == s[..|s| - 1] + [s[|s| - 1]];
    }
  }

  lemma {:induction false} OnlyDelayedCount(s: seq<Es>)
    ensures Counted(OnlyDelayed(s)) == 0
  {
    if s != [] {
      OnlyDelayedCount(s[..|s| - 1]);
      CountedAppend(OnlyDelayed(s[..|s| - 1]), if s[|s| - 1].flags.delayed then [s[|s| - 1]] else []);
      CountedOne(s[|s| - 1]);
    }
  }

  lemma AllDelayed(s: seq<Es>, x: nat)
    requires x <= |s| && |OnlyDelayed(s[..x]) + s[x..]| <= |OnlyDelayed(s[..x])|
    ensures Counted(OnlyDelayed(s[..x]) + s[x..]) == 0
  {
    OnlyDelayedCount(s[..x]);
    CountedAppend(OnlyDelayed(s[..x]), s[x..]);
    assert |s[x..]| == 0;
  }

  /** A sub-run says what the run says, about fewer blocks. */
  lemma SubRun(s: seq<Es>, t: seq<Es>)
    requires Ordered(s) && Ordered(t) && forall e :: e in t ==> e in s
    ensures Meaning(t).Keys <= Meaning(s).Keys
    ensures forall b :: b in Meaning(t) ==> Meaning(t)[b] == Meaning(s)[b]
  {
    forall b | b in Meaning(t) ensures b in Meaning(s) && Meaning(t)[b] == Meaning(s)[b] {
      MeaningDomain(t, b);
      var i :| 0 <= i < |t| && Spans(t[i], b);
      assert t[i] in t;
      var j :| 0 <= j < |s| && s[j] == t[i];
      MeaningAt(t, i, b);
      MeaningAt(s, j, b);
    }
  }

  lemma DelayedKept(s: seq<Es>, t: seq<Es>)
    requires Ordered(s) && Ordered(t) && forall e :: e in s && e.flags.delayed ==> e in t
    ensures forall b :: b in Meaning(s) && Meaning(s)[b].flags.delayed ==> b in Meaning(t)
  {
    forall b | b in Meaning(s) && Meaning(s)[b].flags.delayed ensures b in Meaning(t) {
      MeaningDomain(s, b);
      var i :| 0 <= i < |s| && Spans(s[i], b);
      MeaningAt(s, i, b);
      var j :| 0 <= j < |t| && t[j] == s[i];
      MeaningAt(t, j, b);
    }
  }

  lemma ReclaimMeaning(s: seq<Es>, x: nat, t: seq<Es>)
    requires x <= |s| && Ordered(s) && t == OnlyDelayed(s[..x]) + s[x..] && Ordered(t)
    ensures Meaning(t).Keys <= Meaning(s).Keys
    ensures forall b :: b in Meaning(t) ==> Meaning(t)[b] == Meaning(s)[b]
    ensures forall b :: b in Meaning(s) && Meaning(s)[b].flags.delayed ==> b in Meaning(t)
  {
    InTwo(s, x);
    forall e | e in t ensures e in s {
      OnlyDelayedIn(s[..x], e);
    }
    forall e | e in s && e.flags.delayed ensures e in t {
      OnlyDelayedIn(s[..x], e);
    }
    SubRun(s, t);
    DelayedKept(s, t);
  }
}
