/**
 Migration from indirect blocks to extents (ext4/migrate.c), the pure part: what the cursor of
 migrate_struct has seen, what has been turned into extents, and when the two agree.
 */
module MigrateRanges {
  import opened Extents

  /** Logical to physical block, as read from the indirect blocks. */
  type Seen = map<nat, nat>

  /** The extents that `seen` below `bound` should have become. */
  function Image(seen: Seen, bound: nat): (m: LogicalMap)
    ensures forall x :: x in m <==> x in seen && x < bound
    ensures forall x :: x in m ==> m[x] == Mapping(seen[x], false)
  {
    map x: nat | x in seen && x < bound :: Mapping(seen[x], false)
  }

  ghost predicate Faithful(m: LogicalMap, seen: Seen, x: nat) {
    x in seen ==> x in m && m[x] == Mapping(seen[x], false)
  }

  /** The map built so far, with `long` runs longer than an extent: right if there were none, else wrong somewhere. */
  ghost predicate Built(m: LogicalMap, seen: Seen, bound: nat, long: nat) {
    && (forall x :: x in m ==> x < bound)
    && (long == 0 ==> m == Image(seen, bound))
    && (long > 0 ==> exists x: nat :: x < bound && !Faithful(m, seen, x))
  }

  /** first .. last is seen as one contiguous run from physical block p on; nothing comes after it. */
  ghost predicate Pending(seen: Seen, first: nat, last: nat, p: nat) {
    && first <= last
    && (forall x :: first <= x <= last ==> x in seen && seen[x] == p + (x - first))
    && (forall x :: x in seen ==> x <= last)
    && (first > 0 && first - 1 in seen ==> seen[first - 1] + 1 != p)
  }

  /** More contiguous blocks from b on than one initialised extent can hold. */
  ghost predicate TooLong(seen: Seen, b: nat) {
    b in seen && forall x: nat :: b <= x <= b + EXT_INIT_MAX_LEN ==> x in seen && seen[x] == seen[b] + (x - b)
  }

  /** Every run that is too long has been met, or is the pending one. */
  ghost predicate Met(seen: Seen, first: nat, long: nat) {
    && (long > 0 ==> exists b: nat :: TooLong(seen, b))
    && (forall b: nat :: TooLong(seen, b) ==> long > 0 || first <= b)
  }

  /** newext of finish_range: ee_len has 16 bits. */
  function RangeExtent(first: nat, last: nat, p: nat): Extent
    requires first <= last
  {
    Extent(first, (last - first + 1) % 0x1_0000, p)
  }

  predicate Oversized(first: nat, last: nat) {
    last - first + 1 > EXT_INIT_MAX_LEN
  }

  function Excess(first: nat, last: nat): nat
    requires first <= last
  {
    if Oversized(first, last) then 1 else 0
  }

  /** An extent made of a run of at most 32768 blocks means the run; any other one does not. */
  lemma FinishBuilt(m: LogicalMap, seen: Seen, first: nat, last: nat, p: nat, long: nat, long': nat)
    requires Built(m, seen, first, long) && Pending(seen, first, last, p) && long' == long + Excess(first, last)
    requires Len(RangeExtent(first, last, p)) > 0
    ensures Built(m + MapOf(RangeExtent(first, last, p)), seen, last + 1, long')
  {
    var e, n := RangeExtent(first, last, p), last - first + 1;
    var m' := m + MapOf(e);
    if long > 0 {
      var x: nat :| x < first && !Faithful(m, seen, x);
      assert !Faithful(m', seen, x);
    } else if n > EXT_INIT_MAX_LEN {
      var x := if IsUninit(e) then first else first + Len(e);
      assert !Faithful(m', seen, x);
    } else {
      MapGrows(m, seen, first, last, p);
    }
  }

  lemma MapGrows(m: LogicalMap, seen: Seen, first: nat, last: nat, p: nat)
    requires Pending(seen, first, last, p) && m == Image(seen, first) && !Oversized(first, last)
    ensures m + MapOf(RangeExtent(first, last, p)) == Image(seen, last + 1)
  {
    var e := RangeExtent(first, last, p);
    assert Len(e) == last - first + 1 && !IsUninit(e);
  }

  lemma FinishMet(seen: Seen, first: nat, last: nat, p: nat, long: nat, long': nat)
    requires Met(seen, first, long) && Pending(seen, first, last, p) && long' == long + Excess(first, last)
    ensures Met(seen, last + 1, long')
  {
    if Oversized(first, last) {
      assert TooLong(seen, first);
    }
    forall b: nat | TooLong(seen, b) ensures long' > 0 {
      LongEnd(seen, b);
    }
  }

  lemma SeenMore(seen: Seen, curr: nat, q: nat, b: nat)
    requires curr !in seen && TooLong(seen, b)
    ensures TooLong(seen[curr := q], b)
  {
  }

  /** The next block continues the pending run. */
  lemma ExtendRange(m: LogicalMap, seen: Seen, first: nat, last: nat, p: nat, long: nat, curr: nat, q: nat, seen': Seen)
    requires Built(m, seen, first, long) && Pending(seen, first, last, p) && Met(seen, first, long)
    requires curr == last + 1 && q == p + (curr - first) && seen' == seen[curr := q]
    ensures Built(m, seen', first, long) && Pending(seen', first, curr, p) && Met(seen', first, long)
  {
    if long > 0 {
      var x: nat :| x < first && !Faithful(m, seen, x);
      assert !Faithful(m, seen', x);
      var b: nat :| TooLong(seen, b);
      SeenMore(seen, curr, q, b);
    } else {
      assert Image(seen', first) == Image(seen, first);
    }
    forall b: nat | TooLong(seen', b) ensures long > 0 || first <= b {
      LongBefore(seen, seen', curr, first, b);
      if !TooLong(seen, b) {
        LongPending(seen', first, curr, p, b);
      }
    }
  }

  lemma Consecutive(seen: Seen, b: nat, x: nat)
    requires TooLong(seen, b) && b <= x < b + EXT_INIT_MAX_LEN
    ensures x in seen && x + 1 in seen && seen[x + 1] == seen[x] + 1
  {
  }

  lemma LongEnd(seen: Seen, b: nat)
    requires TooLong(seen, b)
    ensures b + EXT_INIT_MAX_LEN in seen
  {
  }

  /** A run that is too long and ends with the pending one starts no earlier. */
  lemma LongPending(seen: Seen, first: nat, last: nat, p: nat, b: nat)
    requires Pending(seen, first, last, p) && TooLong(seen, b) && b + EXT_INIT_MAX_LEN == last
    ensures first <= b
  {
    if b < first {
      Consecutive(seen, b, first - 1);
    }
  }

  lemma LongBefore(seen: Seen, seen': Seen, curr: nat, first: nat, b: nat)
    requires TooLong(seen', b) && curr in seen' && seen' == seen[curr := seen'[curr]]
    requires forall x :: x in seen ==> x < curr
    ensures b + EXT_INIT_MAX_LEN <= curr
    ensures b + EXT_INIT_MAX_LEN < curr ==> TooLong(seen, b)
    ensures TooLong(seen, b) ==> b + EXT_INIT_MAX_LEN < curr
  {
    LongEnd(seen', b);
    if b + EXT_INIT_MAX_LEN < curr {
      forall x: nat | b <= x <= b + EXT_INIT_MAX_LEN ensures x in seen && seen[x] == seen[b] + (x - b) {
        assert x in seen' && seen'[x] == seen'[b] + (x - b);
      }
    }
    if TooLong(seen, b) {
      LongEnd(seen, b);
    }
  }

  /** The next block starts a run of its own; everything before it has been finished. */
  lemma StartRange(m: LogicalMap, seen: Seen, bound: nat, curr: nat, q: nat, long: nat, seen': Seen)
    requires seen' == seen[curr := q] && Built(m, seen, bound, long) && bound <= curr && Met(seen, bound, long)
    requires forall x :: x in seen ==> x < bound
    requires bound == curr && bound > 0 && bound - 1 in seen ==> seen[bound - 1] + 1 != q
    ensures Built(m, seen', curr, long) && Pending(seen', curr, curr, q) && Met(seen', curr, long)
  {
    if long > 0 {
      var x: nat :| x < bound && !Faithful(m, seen, x);
      assert !Faithful(m, seen', x);
      var b: nat :| TooLong(seen, b);
      SeenMore(seen, curr, q, b);
    } else {
      assert Image(seen', curr) == Image(seen, bound);
    }
    forall b: nat | TooLong(seen', b) ensures long > 0 || curr <= b {
      LongBefore(seen, seen', curr, curr, b);
      if !TooLong(seen, b) {
        LongPending(seen', curr, curr, q, b);
      }
    }
  }

  /** When everything is finished the extents mean what was seen exactly if no run is too long. */
  lemma BuiltExactly(m: LogicalMap, seen: Seen, bound: nat, long: nat)
    requires Built(m, seen, bound, long) && Met(seen, bound, long) && forall x :: x in seen ==> x < bound
    ensures (m.Keys == seen.Keys && forall x :: x in seen ==> m[x] == Mapping(seen[x], false))
      <==> forall b: nat :: !TooLong(seen, b)
  {
    if long > 0 {
      var b: nat :| TooLong(seen, b);
      var x: nat :| x < bound && !Faithful(m, seen, x);
    } else {
      assert forall b: nat :: !TooLong(seen, b);
    }
  }

  // ----- the blocks behind a map ------------------------------------------------------------

  /** The logical blocks that map to physical block x. */
  ghost function Users(m: LogicalMap, x: nat): set<nat> {
    set b | b in m && m[b].pblk == x
  }

  lemma UsersOne(e: Extent, x: nat)
    ensures |Users(MapOf(e), x)| == DataOf(e)[x]
  {
    RunCount(e.pblk, Len(e), x);
    if InRun(e.pblk, Len(e), x) {
      assert Covers(e, e.block + (x - e.pblk));
      assert Users(MapOf(e), x) == {e.block + (x - e.pblk)};
    } else {
      assert Users(MapOf(e), x) == {};
    }
  }

  lemma UsersUnion(a: LogicalMap, b: LogicalMap, x: nat)
    requires a.Keys !! b.Keys
    ensures |Users(a + b, x)| == |Users(a, x)| + |Users(b, x)|
  {
    assert Users(a + b, x) == Users(a, x) + Users(b, x);
    assert Users(a, x) !! Users(b, x);
  }

  /** The data blocks of a sorted run are determined by its meaning. */
  lemma {:induction false} DataUsers(s: seq<Extent>, x: nat)
    requires Sorted(s)
    ensures Data(s)[x] == |Users(LMap(s), x)|
  {
    if s == [] {
      assert Users(LMap(s), x) == {};
    } else {
      SortedSlice(s, 1, |s|);
      DataUsers(s[1..], x);
      UsersOne(s[0], x);
      HeadApart(s);
      UsersUnion(MapOf(s[0]), LMap(s[1..]), x);
    }
  }

  lemma HeadApart(s: seq<Extent>)
    requires Sorted(s) && s != []
    ensures MapOf(s[0]).Keys !! LMap(s[1..]).Keys
  {
    forall b | b in LMap(s[1..]) ensures b !in MapOf(s[0]) {
      LMapDomain(s[1..], b);
    }
  }

  /** Adding an extent to the meaning adds exactly its blocks to the data. */
  lemma DataAdded(s: seq<Extent>, s': seq<Extent>, e: Extent)
    requires Sorted(s) && Sorted(s') && LMap(s') == LMap(s) + MapOf(e) && MapOf(e).Keys !! LMap(s).Keys
    ensures Data(s') == Data(s) + DataOf(e)
  {
    forall x ensures Data(s')[x] == (Data(s) + DataOf(e))[x] {
      DataUsers(s, x);
      DataUsers(s', x);
      UsersOne(e, x);
      UsersUnion(LMap(s), MapOf(e), x);
    }
  }

  /** Of the run as many blocks are recorded as the extent is long: all of them if it fits. */
  lemma RangeData(first: nat, last: nat, p: nat)
    requires first <= last
    ensures DataOf(RangeExtent(first, last, p)) <= Run(p, last - first + 1)
    ensures !Oversized(first, last) ==> DataOf(RangeExtent(first, last, p)) == Run(p, last - first + 1)
  {
    var e, n := RangeExtent(first, last, p), last - first + 1;
    RunPart(p, Len(e), n);
  }

  lemma RunPart(p: nat, k: nat, n: nat)
    requires k <= n
    ensures Run(p, k) <= Run(p, n)
  {
    RunSplit(p, k, n - k);
  }
}
