/**
 ext4_ext_migrate as a whole: the extents mean what the indirect blocks meant exactly if no
 contiguous run is longer than an extent can hold.
 */
module MigrateFile {
  import opened Extents
  import opened ExtentTrees
  import opened Inodes
  import opened MigrateRanges
  import opened MigrateTree
  import opened MigrateRelease
  import opened Migration
  import I = IndirectTree
  import F = IndirectFile

  /** The extents map every block as the indirect file does. */
  ghost predicate SameFile(m: LogicalMap, src: F.IndFile)
    requires src.P > 0
    reads src
  {
    forall b: nat :: (b in m <==> src.Get(b) != 0) && (b in m ==> m[b] == Mapping(src.Get(b), false))
  }

  /** From block b on the file has more contiguous blocks than one extent can hold. */
  ghost predicate RunFrom(src: F.IndFile, b: nat)
    requires src.P > 0
    reads src
  {
    src.Get(b) != 0 && forall x: nat :: b <= x <= b + EXT_INIT_MAX_LEN ==> src.Get(x) == src.Get(b) + (x - b)
  }

  ghost predicate LongRun(src: F.IndFile)
    requires src.P > 0
    reads src
  {
    exists b: nat :: RunFrom(src, b)
  }

  /** The record of what was read is the file. */
  ghost predicate Recorded(seen: Seen, src: F.IndFile)
    requires src.P > 0
    reads src
  {
    NoZero(seen) && forall b: nat :: ValueAt(seen, b) == src.Get(b)
  }

  lemma AllRecorded(src: F.IndFile, m: Mark)
    requires src.P > 0 && src.Stored() && ReadAll(m, src.tops, src.P) && NoZero(m.seen)
    ensures Recorded(m.seen, src)
  {
    forall i: nat | i < I.N_BLOCKS ensures I.Uniform(src.tops[i], F.TopDepth(i), src.P) {
      assert src.TopOk(i);
    }
    forall b: nat ensures ValueAt(m.seen, b) == src.Get(b) {
      SeenIsFile(m.seen, src.tops, src.P, b);
    }
  }

  lemma LongRunSeen(seen: Seen, src: F.IndFile, b: nat)
    requires src.P > 0 && Recorded(seen, src)
    ensures TooLong(seen, b) <==> RunFrom(src, b)
  {
    assert ValueAt(seen, b) == src.Get(b);
    if TooLong(seen, b) {
      forall x: nat | b <= x <= b + EXT_INIT_MAX_LEN ensures src.Get(x) == src.Get(b) + (x - b) {
        assert ValueAt(seen, x) == src.Get(x);
      }
    }
    if RunFrom(src, b) {
      forall x: nat | b <= x <= b + EXT_INIT_MAX_LEN ensures x in seen && seen[x] == seen[b] + (x - b) {
        assert ValueAt(seen, x) == src.Get(x) == src.Get(b) + (x - b);
      }
    }
  }

  lemma SameAsSeen(m: LogicalMap, seen: Seen, src: F.IndFile)
    requires src.P > 0 && Recorded(seen, src)
    ensures SameFile(m, src) <==> m.Keys == seen.Keys && forall x :: x in seen ==> m[x] == Mapping(seen[x], false)
  {
    if SameFile(m, src) {
      forall b ensures b in m.Keys <==> b in seen.Keys {
        assert ValueAt(seen, b) == src.Get(b);
      }
      forall x | x in seen ensures m[x] == Mapping(seen[x], false) {
        assert ValueAt(seen, x) == src.Get(x);
      }
    }
    if m.Keys == seen.Keys && forall x :: x in seen ==> m[x] == Mapping(seen[x], false) {
      forall b: nat ensures (b in m <==> src.Get(b) != 0) && (b in m ==> m[b] == Mapping(src.Get(b), false)) {
        assert ValueAt(seen, b) == src.Get(b);
        assert b in m.Keys <==> b in seen.Keys;
      }
    }
  }

  /** When all is read and finished. */
  lemma MeaningExactly(s: seq<Extent>, g: Progress, bound: nat, src: F.IndFile)
    requires src.P > 0 && Done(s, g, bound) && Recorded(g.seen, src)
    ensures SameFile(LMap(s), src) <==> !LongRun(src)
    ensures !LongRun(src) ==> Data(s) == g.data
  {
    BuiltExactly(LMap(s), g.seen, bound, g.long);
    SameAsSeen(LMap(s), g.seen, src);
    forall b: nat ensures TooLong(g.seen, b) <==> RunFrom(src, b) {
      LongRunSeen(g.seen, src, b);
    }
  }

  /** Build the extents of src in tmp: the part up to err_out. */
  method BuildExtents(src: F.IndFile, tmp: Inode, blocks: nat) returns (err: Status)
    requires src.P > 0 && src.Stored() && InReach(src)
    requires tmp.Valid() && Exts(tmp.t) == [] && Clean(Blocks(tmp.t) + multiset(tmp.free) + DataInAll(src.tops))
    modifies tmp`root, tmp`disk, tmp`free, tmp`t
    ensures tmp.Valid()
    ensures Excused(err, tmp.cap, blocks, old(Blocks(tmp.t) + multiset(tmp.free)), DataInAll(src.tops))
    ensures Blocks(tmp.t) + multiset(tmp.free) == old(Blocks(tmp.t) + multiset(tmp.free))
    ensures err == Ok ==> (SameFile(tmp.Contents(), src) <==> !LongRun(src))
    ensures err == Ok ==> Data(Exts(tmp.t)) <= DataInAll(src.tops)
    ensures err == Ok && !LongRun(src) ==> Data(Exts(tmp.t)) == DataInAll(src.tops)
  {
    var lb := new Migrator(src, tmp, blocks);
    ghost var all := DataInAll(src.tops);
    NothingRead(tmp);
    err := lb.ReadTops(all);
    if err == Ok {
      AllRecorded(src, lb.Here());
      ghost var bound;
      err, bound := lb.FinishRange(all);
      if err == Ok {
        MeaningExactly(Exts(tmp.t), lb.g, bound, src);
      }
    }
  }

  lemma NothingRead(tmp: Inode)
    requires Exts(tmp.t) == []
    ensures Done(Exts(tmp.t), Progress(map[], multiset{}, 0), 0)
  {
  }

  /**
   ext4_ext_migrate. `raced` says that a block was allocated meanwhile, which makes the swap
   fail; `blocks` is the least number of tree blocks granted for an extent. It fails for no other
   reason than the race, a tree that has no place for the next extent, or a run whose length is a
   multiple of 65536. On success tmp's tree has become the inode's: the mapping is unchanged exactly if
   the file has no run longer than 32768 blocks; in any case every indirect block has been
   freed, once, and no data block. On failure everything allocated has been given back.
   */
  method Migrate(src: F.IndFile, tmp: Inode, raced: bool, blocks: nat) returns (err: Status)
    requires src.P > 0 && src.Stored() && InReach(src)
    requires tmp.Valid() && tmp.t == Leaf(ROOT_CAP, []) && Clean(I.BlocksOf(src.tops) + multiset(tmp.free))
    modifies tmp
    ensures tmp.Valid() && (raced ==> err != Ok)
    ensures (err == EAGAIN && raced) || Excused(err, tmp.cap, blocks, multiset(old(tmp.free)), DataInAll(src.tops))
    ensures err == Ok ==> (SameFile(tmp.Contents(), src) <==> !LongRun(src))
    ensures err == Ok ==> Blocks(tmp.t) + multiset(tmp.free) == multiset(old(tmp.free)) + NodesInAll(src.tops)
    ensures err == Ok && !LongRun(src) ==> tmp.Universe() == I.BlocksOf(src.tops) + multiset(old(tmp.free))
    ensures err != Ok ==> tmp.t == Leaf(ROOT_CAP, []) && tmp.free == old(tmp.free)
  {
    ghost var free0: multiset<nat> := multiset(tmp.free);
    BlocksPartsAll(src.tops);
    CleanPart(Blocks(tmp.t) + free0 + DataInAll(src.tops), I.BlocksOf(src.tops) + free0);
    assert Blocks(tmp.t) + free0 == free0;
    err := BuildExtents(src, tmp, blocks);
    if err == Ok && raced {
      err := EAGAIN;
    }
    if err != Ok {
      GiveBack(tmp, old(tmp.free));
    } else {
      ReleaseOld(src, tmp, free0);
    }
  }

  /** Failure: the new tree's blocks become free again. */
  method GiveBack(tmp: Inode, ghost free0: set<nat>)
    requires tmp.Valid() && Blocks(tmp.t) + multiset(tmp.free) == multiset(free0)
    modifies tmp
    ensures tmp.Valid() && tmp.t == Leaf(ROOT_CAP, []) && tmp.free == free0
  {
    BlocksClean(Blocks(tmp.t), Data(Exts(tmp.t)), multiset(tmp.free), multiset(free0));
    FreeExtBlock(tmp);
    SameSet(tmp.free, free0);
  }

  lemma BlocksClean(nodes: multiset<nat>, data: multiset<nat>, free: multiset<nat>, free0: multiset<nat>)
    requires Clean(nodes + data + free) && nodes + free == free0
    ensures Clean(free0) && NoDup(free0)
  {
    CleanPart(nodes + free, nodes + data + free);
  }

  /** Success: the indirect blocks become free. */
  method ReleaseOld(src: F.IndFile, tmp: Inode, ghost free0: multiset<nat>)
    requires src.P > 0 && src.Stored() && tmp.Valid() && Blocks(tmp.t) + multiset(tmp.free) == free0
    requires Data(Exts(tmp.t)) <= DataInAll(src.tops) && Clean(I.BlocksOf(src.tops) + free0)
    modifies tmp`free
    ensures tmp.Valid() && Blocks(tmp.t) + multiset(tmp.free) == free0 + NodesInAll(src.tops)
    ensures Data(Exts(tmp.t)) == DataInAll(src.tops) ==> tmp.Universe() == I.BlocksOf(src.tops) + free0
  {
    BlocksPartsAll(src.tops);
    Released(Blocks(tmp.t), multiset(tmp.free), Data(Exts(tmp.t)), DataInAll(src.tops), NodesInAll(src.tops), free0);
    FreeIndBlock(tmp, src);
  }

  /** The indirect blocks can be released: they are used nowhere else. */
  lemma Released(nodes: multiset<nat>, free: multiset<nat>, data: multiset<nat>, all: multiset<nat>, ind: multiset<nat>,
                 free0: multiset<nat>)
    requires nodes + free == free0 && data <= all && Clean(all + ind + free0)
    ensures NoDup(ind + free) && Clean(nodes + data + (free + ind))
    ensures data == all ==> nodes + data + (free + ind) == (all + ind) + free0
  {
    CleanPart(ind + free, all + ind + free0);
    Gather(nodes, data, free, ind);
    assert (nodes + free) + (data + ind) <= all + ind + free0;
    CleanPart(nodes + data + (free + ind), all + ind + free0);
  }

  lemma Gather(a: multiset<nat>, b: multiset<nat>, c: multiset<nat>, d: multiset<nat>)
    ensures a + b + (c + d) == (a + c) + (b + d)
  {
  }

  lemma SameSet(a: set<nat>, b: set<nat>)
    requires multiset(a) == multiset(b)
    ensures a == b
  {
    forall x ensures x in a <==> x in b {
      assert x in a <==> x in multiset(a);
    }
  }
}
