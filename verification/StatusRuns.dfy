/**
 Runs of extent status entries (ext4/extents_status.h) and the map they stand for: what
 the cache says about each logical block.
 */
module StatusRuns {

  /** One past the largest logical block; `lblk + len` must not wrap in 32 bits. */
  const ES_END: nat := 0xFFFF_FFFF

  /** The EXTENT_STATUS_* bits. */
  datatype Flags = Flags(written: bool, unwritten: bool, delayed: bool, hole: bool)

  /** struct extent_status; `id` is the identity of the tree node. */
  datatype Es = Es(id: nat, lblk: nat, len: nat, pblk: nat, flags: Flags)

  /** What an entry says about one block; only mapped blocks have a place. */
  datatype Status = Status(flags: Flags, pblk: nat)

  type StatusMap = map<nat, Status>

  predicate Mapped(f: Flags) {
    f.written || f.unwritten
  }

  function EsEnd(e: Es): nat {
    e.lblk + e.len
  }

  predicate Spans(e: Es, b: nat) {
    e.lblk <= b < EsEnd(e)
  }

  function StatusOf(e: Es, b: nat): Status
    requires Spans(e, b)
  {
    Status(e.flags, if Mapped(e.flags) then e.pblk + (b - e.lblk) else 0)
  }

  function EsMap(e: Es): (m: StatusMap)
    ensures forall b :: b in m <==> Spans(e, b)
    ensures forall b :: b in m ==> Spans(e, b) && m[b] == StatusOf(e, b)
  {
    map b: nat | e.lblk <= b < EsEnd(e) && Spans(e, b) :: StatusOf(e, b)
  }

  function Meaning(s: seq<Es>): StatusMap {
    if s == [] then map[] else EsMap(s[0]) + Meaning(s[1..])
  }

  /**
   The flag sets whose entries may be merged by the rules of the code: a hole has no place
   on disk, and delayed is not combined with written.
   */
  predicate Sane(f: Flags) {
    && (f.hole ==> !Mapped(f))
    && (f.delayed && f.written ==> f.unwritten)
  }

  predicate EsOk(e: Es) {
    e.len > 0 && EsEnd(e) <= ES_END && Sane(e.flags)
  }

  ghost predicate Ordered(s: seq<Es>) {
    && (forall i :: 0 <= i < |s| ==> EsOk(s[i]))
    && (forall i, j :: 0 <= i < j < |s| ==> EsEnd(s[i]) <= s[j].lblk)
  }

  // ----- ext4_es_can_be_merged ---------------------------------------------------------

  predicate CanBeMerged(e1: Es, e2: Es) {
    && e1.flags == e2.flags
    && e1.len + e2.len <= 0xFFFF_FFFF
    && e1.lblk + e1.len == e2.lblk
    && (|| (Mapped(e1.flags) && e1.pblk + e1.len == e2.pblk)
        || e1.flags.hole
        || (e1.flags.delayed && !e1.flags.unwritten))
  }

  function Joined(e1: Es, e2: Es, id: nat): Es {
    Es(id, e1.lblk, e1.len + e2.len, e1.pblk, e1.flags)
  }

  /** Merging keeps what is said about every block ... */
  lemma JoinKeeps(e1: Es, e2: Es, id: nat)
    requires CanBeMerged(e1, e2) && Sane(e1.flags)
    ensures EsMap(Joined(e1, e2, id)) == EsMap(e1) + EsMap(e2)
  {
    var m, m' := EsMap(Joined(e1, e2, id)), EsMap(e1) + EsMap(e2);
    forall b ensures b in m <==> b in m' {
      assert Spans(Joined(e1, e2, id), b) <==> Spans(e1, b) || Spans(e2, b);
    }
    forall b | b in m ensures m[b] == m'[b] {
      if Spans(e2, b) {
        assert m'[b] == StatusOf(e2, b);
      }
    }
  }

  /** ... exactly for the sane flag sets: for any other, two entries far apart on disk fuse. */
  lemma JoinSound(f: Flags)
    ensures Sane(f) <==>
      forall e1: Es, e2: Es :: e1.flags == f && e1.len > 0 && e2.len > 0 && CanBeMerged(e1, e2) ==>
        EsMap(Joined(e1, e2, e1.id)) == EsMap(e1) + EsMap(e2)
  {
    if Sane(f) {
      forall e1: Es, e2: Es | e1.flags == f && e1.len > 0 && e2.len > 0 && CanBeMerged(e1, e2)
        ensures EsMap(Joined(e1, e2, e1.id)) == EsMap(e1) + EsMap(e2)
      {
        JoinKeeps(e1, e2, e1.id);
      }
    } else {
      var e1, e2 := Es(0, 0, 1, 100, f), Es(1, 1, 1, 200, f);
      assert CanBeMerged(e1, e2);
      assert Spans(e2, 1) && Spans(Joined(e1, e2, 0), 1);
      assert EsMap(Joined(e1, e2, e1.id))[1].pblk == 101;
      assert (EsMap(e1) + EsMap(e2))[1].pblk == 200;
    }
  }

  // ----- runs -----------------------------------------------------------------------------

  lemma MapChain(a: StatusMap, b: StatusMap, c: StatusMap)
    ensures (a + b) + c == a + (b + c)
  {
  }

  lemma {:induction false} MeaningAppend(a: seq<Es>, b: seq<Es>)
    ensures Meaning(a + b) == Meaning(a) + Meaning(b)
  {
    if a == [] {
      assert a + b == b;
    } else {
      assert (a + b)[1..] == a[1..] + b;
      MeaningAppend(a[1..], b);
      MapChain(EsMap(a[0]), Meaning(a[1..]), Meaning(b));
    }
  }

  lemma MeaningOne(e: Es)
    ensures Meaning([e]) == EsMap(e)
  {
    assert [e][1..] == [];
  }

  lemma {:induction false} MeaningDomain(s: seq<Es>, b: nat)
    ensures b in Meaning(s) <==> exists i :: 0 <= i < |s| && Spans(s[i], b)
  {
    if s != [] {
      MeaningDomain(s[1..], b);
      if exists i :: 0 <= i < |s[1..]| && Spans(s[1..][i], b) {
        var i :| 0 <= i < |s[1..]| && Spans(s[1..][i], b);
        assert Spans(s[i + 1], b);
      }
      if exists i :: 0 <= i < |s| && Spans(s[i], b) {
        var i :| 0 <= i < |s| && Spans(s[i], b);
        if i > 0 {
          assert Spans(s[1..][i - 1], b);
        }
      }
    }
  }

  /** In an ordered run the one entry spanning a block decides its status. */
  lemma {:induction false} MeaningAt(s: seq<Es>, i: nat, b: nat)
    requires Ordered(s) && i < |s| && Spans(s[i], b)
    ensures b in Meaning(s) && Meaning(s)[b] == StatusOf(s[i], b)
  {
    if i == 0 {
      MeaningDomain(s[1..], b);
      forall k | 0 <= k < |s[1..]| ensures !Spans(s[1..][k], b) {
        assert s[1..][k] == s[k + 1];
      }
    } else {
      OrderedSlice(s, 1, |s|);
      MeaningAt(s[1..], i - 1, b);
    }
  }

  lemma OrderedSlice(s: seq<Es>, i: nat, j: nat)
    requires Ordered(s) && i <= j <= |s|
    ensures Ordered(s[i..j])
  {
  }

  ghost predicate Touch(a: seq<Es>, b: seq<Es>) {
    a != [] && b != [] ==> EsEnd(a[|a| - 1]) <= b[0].lblk
  }

  lemma OrderedJoin(a: seq<Es>, b: seq<Es>)
    requires Ordered(a) && Ordered(b) && Touch(a, b)
    ensures Ordered(a + b)
  {
    var s := a + b;
    forall i, j | 0 <= i < j < |s| ensures EsEnd(s[i]) <= s[j].lblk {
      if i < |a| <= j {
        assert i < |a| - 1 ==> EsEnd(a[i]) <= a[|a| - 1].lblk;
        assert 0 < j - |a| ==> EsEnd(b[0]) <= b[j - |a|].lblk;
      }
    }
  }

  lemma OrderedParts(a: seq<Es>, b: seq<Es>)
    requires Ordered(a + b)
    ensures Ordered(a) && Ordered(b) && Touch(a, b)
  {
    var s := a + b;
    assert forall i :: 0 <= i < |a| ==> a[i] == s[i];
    assert forall j :: 0 <= j < |b| ==> b[j] == s[|a| + j];
  }

  ghost function Dropped(m: StatusMap, lo: nat, hi: nat): StatusMap {
    map b | b in m && !(lo <= b < hi) :: m[b]
  }

  lemma DroppedJoin(a: StatusMap, b: StatusMap, lo: nat, hi: nat)
    ensures Dropped(a + b, lo, hi) == Dropped(a, lo, hi) + Dropped(b, lo, hi)
  {
  }

  lemma DroppedNone(m: StatusMap, lo: nat, hi: nat)
    requires forall b :: lo <= b < hi ==> b !in m
    ensures Dropped(m, lo, hi) == m
  {
  }

  lemma MapFlip(a: StatusMap, b: StatusMap)
    requires a.Keys !! b.Keys
    ensures a + b == b + a
  {
  }

  /** An entry put between its neighbours overrides the map by exactly that entry. */
  lemma MeaningInsert(l: seq<Es>, e: Es, r: seq<Es>)
    requires Ordered(l + [e] + r)
    ensures Meaning(l + [e] + r) == Meaning(l + r) + EsMap(e)
  {
    MeaningAppend(l + [e], r);
    MeaningAppend(l, [e]);
    MeaningAppend(l, r);
    MeaningOne(e);
    RightApart(l, e, r);
    MapChain(Meaning(l), EsMap(e), Meaning(r));
    MapFlip(EsMap(e), Meaning(r));
    MapChain(Meaning(l), Meaning(r), EsMap(e));
  }

  lemma RightApart(l: seq<Es>, e: Es, r: seq<Es>)
    requires Ordered(l + [e] + r)
    ensures EsMap(e).Keys !! Meaning(r).Keys
  {
    var s := l + [e] + r;
    assert s[|l|] == e;
    forall b | b in EsMap(e) ensures b !in Meaning(r) {
      MeaningDomain(r, b);
      forall k | 0 <= k < |r| ensures !Spans(r[k], b) {
        assert s[|l| + 1 + k] == r[k];
      }
    }
  }

  /** Exchanging the middle of a run. */
  lemma MeaningMiddle(l: seq<Es>, m: seq<Es>, m': seq<Es>, r: seq<Es>)
    requires Meaning(m) == Meaning(m')
    ensures Meaning(l + m + r) == Meaning(l + m' + r)
  {
    MeaningAppend(l + m, r);
    MeaningAppend(l, m);
    MeaningAppend(l + m', r);
    MeaningAppend(l, m');
  }

  lemma MeaningTwo(e1: Es, e2: Es)
    ensures Meaning([e1, e2]) == EsMap(e1) + EsMap(e2)
  {
    assert [e1, e2] == [e1] + [e2];
    MeaningAppend([e1], [e2]);
    MeaningOne(e1);
    MeaningOne(e2);
  }

  /** Fusing two mergeable neighbours of an ordered run. */
  lemma FuseEntries(l: seq<Es>, e1: Es, e2: Es, r: seq<Es>, id: nat)
    requires Ordered(l + [e1, e2] + r) && CanBeMerged(e1, e2)
    ensures Ordered(l + [Joined(e1, e2, id)] + r)
    ensures Meaning(l + [Joined(e1, e2, id)] + r) == Meaning(l + [e1, e2] + r)
  {
    var s, j := l + [e1, e2] + r, Joined(e1, e2, id);
    assert s[|l|] == e1 && s[|l| + 1] == e2;
    JoinKeeps(e1, e2, id);
    MeaningTwo(e1, e2);
    MeaningOne(j);
    MeaningMiddle(l, [e1, e2], [j], r);
    FuseOrdered(l, e1, e2, r, j);
  }

  lemma FuseOrdered(l: seq<Es>, e1: Es, e2: Es, r: seq<Es>, j: Es)
    requires Ordered(l + [e1, e2] + r) && EsOk(j) && j.lblk == e1.lblk && EsEnd(j) == EsEnd(e2)
    ensures Ordered(l + [j] + r)
  {
    OrderedParts(l + [e1, e2], r);
    OrderedParts(l, [e1, e2]);
    OrderedJoin(l, [j]);
    assert (l + [e1, e2])[|l| + 1] == e2 && (l + [j])[|l|] == j;
    OrderedJoin(l + [j], r);
  }

  // ----- identities and the reclaim counter -----------------------------------------------

  /** Nodes are different objects. */
  ghost predicate Distinct(s: seq<Es>) {
    forall i, j :: 0 <= i < j < |s| ==> s[i].id != s[j].id
  }

  ghost predicate Live(s: seq<Es>, id: nat) {
    exists i :: 0 <= i < |s| && s[i].id == id
  }

  /** Entries the shrinker may take: all but delayed ones. */
  function Counted(s: seq<Es>): nat {
    if s == [] then 0 else (if s[0].flags.delayed then 0 else 1) + Counted(s[1..])
  }

  lemma {:induction false} CountedAppend(a: seq<Es>, b: seq<Es>)
    ensures Counted(a + b) == Counted(a) + Counted(b)
  {
    if a == [] {
      assert a + b == b;
    } else {
      assert (a + b)[1..] == a[1..] + b;
      CountedAppend(a[1..], b);
    }
  }

  lemma CountedMiddle(l: seq<Es>, m: seq<Es>, r: seq<Es>)
    ensures Counted(l + m + r) == Counted(l) + Counted(m) + Counted(r)
  {
    CountedAppend(l + m, r);
    CountedAppend(l, m);
  }

  // ----- removing a range ---------------------------------------------------------------

  /** Two entries that say the same, whatever their identity. */
  predicate SameSay(a: Es, b: Es) {
    a.lblk == b.lblk && a.len == b.len && a.flags == b.flags && (Mapped(a.flags) ==> a.pblk == b.pblk)
  }

  lemma SameSayMap(a: Es, b: Es)
    requires SameSay(a, b)
    ensures EsMap(a) == EsMap(b)
  {
    forall x ensures x in EsMap(a) <==> x in EsMap(b) {
      assert Spans(a, x) <==> Spans(b, x);
    }
  }

  function Head(e: Es, lo: nat): Es
    requires e.lblk <= lo
  {
    e.(len := lo - e.lblk)
  }

  function Tail(e: Es, hi: nat): Es
    requires e.lblk <= hi <= EsEnd(e)
  {
    e.(lblk := hi, len := EsEnd(e) - hi, pblk := if Mapped(e.flags) then e.pblk + e.len - (EsEnd(e) - hi) else e.pblk)
  }

  /** What remains of one entry without the blocks lo..hi-1. */
  function Pieces(e: Es, lo: nat, hi: nat): seq<Es>
  {
    if EsEnd(e) <= lo || hi <= e.lblk then [e]
    else (if e.lblk < lo then [Head(e, lo)] else []) + (if hi < EsEnd(e) then [Tail(e, hi)] else [])
  }

  function CutRun(s: seq<Es>, lo: nat, hi: nat): seq<Es> {
    if s == [] then [] else Pieces(s[0], lo, hi) + CutRun(s[1..], lo, hi)
  }

  lemma {:induction false} CutRunAppend(a: seq<Es>, b: seq<Es>, lo: nat, hi: nat)
    ensures CutRun(a + b, lo, hi) == CutRun(a, lo, hi) + CutRun(b, lo, hi)
  {
    if a == [] {
      assert a + b == b;
    } else {
      assert (a + b)[1..] == a[1..] + b;
      CutRunAppend(a[1..], b, lo, hi);
    }
  }

  lemma {:induction false} CutRunApart(s: seq<Es>, lo: nat, hi: nat)
    requires forall i :: 0 <= i < |s| ==> EsEnd(s[i]) <= lo || hi <= s[i].lblk
    ensures CutRun(s, lo, hi) == s
  {
    if s != [] {
      assert EsEnd(s[0]) <= lo || hi <= s[0].lblk;
      CutRunApart(s[1..], lo, hi);
      assert s == [s[0]] + s[1..];
    }
  }

  lemma PiecesMeaning(e: Es, lo: nat, hi: nat)
    requires lo < hi
    ensures Meaning(Pieces(e, lo, hi)) == Dropped(EsMap(e), lo, hi)
  {
    var m := Dropped(EsMap(e), lo, hi);
    if EsEnd(e) <= lo || hi <= e.lblk {
      MeaningOne(e);
    } else if e.lblk < lo && hi < EsEnd(e) {
      MeaningTwo(Head(e, lo), Tail(e, hi));
      HeadSays(e, lo);
      TailSays(e, hi);
      assert Pieces(e, lo, hi) == [Head(e, lo), Tail(e, hi)];
    } else if e.lblk < lo {
      HeadSays(e, lo);
      MeaningOne(Head(e, lo));
    } else if hi < EsEnd(e) {
      TailSays(e, hi);
      MeaningOne(Tail(e, hi));
    }
  }

  lemma HeadSays(e: Es, lo: nat)
    requires e.lblk <= lo < EsEnd(e)
    ensures forall b :: b in EsMap(Head(e, lo)) <==> b in EsMap(e) && b < lo
    ensures forall b :: b in EsMap(Head(e, lo)) ==> EsMap(Head(e, lo))[b] == EsMap(e)[b]
  {
    forall b: nat ensures b in EsMap(Head(e, lo)) <==> b in EsMap(e) && b < lo {
      assert b in EsMap(Head(e, lo)) <==> Spans(Head(e, lo), b);
    }
  }

  lemma TailSays(e: Es, hi: nat)
    requires e.lblk <= hi < EsEnd(e)
    ensures forall b :: b in EsMap(Tail(e, hi)) <==> b in EsMap(e) && hi <= b
    ensures forall b :: b in EsMap(Tail(e, hi)) ==> EsMap(Tail(e, hi))[b] == EsMap(e)[b]
  {
    forall b: nat ensures b in EsMap(Tail(e, hi)) <==> b in EsMap(e) && hi <= b {
      assert b in EsMap(Tail(e, hi)) <==> Spans(Tail(e, hi), b);
    }
  }

  /** Cutting a run deletes exactly the range from the map. */
  lemma {:induction false} CutRunMeaning(s: seq<Es>, lo: nat, hi: nat)
    requires lo < hi
    ensures Meaning(CutRun(s, lo, hi)) == Dropped(Meaning(s), lo, hi)
  {
    if s != [] {
      CutRunMeaning(s[1..], lo, hi);
      PiecesMeaning(s[0], lo, hi);
      MeaningAppend(Pieces(s[0], lo, hi), CutRun(s[1..], lo, hi));
      DroppedJoin(EsMap(s[0]), Meaning(s[1..]), lo, hi);
    }
  }
}
