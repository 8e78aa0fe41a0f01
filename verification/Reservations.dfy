/**
 Delayed-allocation accounting (ext4/inode.c, ext4/balloc.c): per-CPU counters, the test for
 free clusters, the estimate of index blocks, and the reservations of the inodes. One block
 to a cluster.
 */
module Reservations {
  import opened Divisions

  // ----- per-CPU counters ----------------------------------------------------------------------

  ghost function Sum(s: seq<int>): int {
    if s == [] then 0 else Sum(s[..|s| - 1]) + s[|s| - 1]
  }

  lemma {:induction false} SumUpdate(s: seq<int>, i: nat, v: int)
    requires i < |s|
    ensures Sum(s[i := v]) == Sum(s) - s[i] + v
  {
    var n := |s| - 1;
    if i == n {
      assert s[i := v][..n] == s[..n];
    } else {
      assert s[i := v][..n] == s[..n][i := v];
      SumUpdate(s[..n], i, v);
    }
  }

  function Times(n: nat, b: nat): nat {
    n * b
  }

  lemma {:induction false} SumSmall(s: seq<int>, batch: nat)
    requires forall i :: 0 <= i < |s| ==> s[i] < batch && -s[i] < batch
    ensures Sum(s) <= Times(|s|, batch) && -Sum(s) <= Times(|s|, batch)
  {
    if s != [] {
      SumSmall(s[..|s| - 1], batch);
    }
  }

  /** A counter with a part for every CPU, each smaller than `batch`. */
  class PercpuCounter {
    const batch: nat
    const cpus: nat
    var count: int
    var local: seq<int>

    ghost predicate Valid()
      reads this
    {
      batch > 0 && |local| == cpus && forall i :: 0 <= i < cpus ==> local[i] < batch && -local[i] < batch
    }

    /** What the counter stands for. */
    ghost function Exact(): int
      reads this
    {
      count + Sum(local)
    }

    /** percpu_counter_add on the given CPU. */
    method Add(amount: int, cpu: nat)
      requires Valid() && cpu < cpus
      modifies this
      ensures Valid() && Exact() == old(Exact()) + amount
    {
      var c := local[cpu] + amount;
      if c >= batch || -c >= batch {
        SumUpdate(local, cpu, 0);
        count := count + c;
        local := local[cpu := 0];
      } else {
        SumUpdate(local, cpu, c);
        local := local[cpu := c];
      }
    }

    /** percpu_counter_sub */
    method Sub(amount: int, cpu: nat)
      requires Valid() && cpu < cpus
      modifies this
      ensures Valid() && Exact() == old(Exact()) - amount
    {
      Add(-amount, cpu);
    }

    /** percpu_counter_read_positive: without the parts of the CPUs. */
    method ReadPositive() returns (r: nat)
      requires Valid()
      ensures r == if count > 0 then count else 0
      ensures r - Times(cpus, batch) <= Exact() || r == 0
      ensures Exact() <= r + Times(cpus, batch)
    {
      SumSmall(local, batch);
      r := if count > 0 then count else 0;
    }

    /** percpu_counter_sum_positive */
    method SumPositive() returns (r: nat)
      requires Valid()
      ensures r == if Exact() > 0 then Exact() else 0
    {
      var i, t := 0, count;
      while i < cpus
        invariant i <= cpus && t == count + Sum(local[..i])
      {
        assert local[..i + 1][..i] == local[..i];
        t := t + local[i];
        i := i + 1;
      }
      assert local[..cpus] == local;
      r := if t > 0 then t else 0;
    }
  }

  // ----- the estimate of index blocks --------------------------------------------------------------

  /** The reservation fields of an inode, with its reserved quota. */
  datatype Da = Da(data: nat, meta: nat, allocatedMeta: nat, calcLast: nat, calcLen: nat, quota: nat)

  /** How the inode is mapped: extents of the given depth, or indirect blocks. */
  datatype Form = ByExtents(depth: nat, idxs: nat) | ByIndirect(perBlock: nat, bits: nat)

  const NDIR: nat := 12

  /** order_base_2: the least k with n <= 2^k. */
  function OrderBase2(n: nat): nat {
    if n <= 1 then 0 else 1 + OrderBase2((n + 1) / 2)
  }

  function Bit(b: bool): nat {
    if b then 1 else 0
  }

  /** ext4_ext_calc_metadata_amount and ext4_ind_calc_metadata_amount: the amount. */
  function Amount(d: Da, f: Form, lblock: nat): nat
    requires f.ByExtents? ==> f.idxs > 0
    requires f.ByIndirect? ==> f.perBlock > 0 && f.bits > 0
  {
    match f
    case ByExtents(depth, idxs) =>
      if d.calcLen > 0 && d.calcLast + 1 == lblock then
        Bit(d.calcLen % idxs == 0) + Bit(d.calcLen % Square(idxs) == 0) + Bit(d.calcLen % Cube(idxs) == 0)
      else depth + 1
    case ByIndirect(perBlock, bits) =>
      if lblock < NDIR then 0
      else if d.calcLen > 0 && Masked(lblock - NDIR, perBlock) == d.calcLast then 0
      else OrderBase2(lblock - NDIR) / bits + 1
  }

  /** ... and the estimator afterwards. */
  function Estimated(d: Da, f: Form, lblock: nat): Da
    requires f.ByExtents? ==> f.idxs > 0
    requires f.ByIndirect? ==> f.perBlock > 0 && f.bits > 0
  {
    match f
    case ByExtents(depth, idxs) =>
      if d.calcLen > 0 && d.calcLast + 1 == lblock then
        d.(calcLen := if d.calcLen % Cube(idxs) == 0 then 0 else d.calcLen + 1, calcLast := d.calcLast + 1)
      else d.(calcLen := 1, calcLast := lblock)
    case ByIndirect(perBlock, bits) =>
      if lblock < NDIR then d
      else if d.calcLen > 0 && Masked(lblock - NDIR, perBlock) == d.calcLast then d.(calcLen := d.calcLen + 1)
      else d.(calcLen := 1, calcLast := Masked(lblock - NDIR, perBlock))
  }

  function Masked(b: nat, perBlock: nat): nat
    requires perBlock > 0
  {
    b - b % perBlock
  }

  function Square(n: nat): (r: nat)
    requires n > 0
    ensures r > 0
  {
    n * n
  }

  function Cube(n: nat): (r: nat)
    requires n > 0
    ensures r > 0
  {
    n * Square(n)
  }

  /** The sum of the estimates for n blocks in a row from `start`, the estimator starting as d. */
  function Total(d: Da, f: Form, start: nat, n: nat): nat
    requires f.ByExtents? && f.idxs > 0
    decreases n
  {
    if n == 0 then 0 else Amount(d, f, start) + Total(Estimated(d, f, start), f, start + 1, n - 1)
  }

  /** The estimates for the first r blocks of a run: one index block per level, one more for every full node. */
  function RunShare(f: Form, r: nat): nat
    requires f.ByExtents? && f.idxs > 0
  {
    if r == 0 then 0 else f.depth + 1 + (r - 1) / f.idxs + (r - 1) / Square(f.idxs)
  }

  /**
   For n consecutive new blocks, one extent each, the estimates add up to one index block per
   level, one more for every idxs blocks and one more for every idxs * idxs; behind idxs * idxs
   * idxs of them the estimator takes one more and begins again.
   */
  lemma {:induction false} EstimateTotal(d: Da, f: Form, start: nat, n: nat)
    requires f.ByExtents? && f.idxs > 1 && (d.calcLen == 0 || d.calcLast + 1 != start)
    ensures var period := Cube(f.idxs) + 1;
      Total(d, f, start, n) == n / period * (f.depth + 2 + f.idxs + Square(f.idxs)) + RunShare(f, n % period)
    decreases n
  {
    var c := Cube(f.idxs);
    if n == 0 {
    } else if n <= c {
      DivIs(n, c + 1, 0, n);
      EstimateRun(Estimated(d, f, start), f, start + 1, 1, n - 1);
      DivZero(f.idxs);
      DivZero(Square(f.idxs));
    } else {
      var d1 := Estimated(d, f, start);
      var d2 := d1.(calcLen := 0, calcLast := start + c);
      EstimateOut(d1, f, start + 1, 1, n - 1, d2);
      DivZero(f.idxs);
      DivZero(Square(f.idxs));
      EstimateTotal(d2, f, start + c + 1, n - (c + 1));
      CubeShares(f.idxs);
      OnePeriod(n, c + 1, f.depth + 2 + f.idxs + Square(f.idxs));
    }
  }

  lemma CubeShares(q: nat)
    requires q > 0
    ensures Cube(q) / q == Square(q) && Cube(q) / Square(q) == q
  {
    assert Cube(q) == Square(q) * q;
    DivIs(Cube(q), q, Square(q), 0);
    DivIs(Cube(q), Square(q), q, 0);
  }

  lemma OnePeriod(n: nat, q: nat, share: nat)
    requires n >= q > 0
    ensures n % q == (n - q) % q && n / q * share == (n - q) / q * share + share
  {
    var a, r := (n - q) / q, (n - q) % q;
    assert n - q == q * a + r;
    assert n == q * (a + 1) + r;
    DivIs(n, q, a + 1, r);
    assert (a + 1) * share == a * share + share;
  }

  /** The rest of a run that reaches the end of the period. */
  lemma {:induction false} EstimateOut(d: Da, f: Form, start: nat, k: nat, n: nat, d': Da)
    requires f.ByExtents? && f.idxs > 1 && 0 < k <= Cube(f.idxs) && n > Cube(f.idxs) - k
    requires d.calcLen == k && d.calcLast + 1 == start
    requires d' == d.(calcLen := 0, calcLast := start + (Cube(f.idxs) - k))
    ensures var c := Cube(f.idxs);
      Total(d, f, start, n) + (k - 1) / f.idxs + (k - 1) / Square(f.idxs)
      == c / f.idxs + c / Square(f.idxs) + 1 + Total(d', f, start + (c - k) + 1, n - (c - k) - 1)
    decreases n
  {
    var c := Cube(f.idxs);
    StepDiv(k, f.idxs);
    StepDiv(k, Square(f.idxs));
    if k == c {
      DivIs(k, c, 1, 0);
    } else {
      SmallMod(k, c);
      EstimateOut(Estimated(d, f, start), f, start + 1, k + 1, n - 1, d');
    }
  }

  lemma DivZero(q: nat)
    requires q > 0
    ensures 0 / q == 0
  {
  }

  /** The blocks after the first: k of them have been counted so far. */
  lemma {:induction false} EstimateRun(d: Da, f: Form, start: nat, k: nat, n: nat)
    requires f.ByExtents? && f.idxs > 1 && k > 0 && k + n <= Cube(f.idxs)
    requires d.calcLen == k && d.calcLast + 1 == start
    ensures Total(d, f, start, n) + (k - 1) / f.idxs + (k - 1) / Square(f.idxs)
      == (k + n - 1) / f.idxs + (k + n - 1) / Square(f.idxs)
    decreases n
  {
    if n > 0 {
      SmallMod(k, Cube(f.idxs));
      StepDiv(k, f.idxs);
      StepDiv(k, Square(f.idxs));
      EstimateRun(Estimated(d, f, start), f, start + 1, k + 1, n - 1);
    }
  }

  lemma SmallMod(k: nat, c: nat)
    requires 0 < k < c
    ensures k % c == k
  {
  }

  lemma StepDiv(k: nat, q: nat)
    requires k > 0 && q > 0
    ensures k / q == (k - 1) / q + Bit(k % q == 0)
  {
    var a, r := (k - 1) / q, (k - 1) % q;
    assert k - 1 == q * a + r;
    if r + 1 < q {
      DivIs(k, q, a, r + 1);
    } else {
      assert k == q * (a + 1);
      DivIs(k, q, a + 1, 0);
    }
  }

  // ----- reservations ----------------------------------------------------------------------------

  /** Reserved data and index blocks of all inodes. */
  ghost function Held(s: seq<Da>): nat {
    if s == [] then 0 else Held(s[..|s| - 1]) + s[|s| - 1].data + s[|s| - 1].meta
  }

  lemma {:induction false} HeldUpdate(s: seq<Da>, i: nat, d: Da)
    requires i < |s|
    ensures Held(s[i := d]) + s[i].data + s[i].meta == Held(s) + d.data + d.meta
  {
    var n := |s| - 1;
    if i == n {
      assert s[i := d][..n] == s[..n];
    } else {
      assert s[i := d][..n] == s[..n][i := d];
      HeldUpdate(s[..n], i, d);
    }
  }

  /** The inode after a reservation of `data` data blocks and the estimate for lblock. */
  function Reserved(d: Da, f: Form, lblock: nat, data: nat): Da
    requires f.ByExtents? ==> f.idxs > 0
    requires f.ByIndirect? ==> f.perBlock > 0 && f.bits > 0
  {
    var e := Estimated(d, f, lblock);
    e.(data := d.data + data, quota := d.quota + data, meta := d.meta + Amount(d, f, lblock))
  }

  lemma Twice(s: seq<Da>, i: nat, d: Da, e: Da)
    requires i < |s|
    ensures s[i := d][i := e] == s[i := e] && (e == s[i] ==> s[i := e] == s)
  {
  }

  datatype Flags = Flags(privileged: bool, useReserved: bool)

  /** A caller without any privilege. */
  const ORDINARY := Flags(false, false)

  /** The superblock's counters and the inodes of the file system. */
  class Space {
    /** s_freeclusters_counter and s_dirtyclusters_counter */
    const free: PercpuCounter
    const dirty: PercpuCounter
    /** Blocks reserved for root, and s_resv_clusters. */
    const rBlocks: nat
    var resv: nat
    var inodes: seq<Da>

    constructor (free: PercpuCounter, dirty: PercpuCounter, rBlocks: nat, resv: nat)
      ensures this.free == free && this.dirty == dirty && inodes == []
    {
      this.free, this.dirty, this.rBlocks, this.resv, inodes := free, dirty, rBlocks, resv, [];
    }

    ghost predicate CountersOk()
      reads this, free, dirty
    {
      free != dirty && free.Valid() && dirty.Valid() && free.batch == dirty.batch && free.cpus == dirty.cpus
        && free.Exact() >= 0
    }

    /**
     The dirty counter is what the inodes have reserved, data and index blocks; every
     reserved data block is covered by reserved quota.
     */
    ghost predicate Conserved()
      reads this, free, dirty
    {
      && CountersOk() && dirty.Exact() == Held(inodes)
      && forall i :: 0 <= i < |inodes| ==> inodes[i].quota == inodes[i].data
    }

    /** Clusters free, not promised, and not kept back from a caller of this kind. */
    ghost function Available(fl: Flags): int
      reads this, free, dirty
    {
      var promised := if dirty.Exact() > 0 then dirty.Exact() else 0;
      free.Exact() - promised - (if fl.useReserved then 0 else if fl.privileged then resv else rBlocks + resv)
    }

    /**
     ext4_has_free_clusters: the answer is that of the exact counters, although mostly the
     approximate ones are looked at.
     */
    method HasFreeClusters(n: nat, fl: Flags) returns (ok: bool)
      requires CountersOk()
      ensures ok <==> Available(fl) >= n
    {
      var freeClusters := free.ReadPositive();
      var dirtyClusters := dirty.ReadPositive();
      var rsv := rBlocks + resv;
      var watermark := 4 * Times(free.cpus, free.batch);
      if freeClusters - (n + rsv + dirtyClusters) < watermark {
        freeClusters := free.SumPositive();
        dirtyClusters := dirty.SumPositive();
      }
      if freeClusters >= rsv + n + dirtyClusters {
        return true;
      }
      if fl.privileged {
        if freeClusters >= n + dirtyClusters + resv {
          return true;
        }
      }
      if fl.useReserved {
        if freeClusters >= n + dirtyClusters {
          return true;
        }
      }
      return false;
    }

    /** ext4_claim_free_clusters: a claim succeeds exactly if there is enough, and never over-commits. */
    method Claim(n: nat, fl: Flags, cpu: nat) returns (ok: bool)
      requires CountersOk() && cpu < dirty.cpus
      modifies dirty
      ensures ok <==> old(Available(fl)) >= n
      ensures CountersOk() && dirty.Exact() == old(dirty.Exact()) + if ok then n else 0
      ensures ok ==> dirty.Exact() <= free.Exact()
    {
      ok := HasFreeClusters(n, fl);
      if ok {
        dirty.Add(n, cpu);
      }
    }

    predicate FormOk(f: Form) {
      if f.ByExtents? then f.idxs > 0 else f.perBlock > 0 && f.bits > 0
    }

    /**
     ext4_da_reserve_metadata, with `retries` further attempts: the estimate is reserved if there
     is enough, or the inode is as before, the estimator included.
     */
    method ReserveMetadata(i: nat, f: Form, lblock: nat, retries: nat, cpu: nat) returns (ok: bool)
      requires Conserved() && i < |inodes| && FormOk(f) && cpu < dirty.cpus
      modifies this`inodes, dirty
      ensures Conserved() && (ok ==> dirty.Exact() <= free.Exact())
      ensures ok <==> old(Available(ORDINARY)) >= Amount(old(inodes[i]), f, lblock)
      ensures ok ==> inodes == old(inodes)[i := Reserved(old(inodes[i]), f, lblock, 0)]
      ensures !ok ==> inodes == old(inodes)
    {
      ok := ReserveWith(i, f, lblock, 0, retries, cpu);
    }

    /** ext4_da_reserve_space: the same for a data block; `quotaLeft` is the answer of the quota. */
    method ReserveSpace(i: nat, f: Form, lblock: nat, retries: nat, quotaLeft: bool, cpu: nat) returns (ok: bool)
      requires Conserved() && i < |inodes| && FormOk(f) && cpu < dirty.cpus
      modifies this`inodes, dirty
      ensures Conserved() && (ok ==> dirty.Exact() <= free.Exact())
      ensures ok <==> quotaLeft && old(Available(ORDINARY)) >= Amount(old(inodes[i]), f, lblock) + 1
      ensures ok ==> inodes == old(inodes)[i := Reserved(old(inodes[i]), f, lblock, 1)]
      ensures !ok ==> inodes == old(inodes)
    {
      if !quotaLeft {
        return false;
      }
      ok := ReserveWith(i, f, lblock, 1, retries, cpu);
    }

    /** The part the two have in common: `data` data blocks and the estimate for lblock. */
    method ReserveWith(i: nat, f: Form, lblock: nat, data: nat, retries: nat, cpu: nat) returns (ok: bool)
      requires Conserved() && i < |inodes| && FormOk(f) && cpu < dirty.cpus
      modifies this`inodes, dirty
      ensures Conserved() && (ok ==> dirty.Exact() <= free.Exact())
      ensures ok <==> old(Available(ORDINARY)) >= Amount(old(inodes[i]), f, lblock) + data
      ensures inodes == if ok then old(inodes)[i := Reserved(old(inodes[i]), f, lblock, data)] else old(inodes)
    {
      var left := retries;
      ok := ReserveOnce(i, f, lblock, data, cpu);
      while !ok && left > 0
        invariant Conserved() && (ok ==> dirty.Exact() <= free.Exact())
        invariant ok <==> old(Available(ORDINARY)) >= Amount(old(inodes[i]), f, lblock) + data
        invariant !ok ==> Available(ORDINARY) == old(Available(ORDINARY))
        invariant inodes == if ok then old(inodes)[i := Reserved(old(inodes[i]), f, lblock, data)] else old(inodes)
        decreases left
      {
        ok := ReserveOnce(i, f, lblock, data, cpu);
        left := left - 1;
      }
    }

    /** One attempt: the estimator is advanced, and put back if the claim fails. */
    method ReserveOnce(i: nat, f: Form, lblock: nat, data: nat, cpu: nat) returns (ok: bool)
      requires Conserved() && i < |inodes| && FormOk(f) && cpu < dirty.cpus
      modifies this`inodes, dirty
      ensures Conserved() && (ok ==> dirty.Exact() <= free.Exact())
      ensures ok <==> old(Available(ORDINARY)) >= Amount(old(inodes[i]), f, lblock) + data
      ensures !ok ==> dirty.Exact() == old(dirty.Exact())
      ensures inodes == if ok then old(inodes)[i := Reserved(old(inodes[i]), f, lblock, data)] else old(inodes)
    {
      var saveLen, saveLast := inodes[i].calcLen, inodes[i].calcLast;
      ghost var d0, all := inodes[i], inodes;
      var md := Amount(inodes[i], f, lblock);
      inodes := inodes[i := Estimated(inodes[i], f, lblock)];
      ok := Claim(md + data, ORDINARY, cpu);
      var d := inodes[i];
      if ok {
        inodes := inodes[i := d.(data := d.data + data, quota := d.quota + data, meta := d.meta + md)];
        Twice(all, i, Estimated(d0, f, lblock), inodes[i]);
        HeldUpdate(all, i, inodes[i]);
      } else {
        inodes := inodes[i := d.(calcLen := saveLen, calcLast := saveLast)];
        Twice(all, i, Estimated(d0, f, lblock), inodes[i]);
      }
    }

    /** All index blocks are given back with the last data block. */
    function Settled(d: Da): Da {
      if d.data == 0 then d.(meta := 0, calcLen := 0) else d
    }

    /** ext4_da_release_space: up to toFree reserved blocks are given up. */
    method ReleaseSpace(i: nat, toFree: nat, cpu: nat)
      requires Conserved() && i < |inodes| && cpu < dirty.cpus
      modifies this`inodes, dirty
      ensures Conserved()
      ensures var d := old(inodes[i]); var n := if toFree < d.data then toFree else d.data;
        inodes == if toFree == 0 then old(inodes)
                  else old(inodes)[i := Settled(d.(data := d.data - n, quota := d.quota - n))]
    {
      if toFree == 0 {
        return;
      }
      var d := inodes[i];
      var n := if toFree > d.data then d.data else toFree;
      d := d.(data := d.data - n);
      if d.data == 0 {
        dirty.Sub(d.meta, cpu);
        d := d.(meta := 0, calcLen := 0);
      }
      dirty.Sub(n, cpu);
      d := d.(quota := d.quota - n);
      HeldUpdate(inodes, i, d);
      inodes := inodes[i := d];
    }

    /**
     ext4_da_update_reserve_space: `used` reserved blocks have become real, and with them the
     index blocks allocated meanwhile.
     */
    method UpdateReserveSpace(i: nat, used: nat, cpu: nat)
      requires Conserved() && i < |inodes| && cpu < dirty.cpus
      modifies this`inodes, dirty
      ensures Conserved()
      ensures var d := old(inodes[i]);
        var n := if used < d.data then used else d.data;
        var m := if d.allocatedMeta < d.meta then d.allocatedMeta else d.meta;
        inodes ==
        old(inodes)[i := Settled(d.(data := d.data - n, quota := d.quota - n, meta := d.meta - m, allocatedMeta := 0))]
    {
      var d, n := inodes[i], used;
      if n > d.data {
        n := d.data;
      }
      if d.allocatedMeta > d.meta {
        d := d.(allocatedMeta := d.meta);
      }
      d := d.(data := d.data - n, meta := d.meta - d.allocatedMeta);
      dirty.Sub(n + d.allocatedMeta, cpu);
      d := d.(allocatedMeta := 0);
      if d.data == 0 {
        dirty.Sub(d.meta, cpu);
        d := d.(meta := 0, calcLen := 0);
      }
      d := d.(quota := d.quota - n);
      HeldUpdate(inodes, i, d);
      inodes := inodes[i := d];
    }

    /** A new inode has nothing reserved. */
    method NewInode()
      requires Conserved()
      modifies this`inodes
      ensures Conserved() && inodes == old(inodes) + [Da(0, 0, 0, 0, 0, 0)]
    {
      inodes := inodes + [Da(0, 0, 0, 0, 0, 0)];
      assert inodes[..|inodes| - 1] == old(inodes);
    }

    /** When no inode has anything reserved nothing is dirty: no reservation leaks. */
    lemma NothingLeft()
      requires Conserved() && forall i :: 0 <= i < |inodes| ==> inodes[i].data == 0 && inodes[i].meta == 0
      ensures dirty.Exact() == 0
    {
      NothingHeld(inodes);
    }
  }

  lemma {:induction false} NothingHeld(s: seq<Da>)
    requires forall i :: 0 <= i < |s| ==> s[i].data == 0 && s[i].meta == 0
    ensures Held(s) == 0
  {
    if s != [] {
      NothingHeld(s[..|s| - 1]);
    }
  }
}
