/**
 get_reserved_cluster_alloc (ext4/extents.c): how many of the clusters an allocation touches
 were reserved for it, because no delayed block outside the allocation needs them.
 */
module ReservedClusters {
  import opened StatusRuns
  import opened StatusTree

  /** No delayed block of cluster c lies outside start..start+n-1. */
  ghost predicate Entire(m: StatusMap, c: nat, start: nat, n: nat, ratio: nat) {
    forall b :: c * ratio <= b < c * ratio + ratio && !(start <= b < start + n) ==> !(b in m && m[b].flags.delayed)
  }

  /** The number of such clusters among c..last. */
  ghost function EntireCount(m: StatusMap, c: nat, last: nat, start: nat, n: nat, ratio: nat): nat
    decreases last + 1 - c
  {
    if c > last then 0
    else (if Entire(m, c, start, n, ratio) then 1 else 0) + EntireCount(m, c + 1, last, start, n, ratio)
  }

  lemma ClusterOf(b: nat, ratio: nat)
    requires ratio > 0
    ensures (b / ratio) * ratio + b % ratio == b && 0 <= b % ratio < ratio
  {
  }

  lemma Distribute(d: nat, ratio: nat)
    requires d > 0
    ensures d * ratio == (d - 1) * ratio + ratio
  {
  }

  lemma {:induction false} Scale(c: nat, d: nat, ratio: nat)
    requires c < d
    ensures c * ratio + ratio <= d * ratio
    decreases d
  {
    Distribute(d, ratio);
    if c + 1 < d {
      Scale(c, d - 1, ratio);
    }
  }

  /** Clusters strictly inside the allocation are covered by it. */
  lemma InnerEntire(m: StatusMap, c: nat, first: nat, last: nat, start: nat, n: nat, ratio: nat)
    requires first < c < last && start < first * ratio + ratio && last * ratio < start + n
    ensures Entire(m, c, start, n, ratio)
  {
    Scale(first, c, ratio);
    Scale(c, last, ratio);
  }

  lemma {:induction false} InnerCount(m: StatusMap, c: nat, first: nat, last: nat, start: nat, n: nat, ratio: nat)
    requires first < c <= last && start < first * ratio + ratio && last * ratio < start + n
    ensures EntireCount(m, c, last, start, n, ratio) == (last - c) + (if Entire(m, last, start, n, ratio) then 1 else 0)
    decreases last - c
  {
    if c < last {
      InnerEntire(m, c, first, last, start, n, ratio);
      InnerCount(m, c + 1, first, last, start, n, ratio);
    } else {
      assert EntireCount(m, c + 1, last, start, n, ratio) == 0;
    }
  }

  /** The count comes down to the two clusters at the ends. */
  lemma CountEnds(m: StatusMap, first: nat, last: nat, start: nat, n: nat, ratio: nat)
    requires first <= last && start < first * ratio + ratio && last * ratio < start + n
    ensures EntireCount(m, first, last, start, n, ratio) ==
      if first == last then (if Entire(m, first, start, n, ratio) then 1 else 0)
      else (if Entire(m, first, start, n, ratio) then 1 else 0) + (last - first - 1) +
           (if Entire(m, last, start, n, ratio) then 1 else 0)
  {
    if first < last {
      InnerCount(m, first + 1, first, last, start, n, ratio);
    } else {
      assert EntireCount(m, first + 1, last, start, n, ratio) == 0;
    }
  }

  /** The first and the last cluster reach out of the allocation only to the left and to the right. */
  lemma EndsEntire(m: StatusMap, first: nat, last: nat, start: nat, n: nat, ratio: nat)
    requires first <= last && first * ratio <= start < first * ratio + ratio
    requires last * ratio < start + n <= last * ratio + ratio
    ensures first < last ==>
      && (Entire(m, first, start, n, ratio) <==> !(start > first * ratio && HasDelayed(m, first * ratio, start - 1)))
      && (Entire(m, last, start, n, ratio) <==>
            !(start + n < last * ratio + ratio && HasDelayed(m, start + n, last * ratio + ratio - 1)))
    ensures first == last ==>
      (Entire(m, first, start, n, ratio) <==>
         && !(start > first * ratio && HasDelayed(m, first * ratio, start - 1))
         && !(start + n < last * ratio + ratio && HasDelayed(m, start + n, last * ratio + ratio - 1)))
  {
    if first < last {
      Scale(first, last, ratio);
    }
  }

  /**
   get_reserved_cluster_alloc; the ratio is a power of two, so that the mask arithmetic of
   the code is division and remainder.
   */
  method GetReservedClusterAlloc(tree: EsTree, start: nat, n: nat, ratio: nat) returns (clusters: nat)
    requires tree.Valid() && n > 0 && ratio > 0
    modifies tree`cache
    ensures tree.Valid() && tree.nodes == old(tree.nodes)
    ensures clusters == EntireCount(tree.Contents(), start / ratio, (start + n - 1) / ratio, start, n, ratio)
  {
    var first, last := start / ratio, (start + n - 1) / ratio;
    EndClusters(start, n, ratio);
    CountEnds(tree.Contents(), first, last, start, n, ratio);
    EndsEntire(tree.Contents(), first, last, start, n, ratio);
    clusters := last - first + 1;
    var offset := start % ratio;
    if offset != 0 {
      var from := start - offset;
      var delayed := tree.FindDelallocRange(from, from + offset - 1);
      if delayed {
        clusters := clusters - 1;
      }
    }
    offset := (start + n) % ratio;
    if clusters != 0 && offset != 0 {
      var from := start + n;
      var delayed := tree.FindDelallocRange(from, from + (ratio - offset) - 1);
      if delayed {
        clusters := clusters - 1;
      }
    }
  }

  /** Where the first and last cluster of the allocation lie. */
  lemma EndClusters(start: nat, n: nat, ratio: nat)
    requires n > 0 && ratio > 0
    ensures var first, last := start / ratio, (start + n - 1) / ratio;
      && first <= last
      && first * ratio <= start < first * ratio + ratio && start - start % ratio == first * ratio
      && last * ratio < start + n <= last * ratio + ratio
      && ((start + n) % ratio == 0 ==> start + n == last * ratio + ratio)
      && ((start + n) % ratio != 0 ==> start + n + (ratio - (start + n) % ratio) == last * ratio + ratio)
  {
    var first, last, e := start / ratio, (start + n - 1) / ratio, (start + n) / ratio;
    ClusterOf(start, ratio);
    ClusterOf(start + n - 1, ratio);
    ClusterOf(start + n, ratio);
    if first > last {
      Scale(last, first, ratio);
    }
    NextCluster(start + n, last, e, ratio);
  }

  lemma NextCluster(b: nat, last: nat, e: nat, ratio: nat)
    requires ratio > 0 && last * ratio < b <= last * ratio + ratio && e * ratio <= b < e * ratio + ratio
    ensures b == e * ratio ==> b == last * ratio + ratio
    ensures b != e * ratio ==> e == last
  {
    if e < last {
      Scale(e, last, ratio);
    } else if e > last {
      Scale(last, e, ratio);
    }
  }
}
