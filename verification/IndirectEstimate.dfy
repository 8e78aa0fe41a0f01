/**
 What ext4_ind_calc_metadata_amount reserves for files mapped by indirect blocks, against the
 indirect blocks their offset paths need.
 */
module IndirectEstimate {
  import opened Divisions
  import opened Reservations
  import I = IndirectTree

  function Pow2(k: nat): nat {
    if k == 0 then 1 else 2 * Pow2(k - 1)
  }

  lemma {:induction false} Pow2Sum(a: nat, b: nat)
    ensures Pow2(a + b) == Pow2(a) * Pow2(b)
  {
    if a > 0 {
      Pow2Sum(a - 1, b);
      assert 2 * (Pow2(a - 1) * Pow2(b)) == (2 * Pow2(a - 1)) * Pow2(b);
    }
  }

  lemma {:induction false} Pow2Grows(a: nat, b: nat)
    requires a <= b
    ensures 1 <= Pow2(a) <= Pow2(b) && (a < b ==> 2 * Pow2(a) <= Pow2(b))
    decreases b
  {
    if a < b {
      Pow2Grows(a, b - 1);
    } else if b > 0 {
      Pow2Grows(b - 1, b - 1);
    }
  }

  /** order_base_2 is the least exponent: the binary logarithm rounded up. */
  lemma {:induction false} OrderAtMost(n: nat, m: nat)
    ensures OrderBase2(n) <= m <==> n <= Pow2(m)
  {
    Pow2Grows(0, m);
    if n > 1 && m > 0 {
      OrderAtMost((n + 1) / 2, m - 1);
    }
  }

  /** A file with 2^bits pointers to a block. */
  ghost predicate Indirect(f: Form) {
    f.ByIndirect? && f.bits > 0 && f.perBlock == Pow2(f.bits) && f.perBlock > NDIR
  }

  lemma SmallPower(b: nat)
    ensures b < 4 ==> Pow2(b) <= 8
  {
    if b < 4 {
      Pow2Grows(b, 3);
      assert Pow2(1) == 2 && Pow2(2) == 4;
    }
  }

  lemma Powers(f: Form)
    requires Indirect(f)
    ensures f.bits >= 4
    ensures var P := f.perBlock;
      && P * P == Pow2(2 * f.bits) && P * P * P == Pow2(3 * f.bits)
      && 2 * P <= P * P && 2 * (P * P) <= P * P * P
  {
    var P, b := f.perBlock, f.bits;
    SmallPower(b);
    Pow2Sum(b, b);
    Pow2Sum(2 * b, b);
    Pow2Grows(b, 2 * b);
    Pow2Grows(2 * b, 3 * b);
  }

  /** Dividing the order by the bits of a level. */
  lemma LevelsBetween(order: nat, bits: nat, k: nat, m: nat)
    requires bits > 1 && k * bits <= order <= m * bits + 1
    ensures k <= order / bits <= m
  {
    var q, r := order / bits, order % bits;
    assert order == bits * q + r;
    if q < k {
      MulGap(q, k, bits);
    } else if m < q {
      MulGap(m, q, bits);
    }
  }

  /**
   The first estimate in a window of perBlock blocks is at least the number of indirect blocks
   on the path of the block, and at most one more.
   */
  lemma FirstEstimate(d: Da, f: Form, lblock: nat)
    requires Indirect(f) && (lblock >= NDIR ==> d.calcLen == 0 || Masked(lblock - NDIR, f.perBlock) != d.calcLast)
    requires lblock < I.Capacity(f.perBlock)
    ensures var path := I.BlockToPath(f.perBlock, lblock);
      path != [] && |path| - 1 <= Amount(d, f, lblock) <= |path| && (lblock < NDIR ==> Amount(d, f, lblock) == 0)
  {
    var P := f.perBlock;
    Powers(f);
    I.PathThere(P, lblock);
    if lblock >= NDIR {
      LevelsOf(lblock - NDIR, f.bits, P, P * P, P * P * P, OrderBase2(lblock - NDIR) / f.bits);
    }
  }

  /** The levels behind the direct blocks, by the order of the block's number; x, y and z are their sizes. */
  lemma LevelsOf(n: nat, bits: nat, x: nat, y: nat, z: nat, e: nat)
    requires bits >= 4 && x == Pow2(bits) && y == Pow2(2 * bits) && z == Pow2(3 * bits) && 2 * x <= y && 2 * y <= z
    requires e == OrderBase2(n) / bits
    ensures n < x ==> e <= 1
    ensures x <= n < x + y ==> 1 <= e <= 2
    ensures x + y <= n < x + y + z ==> 2 <= e <= 3
  {
    if n < x {
      OneLevel(n, bits, 0, 1, 0, bits, e);
    } else if n < x + y {
      OneLevel(n, bits, 1, 2, bits, 2 * bits, e);
    } else if n < x + y + z {
      OneLevel(n, bits, 2, 3, 2 * bits, 3 * bits, e);
    }
  }

  lemma OneLevel(n: nat, bits: nat, k: nat, m: nat, a: nat, b: nat, e: nat)
    requires bits > 1 && a == k * bits && b == m * bits && a <= b && e == OrderBase2(n) / bits
    requires (a > 0 ==> Pow2(a) <= n) && n <= 2 * Pow2(b)
    ensures k <= e <= m
  {
    assert Pow2(b + 1) == 2 * Pow2(b);
    OrderBetween(n, a, b + 1);
    LevelsBetween(OrderBase2(n), bits, k, m);
  }

  lemma OrderBetween(n: nat, a: nat, b: nat)
    requires a <= b && (a > 0 ==> Pow2(a) <= n) && n <= Pow2(b)
    ensures a <= OrderBase2(n) <= b
  {
    OrderAtMost(n, b);
    if a > 0 {
      OrderAtMost(n, a - 1);
      Pow2Grows(a - 1, a);
    }
  }

  // ----- indirect blocks used --------------------------------------------------------------------

  /** The first k of the pointers on a path name as many indirect blocks. */
  ghost function Prefixes(path: seq<nat>, k: nat): (s: set<seq<nat>>)
    requires k <= |path|
    ensures |s| <= k
  {
    if k == 0 then {} else Prefixes(path, k - 1) + {path[..k]}
  }

  /** The indirect blocks on the way to block b, each named by the offsets that lead to it. */
  ghost function OnTheWay(P: nat, b: nat): set<seq<nat>>
    requires P > 0
  {
    var path := I.BlockToPath(P, b);
    if path == [] then {} else Prefixes(path, |path| - 1)
  }

  /** Those of all the blocks. */
  ghost function Used(P: nat, bs: seq<nat>): set<seq<nat>>
    requires P > 0
  {
    if bs == [] then {} else OnTheWay(P, bs[0]) + Used(P, bs[1..])
  }

  lemma {:induction false} SamePrefixes(p: seq<nat>, q: seq<nat>, k: nat)
    requires k <= |p| && k <= |q| && p[..k] == q[..k]
    ensures Prefixes(p, k) == Prefixes(q, k)
  {
    if k > 0 {
      assert p[..k - 1] == p[..k][..k - 1] && q[..k - 1] == q[..k][..k - 1];
      SamePrefixes(p, q, k - 1);
    }
  }

  /** The blocks of one window have the same indirect blocks. */
  lemma WindowSame(P: nat, n: nat)
    requires P > NDIR
    ensures OnTheWay(P, NDIR + Masked(n, P)) == OnTheWay(P, NDIR + n)
  {
    var c := NDIR + Masked(n, P);
    I.PathThere(P, c);
    I.PathThere(P, NDIR + n);
    if c < I.Capacity(P) {
      WindowStart(P, n);
      I.BoundaryExact(P, c, n % P);
      var p, q := I.BlockToPath(P, c), I.BlockToPath(P, NDIR + n);
      SamePrefixes(p, q, |p| - 1);
    }
  }

  lemma WindowStart(P: nat, n: nat)
    requires P > NDIR && NDIR + Masked(n, P) < I.Capacity(P)
    ensures I.Boundary(P, NDIR + Masked(n, P)) == P - 1
  {
    var m, q := Masked(n, P), n / P;
    assert n == P * q + n % P;
    I.PathThere(P, NDIR + m);
    if m < P {
      WindowZero(m, q, P);
    } else if m - P < P * P {
      Multiple(m, q, P, 1);
    } else {
      Multiple(m, q, P, 1 + P);
      assert P * (1 + P) == P + P * P;
    }
  }

  lemma WindowZero(m: nat, q: nat, P: nat)
    requires P > 0 && m == P * q < P
    ensures m % P == 0
  {
    if q > 0 {
      MulGap(0, q, P);
    }
  }

  /** Taking multiples away from a multiple. */
  lemma Multiple(m: nat, q: nat, P: nat, k: nat)
    requires P > 0 && m == P * q && m >= P * k
    ensures (m - P * k) % P == 0
  {
    if q < k {
      MulGap(q, k, P);
    }
    assert m - P * k == P * (q - k);
    DivIs(m - P * k, P, q - k, 0);
  }

  // ----- all estimates together ----------------------------------------------------------------------

  /** The sum of the estimates for the blocks in this order, the estimator starting as d. */
  function Sum(d: Da, f: Form, bs: seq<nat>): nat
    requires f.ByIndirect? && f.perBlock > 0 && f.bits > 0
    decreases |bs|
  {
    if bs == [] then 0 else Amount(d, f, bs[0]) + Sum(Estimated(d, f, bs[0]), f, bs[1..])
  }

  /** The indirect blocks of the window the estimator is at have been counted. */
  ghost function Known(d: Da, P: nat): set<seq<nat>>
    requires P > 0
  {
    if d.calcLen == 0 then {} else OnTheWay(P, NDIR + d.calcLast)
  }

  /**
   For any sequence of new blocks, in whatever order they are written, the estimates cover all
   indirect blocks on their paths, but for those counted when the estimator's window began.
   */
  lemma {:induction false} EstimatesCover(d: Da, f: Form, bs: seq<nat>)
    requires Indirect(f)
    ensures |Used(f.perBlock, bs) - Known(d, f.perBlock)| <= Sum(d, f, bs)
    decreases |bs|
  {
    var P := f.perBlock;
    if bs != [] {
      var b, rest := bs[0], bs[1..];
      var d' := Estimated(d, f, b);
      EstimatesCover(d', f, rest);
      OneCovered(d, f, b, OnTheWay(P, b), Known(d, P), Known(d', P));
      Covered(OnTheWay(P, b), Used(P, rest), Known(d, P), Known(d', P), Amount(d, f, b));
    }
  }

  /** One block: its indirect blocks are known already, or estimated now and known from then on. */
  lemma OneCovered(d: Da, f: Form, b: nat, way: set<seq<nat>>, known: set<seq<nat>>, known': set<seq<nat>>)
    requires Indirect(f) && way == OnTheWay(f.perBlock, b)
    requires known == Known(d, f.perBlock) && known' == Known(Estimated(d, f, b), f.perBlock)
    ensures (way <= known && known' == known) || (|way| <= Amount(d, f, b) && known' == way)
  {
    if b < NDIR {
      NothingOnTheWay(f.perBlock, b);
    } else {
      WindowKnown(d, f, b);
      if d.calcLen == 0 || Masked(b - NDIR, f.perBlock) != d.calcLast {
        WayEstimated(d, f, b);
      }
    }
  }

  /** Behind the direct blocks the estimator is at the block's window afterwards. */
  lemma WindowKnown(d: Da, f: Form, b: nat)
    requires Indirect(f) && b >= NDIR
    ensures Known(Estimated(d, f, b), f.perBlock) == OnTheWay(f.perBlock, b)
    ensures d.calcLen > 0 && Masked(b - NDIR, f.perBlock) == d.calcLast ==>
      Known(d, f.perBlock) == OnTheWay(f.perBlock, b)
  {
    WindowSame(f.perBlock, b - NDIR);
  }

  lemma NothingOnTheWay(P: nat, b: nat)
    requires P > 0 && b < NDIR
    ensures OnTheWay(P, b) == {}
  {
    assert I.BlockToPath(P, b) == [b];
  }

  lemma WayEstimated(d: Da, f: Form, b: nat)
    requires Indirect(f) && b >= NDIR && (d.calcLen == 0 || Masked(b - NDIR, f.perBlock) != d.calcLast)
    ensures |OnTheWay(f.perBlock, b)| <= Amount(d, f, b)
  {
    I.PathThere(f.perBlock, b);
    if b < I.Capacity(f.perBlock) {
      FirstEstimate(d, f, b);
    }
  }

  lemma Covered(way: set<seq<nat>>, rest: set<seq<nat>>, known: set<seq<nat>>, known': set<seq<nat>>, amount: nat)
    requires (way <= known && known' == known) || (|way| <= amount && known' == way)
    ensures |way + rest - known| <= amount + |rest - known'|
  {
    if way <= known && known' == known {
      assert way + rest - known == rest - known';
    } else {
      assert way + rest - known <= way + (rest - known');
      Subset(way + rest - known, way + (rest - known'));
      assert |way + (rest - known')| == |way| + |rest - known'| - |way * (rest - known')|;
    }
  }

  lemma {:induction false} Subset(a: set<seq<nat>>, b: set<seq<nat>>)
    requires a <= b
    ensures |a| <= |b|
  {
    assert b == a + (b - a);
  }
}
