/**
 Multiple mount protection (ext4/mmp.c): any number of nodes share one block on disk. The
 steps of mounting (ext4_multi_mount_protect) and of the holder's thread (kmmpd) interleave
 in any order as time, in seconds, goes by.
 */
module MultiMount {

  const SEQ_CLEAN: nat := 0xFF4D4D50
  const SEQ_FSCK: nat := 0xE24D4D50
  const SEQ_MAX: nat := 0xE24D4D4F
  const CHECK_MULT: nat := 2
  const MIN_CHECK_INTERVAL: nat := 5
  const MAX_CHECK_INTERVAL: nat := 300

  /** mmp_struct: sequence, name of the last writer, check interval (16 bits). */
  datatype Block = Block(seqNo: nat, node: nat, interval: nat)

  datatype Phase =
    | Idle
      /** First wait: the sequence read. */
    | Waiting(seqNo: nat, wait: nat, since: real)
      /** About to write a new sequence into the block as it was read. */
    | Claiming(wait: nat, buf: Block)
      /** Second wait: the sequence written. */
    | Trying(seqNo: nat, wait: nat, since: real)
      /** kmmpd at the top of its loop; `wrote` is when it last reached the disk, or started. */
    | Beating(seqNo: nat, interval: nat, wrote: real)
      /** kmmpd asleep after the write it tried at `last`. */
    | Sleeping(seqNo: nat, interval: nat, wrote: real, last: real)
      /** kmmpd found the block changed and gave up; the file system stays mounted. */
    | Aborted
  {
    /** kmmpd is at work. */
    predicate Holds() {
      Beating? || Sleeping?
    }

    /** The file system is mounted; giving up does not unmount it. */
    predicate Mounted() {
      Holds() || Aborted?
    }
  }

  datatype State = State(now: real, disk: Block, nodes: seq<Phase>)

  datatype Action =
    | Tick(dt: real)
    | ReadFirst(i: nat)
    | Recheck(i: nat)
    | WriteNew(i: nat, q: nat)
    | Confirm(i: nat)
    | Beat(i: nat, ok: bool)
    | Check(i: nat)
    | Unmount(i: nat)
      /** A crash, or a mount that failed or was interrupted. */
    | Leave(i: nat)

  function Max(a: int, b: int): int {
    if a > b then a else b
  }

  function Min(a: int, b: int): int {
    if a < b then a else b
  }

  /** wait_time for the update interval of the superblock and the interval found in the block. */
  function WaitTime(update: nat, interval: nat): nat {
    var check := Max(Max(update, MIN_CHECK_INTERVAL), interval);
    Min(check * 2 + 1, check + 60)
  }

  /** mmp_check_interval after a cycle of the given length. */
  function Adjusted(diff: real): nat {
    Max(Min((2.0 * diff).Floor, MAX_CHECK_INTERVAL), MIN_CHECK_INTERVAL)
  }

  function NextSeq(seqNo: nat): nat {
    if seqNo + 1 > SEQ_MAX then 1 else seqNo + 1
  }

  function StartMount(s: State, update: nat): Phase {
    if s.disk.seqNo == SEQ_CLEAN then Claiming(0, s.disk)
    else if s.disk.seqNo == SEQ_FSCK then Idle
    else Waiting(s.disk.seqNo, WaitTime(update, s.disk.interval), s.now)
  }

  /** The end of a kmmpd cycle: late enough to look at the block, or not. */
  function Checked(s: State, i: nat, p: Phase): Phase
    requires p.Sleeping?
  {
    if s.now - p.last > p.interval as real && (s.disk.seqNo != p.seqNo || s.disk.node != i) then Aborted
    else Beating(p.seqNo, Adjusted(s.now - p.last), p.wrote)
  }

  function Actor(a: Action): nat
    requires !a.Tick?
  {
    a.i
  }

  /** What the code allows: the node is at that point, and a wait is over. */
  predicate Possible(s: State, a: Action, update: nat) {
    a.Tick? || (Actor(a) < |s.nodes| &&
      var p := s.nodes[Actor(a)];
      match a
      case Tick(_) => true
      case ReadFirst(_) => p.Idle?
      case Recheck(_) => p.Waiting? && s.now >= p.since + p.wait as real
      case WriteNew(_, q) => p.Claiming? && q <= SEQ_MAX
      case Confirm(_) => p.Trying? && s.now >= p.since + p.wait as real
      case Beat(_, _) => p.Beating?
      case Check(_) => p.Sleeping? && s.now >= p.last + update as real
      case Unmount(_) => p.Beating?
      case Leave(_) => true)
  }

  function Moved(s: State, i: nat, p: Phase): State
    requires i < |s.nodes|
  {
    s.(nodes := s.nodes[i := p])
  }

  function Apply(s: State, a: Action, update: nat): State
    requires Possible(s, a, update)
  {
    match a
    case Tick(dt) => s.(now := s.now + dt)
    case ReadFirst(i) => Moved(s, i, StartMount(s, update))
    case Recheck(i) =>
      Moved(s, i, if s.disk.seqNo != s.nodes[i].seqNo then Idle else Claiming(s.nodes[i].wait, s.disk))
    case WriteNew(i, q) =>
      Moved(s, i, Trying(q, s.nodes[i].wait, s.now)).(disk := s.nodes[i].buf.(seqNo := q))
    case Confirm(i) =>
      Moved(s, i, if s.disk.seqNo != s.nodes[i].seqNo then Idle
                  else Beating(0, Max(CHECK_MULT * update, MIN_CHECK_INTERVAL), s.now))
    case Beat(i, ok) =>
      var p := s.nodes[i];
      var q := NextSeq(p.seqNo);
      if ok then Moved(s, i, Sleeping(q, p.interval, s.now, s.now)).(disk := Block(q, i, p.interval % 0x1_0000))
      else Moved(s, i, Sleeping(q, p.interval, p.wrote, s.now))
    case Check(i) => Moved(s, i, Checked(s, i, s.nodes[i]))
    case Unmount(i) => Moved(s, i, Idle).(disk := Block(SEQ_CLEAN, i, s.nodes[i].interval % 0x1_0000))
    case Leave(i) => Moved(s, i, Idle)
  }

  /** The sequence is not one that another node wrote and is waiting to see again. */
  predicate Fresh(s: State, i: nat, q: nat) {
    forall j :: 0 <= j < |s.nodes| && j != i && s.nodes[j].Trying? ==> s.nodes[j].seqNo != q
  }

  /**
   What the protocol relies on: time goes forward, a holder reaches the disk at least once in
   `gap` seconds, sequences written do not collide, and nobody starts from a clean block
   unless `clean`.
   */
  predicate Assumed(s: State, a: Action, gap: real, clean: bool) {
    match a
    case Tick(dt) => dt >= 0.0 && forall j :: 0 <= j < |s.nodes| && s.nodes[j].Holds() ==>
      s.now + dt <= s.nodes[j].wrote + gap
    case ReadFirst(_) => clean || s.disk.seqNo != SEQ_CLEAN
    case WriteNew(i, q) => Fresh(s, i, q)
    case Beat(i, ok) => i < |s.nodes| && s.nodes[i].Beating? && (ok ==> Fresh(s, i, NextSeq(s.nodes[i].seqNo)))
    case _ => true
  }

  /** A run of the protocol under these assumptions. */
  predicate Allowed(s: State, acts: seq<Action>, update: nat, gap: real, clean: bool)
    decreases |acts|
  {
    acts == [] || (Possible(s, acts[0], update) && Assumed(s, acts[0], gap, clean)
                   && Allowed(Apply(s, acts[0], update), acts[1..], update, gap, clean))
  }

  function After(s: State, acts: seq<Action>, update: nat, gap: real, clean: bool): State
    requires Allowed(s, acts, update, gap, clean)
    decreases |acts|
  {
    if acts == [] then s else After(Apply(s, acts[0], update), acts[1..], update, gap, clean)
  }

  predicate Initial(s: State) {
    forall i :: 0 <= i < |s.nodes| ==> s.nodes[i].Idle?
  }

  predicate AtMostOne(s: State) {
    forall i, j :: 0 <= i < |s.nodes| && 0 <= j < |s.nodes| && s.nodes[i].Mounted() && s.nodes[j].Mounted() ==> i == j
  }

  // ----- the invariant -----------------------------------------------------------------------

  /** The smallest check interval kmmpd ever works with. */
  function SmallestCheck(update: nat): nat {
    Max(Min(CHECK_MULT * update, MAX_CHECK_INTERVAL), MIN_CHECK_INTERVAL)
  }

  /** A holder never finds itself late: its check interval, or its own sleep, is longer than the gap. */
  predicate NeverLate(update: nat, gap: real) {
    gap <= SmallestCheck(update) as real || gap < update as real
  }

  /** A node whose kmmpd is at work, if any, has written in time and checks at long enough intervals. */
  predicate Steady(now: real, p: Phase, update: nat, gap: real) {
    && !p.Aborted?
    && (p.Holds() ==> p.wrote <= now <= p.wrote + gap && p.interval >= SmallestCheck(update))
    && (p.Sleeping? ==> p.wrote <= p.last <= now)
  }

  /** One node: it is steady, its waits are long enough, times lie in the past. */
  predicate NodeOk(s: State, p: Phase, update: nat, gap: real) {
    && (p.Waiting? || p.Claiming? || p.Trying? ==> p.wait >= WaitTime(update, 0))
    && (p.Trying? ==> p.since <= s.now && p.seqNo <= SEQ_MAX)
    && Steady(s.now, p, update, gap)
  }

  /**
   Two nodes: not both hold; two nodes in their second wait wrote different sequences; and as
   long as a waiting node's sequence stands, a holder has not written since.
   */
  predicate PairOk(s: State, p: Phase, q: Phase) {
    && !(p.Holds() && q.Holds())
    && (p.Trying? && q.Trying? ==> p.seqNo != q.seqNo)
    && (p.Holds() && q.Trying? && s.disk.seqNo == q.seqNo ==> p.wrote <= q.since)
  }

  predicate Inv(s: State, update: nat, gap: real) {
    && (forall i :: 0 <= i < |s.nodes| ==> NodeOk(s, s.nodes[i], update, gap))
    && (forall i, j :: 0 <= i < |s.nodes| && 0 <= j < |s.nodes| && i != j ==> PairOk(s, s.nodes[i], s.nodes[j]))
  }

  /** The shortest wait there can be. */
  lemma ShortestWait(update: nat, interval: nat)
    ensures WaitTime(update, 0) <= WaitTime(update, interval)
  {
  }

  lemma StepKeepsInv(s: State, a: Action, update: nat, gap: real)
    requires Inv(s, update, gap) && Possible(s, a, update) && Assumed(s, a, gap, false)
    requires 0.0 <= gap < WaitTime(update, 0) as real && NeverLate(update, gap)
    ensures Inv(Apply(s, a, update), update, gap)
  {
    var t := Apply(s, a, update);
    if a.Check? {
      AdjustedEnough(s.now - s.nodes[a.i].last, update);
      assert NodeOk(s, s.nodes[a.i], update, gap);
    }
    ShortestWait(update, s.disk.interval);
    forall i | 0 <= i < |t.nodes| ensures NodeOk(t, t.nodes[i], update, gap) {
      assert NodeOk(s, s.nodes[i], update, gap);
    }
    forall i, j | 0 <= i < |t.nodes| && 0 <= j < |t.nodes| && i != j ensures PairOk(t, t.nodes[i], t.nodes[j]) {
      assert PairOk(s, s.nodes[i], s.nodes[j]) && PairOk(s, s.nodes[j], s.nodes[i]);
      assert NodeOk(s, s.nodes[i], update, gap) && NodeOk(s, s.nodes[j], update, gap);
    }
  }

  lemma {:induction false} RunKeepsInv(s: State, acts: seq<Action>, update: nat, gap: real)
    requires Inv(s, update, gap) && Allowed(s, acts, update, gap, false)
    requires 0.0 <= gap < WaitTime(update, 0) as real && NeverLate(update, gap)
    ensures Inv(After(s, acts, update, gap, false), update, gap)
    decreases |acts|
  {
    if acts != [] {
      StepKeepsInv(s, acts[0], update, gap);
      RunKeepsInv(Apply(s, acts[0], update), acts[1..], update, gap);
    }
  }

  /** Mutual exclusion in every run from every state where nobody has begun to mount. */
  ghost predicate Exclusive(update: nat, gap: real, clean: bool) {
    forall s, acts :: Initial(s) && Allowed(s, acts, update, gap, clean) ==>
      AtMostOne(After(s, acts, update, gap, clean))
  }

  /**
   Two nodes never have the file system mounted together, in any interleaving, exactly if
   nobody starts from a clean block, every holder writes more often than the shortest wait,
   and no holder is ever late by its own measure.
   */
  lemma ExclusiveExactly(update: nat, gap: real, clean: bool)
    requires 0.0 <= gap
    ensures Exclusive(update, gap, clean) <==> !clean && gap < WaitTime(update, 0) as real && NeverLate(update, gap)
  {
    if clean {
      CleanStart(update, gap);
    } else if gap >= WaitTime(update, 0) as real {
      SlowHolder(update, gap);
    } else if !NeverLate(update, gap) {
      LateHolder(update, gap);
    } else {
      forall s, acts | Initial(s) && Allowed(s, acts, update, gap, false)
        ensures AtMostOne(After(s, acts, update, gap, false)) {
        RunKeepsInv(s, acts, update, gap);
        OneHolder(After(s, acts, update, gap, false), update, gap);
      }
    }
  }

  lemma OneHolder(s: State, update: nat, gap: real)
    requires Inv(s, update, gap)
    ensures AtMostOne(s)
  {
    forall i, j | 0 <= i < |s.nodes| && 0 <= j < |s.nodes| && s.nodes[i].Mounted() && s.nodes[j].Mounted()
      ensures i == j {
      assert NodeOk(s, s.nodes[i], update, gap) && NodeOk(s, s.nodes[j], update, gap);
      assert i != j ==> PairOk(s, s.nodes[i], s.nodes[j]);
    }
  }

  // ----- runs that fail ----------------------------------------------------------------------

  lemma {:induction false} OneMore(s: State, acts: seq<Action>, a: Action, update: nat, gap: real, clean: bool)
    requires Allowed(s, acts, update, gap, clean)
    requires Possible(After(s, acts, update, gap, clean), a, update)
    requires Assumed(After(s, acts, update, gap, clean), a, gap, clean)
    ensures Allowed(s, acts + [a], update, gap, clean)
    ensures After(s, acts + [a], update, gap, clean) == Apply(After(s, acts, update, gap, clean), a, update)
    decreases |acts|
  {
    var all := acts + [a];
    if acts == [] {
      assert all == [a] && all[1..] == [];
    } else {
      assert all[0] == acts[0] && all[1..] == acts[1..] + [a];
      OneMore(Apply(s, acts[0], update), acts[1..], a, update, gap, clean);
    }
  }

  /** t can be reached from s. */
  ghost predicate Reachable(s: State, t: State, update: nat, gap: real, clean: bool) {
    exists acts :: Allowed(s, acts, update, gap, clean) && After(s, acts, update, gap, clean) == t
  }

  lemma Stay(s: State, update: nat, gap: real, clean: bool)
    ensures Reachable(s, s, update, gap, clean)
  {
    assert Allowed(s, [], update, gap, clean) && After(s, [], update, gap, clean) == s;
  }

  lemma Step(s: State, t: State, a: Action, update: nat, gap: real, clean: bool)
    requires Reachable(s, t, update, gap, clean) && Possible(t, a, update) && Assumed(t, a, gap, clean)
    ensures Reachable(s, Apply(t, a, update), update, gap, clean)
  {
    var acts :| Allowed(s, acts, update, gap, clean) && After(s, acts, update, gap, clean) == t;
    OneMore(s, acts, a, update, gap, clean);
  }

  /** From a clean block there is no wait: two nodes that read it both end up holding. */
  lemma CleanStart(update: nat, gap: real)
    ensures !Exclusive(update, gap, true)
  {
    var d := Block(SEQ_CLEAN, 0, 0);
    var s := State(0.0, d, [Idle, Idle]);
    Stay(s, update, gap, true);
    var c := Claiming(0, d);
    Step(s, s, ReadFirst(0), update, gap, true);
    Step(s, State(0.0, d, [c, Idle]), ReadFirst(1), update, gap, true);
    CleanBoth(s, d, update, gap);
  }

  lemma CleanBoth(s: State, d: Block, update: nat, gap: real)
    requires Initial(s) && Reachable(s, State(0.0, d, [Claiming(0, d), Claiming(0, d)]), update, gap, true)
    ensures !Exclusive(update, gap, true)
  {
    var c, e, f := Claiming(0, d), d.(seqNo := 2), d.(seqNo := 3);
    var h := Beating(0, Max(CHECK_MULT * update, MIN_CHECK_INTERVAL), 0.0);
    Step(s, State(0.0, d, [c, c]), WriteNew(0, 2), update, gap, true);
    Step(s, State(0.0, e, [Trying(2, 0, 0.0), c]), Confirm(0), update, gap, true);
    Step(s, State(0.0, e, [h, c]), WriteNew(1, 3), update, gap, true);
    Step(s, State(0.0, f, [h, Trying(3, 0, 0.0)]), Confirm(1), update, gap, true);
    TwoHolders(s, State(0.0, f, [h, h]), update, gap, true);
  }

  lemma TwoHolders(s: State, t: State, update: nat, gap: real, clean: bool)
    requires Initial(s) && Reachable(s, t, update, gap, clean)
    requires |t.nodes| == 2 && t.nodes[0].Mounted() && t.nodes[1].Mounted()
    ensures !Exclusive(update, gap, clean)
  {
    var acts :| Allowed(s, acts, update, gap, clean) && After(s, acts, update, gap, clean) == t;
    assert t.nodes[0].Mounted() && t.nodes[1].Mounted();
  }

  /** Two nodes have rechecked the same block; one has written its sequence. */
  lemma BothReady(update: nat, gap: real)
    ensures var w := WaitTime(update, 0);
      var d := Block(1, 0, 0);
      Reachable(State(0.0, d, [Idle, Idle]),
                State(w as real, d.(seqNo := 2), [Trying(2, w, w as real), Claiming(w, d)]), update, gap, false)
  {
    var w := WaitTime(update, 0);
    var r := w as real;
    var d := Block(1, 0, 0);
    var s := State(0.0, d, [Idle, Idle]);
    Stay(s, update, gap, false);
    var p := Waiting(1, w, 0.0);
    Step(s, s, ReadFirst(0), update, gap, false);
    Step(s, State(0.0, d, [p, Idle]), ReadFirst(1), update, gap, false);
    Step(s, State(0.0, d, [p, p]), Tick(r), update, gap, false);
    BothRecheck(s, d, w, update, gap);
  }

  lemma BothRecheck(s: State, d: Block, w: nat, update: nat, gap: real)
    requires d.seqNo == 1
    requires Reachable(s, State(w as real, d, [Waiting(1, w, 0.0), Waiting(1, w, 0.0)]), update, gap, false)
    ensures Reachable(s, State(w as real, d.(seqNo := 2), [Trying(2, w, w as real), Claiming(w, d)]), update, gap,
      false)
  {
    var r, p, c := w as real, Waiting(1, w, 0.0), Claiming(w, d);
    Step(s, State(r, d, [p, p]), Recheck(0), update, gap, false);
    Step(s, State(r, d, [c, p]), Recheck(1), update, gap, false);
    Step(s, State(r, d, [c, c]), WriteNew(0, 2), update, gap, false);
  }

  /** A holder that may be silent for a whole wait does not notice the node that writes behind it. */
  lemma SlowHolder(update: nat, gap: real)
    requires gap >= WaitTime(update, 0) as real
    ensures !Exclusive(update, gap, false)
  {
    var w, d := WaitTime(update, 0), Block(1, 0, 0);
    BothReady(update, gap);
    SlowHolderEnd(State(0.0, d, [Idle, Idle]), d, Claiming(w, d), w, update, gap);
  }

  lemma SlowHolderEnd(s: State, d: Block, c: Phase, w: nat, update: nat, gap: real)
    requires Initial(s) && gap >= w as real && c == Claiming(w, d)
    requires Reachable(s, State(w as real, d.(seqNo := 2), [Trying(2, w, w as real), c]), update, gap, false)
    ensures !Exclusive(update, gap, false)
  {
    var r := w as real;
    var e, f := d.(seqNo := 2), d.(seqNo := 3);
    var t := Trying(2, w, r);
    Step(s, State(r, e, [t, c]), Tick(r), update, gap, false);
    Step(s, State(r + r, e, [t, c]), Confirm(0), update, gap, false);
    var h := Beating(0, Max(CHECK_MULT * update, MIN_CHECK_INTERVAL), r + r);
    Step(s, State(r + r, e, [h, c]), WriteNew(1, 3), update, gap, false);
    Step(s, State(r + r, f, [h, Trying(3, w, r + r)]), Tick(r), update, gap, false);
    Step(s, State(r + r + r, f, [h, Trying(3, w, r + r)]), Confirm(1), update, gap, false);
    TwoHolders(s, State(r + r + r, f, [h, Beating(0, h.interval, r + r + r)]), update, gap, false);
  }

  /**
   A holder that may be late looks at the block, finds the claim of a node that rechecked long
   ago, and gives up: that node then mounts beside it.
   */
  lemma LateHolder(update: nat, gap: real)
    requires !NeverLate(update, gap)
    ensures !Exclusive(update, gap, false)
  {
    var w, r := WaitTime(update, 0), WaitTime(update, 0) as real;
    var d := Block(1, 0, 0);
    var s, c, t := State(0.0, d, [Idle, Idle]), Claiming(w, d), Trying(2, w, r);
    BothReady(update, gap);
    var e := d.(seqNo := 2);
    Step(s, State(r, e, [t, c]), Tick(r), update, gap, false);
    Step(s, State(r + r, e, [t, c]), Confirm(0), update, gap, false);
    OneCycle(s, e, c, r + r, update, gap);
  }

  /** One undisturbed cycle of kmmpd brings its interval down to the smallest. */
  lemma OneCycle(s: State, e: Block, c: Phase, m: real, update: nat, gap: real)
    requires !NeverLate(update, gap) && Initial(s) && c.Claiming?
    requires Reachable(s, State(m, e, [Beating(0, Max(CHECK_MULT * update, MIN_CHECK_INTERVAL), m), c]), update, gap,
      false)
    ensures !Exclusive(update, gap, false)
  {
    var i0, u := Max(CHECK_MULT * update, MIN_CHECK_INTERVAL), update as real;
    var f := Block(1, 0, i0 % 0x1_0000);
    Step(s, State(m, e, [Beating(0, i0, m), c]), Beat(0, true), update, gap, false);
    Step(s, State(m, f, [Sleeping(1, i0, m, m), c]), Tick(u), update, gap, false);
    Step(s, State(m + u, f, [Sleeping(1, i0, m, m), c]), Check(0), update, gap, false);
    AdjustedCycle(update);
    Overtaken(s, f, c, m, m + u, update, gap);
  }

  lemma AdjustedCycle(update: nat)
    ensures Adjusted(update as real) == SmallestCheck(update)
  {
    assert 2.0 * (update as real) == (2 * update) as real;
  }

  lemma Overtaken(s: State, f: Block, c: Phase, m: real, n: real, update: nat, gap: real)
    requires !NeverLate(update, gap) && Initial(s) && c.Claiming? && m <= n
    requires Reachable(s, State(n, f, [Beating(1, SmallestCheck(update), m), c]), update, gap, false)
    ensures !Exclusive(update, gap, false)
  {
    var k := SmallestCheck(update);
    var p, t := Sleeping(2, k, n, n), Trying(50, c.wait, n);
    var x, y := Block(2, 0, k % 0x1_0000), c.buf.(seqNo := 50);
    Step(s, State(n, f, [Beating(1, k, m), c]), Beat(0, true), update, gap, false);
    Step(s, State(n, x, [p, c]), WriteNew(1, 50), update, gap, false);
    Step(s, State(n, y, [p, t]), Tick(gap), update, gap, false);
    Step(s, State(n + gap, y, [p, t]), Check(0), update, gap, false);
    GivenUp(s, y, t, n + gap, update, gap);
  }

  lemma GivenUp(s: State, y: Block, t: Phase, n: real, update: nat, gap: real)
    requires Initial(s) && t.Trying? && y.seqNo == t.seqNo && t.since <= n
    requires Reachable(s, State(n, y, [Aborted, t]), update, gap, false)
    ensures !Exclusive(update, gap, false)
  {
    var r := t.wait as real;
    Step(s, State(n, y, [Aborted, t]), Tick(r), update, gap, false);
    Step(s, State(n + r, y, [Aborted, t]), Confirm(1), update, gap, false);
    var h := Beating(0, Max(CHECK_MULT * update, MIN_CHECK_INTERVAL), n + r);
    TwoHolders(s, State(n + r, y, [Aborted, h]), update, gap, false);
  }

  // ----- a holder is left in peace -----------------------------------------------------------

  predicate AllSteady(s: State, update: nat, gap: real) {
    forall i :: 0 <= i < |s.nodes| ==> Steady(s.now, s.nodes[i], update, gap)
  }

  lemma AdjustedEnough(diff: real, update: nat)
    requires diff >= update as real
    ensures Adjusted(diff) >= SmallestCheck(update)
  {
    assert 2.0 * diff >= (2 * update) as real;
  }

  lemma StepSteady(s: State, a: Action, update: nat, gap: real, clean: bool)
    requires AllSteady(s, update, gap) && Possible(s, a, update) && Assumed(s, a, gap, clean)
    requires 0.0 <= gap && NeverLate(update, gap)
    ensures AllSteady(Apply(s, a, update), update, gap)
  {
    var t := Apply(s, a, update);
    if a.Check? {
      AdjustedEnough(s.now - s.nodes[a.i].last, update);
    }
    forall i | 0 <= i < |t.nodes| ensures Steady(t.now, t.nodes[i], update, gap) {
      assert Steady(s.now, s.nodes[i], update, gap);
    }
  }

  /**
   A holder that is never late by its own measure does not give up, whatever the other nodes
   write into the block, and even if they start from a clean one.
   */
  lemma {:induction false} NeverAborts(s: State, acts: seq<Action>, update: nat, gap: real, clean: bool)
    requires AllSteady(s, update, gap) && Allowed(s, acts, update, gap, clean)
    requires 0.0 <= gap && NeverLate(update, gap)
    ensures AllSteady(After(s, acts, update, gap, clean), update, gap)
    decreases |acts|
  {
    if acts != [] {
      StepSteady(s, acts[0], update, gap, clean);
      NeverAborts(Apply(s, acts[0], update), acts[1..], update, gap, clean);
    }
  }

  // ----- who mounts, and who does not ----------------------------------------------------------

  /** Nobody is about to mount, and fsck is running. */
  predicate Checking(s: State) {
    Initial(s) && s.disk.seqNo == SEQ_FSCK
  }

  /** While fsck is running nobody mounts, and nobody touches the block, whatever the other parameters. */
  lemma {:induction false} FsckRefused(s: State, acts: seq<Action>, update: nat, gap: real, clean: bool)
    requires Checking(s) && Allowed(s, acts, update, gap, clean)
    ensures var t := After(s, acts, update, gap, clean); Checking(t) && t.disk == s.disk && |t.nodes| == |s.nodes|
    decreases |acts|
  {
    if acts != [] {
      assert !acts[0].Tick? ==> s.nodes[Actor(acts[0])].Idle?;
      FsckRefused(Apply(s, acts[0], update), acts[1..], update, gap, clean);
    }
  }

  /** A clean unmount lets the next node mount at once. */
  lemma HandedOver(s: State, update: nat, gap: real)
    requires |s.nodes| == 2 && s.nodes[0].Beating? && s.nodes[1].Idle?
    ensures exists t ::
      Reachable(s, t, update, gap, true) && t.now == s.now && |t.nodes| == 2 && t.nodes[0].Idle? && t.nodes[1].Holds()
  {
    var d := Block(SEQ_CLEAN, 0, s.nodes[0].interval % 0x1_0000);
    var e := d.(seqNo := 7);
    assert s.nodes == [s.nodes[0], Idle];
    Stay(s, update, gap, true);
    Step(s, s, Unmount(0), update, gap, true);
    Step(s, State(s.now, d, [Idle, Idle]), ReadFirst(1), update, gap, true);
    Step(s, State(s.now, d, [Idle, Claiming(0, d)]), WriteNew(1, 7), update, gap, true);
    Step(s, State(s.now, e, [Idle, Trying(7, 0, s.now)]), Confirm(1), update, gap, true);
    var h := Beating(0, Max(CHECK_MULT * update, MIN_CHECK_INTERVAL), s.now);
    assert Reachable(s, State(s.now, e, [Idle, h]), update, gap, true);
  }

  /** A node alone mounts after two waits if the block is neither clean nor marked by fsck. */
  lemma AloneMounts(s: State, update: nat, gap: real)
    requires s.nodes == [Idle] && s.disk.seqNo != SEQ_CLEAN && s.disk.seqNo != SEQ_FSCK && 0.0 <= gap
    ensures var w := WaitTime(update, s.disk.interval) as real;
      exists t :: Reachable(s, t, update, gap, false) && |t.nodes| == 1 && t.nodes[0].Holds() && t.now == s.now + w + w
  {
    var w := WaitTime(update, s.disk.interval);
    var r := w as real;
    var d := s.disk;
    var p := Waiting(d.seqNo, w, s.now);
    Stay(s, update, gap, false);
    Step(s, s, ReadFirst(0), update, gap, false);
    Step(s, State(s.now, d, [p]), Tick(r), update, gap, false);
    Step(s, State(s.now + r, d, [p]), Recheck(0), update, gap, false);
    AloneConfirms(s, d, w, s.now + r, update, gap);
  }

  lemma AloneConfirms(s: State, d: Block, w: nat, n: real, update: nat, gap: real)
    requires 0.0 <= gap && Reachable(s, State(n, d, [Claiming(w, d)]), update, gap, false)
    ensures exists t ::
      Reachable(s, t, update, gap, false) && |t.nodes| == 1 && t.nodes[0].Holds() && t.now == n + w as real
  {
    var r, e := w as real, d.(seqNo := 7);
    Step(s, State(n, d, [Claiming(w, d)]), WriteNew(0, 7), update, gap, false);
    Step(s, State(n, e, [Trying(7, w, n)]), Tick(r), update, gap, false);
    Step(s, State(n + r, e, [Trying(7, w, n)]), Confirm(0), update, gap, false);
    var h := Beating(0, Max(CHECK_MULT * update, MIN_CHECK_INTERVAL), n + r);
    assert Reachable(s, State(n + r, e, [h]), update, gap, false);
  }
}
