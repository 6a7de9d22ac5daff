/** Where CLOCK's hand and LFU's pointer stand, after every call and on whole runs. */
module Hands {
  import opened Bytes
  import opened BlockStore
  import opened PoolSteps
  import opened Coherence
  import opened FifoQueue
  import opened Strategies
  import opened Evictions
  import opened Options
  import Counters
  import Modular

  /** The frame under CLOCK's hand; past the array if it is not below `n`. */
  function HandAt(lastEntry: nat, n: nat): nat
    requires n > 0
  {
    if lastEntry % n == 0 then 0 else lastEntry
  }

  /** A full-pool miss puts the page under the hand and leaves the hand one further, past the last frame too. */
  lemma ClockReplaces(s: Pool, p: nat)
    requires FullMiss(s, p) && s.strategy == CLOCK
    ensures var n, t := |s.frames|, Pin(s, p); var h := HandAt(s.lastEntry, n);
      && (h < n ==> t.lastEntry == h + 1 && t.frames[h].page == p && IndexOf(t.frames, p) == h)
      && (h >= n ==> t.lastEntry == s.lastEntry && t.frames == s.frames)
  {
    hide Install, Block;
    Prefix(s.frames);
    ProbeFinds(s.frames, p);
    var h, t := HandAt(s.lastEntry, |s.frames|), Pin(s, p);
    if h < |s.frames| {
      Installed(Counted(s), h, p, Block(s.file, p));
      IndexIs(t.frames, p, h);
    }
  }

  ghost predicate IsHit(s: Pool, op: Op) {
    op.PinOp? && IndexOf(s.frames, op.page) < |s.frames|
  }

  ghost predicate IsFullMiss(s: Pool, op: Op) {
    op.PinOp? && FullMiss(s, op.page)
  }

  /** Whatever the strategy, a hit moves `lastEntry` by one, and else only CLOCK's replacements move it. */
  lemma HandSteps(s: Pool, op: Op)
    requires Inv(s)
    ensures IsHit(s, op) ==> Step(s, op).lastEntry == s.lastEntry + 1
    ensures !IsHit(s, op) && !IsFullMiss(s, op) ==> Step(s, op).lastEntry == s.lastEntry
    ensures IsFullMiss(s, op) && s.strategy != CLOCK ==> Step(s, op).lastEntry == s.lastEntry
  {
    match op
    case PinOp(p) => PinHand(s, p);
    case FlushOp => Counters.FlushCounters(s, |s.frames|);
    case _ =>
  }

  lemma PinHand(s: Pool, p: nat)
    requires Inv(s)
    ensures var t, hit := Pin(s, p), IndexOf(s.frames, p) < |s.frames|;
      && (hit ==> t.lastEntry == s.lastEntry + 1)
      && (!hit && !(FullMiss(s, p) && s.strategy == CLOCK) ==> t.lastEntry == s.lastEntry)
  {
    hide Install, LfuScan, LruScan, FifoWalk, Block;
    ProbeFinds(s.frames, p);
    Prefix(s.frames);
    if Probe(s.frames, p) == |s.frames| {
      IndexNone(s.frames, p);
      IndexNone(s.frames, NO_PAGE);
      if Victim(Counted(s)).Some? {
        Installed(Counted(s), Victim(Counted(s)).value, p, Block(s.file, p));
      }
    }
  }

  /** LFU's pointer stands behind the frame replaced last: the one of the round that was due. */
  lemma LfuReplaces(s: Pool, p: nat, k: nat)
    requires FullMiss(s, p) && s.strategy == LFU && 1 <= k <= |s.frames|
    requires LfuDue(s.frames, s.lastPtr % |s.frames|, k)
    ensures var n, t := |s.frames|, Pin(s, p); var v := Around(s.lastPtr % n, k, n);
      t.lastPtr == v + 1 && t.frames[v].page == p && IndexOf(t.frames, p) == v
  {
    hide Install, LfuScan, Around, LfuDue, Block;
    Prefix(s.frames);
    ProbeFinds(s.frames, p);
    LfuChooses(s.frames, s.lastPtr % |s.frames|, k);
    var v := Around(s.lastPtr % |s.frames|, k, |s.frames|);
    Installed(Counted(s), v, p, Block(s.file, p));
    IndexIs(Pin(s, p).frames, p, v);
  }

  /** Nothing else moves that pointer: no hit, no load, no other call and no other strategy. */
  lemma PointerSteps(s: Pool, op: Op)
    requires Inv(s)
    ensures !IsFullMiss(s, op) || s.strategy != LFU ==> Step(s, op).lastPtr == s.lastPtr
  {
    match op
    case PinOp(p) => PinPointer(s, p);
    case FlushOp => Counters.FlushCounters(s, |s.frames|);
    case _ =>
  }

  lemma PinPointer(s: Pool, p: nat)
    requires Inv(s)
    ensures !(FullMiss(s, p) && s.strategy == LFU) ==> Pin(s, p).lastPtr == s.lastPtr
  {
    hide Install, LfuScan, LruScan, FifoWalk, Block;
    ProbeFinds(s.frames, p);
    Prefix(s.frames);
    if Probe(s.frames, p) == |s.frames| {
      IndexNone(s.frames, p);
      IndexNone(s.frames, NO_PAGE);
      if Victim(Counted(s)).Some? {
        Installed(Counted(s), Victim(Counted(s)).value, p, Block(s.file, p));
      }
    }
  }

  // ---------- CLOCK's hand off the array ----------

  /** Replace the last frame's page, hit any page, miss: of two frames or more the hand is then past the array. */
  lemma HitBehindLast(s: Pool, p: nat, q: nat, r: nat)
    requires FullMiss(s, p) && s.strategy == CLOCK && |s.frames| >= 2
    requires HandAt(s.lastEntry, |s.frames|) == |s.frames| - 1
    requires IndexOf(Pin(s, p).frames, q) < |s.frames| && IndexOf(Pin(s, p).frames, r) == |s.frames|
    ensures var t := Pin(Pin(s, p), q); PinRC(t, r) == OUT_OF_BOUNDS && Pin(t, r).frames == t.frames
  {
    hide Install, Block, View;
    var n, a := |s.frames|, Pin(s, p);
    ClockReplaces(s, p);
    PinKeeps(s, p);
    StillFull(s, p);
    PinHand(a, q);
    ProbeFinds(a.frames, q);
    var t := Pin(a, q);
    SamePages(a.frames, IndexOf(a.frames, q), t.frames[IndexOf(a.frames, q)]);
    PinKeeps(a, q);
    assert t.lastEntry == n + 1;
    Modular.Remainder(1, 1, n);
    ProbeFinds(t.frames, r);
    assert forall i :: 0 <= i < n ==> t.frames[i].page == a.frames[i].page >= 0;
    assert Probe(t.frames, r) == n;
  }

  lemma StillFull(s: Pool, p: nat)
    requires FullMiss(s, p)
    ensures forall i :: 0 <= i < |s.frames| ==> Pin(s, p).frames[i].page >= 0
  {
    hide Install, LfuScan, LruScan, FifoWalk, Block;
    Prefix(s.frames);
    ProbeFinds(s.frames, p);
    if Victim(Counted(s)).Some? {
      Installed(Counted(s), Victim(Counted(s)).value, p, Block(s.file, p));
    }
  }

  /** A CLOCK pool of `n` frames after pins of the pages 0 to k - 1: filled up, then replaced in order. */
  ghost predicate ClockAt(s: Pool, n: nat, k: nat) {
    && s.strategy == CLOCK && |s.frames| == n >= 2 && k <= 2 * n
    && s.lastEntry == (if k < n then 0 else k - n)
    && forall i :: 0 <= i < n ==> s.frames[i].page == if n + i < k then n + i else if i < k then i else NO_PAGE
  }

  lemma ClockOn(s: Pool, n: nat, k: nat)
    requires ClockAt(s, n, k) && k < 2 * n
    ensures ClockAt(Pin(s, k), n, k + 1)
  {
    hide Install, Block;
    if k < n {
      assert s.frames[k].page == NO_PAGE;
      assert Probe(s.frames, k) == k;
      assert Pin(s, k) == Load(s, k, k);
    } else {
      assert Probe(s.frames, k) == n;
      if k > n {
        Modular.Remainder(0, k - n, n);
      } else {
        Modular.Remainder(0, 0, n);
      }
      assert Hand(s) == k - n;
      Installed(Counted(s), k - n, k, Block(s.file, k));
    }
  }

  lemma {:induction false} ClockRound(s: Pool, n: nat, k: nat)
    requires ClockAt(s, n, 0) && k <= 2 * n
    ensures ClockAt(Run(s, Fill(k)), n, k)
  {
    hide ClockAt, Pin;
    if k > 0 {
      ClockRound(s, n, k - 1);
      SizeOf(s, n);
      RunMore(s, Fill(k - 1), PinOp(k - 1), Fill(k));
      ClockOn(Run(s, Fill(k - 1)), n, k - 1);
    }
    SizeOf(s, n);
  }

  lemma SizeOf(s: Pool, n: nat)
    requires ClockAt(s, n, 0)
    ensures |s.frames| == n > 0
  {
  }

  /**
   * In a new CLOCK pool of any size n from 2 on: pin the pages 0 to 2n - 1, the
   * last of them once more, and the next page indexes past the array.
   */
  lemma ClockOverruns(n: nat, file: seq<byte>, lastPg: nat, forced: nat, uninit: int -> int)
    requires n >= 2
    ensures var s := Run(Init(n, file, CLOCK, lastPg, forced, uninit), Fill(2 * n) + [PinOp(2 * n - 1)]);
      s.lastEntry == n + 1 && PinRC(s, 2 * n) == OUT_OF_BOUNDS && Pin(s, 2 * n).frames == s.frames
  {
    var s0 := Init(n, file, CLOCK, lastPg, forced, uninit);
    assert ClockAt(s0, n, 0);
    hide ClockAt, Pin, PinRC;
    ClockRound(s0, n, 2 * n);
    RunMore(s0, Fill(2 * n), PinOp(2 * n - 1), Fill(2 * n) + [PinOp(2 * n - 1)]);
    BehindLast(Run(s0, Fill(2 * n)), n);
  }

  lemma BehindLast(t: Pool, n: nat)
    requires ClockAt(t, n, 2 * n)
    ensures var s := Pin(t, 2 * n - 1);
      s.lastEntry == n + 1 && PinRC(s, 2 * n) == OUT_OF_BOUNDS && Pin(s, 2 * n).frames == s.frames
  {
    hide Install, Block;
    assert t.frames[n - 1].page == 2 * n - 1;
    assert Probe(t.frames, 2 * n - 1) == n - 1;
    var s := Hit(t, n - 1);
    assert Pin(t, 2 * n - 1) == s;
    Modular.Remainder(1, 1, n);
    assert forall i :: 0 <= i < n ==> s.frames[i].page == t.frames[i].page == n + i;
    assert Probe(s.frames, 2 * n) == n;
  }
}
