/** The counters of `pageInfo` and of the frames as counts of what happened, under every strategy. */
module Counters {
  import opened Bytes
  import opened BlockStore
  import opened PoolSteps
  import opened Coherence
  import opened FifoQueue
  import opened Accounting
  import opened Options
  import Durability

  // ---------- One step ----------

  /** A pin that does not find its page. */
  ghost predicate IsMiss(s: Pool, op: Op) {
    op.PinOp? && IndexOf(s.frames, op.page) == |s.frames|
  }

  /** The load into the first frame, which touches no counter. */
  ghost predicate IsFirst(s: Pool, op: Op) {
    op.PinOp? && |s.frames| > 0 && s.frames[0].page == NO_PAGE
  }

  /** lastPg counts pins, pageCounter misses, both but for the first load; writeCnt counts forced pages. */
  lemma CounterSteps(s: Pool, op: Op)
    requires Inv(s)
    ensures var t := Step(s, op);
      && t.lastPg == s.lastPg + (if op.PinOp? && !IsFirst(s, op) then 1 else 0)
      && t.pageCounter == s.pageCounter + (if IsMiss(s, op) && !IsFirst(s, op) then 1 else 0)
      && t.forced == s.forced + (if op.ForceOp? && FoundRC(s, op.handle) == OK then 1 else 0)
  {
    match op
    case PinOp(p) => PinCounters(s, p);
    case FlushOp => FlushCounters(s, |s.frames|);
    case _ =>
  }

  lemma PinCounters(s: Pool, p: nat)
    requires Inv(s)
    ensures var t, first := Pin(s, p), s.frames[0].page == NO_PAGE;
      && t.lastPg == s.lastPg + (if first then 0 else 1) && t.forced == s.forced
      && t.pageCounter == s.pageCounter + (if IndexOf(s.frames, p) == |s.frames| && !first then 1 else 0)
  {
    hide Install, LfuScan, LruScan, FifoWalk, Block;
    ProbeFinds(s.frames, p);
    if Probe(s.frames, p) == |s.frames| {
      IndexNone(s.frames, p);
      if Victim(Counted(s)).Some? {
        Installed(Counted(s), Victim(Counted(s)).value, p, Block(s.file, p));
      }
    }
  }

  lemma {:induction false} FlushCounters(s: Pool, n: nat)
    requires n <= |s.frames|
    ensures var t := FlushTo(s, n);
      && t.lastPg == s.lastPg && t.pageCounter == s.pageCounter && t.forced == s.forced
      && t.lastEntry == s.lastEntry && t.lastPtr == s.lastPtr
  {
    if n > 0 {
      FlushCounters(s, n - 1);
    }
  }

  /** The frame that a hit touches. */
  lemma HitFields(s: Pool, p: nat, i: nat)
    requires Inv(s) && IndexOf(s.frames, p) == i < |s.frames|
    ensures var f, t := s.frames[i], Pin(s, p);
      && t.file == s.file && t.frames == s.frames[i := t.frames[i]]
      && t.frames[i].page == p && t.frames[i].data == f.data && t.frames[i].dirty == f.dirty
      && t.frames[i].fix == f.fix + 1
      && t.frames[i].lru == (if s.strategy == LRU || s.strategy == CLOCK then 1 else f.lru)
      && t.frames[i].lfu == (if s.strategy == LFU then 1 else f.lfu)
  {
    ProbeFinds(s.frames, p);
  }

  /** The frame that a load fills: the first empty one. */
  lemma LoadFields(s: Pool, p: nat, i: nat)
    requires Inv(s) && IndexOf(s.frames, p) == |s.frames| && Occupied(s.frames) == i < |s.frames|
    ensures var f, t := s.frames[i], Pin(s, p);
      && t.file == s.file && t.frames == s.frames[i := t.frames[i]]
      && t.frames[i].page == p && t.frames[i].data == Block(s.file, p) && t.frames[i].dirty == f.dirty
      && t.frames[i].fix == (if i == 0 then f.fix + 1 else 1) && t.frames[i].lfu == 0
      && (i == 0 || (s.strategy != LRU && s.strategy != CLOCK) ==> t.frames[i].lru == 0)
      && (i > 0 && s.strategy == LRU ==> t.frames[i].lru == t.lastPg)
      && (i > 0 && s.strategy == CLOCK ==> t.frames[i].lru == 1)
  {
    hide Block;
    ProbeFinds(s.frames, p);
    Prefix(s.frames);
    assert Probe(s.frames, p) == i;
  }

  // ---------- Runs ----------

  function Pins(ops: seq<Op>): nat {
    if ops == [] then 0 else Pins(ops[..|ops| - 1]) + if ops[|ops| - 1].PinOp? then 1 else 0
  }

  ghost function Misses(s: Pool, ops: seq<Op>): nat
    requires |s.frames| > 0
  {
    if ops == [] then 0
    else
      var before := ops[..|ops| - 1];
      Misses(s, before) + if IsMiss(Run(s, before), ops[|ops| - 1]) then 1 else 0
  }

  ghost function Forces(s: Pool, ops: seq<Op>): nat
    requires |s.frames| > 0
  {
    if ops == [] then 0
    else
      var before, op := ops[..|ops| - 1], ops[|ops| - 1];
      Forces(s, before) + if op.ForceOp? && FoundRC(Run(s, before), op.handle) == OK then 1 else 0
  }

  /** Less one, but not below 0. */
  function LessOne(n: nat): nat {
    if n == 0 then 0 else n - 1
  }

  /** From a new pool on, under every strategy and on every run. */
  lemma {:induction false} CounterRun(n: nat, file: seq<byte>, strategy: Strategy, lastPg: nat, forced: nat,
                                      uninit: int -> int, ops: seq<Op>)
    requires n > 0
    ensures var s := Init(n, file, strategy, lastPg, forced, uninit); var t := Run(s, ops);
      && Inv(t) && (t.frames[0].page == NO_PAGE <==> Pins(ops) == 0) && (Misses(s, ops) == 0 <==> Pins(ops) == 0)
      && t.lastPg == lastPg + LessOne(Pins(ops))
      && t.pageCounter == LessOne(Misses(s, ops))
      && t.forced == forced + Forces(s, ops)
  {
    hide Step, View, Block;
    var s := Init(n, file, strategy, lastPg, forced, uninit);
    InitInv(n, file, strategy, lastPg, forced, uninit);
    RunCoherent(s, ops);
    if ops != [] {
      var before, op := ops[..|ops| - 1], ops[|ops| - 1];
      CounterRun(n, file, strategy, lastPg, forced, uninit, before);
      CounterSteps(Run(s, before), op);
      FirstFrame(Run(s, before), op);
    }
  }

  /** Frame 0 stays occupied, and a pin occupies it; into an empty pool every pin is a miss. */
  lemma FirstFrame(s: Pool, op: Op)
    requires Inv(s)
    ensures Step(s, op).frames[0].page == NO_PAGE <==> s.frames[0].page == NO_PAGE && !op.PinOp?
    ensures op.PinOp? && s.frames[0].page == NO_PAGE ==> IndexOf(s.frames, op.page) == |s.frames|
  {
    match op
    case PinOp(p) => PinFirst(s, p);
    case FlushOp => Durability.FlushFrame(s, |s.frames|, 0);
    case _ =>
  }

  lemma PinFirst(s: Pool, p: nat)
    requires Inv(s)
    ensures Pin(s, p).frames[0].page != NO_PAGE
    ensures s.frames[0].page == NO_PAGE ==> IndexOf(s.frames, p) == |s.frames|
  {
    hide Install, LfuScan, LruScan, FifoWalk, Block;
    ProbeFinds(s.frames, p);
    if s.frames[0].page == NO_PAGE {
      IndexNone(s.frames, p);
    }
    if Probe(s.frames, p) == |s.frames| && Victim(Counted(s)).Some? {
      Installed(Counted(s), Victim(Counted(s)).value, p, Block(s.file, p));
    }
  }

  /** Writes that the steps of a run make due, less those that forcePage takes over. */
  ghost function OwedBy(s: Pool, ops: seq<Op>): int
    requires |s.frames| > 0
  {
    if ops == [] then 0
    else
      var before := ops[..|ops| - 1];
      OwedBy(s, before) + Owed(Run(s, before), ops[|ops| - 1])
  }

  /** pgN is, on every run, the writes made due less those still due: nothing is written twice or for nothing. */
  lemma {:induction false} WritesAre(s: Pool, ops: seq<Op>)
    requires Inv(s)
    ensures Run(s, ops).writes == s.writes + DirtyCount(s.frames) + OwedBy(s, ops) - DirtyCount(Run(s, ops).frames)
  {
    hide Step, DirtyCount, Owed;
    if ops != [] {
      var before := ops[..|ops| - 1];
      WritesAre(s, before);
      RunCoherent(s, before);
      StepWrites(Run(s, before), ops[|ops| - 1]);
    }
  }

  /** So from a new pool, where none is due and none made. */
  lemma NewWritesAre(n: nat, file: seq<byte>, strategy: Strategy, lastPg: nat, forced: nat, uninit: int -> int,
                     ops: seq<Op>)
    requires n > 0
    ensures var s := Init(n, file, strategy, lastPg, forced, uninit);
      Run(s, ops).writes == OwedBy(s, ops) - DirtyCount(Run(s, ops).frames)
  {
    var s := Init(n, file, strategy, lastPg, forced, uninit);
    InitInv(n, file, strategy, lastPg, forced, uninit);
    AllClean(s.frames);
    WritesAre(s, ops);
  }

  lemma {:induction false} AllClean(frames: seq<Frame>)
    requires forall i :: 0 <= i < |frames| ==> !frames[i].dirty
    ensures DirtyCount(frames) == 0
  {
    if frames != [] {
      AllClean(frames[..|frames| - 1]);
    }
  }

  /** From a new pool with no replacements, CLOCK stamps 1 on every hit and on every load but the first. */
  lemma ClockStamp(s: Pool, op: Op, i: nat)
    requires Inv(s) && s.strategy == CLOCK && i < |s.frames|
    requires op.PinOp? ==> Probe(s.frames, op.page) < |s.frames|
    ensures var f, g := s.frames[i], Step(s, op).frames[i];
      && (f.page != NO_PAGE ==> g.lru == if op.PinOp? && f.page == op.page then 1 else f.lru)
      && (f.page == NO_PAGE != g.page ==> g.lru == if i == 0 then 0 else 1)
  {
    hide View, Block;
    match op
    case PinOp(p) => ProbeFinds(s.frames, p);
    case FlushOp => Durability.FlushFrame(s, |s.frames|, i);
    case _ =>
  }

  // ---------- What forcePage writes ----------

  /** forcePage writes its page's block whether it is dirty or not, and makes the file as long as that takes. */
  lemma ForceWrites(s: Pool, p: nat)
    requires Inv(s) && IndexOf(s.frames, p) < |s.frames|
    ensures var t, i := Force(s, p), IndexOf(s.frames, p);
      && Block(t.file, p) == View(s, p) && !t.frames[i].dirty
      && |t.file| == (if |s.file| < 4096 * p + 4096 then 4096 * p + 4096 else |s.file|)
  {
    hide Written, Block;
    var f := s.frames[IndexOf(s.frames, p)];
    WrittenBlock(s.file, p, f.data, p);
    WrittenLength(s.file, p, f.data);
  }
}
