/** Conservation laws of the pool: fix counts against pins, writes against marks. */
module Accounting {
  import opened BlockStore
  import opened PoolSteps
  import opened Coherence
  import opened Options
  import Durability

  function FixSum(frames: seq<Frame>): int {
    if frames == [] then 0 else FixSum(frames[..|frames| - 1]) + frames[|frames| - 1].fix
  }

  function DirtyCount(frames: seq<Frame>): nat {
    if frames == [] then 0
    else DirtyCount(frames[..|frames| - 1]) + if frames[|frames| - 1].dirty then 1 else 0
  }

  lemma {:induction false} SumsUpdate(frames: seq<Frame>, i: nat, f: Frame)
    requires i < |frames|
    ensures FixSum(frames[i := f]) == FixSum(frames) - frames[i].fix + f.fix
    ensures DirtyCount(frames[i := f]) ==
      DirtyCount(frames) - (if frames[i].dirty then 1 else 0) + (if f.dirty then 1 else 0)
  {
    var n := |frames| - 1;
    if i == n {
      assert frames[i := f][..n] == frames[..n];
    } else {
      SumsUpdate(frames[..n], i, f);
      assert frames[i := f][..n] == frames[..n][i := f];
    }
  }

  // ---------- Fix counts ----------

  /** No handle naming NO_PAGE has touched the empty frames. */
  ghost predicate EmptyIdle(s: Pool) {
    forall i :: 0 <= i < |s.frames| && s.frames[i].page == NO_PAGE ==> s.frames[i].fix == 0
  }

  /** The fix count that a full-pool miss on `p` throws away; none if there is no replacement. */
  function FixLost(s: Pool, p: nat): int
    requires |s.frames| > 0
  {
    if Probe(s.frames, p) < |s.frames| then 0
    else
      match Victim(Counted(s))
      case None => 0
      case Some(v) => s.frames[v].fix
  }

  /** Whether pinning `p` makes it resident. */
  predicate Pinnable(s: Pool, p: nat)
    requires |s.frames| > 0
  {
    Probe(s.frames, p) < |s.frames| || Victim(Counted(s)).Some?
  }

  /** Every pin adds exactly one to the sum of fix counts, less what its victim was still holding. */
  lemma PinBalance(s: Pool, p: nat)
    requires Inv(s) && EmptyIdle(s)
    ensures EmptyIdle(Pin(s, p))
    ensures FixSum(Pin(s, p).frames) == FixSum(s.frames) + (if Pinnable(s, p) then 1 - FixLost(s, p) else 0)
  {
    ProbeFinds(s.frames, p);
    if Probe(s.frames, p) < |s.frames| {
      FoundOrEmptySums(s, p);
    } else {
      ReplaceSums(s, p);
    }
  }

  lemma FoundOrEmptySums(s: Pool, p: nat)
    requires Probe(s.frames, p) < |s.frames|
    ensures var i, t := Probe(s.frames, p), Pin(s, p);
      && t.frames == s.frames[i := t.frames[i]] && t.frames[i].page == p
      && t.writes == s.writes && DirtyCount(t.frames) == DirtyCount(s.frames)
      && (i == 0 || s.frames[i].page >= 0 || s.frames[i].fix == 0 ==> FixSum(t.frames) == FixSum(s.frames) + 1)
  {
    var i, t := Probe(s.frames, p), Pin(s, p);
    if s.frames[i].page < 0 {
      assert t == Load(s, i, p);
    } else {
      assert t == Hit(s, i);
    }
    SumsUpdate(s.frames, i, t.frames[i]);
  }

  lemma ReplaceSums(s: Pool, p: nat)
    requires |s.frames| > 0
    ensures var v, t := Victim(Counted(s)), Replace(s, p);
      && (v.None? ==> t.frames == s.frames)
      && (v.Some? ==> t.frames == s.frames[v.value := t.frames[v.value]] && t.frames[v.value].page == p)
      && FixSum(t.frames) == FixSum(s.frames) + (if v.Some? then 1 - s.frames[v.value].fix else 0)
      && t.writes + DirtyCount(t.frames) == s.writes + DirtyCount(s.frames)
  {
    var v := Victim(Counted(s));
    if v.Some? {
      InstalledSums(Counted(s), v.value, p, Block(s.file, p));
    }
  }

  lemma InstalledSums(s: Pool, v: nat, p: nat, data: Page)
    requires v < |s.frames|
    ensures var t := Advance(Install(s, v, p, data), v);
      && t.frames == s.frames[v := t.frames[v]] && t.frames[v].page == p && t.frames[v].fix == 1 && !t.frames[v].dirty
      && FixSum(t.frames) == FixSum(s.frames) + 1 - s.frames[v].fix
      && t.writes + DirtyCount(t.frames) == s.writes + DirtyCount(s.frames)
  {
    var f := Install(s, v, p, data).frames[v];
    SumsUpdate(s.frames, v, f);
    assert Install(s, v, p, data).frames == s.frames[v := f];
  }

  /** FIFO throws away no fix count: a frame in use is never replaced. */
  lemma FifoSparesPinned(s: Pool, p: nat, i: nat)
    requires s.strategy == FIFO && Inv(s) && i < |s.frames|
    requires s.frames[i].page >= 0 && s.frames[i].fix != 0
    ensures FixLost(s, p) == 0
    ensures var g := Pin(s, p).frames[i]; g.page == s.frames[i].page && g.data == s.frames[i].data
  {
    ProbeFinds(s.frames, p);
    if Probe(s.frames, p) == |s.frames| {
      ReplaceSums(s, p);
    }
  }

  /** LRU, CLOCK and LFU replace a frame in use: after this run page 0 is pinned once and gone. */
  lemma OthersEvictPinned(strategy: Strategy, lastPg: nat, uninit: int -> int)
    requires strategy == LRU || strategy == CLOCK || strategy == LFU
    ensures var s := Run(Init(1, [], strategy, lastPg, 0, uninit), [PinOp(0)]);
      s.frames[0].page == 0 && s.frames[0].fix == 1 && FixLost(s, 1) == 1 && Pin(s, 1).frames[0].page == 1
  {
    var s0 := Init(1, [], strategy, lastPg, 0, uninit);
    RunMore(s0, [], PinOp(0), [PinOp(0)]);
    var s := Pin(s0, 0);
    assert s == Load(s0, 0, 0);
    var t := Counted(s);
    assert Victim(t) == Some(0);
    InstalledSums(t, 0, 1, Block([], 1));
  }

  /** Pins that installed or hit their page, less unpins that found theirs. */
  function NetPins(s: Pool, ops: seq<Op>): int
    requires |s.frames| > 0
  {
    if ops == [] then 0
    else
      var before := ops[..|ops| - 1];
      var t := Run(s, before);
      NetPins(s, before) +
      match ops[|ops| - 1]
      case PinOp(p) => if Pinnable(t, p) then 1 else 0
      case UnpinOp(h) => if FoundRC(t, h) == OK then -1 else 0
      case _ => 0
  }

  /** The fix counts that the replacements of a run throw away. */
  function Thrown(s: Pool, ops: seq<Op>): int
    requires |s.frames| > 0
  {
    if ops == [] then 0
    else
      var before, op := ops[..|ops| - 1], ops[|ops| - 1];
      Thrown(s, before) + if op.PinOp? then FixLost(Run(s, before), op.page) else 0
  }

  /** Handles name pages, never NO_PAGE. */
  predicate NamesPages(ops: seq<Op>) {
    forall k :: 0 <= k < |ops| && ops[k].UnpinOp? ==> ops[k].handle >= 0
  }

  /** On every run of any strategy the fix counts add up to pins minus unpins, less what replacements threw away. */
  lemma {:induction false} FixBalance(s: Pool, ops: seq<Op>)
    requires Inv(s) && EmptyIdle(s) && NamesPages(ops)
    ensures EmptyIdle(Run(s, ops))
    ensures FixSum(Run(s, ops).frames) == FixSum(s.frames) + NetPins(s, ops) - Thrown(s, ops)
  {
    hide Step, EmptyIdle, FixSum, FixLost, Pinnable;
    if ops != [] {
      var before, op := ops[..|ops| - 1], ops[|ops| - 1];
      FixBalance(s, before);
      RunCoherent(s, before);
      StepBalance(Run(s, before), op);
    }
  }

  lemma StepBalance(s: Pool, op: Op)
    requires Inv(s) && EmptyIdle(s)
    requires op.UnpinOp? ==> op.handle >= 0
    ensures EmptyIdle(Step(s, op))
    ensures FixSum(Step(s, op).frames) == FixSum(s.frames) +
      match op
      case PinOp(p) => (if Pinnable(s, p) then 1 else 0) - FixLost(s, p)
      case UnpinOp(h) => if FoundRC(s, h) == OK then -1 else 0
      case _ => 0
  {
    hide Pin, FlushTo, FixSum, FixLost, Pinnable, DirtyCount;
    match op
    case PinOp(p) =>
      PinBalance(s, p);
      if !Pinnable(s, p) {
        LostOnlyIfPinned(s, p);
      }
    case FlushOp =>
      FlushIdle(s);
      FlushSums(s, |s.frames|);
    case UnpinOp(h) => FoundSums(s, h, Unpin(s, h));
    case MarkOp(h) => FoundSums(s, h, MarkDirty(s, h));
    case ForceOp(h) => FoundSums(s, h, Force(s, h));
    case WriteOp(p, data) => FoundSums(s, p, Write(s, p, data));
  }

  lemma LostOnlyIfPinned(s: Pool, p: nat)
    requires |s.frames| > 0 && !Pinnable(s, p)
    ensures FixLost(s, p) == 0
  {
  }

  /** On every FIFO run nothing is thrown away. */
  lemma {:induction false} FifoFixBalance(s: Pool, ops: seq<Op>)
    requires s.strategy == FIFO && Inv(s) && EmptyIdle(s) && NamesPages(ops)
    ensures EmptyIdle(Run(s, ops))
    ensures FixSum(Run(s, ops).frames) == FixSum(s.frames) + NetPins(s, ops)
  {
    FixBalance(s, ops);
    FifoThrowsNothing(s, ops);
  }

  lemma {:induction false} FifoThrowsNothing(s: Pool, ops: seq<Op>)
    requires s.strategy == FIFO && |s.frames| > 0
    ensures Thrown(s, ops) == 0
  {
    hide FixLost;
    if ops != [] {
      var before, op := ops[..|ops| - 1], ops[|ops| - 1];
      FifoThrowsNothing(s, before);
      if op.PinOp? {
        FifoLosesNothing(Run(s, before), op.page);
      }
    }
  }

  lemma FifoLosesNothing(s: Pool, p: nat)
    requires s.strategy == FIFO && |s.frames| > 0
    ensures FixLost(s, p) == 0
  {
  }

  /** A step on the one frame that holds page `h`. */
  lemma FoundSums(s: Pool, h: int, t: Pool)
    requires |s.frames| == |t.frames|
    requires var i := IndexOf(s.frames, h);
      if i == |s.frames| then t.frames == s.frames else t.frames == s.frames[i := t.frames[i]]
    ensures var i := IndexOf(s.frames, h);
      && FixSum(t.frames) == FixSum(s.frames) + (if i == |s.frames| then 0 else t.frames[i].fix - s.frames[i].fix)
      && DirtyCount(t.frames) == DirtyCount(s.frames)
        + (if i == |s.frames| then 0 else (if t.frames[i].dirty then 1 else 0) - (if s.frames[i].dirty then 1 else 0))
  {
    var i := IndexOf(s.frames, h);
    if i < |s.frames| {
      SumsUpdate(s.frames, i, t.frames[i]);
    }
  }

  lemma FlushIdle(s: Pool)
    requires EmptyIdle(s)
    ensures EmptyIdle(Flush(s))
  {
    hide FlushTo;
    forall i | 0 <= i < |s.frames|
      ensures Flush(s).frames[i].page == s.frames[i].page && Flush(s).frames[i].fix == s.frames[i].fix
    {
      Durability.FlushFrame(s, |s.frames|, i);
    }
  }

  lemma {:induction false} FlushSums(s: Pool, n: nat)
    requires n <= |s.frames|
    ensures FixSum(FlushTo(s, n).frames) == FixSum(s.frames)
    ensures FlushTo(s, n).writes + DirtyCount(FlushTo(s, n).frames) == s.writes + DirtyCount(s.frames)
  {
    hide FixSum, DirtyCount;
    if n > 0 {
      FlushSums(s, n - 1);
      var t := FlushTo(s, n - 1);
      SumsUpdate(t.frames, n - 1, t.frames[n - 1].(dirty := false));
    }
  }

  // ---------- Writes ----------

  /** Clean frames that a step marks dirty, less dirty frames that forcePage cleans outside pgN's count. */
  function Owed(s: Pool, op: Op): int {
    var h := match op
      case MarkOp(h) => h
      case ForceOp(h) => h
      case WriteOp(p, _) => p
      case _ => NO_PAGE;
    var i := IndexOf(s.frames, h);
    if i == |s.frames| then 0
    else if op.ForceOp? then (if s.frames[i].dirty then -1 else 0)
    else if op.MarkOp? || op.WriteOp? then (if s.frames[i].dirty then 0 else 1)
    else 0
  }

  /** Under any strategy, writes done plus writes still due change only by marking and forcing. */
  lemma StepWrites(s: Pool, op: Op)
    requires Inv(s)
    ensures Step(s, op).writes + DirtyCount(Step(s, op).frames) == s.writes + DirtyCount(s.frames) + Owed(s, op)
  {
    match op
    case PinOp(p) => PinWrites(s, p);
    case FlushOp => FlushSums(s, |s.frames|);
    case UnpinOp(h) => FoundSums(s, h, Unpin(s, h));
    case MarkOp(h) => FoundSums(s, h, MarkDirty(s, h));
    case ForceOp(h) => FoundSums(s, h, Force(s, h));
    case WriteOp(p, data) => FoundSums(s, p, Write(s, p, data));
  }

  lemma PinWrites(s: Pool, p: nat)
    requires |s.frames| > 0
    ensures Pin(s, p).writes + DirtyCount(Pin(s, p).frames) == s.writes + DirtyCount(s.frames)
  {
    if Probe(s.frames, p) < |s.frames| {
      FoundOrEmptySums(s, p);
    } else {
      ReplaceSums(s, p);
    }
  }

  /** The calls that set a dirty bit on some frame. */
  function Marks(s: Pool, ops: seq<Op>): nat
    requires |s.frames| > 0
  {
    if ops == [] then 0
    else
      var before, op := ops[..|ops| - 1], ops[|ops| - 1];
      var t := Run(s, before);
      var h := match op case MarkOp(h) => h case WriteOp(p, _) => p case _ => NO_PAGE;
      Marks(s, before) + if (op.MarkOp? || op.WriteOp?) && FoundRC(t, h) == OK then 1 else 0
  }

  /** On every run pgN plus the dirty frames never exceeds the successful marks. */
  lemma {:induction false} WritesBounded(s: Pool, ops: seq<Op>)
    requires Inv(s)
    ensures Run(s, ops).writes + DirtyCount(Run(s, ops).frames) <= s.writes + DirtyCount(s.frames) + Marks(s, ops)
  {
    if ops != [] {
      var before := ops[..|ops| - 1];
      WritesBounded(s, before);
      RunCoherent(s, before);
      StepWrites(Run(s, before), ops[|ops| - 1]);
    }
  }
}
