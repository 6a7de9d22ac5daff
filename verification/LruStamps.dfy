/** The stamps LRU as written has while its pool fills up, and the frame it then replaces first. */
module LruStamps {
  import opened BlockStore
  import opened PoolSteps
  import opened Coherence
  import opened Strategies
  import opened Options
  import Durability
  import opened Counters
  import FifoQueue

  /** Every pin of the run finds its page or an empty frame. */
  ghost predicate NeverFull(s: Pool, ops: seq<Op>)
    requires |s.frames| > 0
  {
    forall k :: 0 <= k < |ops| && ops[k].PinOp? ==> Probe(Run(s, ops[..k]).frames, ops[k].page) < |s.frames|
  }

  /** How many pins the run had made when frame `i` took its page in; 0 if it has none. */
  ghost function FilledAt(s: Pool, ops: seq<Op>, i: nat): nat
    requires i < |s.frames|
  {
    if ops == [] || Run(s, ops).frames[i].page == NO_PAGE then 0
    else if Run(s, ops[..|ops| - 1]).frames[i].page == NO_PAGE then Pins(ops)
    else FilledAt(s, ops[..|ops| - 1], i)
  }

  /** 1 once hit; otherwise 0 in frame 0, and elsewhere where the counter stood at the load. */
  ghost function Stamp(s: Pool, ops: seq<Op>, i: nat): int
    requires i < |s.frames|
  {
    if i in HitFrames(s, ops) then 1 else if i == 0 then 0 else s.lastPg + FilledAt(s, ops, i) - 1
  }

  /** The pin that loads into frame 0; it moves no counter. */
  predicate FillsFirst(t: Pool, p: nat) {
    t.frames != [] && Probe(t.frames, p) == 0 && t.frames[0].page == NO_PAGE
  }

  /** One step, on counter, pages and stamps. */
  lemma StampStep(t: Pool, op: Op, i: nat)
    requires Inv(t) && t.strategy == LRU && i < |t.frames|
    requires op.PinOp? ==> Probe(t.frames, op.page) < |t.frames|
    ensures var u := Step(t, op); var f, g := t.frames[i], u.frames[i];
      && u.lastPg == t.lastPg + (if op.PinOp? && !FillsFirst(t, op.page) then 1 else 0)
      && (f.page != NO_PAGE ==> g.page == f.page && g.lru == if op.PinOp? && f.page == op.page then 1 else f.lru)
      && (f.page == NO_PAGE == g.page ==> g.lru == f.lru)
      && (f.page == NO_PAGE != g.page ==> op.PinOp? && i == Probe(t.frames, op.page))
      && (f.page == NO_PAGE != g.page ==> g.lru == if i == 0 then 0 else t.lastPg + 1)
  {
    hide View, Block;
    match op
    case PinOp(p) =>
      ProbeFinds(t.frames, p);
    case FlushOp =>
      Durability.FlushFrame(t, |t.frames|, i);
      FlushCounters(t, |t.frames|);
    case _ =>
  }

  /** A pool as initBufferPool leaves it. */
  ghost predicate Fresh(s: Pool) {
    && |s.frames| > 0 && s.strategy == LRU
    && forall i :: 0 <= i < |s.frames| ==> s.frames[i].page == NO_PAGE && s.frames[i].lru == 0
  }

  /** From an empty pool the counter lags one behind the pins, for the load into frame 0. */
  lemma {:induction false} CounterRun(s: Pool, ops: seq<Op>)
    requires Fresh(s) && NeverFull(s, ops)
    ensures Inv(Run(s, ops))
    ensures Run(s, ops).frames[0].page == NO_PAGE <==> Pins(ops) == 0
    ensures Run(s, ops).lastPg == s.lastPg + (if Pins(ops) == 0 then 0 else Pins(ops) - 1)
  {
    hide Step, View, Block;
    FreshInv(s);
    RunCoherent(s, ops);
    if ops != [] {
      var before, op := ops[..|ops| - 1], ops[|ops| - 1];
      var t := Run(s, before);
      RunCoherent(s, before);
      StillRoomy(s, ops);
      CounterRun(s, before);
      StampStep(t, op, 0);
      if op.PinOp? {
        PinFillsFirst(t, op.page);
      }
    }
  }

  lemma FreshInv(s: Pool)
    requires Fresh(s)
    ensures Inv(s)
  {
  }

  lemma StillRoomy(s: Pool, ops: seq<Op>)
    requires |s.frames| > 0 && NeverFull(s, ops) && ops != []
    ensures NeverFull(s, ops[..|ops| - 1])
  {
    var before := ops[..|ops| - 1];
    forall k | 0 <= k < |before| && before[k].PinOp?
      ensures Probe(Run(s, before[..k]).frames, before[k].page) < |s.frames|
    {
      assert before[..k] == ops[..k] && before[k] == ops[k];
    }
  }

  /** After a pin frame 0 is occupied; if it was empty the search stopped there. */
  lemma PinFillsFirst(t: Pool, p: nat)
    requires Inv(t) && Probe(t.frames, p) < |t.frames|
    ensures Step(t, PinOp(p)).frames[0].page != NO_PAGE
    ensures t.frames[0].page == NO_PAGE ==> Probe(t.frames, p) == 0
  {
  }

  /**
   * On every run without replacements a frame's stamp is 1 once it was hit;
   * otherwise 0 in frame 0, and elsewhere the number of pins up to its load.
   */
  lemma {:induction false} StampsAre(s: Pool, ops: seq<Op>, i: nat)
    requires Fresh(s) && NeverFull(s, ops) && i < |s.frames|
    ensures var t := Run(s, ops);
      && (t.frames[i].page == NO_PAGE ==> i !in HitFrames(s, ops) && t.frames[i].lru == 0)
      && (t.frames[i].page != NO_PAGE ==> t.frames[i].lru == Stamp(s, ops, i))
  {
    hide Step, View, Block;
    if ops != [] {
      var before, op := ops[..|ops| - 1], ops[|ops| - 1];
      var t := Run(s, before);
      StillRoomy(s, ops);
      StampsAre(s, before, i);
      CounterRun(s, before);
      FreshInv(s);
      RunCoherent(s, before);
      StampStep(t, op, i);
      if op.PinOp? {
        HitIsFound(t, op.page, i);
        PinFillsFirst(t, op.page);
      }
    }
  }

  lemma HitIsFound(t: Pool, p: nat, i: nat)
    requires Inv(t) && i < |t.frames|
    ensures IndexOf(t.frames, p) == i <==> t.frames[i].page == p
  {
    if t.frames[i].page == p {
      IndexIs(t.frames, p, i);
    }
  }

  /** Frame `i` is filled after at least `i` pins filled the frames before it. */
  lemma {:induction false} FilledLate(s: Pool, ops: seq<Op>, i: nat)
    requires Fresh(s) && NeverFull(s, ops) && i < |s.frames|
    ensures Run(s, ops).frames[i].page != NO_PAGE ==> i < FilledAt(s, ops, i) <= Pins(ops)
  {
    hide Step, View, Block;
    if ops != [] {
      var before, op := ops[..|ops| - 1], ops[|ops| - 1];
      var t := Run(s, before);
      StillRoomy(s, ops);
      FilledLate(s, before, i);
      FreshInv(s);
      RunCoherent(s, before);
      StampStep(t, op, i);
      if i > 0 && t.frames[i].page == NO_PAGE && Run(s, ops).frames[i].page != NO_PAGE {
        assert t.frames[i - 1].page != NO_PAGE;
        FilledLate(s, before, i - 1);
      }
    }
  }

  /**
   * The first victim of LRU as written: frame 0 if no pin ever hit it; else the
   * hit frame of highest index, whatever was used last. The one exception: with
   * only frame 0 hit, frame 1 if the first two pins loaded the two and `lastPg`
   * started at 0, for then its load stamp is 1 as well.
   */
  lemma FirstVictim(s: Pool, ops: seq<Op>)
    requires Fresh(s) && NeverFull(s, ops)
    requires FifoQueue.Occupied(Run(s, ops).frames) == |s.frames|
    ensures var v, hits := LruScan(Run(s, ops).frames, |s.frames|), HitFrames(s, ops);
      && Victim(Counted(Run(s, ops))) == Some(v)
      && (0 !in hits ==> v == 0)
      && (0 in hits ==> forall j :: j in hits && j < |s.frames| ==> j <= v)
      && (0 in hits && v !in hits ==> v == 1 && hits == {0} && s.lastPg == 0 && FilledAt(s, ops, 1) == 2)
      && (hits == {0} && |s.frames| > 1 && s.lastPg == 0 && FilledAt(s, ops, 1) == 2 ==> v == 1)
  {
    hide LruScan, View, Block, Run, NeverFull, FilledAt, HitFrames;
    var t, n, hits := Run(s, ops), |s.frames|, HitFrames(s, ops);
    var v := LruScan(t.frames, n);
    LruIsLastMinimum(t.frames, n);
    HitsInside(s, ops);
    forall i | 0 <= i < n
      ensures t.frames[i].lru == Stamp(s, ops, i)
      ensures i < FilledAt(s, ops, i)
    {
      StampsAre(s, ops, i);
      FilledLate(s, ops, i);
    }
    assert forall j :: j in hits ==> t.frames[j].lru == 1;
    if 0 in hits && v !in hits {
      assert t.frames[v].lru <= t.frames[0].lru;
      assert hits == {0} by {
        forall j | j in hits
          ensures j == 0
        {
          assert t.frames[v].lru <= t.frames[j].lru;
        }
      }
    }
  }

  lemma {:induction false} HitsInside(s: Pool, ops: seq<Op>)
    requires |s.frames| > 0
    ensures forall j :: j in HitFrames(s, ops) ==> j < |s.frames|
  {
    if ops != [] {
      HitsInside(s, ops[..|ops| - 1]);
    }
  }
}
