/** Which page each strategy throws out at a miss, and when that spares the frames in use. */
module Evictions {
  import opened BlockStore
  import opened PoolSteps
  import opened Coherence
  import opened Accounting
  import opened Strategies
  import opened Options
  import FifoQueue
  import Modular

  /** A full-pool miss on `p`. */
  ghost predicate FullMiss(s: Pool, p: nat) {
    Inv(s) && FifoQueue.Occupied(s.frames) == |s.frames| == IndexOf(s.frames, p)
  }

  // ---------- The page in the victim's frame, and no other ----------

  /** Whatever the strategy: a page goes exactly when its frame is the victim. */
  lemma GoesIffVictim(s: Pool, p: nat, i: nat)
    requires FullMiss(s, p) && i < |s.frames|
    ensures IndexOf(Pin(s, p).frames, s.frames[i].page) == |s.frames| <==> Victim(Counted(s)) == Some(i)
  {
    hide Install, Victim, Block;
    FifoQueue.Prefix(s.frames);
    ProbeFinds(s.frames, p);
    var t, q := Pin(s, p), s.frames[i].page;
    match Victim(Counted(s)) {
      case None => IndexIs(t.frames, q, i);
      case Some(v) =>
        Installed(Counted(s), v, p, Block(s.file, p));
        if v == i {
          IndexNone(t.frames, q);
        } else {
          IndexIs(t.frames, q, i);
        }
    }
  }

  /** LRU as written throws out a page, used longest ago or not, exactly when its frame's stamp says so. */
  lemma LruEvictsIff(s: Pool, q: nat, p: nat)
    requires FullMiss(s, p) && s.strategy == LRU && IndexOf(s.frames, q) < |s.frames|
    ensures IndexOf(Pin(s, p).frames, q) == |s.frames| <==> LruDue(s.frames, IndexOf(s.frames, q))
  {
    GoesIffVictim(s, p, IndexOf(s.frames, q));
    LruChooses(s.frames, IndexOf(s.frames, q));
  }

  /** CLOCK throws out the page under its hand. */
  lemma ClockEvictsIff(s: Pool, q: nat, p: nat)
    requires FullMiss(s, p) && s.strategy == CLOCK && IndexOf(s.frames, q) < |s.frames|
    ensures IndexOf(Pin(s, p).frames, q) == |s.frames| <==> Hand(s) == IndexOf(s.frames, q)
  {
    GoesIffVictim(s, p, IndexOf(s.frames, q));
  }

  /** No frame has a smaller count than the one of round `k`, and those of later rounds have larger ones. */
  ghost predicate LfuDue(frames: seq<Frame>, start: nat, k: nat)
    requires frames != []
  {
    var n := |frames|;
    && (forall j :: 1 <= j <= n ==> frames[Around(start, k, n)].lfu <= frames[Around(start, j, n)].lfu)
    && (forall j :: k < j <= n ==> frames[Around(start, k, n)].lfu < frames[Around(start, j, n)].lfu)
  }

  lemma LfuChooses(frames: seq<Frame>, start: nat, k: nat)
    requires start < |frames| && 1 <= k <= |frames|
    ensures LfuScan(frames, start, |frames|) == Around(start, k, |frames|) <==> LfuDue(frames, start, k)
  {
    hide LfuScan, Around;
    var n := |frames|;
    var m := LfuIsLastVisited(frames, start, n);
    RoundsMeet(start, n);
    if Around(start, m, n) == Around(start, k, n) {
      RoundsApart(start, m, k, n);
    }
  }

  /** Two of the rounds 1 to n visit two frames. */
  lemma RoundsApart(start: nat, j: nat, k: nat, n: nat)
    requires start < n && j <= n && 1 <= k <= n && Around(start, j, n) == Around(start, k, n)
    ensures j == k || (j == 0 && k == n)
  {
    Modular.Apart(start + j, start + k, n);
  }

  /** LFU throws out a page exactly when the round that visits its frame is due. */
  lemma LfuEvictsIff(s: Pool, q: nat, p: nat)
    requires FullMiss(s, p) && s.strategy == LFU && IndexOf(s.frames, q) < |s.frames|
    ensures var n := |s.frames|; var start := s.lastPtr % n;
      IndexOf(Pin(s, p).frames, q) == n <==> LfuDue(s.frames, start, Visit(start, IndexOf(s.frames, q), n))
  {
    hide Pin, LfuDue, LfuScan, Around;
    var n, i := |s.frames|, IndexOf(s.frames, q);
    var start := s.lastPtr % n;
    GoesIffVictim(s, p, i);
    VisitsAll(start, i, n);
    LfuChooses(s.frames, start, Visit(start, i, n));
  }

  // ---------- Frames in use ----------

  /** Pinning `p` throws out no page that is in use. */
  ghost predicate Spares(s: Pool, p: nat)
    requires |s.frames| > 0
  {
    forall i :: 0 <= i < |s.frames| && s.frames[i].page >= 0 && s.frames[i].fix != 0 ==>
      IndexOf(Pin(s, p).frames, s.frames[i].page) < |s.frames|
  }

  /** What a strategy other than FIFO needs of the fix counts at a full-pool miss. */
  ghost predicate DueIdle(s: Pool)
    requires |s.frames| > 0
  {
    var n := |s.frames|;
    match s.strategy
    case FIFO => true
    case LRU => forall i :: 0 <= i < n && LruDue(s.frames, i) ==> s.frames[i].fix == 0
    case CLOCK => Hand(s) < n ==> s.frames[Hand(s)].fix == 0
    case LFU =>
      var start := s.lastPtr % n;
      forall i :: 0 <= i < n && LfuDue(s.frames, start, Visit(start, i, n)) ==> s.frames[i].fix == 0
    case LRU_K => true
  }

  /** The victim is idle exactly when the frame due is. */
  lemma VictimIdle(s: Pool)
    requires |s.frames| > 0
    ensures DueIdle(s) <==> (Victim(Counted(s)).Some? ==> s.frames[Victim(Counted(s)).value].fix == 0)
  {
    hide LfuDue, LfuScan, LruScan, Around, Visit, LruDue;
    var n := |s.frames|;
    match s.strategy
    case LRU =>
      forall i | 0 <= i < n
        ensures LruDue(s.frames, i) <==> LruScan(s.frames, n) == i
      {
        LruChooses(s.frames, i);
      }
    case LFU =>
      var start := s.lastPtr % n;
      forall i | 0 <= i < n
        ensures LfuDue(s.frames, start, Visit(start, i, n)) <==> LfuScan(s.frames, start, n) == i
      {
        VisitsAll(start, i, n);
        LfuChooses(s.frames, start, Visit(start, i, n));
      }
    case _ =>
  }

  /**
   * Under every strategy a pin spares all frames in use exactly when the page is
   * resident, a frame is empty, or the frame due to go is idle; and exactly when
   * it throws no fix count away.
   */
  lemma SparesIff(s: Pool, p: nat)
    requires Inv(s)
    ensures Spares(s, p) <==> Probe(s.frames, p) < |s.frames| || DueIdle(s)
    ensures Spares(s, p) <==> FixLost(s, p) == 0
  {
    hide Pin, Victim, DueIdle;
    VictimIdle(s);
    ProbeFinds(s.frames, p);
    if Probe(s.frames, p) < |s.frames| {
      NothingGoes(s, p);
    } else {
      IndexNone(s.frames, NO_PAGE);
      IndexNone(s.frames, p);
      forall i | 0 <= i < |s.frames|
        ensures IndexOf(Pin(s, p).frames, s.frames[i].page) == |s.frames| <==> Victim(Counted(s)) == Some(i)
      {
        GoesIffVictim(s, p, i);
      }
    }
  }

  lemma NothingGoes(s: Pool, p: nat)
    requires Inv(s) && Probe(s.frames, p) < |s.frames|
    ensures Spares(s, p)
  {
    var i := Probe(s.frames, p);
    ProbeFinds(s.frames, p);
    FoundOrEmptySums(s, p);
    var t := Pin(s, p);
    forall j | 0 <= j < |s.frames| && s.frames[j].page >= 0
      ensures IndexOf(t.frames, s.frames[j].page) < |s.frames|
    {
      assert t.frames[j].page == s.frames[j].page;
    }
  }

  /** Every pin of the run spares the frames in use. */
  ghost predicate AlwaysSpares(s: Pool, ops: seq<Op>)
    requires |s.frames| > 0
  {
    forall k :: 0 <= k < |ops| && ops[k].PinOp? ==> Spares(Run(s, ops[..k]), ops[k].page)
  }

  /** On such a run the fix counts are pins minus unpins, whatever the strategy. */
  lemma SparingBalance(s: Pool, ops: seq<Op>)
    requires Inv(s) && EmptyIdle(s) && NamesPages(ops) && AlwaysSpares(s, ops)
    ensures FixSum(Run(s, ops).frames) == FixSum(s.frames) + NetPins(s, ops)
  {
    FixBalance(s, ops);
    SparingThrowsNothing(s, ops);
  }

  lemma {:induction false} SparingThrowsNothing(s: Pool, ops: seq<Op>)
    requires Inv(s) && AlwaysSpares(s, ops)
    ensures Thrown(s, ops) == 0
  {
    hide Spares, FixLost, Step;
    if ops != [] {
      var before, op := ops[..|ops| - 1], ops[|ops| - 1];
      forall k | 0 <= k < |before| && before[k].PinOp?
        ensures Spares(Run(s, before[..k]), before[k].page)
      {
        assert before[..k] == ops[..k] && before[k] == ops[k];
      }
      SparingThrowsNothing(s, before);
      RunCoherent(s, before);
      if op.PinOp? {
        SparesIff(Run(s, before), op.page);
      }
    }
  }
}
