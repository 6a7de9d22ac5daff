/** What the buffer manager's calls answer, and when an answer of success is not one. */
module PoolCodes {
  import opened BlockStore
  import opened PoolSteps
  import opened Coherence
  import opened FifoQueue
  import opened Options
  import Durability

  /** Page `p` is resident or some frame is empty. */
  ghost predicate Placed(s: Pool, p: nat) {
    IndexOf(s.frames, p) < |s.frames| || Occupied(s.frames) < |s.frames|
  }

  /** FIFO's walk for the next page finds an idle frame from where it starts up to the last one. */
  ghost predicate WalkFinds(s: Pool)
    requires |s.frames| > 0
  {
    exists i :: (s.pageCounter + 1) % |s.frames| <= i < |s.frames| && s.frames[i].fix == 0
  }

  /** CLOCK's hand is inside the array or goes back to frame 0. */
  ghost predicate HandInside(s: Pool)
    requires |s.frames| > 0
  {
    s.lastEntry < |s.frames| || s.lastEntry % |s.frames| == 0
  }

  /**
   * pinPage answers RC_OK on every hit and every load into an empty frame, and at
   * a miss of a full pool unless FIFO's walk or CLOCK's hand leaves the array. A
   * walk over the whole array, from frame 0, ends without leaving it.
   */
  lemma PinCode(s: Pool, p: nat)
    requires Inv(s)
    ensures PinRC(s, p) == OK <==>
      || Placed(s, p)
      || (s.strategy != FIFO && s.strategy != CLOCK)
      || (s.strategy == FIFO && ((s.pageCounter + 1) % |s.frames| == 0 || WalkFinds(s)))
      || (s.strategy == CLOCK && HandInside(s))
    ensures PinRC(s, p) != OK ==> PinRC(s, p) == OUT_OF_BOUNDS
  {
    ProbeFinds(s.frames, p);
    Prefix(s.frames);
    if Probe(s.frames, p) == |s.frames| {
      IndexNone(s.frames, p);
      IndexNone(s.frames, NO_PAGE);
      var start := (s.pageCounter + 1) % |s.frames|;
      var w := FifoWalk(s.frames, start);
      assert w < |s.frames| ==> s.frames[w].fix == 0;
    }
  }

  /** It answers RC_OK although the page is nowhere exactly at these full-pool misses. */
  lemma OkButAbsent(s: Pool, p: nat)
    requires Inv(s)
    ensures PinRC(s, p) == OK && IndexOf(Pin(s, p).frames, p) == |s.frames| <==>
      && !Placed(s, p)
      && (s.strategy == LRU_K || (s.strategy == FIFO && (s.pageCounter + 1) % |s.frames| == 0 && !WalkFinds(s)))
  {
    hide Install, LfuScan, LruScan, Block;
    PinCode(s, p);
    ProbeFinds(s.frames, p);
    Prefix(s.frames);
    var k, t := Probe(s.frames, p), Pin(s, p);
    if k < |s.frames| {
      assert t.frames[k].page == p;
    } else {
      IndexNone(s.frames, p);
      IndexNone(s.frames, NO_PAGE);
      FullMissPlaces(s, p);
    }
  }

  /** A full-pool miss places its page exactly when the strategy names a frame. */
  lemma FullMissPlaces(s: Pool, p: nat)
    requires |s.frames| > 0 && Probe(s.frames, p) == |s.frames| == IndexOf(s.frames, p)
    ensures IndexOf(Pin(s, p).frames, p) < |s.frames| <==> Victim(Counted(s)).Some?
  {
    hide Install, Victim, Block;
    match Victim(Counted(s))
    case None =>
    case Some(v) =>
      Installed(Counted(s), v, p, Block(s.file, p));
      assert Pin(s, p).frames[v].page == p;
  }

  /** unpinPage, markDirty and forcePage: RC_OK exactly when some frame has the handle's page, else RC_ERROR. */
  lemma FoundCode(s: Pool, h: int)
    ensures FoundRC(s, h) == OK <==> exists i :: 0 <= i < |s.frames| && s.frames[i].page == h
    ensures FoundRC(s, h) != OK ==> FoundRC(s, h) == ERROR
  {
    var k := IndexOf(s.frames, h);
    assert k < |s.frames| ==> s.frames[k].page == h;
  }

  /** shutdownBufferPool: RC_OK exactly when frame 0 is not in use, whatever the other frames are, else RC_ERROR. */
  lemma ShutdownCode(s: Pool)
    requires |s.frames| > 0
    ensures ShutdownRC(s) == OK <==> s.frames[0].fix == 0
    ensures ShutdownRC(s) != OK ==> ShutdownRC(s) == ERROR
  {
    hide FlushTo;
    Durability.FlushFrame(s, |s.frames|, 0);
  }
}
