/** FIFO against the queue it is meant to be, on every run. */
module FifoQueue {
  import opened Bytes
  import opened BlockStore
  import opened PoolSteps
  import opened Coherence
  import opened Options
  import Modular

  function Pages(frames: seq<Frame>): (ps: seq<int>)
    ensures |ps| == |frames|
    ensures forall i :: 0 <= i < |frames| ==> ps[i] == frames[i].page
  {
    seq(|frames|, i requires 0 <= i < |frames| => frames[i].page)
  }

  function Rotated(xs: seq<int>, h: nat): seq<int>
    requires h <= |xs|
  {
    xs[h..] + xs[..h]
  }

  /** The number of occupied frames, by the shape of the array. */
  function Occupied(frames: seq<Frame>): nat {
    IndexOf(frames, NO_PAGE)
  }

  /** Where FIFO starts its walk at the next miss of a full pool. */
  function Start(s: Pool): nat
    requires |s.frames| > 0
  {
    (s.pageCounter + 1) % |s.frames|
  }

  /** The resident pages, the one due to go first. */
  function Queue(s: Pool): seq<int>
    requires |s.frames| > 0
  {
    var ps := Pages(s.frames);
    if Occupied(s.frames) < |ps| then ps[..Occupied(s.frames)] else Rotated(ps, Start(s))
  }

  /** A bounded queue of pages that ignores pages it holds already. */
  function Enqueue(q: seq<int>, capacity: nat, p: int): seq<int> {
    if p in q then q
    else if |q| < capacity || q == [] then q + [p]
    else q[1..] + [p]
  }

  /** While the pool fills, pageCounter trails the number of loads by one. */
  ghost predicate Counting(s: Pool) {
    var k := Occupied(s.frames);
    k < |s.frames| ==> s.pageCounter == if k == 0 then 0 else k - 1
  }

  /** What FIFO needs of the pool at a miss: an idle frame where its walk starts. */
  predicate Ready(s: Pool, p: nat)
    requires |s.frames| > 0
  {
    IndexOf(s.frames, p) < |s.frames| || Occupied(s.frames) < |s.frames| || s.frames[Start(s)].fix == 0
  }

  lemma Prefix(frames: seq<Frame>)
    requires Shape(frames)
    ensures forall i :: 0 <= i < Occupied(frames) ==> frames[i].page >= 0
    ensures forall i :: Occupied(frames) <= i < |frames| ==> frames[i].page == NO_PAGE
  {
  }

  lemma QueueHolds(s: Pool, p: nat)
    requires Shape(s.frames)
    ensures p in Queue(s) <==> IndexOf(s.frames, p) < |s.frames|
    ensures |Queue(s)| == Occupied(s.frames)
  {
    Prefix(s.frames);
    var ps, h, i := Pages(s.frames), Start(s), IndexOf(s.frames, p);
    if i < |s.frames| {
      assert ps[i] == p;
      if Occupied(s.frames) < |ps| {
        assert p == Queue(s)[i];
      } else {
        assert p == Queue(s)[if i < h then |ps| - h + i else i - h];
      }
    }
  }

  lemma SameOccupied(frames: seq<Frame>, after: seq<Frame>)
    requires Pages(frames) == Pages(after)
    ensures Occupied(after) == Occupied(frames)
  {
    var k := Occupied(frames);
    assert forall i :: 0 <= i < |frames| ==> Pages(frames)[i] == frames[i].page && Pages(after)[i] == after[i].page;
    if k < |frames| {
      IndexIs(after, NO_PAGE, k);
    } else {
      IndexNone(after, NO_PAGE);
    }
  }

  /** Steps that move no page and leave pageCounter alone leave the queue alone. */
  lemma SameQueue(s: Pool, t: Pool)
    requires |s.frames| > 0 && t.pageCounter == s.pageCounter && Pages(t.frames) == Pages(s.frames)
    ensures Queue(t) == Queue(s)
    ensures Counting(s) ==> Counting(t)
  {
    SameOccupied(s.frames, t.frames);
    assert |t.frames| == |Pages(t.frames)| == |s.frames|;
  }

  lemma LoadQueue(s: Pool, p: nat)
    requires Shape(s.frames) && Counting(s)
    requires Occupied(s.frames) < |s.frames| && IndexOf(s.frames, p) == |s.frames|
    ensures Queue(Load(s, Occupied(s.frames), p)) == Queue(s) + [p]
    ensures Counting(Load(s, Occupied(s.frames), p))
  {
    var k, n := Occupied(s.frames), |s.frames|;
    var t := Load(s, k, p);
    LoadPages(s, k, p);
    LoadOccupied(s, p);
    assert t.pageCounter == k;
    FilledQueue(t, k + 1);
    assert Pages(t.frames)[..k + 1] == Pages(s.frames)[..k] + [p];
  }

  lemma LoadPages(s: Pool, k: nat, p: nat)
    requires k < |s.frames|
    ensures |Load(s, k, p).frames| == |s.frames| && Pages(Load(s, k, p).frames) == Pages(s.frames)[k := p]
    ensures Load(s, k, p).pageCounter == if k == 0 then s.pageCounter else s.pageCounter + 1
  {
  }

  /** Up to the moment the pool is full, the queue is the occupied prefix. */
  lemma FilledQueue(s: Pool, k: nat)
    requires 0 < k == Occupied(s.frames) && s.pageCounter == k - 1
    ensures Queue(s) == Pages(s.frames)[..k] && Counting(s)
  {
    if k == |s.frames| {
      Modular.Remainder(1, 0, k);
      assert Rotated(Pages(s.frames), 0) == Pages(s.frames)[..k];
    }
  }

  lemma LoadOccupied(s: Pool, p: nat)
    requires Shape(s.frames) && Occupied(s.frames) < |s.frames|
    ensures Occupied(Load(s, Occupied(s.frames), p).frames) == Occupied(s.frames) + 1
  {
    Prefix(s.frames);
    var k := Occupied(s.frames);
    var t := Load(s, k, p);
    if k + 1 < |s.frames| {
      IndexIs(t.frames, NO_PAGE, k + 1);
    } else {
      IndexNone(t.frames, NO_PAGE);
    }
  }

  /** FIFO's replacement: which frame, and what the array of pages becomes. */
  lemma FifoReplaces(s: Pool, p: nat)
    requires |s.frames| > 0 && s.strategy == FIFO
    ensures var v := FifoWalk(s.frames, Start(s)); var t := Replace(s, p);
      && t.pageCounter == s.pageCounter + 1
      && Pages(t.frames) == (if v < |s.frames| then Pages(s.frames)[v := p] else Pages(s.frames))
  {
    var v := FifoWalk(s.frames, Start(s));
    if v < |s.frames| {
      var t := Counted(s);
      assert Victim(t) == Some(v);
      var u := Install(t, v, p, Block(s.file, p));
      assert u.frames == s.frames[v := u.frames[v]];
    }
  }

  /** Replacing the page at the head of a rotation and moving the head on is a dequeue and an enqueue. */
  lemma RotateOn(ps: seq<int>, h: nat, h': nat, p: int)
    requires h < |ps| && h' == (if h + 1 == |ps| then 0 else h + 1)
    ensures Rotated(ps[h := p], h') == Rotated(ps, h)[1..] + [p]
  {
  }

  /** The page that moves to the back of the queue is the one at FIFO's starting frame. */
  lemma RotationEnds(ps: seq<int>, h: nat, h': nat)
    requires h < |ps| && h' == (if h + 1 == |ps| then 0 else h + 1)
    ensures Rotated(ps, h')[|ps| - 1] == ps[h]
  {
  }

  lemma ReplaceQueue(s: Pool, p: nat)
    requires Shape(s.frames) && s.strategy == FIFO
    requires Occupied(s.frames) == |s.frames| && IndexOf(s.frames, p) == |s.frames|
    ensures Counting(Replace(s, p))
    ensures Queue(Replace(s, p)) == Queue(s)[1..] + [p] <==> s.frames[Start(s)].fix == 0
  {
    var h, v, t := Start(s), FifoWalk(s.frames, Start(s)), Replace(s, p);
    var ps := Pages(s.frames);
    FifoReplaces(s, p);
    Modular.Next(s.pageCounter + 1, |s.frames|);
    forall i | 0 <= i < |t.frames|
      ensures t.frames[i].page != NO_PAGE
    {
      assert t.frames[i].page == Pages(t.frames)[i];
    }
    IndexNone(t.frames, NO_PAGE);
    RotateOn(ps, h, Start(t), p);
    if s.frames[h].fix != 0 {
      assert v != h;
      RotationEnds(Pages(t.frames), h, Start(t));
      assert Queue(t)[|ps| - 1] == s.frames[h].page != p;
    }
  }

  /** pinPage is an enqueue exactly when the page is resident, a frame is empty, or FIFO's first frame is idle. */
  lemma FifoPin(s: Pool, p: nat)
    requires Inv(s) && Counting(s) && s.strategy == FIFO
    ensures Counting(Pin(s, p))
    ensures Queue(Pin(s, p)) == Enqueue(Queue(s), |s.frames|, p) <==> Ready(s, p)
  {
    QueueHolds(s, p);
    ProbeFinds(s.frames, p);
    Prefix(s.frames);
    var i := Probe(s.frames, p);
    if i == |s.frames| {
      ReplaceQueue(s, p);
    } else if s.frames[i].page < 0 {
      assert i == Occupied(s.frames);
      LoadQueue(s, p);
    } else {
      assert Pages(Hit(s, i).frames) == Pages(s.frames);
      SameQueue(s, Hit(s, i));
    }
  }

  lemma OtherSteps(s: Pool, op: Op)
    requires Inv(s) && !op.PinOp?
    ensures Queue(Step(s, op)) == Queue(s)
    ensures Counting(s) ==> Counting(Step(s, op))
  {
    if op.FlushOp? {
      FlushPages(s, |s.frames|);
    }
    assert Pages(Step(s, op).frames) == Pages(s.frames);
    SameQueue(s, Step(s, op));
  }

  lemma FlushPages(s: Pool, n: nat)
    requires n <= |s.frames|
    ensures FlushTo(s, n).pageCounter == s.pageCounter
    ensures forall i :: 0 <= i < |s.frames| ==> FlushTo(s, n).frames[i].page == s.frames[i].page
  {
  }

  /** The queue after the pins of a run, whatever else happens in between. */
  function Enqueued(q: seq<int>, capacity: nat, ops: seq<Op>): seq<int> {
    if ops == [] then q
    else
      var before := Enqueued(q, capacity, ops[..|ops| - 1]);
      var op := ops[|ops| - 1];
      if op.PinOp? then Enqueue(before, capacity, op.page) else before
  }

  /** FIFO's walk starts at an idle frame at every miss of the run. */
  ghost predicate AlwaysReady(s: Pool, ops: seq<Op>)
    requires |s.frames| > 0
  {
    forall k :: 0 <= k < |ops| && ops[k].PinOp? ==> Ready(Run(s, ops[..k]), ops[k].page)
  }

  /** A FIFO pool is the bounded queue of its pages, with hits, writes and flushes interleaved at will. */
  lemma {:induction false} FifoRefinesQueue(s: Pool, ops: seq<Op>)
    requires Inv(s) && Counting(s) && s.strategy == FIFO
    requires AlwaysReady(s, ops)
    ensures Counting(Run(s, ops))
    ensures Queue(Run(s, ops)) == Enqueued(Queue(s), |s.frames|, ops)
  {
    if ops != [] {
      var before, op := ops[..|ops| - 1], ops[|ops| - 1];
      forall k | 0 <= k < |before| && before[k].PinOp?
        ensures Ready(Run(s, before[..k]), before[k].page)
      {
        assert before[..k] == ops[..k];
      }
      FifoRefinesQueue(s, before);
      RunCoherent(s, before);
      if op.PinOp? {
        FifoPin(Run(s, before), op.page);
      } else {
        OtherSteps(Run(s, before), op);
      }
    }
  }

  ghost predicate Tracks(s: Pool, ops: seq<Op>, k: nat)
    requires |s.frames| > 0 && k <= |ops|
  {
    Queue(Run(s, ops[..k])) == Enqueued(Queue(s), |s.frames|, ops[..k])
  }

  /** The pool follows the queue all along a run exactly when no walk of the run starts at a frame in use. */
  lemma FifoExactly(s: Pool, ops: seq<Op>)
    requires Inv(s) && Counting(s) && s.strategy == FIFO
    ensures AlwaysReady(s, ops) <==> forall k :: 0 <= k <= |ops| ==> Tracks(s, ops, k)
  {
    if AlwaysReady(s, ops) {
      forall k | 0 <= k <= |ops|
        ensures Tracks(s, ops, k)
      {
        forall j | 0 <= j < k && ops[..k][j].PinOp?
          ensures Ready(Run(s, ops[..k][..j]), ops[..k][j].page)
        {
          assert ops[..k][..j] == ops[..j];
        }
        FifoRefinesQueue(s, ops[..k]);
      }
    }
    if forall k :: 0 <= k <= |ops| ==> Tracks(s, ops, k) {
      forall k | 0 <= k < |ops| && ops[k].PinOp?
        ensures Ready(Run(s, ops[..k]), ops[k].page)
      {
        TrackedReady(s, ops, k);
      }
    }
  }

  lemma {:induction false} TrackedReady(s: Pool, ops: seq<Op>, k: nat)
    requires Inv(s) && Counting(s) && s.strategy == FIFO
    requires k < |ops| && ops[k].PinOp?
    requires forall j :: 0 <= j <= |ops| ==> Tracks(s, ops, j)
    ensures Ready(Run(s, ops[..k]), ops[k].page)
  {
    RunCoherent(s, ops[..k]);
    CountingRun(s, ops[..k]);
    assert Tracks(s, ops, k) && Tracks(s, ops, k + 1);
    assert ops[..k + 1][..k] == ops[..k];
    FifoPin(Run(s, ops[..k]), ops[k].page);
  }

  lemma {:induction false} CountingRun(s: Pool, ops: seq<Op>)
    requires Inv(s) && Counting(s) && s.strategy == FIFO
    ensures Counting(Run(s, ops))
  {
    if ops != [] {
      var before, op := ops[..|ops| - 1], ops[|ops| - 1];
      CountingRun(s, before);
      RunCoherent(s, before);
      if op.PinOp? {
        FifoPin(Run(s, before), op.page);
      } else {
        OtherSteps(Run(s, before), op);
      }
    }
  }

  /** What a full FIFO pool does on a miss: install, do nothing and report success, or read past the array. */
  lemma FifoMiss(s: Pool, p: nat)
    requires Inv(s) && s.strategy == FIFO
    requires Occupied(s.frames) == |s.frames| && IndexOf(s.frames, p) == |s.frames|
    ensures IndexOf(Pin(s, p).frames, p) < |s.frames| <==>
      exists i :: Start(s) <= i < |s.frames| && s.frames[i].fix == 0
    ensures PinRC(s, p) == OUT_OF_BOUNDS <==>
      Start(s) > 0 && forall i :: Start(s) <= i < |s.frames| ==> s.frames[i].fix != 0
    ensures PinRC(s, p) == OUT_OF_BOUNDS || PinRC(s, p) == OK
  {
    ProbeFinds(s.frames, p);
    Prefix(s.frames);
    FifoReplaces(s, p);
    var v, t := FifoWalk(s.frames, Start(s)), Replace(s, p);
    if v < |s.frames| {
      assert Pages(t.frames)[v] == p;
      assert t.frames[v].page == p;
    } else {
      IndexNone(t.frames, p) by {
        assert forall i :: 0 <= i < |t.frames| ==> t.frames[i].page == Pages(t.frames)[i] == s.frames[i].page;
      }
    }
  }

  /** A new pool is the empty queue. */
  lemma InitQueue(n: nat, file: seq<byte>, lastPg: nat, forced: nat, uninit: int -> int)
    requires n > 0
    ensures var s := Init(n, file, FIFO, lastPg, forced, uninit); Inv(s) && Counting(s) && Queue(s) == []
  {
    var s := Init(n, file, FIFO, lastPg, forced, uninit);
    InitInv(n, file, FIFO, lastPg, forced, uninit);
    IndexIs(s.frames, NO_PAGE, 0);
  }

  // ---------- The walk that does not wrap ----------

  /** The pages 0 to n - 1, each pinned once. */
  function Fill(n: nat): seq<Op> {
    if n == 0 then [] else Fill(n - 1) + [PinOp(n - 1)]
  }

  /** Pages 0 to n - 1 in order, the other frames empty and idle. */
  ghost predicate FilledTo(s: Pool, n: nat) {
    && s.strategy == FIFO && n <= |s.frames| && s.pageCounter == (if n == 0 then 0 else n - 1)
    && (forall i :: 0 <= i < n ==> s.frames[i].page == i && s.frames[i].fix == 1)
    && (forall i :: n <= i < |s.frames| ==> s.frames[i].page == NO_PAGE && s.frames[i].fix == 0)
  }

  lemma FilledMore(s: Pool, n: nat)
    requires FilledTo(s, n) && n < |s.frames|
    ensures FilledTo(Pin(s, n), n + 1)
  {
    hide Block;
    assert s.frames[n].page == NO_PAGE;
    assert Probe(s.frames, n) == n;
    assert Pin(s, n) == Load(s, n, n);
  }

  lemma {:induction false} Filled(s: Pool, n: nat)
    requires FilledTo(s, 0) && n <= |s.frames| && |s.frames| > 0
    ensures FilledTo(Run(s, Fill(n)), n)
  {
    hide FilledTo, Pin;
    if n > 0 {
      Filled(s, n - 1);
      RunMore(s, Fill(n - 1), PinOp(n - 1), Fill(n));
      FilledMore(Run(s, Fill(n - 1)), n - 1);
    }
  }

  /** Fill the pool, exchange page 0 for page `n`, and give that back too. */
  function OverrunOps(n: nat): seq<Op> {
    Fill(n) + [UnpinOp(0)] + [PinOp(n)] + [UnpinOp(n)]
  }

  /**
   * In a pool of any size from 2 on: after this run frame 0 is idle, and FIFO's walk
   * for the next page starts behind it, runs past the array and replaces nothing.
   */
  lemma FifoRunsOff(n: nat, file: seq<byte>, lastPg: nat, forced: nat, uninit: int -> int)
    requires n >= 2
    ensures var s := Run(Init(n, file, FIFO, lastPg, forced, uninit), OverrunOps(n));
      s.frames[0].fix == 0 && PinRC(s, n + 1) == OUT_OF_BOUNDS && Pin(s, n + 1).frames == s.frames
  {
    hide Block, Install;
    var s0 := Init(n, file, FIFO, lastPg, forced, uninit);
    var full := Run(s0, Fill(n));
    Filled(s0, n);
    RunMore(s0, Fill(n), UnpinOp(0), Fill(n) + [UnpinOp(0)]);
    IndexIs(full.frames, 0, 0);
    var idle := Unpin(full, 0);
    RunMore(s0, Fill(n) + [UnpinOp(0)], PinOp(n), Fill(n) + [UnpinOp(0)] + [PinOp(n)]);
    ExchangedFirst(idle, n);
    var last := Pin(idle, n);
    RunMore(s0, Fill(n) + [UnpinOp(0)] + [PinOp(n)], UnpinOp(n), OverrunOps(n));
    IndexIs(last.frames, n, 0);
    WalkRunsOff(Unpin(last, n), n);
  }

  /** The walk starts at frame 0, which is idle. */
  lemma ExchangedFirst(s: Pool, n: nat)
    requires s.strategy == FIFO && |s.frames| == n >= 2 && s.pageCounter == n - 1
    requires s.frames[0].fix == 0 && forall i :: 0 <= i < n ==> s.frames[i].page == i
    ensures var t := Pin(s, n);
      && t.pageCounter == n && t.frames == s.frames[0 := t.frames[0]] && t.frames[0].page == n && t.frames[0].fix == 1
  {
    hide Block, Install;
    Modular.Remainder(1, 0, n);
    assert FifoWalk(s.frames, 0) == 0;
    Installed(Counted(s), 0, n, Block(s.file, n));
  }

  /** The walk starts at frame 1, and every frame from there on is in use. */
  lemma WalkRunsOff(s: Pool, n: nat)
    requires s.strategy == FIFO && |s.frames| == n >= 2 && s.pageCounter == n
    requires forall i :: 0 <= i < n ==> 0 <= s.frames[i].page <= n
    requires forall i :: 1 <= i < n ==> s.frames[i].fix != 0
    ensures PinRC(s, n + 1) == OUT_OF_BOUNDS && Pin(s, n + 1).frames == s.frames
  {
    hide Block, Install;
    Modular.Remainder(1, 1, n);
    assert Probe(s.frames, n + 1) == n;
    assert FifoWalk(s.frames, 1) == n;
  }
}
