/** Without hits, FIFO, CLOCK and LFU are the same policy. */
module Agreement {
  import opened Bytes
  import opened BlockStore
  import opened PoolSteps
  import opened Coherence
  import opened FifoQueue
  import opened Options
  import Modular
  import Strategies

  /** Equal but for the stamps that only LRU, CLOCK and LFU look at. */
  predicate SameFrame(f: Frame, g: Frame) {
    f.page == g.page && f.data == g.data && f.dirty == g.dirty && f.fix == g.fix
  }

  ghost predicate SameContents(a: Pool, b: Pool) {
    && |a.frames| == |b.frames|
    && (forall i :: 0 <= i < |a.frames| ==> SameFrame(a.frames[i], b.frames[i]))
    && a.file == b.file && a.writes == b.writes && a.forced == b.forced
  }

  /** CLOCK's hand and LFU's pointer stand where FIFO starts its walk. */
  ghost predicate InStep(a: Pool, b: Pool)
    requires |a.frames| == |b.frames| > 0
  {
    var start := if Occupied(a.frames) == |a.frames| then Start(a) else 0;
    match b.strategy
    case FIFO => a.pageCounter == b.pageCounter
    case CLOCK => b.lastEntry <= |b.frames| && b.lastEntry % |b.frames| == start
    case LFU => b.lastPtr % |b.frames| == start && forall i :: 0 <= i < |b.frames| ==> b.frames[i].lfu == 0
    case _ => false
  }

  ghost predicate Agree(a: Pool, b: Pool) {
    a.strategy == FIFO && |a.frames| > 0 && Counting(a) && SameContents(a, b) && InStep(a, b)
  }

  lemma SameSearches(a: seq<Frame>, b: seq<Frame>, p: int)
    requires |a| == |b| && forall i :: 0 <= i < |a| ==> SameFrame(a[i], b[i])
    ensures IndexOf(a, p) == IndexOf(b, p) && Probe(a, p) == Probe(b, p)
  {
    assert forall i :: 0 <= i < |a| ==> a[i].page == b[i].page;
    var k := IndexOf(a, p);
    if k < |a| {
      IndexIs(b, p, k);
    } else {
      IndexNone(b, p);
    }
  }

  /** With all counts at zero LFU comes back to the frame it started from. */
  lemma LfuAllZero(frames: seq<Frame>, start: nat, n: nat)
    requires start < |frames| && forall i :: 0 <= i < |frames| ==> frames[i].lfu == 0
    ensures LfuScan(frames, start, n) == Around(start, n, |frames|)
  {
    Modular.Remainder(0, start, |frames|);
  }

  /** At a miss of the full pools the two strategies name the same frame. */
  lemma SameVictim(a: Pool, b: Pool)
    requires Agree(a, b) && Occupied(a.frames) == |a.frames| && a.frames[Start(a)].fix == 0
    ensures Victim(Counted(a)) == Victim(Counted(b)) == Some(Start(a))
  {
    var n, start := |a.frames|, Start(a);
    assert SameFrame(a.frames[start], b.frames[start]);
    match b.strategy
    case FIFO =>
    case CLOCK =>
      if b.lastEntry < n {
        Modular.Remainder(0, b.lastEntry, n);
      } else {
        Modular.Remainder(1, 0, n);
      }
    case LFU =>
      LfuAllZero(b.frames, start, n);
      Strategies.RoundsMeet(start, n);
  }

  /** A replacement at the common start frame. */
  lemma ReplaceAgrees(a: Pool, b: Pool, p: nat)
    requires Agree(a, b) && Shape(a.frames) && a.frames[Start(a)].fix == 0
    requires Occupied(a.frames) == |a.frames| && IndexOf(a.frames, p) == |a.frames|
    ensures Agree(Replace(a, p), Replace(b, p))
  {
    var n, v := |a.frames|, Start(a);
    SameVictim(a, b);
    ReplaceQueue(a, p);
    ReplacedBy(a, p, v);
    ReplacedBy(b, p, v);
    ReplaceFull(a, p, v);
    hide Install, Victim, Replace, Occupied, Queue;
    InstallAgrees(Counted(a), Counted(b), v, p, Block(a.file, p));
    Installed(Counted(b), v, p, Block(a.file, p));
    Modular.Next(a.pageCounter + 1, n);
    NextMark(v, n);
  }

  lemma ReplacedBy(s: Pool, p: nat, v: nat)
    requires |s.frames| > 0 && Victim(Counted(s)) == Some(v)
    ensures Replace(s, p) == Advance(Install(Counted(s), v, p, Block(s.file, p)), v)
  {
  }

  /** What CLOCK and LFU store after replacing frame `v`, modulo the number of frames. */
  lemma NextMark(v: nat, n: nat)
    requires v < n
    ensures (v + 1) % n == if v + 1 == n then 0 else v + 1
  {
    if v + 1 == n {
      Modular.Remainder(1, 0, n);
    } else {
      Modular.Remainder(0, v + 1, n);
    }
  }

  lemma InstallAgrees(a: Pool, b: Pool, v: nat, p: nat, data: Page)
    requires SameContents(a, b) && v < |a.frames|
    ensures SameContents(Advance(Install(a, v, p, data), v), Advance(Install(b, v, p, data), v))
    ensures forall i :: 0 <= i < |b.frames| ==> Install(b, v, p, data).frames[i].lfu == b.frames[i].lfu
  {
    assert SameFrame(a.frames[v], b.frames[v]);
  }

  lemma ReplaceFull(a: Pool, p: nat, v: nat)
    requires Shape(a.frames) && Occupied(a.frames) == |a.frames|
    requires Victim(Counted(a)) == Some(v) && a.strategy == FIFO
    ensures Occupied(Replace(a, p).frames) == |a.frames| == |Replace(a, p).frames|
    ensures Replace(a, p).pageCounter == a.pageCounter + 1
  {
    Prefix(a.frames);
    var t := Replace(a, p);
    var u := Install(Counted(a), v, p, Block(a.file, p));
    assert t == u && u.frames == a.frames[v := u.frames[v]];
    IndexNone(t.frames, NO_PAGE);
  }

  lemma LoadAgrees(a: Pool, b: Pool, p: nat)
    requires Agree(a, b) && Shape(a.frames)
    requires Occupied(a.frames) < |a.frames| && IndexOf(a.frames, p) == |a.frames|
    ensures Agree(Load(a, Occupied(a.frames), p), Load(b, Occupied(a.frames), p))
  {
    var k, n := Occupied(a.frames), |a.frames|;
    var t, u := Load(a, k, p), Load(b, k, p);
    LoadQueue(a, p);
    LoadOccupied(a, p);
    assert SameFrame(a.frames[k], b.frames[k]);
    assert SameContents(t, u);
    assert t.pageCounter == k;
    if k + 1 == n {
      Modular.Remainder(1, 0, n);
      assert Start(t) == 0;
    }
  }

  lemma PinAgrees(a: Pool, b: Pool, p: nat)
    requires Agree(a, b) && Inv(a) && IndexOf(a.frames, p) == |a.frames| && Ready(a, p)
    ensures Agree(Pin(a, p), Pin(b, p))
  {
    SameSearches(a.frames, b.frames, p);
    ProbeFinds(a.frames, p);
    Prefix(a.frames);
    var i := Probe(a.frames, p);
    if i == |a.frames| {
      ReplaceAgrees(a, b, p);
    } else {
      assert i == Occupied(a.frames) && SameFrame(a.frames[i], b.frames[i]);
      LoadAgrees(a, b, p);
    }
  }

  lemma {:induction false} FlushAgrees(a: Pool, b: Pool, n: nat)
    requires SameContents(a, b) && n <= |a.frames|
    ensures SameContents(FlushTo(a, n), FlushTo(b, n))
    ensures SameMarks(b, FlushTo(b, n))
  {
    if n > 0 {
      FlushAgrees(a, b, n - 1);
      WriteBackAgrees(FlushTo(a, n - 1), FlushTo(b, n - 1), n - 1);
    }
  }

  lemma WriteBackAgrees(a: Pool, b: Pool, v: nat)
    requires SameContents(a, b) && v < |a.frames|
    ensures SameContents(WriteBack(a, v), WriteBack(b, v))
    ensures SameMarks(b, WriteBack(b, v))
    ensures SameFrame(a.frames[v], b.frames[v])
  {
    assert SameFrame(a.frames[v], b.frames[v]);
  }

  /** Nothing that FIFO, CLOCK or LFU choose by has changed. */
  ghost predicate SameMarks(s: Pool, t: Pool) {
    && t.lastEntry == s.lastEntry && t.lastPtr == s.lastPtr && t.pageCounter == s.pageCounter
    && |t.frames| == |s.frames| && forall i :: 0 <= i < |s.frames| ==> t.frames[i].lfu == s.frames[i].lfu
  }

  /** The steps other than pins and flushes change both pools alike. */
  lemma FieldsAgree(a: Pool, b: Pool, op: Op)
    requires SameContents(a, b) && |a.frames| > 0 && !op.PinOp? && !op.FlushOp?
    ensures SameContents(Step(a, op), Step(b, op))
    ensures SameMarks(b, Step(b, op))
  {
    var h := match op case UnpinOp(h) => h case MarkOp(h) => h case ForceOp(h) => h case WriteOp(p, _) => p;
    hide SameContents, SameMarks, IndexOf;
    SameFound(a, b, h);
    var i := IndexOf(a.frames, h);
    if i < |a.frames| {
      PutAgrees(a, b, Step(a, op), Step(b, op), i);
    } else {
      assert Step(a, op) == a && Step(b, op) == b;
      SameItself(b);
    }
  }

  lemma SameItself(b: Pool)
    ensures SameMarks(b, b)
  {
  }

  /** Both pools find page `h` in the same frame, or neither does. */
  lemma SameFound(a: Pool, b: Pool, h: int)
    requires SameContents(a, b)
    ensures |a.frames| == |b.frames| && IndexOf(a.frames, h) == IndexOf(b.frames, h)
    ensures a.file == b.file && a.writes == b.writes && a.forced == b.forced
    ensures var i := IndexOf(a.frames, h); i < |a.frames| ==> SameFrame(a.frames[i], b.frames[i])
  {
    SameSearches(a.frames, b.frames, h);
  }

  /** Both pools change frame `i` alike. */
  lemma PutAgrees(a: Pool, b: Pool, a': Pool, b': Pool, i: nat)
    requires SameContents(a, b) && i < |a.frames| == |a'.frames| == |b'.frames|
    requires a'.frames == a.frames[i := a'.frames[i]] && b'.frames == b.frames[i := b'.frames[i]]
    requires SameFrame(a'.frames[i], b'.frames[i]) && b'.frames[i].lfu == b.frames[i].lfu
    requires a'.file == b'.file && a'.writes == b'.writes && a'.forced == b'.forced
    requires b'.lastEntry == b.lastEntry && b'.lastPtr == b.lastPtr && b'.pageCounter == b.pageCounter
    ensures SameContents(a', b') && SameMarks(b, b')
  {
  }

  lemma OtherAgrees(a: Pool, b: Pool, op: Op)
    requires Agree(a, b) && Inv(a) && !op.PinOp?
    ensures Agree(Step(a, op), Step(b, op))
  {
    if op.FlushOp? {
      FlushAgrees(a, b, |a.frames|);
      FlushPages(a, |a.frames|);
    } else {
      FieldsAgree(a, b, op);
    }
    var c := Step(a, op);
    OtherSteps(a, op);
    OtherCounter(a, op);
    assert Pages(c.frames) == Pages(a.frames);
    SameOccupied(a.frames, c.frames);
  }

  lemma OtherCounter(a: Pool, op: Op)
    requires |a.frames| > 0 && !op.PinOp?
    ensures Step(a, op).pageCounter == a.pageCounter
    ensures forall i :: 0 <= i < |a.frames| ==> Step(a, op).frames[i].page == a.frames[i].page
  {
    if op.FlushOp? {
      FlushPages(a, |a.frames|);
    }
  }

  /** Every pin of the run is a miss. */
  ghost predicate NoHits(s: Pool, ops: seq<Op>)
    requires |s.frames| > 0
  {
    forall k :: 0 <= k < |ops| && ops[k].PinOp? ==> IndexOf(Run(s, ops[..k]).frames, ops[k].page) == |s.frames|
  }

  /** On a run without hits where FIFO's walks start at idle frames, the pools stay equal step for step. */
  lemma {:induction false} RunsAgree(a: Pool, b: Pool, ops: seq<Op>)
    requires Agree(a, b) && Inv(a)
    requires NoHits(a, ops) && AlwaysReady(a, ops)
    ensures Agree(Run(a, ops), Run(b, ops))
  {
    if ops != [] {
      var before, op := ops[..|ops| - 1], ops[|ops| - 1];
      forall k | 0 <= k < |before| && before[k].PinOp?
        ensures IndexOf(Run(a, before[..k]).frames, before[k].page) == |a.frames|
        ensures Ready(Run(a, before[..k]), before[k].page)
      {
        assert before[..k] == ops[..k] && before[k] == ops[k];
      }
      RunsAgree(a, b, before);
      RunCoherent(a, before);
      if op.PinOp? {
        assert ops[..|ops| - 1] == before;
        PinAgrees(Run(a, before), Run(b, before), op.page);
      } else {
        OtherAgrees(Run(a, before), Run(b, before), op);
      }
    }
  }

  /** From new pools over one file: equal contents after the run, and the same victim at the next miss. */
  lemma PolicyAgreement(n: nat, file: seq<byte>, strategy: Strategy, lastPg: nat, forced: nat, uninit: int -> int,
                        ops: seq<Op>)
    requires n > 0 && strategy in {FIFO, CLOCK, LFU}
    requires var a := Init(n, file, FIFO, lastPg, forced, uninit); NoHits(a, ops) && AlwaysReady(a, ops)
    ensures var a := Run(Init(n, file, FIFO, lastPg, forced, uninit), ops);
      var b := Run(Init(n, file, strategy, lastPg, forced, uninit), ops);
      && SameContents(a, b)
      && (Occupied(a.frames) == n && a.frames[Start(a)].fix == 0 ==>
            Victim(Counted(a)) == Victim(Counted(b)) == Some(Start(a)))
  {
    var a0, b0 := Init(n, file, FIFO, lastPg, forced, uninit), Init(n, file, strategy, lastPg, forced, uninit);
    InitQueue(n, file, lastPg, forced, uninit);
    IndexIs(a0.frames, NO_PAGE, 0);
    Modular.Remainder(0, 0, n);
    RunsAgree(a0, b0, ops);
    var a, b := Run(a0, ops), Run(b0, ops);
    if Occupied(a.frames) == n && a.frames[Start(a)].fix == 0 {
      SameVictim(a, b);
    }
  }
}
