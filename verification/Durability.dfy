/** What forceFlushPool and shutdownBufferPool leave in the page file. */
module Durability {
  import opened BlockStore
  import opened PoolSteps
  import opened Coherence

  ghost predicate AllUnpinned(s: Pool) {
    forall i :: 0 <= i < |s.frames| ==> s.frames[i].fix == 0
  }

  /** The flush touches dirty bits of unpinned frames and nothing else in the array. */
  lemma {:induction false} FlushFrame(s: Pool, n: nat, i: nat)
    requires n <= |s.frames| && i < |s.frames|
    ensures FlushTo(s, n).frames[i] ==
      if i < n && s.frames[i].fix == 0 then s.frames[i].(dirty := false) else s.frames[i]
  {
    if n > 0 {
      FlushFrame(s, n - 1, i);
      FlushFrame(s, n - 1, n - 1);
    }
  }

  /** The block of a page in use stays what it was. */
  lemma {:induction false} FlushSkips(s: Pool, n: nat, i: nat)
    requires Shape(s.frames) && n <= |s.frames| && i < |s.frames|
    requires s.frames[i].page >= 0 && s.frames[i].fix != 0
    ensures Block(FlushTo(s, n).file, s.frames[i].page) == Block(s.file, s.frames[i].page)
  {
    if n > 0 {
      FlushSkips(s, n - 1, i);
      FlushFrame(s, n - 1, n - 1);
      var t := FlushTo(s, n - 1);
      if t.frames[n - 1].fix == 0 && t.frames[n - 1].dirty {
        WrittenBlock(t.file, t.frames[n - 1].page, t.frames[n - 1].data, s.frames[i].page);
      }
    }
  }

  /** A frame that would still be lost after a flush: dirty, in use, and different from its block. */
  ghost predicate Stranded(s: Pool, i: nat)
    requires i < |s.frames|
  {
    var f := s.frames[i];
    f.page >= 0 && f.dirty && f.fix != 0 && f.data != Block(s.file, f.page)
  }

  lemma FlushedPage(s: Pool, i: nat)
    requires Inv(s) && i < |s.frames| && s.frames[i].page >= 0
    ensures Block(Flush(s).file, s.frames[i].page) == s.frames[i].data <==> !Stranded(s, i)
  {
    FlushToKeeps(s, |s.frames|);
    FlushFrame(s, |s.frames|, i);
    if s.frames[i].fix != 0 {
      FlushSkips(s, |s.frames|, i);
    }
  }

  /** After a flush a page's block is what the client saw exactly when the page is not stranded in a frame. */
  lemma FlushedView(s: Pool, q: nat)
    requires Inv(s)
    ensures var k := IndexOf(s.frames, q);
      Block(Flush(s).file, q) == View(s, q) <==> k == |s.frames| || !Stranded(s, k)
  {
    var t := Flush(s);
    FlushToKeeps(s, |s.frames|);
    var k := IndexOf(s.frames, q);
    if k < |s.frames| {
      FlushedPage(s, k);
    } else {
      forall i | 0 <= i < |s.frames|
        ensures t.frames[i].page != q
      {
        FlushFrame(s, |s.frames|, i);
      }
      IndexNone(t.frames, q);
      assert View(t, q) == View(s, q);
    }
  }

  /** After a flush the file is the client's view, page for page, exactly when no frame is stranded. */
  lemma FlushDurable(s: Pool)
    requires Inv(s)
    ensures (forall q: nat :: Block(Flush(s).file, q) == View(s, q)) <==>
            (forall i :: 0 <= i < |s.frames| ==> !Stranded(s, i))
  {
    hide Flush, View;
    forall q: nat
      ensures var k := IndexOf(s.frames, q);
        Block(Flush(s).file, q) == View(s, q) <==> k == |s.frames| || !Stranded(s, k)
    {
      FlushedView(s, q);
    }
    forall i | 0 <= i < |s.frames| && s.frames[i].page >= 0
      ensures IndexOf(s.frames, s.frames[i].page) == i
    {
      IndexIs(s.frames, s.frames[i].page, i);
    }
  }

  /** With every fix count at zero nothing is lost: a fresh pool over the flushed file reads the same pages. */
  lemma ReopenedView(s: Pool, n: nat, strategy: Strategy, lastPg: nat, forced: nat, uninit: int -> int)
    requires Inv(s) && AllUnpinned(s) && n > 0
    ensures forall q: nat :: View(Init(n, Flush(s).file, strategy, lastPg, forced, uninit), q) == View(s, q)
  {
    FlushDurable(s);
    InitInv(n, Flush(s).file, strategy, lastPg, forced, uninit);
  }

  /** Pages 0 and 1 loaded, page 1 written and kept in use, page 0 given back. */
  function LossyRun(data: Page): seq<Op> {
    [PinOp(0), PinOp(1), WriteOp(1, data), UnpinOp(0)]
  }

  lemma TwoPinned(s: Pool)
    requires |s.frames| == 2 && s.frames[0] == s.frames[1] == EMPTY_FRAME
    ensures var t := Run(s, [PinOp(0), PinOp(1)]);
      && t.file == s.file
      && t.frames[0] == Frame(0, Block(s.file, 0), false, 1, 0, 0)
      && t.frames[1] == Frame(1, Block(s.file, 1), false, 1, t.frames[1].lru, 0)
  {
    RunMore(s, [], PinOp(0), [PinOp(0)]);
    RunMore(s, [PinOp(0)], PinOp(1), [PinOp(0), PinOp(1)]);
    var t := Load(s, 0, 0);
    assert Probe(s.frames, 0) == 0 && Pin(s, 0) == t;
    assert Probe(t.frames, 1) == 1 && Pin(t, 1) == Load(t, 1, 1);
  }

  /** shutdownBufferPool looks at frame 0 only, so it can report success while a written page is lost. */
  lemma ShutdownCanLose(data: Page, strategy: Strategy, lastPg: nat, uninit: int -> int)
    requires data != ZERO_PAGE
    ensures var s := Run(Init(2, [], strategy, lastPg, 0, uninit), LossyRun(data));
      ShutdownRC(s) == OK && View(s, 1) == data && Block(Flush(s).file, 1) != data
  {
    hide Pin, Write, Unpin, Flush, View, ShutdownRC, Inv, Block, LastWrite;
    var s0 := Init(2, [], strategy, lastPg, 0, uninit);
    var ops := LossyRun(data);
    InitInv(2, [], strategy, lastPg, 0, uninit);
    RunCoherent(s0, ops);
    TwoPinned(s0);
    BeyondEnd([], 1);
    assert ops[..2] == [PinOp(0), PinOp(1)];
    RunMore(s0, ops[..2], ops[2], ops[..3]);
    RunMore(s0, ops[..3], ops[3], ops);
    WrittenLost(Run(s0, ops[..2]), data);
  }

  lemma WrittenLost(s: Pool, data: Page)
    requires |s.frames| == 2 && s.frames[0].page == 0 && s.frames[1].page == 1
    requires s.frames[0].fix == s.frames[1].fix == 1 && Block(s.file, 1) != data
    ensures var t := Unpin(Write(s, 1, data), 0);
      Inv(t) ==> ShutdownRC(t) == OK && View(t, 1) == data && Block(Flush(t).file, 1) != data
  {
    IndexIs(s.frames, 1, 1);
    var t := Unpin(Write(s, 1, data), 0);
    IndexIs(t.frames, 1, 1);
    FlushFrame(t, 2, 0);
    if Inv(t) {
      FlushedPage(t, 1);
    }
  }
}
