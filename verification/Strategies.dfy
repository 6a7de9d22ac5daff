/** What LRU, CLOCK and LFU choose, as written. */
module Strategies {
  import opened Bytes
  import opened BlockStore
  import opened PoolSteps
  import opened Coherence
  import opened Options
  import Durability
  import FifoQueue
  import Modular

  // ---------- LRU's minimum search ----------

  /** LRU's loop returns the last of the frames with the smallest stamp. */
  lemma {:induction false} LruIsLastMinimum(frames: seq<Frame>, n: nat)
    requires 0 < n <= |frames|
    ensures var v := LruScan(frames, n);
      && v < n
      && (forall j :: 0 <= j < n ==> frames[v].lru <= frames[j].lru)
      && (forall j :: v < j < n ==> frames[v].lru < frames[j].lru)
  {
    if n > 1 {
      LruIsLastMinimum(frames, n - 1);
    }
  }

  /** Frame `i` is the last with the smallest stamp. */
  ghost predicate LruDue(frames: seq<Frame>, i: nat)
    requires i < |frames|
  {
    && (forall j :: 0 <= j < |frames| ==> frames[i].lru <= frames[j].lru)
    && (forall j :: i < j < |frames| ==> frames[i].lru < frames[j].lru)
  }

  /** That frame is the one LRU replaces, and no other. */
  lemma LruChooses(frames: seq<Frame>, i: nat)
    requires i < |frames|
    ensures LruScan(frames, |frames|) == i <==> LruDue(frames, i)
  {
    LruIsLastMinimum(frames, |frames|);
  }

  /** LRU as written can replace the page used last: 0 and 1 are pinned, then 0 and 1 again, and 1 goes. */
  lemma LruCanEvictLatest(lastPg: nat, uninit: int -> int)
    ensures var s := Run(Init(2, [], LRU, lastPg, 0, uninit), [PinOp(0), PinOp(1), PinOp(0), PinOp(1)]);
      Victim(s) == Some(1) && s.frames[1].page == 1
  {
    var s0 := Init(2, [], LRU, lastPg, 0, uninit);
    var s1 := Load(s0, 0, 0);
    var s2 := Load(s1, 1, 1);
    var s3 := Hit(s2, 0);
    var s4 := Hit(s3, 1);
    RunMore(s0, [], PinOp(0), [PinOp(0)]);
    assert Pin(s0, 0) == s1;
    RunMore(s0, [PinOp(0)], PinOp(1), [PinOp(0), PinOp(1)]);
    assert Pin(s1, 1) == s2;
    RunMore(s0, [PinOp(0), PinOp(1)], PinOp(0), [PinOp(0), PinOp(1), PinOp(0)]);
    assert Pin(s2, 0) == s3;
    RunMore(s0, [PinOp(0), PinOp(1), PinOp(0)], PinOp(1), [PinOp(0), PinOp(1), PinOp(0), PinOp(1)]);
    assert Pin(s3, 1) == s4;
    assert s4.frames[0].lru == s4.frames[1].lru == 1;
    LruIsLastMinimum(s4.frames, 2);
  }

  /** The frame of a replacement keeps whatever stamp malloc left: if that is small, it goes again at the next miss. */
  lemma LruEvictsNewest(s: Pool, p: nat, q: nat)
    requires Inv(s) && s.strategy == LRU && p != q
    requires FifoQueue.Occupied(s.frames) == |s.frames|
    requires IndexOf(s.frames, p) == IndexOf(s.frames, q) == |s.frames|
    requires forall i :: 0 <= i < |s.frames| ==> s.uninit(s.lastPg + 1) < s.frames[i].lru
    ensures var t := Pin(s, p);
      Victim(t).Some? && t.frames[Victim(t).value].page == p && IndexOf(Pin(t, q).frames, p) == |s.frames|
  {
    hide Install, View, LruScan, Block;
    FifoQueue.Prefix(s.frames);
    ProbeFinds(s.frames, p);
    var c := Counted(s);
    var v := LruScan(c.frames, |c.frames|);
    InstallKeeps(c, v, p);
    var t := Install(c, v, p, Block(s.file, p));
    assert Pin(s, p) == t;
    hide Pin;
    Installed(c, v, p, Block(s.file, p));
    LruChooses(t.frames, v);
    SecondMiss(t, v, q);
  }

  lemma SecondMiss(t: Pool, v: nat, q: nat)
    requires Inv(t) && t.strategy == LRU && v < |t.frames| && LruScan(t.frames, |t.frames|) == v
    requires forall i :: 0 <= i < |t.frames| ==> 0 <= t.frames[i].page != q
    ensures IndexOf(Pin(t, q).frames, t.frames[v].page) == |t.frames|
  {
    hide Install, LruScan, Block;
    IndexNone(t.frames, q);
    ProbeFinds(t.frames, q);
    var u := Install(Counted(t), v, q, Block(t.file, q));
    assert Pin(t, q) == u;
    Installed(Counted(t), v, q, Block(t.file, q));
    assert forall i :: 0 <= i < |u.frames| && i != v ==> u.frames[i].page == t.frames[i].page;
    IndexNone(u.frames, t.frames[v].page);
  }

  // ---------- LFU's circular search ----------

  /** LFU keeps the last visited of the frames with the smallest count. */
  lemma {:induction false} LfuIsLastVisited(frames: seq<Frame>, start: nat, n: nat) returns (m: nat)
    requires start < |frames|
    ensures m <= n && LfuScan(frames, start, n) == Around(start, m, |frames|)
    ensures forall k :: 0 <= k <= n ==>
      frames[LfuScan(frames, start, n)].lfu <= frames[Around(start, k, |frames|)].lfu
    ensures forall k :: m < k <= n ==>
      frames[LfuScan(frames, start, n)].lfu < frames[Around(start, k, |frames|)].lfu
  {
    if n == 0 {
      Modular.Remainder(0, start, |frames|);
      m := 0;
    } else {
      m := LfuIsLastVisited(frames, start, n - 1);
      if frames[Around(start, n, |frames|)].lfu <= frames[LfuScan(frames, start, n - 1)].lfu {
        m := n;
      }
    }
  }

  /** The round, from 1 on, in which LFU's loop visits frame `i`. */
  function Visit(start: nat, i: nat, n: nat): (k: nat)
    requires start < n && i < n
    ensures 1 <= k <= n && (k == n <==> i == start)
  {
    if start < i then i - start else i + n - start
  }

  /** The rounds 1 to n from any start visit every frame, the start itself last. */
  lemma VisitsAll(start: nat, i: nat, n: nat)
    requires start < n && i < n
    ensures Around(start, Visit(start, i, n), n) == i
  {
    Modular.Remainder(if start < i then 0 else 1, i, n);
  }

  /** Round n comes back to where round 0 would be. */
  lemma RoundsMeet(start: nat, n: nat)
    requires start < n
    ensures Around(start, n, n) == Around(start, 0, n) == start
  {
    VisitsAll(start, start, n);
    Modular.Remainder(0, start, n);
  }

  /** So LFU's victim has the smallest count in the whole array. */
  lemma LfuIsMinimum(frames: seq<Frame>, start: nat, j: nat)
    requires start < |frames| && j < |frames|
    ensures frames[LfuScan(frames, start, |frames|)].lfu <= frames[j].lfu
  {
    var m := LfuIsLastVisited(frames, start, |frames|);
    VisitsAll(start, j, |frames|);
  }

  // ---------- What LFU counts ----------

  /** The frames that a pin of the run found its page in. */
  ghost function HitFrames(s: Pool, ops: seq<Op>): set<nat>
    requires |s.frames| > 0
  {
    if ops == [] then {}
    else
      var before, op := ops[..|ops| - 1], ops[|ops| - 1];
      var i := if op.PinOp? then IndexOf(Run(s, before).frames, op.page) else |s.frames|;
      HitFrames(s, before) + if i < |s.frames| then {i} else {}
  }

  /** Only a hit and a load into an empty frame set a count; a replacement leaves it to the next page. */
  lemma LfuStep(t: Pool, op: Op, i: nat)
    requires Inv(t) && t.strategy == LFU && i < |t.frames|
    ensures var f, g := t.frames[i], Step(t, op).frames[i];
      && (g.page == NO_PAGE ==> f.page == NO_PAGE)
      && g.lfu ==
        if op.PinOp? && IndexOf(t.frames, op.page) == i then 1 else if f.page == NO_PAGE != g.page then 0 else f.lfu
  {
    match op
    case PinOp(p) => LfuPin(t, p, i);
    case FlushOp => Durability.FlushFrame(t, |t.frames|, i);
    case _ =>
  }

  lemma LfuPin(t: Pool, p: nat, i: nat)
    requires Inv(t) && t.strategy == LFU && i < |t.frames|
    ensures var f, g := t.frames[i], Pin(t, p).frames[i];
      && (g.page == NO_PAGE ==> f.page == NO_PAGE)
      && g.lfu == if IndexOf(t.frames, p) == i then 1 else if f.page == NO_PAGE != g.page then 0 else f.lfu
  {
    hide Install, LfuScan;
    ProbeFinds(t.frames, p);
    if Probe(t.frames, p) == |t.frames| {
      var v := LfuScan(t.frames, t.lastPtr % |t.frames|, |t.frames|);
      Installed(Counted(t), v, p, Block(t.file, p));
    }
  }

  /**
   * On every run a frame's count is 1 once any hit has landed on it, whatever
   * pages have passed through since, and otherwise what it was.
   */
  lemma {:induction false} LfuCountsHits(s: Pool, ops: seq<Op>, i: nat)
    requires Inv(s) && s.strategy == LFU && i < |s.frames|
    requires s.frames[i].page == NO_PAGE ==> s.frames[i].lfu == 0
    ensures Run(s, ops).frames[i].lfu == if i in HitFrames(s, ops) then 1 else s.frames[i].lfu
    ensures Run(s, ops).frames[i].page == NO_PAGE ==> s.frames[i].page == NO_PAGE && i !in HitFrames(s, ops)
  {
    if ops != [] {
      var before := ops[..|ops| - 1];
      LfuCountsHits(s, before, i);
      RunCoherent(s, before);
      LfuStep(Run(s, before), ops[|ops| - 1], i);
    }
  }

  /** From a new pool: LFU replaces a frame that was ever hit only if all of them were. */
  lemma LfuSparesHit(n: nat, file: seq<byte>, lastPg: nat, forced: nat, uninit: int -> int, ops: seq<Op>, j: nat)
    requires j < n
    requires var s := Init(n, file, LFU, lastPg, forced, uninit);
      Victim(Run(s, ops)).Some? && Victim(Run(s, ops)).value in HitFrames(s, ops)
    ensures j in HitFrames(Init(n, file, LFU, lastPg, forced, uninit), ops)
  {
    var s := Init(n, file, LFU, lastPg, forced, uninit);
    var t := Run(s, ops);
    InitInv(n, file, LFU, lastPg, forced, uninit);
    LfuCountsHits(s, ops, Victim(t).value);
    LfuCountsHits(s, ops, j);
    LfuIsMinimum(t.frames, t.lastPtr % n, j);
  }

  // ---------- CLOCK's hand ----------

  lemma HitsMoveHand(s: Pool, i: nat, k: nat) returns (t: Pool)
    requires Inv(s) && i < |s.frames| && s.frames[i].page >= 0
    ensures t == Run(s, seq(k, _ => PinOp(s.frames[i].page)))
    ensures t.lastEntry == s.lastEntry + k
    ensures FifoQueue.Pages(t.frames) == FifoQueue.Pages(s.frames)
  {
    hide Block, LastWrite, View;
    var p := s.frames[i].page;
    var ops := seq(k, _ => PinOp(p));
    if k == 0 {
      t := s;
    } else {
      t := HitsMoveHand(s, i, k - 1);
      RunMore(s, seq(k - 1, _ => PinOp(p)), PinOp(p), ops);
      RunCoherent(s, seq(k - 1, _ => PinOp(p)));
      assert t.frames[i].page == FifoQueue.Pages(t.frames)[i] == p;
      IndexIs(t.frames, p, i);
      ProbeFinds(t.frames, p);
      t := Hit(t, i);
    }
  }

  /** A full CLOCK pool replaces a page at a miss exactly when its hand is inside the array or about to be reset. */
  lemma ClockMiss(s: Pool, p: nat)
    requires Inv(s) && s.strategy == CLOCK
    requires FifoQueue.Occupied(s.frames) == |s.frames| && IndexOf(s.frames, p) == |s.frames|
    ensures IndexOf(Pin(s, p).frames, p) < |s.frames| <==> s.lastEntry < |s.frames| || s.lastEntry % |s.frames| == 0
    ensures PinRC(s, p) == OK <==> s.lastEntry < |s.frames| || s.lastEntry % |s.frames| == 0
  {
    hide Install, Block;
    FifoQueue.Prefix(s.frames);
    ProbeFinds(s.frames, p);
    if Hand(s) < |s.frames| {
      Installed(Counted(s), Hand(s), p, Block(s.file, p));
      assert Pin(s, p).frames[Hand(s)].page == p;
    } else {
      assert Pin(s, p).frames == s.frames;
    }
  }

  /** Every full CLOCK pool of two frames or more is a few hits away from reading past its frame array. */
  lemma ClockRunsOff(s: Pool, p: nat) returns (k: nat)
    requires Inv(s) && s.strategy == CLOCK && |s.frames| >= 2
    requires FifoQueue.Occupied(s.frames) == |s.frames| && IndexOf(s.frames, p) == |s.frames|
    ensures k <= |s.frames| + 1
    ensures PinRC(Run(s, seq(k, _ => PinOp(s.frames[0].page))), p) == OUT_OF_BOUNDS
  {
    var n := |s.frames|;
    k := OffTheEnd(s.lastEntry, n);
    FifoQueue.Prefix(s.frames);
    var t := HitsMoveHand(s, 0, k);
    assert |t.frames| == |FifoQueue.Pages(t.frames)| == n;
    assert Hand(t) == t.lastEntry;
    NoProbe(s, t, p);
  }

  lemma OffTheEnd(e: nat, n: nat) returns (k: nat)
    requires n >= 2
    ensures k <= n + 1 && e + k > n && (e + k) % n != 0
  {
    var q := e / n;
    k := n + 1 - e % n;
    assert e == n * q + e % n;
    assert n * (q + 1) == n * q + n;
    assert e + k == n * (q + 1) + 1;
    Modular.Remainder(q + 1, 1, n);
    Modular.AtLeast(n, q + 1);
  }

  lemma NoProbe(s: Pool, t: Pool, p: nat)
    requires Shape(s.frames) && IndexOf(s.frames, p) == FifoQueue.Occupied(s.frames) == |s.frames|
    requires FifoQueue.Pages(t.frames) == FifoQueue.Pages(s.frames)
    ensures Probe(t.frames, p) == |t.frames|
  {
    FifoQueue.Prefix(s.frames);
    assert forall i :: 0 <= i < |t.frames| ==> t.frames[i].page == FifoQueue.Pages(t.frames)[i] == s.frames[i].page;
  }
}
