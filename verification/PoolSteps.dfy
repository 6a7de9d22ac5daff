/**
 * buffer_mgr.c and assign_val.c as steps on a pool value: the page frames, the
 * page file behind them and the counters of `pageInfo`. The methods of module
 * BufferManager do these steps in place.
 */
module PoolSteps {
  import opened Bytes
  import opened BlockStore
  import opened Options

  datatype Strategy = FIFO | LRU | CLOCK | LFU | LRU_K

  const NO_PAGE := -1

  /** pgFr. An empty frame has page NO_PAGE; its NULL data pointer shows as a zero page. */
  datatype Frame = Frame(page: int, data: Page, dirty: bool, fix: int, lru: int, lfu: int)

  /**
   * `writes` is pgN and `forced` is writeCnt. `uninit(k)` is what malloc left in
   * the lruPage field of the frame allocated by the k-th counted pin: arbitrary.
   */
  datatype Pool = Pool(frames: seq<Frame>, file: seq<byte>, strategy: Strategy,
                       pageCounter: nat, lastPg: nat, lastEntry: nat, lastPtr: nat,
                       writes: nat, forced: nat, uninit: int -> int)

  const EMPTY_FRAME := Frame(NO_PAGE, ZERO_PAGE, false, 0, 0, 0)

  /** initBufferPool; it keeps `lastPg` and `writeCnt` from the pool before. */
  function Init(n: nat, file: seq<byte>, strategy: Strategy, lastPg: nat, forced: nat, uninit: int -> int): Pool {
    Pool(seq(n, _ => EMPTY_FRAME), file, strategy, 0, lastPg, 0, 0, 0, forced, uninit)
  }

  // ---------- Searches over the frame array ----------

  /** The first frame from `i` on that holds page `p`, or the number of frames. */
  function IndexFrom(frames: seq<Frame>, p: int, i: nat): (k: nat)
    requires i <= |frames|
    ensures i <= k <= |frames|
    ensures k < |frames| ==> frames[k].page == p
    ensures forall j :: i <= j < k ==> frames[j].page != p
    decreases |frames| - i
  {
    if i == |frames| || frames[i].page == p then i else IndexFrom(frames, p, i + 1)
  }

  function IndexOf(frames: seq<Frame>, p: int): (k: nat)
    ensures k <= |frames|
    ensures k < |frames| ==> frames[k].page == p
    ensures forall j :: 0 <= j < k ==> frames[j].page != p
  {
    IndexFrom(frames, p, 0)
  }

  /** Where pinPage's loop stops: the first frame that is empty or holds `p`. */
  function ProbeFrom(frames: seq<Frame>, p: int, i: nat): (k: nat)
    requires i <= |frames|
    ensures i <= k <= |frames|
    ensures k < |frames| ==> frames[k].page < 0 || frames[k].page == p
    ensures forall j :: i <= j < k ==> 0 <= frames[j].page != p
    decreases |frames| - i
  {
    if i == |frames| || frames[i].page < 0 || frames[i].page == p then i else ProbeFrom(frames, p, i + 1)
  }

  function Probe(frames: seq<Frame>, p: int): (k: nat)
    ensures k <= |frames|
    ensures k < |frames| ==> frames[k].page < 0 || frames[k].page == p
    ensures forall j :: 0 <= j < k ==> 0 <= frames[j].page != p
  {
    ProbeFrom(frames, p, 0)
  }

  // ---------- Victim selection ----------

  /** FIFO's walk: up from `i`, past frames in use; its index never wraps around. */
  function FifoWalk(frames: seq<Frame>, i: nat): (k: nat)
    requires i <= |frames|
    ensures i <= k <= |frames|
    ensures k < |frames| ==> frames[k].fix == 0
    ensures forall j :: i <= j < k ==> frames[j].fix != 0
    decreases |frames| - i
  {
    if i == |frames| || frames[i].fix == 0 then i else FifoWalk(frames, i + 1)
  }

  /** LRU's loop over the first `n` frames, starting from frame 0's stamp. */
  function LruScan(frames: seq<Frame>, n: nat): (k: nat)
    requires n <= |frames| && |frames| > 0
    ensures k < |frames|
  {
    if n == 0 then 0
    else
      var best := LruScan(frames, n - 1);
      if frames[n - 1].lru <= frames[best].lru then n - 1 else best
  }

  /** The frame that is `k` places around the array from `start`. */
  function Around(start: nat, k: nat, n: nat): (i: nat)
    requires n > 0
    ensures i < n
  {
    (start + k) % n
  }

  /** LFU's circular loop after `n` rounds, from frame `start`. */
  function LfuScan(frames: seq<Frame>, start: nat, n: nat): (k: nat)
    requires start < |frames|
    ensures k < |frames|
  {
    if n == 0 then start
    else
      var best := LfuScan(frames, start, n - 1);
      var ptr := Around(start, n, |frames|);
      if frames[ptr].lfu > frames[best].lfu then best else ptr
  }

  /** CLOCK resets its hand only when it is a multiple of the number of frames. */
  function Hand(s: Pool): nat
    requires |s.frames| > 0
  {
    if s.lastEntry % |s.frames| == 0 then 0 else s.lastEntry
  }

  /** The frame the strategy replaces, if it comes to one inside the array. */
  function Victim(s: Pool): (v: Option<nat>)
    requires |s.frames| > 0
    ensures v.Some? ==> v.value < |s.frames|
  {
    match s.strategy
    case FIFO =>
      var k := FifoWalk(s.frames, s.pageCounter % |s.frames|);
      if k < |s.frames| then Some(k) else None
    case LRU => Some(LruScan(s.frames, |s.frames|))
    case CLOCK => if Hand(s) < |s.frames| then Some(Hand(s)) else None
    case LFU => Some(LfuScan(s.frames, s.lastPtr % |s.frames|, |s.frames|))
    case LRU_K => None
  }

  // ---------- Steps ----------

  /** writeInvoke. */
  function WriteBack(s: Pool, v: nat): Pool
    requires v < |s.frames|
  {
    var f := s.frames[v];
    s.(file := Written(s.file, f.page, f.data), frames := s.frames[v := f.(dirty := false)], writes := s.writes + 1)
  }

  /** Write back the victim if it is dirty, then assign_val; `lfuPage` stays the victim's. */
  function Install(s: Pool, v: nat, p: nat, data: Page): Pool
    requires v < |s.frames|
  {
    var t := if s.frames[v].dirty then WriteBack(s, v) else s;
    t.(frames := t.frames[v := Frame(p, data, false, 1, s.uninit(s.lastPg), s.frames[v].lfu)])
  }

  /** Either way one frame changes. */
  lemma Installed(s: Pool, v: nat, p: nat, data: Page)
    requires v < |s.frames|
    ensures var t := Install(s, v, p, data);
      && t.frames == s.frames[v := Frame(p, data, false, 1, s.uninit(s.lastPg), s.frames[v].lfu)]
      && t.strategy == s.strategy && t.pageCounter == s.pageCounter && t.lastPg == s.lastPg && t.uninit == s.uninit
      && t.lastEntry == s.lastEntry && t.lastPtr == s.lastPtr && t.forced == s.forced
  {
  }

  /** CLOCK's and LFU's bookkeeping after a replacement. */
  function Advance(s: Pool, v: nat): Pool {
    match s.strategy
    case CLOCK => s.(lastEntry := v + 1)
    case LFU => s.(lastPtr := v + 1)
    case _ => s
  }

  /** The counters that a miss bumps before it looks for a frame. */
  function Counted(s: Pool): Pool {
    s.(pageCounter := s.pageCounter + 1, lastPg := s.lastPg + 1)
  }

  /** FIFO, LRU, CLOCK or LFU: install page `p` in the victim's frame. */
  function Place(s: Pool, p: nat, data: Page): Pool
    requires |s.frames| > 0
  {
    match Victim(s)
    case None => s
    case Some(v) => Advance(Install(s, v, p, data), v)
  }

  /** A miss with every frame occupied. The new page is read before the victim is written. */
  function Replace(s: Pool, p: nat): Pool
    requires |s.frames| > 0
  {
    Place(Counted(s), p, Block(s.file, p))
  }

  /** The stamp of a page loaded into an empty frame that is not frame 0. */
  function FirstStamp(strategy: Strategy, lastPg: nat): int {
    match strategy
    case CLOCK => 1
    case LRU => lastPg
    case _ => 0
  }

  /** A miss with an empty frame `i`; frame 0 touches no counter and keeps its old fix count. */
  function Load(s: Pool, i: nat, p: nat): Pool
    requires i < |s.frames|
  {
    var data := Block(s.file, p);
    if i == 0 then
      s.(frames := s.frames[0 := s.frames[0].(page := p, data := data, fix := s.frames[0].fix + 1, lru := 0, lfu := 0)])
    else
      var lru := FirstStamp(s.strategy, s.lastPg + 1);
      s.(frames := s.frames[i := s.frames[i].(page := p, data := data, fix := 1, lru := lru, lfu := 0)],
         pageCounter := s.pageCounter + 1, lastPg := s.lastPg + 1)
  }

  /** A frame pinned once more. The first switch falls through, so LRU, CLOCK and LFU all stamp 1. */
  function Used(f: Frame, strategy: Strategy): Frame {
    var g := f.(fix := f.fix + 1);
    match strategy
    case LFU => g.(lfu := 1)
    case LRU => g.(lru := 1)
    case CLOCK => g.(lru := 1)
    case _ => g
  }

  /** A hit. */
  function Hit(s: Pool, i: nat): Pool
    requires i < |s.frames|
  {
    s.(frames := s.frames[i := Used(s.frames[i], s.strategy)], lastPg := s.lastPg + 1, lastEntry := s.lastEntry + 1)
  }

  /** pinPage. */
  function Pin(s: Pool, p: nat): (t: Pool)
    requires |s.frames| > 0
    ensures |t.frames| == |s.frames| && t.strategy == s.strategy && t.uninit == s.uninit
  {
    var i := Probe(s.frames, p);
    if i == |s.frames| then Replace(s, p)
    else if s.frames[i].page < 0 then Load(s, i, p)
    else Hit(s, i)
  }

  /** Whether the strategy reads past the frame array: FIFO after its last frame, CLOCK at its hand. */
  function PlaceRC(s: Pool): RC
    requires |s.frames| > 0
  {
    match s.strategy
    case FIFO =>
      var start := s.pageCounter % |s.frames|;
      if start > 0 && FifoWalk(s.frames, start) == |s.frames| then OUT_OF_BOUNDS else OK
    case CLOCK => if Hand(s) < |s.frames| then OK else OUT_OF_BOUNDS
    case _ => OK
  }

  function PinRC(s: Pool, p: nat): RC
    requires |s.frames| > 0
  {
    if Probe(s.frames, p) < |s.frames| then OK else PlaceRC(Counted(s))
  }

  /** unpinPage: no test for zero. */
  function Unpin(s: Pool, p: int): (t: Pool)
    ensures |t.frames| == |s.frames| && t.strategy == s.strategy && t.uninit == s.uninit
  {
    var i := IndexOf(s.frames, p);
    if i == |s.frames| then s
    else s.(frames := s.frames[i := s.frames[i].(fix := s.frames[i].fix - 1)])
  }

  function MarkDirty(s: Pool, p: int): Pool {
    var i := IndexOf(s.frames, p);
    if i == |s.frames| then s
    else s.(frames := s.frames[i := s.frames[i].(dirty := true)])
  }

  /** The code unpinPage, markDirty and forcePage return: whether some frame holds the page. */
  function FoundRC(s: Pool, p: int): RC {
    if IndexOf(s.frames, p) < |s.frames| then OK else ERROR
  }

  /** forcePage: writes also when the frame is in use or clean, and counts apart from pgN. */
  function Force(s: Pool, p: int): Pool {
    var i := IndexOf(s.frames, p);
    if i == |s.frames| then s
    else
      var f := s.frames[i];
      s.(file := Written(s.file, f.page, f.data), frames := s.frames[i := f.(dirty := false)], forced := s.forced + 1)
  }

  /** forceFlushPool after its first `n` frames. */
  function FlushTo(s: Pool, n: nat): (t: Pool)
    requires n <= |s.frames|
    ensures |t.frames| == |s.frames| && t.strategy == s.strategy && t.uninit == s.uninit
  {
    if n == 0 then s
    else
      var t := FlushTo(s, n - 1);
      if t.frames[n - 1].fix == 0 && t.frames[n - 1].dirty then WriteBack(t, n - 1) else t
  }

  function Flush(s: Pool): Pool {
    FlushTo(s, |s.frames|)
  }

  /** shutdownBufferPool: a flush, then an answer that looks at frame 0 only. */
  function ShutdownRC(s: Pool): RC
    requires |s.frames| > 0
  {
    if Flush(s).frames[0].fix != 0 then ERROR else OK
  }

  /** A client marks page `p` dirty and fills it through the pointer that pinPage gave it. */
  function Write(s: Pool, p: nat, data: Page): (t: Pool)
    ensures |t.frames| == |s.frames| && t.strategy == s.strategy && t.uninit == s.uninit
  {
    var i := IndexOf(s.frames, p);
    if i == |s.frames| then s
    else s.(frames := s.frames[i := s.frames[i].(data := data, dirty := true)])
  }

  // ---------- Runs ----------

  datatype Op =
    | PinOp(page: nat)
    | UnpinOp(handle: int)
    | MarkOp(handle: int)
    | ForceOp(handle: int)
    | FlushOp
    | WriteOp(page: nat, data: Page)

  function Step(s: Pool, op: Op): (t: Pool)
    requires |s.frames| > 0
    ensures |t.frames| == |s.frames| && t.strategy == s.strategy && t.uninit == s.uninit
  {
    match op
    case PinOp(p) => Pin(s, p)
    case UnpinOp(h) => Unpin(s, h)
    case MarkOp(h) => MarkDirty(s, h)
    case ForceOp(h) => Force(s, h)
    case FlushOp => Flush(s)
    case WriteOp(p, data) => Write(s, p, data)
  }

  /** The pool after all of `ops`. */
  function Run(s: Pool, ops: seq<Op>): (t: Pool)
    requires |s.frames| > 0
    ensures |t.frames| == |s.frames| && t.strategy == s.strategy && t.uninit == s.uninit
  {
    if ops == [] then s
    else
      Step(Run(s, ops[..|ops| - 1]), ops[|ops| - 1])
  }

  lemma RunMore(s: Pool, before: seq<Op>, op: Op, ops: seq<Op>)
    requires |s.frames| > 0 && ops == before + [op]
    ensures Run(s, ops) == Step(Run(s, before), op)
  {
    assert ops[..|ops| - 1] == before;
  }
}
