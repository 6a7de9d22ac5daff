/**
 * The pool agrees with a plain array of pages: what every step keeps, on every
 * run and whatever frame the strategy replaces.
 */
module Coherence {
  import opened Bytes
  import opened BlockStore
  import opened PoolSteps

  /** Page `q` as a client sees it: the resident copy, else the block on file. */
  function View(s: Pool, q: nat): Page {
    var i := IndexOf(s.frames, q);
    if i < |s.frames| then s.frames[i].data else Block(s.file, q)
  }

  /** Occupied frames form a prefix of the array and no page is resident twice. */
  ghost predicate Shape(frames: seq<Frame>) {
    && |frames| > 0
    && (forall i :: 0 <= i < |frames| ==> frames[i].page >= NO_PAGE)
    && (forall i, j :: 0 <= i < j < |frames| && frames[j].page != NO_PAGE ==> frames[i].page != NO_PAGE)
    && (forall i, j :: 0 <= i < j < |frames| && frames[j].page != NO_PAGE ==> frames[i].page != frames[j].page)
  }

  /** Every clean resident frame equals its block on file. */
  ghost predicate Clean(s: Pool) {
    forall i :: 0 <= i < |s.frames| && s.frames[i].page >= 0 && !s.frames[i].dirty ==>
      s.frames[i].data == Block(s.file, s.frames[i].page)
  }

  ghost predicate Inv(s: Pool): (inv: bool)
    ensures inv ==> |s.frames| > 0
  {
    Shape(s.frames) && Clean(s)
  }

  // ---------- Helpers ----------

  lemma IndexIs(frames: seq<Frame>, p: int, k: nat)
    requires k < |frames| && frames[k].page == p
    requires forall j :: 0 <= j < k ==> frames[j].page != p
    ensures IndexOf(frames, p) == k
  {
  }

  lemma IndexNone(frames: seq<Frame>, p: int)
    requires forall j :: 0 <= j < |frames| ==> frames[j].page != p
    ensures IndexOf(frames, p) == |frames|
  {
  }

  /** Changing a frame but not its page leaves every search and the shape alone. */
  lemma SamePages(frames: seq<Frame>, i: nat, f: Frame)
    requires i < |frames| && f.page == frames[i].page
    ensures Shape(frames) ==> Shape(frames[i := f])
    ensures forall p :: IndexOf(frames[i := f], p) == IndexOf(frames, p)
  {
    forall p
      ensures IndexOf(frames[i := f], p) == IndexOf(frames, p)
    {
      var k := IndexOf(frames, p);
      if k < |frames| {
        IndexIs(frames[i := f], p, k);
      } else {
        IndexNone(frames[i := f], p);
      }
    }
  }

  /** Frame `v` takes in a page that no frame held. */
  lemma Rehoused(frames: seq<Frame>, v: nat, g: Frame)
    requires Shape(frames) && v < |frames|
    requires g.page >= 0 && IndexOf(frames, g.page) == |frames|
    requires 0 < v ==> frames[v - 1].page != NO_PAGE
    ensures Shape(frames[v := g])
    ensures IndexOf(frames[v := g], g.page) == v
    ensures forall q: nat :: q != g.page ==>
      IndexOf(frames[v := g], q) == if q == frames[v].page then |frames| else IndexOf(frames, q)
  {
    var after := frames[v := g];
    IndexIs(after, g.page, v);
    forall q: nat | q != g.page
      ensures IndexOf(after, q) == if q == frames[v].page then |frames| else IndexOf(frames, q)
    {
      var k := IndexOf(frames, q);
      if q == frames[v].page || k == |frames| {
        IndexNone(after, q);
      } else {
        IndexIs(after, q, k);
      }
    }
  }

  /** With a proper shape, pinPage's loop finds the page wherever it is. */
  lemma ProbeFinds(frames: seq<Frame>, p: nat)
    requires Shape(frames)
    ensures IndexOf(frames, p) < |frames| ==> Probe(frames, p) == IndexOf(frames, p)
    ensures IndexOf(frames, p) == |frames| ==>
      var k := Probe(frames, p); k < |frames| ==> frames[k].page == NO_PAGE
    ensures Probe(frames, p) == |frames| ==> forall i :: 0 <= i < |frames| ==> frames[i].page >= 0
  {
    var i, k := IndexOf(frames, p), Probe(frames, p);
    if i < |frames| {
      assert frames[i].page != NO_PAGE;
      assert !(k < i);
    }
  }

  // ---------- Steps that keep every page where it is ----------

  lemma WriteBackKeeps(s: Pool, v: nat)
    requires Inv(s) && v < |s.frames|
    ensures Inv(WriteBack(s, v))
    ensures forall q: nat :: View(WriteBack(s, v), q) == View(s, q)
  {
    StoreKeeps(s, v, WriteBack(s, v));
  }

  /** Storing frame `v` in its block and cleaning it. */
  lemma StoreKeeps(s: Pool, v: nat, t: Pool)
    requires Inv(s) && v < |s.frames|
    requires t.file == Written(s.file, s.frames[v].page, s.frames[v].data)
    requires t.frames == s.frames[v := s.frames[v].(dirty := false)]
    ensures Inv(t)
    ensures forall q: nat :: View(t, q) == View(s, q)
  {
    var f := s.frames[v];
    SamePages(s.frames, v, f.(dirty := false));
    forall q: nat
      ensures View(t, q) == View(s, q)
    {
      WrittenBlock(s.file, f.page, f.data, q);
    }
    forall i | 0 <= i < |t.frames| && t.frames[i].page >= 0 && !t.frames[i].dirty
      ensures t.frames[i].data == Block(t.file, t.frames[i].page)
    {
      WrittenBlock(s.file, f.page, f.data, t.frames[i].page);
    }
  }

  lemma {:induction false} FlushToKeeps(s: Pool, n: nat)
    requires Inv(s) && n <= |s.frames|
    ensures Inv(FlushTo(s, n))
    ensures forall q: nat :: View(FlushTo(s, n), q) == View(s, q)
  {
    hide View, WriteBack;
    if n > 0 {
      FlushToKeeps(s, n - 1);
      WriteBackKeeps(FlushTo(s, n - 1), n - 1);
    }
  }

  // ---------- Pinning ----------

  /** Whatever frame is replaced: the client's pages stay as they were. */
  lemma InstallKeeps(s: Pool, v: nat, p: nat)
    requires Inv(s) && v < |s.frames|
    requires IndexOf(s.frames, p) == |s.frames|
    requires forall i :: 0 <= i < |s.frames| ==> s.frames[i].page >= 0
    ensures var t := Install(s, v, p, Block(s.file, p)); Inv(t) && forall q: nat :: View(t, q) == View(s, q)
    ensures IndexOf(Install(s, v, p, Block(s.file, p)).frames, p) == v
  {
    var f := s.frames[v];
    if f.dirty {
      WriteBackKeeps(s, v);
      SamePages(s.frames, v, f.(dirty := false));
      WrittenBlock(s.file, f.page, f.data, p);
      var t := Install(s, v, p, Block(s.file, p));
      assert t.frames == WriteBack(s, v).frames[v := t.frames[v]];
      SwapKeeps(WriteBack(s, v), v, Install(s, v, p, Block(s.file, p)), p);
    } else {
      SwapKeeps(s, v, Install(s, v, p, Block(s.file, p)), p);
    }
  }

  /** A frame that is empty or clean gives way to page `p` as it is on file. */
  lemma SwapKeeps(s: Pool, v: nat, t: Pool, p: nat)
    requires Inv(s) && v < |s.frames| && |t.frames| == |s.frames|
    requires IndexOf(s.frames, p) == |s.frames|
    requires s.frames[v].page == NO_PAGE || !s.frames[v].dirty
    requires 0 < v ==> s.frames[v - 1].page != NO_PAGE
    requires t.file == s.file && t.frames == s.frames[v := t.frames[v]]
    requires t.frames[v].page == p && t.frames[v].data == Block(s.file, p)
    ensures Inv(t)
    ensures forall q: nat :: View(t, q) == View(s, q)
    ensures IndexOf(t.frames, p) == v
  {
    Rehoused(s.frames, v, t.frames[v]);
    forall q: nat
      ensures View(t, q) == View(s, q)
    {
      if q != p && q == s.frames[v].page {
        IndexIs(s.frames, q, v);
      }
    }
  }

  lemma LoadKeeps(s: Pool, i: nat, p: nat)
    requires Inv(s) && i < |s.frames| && s.frames[i].page == NO_PAGE
    requires i > 0 ==> s.frames[i - 1].page != NO_PAGE
    requires IndexOf(s.frames, p) == |s.frames|
    ensures Inv(Load(s, i, p))
    ensures forall q: nat :: View(Load(s, i, p), q) == View(s, q)
    ensures IndexOf(Load(s, i, p).frames, p) == i
  {
    SwapKeeps(s, i, Load(s, i, p), p);
  }

  /** A replacement keeps the view whichever occupied frame `v` the strategy names. */
  lemma AnyVictimKeeps(s: Pool, v: nat, p: nat)
    requires Inv(s) && v < |s.frames|
    requires IndexOf(s.frames, p) == |s.frames|
    requires forall i :: 0 <= i < |s.frames| ==> s.frames[i].page >= 0
    ensures var t := Advance(Install(s, v, p, Block(s.file, p)), v); Inv(t) && forall q: nat :: View(t, q) == View(s, q)
  {
    InstallKeeps(s, v, p);
    SameView(Install(s, v, p, Block(s.file, p)), Advance(Install(s, v, p, Block(s.file, p)), v));
  }

  lemma ReplaceKeeps(s: Pool, p: nat)
    requires Inv(s)
    requires IndexOf(s.frames, p) == |s.frames|
    requires forall i :: 0 <= i < |s.frames| ==> s.frames[i].page >= 0
    ensures Inv(Replace(s, p))
    ensures forall q: nat :: View(Replace(s, p), q) == View(s, q)
  {
    var t := Counted(s);
    SameView(s, t);
    var v := Victim(t);
    if v.Some? {
      AnyVictimKeeps(t, v.value, p);
    }
  }

  /** Counters are not part of the view. */
  lemma SameView(s: Pool, t: Pool)
    requires s.frames == t.frames && s.file == t.file
    ensures Inv(s) ==> Inv(t)
    ensures forall q: nat :: View(t, q) == View(s, q)
  {
  }

  lemma PinKeeps(s: Pool, p: nat)
    requires Inv(s)
    ensures Inv(Pin(s, p))
    ensures forall q: nat :: View(Pin(s, p), q) == View(s, q)
  {
    var i := Probe(s.frames, p);
    ProbeFinds(s.frames, p);
    if i == |s.frames| {
      ReplaceKeeps(s, p);
    } else if s.frames[i].page < 0 {
      LoadKeeps(s, i, p);
    } else {
      SamePages(s.frames, i, Hit(s, i).frames[i]);
    }
  }

  // ---------- Every step ----------

  /** The plain array after one more write, if the write reaches a resident page. */
  function Stored(s: Pool, op: Op, q: nat): Page {
    if op.WriteOp? && op.page == q && IndexOf(s.frames, q) < |s.frames| then op.data else View(s, q)
  }

  lemma StepKeeps(s: Pool, op: Op)
    requires Inv(s)
    ensures Inv(Step(s, op))
    ensures forall q: nat :: View(Step(s, op), q) == Stored(s, op, q)
  {
    match op
    case PinOp(p) => PinKeeps(s, p);
    case UnpinOp(h) => FrameFieldsKeep(s, h, Unpin(s, h));
    case MarkOp(h) => FrameFieldsKeep(s, h, MarkDirty(s, h));
    case ForceOp(h) =>
      var i := IndexOf(s.frames, h);
      if i < |s.frames| {
        StoreKeeps(s, i, Force(s, h));
      }
    case FlushOp => FlushToKeeps(s, |s.frames|);
    case WriteOp(p, data) => WriteKeeps(s, p, data);
  }

  /** The steps that change only the fix count or set the dirty bit of the frame found. */
  lemma FrameFieldsKeep(s: Pool, h: int, t: Pool)
    requires Inv(s) && t.file == s.file && |t.frames| == |s.frames|
    requires var i := IndexOf(s.frames, h);
      if i == |s.frames| then t.frames == s.frames
      else t.frames == s.frames[i := s.frames[i].(fix := t.frames[i].fix, dirty := t.frames[i].dirty)]
           && (s.frames[i].dirty ==> t.frames[i].dirty)
    ensures Inv(t)
    ensures forall q: nat :: View(t, q) == View(s, q)
  {
    var i := IndexOf(s.frames, h);
    if i < |s.frames| {
      SamePages(s.frames, i, t.frames[i]);
    }
  }

  lemma WriteKeeps(s: Pool, p: nat, data: Page)
    requires Inv(s)
    ensures Inv(Write(s, p, data))
    ensures forall q: nat ::
      View(Write(s, p, data), q) == if q == p && IndexOf(s.frames, p) < |s.frames| then data else View(s, q)
  {
    var i := IndexOf(s.frames, p);
    if i < |s.frames| {
      SamePages(s.frames, i, s.frames[i].(data := data, dirty := true));
    }
  }

  // ---------- Every run ----------

  /** The page a plain array holds at `q`: the data of the last write that reached it. */
  function LastWrite(s: Pool, ops: seq<Op>, q: nat): Page
    requires |s.frames| > 0
  {
    if ops == [] then View(s, q)
    else
      var op, before := ops[|ops| - 1], ops[..|ops| - 1];
      if op.WriteOp? && op.page == q && IndexOf(Run(s, before).frames, q) < |s.frames| then op.data
      else LastWrite(s, before, q)
  }

  /** Cache coherence: after any run the pool shows what the plain array holds, and clean frames equal their blocks. */
  lemma {:induction false} RunCoherent(s: Pool, ops: seq<Op>)
    requires Inv(s)
    ensures Inv(Run(s, ops))
    ensures forall q: nat :: View(Run(s, ops), q) == LastWrite(s, ops, q)
  {
    if ops != [] {
      var before := ops[..|ops| - 1];
      RunCoherent(s, before);
      StepKeeps(Run(s, before), ops[|ops| - 1]);
    }
  }

  lemma InitInv(n: nat, file: seq<byte>, strategy: Strategy, lastPg: nat, forced: nat, uninit: int -> int)
    requires n > 0
    ensures var s := Init(n, file, strategy, lastPg, forced, uninit);
      Inv(s) && forall q: nat :: View(s, q) == Block(file, q)
  {
    var s := Init(n, file, strategy, lastPg, forced, uninit);
    forall q: nat
      ensures View(s, q) == Block(file, q)
    {
      IndexNone(s.frames, q);
    }
  }
}
