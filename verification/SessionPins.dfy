/** The fix count of every page after any sequence of record calls that fits in the pool. */
module SessionPins {
  import opened Bytes
  import opened BlockStore
  import opened PoolSteps
  import opened Coherence
  import opened Options
  import opened Slots
  import opened RecordStore
  import Catalog
  import opened Accounting
  import opened Durability
  import opened TableBalance

  // ---------- Room ----------

  /** The last frame, and so some frame, is still empty. */
  ghost predicate HasRoom(s: Pool)
    requires |s.frames| > 0
  {
    s.frames[|s.frames| - 1].page == NO_PAGE
  }

  /** Frames never become empty again. */
  lemma RoomBefore(s: Pool, p: nat)
    requires |s.frames| > 0 && HasRoom(Pin(s, p))
    ensures HasRoom(s)
  {
    hide Install, LruScan, LfuScan, FifoWalk, Block, Hand;
    if Probe(s.frames, p) == |s.frames| && Victim(Counted(s)).Some? {
      Installed(Counted(s), Victim(Counted(s)).value, p, Block(s.file, p));
    }
  }

  lemma RoomBeforeVisit(s: Pool, p: nat)
    requires |s.frames| > 0 && HasRoom(Unpin(Pin(s, p), p))
    ensures HasRoom(s)
  {
    hide Pin;
    RoomBefore(s, p);
  }

  lemma RoomBeforeStore(s: Pool, p: nat, page: Page)
    requires |s.frames| > 0 && HasRoom(Unpin(Unpin(Write(Pin(s, p), p, page), p), p))
    ensures HasRoom(s)
  {
    hide Pin;
    RoomBefore(s, p);
  }

  lemma RoomBeforeReplacing(s: Pool, p: nat, page: Page)
    requires |s.frames| > 0 && HasRoom(Unpin(Write(Pin(s, p), p, page), p))
    ensures HasRoom(s)
  {
    hide Pin;
    RoomBefore(s, p);
  }

  lemma RoomBeforeForce(s: Pool, p: nat, h: int)
    requires |s.frames| > 0 && HasRoom(Force(Pin(s, p), h))
    ensures HasRoom(s)
  {
    hide Pin, Written;
    RoomBefore(s, p);
  }

  lemma RoomBeforeFlush(s: Pool)
    requires |s.frames| > 0 && HasRoom(Flush(s))
    ensures HasRoom(s)
  {
    hide FlushTo;
    FlushFrame(s, |s.frames|, |s.frames| - 1);
  }

  lemma {:induction false} RoomBeforeSearch(s: Pool, first: nat, last: nat)
    requires |s.frames| > 0 && first <= last && HasRoom(Searched(s, first, last))
    ensures HasRoom(s)
    decreases last
  {
    hide Pin, Unpin, HasRoom;
    if first < last {
      RoomBeforeVisit(Searched(s, first, last - 1), last - 1);
      RoomBeforeSearch(s, first, last - 1);
    }
  }

  lemma {:induction false} RoomBeforePins(s: Pool, n: nat)
    requires |s.frames| > 0 && HasRoom(PinnedUpTo(s, n))
    ensures HasRoom(s)
  {
    hide Pin, HasRoom;
    if n > 0 {
      RoomBefore(PinnedUpTo(s, n - 1), n - 1);
      RoomBeforePins(s, n - 1);
    }
  }

  /** The room left after a call was there before it. */
  lemma RoomBeforeStep(t: Table, op: TableOp)
    requires TableInv(t) && t.size <= 4096 && InBounds(t, op) && !op.PoolOp?
    requires HasRoom(TableStep(t, op).pool)
    ensures HasRoom(t.pool)
  {
    hide Pin, Write, Unpin, Force, Flush, PutSlot, Image, HasRoom, View, Inv, FreePage, CheckCase, Buried, Searched;
    match op
    case InsertOp(record) =>
      var rid := NextRID(t);
      var s := Searched(t.pool, t.pageID, rid.page);
      var page := PutSlot(View(Pin(s, rid.page), rid.page), t.size, rid.slot, Image(t.size, record));
      RoomBefore(Unpin(Unpin(Write(Pin(s, rid.page), rid.page, page), rid.page), rid.page), 0);
      RoomBeforeStore(s, rid.page, page);
      RoomBeforeSearch(t.pool, t.pageID, rid.page);
    case DeleteOp(rid) =>
      if rid.slot >= NUM_SLOTS {
        RoomBeforeVisit(t.pool, rid.page);
      } else {
        RoomBeforeStore(t.pool, rid.page, Buried(View(Pin(t.pool, rid.page), rid.page), rid.slot * t.size));
      }
    case UpdateOp(rid, record) =>
      var s := PinnedUpTo(t.pool, rid.page);
      var before := View(Pin(s, rid.page), rid.page);
      var image := [SlotAt(before, t.size, rid.slot)[0]] + record[1..t.size];
      RoomBeforeReplacing(s, rid.page, PutSlot(before, t.size, rid.slot, image));
      RoomBeforePins(t.pool, rid.page);
    case GetOp(rid) => RoomBeforeVisit(t.pool, rid.page);
    case OpenOp => RoomBeforeForce(t.pool, 0, 0);
    case CloseOp => RoomBeforeFlush(t.pool);
  }

  // ---------- One pool step ----------

  /** The fix count of page `p`; 0 if no frame holds it. */
  function FixOf(s: Pool, p: nat): int {
    var i := IndexOf(s.frames, p);
    if i < |s.frames| then s.frames[i].fix else 0
  }

  /** `t` has the fix counts of `s`, but for `d` more on page `p`. */
  ghost predicate Moved(s: Pool, t: Pool, p: nat, d: int) {
    && Ready(t) && |t.frames| == |s.frames|
    && (forall q: nat :: FixOf(t, q) == FixOf(s, q) + if q == p then d else 0)
    && (forall q: nat :: Has(s, q) ==> Has(t, q))
  }

  /** One frame, that of page `p`, has another fix count, and maybe other contents. */
  lemma OneMoved(s: Pool, t: Pool, p: nat, i: nat)
    requires Ready(s) && Inv(t) && t.strategy == LRU && i < |s.frames| == |t.frames|
    requires t.frames == s.frames[i := t.frames[i]] && t.frames[i].page == p && IndexOf(t.frames, p) == i
    requires s.frames[i].page == p || (s.frames[i].page == NO_PAGE && IndexOf(s.frames, p) == |s.frames|)
    ensures Moved(s, t, p, t.frames[i].fix - FixOf(s, p))
  {
    hide Inv, IndexOf;
    assert EmptyIdle(t);
    forall q: nat
      ensures q != p ==> FixOf(t, q) == FixOf(s, q)
      ensures Has(s, q) ==> Has(t, q)
    {
      if q != p {
        var k := IndexOf(s.frames, q);
        if k < |s.frames| {
          assert k != i;
          Coherence.IndexIs(t.frames, q, k);
        } else {
          Coherence.IndexNone(t.frames, q);
        }
      }
    }
  }

  /** A pin with room takes page `p` once more. */
  lemma PinMoves(s: Pool, p: nat)
    requires Ready(s) && HasRoom(Pin(s, p))
    ensures Moved(s, Pin(s, p), p, 1) && Has(Pin(s, p), p)
  {
    hide View, Block;
    RoomBefore(s, p);
    LruPin(s, p);
    ProbeFinds(s.frames, p);
    var k, t := Probe(s.frames, p), Pin(s, p);
    assert k < |s.frames|;
    IndexIs(t.frames, p, k);
    OneMoved(s, t, p, k);
  }

  lemma UnpinMoves(s: Pool, p: nat)
    requires Ready(s) && Has(s, p)
    ensures Moved(s, Unpin(s, p), p, -1) && Has(Unpin(s, p), p)
  {
    hide View, Block;
    var i := IndexOf(s.frames, p);
    UnpinAlike(s, p);
    SamePages(s.frames, i, Unpin(s, p).frames[i]);
    OneMoved(s, Unpin(s, p), p, i);
  }

  lemma WriteMoves(s: Pool, p: nat, page: Page)
    requires Ready(s) && Has(s, p)
    ensures Moved(s, Write(s, p, page), p, 0) && Has(Write(s, p, page), p)
  {
    hide View, Block;
    var i := IndexOf(s.frames, p);
    WriteKeeps(s, p, page);
    SamePages(s.frames, i, Write(s, p, page).frames[i]);
    OneMoved(s, Write(s, p, page), p, i);
  }

  lemma ForceMoves(s: Pool, p: nat)
    requires Ready(s) && Has(s, p)
    ensures Moved(s, Force(s, p), p, 0)
  {
    hide View, Block, Written;
    var i := IndexOf(s.frames, p);
    StepKeeps(s, ForceOp(p));
    SamePages(s.frames, i, Force(s, p).frames[i]);
    OneMoved(s, Force(s, p), p, i);
  }

  /** A flush changes no fix count and moves no page. */
  lemma FlushMoves(s: Pool, p: nat)
    requires Ready(s)
    ensures Moved(s, Flush(s), p, 0)
  {
    hide View, Block, FlushTo, Inv;
    FlushToKeeps(s, |s.frames|);
    var t := Flush(s);
    forall i | 0 <= i < |s.frames|
      ensures t.frames[i].page == s.frames[i].page && t.frames[i].fix == s.frames[i].fix
    {
      FlushFrame(s, |s.frames|, i);
    }
    SameHeld(s, t);
  }

  lemma SameHeld(s: Pool, t: Pool)
    requires |t.frames| == |s.frames|
    requires forall i :: 0 <= i < |s.frames| ==>
      t.frames[i].page == s.frames[i].page && t.frames[i].fix == s.frames[i].fix
    ensures forall q: nat :: FixOf(t, q) == FixOf(s, q) && Has(t, q) == Has(s, q)
  {
    forall q: nat
      ensures IndexOf(t.frames, q) == IndexOf(s.frames, q)
    {
      var k := IndexOf(s.frames, q);
      if k < |s.frames| {
        IndexIs(t.frames, q, k);
      } else {
        IndexNone(t.frames, q);
      }
    }
  }

  lemma MovedThen(s: Pool, t: Pool, u: Pool, p: nat, d: int, more: int)
    requires Moved(s, t, p, d) && Moved(t, u, p, more)
    ensures Moved(s, u, p, d + more)
  {
  }

  // ---------- Several pool steps ----------

  lemma VisitMoves(s: Pool, p: nat)
    requires Ready(s) && HasRoom(Unpin(Pin(s, p), p))
    ensures Moved(s, Unpin(Pin(s, p), p), p, 0)
  {
    hide Pin, Unpin, FixOf, Has, Inv;
    RoomAfterPin(s, p);
    PinMoves(s, p);
    UnpinMoves(Pin(s, p), p);
    MovedThen(s, Pin(s, p), Unpin(Pin(s, p), p), p, 1, -1);
  }

  lemma RoomAfterPin(s: Pool, p: nat)
    requires |s.frames| > 0 && HasRoom(Unpin(Pin(s, p), p))
    ensures HasRoom(Pin(s, p))
  {
    hide Pin;
  }

  lemma RoomAfterWrite(s: Pool, p: nat, page: Page)
    requires |s.frames| > 0 && HasRoom(Unpin(Write(s, p, page), p))
    ensures HasRoom(s)
  {
  }

  lemma RoomAfterUnpin(s: Pool, p: nat)
    requires |s.frames| > 0 && HasRoom(Unpin(s, p))
    ensures HasRoom(s)
  {
  }

  lemma ReplacingMoves(s: Pool, p: nat, page: Page)
    requires Ready(s) && HasRoom(Unpin(Write(Pin(s, p), p, page), p))
    ensures var u := Unpin(Write(Pin(s, p), p, page), p); Moved(s, u, p, 0) && Has(u, p)
  {
    hide Pin, Write, Unpin, FixOf, Inv, Has;
    var found := Pin(s, p);
    RoomAfterWrite(found, p, page);
    PinMoves(s, p);
    WriteMoves(found, p, page);
    MovedThen(s, found, Write(found, p, page), p, 1, 0);
    UnpinMoves(Write(found, p, page), p);
    MovedThen(s, Write(found, p, page), Unpin(Write(found, p, page), p), p, 1, -1);
  }

  lemma StoreMoves(s: Pool, p: nat, page: Page)
    requires Ready(s) && HasRoom(Unpin(Unpin(Write(Pin(s, p), p, page), p), p))
    ensures Moved(s, Unpin(Unpin(Write(Pin(s, p), p, page), p), p), p, -1)
  {
    hide Pin, Write, Unpin, FixOf, Inv, Has;
    var u := Unpin(Write(Pin(s, p), p, page), p);
    RoomAfterUnpin(u, p);
    ReplacingMoves(s, p, page);
    UnpinMoves(u, p);
    MovedThen(s, u, Unpin(u, p), p, 0, -1);
  }

  /** Nothing moves, whichever page is named. */
  lemma MovedNone(s: Pool, t: Pool, p: nat, q: nat)
    requires Moved(s, t, p, 0)
    ensures Moved(s, t, q, 0)
  {
  }

  lemma {:induction false} SearchMoves(s: Pool, first: nat, last: nat, p: nat)
    requires Ready(s) && first <= last && HasRoom(Searched(s, first, last))
    ensures Moved(s, Searched(s, first, last), p, 0)
    decreases last
  {
    hide Pin, Unpin, Moved, HasRoom, Inv;
    if first == last {
      Stays(s, p);
    } else {
      var t := Searched(s, first, last - 1);
      RoomBeforeVisit(t, last - 1);
      SearchMoves(s, first, last - 1, p);
      MovedReady(s, t, p, 0);
      VisitMoves(t, last - 1);
      MovedNone(t, Unpin(Pin(t, last - 1), last - 1), last - 1, p);
      MovedThen(s, t, Unpin(Pin(t, last - 1), last - 1), p, 0, 0);
    }
  }

  lemma Stays(s: Pool, p: nat)
    requires Ready(s)
    ensures Moved(s, s, p, 0)
  {
  }

  lemma MovedReady(s: Pool, t: Pool, p: nat, d: int)
    requires Moved(s, t, p, d)
    ensures Ready(t) && |t.frames| == |s.frames|
  {
  }

  /** updateRecord's pins: one more on each of the pages before `n`. */
  lemma {:induction false} PinsMove(s: Pool, n: nat)
    requires Ready(s) && HasRoom(PinnedUpTo(s, n))
    ensures var t := PinnedUpTo(s, n);
      Ready(t) && forall q: nat :: FixOf(t, q) == FixOf(s, q) + if q < n then 1 else 0
  {
    hide Pin, HasRoom, Inv, FixOf, Has, Ready;
    if n > 0 {
      var t := PinnedUpTo(s, n - 1);
      RoomBefore(t, n - 1);
      PinsMove(s, n - 1);
      PinMoves(t, n - 1);
    }
  }

  // ---------- The calls ----------

  /** What a call adds to the fix count of page `p`; `rid` is where an insertion goes. */
  function Effect(op: TableOp, rid: RID, p: nat): int {
    match op
    case InsertOp(_) => (if p == 0 then 1 else 0) - (if p == rid.page then 1 else 0)
    case DeleteOp(r) => if p == r.page && r.slot < NUM_SLOTS then -1 else 0
    case UpdateOp(r, _) => if p < r.page then 1 else 0
    case OpenOp => if p == 0 then 1 else 0
    case _ => 0
  }

  lemma StepHeld(t: Table, op: TableOp, p: nat)
    requires TableInv(t) && t.size <= 4096 && InBounds(t, op) && !op.PoolOp?
    requires EmptyIdle(t.pool) && HasRoom(TableStep(t, op).pool)
    ensures EmptyIdle(TableStep(t, op).pool)
    ensures FixOf(TableStep(t, op).pool, p) == FixOf(t.pool, p) + Effect(op, NextRID(t), p)
  {
    hide Pin, Write, Unpin, Force, Flush, PutSlot, Image, HasRoom, View, FreePage, CheckCase, Buried, Searched, FixOf;
    hide Has, EmptyIdle, Inv, Catalog.SchemaSize, PinnedUpTo;
    assert Ready(t.pool);
    match op
    case InsertOp(record) =>
      var rid := NextRID(t);
      var s := Searched(t.pool, t.pageID, rid.page);
      var page := PutSlot(View(Pin(s, rid.page), rid.page), t.size, rid.slot, Image(t.size, record));
      var w := Unpin(Unpin(Write(Pin(s, rid.page), rid.page, page), rid.page), rid.page);
      RoomBefore(w, 0);
      RoomBeforeStore(s, rid.page, page);
      SearchMoves(t.pool, t.pageID, rid.page, p);
      StoreMoves(s, rid.page, page);
      PinMoves(w, 0);
    case DeleteOp(rid) =>
      if rid.slot >= NUM_SLOTS {
        VisitMoves(t.pool, rid.page);
      } else {
        StoreMoves(t.pool, rid.page, Buried(View(Pin(t.pool, rid.page), rid.page), rid.slot * t.size));
      }
    case UpdateOp(rid, record) =>
      var s := PinnedUpTo(t.pool, rid.page);
      var before := View(Pin(s, rid.page), rid.page);
      var image := [SlotAt(before, t.size, rid.slot)[0]] + record[1..t.size];
      RoomBeforeReplacing(s, rid.page, PutSlot(before, t.size, rid.slot, image));
      PinsMove(t.pool, rid.page);
      ReplacingMoves(s, rid.page, PutSlot(before, t.size, rid.slot, image));
    case GetOp(rid) => VisitMoves(t.pool, rid.page);
    case OpenOp =>
      RoomAfterForce(Pin(t.pool, 0), 0);
      PinMoves(t.pool, 0);
      ForceMoves(Pin(t.pool, 0), 0);
    case CloseOp => FlushMoves(t.pool, p);
  }

  lemma RoomAfterForce(s: Pool, h: int)
    requires |s.frames| > 0 && HasRoom(Force(s, h))
    ensures HasRoom(s)
  {
    hide Written;
  }

  // ---------- Runs ----------

  /** The insertions that went into page `p`. */
  ghost function InsertsInto(t: Table, ops: seq<TableOp>, p: nat): nat
    requires TableInv(t) && t.size <= 4096 && Runs(t, ops)
  {
    if ops == [] then 0
    else
      var before := ops[..|ops| - 1];
      InsertsInto(t, before, p) + if ops[|ops| - 1].InsertOp? && NextRID(TableRun(t, before)).page == p then 1 else 0
  }

  /** The deletions on page `p`, refused ones left out. */
  function DeletesOn(ops: seq<TableOp>, p: nat): nat {
    if ops == [] then 0
    else
      var op := ops[|ops| - 1];
      DeletesOn(ops[..|ops| - 1], p) + if op.DeleteOp? && op.rid.page == p && op.rid.slot < NUM_SLOTS then 1 else 0
  }

  /** The updates of records on pages above `p`. */
  function UpdatesAbove(ops: seq<TableOp>, p: nat): nat {
    if ops == [] then 0
    else
      var op := ops[|ops| - 1];
      UpdatesAbove(ops[..|ops| - 1], p) + if op.UpdateOp? && p < op.rid.page then 1 else 0
  }

  /** The calls that pin page 0 and keep it. */
  function ZeroPins(ops: seq<TableOp>, p: nat): nat {
    if ops == [] || p > 0 then 0
    else
      var op := ops[|ops| - 1];
      ZeroPins(ops[..|ops| - 1], p) + if op.InsertOp? || op.OpenOp? then 1 else 0
  }

  /** With room left at the end, every page's fix count is a matter of counting calls. */
  lemma {:induction false} RunHeld(t: Table, ops: seq<TableOp>, p: nat)
    requires TableInv(t) && t.size <= 4096 && Runs(t, ops) && RecordCalls(ops)
    requires EmptyIdle(t.pool) && HasRoom(TableRun(t, ops).pool)
    ensures EmptyIdle(TableRun(t, ops).pool)
    ensures FixOf(TableRun(t, ops).pool, p) ==
      FixOf(t.pool, p) + UpdatesAbove(ops, p) + ZeroPins(ops, p) - InsertsInto(t, ops, p) - DeletesOn(ops, p)
  {
    hide TableStep, HasRoom, EmptyIdle, FixOf, InBounds, NextRID, TableInv;
    if ops != [] {
      var before, op := ops[..|ops| - 1], ops[|ops| - 1];
      RoomBeforeStep(TableRun(t, before), op);
      RunHeld(t, before, p);
      StepHeld(TableRun(t, before), op, p);
    }
  }

  /** closeTable writes a page that differs from its block exactly when no fix count is left on it. */
  lemma WrittenIffUnheld(s: Pool, p: nat)
    requires Inv(s) && View(s, p) != Block(s.file, p)
    ensures Block(Flush(s).file, p) == View(s, p) <==> FixOf(s, p) == 0
  {
    hide Flush, Block;
    FlushedView(s, p);
  }

  /**
   * From a pool that holds no page from 1 on: a session that leaves a frame empty
   * gets a changed page p >= 1 onto the file by closing exactly when the insertions
   * into p and the deletions on it are as many as the updates on pages above it.
   */
  lemma SessionWrites(t: Table, ops: seq<TableOp>, p: nat)
    requires TableInv(t) && t.size <= 4096 && Runs(t, ops) && RecordCalls(ops)
    requires EmptyIdle(t.pool) && HasRoom(TableRun(t, ops).pool)
    requires p > 0 && FixOf(t.pool, p) == 0
    requires var u := TableRun(t, ops).pool; View(u, p) != Block(u.file, p)
    ensures var u := TableRun(t, ops);
      Block(CloseTable(u).pool.file, p) == View(u.pool, p) <==>
        InsertsInto(t, ops, p) + DeletesOn(ops, p) == UpdatesAbove(ops, p)
  {
    hide TableRun, Flush, View, Block, FixOf, HasRoom, InsertsInto, UpdatesAbove, DeletesOn;
    RunHeld(t, ops, p);
    WrittenIffUnheld(TableRun(t, ops).pool, p);
  }
}
