/** What each record call does to the sum of fix counts: none of them gives back exactly what it took. */
module TableBalance {
  import opened BlockStore
  import opened PoolSteps
  import opened Coherence
  import opened Slots
  import opened RecordStore
  import opened Accounting

  function Held(t: Table): int {
    FixSum(t.pool.frames)
  }

  /**
   * Pins left over by a call that meets no replacement: -1 for a deletion, one for
   * each earlier page for an update, and page 0 for openTable.
   */
  function Surplus(op: TableOp): int {
    match op
    case DeleteOp(rid) => if rid.slot < NUM_SLOTS then -1 else 0
    case UpdateOp(rid, _) => rid.page
    case OpenOp => 1
    case _ => 0
  }

  /** The fix counts thrown away while pages `first` to `last - 1` are pinned and unpinned. */
  function LostSearching(s: Pool, first: nat, last: nat): int
    requires |s.frames| > 0 && first <= last
    decreases last
  {
    if first == last then 0 else LostSearching(s, first, last - 1) + FixLost(Searched(s, first, last - 1), last - 1)
  }

  /** The same for pages 0 to n - 1, pinned and kept. */
  function LostPinning(s: Pool, n: nat): int
    requires |s.frames| > 0
  {
    if n == 0 then 0 else LostPinning(s, n - 1) + FixLost(PinnedUpTo(s, n - 1), n - 1)
  }

  /** The fix counts that the replacements within a call throw away. */
  ghost function Lost(t: Table, op: TableOp): int
    requires TableInv(t) && t.size <= 4096 && InBounds(t, op) && !op.PoolOp?
  {
    match op
    case InsertOp(record) =>
      var rid := NextRID(t);
      var searched := Searched(t.pool, t.pageID, rid.page);
      var found := Pin(searched, rid.page);
      var stored := Write(found, rid.page, PutSlot(View(found, rid.page), t.size, rid.slot, Image(t.size, record)));
      var unpinned := Unpin(Unpin(stored, rid.page), rid.page);
      LostSearching(t.pool, t.pageID, rid.page) + FixLost(searched, rid.page) + FixLost(unpinned, 0)
    case DeleteOp(rid) => FixLost(t.pool, rid.page)
    case UpdateOp(rid, _) => LostPinning(t.pool, rid.page) + FixLost(PinnedUpTo(t.pool, rid.page), rid.page)
    case GetOp(rid) => FixLost(t.pool, rid.page)
    case OpenOp => FixLost(t.pool, 0)
    case CloseOp => 0
  }

  // ---------- One pool step ----------

  ghost predicate Ready(s: Pool): (ready: bool)
    ensures ready ==> |s.frames| > 0
  {
    Inv(s) && s.strategy == LRU && EmptyIdle(s)
  }

  ghost predicate Has(s: Pool, p: nat) {
    IndexOf(s.frames, p) < |s.frames|
  }

  lemma AfterPin(s: Pool, p: nat)
    requires Ready(s)
    ensures Ready(Pin(s, p)) && Has(Pin(s, p), p)
    ensures FixSum(Pin(s, p).frames) == FixSum(s.frames) + 1 - FixLost(s, p)
  {
    PinBalance(s, p);
    LruPin(s, p);
    assert Victim(Counted(s)).Some?;
  }

  lemma AfterUnpin(s: Pool, p: nat)
    requires Ready(s) && Has(s, p)
    ensures Ready(Unpin(s, p)) && Has(Unpin(s, p), p)
    ensures FixSum(Unpin(s, p).frames) == FixSum(s.frames) - 1
  {
    var i := IndexOf(s.frames, p);
    var f := s.frames[i].(fix := s.frames[i].fix - 1);
    UnpinAlike(s, p);
    FoundSums(s, p, Unpin(s, p));
    SamePages(s.frames, i, f);
  }

  lemma AfterWrite(s: Pool, p: nat, page: Page)
    requires Ready(s) && Has(s, p)
    ensures Ready(Write(s, p, page)) && Has(Write(s, p, page), p)
    ensures FixSum(Write(s, p, page).frames) == FixSum(s.frames)
  {
    var i := IndexOf(s.frames, p);
    WriteKeeps(s, p, page);
    FoundSums(s, p, Write(s, p, page));
    SamePages(s.frames, i, s.frames[i].(data := page, dirty := true));
  }

  lemma AfterFlush(s: Pool)
    requires Ready(s)
    ensures Ready(Flush(s)) && FixSum(Flush(s).frames) == FixSum(s.frames)
  {
    FlushToKeeps(s, |s.frames|);
    FlushIdle(s);
    FlushSums(s, |s.frames|);
  }

  lemma AfterForce(s: Pool, h: int)
    requires Ready(s)
    ensures Ready(Force(s, h)) && FixSum(Force(s, h).frames) == FixSum(s.frames)
  {
    hide View;
    StepKeeps(s, ForceOp(h));
    FoundSums(s, h, Force(s, h));
  }

  // ---------- The calls ----------

  lemma {:induction false} SearchHeld(s: Pool, first: nat, last: nat)
    requires Ready(s) && first <= last
    ensures Ready(Searched(s, first, last))
    ensures FixSum(Searched(s, first, last).frames) == FixSum(s.frames) - LostSearching(s, first, last)
    decreases last
  {
    hide Pin, Unpin, Ready, Has, FixLost, FixSum;
    if first < last {
      SearchHeld(s, first, last - 1);
      var t := Searched(s, first, last - 1);
      AfterPin(t, last - 1);
      AfterUnpin(Pin(t, last - 1), last - 1);
    }
  }

  lemma {:induction false} PinnedHeld(s: Pool, n: nat)
    requires Ready(s)
    ensures Ready(PinnedUpTo(s, n))
    ensures FixSum(PinnedUpTo(s, n).frames) == FixSum(s.frames) + n - LostPinning(s, n)
  {
    hide Pin, Ready, Has, FixLost, FixSum;
    if n > 0 {
      PinnedHeld(s, n - 1);
      AfterPin(PinnedUpTo(s, n - 1), n - 1);
    }
  }

  /** Pin, write and unpin twice: one pin short. */
  lemma StoredHeld(s: Pool, p: nat, page: Page)
    requires Ready(s)
    ensures var u := Unpin(Write(Pin(s, p), p, page), p);
      && Ready(u) && FixSum(u.frames) == FixSum(s.frames) - FixLost(s, p)
      && Ready(Unpin(u, p)) && FixSum(Unpin(u, p).frames) == FixSum(s.frames) - 1 - FixLost(s, p)
  {
    hide Pin, Write, Unpin, Ready, Has, FixLost, FixSum;
    AfterPin(s, p);
    AfterWrite(Pin(s, p), p, page);
    AfterUnpin(Write(Pin(s, p), p, page), p);
    AfterUnpin(Unpin(Write(Pin(s, p), p, page), p), p);
  }

  /**
   * The exact balance of each record call: pins taken, less pins given back, less
   * what LRU's replacements threw away. A deletion leaves the pool one pin short,
   * an update keeps every page before its own, and openTable keeps page 0.
   */
  lemma CallBalance(t: Table, op: TableOp)
    requires TableInv(t) && t.size <= 4096 && InBounds(t, op) && !op.PoolOp?
    requires EmptyIdle(t.pool)
    ensures EmptyIdle(TableStep(t, op).pool)
    ensures Held(TableStep(t, op)) == Held(t) + Surplus(op) - Lost(t, op)
  {
    hide Pin, Write, Unpin, Force, Flush, FixLost, FixSum, View, FreePage, CheckCase, PutSlot, Image, Buried, EmptyIdle;
    assert Ready(t.pool);
    match op
    case InsertOp(record) =>
      var rid := NextRID(t);
      var searched := Searched(t.pool, t.pageID, rid.page);
      SearchHeld(t.pool, t.pageID, rid.page);
      var page := PutSlot(View(Pin(searched, rid.page), rid.page), t.size, rid.slot, Image(t.size, record));
      StoredHeld(searched, rid.page, page);
      AfterPin(Unpin(Unpin(Write(Pin(searched, rid.page), rid.page, page), rid.page), rid.page), 0);
    case DeleteOp(rid) =>
      if rid.slot < NUM_SLOTS {
        StoredHeld(t.pool, rid.page, Buried(View(Pin(t.pool, rid.page), rid.page), rid.slot * t.size));
      } else {
        AfterPin(t.pool, rid.page);
        AfterUnpin(Pin(t.pool, rid.page), rid.page);
      }
    case UpdateOp(rid, record) =>
      var s := PinnedUpTo(t.pool, rid.page);
      PinnedHeld(t.pool, rid.page);
      var before := View(Pin(s, rid.page), rid.page);
      var image := [SlotAt(before, t.size, rid.slot)[0]] + record[1..t.size];
      StoredHeld(s, rid.page, PutSlot(before, t.size, rid.slot, image));
    case GetOp(rid) =>
      AfterPin(t.pool, rid.page);
      AfterUnpin(Pin(t.pool, rid.page), rid.page);
    case OpenOp =>
      AfterPin(t.pool, 0);
      AfterForce(Pin(t.pool, 0), 0);
    case CloseOp => AfterFlush(t.pool);
  }

  // ---------- Runs ----------

  ghost predicate RecordCalls(ops: seq<TableOp>) {
    forall k :: 0 <= k < |ops| ==> !ops[k].PoolOp?
  }

  function TotalSurplus(ops: seq<TableOp>): int {
    if ops == [] then 0 else TotalSurplus(ops[..|ops| - 1]) + Surplus(ops[|ops| - 1])
  }

  ghost function TotalLost(t: Table, ops: seq<TableOp>): int
    requires TableInv(t) && t.size <= 4096 && Runs(t, ops) && RecordCalls(ops)
  {
    if ops == [] then 0
    else TotalLost(t, ops[..|ops| - 1]) + Lost(TableRun(t, ops[..|ops| - 1]), ops[|ops| - 1])
  }

  /** On every sequence of record calls. */
  lemma {:induction false} RunBalance(t: Table, ops: seq<TableOp>)
    requires TableInv(t) && t.size <= 4096 && Runs(t, ops) && RecordCalls(ops)
    requires EmptyIdle(t.pool)
    ensures EmptyIdle(TableRun(t, ops).pool)
    ensures Held(TableRun(t, ops)) == Held(t) + TotalSurplus(ops) - TotalLost(t, ops)
  {
    hide TableStep, Lost, Held, Surplus, EmptyIdle;
    if ops != [] {
      var before := ops[..|ops| - 1];
      RunBalance(t, before);
      CallBalance(TableRun(t, before), ops[|ops| - 1]);
    }
  }

  /** On a resident page nothing is thrown away: a deletion from an idle page makes its fix count negative. */
  lemma DeleteUnderflows(t: Table, rid: RID)
    requires TableInv(t) && DeleteInBounds(t, rid) && rid.slot < NUM_SLOTS && Has(t.pool, rid.page)
    ensures var i := IndexOf(t.pool.frames, rid.page);
      Delete(t, rid).pool.frames[i].fix == t.pool.frames[i].fix - 1
  {
    var s, p := t.pool, rid.page;
    var i := IndexOf(s.frames, p);
    ProbeFinds(s.frames, p);
    var found := Pin(s, p);
    assert found == Hit(s, i);
    SamePages(s.frames, i, found.frames[i]);
    var page := Buried(View(found, p), rid.slot * t.size);
    var stored := Write(found, p, page);
    SamePages(found.frames, i, stored.frames[i]);
    SamePages(stored.frames, i, Unpin(stored, p).frames[i]);
  }
}
