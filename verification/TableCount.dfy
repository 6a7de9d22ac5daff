/** getNumTuples against the number of live records. */
module TableCount {
  import opened Bytes
  import opened Coherence
  import opened Slots
  import opened RecordStore
  import Catalog

  /** The live RIDs: none lies on a page past the file and past the resident pages. */
  ghost function LiveSet(t: Table): set<RID>
    requires t.size > 0
  {
    set p: nat, k: nat | p < Extent(t.pool) && k < Capacity(t.size) && IsLive(t, RID(p, k)) :: RID(p, k)
  }

  lemma LiveSetIs(t: Table, rid: RID)
    requires t.size > 0
    ensures rid in LiveSet(t) <==> rid in Live(t)
  {
    hide View;
    if rid in Live(t) {
      if Extent(t.pool) <= rid.page {
        BeyondExtent(t.pool, rid.page);
        SlotFits(t.size, rid.slot);
      }
      assert IsLive(t, RID(rid.page, rid.slot));
    }
  }

  /** The deletions of the run that took a live record out. */
  ghost function Removals(t: Table, ops: seq<TableOp>): nat
    requires TableInv(t) && t.size <= 4096 && Runs(t, ops)
  {
    if ops == [] then 0
    else
      var before, op := ops[..|ops| - 1], ops[|ops| - 1];
      Removals(t, before) + if Removes(TableRun(t, before), op) then 1 else 0
  }

  ghost predicate Removes(t: Table, op: TableOp)
    requires t.size > 0
  {
    op.DeleteOp? && op.rid.slot < NUM_SLOTS && op.rid in LiveSet(t)
  }

  /** What openTable does to the gap: it takes page 0's count for its own. */
  ghost function Recounts(t: Table, ops: seq<TableOp>): int
    requires TableInv(t) && t.size <= 4096 && Runs(t, ops)
  {
    if ops == [] then 0
    else
      var before, op := ops[..|ops| - 1], ops[|ops| - 1];
      Recounts(t, before) + Recount(TableRun(t, before), op)
  }

  ghost function Recount(t: Table, op: TableOp): int {
    if op.OpenOp? then Catalog.HeaderTuples(View(t.pool, 0)) - t.tuples else 0
  }

  lemma StepCount(t: Table, op: TableOp)
    requires TableInv(t) && t.size <= 4096 && InBounds(t, op)
    ensures var u := TableStep(t, op);
      && u.size > 0
      && u.tuples - |LiveSet(u)| == t.tuples - |LiveSet(t)| + (if Removes(t, op) then 1 else 0) + Recount(t, op)
  {
    StepSize(t, op);
    hide TableStep, LiveSet, Live, NextRID, TableInv, InBounds, Removes, MapStep, View;
    TableStepMap(t, op);
    StepTuples(t, op);
    RemovesIs(t, op);
    var u := TableStep(t, op);
    forall rid: RID
      ensures rid in LiveSet(t) <==> rid in Live(t)
      ensures rid in LiveSet(u) <==> rid in Live(u)
    {
      LiveSetIs(t, rid);
      LiveSetIs(u, rid);
    }
    SetStep(LiveSet(t), Live(t), LiveSet(u), t.size, op, NextRID(t));
  }

  lemma StepSize(t: Table, op: TableOp)
    requires TableInv(t) && t.size <= 4096 && InBounds(t, op)
    ensures t.size > 0 && (op.InsertOp? ==> t.size <= |op.record|) && (op.UpdateOp? ==> t.size <= |op.record|)
  {
  }

  /** MapStep on the set of keys. */
  lemma SetStep(l: set<RID>, m: imap<RID, seq<byte>>, r: set<RID>, size: nat, op: TableOp, fresh': RID)
    requires op.InsertOp? ==> 0 < size <= |op.record|
    requires op.UpdateOp? ==> 0 < size <= |op.record|
    requires forall rid :: rid in l <==> rid in m
    requires forall rid :: rid in r <==> rid in MapStep(m, size, op, fresh')
    requires op.InsertOp? ==> fresh' !in m
    ensures op.InsertOp? ==> |r| == |l| + 1
    ensures !op.InsertOp? ==> |r| == |l| - if op.DeleteOp? && op.rid.slot < NUM_SLOTS && op.rid in l then 1 else 0
  {
    match op
    case InsertOp(_) => OneMore(l, r, fresh');
    case DeleteOp(rid) =>
      if rid.slot < NUM_SLOTS {
        OneLess(l, r, rid);
      } else {
        assert r == l;
      }
    case _ => assert r == l;
  }

  lemma OneMore(l: set<RID>, r: set<RID>, x: RID)
    requires x !in l && forall rid :: rid in r <==> rid in l || rid == x
    ensures |r| == |l| + 1
  {
    assert r == l + {x};
  }

  lemma OneLess(l: set<RID>, r: set<RID>, x: RID)
    requires forall rid :: rid in r <==> rid in l && rid != x
    ensures |r| == |l| - if x in l then 1 else 0
  {
    assert r == l - {x};
  }

  lemma RemovesIs(t: Table, op: TableOp)
    requires t.size > 0
    ensures Removes(t, op) <==> op.DeleteOp? && op.rid.slot < NUM_SLOTS && op.rid in LiveSet(t)
  {
  }

  /**
   * On every sequence of calls the tuple count runs ahead of the live records by
   * one for each deletion that took a record out, and each opening moves it to the
   * count in page 0, with the records as live as before.
   */
  lemma {:induction false} TuplesCountLive(t: Table, ops: seq<TableOp>)
    requires TableInv(t) && t.size <= 4096 && Runs(t, ops)
    ensures var u := TableRun(t, ops);
      u.tuples - |LiveSet(u)| == t.tuples - |LiveSet(t)| + Removals(t, ops) + Recounts(t, ops)
  {
    hide TableStep, LiveSet, Removes, Recount, TableInv, InBounds;
    if ops != [] {
      var before := ops[..|ops| - 1];
      TuplesCountLive(t, before);
      StepCount(TableRun(t, before), ops[|ops| - 1]);
    }
  }

  /** A count that was right is right again exactly when the removals make up for what the openings took off. */
  lemma CountRightIff(t: Table, ops: seq<TableOp>)
    requires TableInv(t) && t.size <= 4096 && Runs(t, ops) && t.tuples == |LiveSet(t)|
    ensures TableRun(t, ops).tuples == |LiveSet(TableRun(t, ops))| <==> Removals(t, ops) + Recounts(t, ops) == 0
  {
    hide LiveSet, TableRun;
    TuplesCountLive(t, ops);
  }

  lemma {:induction false} OneOpening(t: Table, ops: seq<TableOp>)
    requires TableInv(t) && t.size <= 4096 && Runs(t, ops) && forall k :: 0 <= k < |ops| ==> !ops[k].OpenOp?
    ensures Recounts(t, ops) == 0
  {
    hide InBounds, TableInv;
    if ops != [] {
      OneOpening(t, ops[..|ops| - 1]);
    }
  }

  /** While the table is not opened again, a right count stays right exactly until a deletion takes a record out. */
  lemma RightWhileOpen(t: Table, ops: seq<TableOp>)
    requires TableInv(t) && t.size <= 4096 && Runs(t, ops) && t.tuples == |LiveSet(t)|
    requires forall k :: 0 <= k < |ops| ==> !ops[k].OpenOp?
    ensures TableRun(t, ops).tuples == |LiveSet(TableRun(t, ops))| <==> Removals(t, ops) == 0
  {
    hide LiveSet, TableRun;
    OneOpening(t, ops);
    CountRightIff(t, ops);
  }

  /** Right after an opening the count is right exactly when page 0 names the number of records there are. */
  lemma RightAfterOpening(t: Table, ops: seq<TableOp>)
    requires TableInv(t) && t.size <= 4096 && Runs(t, ops) && ops != [] && ops[|ops| - 1].OpenOp?
    ensures var u, before := TableRun(t, ops), TableRun(t, ops[..|ops| - 1]);
      u.tuples == |LiveSet(u)| <==> Catalog.HeaderTuples(View(before.pool, 0)) == |LiveSet(before)|
  {
    hide LiveSet, View, TableInv, InBounds, TableStep;
    var before := TableRun(t, ops[..|ops| - 1]);
    StepCount(before, OpenOp);
    StepTuples(before, OpenOp);
    NothingRemoved(before);
  }

  lemma NothingRemoved(t: Table)
    requires t.size > 0
    ensures !Removes(t, OpenOp)
  {
  }
}
