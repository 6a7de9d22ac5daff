/** The cursor of startScan and next. */
module Scan {
  import opened BlockStore
  import opened Slots

  /** recordNum and numOfTuplesScanned of a scan's bookkeeping. */
  datatype Cursor = Cursor(page: nat, slot: nat, scanned: nat)

  const START := Cursor(1, 0, 0)

  /** Whether next moves the cursor; the table's tuple count is `tuples`. */
  predicate CanAdvance(c: Cursor, tuples: int) {
    tuples != 0 && c.scanned <= tuples
  }

  /** The next slot, and slot 0 of the next page after the last one. */
  function Forward(c: Cursor, size: nat): Cursor
    requires size > 0
  {
    if c.slot + 1 >= Capacity(size) then c.(page := c.page + 1, slot := 0) else c.(slot := c.slot + 1)
  }

  /**
   * One turn of next's loop: the slot is bumped before the first record is looked
   * at. If the record cannot be fetched, next returns before it counts the turn.
   */
  function Advance(c: Cursor, size: nat, fetched: bool): Cursor
    requires size > 0
  {
    var d := Forward(c, size);
    if fetched then d.(scanned := d.scanned + 1) else d
  }

  /** After one turn for each element of `turns`, true where the record was fetched. */
  function AfterTurns(size: nat, turns: seq<bool>): Cursor
    requires size > 0
  {
    if turns == [] then START else Advance(AfterTurns(size, turns[..|turns| - 1]), size, turns[|turns| - 1])
  }

  function Fetches(turns: seq<bool>): nat {
    if turns == [] then 0 else Fetches(turns[..|turns| - 1]) + if turns[|turns| - 1] then 1 else 0
  }

  /** After k turns that all fetched their record. */
  function After(size: nat, k: nat): Cursor
    requires size > 0
  {
    if k == 0 then START else Advance(After(size, k - 1), size, true)
  }

  /** The place of (page, slot) in the order of the scan, pages counted from 1. */
  function Place(page: nat, slot: nat, size: nat): int
    requires size > 0
  {
    (page - 1) * Capacity(size) + slot
  }

  /** Whatever was fetched: after k turns the cursor stands at place k, and it has counted the fetches. */
  lemma {:induction false} TurnsPlace(size: nat, turns: seq<bool>)
    requires 0 < size <= 4096
    ensures var c := AfterTurns(size, turns);
      && c.scanned == Fetches(turns) && 1 <= c.page && c.slot < Capacity(size)
      && Place(c.page, c.slot, size) == |turns|
  {
    SlotFits(size, 0);
    if turns != [] {
      TurnsPlace(size, turns[..|turns| - 1]);
      var c := AfterTurns(size, turns[..|turns| - 1]);
      assert (c.page + 1 - 1) * Capacity(size) == (c.page - 1) * Capacity(size) + Capacity(size);
    }
  }

  /** So a scan makes at most tuples + 1 turns that fetch a record, and the others do not bring it nearer to its end. */
  lemma {:induction false} FetchesBounded(size: nat, tuples: nat, turns: seq<bool>)
    requires 0 < size <= 4096
    requires forall k :: 0 <= k < |turns| ==> CanAdvance(AfterTurns(size, turns[..k]), tuples)
    ensures Fetches(turns) <= tuples + 1
  {
    if turns != [] {
      var before := turns[..|turns| - 1];
      TurnsPlace(size, before);
      assert CanAdvance(AfterTurns(size, before), tuples);
    }
  }

  /** After k advances the cursor stands at place k, so no position comes twice and none is jumped over. */
  lemma {:induction false} AfterPlace(size: nat, k: nat)
    requires 0 < size <= 4096
    ensures var c := After(size, k);
      c.scanned == k && 1 <= c.page && c.slot < Capacity(size) && Place(c.page, c.slot, size) == k
  {
    SlotFits(size, 0);
    if k > 0 {
      AfterPlace(size, k - 1);
      var c := After(size, k - 1);
      assert (c.page + 1 - 1) * Capacity(size) == (c.page - 1) * Capacity(size) + Capacity(size);
    }
  }

  lemma PlaceInjective(size: nat, page: nat, slot: nat, page': nat, slot': nat)
    requires size > 0 && slot < Capacity(size) && slot' < Capacity(size)
    requires 1 <= page && 1 <= page' && Place(page, slot, size) == Place(page', slot', size)
    ensures page == page' && slot == slot'
  {
    var cap := Capacity(size);
    if page < page' {
      SlotsApart(cap, page - 1, page' - 1);
    } else if page' < page {
      SlotsApart(cap, page' - 1, page - 1);
    }
  }

  predicate At(c: Cursor, page: nat, slot: nat) {
    c.page == page && c.slot == slot
  }

  /** A slot is visited within a scan over `tuples` tuples. */
  ghost predicate Visited(size: nat, tuples: int, page: nat, slot: nat)
    requires size > 0
  {
    exists k: nat :: 1 <= k && CanAdvance(After(size, k - 1), tuples) && At(After(size, k), page, slot)
  }

  /** A scan visits exactly the places 1 to tuples + 1: never slot 0 of page 1, and nothing on page 0. */
  lemma VisitedIff(size: nat, tuples: int, page: nat, slot: nat)
    requires 0 < size <= 4096 && slot < Capacity(size)
    ensures Visited(size, tuples, page, slot) <==>
      tuples != 0 && 1 <= page && 1 <= Place(page, slot, size) <= tuples + 1
  {
    if Visited(size, tuples, page, slot) {
      var k: nat :| 1 <= k && CanAdvance(After(size, k - 1), tuples) && At(After(size, k), page, slot);
      AfterPlace(size, k - 1);
      AfterPlace(size, k);
    }
    if tuples != 0 && 1 <= page && 1 <= Place(page, slot, size) <= tuples + 1 {
      var k := Place(page, slot, size);
      AfterPlace(size, k - 1);
      AfterPlace(size, k);
      var c := After(size, k);
      PlaceInjective(size, page, slot, c.page, c.slot);
    }
  }

  /** The bookkeeping that startScan allocates for each scan. */
  class ScanHandle {
    var page: nat
    var slot: nat
    var scanned: nat

    ghost function Position(): Cursor
      reads this
    {
      Cursor(page, slot, scanned)
    }

    /** startScan. */
    constructor ()
      ensures Position() == START
    {
      page, slot, scanned := 1, 0, 0;
    }

    /** next, up to the record it fetches; `fetched` says whether it got that far. Else it returns no defined code. */
    method Next(size: nat, tuples: int, fetched: bool) returns (rc: RC)
      requires size > 0
      modifies this
      ensures CanAdvance(old(Position()), tuples) ==> Position() == Advance(old(Position()), size, fetched)
      ensures CanAdvance(old(Position()), tuples) && fetched ==> rc == OK
      ensures !CanAdvance(old(Position()), tuples) ==> Position() == old(Position()) && rc == NO_MORE_TUPLES
    {
      if tuples == 0 {
        return NO_MORE_TUPLES;
      }
      if scanned <= tuples {
        slot := slot + 1;
        if slot >= 4096 / size {
          slot := 0;
          page := page + 1;
        }
        if !fetched {
          return ERROR;
        }
        scanned := scanned + 1;
        return OK;
      }
      rc := NO_MORE_TUPLES;
    }
  }
}
