/**
 * The record calls of record_mgr.c as steps on a table value, and the map from
 * RIDs to payloads that they implement through the buffer pool.
 */
module RecordStore {
  import opened Bytes
  import opened BlockStore
  import opened PoolSteps
  import opened Coherence
  import opened Slots
  import opened Options
  import Catalog

  datatype RID = RID(page: nat, slot: nat)

  /** recordManager; `size` is getRecordSize of the table's schema. */
  datatype Table = Table(pool: Pool, tuples: int, pageID: int, size: nat)

  /** deleteRecord's own idea of the slots in a page. */
  const NUM_SLOTS: nat := 100

  /** createTable opens every table on an LRU pool, and record sizes start at 1. */
  ghost predicate TableInv(t: Table) {
    Inv(t.pool) && t.pool.strategy == LRU && t.size > 0
  }

  // ---------- Where a record goes ----------

  /** A page number past the end of the file and past every resident page. */
  function Extent(s: Pool): nat {
    var m := MaxPage(s.frames);
    if |s.file| < m then m else |s.file|
  }

  function MaxPage(frames: seq<Frame>): (m: nat)
    ensures forall i :: 0 <= i < |frames| ==> frames[i].page < m
  {
    if frames == [] then 0
    else
      var m := MaxPage(frames[..|frames| - 1]);
      if m <= frames[|frames| - 1].page then frames[|frames| - 1].page + 1 else m
  }

  lemma BeyondExtent(s: Pool, p: nat)
    requires Extent(s) <= p
    ensures View(s, p) == ZERO_PAGE
  {
    IndexNone(s.frames, p);
    BeyondEnd(s.file, p);
  }

  /** The page on which insertRecord's loop stops, starting from `page`. */
  function FreePage(s: Pool, size: nat, page: nat): (q: nat)
    requires 0 < size <= 4096
    ensures page <= q && CheckCase(View(s, q), size) != -1
    ensures forall p :: page <= p < q ==> CheckCase(View(s, p), size) == -1
    decreases Extent(s) - page
  {
    if CheckCase(View(s, page), size) != -1 then page
    else
      assert page < Extent(s) by {
        if Extent(s) <= page {
          BeyondExtent(s, page);
          FreshPage(size);
        }
      }
      FreePage(s, size, page + 1)
  }

  lemma NotYet(s: Pool, size: nat, first: nat, page: nat)
    requires 0 < size <= 4096 && page <= FreePage(s, size, first) && CheckCase(View(s, page), size) == -1
    ensures page < FreePage(s, size, first)
  {
  }

  /** insertRecord's loop ends if and only if a record fits in a page. */
  lemma SearchEnds(s: Pool, size: nat, page: nat)
    requires size > 0
    ensures (exists q: nat :: page <= q && CheckCase(View(s, q), size) != -1) <==> size <= 4096
  {
    if size <= 4096 {
      var q := FreePage(s, size, page);
    } else {
      SlotFits(size, 0);
      assert forall p: Page :: CheckCase(p, size) == -1;
    }
  }

  /** Where the search for a free slot starts. A negative page would end the program in readBlock. */
  function First(t: Table): nat {
    if t.pageID < 0 then 0 else t.pageID
  }

  /** The RID that insertRecord gives the next record. */
  function NextRID(t: Table): (rid: RID)
    requires 0 < t.size <= 4096
    ensures rid.slot < Capacity(t.size)
  {
    var q := FreePage(t.pool, t.size, First(t));
    RID(q, CheckCase(View(t.pool, q), t.size))
  }

  predicate Before(a: RID, b: RID) {
    a.page < b.page || (a.page == b.page && a.slot < b.slot)
  }

  /** The bytes of a slot as the client sees them; none for a slot number past the page. */
  function Content(t: Table, rid: RID): (b: seq<byte>)
    requires t.size > 0
    ensures |b| == if rid.slot < Capacity(t.size) then t.size else 0
  {
    if rid.slot < Capacity(t.size) then SlotAt(View(t.pool, rid.page), t.size, rid.slot) else []
  }

  predicate Marked(b: seq<byte>) {
    b != [] && b[0] == LIVE
  }

  /** RID `rid` holds a record that has not been deleted. */
  predicate IsLive(t: Table, rid: RID)
    requires t.size > 0
  {
    Marked(Content(t, rid))
  }

  /** It is the first free RID, in order of page and slot, from (pageID, 0) on. */
  lemma NextIsFirstFree(t: Table, other: RID)
    requires 0 < t.size <= 4096
    ensures !IsLive(t, NextRID(t)) && !Before(NextRID(t), RID(First(t), 0))
    ensures other.slot < Capacity(t.size) && !Before(other, RID(First(t), 0)) && Before(other, NextRID(t)) ==>
      IsLive(t, other)
  {
    var rid := NextRID(t);
    assert !InUse(View(t.pool, rid.page), t.size, rid.slot);
    if other.slot < Capacity(t.size) && First(t) <= other.page {
      if other.page < rid.page {
        assert CheckCase(View(t.pool, other.page), t.size) == -1;
        assert InUse(View(t.pool, other.page), t.size, other.slot);
      } else if other.page == rid.page && other.slot < rid.slot {
        assert InUse(View(t.pool, other.page), t.size, other.slot);
      }
    }
  }

  // ---------- The calls ----------

  /** The pool after the pages `first` to `last - 1` were pinned, found full and unpinned. */
  function Searched(s: Pool, first: nat, last: nat): (t: Pool)
    requires |s.frames| > 0 && first <= last
    ensures |t.frames| == |s.frames| && t.strategy == s.strategy
    decreases last
  {
    if first == last then s else Unpin(Pin(Searched(s, first, last - 1), last - 1), last - 1)
  }

  /** The slot image that updatePage stores: '#' and the record's bytes after its first. */
  function Image(size: nat, record: seq<byte>): (b: seq<byte>)
    requires 0 < size <= |record|
    ensures |b| == size
  {
    [LIVE] + record[1..size]
  }

  /** insertRecord. updatePage unpins the page twice and then pins page 0. */
  function Insert(t: Table, record: seq<byte>): Table
    requires |t.pool.frames| > 0 && 0 < t.size <= 4096 && t.size <= |record| && t.pageID >= 0
  {
    var rid := NextRID(t);
    var found := Pin(Searched(t.pool, t.pageID, rid.page), rid.page);
    var page := PutSlot(View(found, rid.page), t.size, rid.slot, Image(t.size, record));
    var stored := Write(found, rid.page, page);
    var unpinned := Unpin(Unpin(stored, rid.page), rid.page);
    t.(pool := Pin(unpinned, 0), tuples := t.tuples + 1)
  }

  /** deleteRecord's pointer stays inside the page whenever the pointer is used. */
  predicate DeleteInBounds(t: Table, rid: RID) {
    rid.slot >= NUM_SLOTS || rid.slot * t.size < 4096
  }

  /** A '*' at offset `at`. */
  function Buried(page: Page, at: nat): Page
    requires at < 4096
  {
    page[at := DEAD]
  }

  /** deleteRecord: refuses slots from 100 on; else a '*', with the tuple count as it was. */
  function Delete(t: Table, rid: RID): Table
    requires |t.pool.frames| > 0 && DeleteInBounds(t, rid)
  {
    var found := Pin(t.pool, rid.page);
    if rid.slot >= NUM_SLOTS then
      t.(pool := Unpin(found, rid.page), pageID := rid.page)
    else
      var page := Buried(View(found, rid.page), rid.slot * t.size);
      var stored := Write(found, rid.page, page);
      t.(pool := Unpin(Unpin(stored, rid.page), rid.page), pageID := rid.page)
  }

  function DeleteRC(rid: RID): RC {
    if rid.slot >= NUM_SLOTS then NO_MORE_TUPLES else OK
  }

  /** updateRecord's pins of the pages before the record's own, none given back. */
  function PinnedUpTo(s: Pool, n: nat): (t: Pool)
    requires |s.frames| > 0
    ensures |t.frames| == |s.frames| && t.strategy == s.strategy
  {
    if n == 0 then s else Pin(PinnedUpTo(s, n - 1), n - 1)
  }

  /** updateRecord: the payload changes, the tombstone byte stays. */
  function Update(t: Table, rid: RID, record: seq<byte>): Table
    requires |t.pool.frames| > 0 && 0 < t.size <= |record| && rid.slot < Capacity(t.size)
  {
    var found := Pin(PinnedUpTo(t.pool, rid.page), rid.page);
    var before := View(found, rid.page);
    var page := PutSlot(before, t.size, rid.slot, [SlotAt(before, t.size, rid.slot)[0]] + record[1..t.size]);
    var stored := Write(found, rid.page, page);
    t.(pool := Unpin(stored, rid.page))
  }

  /** getRecord on the table. */
  function Get(t: Table, rid: RID): Table
    requires |t.pool.frames| > 0
  {
    t.(pool := Unpin(Pin(t.pool, rid.page), rid.page))
  }

  /** getRecord on the caller's record: its first byte stays, the payload follows. */
  function Fetched(t: Table, rid: RID, record: seq<byte>): seq<byte>
    requires 0 < t.size <= |record| && rid.slot < Capacity(t.size)
  {
    Splice(record, 1, SlotAt(View(t.pool, rid.page), t.size, rid.slot)[1..])
  }

  /** openTable on the pool that the table has had since createTable. It pins page 0 and never unpins it. */
  function OpenTable(t: Table): Table
    requires |t.pool.frames| > 0
  {
    var found := Pin(t.pool, 0);
    var page := View(found, 0);
    t.(pool := Force(found, 0), tuples := Catalog.HeaderTuples(page), pageID := Catalog.HeaderPageID(page))
  }

  /** closeTable: shutdownBufferPool flushes, and returns before it frees a frame. */
  function CloseTable(t: Table): Table {
    t.(pool := Flush(t.pool))
  }

  // ---------- The calls on the client's view of the pages ----------

  /** `t` shows the same pages as `s`. */
  ghost predicate Alike(s: Pool, t: Pool) {
    Inv(t) && t.strategy == s.strategy && |t.frames| == |s.frames| && forall q: nat :: View(t, q) == View(s, q)
  }

  lemma Housekeeping(s: Pool, op: Op)
    requires Inv(s) && !op.WriteOp?
    ensures Alike(s, Step(s, op))
  {
    StepKeeps(s, op);
  }

  lemma PinAlike(s: Pool, p: nat)
    requires Inv(s)
    ensures Alike(s, Pin(s, p))
  {
    PinKeeps(s, p);
  }

  lemma UnpinAlike(s: Pool, h: int)
    requires Inv(s)
    ensures Alike(s, Unpin(s, h))
  {
    FrameFieldsKeep(s, h, Unpin(s, h));
  }

  /** An LRU pool always makes room, whatever is pinned. */
  lemma LruPin(s: Pool, p: nat)
    requires Inv(s) && s.strategy == LRU
    ensures Alike(s, Pin(s, p)) && IndexOf(Pin(s, p).frames, p) < |s.frames|
  {
    PinAlike(s, p);
    ProbeFinds(s.frames, p);
    var i, t := Probe(s.frames, p), Pin(s, p);
    if i == |s.frames| {
      var v := LruScan(s.frames, |s.frames|);
      InstallKeeps(Counted(s), v, p);
    } else if s.frames[i].page < 0 {
      LoadKeeps(s, i, p);
    } else {
      SamePages(s.frames, i, Hit(s, i).frames[i]);
    }
  }

  lemma AlikeItself(s: Pool)
    requires Inv(s)
    ensures Alike(s, s)
  {
  }

  lemma AlikeThen(s: Pool, t: Pool, u: Pool)
    requires Alike(s, t) && Alike(t, u)
    ensures Alike(s, u)
  {
  }

  lemma ThenPin(s: Pool, t: Pool, p: nat)
    requires Alike(s, t)
    ensures Alike(s, Pin(t, p))
  {
    PinAlike(t, p);
    AlikeThen(s, t, Pin(t, p));
  }

  lemma ThenUnpin(s: Pool, t: Pool, h: int)
    requires Alike(s, t)
    ensures Alike(s, Unpin(t, h))
  {
    UnpinAlike(t, h);
    AlikeThen(s, t, Unpin(t, h));
  }

  lemma {:induction false} SearchedAlike(s: Pool, first: nat, last: nat)
    requires Inv(s) && first <= last
    ensures Alike(s, Searched(s, first, last))
    decreases last
  {
    hide Alike, Searched;
    if first == last {
      AlikeItself(s);
      SearchedNone(s, first);
    } else {
      SearchedAlike(s, first, last - 1);
      SearchedMore(s, first, last);
    }
  }

  lemma SearchedNone(s: Pool, first: nat)
    requires |s.frames| > 0
    ensures Searched(s, first, first) == s
  {
  }

  lemma SearchedMore(s: Pool, first: nat, last: nat)
    requires Inv(s) && first < last && Alike(s, Searched(s, first, last - 1))
    ensures Alike(s, Searched(s, first, last))
  {
    hide Pin, Unpin, View, Alike;
    var t := Searched(s, first, last - 1);
    ThenPin(s, t, last - 1);
    ThenUnpin(s, Pin(t, last - 1), last - 1);
  }

  /** The page found is the page as it was before the search. */
  lemma FoundView(s: Pool, first: nat, last: nat)
    requires Inv(s) && first <= last
    ensures View(Pin(Searched(s, first, last), last), last) == View(s, last)
  {
    hide Pin, View;
    SearchedAlike(s, first, last);
    ThenPin(s, Searched(s, first, last), last);
  }

  lemma {:induction false} PinnedAlike(s: Pool, n: nat)
    requires Inv(s)
    ensures Alike(s, PinnedUpTo(s, n))
  {
    hide Pin, View;
    if n > 0 {
      PinnedAlike(s, n - 1);
      ThenPin(s, PinnedUpTo(s, n - 1), n - 1);
    }
  }

  /** Only page `p` changes, and it becomes `page`. */
  ghost predicate Changed(s: Pool, t: Pool, p: nat, page: Page) {
    Inv(t) && t.strategy == s.strategy && forall q: nat :: View(t, q) == if q == p then page else View(s, q)
  }

  /** Pin, write, and unpin twice: the page changes and the rest of the client's view does not. */
  lemma StoreView(s: Pool, s': Pool, p: nat, page: Page)
    requires Inv(s) && s.strategy == LRU && Alike(s, s')
    ensures var found := Pin(s', p); var stored := Write(found, p, page);
      && View(found, p) == View(s, p)
      && Changed(s, Unpin(stored, p), p, page)
      && Changed(s, Unpin(Unpin(stored, p), p), p, page)
  {
    LruPin(s', p);
    var found := Pin(s', p);
    var stored := Write(found, p, page);
    WriteKeeps(found, p, page);
    UnpinAlike(stored, p);
    UnpinAlike(Unpin(stored, p), p);
  }

  lemma InsertView(t: Table, record: seq<byte>)
    requires TableInv(t) && t.size <= 4096 && t.size <= |record| && t.pageID >= 0
    ensures var rid := NextRID(t);
      Changed(t.pool, Insert(t, record).pool, rid.page,
              PutSlot(View(t.pool, rid.page), t.size, rid.slot, Image(t.size, record)))
  {
    var rid := NextRID(t);
    var s' := Searched(t.pool, t.pageID, rid.page);
    SearchedAlike(t.pool, t.pageID, rid.page);
    var found := Pin(s', rid.page);
    var page := PutSlot(View(found, rid.page), t.size, rid.slot, Image(t.size, record));
    StoreView(t.pool, s', rid.page, page);
    PinAlike(Unpin(Unpin(Write(found, rid.page, page), rid.page), rid.page), 0);
  }

  /** Opening and closing show the pages as they were. */
  lemma OpenView(t: Table)
    requires TableInv(t)
    ensures Alike(t.pool, OpenTable(t).pool) && Alike(t.pool, CloseTable(t).pool)
    ensures View(Pin(t.pool, 0), 0) == View(t.pool, 0)
  {
    hide View, Pin, Force, Flush;
    PinAlike(t.pool, 0);
    Housekeeping(Pin(t.pool, 0), ForceOp(0));
    AlikeThen(t.pool, Pin(t.pool, 0), Force(Pin(t.pool, 0), 0));
    Housekeeping(t.pool, FlushOp);
  }

  lemma DeleteView(t: Table, rid: RID)
    requires TableInv(t) && DeleteInBounds(t, rid)
    ensures Delete(t, rid).size == t.size
    ensures rid.slot >= NUM_SLOTS ==> Alike(t.pool, Delete(t, rid).pool)
    ensures rid.slot < NUM_SLOTS ==>
      Changed(t.pool, Delete(t, rid).pool, rid.page, Buried(View(t.pool, rid.page), rid.slot * t.size))
  {
    var found := Pin(t.pool, rid.page);
    PinAlike(t.pool, rid.page);
    if rid.slot >= NUM_SLOTS {
      UnpinAlike(found, rid.page);
    } else {
      StoreView(t.pool, t.pool, rid.page, Buried(View(found, rid.page), rid.slot * t.size));
    }
  }

  lemma UpdateView(t: Table, rid: RID, record: seq<byte>)
    requires TableInv(t) && t.size <= |record| && rid.slot < Capacity(t.size)
    ensures var before := View(t.pool, rid.page);
      Changed(t.pool, Update(t, rid, record).pool, rid.page,
              PutSlot(before, t.size, rid.slot, [SlotAt(before, t.size, rid.slot)[0]] + record[1..t.size]))
  {
    var s' := PinnedUpTo(t.pool, rid.page);
    PinnedAlike(t.pool, rid.page);
    PinAlike(s', rid.page);
    var before := View(Pin(s', rid.page), rid.page);
    var image := [SlotAt(before, t.size, rid.slot)[0]] + record[1..t.size];
    StoreView(t.pool, s', rid.page, PutSlot(before, t.size, rid.slot, image));
  }

  // ---------- The table as a map ----------

  ghost function Contents(t: Table): RID -> seq<byte>
    requires t.size > 0
  {
    rid => Content(t, rid)
  }

  ghost function Records(c: RID -> seq<byte>): imap<RID, seq<byte>> {
    imap rid: RID | Marked(c(rid)) :: c(rid)[1..]
  }

  /** The live records: payload by RID. */
  ghost function Live(t: Table): imap<RID, seq<byte>>
    requires t.size > 0
  {
    Records(Contents(t))
  }

  lemma RecordsChange(c: RID -> seq<byte>, d: RID -> seq<byte>, rid: RID, b: seq<byte>)
    requires b != [] && forall other: RID :: d(other) == if other == rid then b else c(other)
    ensures Records(d) == if b[0] == LIVE then Records(c)[rid := b[1..]] else Records(c) - {rid}
  {
  }

  /** Writing one slot image changes the map at that RID only. */
  lemma SlotChange(t: Table, u: Table, rid: RID, b: seq<byte>)
    requires t.size > 0 && u.size == t.size && rid.slot < Capacity(t.size) && |b| == t.size
    requires Changed(t.pool, u.pool, rid.page, PutSlot(View(t.pool, rid.page), t.size, rid.slot, b))
    ensures Live(u) == if b[0] == LIVE then Live(t)[rid := b[1..]] else Live(t) - {rid}
  {
    forall other: RID
      ensures Contents(u)(other) == if other == rid then b else Contents(t)(other)
    {
      if other.slot < Capacity(t.size) {
        PutGet(View(t.pool, rid.page), t.size, rid.slot, b, other.slot);
      }
    }
    RecordsChange(Contents(t), Contents(u), rid, b);
  }

  lemma SameLive(t: Table, u: Table)
    requires t.size > 0 && u.size == t.size
    requires forall rid: RID :: Content(u, rid) == Content(t, rid)
    ensures Live(u) == Live(t)
  {
    assert forall rid :: Contents(u)(rid) == Contents(t)(rid);
  }

  lemma SameViewLive(t: Table, u: Table)
    requires t.size > 0 && u.size == t.size && Alike(t.pool, u.pool)
    ensures Live(u) == Live(t)
  {
    SameLive(t, u);
  }

  /** openTable forces page 0: its block is what the client sees, even where it was dirty. */
  lemma OpenWrites(t: Table)
    requires TableInv(t)
    ensures Block(OpenTable(t).pool.file, 0) == View(t.pool, 0)
  {
    hide View, Written, Block;
    LruPin(t.pool, 0);
    var found := Pin(t.pool, 0);
    var f := found.frames[IndexOf(found.frames, 0)];
    assert View(found, 0) == f.data by {
      ResidentView(found, 0);
    }
    WrittenBlock(found.file, 0, f.data, 0);
  }

  lemma ResidentView(s: Pool, p: nat)
    requires IndexOf(s.frames, p) < |s.frames|
    ensures View(s, p) == s.frames[IndexOf(s.frames, p)].data
  {
  }

  /** insertRecord adds the payload under a RID that held no record. */
  lemma InsertMap(t: Table, record: seq<byte>)
    requires TableInv(t) && t.size <= 4096 && t.size <= |record| && t.pageID >= 0
    ensures TableInv(Insert(t, record))
    ensures NextRID(t) !in Live(t) && Live(Insert(t, record)) == Live(t)[NextRID(t) := record[1..t.size]]
  {
    InsertView(t, record);
    SlotChange(t, Insert(t, record), NextRID(t), Image(t.size, record));
    assert Image(t.size, record)[1..] == record[1..t.size];
  }

  /** deleteRecord takes a record out exactly when its slot is below 100; otherwise it changes no record and says so. */
  lemma DeleteMap(t: Table, rid: RID)
    requires TableInv(t) && DeleteInBounds(t, rid)
    ensures TableInv(Delete(t, rid))
    ensures Live(Delete(t, rid)) == if DeleteRC(rid) == OK then Live(t) - {rid} else Live(t)
    ensures rid in Live(t) ==> (rid !in Live(Delete(t, rid)) <==> rid.slot < 100)
    ensures DeleteRC(rid) == if rid.slot < 100 then OK else NO_MORE_TUPLES
  {
    hide Delete, View, PutSlot, SlotAt, Buried;
    DeleteView(t, rid);
    if rid.slot >= NUM_SLOTS {
      SameViewLive(t, Delete(t, rid));
    } else if rid.slot < Capacity(t.size) {
      var page := View(t.pool, rid.page);
      BuriedSlot(page, t.size, rid.slot);
      SlotChange(t, Delete(t, rid), rid, [DEAD] + SlotAt(page, t.size, rid.slot)[1..]);
    } else {
      TailDelete(t, Delete(t, rid), rid);
      assert rid !in Live(t);
      assert Live(t) - {rid} == Live(t);
    }
  }

  /** Inside a slot the '*' falls on the tombstone byte. */
  lemma BuriedSlot(page: Page, size: nat, k: nat)
    requires 0 < size && k < Capacity(size)
    ensures k * size < 4096 && Buried(page, k * size) == PutSlot(page, size, k, [DEAD] + SlotAt(page, size, k)[1..])
  {
    SlotFits(size, k);
    HeadSpliced(page, k * size, size, DEAD);
  }

  /** The tombstone bytes: '#' for the record just inserted, '*' for the one just deleted. */
  lemma Tombstones(t: Table, record: seq<byte>, rid: RID)
    requires TableInv(t) && t.size <= 4096 && t.size <= |record| && t.pageID >= 0
    requires rid.slot < 100 && rid.slot < Capacity(t.size) && DeleteInBounds(t, rid)
    ensures Content(Insert(t, record), NextRID(t))[0] == '#' as int
    ensures Content(Delete(t, rid), rid)[0] == '*' as int
  {
    hide View, Insert, Delete, Buried;
    var at := NextRID(t);
    InsertView(t, record);
    PutGet(View(t.pool, at.page), t.size, at.slot, Image(t.size, record), at.slot);
    DeleteView(t, rid);
    InsertDeleteSize(t, record, rid);
    BuriedSlot(View(t.pool, rid.page), t.size, rid.slot);
    var image := [DEAD] + SlotAt(View(t.pool, rid.page), t.size, rid.slot)[1..];
    PutGet(View(t.pool, rid.page), t.size, rid.slot, image, rid.slot);
  }

  lemma InsertDeleteSize(t: Table, record: seq<byte>, rid: RID)
    requires |t.pool.frames| > 0 && 0 < t.size <= 4096 && t.size <= |record| && t.pageID >= 0
    requires DeleteInBounds(t, rid)
    ensures Insert(t, record).size == Delete(t, rid).size == t.size
  {
    hide View, Pin, Unpin, Write, FreePage, CheckCase;
  }

  /** A byte past the last whole slot belongs to no record. */
  lemma TailDelete(t: Table, u: Table, rid: RID)
    requires t.size > 0 && u.size == t.size && rid.slot >= Capacity(t.size) && rid.slot * t.size < 4096
    requires Changed(t.pool, u.pool, rid.page, Buried(View(t.pool, rid.page), rid.slot * t.size))
    ensures Live(u) == Live(t)
  {
    forall other: RID
      ensures Content(u, other) == Content(t, other)
    {
      if other.slot < Capacity(t.size) {
        SlotsApart(t.size, other.slot, rid.slot);
        SlotFits(t.size, other.slot);
      }
    }
    SameLive(t, u);
  }

  /** updateRecord replaces the payload of a live record and revives no deleted one. */
  lemma UpdateMap(t: Table, rid: RID, record: seq<byte>)
    requires TableInv(t) && t.size <= |record| && rid.slot < Capacity(t.size)
    ensures TableInv(Update(t, rid, record))
    ensures Live(Update(t, rid, record)) == if rid in Live(t) then Live(t)[rid := record[1..t.size]] else Live(t)
  {
    var b := [Content(t, rid)[0]] + record[1..t.size];
    UpdateView(t, rid, record);
    SlotChange(t, Update(t, rid, record), rid, b);
    assert b[1..] == record[1..t.size];
    assert rid !in Live(t) ==> Live(t) - {rid} == Live(t);
  }

  /** getRecord changes no record and fetches the payload stored last. */
  lemma GetMap(t: Table, rid: RID, record: seq<byte>)
    requires TableInv(t) && t.size <= |record| && rid.slot < Capacity(t.size)
    ensures TableInv(Get(t, rid)) && Live(Get(t, rid)) == Live(t)
    ensures rid in Live(t) ==> Fetched(t, rid, record) == [record[0]] + Live(t)[rid] + record[t.size..]
    ensures Fetched(t, rid, record) == [record[0]] + Content(t, rid)[1..] + record[t.size..]
  {
    hide Pin, Unpin, View;
    PinAlike(t.pool, rid.page);
    ThenUnpin(t.pool, Pin(t.pool, rid.page), rid.page);
    SameViewLive(t, Get(t, rid));
  }

  // ---------- Runs ----------

  datatype TableOp =
    | InsertOp(record: seq<byte>)
    | DeleteOp(rid: RID)
    | UpdateOp(rid: RID, record: seq<byte>)
    | GetOp(rid: RID)
    | OpenOp
    | CloseOp
    | PoolOp(op: Op)

  /**
   * The record buffers are long enough and slots lie in their page; the first page
   * is one when a record is inserted; the schema that openTable reads gives the
   * record size in use; other pool users only pin, unpin, mark, force and flush.
   */
  predicate InBounds(t: Table, op: TableOp)
    requires t.size > 0
  {
    match op
    case InsertOp(record) => t.size <= |record| && t.pageID >= 0
    case DeleteOp(rid) => DeleteInBounds(t, rid)
    case UpdateOp(rid, record) => t.size <= |record| && rid.slot < Capacity(t.size)
    case GetOp(rid) => rid.slot < Capacity(t.size)
    case OpenOp => Catalog.SchemaSize(View(t.pool, 0)) == Some(t.size)
    case CloseOp => true
    case PoolOp(p) => !p.WriteOp?
  }

  ghost function TableStep(t: Table, op: TableOp): (u: Table)
    requires TableInv(t) && t.size <= 4096 && InBounds(t, op)
    ensures u.size == t.size
  {
    match op
    case InsertOp(record) => Insert(t, record)
    case DeleteOp(rid) => Delete(t, rid)
    case UpdateOp(rid, record) => Update(t, rid, record)
    case GetOp(rid) => Get(t, rid)
    case OpenOp => OpenTable(t)
    case CloseOp => CloseTable(t)
    case PoolOp(p) => t.(pool := Step(t.pool, p))
  }

  /** What the call does to a map, given the RID that an insertion picks. */
  ghost function MapStep(m: imap<RID, seq<byte>>, size: nat, op: TableOp, fresh': RID): imap<RID, seq<byte>>
    requires op.InsertOp? ==> 0 < size <= |op.record|
    requires op.UpdateOp? ==> 0 < size <= |op.record|
  {
    match op
    case InsertOp(record) => m[fresh' := record[1..size]]
    case DeleteOp(rid) => if rid.slot < NUM_SLOTS then m - {rid} else m
    case UpdateOp(rid, record) => if rid in m then m[rid := record[1..size]] else m
    case _ => m
  }

  lemma TableStepMap(t: Table, op: TableOp)
    requires TableInv(t) && t.size <= 4096 && InBounds(t, op)
    ensures TableInv(TableStep(t, op))
    ensures Live(TableStep(t, op)) == MapStep(Live(t), t.size, op, NextRID(t))
    ensures op.InsertOp? ==> NextRID(t) !in Live(t)
  {
    hide Insert, Delete, Update, View, Inv, Live, Pin, Unpin, NextRID, Catalog.SchemaSize, Step;
    match op
    case InsertOp(record) => InsertMap(t, record);
    case DeleteOp(rid) => DeleteMap(t, rid);
    case UpdateOp(rid, record) => UpdateMap(t, rid, record);
    case GetOp(rid) =>
      PinAlike(t.pool, rid.page);
      ThenUnpin(t.pool, Pin(t.pool, rid.page), rid.page);
      SameViewLive(t, Get(t, rid));
    case OpenOp =>
      OpenView(t);
      SameViewLive(t, OpenTable(t));
    case CloseOp =>
      OpenView(t);
      SameViewLive(t, CloseTable(t));
    case PoolOp(p) =>
      Housekeeping(t.pool, p);
      SameViewLive(t, TableStep(t, op));
  }

  /** Every call of the run finds the table in a state where C defines it. */
  ghost predicate Runs(t: Table, ops: seq<TableOp>)
    requires TableInv(t) && t.size <= 4096
    decreases |ops|, 0
  {
    ops == [] || (Runs(t, ops[..|ops| - 1]) && InBounds(TableRun(t, ops[..|ops| - 1]), ops[|ops| - 1]))
  }

  ghost function TableRun(t: Table, ops: seq<TableOp>): (u: Table)
    requires TableInv(t) && t.size <= 4096 && Runs(t, ops)
    ensures TableInv(u) && u.size == t.size
    decreases |ops|, 1
  {
    if ops == [] then t
    else
      var v := TableRun(t, ops[..|ops| - 1]);
      TableStepMap(v, ops[|ops| - 1]);
      TableStep(v, ops[|ops| - 1])
  }

  ghost function MapRun(t: Table, ops: seq<TableOp>): imap<RID, seq<byte>>
    requires TableInv(t) && t.size <= 4096 && Runs(t, ops)
  {
    if ops == [] then Live(t)
    else
      var before := ops[..|ops| - 1];
      MapStep(MapRun(t, before), t.size, ops[|ops| - 1], NextRID(TableRun(t, before)))
  }

  /**
   * Any sequence of calls, with any evictions and flushes in between, and with the
   * table closed and opened again at will, acts on the live records as on a map.
   */
  lemma {:induction false} TableRefinesMap(t: Table, ops: seq<TableOp>)
    requires TableInv(t) && t.size <= 4096 && Runs(t, ops)
    ensures Live(TableRun(t, ops)) == MapRun(t, ops)
  {
    hide TableStep, MapStep, Live, NextRID, TableInv, InBounds;
    if ops != [] {
      var before := ops[..|ops| - 1];
      TableRefinesMap(t, before);
      TableStepMap(TableRun(t, before), ops[|ops| - 1]);
    }
  }

  /** The tuple count with which the last opening left the table. */
  ghost function CountOpened(t: Table, ops: seq<TableOp>): int
    requires TableInv(t) && t.size <= 4096 && Runs(t, ops)
  {
    if ops == [] then t.tuples
    else if ops[|ops| - 1].OpenOp? then Catalog.HeaderTuples(View(TableRun(t, ops[..|ops| - 1]).pool, 0))
    else CountOpened(t, ops[..|ops| - 1])
  }

  /** The insertions since the table was last opened. */
  function Inserts(ops: seq<TableOp>): nat {
    if ops == [] || ops[|ops| - 1].OpenOp? then 0
    else Inserts(ops[..|ops| - 1]) + if ops[|ops| - 1].InsertOp? then 1 else 0
  }

  /** getNumTuples is what page 0 said at the last opening and the insertions since: no deletion takes one back. */
  lemma {:induction false} TuplesCountInserts(t: Table, ops: seq<TableOp>)
    requires TableInv(t) && t.size <= 4096 && Runs(t, ops)
    ensures TableRun(t, ops).tuples == CountOpened(t, ops) + Inserts(ops)
  {
    hide View, InBounds, TableInv;
    if ops != [] {
      var before := ops[..|ops| - 1];
      TuplesCountInserts(t, before);
      StepTuples(TableRun(t, before), ops[|ops| - 1]);
    }
  }

  lemma StepTuples(t: Table, op: TableOp)
    requires TableInv(t) && t.size <= 4096 && InBounds(t, op)
    ensures TableStep(t, op).tuples ==
      if op.OpenOp? then Catalog.HeaderTuples(View(t.pool, 0)) else t.tuples + if op.InsertOp? then 1 else 0
  {
    hide View;
    OpenView(t);
  }
}
