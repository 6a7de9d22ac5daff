/** From createTable through openTable and closeTable: what a session leaves in the pool, and what in the page file. */
module TableSessions {
  import opened Bytes
  import opened BlockStore
  import opened PoolSteps
  import opened Coherence
  import opened Options
  import opened Slots
  import opened RecordStore
  import opened Durability
  import opened SessionPins
  import opened TableDurability
  import Accounting
  import Catalog
  import H = TableHeader
  import TableBalance

  // ---------- Closing and opening again ----------

  /**
   * closeTable frees no frame, and openTable goes back to the pool it left: every
   * record is as live as before, wherever it is, while the tuple count and the first
   * page fall back to what page 0 says.
   */
  lemma ReopenKeeps(t: Table)
    requires TableInv(t)
    ensures var u := OpenTable(CloseTable(t));
      && TableInv(u) && Live(u) == Live(t)
      && u.tuples == Catalog.HeaderTuples(View(t.pool, 0)) && u.pageID == Catalog.HeaderPageID(View(t.pool, 0))
  {
    hide View, Pin, Force, Flush, Live, Inv;
    var c := CloseTable(t);
    OpenView(t);
    SameViewLive(t, c);
    OpenView(c);
    SameViewLive(c, OpenTable(c));
  }

  // ---------- Calls that leave page 0 alone ----------

  /** What a caller can check before the call, with records of `size` bytes; only page 0 is not written. */
  predicate OffHeader(size: nat, op: TableOp)
    requires size > 0
  {
    match op
    case InsertOp(record) => size <= |record|
    case DeleteOp(rid) => (rid.slot >= NUM_SLOTS || rid.slot * size < 4096) && rid.page > 0
    case UpdateOp(rid, record) => size <= |record| && rid.slot < Capacity(size) && rid.page > 0
    case GetOp(rid) => rid.slot < Capacity(size)
    case PoolOp(p) => !p.WriteOp?
    case _ => true
  }

  ghost predicate AllOffHeader(size: nat, ops: seq<TableOp>)
    requires size > 0
  {
    forall k :: 0 <= k < |ops| ==> OffHeader(size, ops[k])
  }

  /** Page 0 holds a schema with the record size in use, and records start behind it. */
  ghost predicate Sound(t: Table) {
    && TableInv(t) && t.size <= 4096 && t.pageID > 0
    && Catalog.SchemaSize(View(t.pool, 0)) == Some(t.size) && Catalog.HeaderPageID(View(t.pool, 0)) > 0
  }

  lemma StepOffHeader(t: Table, op: TableOp)
    requires Sound(t) && OffHeader(t.size, op)
    ensures InBounds(t, op)
    ensures Sound(TableStep(t, op)) && View(TableStep(t, op).pool, 0) == View(t.pool, 0)
  {
    hide Insert, Delete, Update, View, Inv, Pin, Unpin, Live, Catalog.SchemaSize, Catalog.HeaderPageID, Step;
    hide OpenTable, CloseTable, PutSlot, SlotAt, Image, Buried, FreePage, CheckCase;
    StepMeta(t, op);
    TableStepMap(t, op);
    match op
    case InsertOp(record) => InsertView(t, record);
    case DeleteOp(rid) => DeleteView(t, rid);
    case UpdateOp(rid, record) => UpdateView(t, rid, record);
    case GetOp(rid) =>
      PinAlike(t.pool, rid.page);
      ThenUnpin(t.pool, Pin(t.pool, rid.page), rid.page);
    case OpenOp => OpenView(t);
    case CloseOp => OpenView(t);
    case PoolOp(p) => Housekeeping(t.pool, p);
  }

  lemma StepMeta(t: Table, op: TableOp)
    requires TableInv(t) && t.size <= 4096 && InBounds(t, op)
    ensures TableStep(t, op).pageID ==
      if op.DeleteOp? then op.rid.page else if op.OpenOp? then Catalog.HeaderPageID(View(t.pool, 0)) else t.pageID
  {
    hide View, Pin;
    OpenView(t);
  }

  /** Such calls can be made in any order, opening and closing included, and page 0 stays what it was. */
  lemma {:induction false} RunsOffHeader(t: Table, ops: seq<TableOp>)
    requires Sound(t) && AllOffHeader(t.size, ops)
    ensures Runs(t, ops) && Sound(TableRun(t, ops)) && View(TableRun(t, ops).pool, 0) == View(t.pool, 0)
  {
    hide TableStep, OffHeader, View, InBounds, Catalog.SchemaSize;
    if ops != [] {
      var before := ops[..|ops| - 1];
      RunsOffHeader(t, before);
      assert OffHeader(t.size, ops[|ops| - 1]);
      StepOffHeader(TableRun(t, before), ops[|ops| - 1]);
    }
  }

  /** So the tuple count is page 0's, or the first one until the table is opened again, and the insertions since. */
  lemma {:induction false} CountOffHeader(t: Table, ops: seq<TableOp>)
    requires Sound(t) && AllOffHeader(t.size, ops) && Runs(t, ops)
    ensures CountOpened(t, ops) ==
      if exists k :: 0 <= k < |ops| && ops[k].OpenOp? then Catalog.HeaderTuples(View(t.pool, 0)) else t.tuples
  {
    hide TableStep, OffHeader, View, InBounds, Sound, Catalog.HeaderTuples;
    if ops != [] {
      var before, last := ops[..|ops| - 1], |ops| - 1;
      CountOffHeader(t, before);
      RunsOffHeader(t, before);
      if exists k :: 0 <= k < |ops| && ops[k].OpenOp? {
        var k :| 0 <= k < |ops| && ops[k].OpenOp?;
        assert k < last ==> before[k].OpenOp?;
      }
      assert forall k :: 0 <= k < |before| ==> before[k] == ops[k];
    }
  }

  // ---------- Sessions that write nothing ----------

  /** The calls that never pin a page for good, but for page 0. */
  predicate Quiet(op: TableOp) {
    op.InsertOp? || op.GetOp? || op.OpenOp? || op.CloseOp? || (op.DeleteOp? && op.rid.page > 0)
  }

  predicate AllQuiet(ops: seq<TableOp>) {
    forall k :: 0 <= k < |ops| ==> Quiet(ops[k])
  }

  /** A frame that the flush passes over. Pages from 1 on are never left pinned, page 0 is never written. */
  predicate Passed(f: Frame) {
    (f.dirty ==> f.page > 0 && f.fix < 0) && (f.page > 0 ==> f.fix <= 0)
  }

  /** Page 0 sits in frame 0, and a flush would write nothing. */
  ghost predicate Unwritten(s: Pool): (unwritten: bool)
    ensures unwritten ==> |s.frames| > 0
  {
    && Inv(s) && s.strategy == LRU && s.frames[0].page == 0
    && forall i :: 0 <= i < |s.frames| ==> Passed(s.frames[i])
  }

  lemma {:induction false} FlushWritesNothing(s: Pool, n: nat)
    requires n <= |s.frames| && Unwritten(s)
    ensures FlushTo(s, n) == s
  {
    hide Inv;
    if n > 0 {
      FlushWritesNothing(s, n - 1);
      assert Passed(s.frames[n - 1]);
    }
  }

  /** With room left a pin writes nothing, and one unpin makes its frame passed over again. */
  lemma RoomyPin(s: Pool, p: nat)
    requires Unwritten(s) && HasRoom(s)
    ensures var t := Pin(s, p); var i := IndexOf(t.frames, p);
      && Inv(t) && t.file == s.file && i < |t.frames| && t.frames[0].page == 0
      && t.frames == s.frames[i := t.frames[i]]
      && Passed(t.frames[i].(fix := t.frames[i].fix - 1)) && (p == 0 ==> Passed(t.frames[i]))
  {
    hide View, Block;
    LruPin(s, p);
    ProbeFinds(s.frames, p);
    IndexIs(s.frames, 0, 0);
    var k, t := Probe(s.frames, p), Pin(s, p);
    assert k < |s.frames|;
    IndexIs(t.frames, p, k);
    assert Passed(s.frames[k]);
  }

  lemma RoomyVisit(s: Pool, p: nat)
    requires Unwritten(s) && HasRoom(s)
    ensures var t := Unpin(Pin(s, p), p); Unwritten(t) && t.file == s.file
  {
    hide View, Block, Pin, Inv;
    RoomyPin(s, p);
    UnpinAlike(Pin(s, p), p);
  }

  /** Pin, write and unpin twice: the page is dirty now, and its fix count negative. */
  lemma RoomyStore(s: Pool, p: nat, page: Page)
    requires Unwritten(s) && HasRoom(s) && p > 0
    ensures var t := Unpin(Unpin(Write(Pin(s, p), p, page), p), p); Unwritten(t) && t.file == s.file
  {
    hide View, Block, Pin, Write, Unpin, Inv;
    RoomyPin(s, p);
    StoreResident(Pin(s, p), p, page);
  }

  lemma RoomyZero(s: Pool)
    requires Unwritten(s) && HasRoom(s)
    ensures Unwritten(Pin(s, 0)) && Pin(s, 0).file == s.file
  {
    hide Pin, Inv;
    RoomyPin(s, 0);
  }

  lemma {:induction false} RoomySearch(s: Pool, first: nat, last: nat)
    requires Unwritten(s) && first <= last && HasRoom(Searched(s, first, last))
    ensures Unwritten(Searched(s, first, last)) && Searched(s, first, last).file == s.file
    decreases last
  {
    hide Pin, Unpin, HasRoom, Inv;
    if first < last {
      var t := Searched(s, first, last - 1);
      RoomBeforeVisit(t, last - 1);
      RoomySearch(s, first, last - 1);
      RoomyVisit(t, last - 1);
    }
  }

  /** The same blocks; and the same bytes, unless openTable filled up a file shorter than page 0. */
  ghost predicate SameFile(file: seq<byte>, after: seq<byte>) {
    (forall q: nat :: Block(after, q) == Block(file, q)) && (|file| >= PAGE_SIZE ==> after == file)
  }

  /** Page 0 is clean, so forcing it changes no block. */
  lemma ForceZero(s: Pool)
    requires Unwritten(s)
    ensures Unwritten(Force(s, 0)) && SameFile(s.file, Force(s, 0).file) && View(s, 0) == Block(s.file, 0)
  {
    hide Block, Written;
    IndexIs(s.frames, 0, 0);
    assert Passed(s.frames[0]);
    StepKeeps(s, ForceOp(0));
    SamePages(s.frames, 0, s.frames[0].(dirty := false));
    forall q: nat
      ensures Block(Written(s.file, 0, Block(s.file, 0)), q) == Block(s.file, q)
    {
      WrittenBlock(s.file, 0, Block(s.file, 0), q);
    }
    if |s.file| >= PAGE_SIZE {
      WrittenSame(s.file);
    }
  }

  lemma WrittenSame(file: seq<byte>)
    requires |file| >= PAGE_SIZE
    ensures Written(file, 0, Block(file, 0)) == file
  {
    var after := Written(file, 0, Block(file, 0));
    forall k | 0 <= k < |file|
      ensures after[k] == file[k]
    {
      if k < PAGE_SIZE {
        BlockByte(file, 0, k);
      }
    }
  }

  /** A table whose pool would write nothing, with records behind page 0. */
  ghost predicate Unsaved(t: Table) {
    Unwritten(t.pool) && t.pageID > 0
  }

  /** Page 0 on file has them start there too, as an opening would find. */
  ghost predicate StartsBehind(t: Table) {
    Catalog.HeaderPageID(Block(t.pool.file, 0)) > 0
  }

  predicate NeverOpened(ops: seq<TableOp>) {
    forall k :: 0 <= k < |ops| ==> !ops[k].OpenOp?
  }

  lemma QuietInsert(t: Table, record: seq<byte>)
    requires TableInv(t) && t.size <= 4096 && t.size <= |record| && Unwritten(t.pool) && t.pageID > 0
    requires HasRoom(Insert(t, record).pool)
    ensures Unwritten(Insert(t, record).pool) && Insert(t, record).pool.file == t.pool.file
  {
    hide Pin, Write, Unpin, PutSlot, Image, HasRoom, View, Inv, FreePage, CheckCase, Unwritten, Searched;
    var rid := NextRID(t);
    var s := Searched(t.pool, t.pageID, rid.page);
    var page := PutSlot(View(Pin(s, rid.page), rid.page), t.size, rid.slot, Image(t.size, record));
    var w := Unpin(Unpin(Write(Pin(s, rid.page), rid.page, page), rid.page), rid.page);
    RoomBefore(w, 0);
    RoomBeforeStore(s, rid.page, page);
    RoomySearch(t.pool, t.pageID, rid.page);
    RoomyStore(s, rid.page, page);
    RoomyZero(w);
  }

  lemma QuietDelete(t: Table, rid: RID)
    requires TableInv(t) && DeleteInBounds(t, rid) && Unwritten(t.pool) && rid.page > 0 && HasRoom(t.pool)
    ensures Unwritten(Delete(t, rid).pool) && Delete(t, rid).pool.file == t.pool.file
  {
    hide Pin, Write, Unpin, HasRoom, View, Inv, Buried, Unwritten;
    if rid.slot >= NUM_SLOTS {
      RoomyVisit(t.pool, rid.page);
    } else {
      RoomyStore(t.pool, rid.page, Buried(View(Pin(t.pool, rid.page), rid.page), rid.slot * t.size));
    }
  }

  lemma QuietOpen(t: Table)
    requires Unwritten(t.pool) && HasRoom(t.pool)
    ensures var u := OpenTable(t);
      && Unwritten(u.pool) && SameFile(t.pool.file, u.pool.file)
      && u.pageID == Catalog.HeaderPageID(Block(t.pool.file, 0))
  {
    hide Pin, Force, View, Inv, Unwritten, Block, SameFile;
    RoomyZero(t.pool);
    ForceZero(Pin(t.pool, 0));
  }

  lemma QuietStep(t: Table, op: TableOp)
    requires TableInv(t) && t.size <= 4096 && InBounds(t, op) && Quiet(op)
    requires Unsaved(t) && (op.OpenOp? ==> StartsBehind(t)) && HasRoom(TableStep(t, op).pool)
    ensures Unsaved(TableStep(t, op)) && SameFile(t.pool.file, TableStep(t, op).pool.file)
    ensures !op.OpenOp? ==> TableStep(t, op).pool.file == t.pool.file
  {
    RoomBeforeStep(t, op);
    hide Insert, Delete, Pin, Unpin, HasRoom, Inv, Unwritten, OpenTable, FlushTo, View, Catalog.SchemaSize, Block;
    StepMeta(t, op);
    match op
    case InsertOp(record) => QuietInsert(t, record);
    case DeleteOp(rid) =>
      QuietDelete(t, rid);
      DeleteMeta(t, rid);
    case GetOp(rid) => RoomyVisit(t.pool, rid.page);
    case OpenOp => QuietOpen(t);
    case CloseOp => FlushWritesNothing(t.pool, |t.pool.frames|);
  }

  lemma DeleteMeta(t: Table, rid: RID)
    requires |t.pool.frames| > 0 && DeleteInBounds(t, rid)
    ensures Delete(t, rid).pageID == rid.page
  {
    hide Pin, Unpin, Write, View, Buried;
  }

  lemma {:induction false} QuietRun(t: Table, ops: seq<TableOp>)
    requires TableInv(t) && t.size <= 4096 && Runs(t, ops) && AllQuiet(ops)
    requires Unsaved(t) && (NeverOpened(ops) || StartsBehind(t)) && HasRoom(TableRun(t, ops).pool)
    ensures Unsaved(TableRun(t, ops)) && SameFile(t.pool.file, TableRun(t, ops).pool.file)
    ensures NeverOpened(ops) ==> TableRun(t, ops).pool.file == t.pool.file
  {
    hide TableStep, HasRoom, Unsaved, Quiet, Block, InBounds, TableInv;
    if ops != [] {
      var before, op := ops[..|ops| - 1], ops[|ops| - 1];
      assert Quiet(op) && !op.PoolOp? by {
        QuietIsRecord(op);
      }
      RoomBeforeStep(TableRun(t, before), op);
      QuietRun(t, before);
      QuietStep(TableRun(t, before), op);
    }
  }

  lemma QuietIsRecord(op: TableOp)
    ensures Quiet(op) ==> !op.PoolOp?
  {
  }

  /** Any such session over a table that has nothing to save leaves the page file as it was, when it is closed too. */
  lemma SessionWritesNothing(t: Table, ops: seq<TableOp>)
    requires TableInv(t) && t.size <= 4096 && Runs(t, ops) && AllQuiet(ops)
    requires Unsaved(t) && (NeverOpened(ops) || StartsBehind(t)) && HasRoom(TableRun(t, ops).pool)
    ensures var file := CloseTable(TableRun(t, ops)).pool.file;
      && SameFile(t.pool.file, file)
      && (NeverOpened(ops) ==> file == t.pool.file)
  {
    hide FlushTo, HasRoom, Unwritten, Block, SameFile;
    QuietRun(t, ops);
    FlushWritesNothing(TableRun(t, ops).pool, |TableRun(t, ops).pool.frames|);
  }

  // ---------- A new table ----------

  /**
   * What createTable was called with, and what it does not set: the stack behind
   * the header, and the counters of the record manager it allocates.
   */
  datatype Created = Created(n: nat, cols: seq<H.Column>, keySize: int32, stack: Page,
                             lastPg: nat, forced: nat, uninit: int -> int, tuples: int, pageID: int)

  function Header(c: Created): Page
    requires H.FitsPage(c.cols)
  {
    H.HeaderPage(c.cols, c.keySize, c.stack)
  }

  /** The schema fits in page 0, and openTable can make one of what it reads there, with records that fit in a page. */
  predicate Creatable(c: Created) {
    c.n > 0 && H.FitsPage(c.cols) && Catalog.SchemaSize(Header(c)).Some? && Catalog.SchemaSize(Header(c)).value <= 4096
  }

  /** createTable: an LRU pool over a file that holds page 0 and nothing else. */
  function NewTable(c: Created): Table
    requires Creatable(c)
  {
    var pool := Init(c.n, Header(c), LRU, c.lastPg, c.forced, c.uninit);
    Table(pool, c.tuples, c.pageID, Catalog.SchemaSize(Header(c)).value)
  }

  lemma WholeBlock(page: Page)
    ensures Block(page, 0) == page
    ensures forall q: nat :: q > 0 ==> Block(page, q) == ZERO_PAGE
  {
    var b := Block(page, 0);
    forall k: nat | k < PAGE_SIZE
      ensures b[k] == page[k]
    {
      BlockByte(page, 0, k);
    }
    assert b == page;
    forall q: nat | q > 0
      ensures Block(page, q) == ZERO_PAGE
    {
      BeyondEnd(page, q);
    }
  }

  /** The pool that openTable leaves: page 0 in the first frame, every other frame empty and idle. */
  lemma OpenedFrames(c: Created)
    requires Creatable(c)
    ensures var s := OpenTable(NewTable(c)).pool;
      && Unwritten(s) && Accounting.EmptyIdle(s) && s.file == Header(c) && |s.frames| == c.n
      && View(s, 0) == Header(c) && s.frames[0].page == 0 && forall i :: 1 <= i < c.n ==> s.frames[i].page == NO_PAGE
  {
    hide Written, Header, Catalog.SchemaSize, Block;
    var s := NewTable(c).pool;
    InitInv(c.n, Header(c), LRU, c.lastPg, c.forced, c.uninit);
    assert Probe(s.frames, 0) == 0;
    var o := Pin(s, 0);
    assert o == Load(s, 0, 0);
    LoadKeeps(s, 0, 0);
    assert Unwritten(o);
    ForceZero(o);
    WholeBlock(Header(c));
    IndexIs(o.frames, 0, 0);
    IndexIs(Force(o, 0).frames, 0, 0);
  }

  /** openTable on a new table: no tuples, records from page 1 on, and nothing to save. */
  lemma NewOpened(c: Created)
    requires Creatable(c)
    ensures TableInv(NewTable(c)) && InBounds(NewTable(c), OpenOp)
    ensures var t := OpenTable(NewTable(c));
      Sound(t) && Unsaved(t) && StartsBehind(t) && t.size == NewTable(c).size && t.tuples == 0 && t.pageID == 1
  {
    hide View, Pin, Force, Block, Header, Catalog.SchemaSize, Unwritten, H.HeaderPage, DecodeInt;
    OpenedFrames(c);
    InitInv(c.n, Header(c), LRU, c.lastPg, c.forced, c.uninit);
    WholeBlock(Header(c));
    HeaderCounts(c);
    OpenView(NewTable(c));
  }

  lemma HeaderCounts(c: Created)
    requires H.FitsPage(c.cols)
    ensures Catalog.HeaderTuples(Header(c)) == 0 && Catalog.HeaderPageID(Header(c)) == 1
  {
    hide H.HeaderPage, DecodeInt;
    H.HeaderInts(c.cols, c.keySize, c.stack);
  }

  /** A new table, opened. */
  function OpenedNew(c: Created): (t: Table)
    requires Creatable(c)
    ensures Sound(t) && Unsaved(t) && StartsBehind(t) && t.size == NewTable(c).size && t.tuples == 0 && t.pageID == 1
  {
    NewOpened(c);
    OpenTable(NewTable(c))
  }

  /**
   * From createTable on, with insertions, deletions, reads, openings and closings
   * while a frame stays empty: the page file never holds more than the header. All
   * records live in the pool, so that a table closed and opened again still has
   * every one of them, and says that it has none.
   */
  lemma SessionUnsaved(c: Created, ops: seq<TableOp>)
    requires Creatable(c) && AllOffHeader(NewTable(c).size, ops) && AllQuiet(ops)
    requires var t := OpenedNew(c); Runs(t, ops) && HasRoom(TableRun(t, ops).pool)
    ensures var t := OpenedNew(c); var u := TableRun(t, ops); var again := OpenTable(CloseTable(u));
      && CloseTable(u).pool.file == Header(c)
      && (forall q: nat :: q > 0 ==> Block(CloseTable(u).pool.file, q) == ZERO_PAGE)
      && Live(again) == Live(u) == MapRun(t, ops) && again.tuples == 0
  {
    hide OpenTable, CloseTable, View, Live, MapRun, Block, Header, TableRun, HasRoom, Unsaved, Catalog.SchemaSize;
    hide Catalog.HeaderTuples, Catalog.HeaderPageID, Inv;
    var t := OpenedNew(c);
    NewOpened(c);
    OpenedFrames(c);
    HeaderCounts(c);
    WholeBlock(Header(c));
    RunsOffHeader(t, ops);
    SessionWritesNothing(t, ops);
    TableRefinesMap(t, ops);
    ReopenKeeps(TableRun(t, ops));
  }

  /** With updates too: which changed pages of a new table closing gets onto the file. */
  lemma NewSessionWrites(c: Created, ops: seq<TableOp>, p: nat)
    requires Creatable(c) && p > 0 && TableBalance.RecordCalls(ops)
    requires var t := OpenedNew(c); Runs(t, ops) && HasRoom(TableRun(t, ops).pool)
    ensures var t := OpenedNew(c); var u := TableRun(t, ops); var file := CloseTable(u).pool.file;
      View(u.pool, p) != Block(u.pool.file, p) ==>
        (Block(file, p) == View(u.pool, p) <==> InsertsInto(t, ops, p) + DeletesOn(ops, p) == UpdatesAbove(ops, p))
  {
    hide OpenTable, View, Block, Header, TableRun, HasRoom, Flush, Catalog.SchemaSize, Inv;
    var t := OpenedNew(c);
    OpenedFrames(c);
    IndexNone(t.pool.frames, p);
    if View(TableRun(t, ops).pool, p) != Block(TableRun(t, ops).pool.file, p) {
      SessionWrites(t, ops, p);
    }
  }

  // ---------- The first record ----------

  /** With a page in frame 0 only and three frames, pins of pages 1 and 0 leave the last frame empty. */
  lemma TwoPagesFit(s: Pool, page: Page)
    requires Inv(s) && |s.frames| >= 3 && s.frames[0].page == 0
    requires forall i :: 1 <= i < |s.frames| ==> s.frames[i].page == NO_PAGE
    ensures HasRoom(Pin(Unpin(Unpin(Write(Pin(s, 1), 1, page), 1), 1), 0))
  {
    hide Block, View;
    assert Probe(s.frames, 1) == 1;
    var t := Pin(s, 1);
    assert t == Load(s, 1, 1);
    var w := Unpin(Unpin(Write(t, 1, page), 1), 1);
    assert w.frames[0].page == 0;
    assert Probe(w.frames, 0) == 0;
  }

  /**
   * The first record of a new table goes to slot 0 of page 1. After closing, that
   * block of the file is still zero; after opening again the record is there and
   * the tuple count is 0.
   */
  lemma FirstRecordUnsaved(c: Created, record: seq<byte>)
    requires Creatable(c) && c.n >= 3 && NewTable(c).size <= |record|
    ensures var u := Insert(OpenedNew(c), record); var again := OpenTable(CloseTable(u));
      && Block(CloseTable(u).pool.file, 1) == ZERO_PAGE
      && RID(1, 0) in Live(again) && Live(again)[RID(1, 0)] == record[1..NewTable(c).size] && again.tuples == 0
  {
    hide Pin, Write, Unpin, Force, View, Block, Unwritten, Live, HasRoom, PutSlot, Image, TableStep, CheckCase;
    hide Header, CloseTable, Catalog.SchemaSize, Inv, Unsaved, MapRun, Catalog.HeaderTuples, Catalog.HeaderPageID;
    var t := OpenedNew(c);
    var ops := [InsertOp(record)];
    NewOpened(c);
    OpenedFrames(c);
    WholeBlock(Header(c));
    assert forall i :: 0 <= i < c.n ==> t.pool.frames[i].page != 1;
    FirstSlot(t);
    InsertMap(t, record);
    RunsOffHeader(t, ops);
    InsertIsRun(t, record);
    TwoPagesFit(t.pool, PutSlot(View(Pin(t.pool, 1), 1), t.size, 0, Image(t.size, record)));
    assert Searched(t.pool, 1, 1) == t.pool;
    SessionUnsaved(c, ops);
  }

  /** With page 1 not resident and zero on file, the next record goes there. */
  lemma FirstSlot(t: Table)
    requires 0 < t.size <= 4096 && t.pageID == 1
    requires Block(t.pool.file, 1) == ZERO_PAGE && forall i :: 0 <= i < |t.pool.frames| ==> t.pool.frames[i].page != 1
    ensures NextRID(t) == RID(1, 0)
  {
    hide Block, CheckCase;
    IndexNone(t.pool.frames, 1);
    FreshPage(t.size);
  }

  lemma InsertIsRun(t: Table, record: seq<byte>)
    requires TableInv(t) && t.size <= 4096 && Runs(t, [InsertOp(record)])
    ensures t.size <= |record| && t.pageID >= 0 && TableRun(t, [InsertOp(record)]) == Insert(t, record)
  {
    hide Insert;
    assert [InsertOp(record)][..0] == [];
  }
}
