/** record_mgr.c in place: records copied into and out of the page buffers that the pool hands out. */
module RecordManager {
  import opened Bytes
  import opened BlockStore
  import opened PoolSteps
  import opened Coherence
  import opened Slots
  import opened BufferManager
  import RecordStore

  /** checkCase: the first slot not in use, or -1. */
  method CheckSlots(size: nat, data: array<byte>) returns (pivot: int)
    requires size > 0 && data.Length == PAGE_SIZE
    ensures pivot == CheckCase(data[..], size)
  {
    hide InUse;
    pivot := 0;
    while pivot < PAGE_SIZE / size
      invariant 0 <= pivot <= Capacity(size) && CheckCase(data[..], size) == CheckFrom(data[..], size, pivot)
    {
      SlotHead(data[..], size, pivot);
      if data[pivot * size] != LIVE {
        return;
      }
      pivot := pivot + 1;
    }
    pivot := -1;
  }

  lemma SlotHead(page: Page, size: nat, k: nat)
    requires 0 < size && k < Capacity(size)
    ensures k * size < 4096 && (InUse(page, size, k) <==> page[k * size] == LIVE)
  {
    SlotFits(size, k);
    assert SlotAt(page, size, k)[0] == page[k * size];
  }

  /** With no page resident twice, a handle that points into the pool points to its page's frame. */
  lemma HeldFrame(pool: BufferPool, page: PageHandle)
    requires pool.Valid() && Shape(pool.State().frames) && pool.Holds(page) && page.pageNum >= 0
    ensures var i := IndexOf(pool.State().frames, page.pageNum);
      i < pool.frames.Length && pool.frames[i].data == page.data && page.data.Length == PAGE_SIZE
      && page.data[..] == View(pool.State(), page.pageNum)
  {
    var fs := pool.State().frames;
    var k :| 0 <= k < pool.frames.Length && pool.frames[k].page == page.pageNum && pool.frames[k].data == page.data;
    pool.Expose();
    IndexIs(fs, page.pageNum, k);
  }

  class RecordManager {
    const pool: BufferPool
    const pageHandler: PageHandle
    var numOfTuples: int
    var pageID: int

    /** The table on records of `size` bytes; createTable gives it an LRU pool. */
    ghost predicate Valid(size: nat)
      reads this, pool, pool.frames, pool.file, pool.Buffers()
    {
      pool.Valid() && RecordStore.TableInv(TableOf(size))
    }

    ghost function TableOf(size: nat): RecordStore.Table
      reads this, pool, pool.file
    {
      RecordStore.Table(pool.State(), numOfTuples, pageID, size)
    }

    constructor (pool: BufferPool, pageHandler: PageHandle, numOfTuples: int, pageID: int)
      ensures this.pool == pool && this.pageHandler == pageHandler
      ensures this.numOfTuples == numOfTuples && this.pageID == pageID
    {
      this.pool, this.pageHandler, this.numOfTuples, this.pageID := pool, pageHandler, numOfTuples, pageID;
    }

    /** pinPage on the table's pool: it always makes the page resident. */
    method Pin(p: nat)
      requires pool.Valid() && Inv(pool.State()) && pool.strategy == LRU
      modifies pool, pool.frames, pool.file, pageHandler
      ensures pool.Valid() && pool.State() == PoolSteps.Pin(old(pool.State()), p)
      ensures Inv(pool.State()) && forall q: nat :: View(pool.State(), q) == View(old(pool.State()), q)
      ensures pageHandler.pageNum == p && pageHandler.data != null && pageHandler.data.Length == PAGE_SIZE
      ensures var i := IndexOf(pool.State().frames, p);
        i < pool.frames.Length && pool.frames[i].data == pageHandler.data
      ensures pageHandler.data[..] == View(pool.State(), p)
      ensures fresh(pool.Buffers() - old(pool.Buffers()))
    {
      ghost var s := pool.State();
      var rc := pool.PinPage(pageHandler, p);
      RecordStore.PinAlike(s, p);
      HeldFrame(pool, pageHandler);
    }

    /** unpinPage through the table's handle. */
    method Unpin()
      requires pool.Valid()
      modifies pool`contents, pool.frames
      ensures pool.Valid() && pool.State() == PoolSteps.Unpin(old(pool.State()), pageHandler.pageNum)
      ensures forall i :: 0 <= i < pool.frames.Length ==> pool.frames[i].data == old(pool.frames[i].data)
      ensures pool.Buffers() == old(pool.Buffers())
    {
      var rc := pool.UnpinPage(pageHandler);
    }

    /** The handle points to the buffer of resident page `p`. */
    ghost predicate Holding(p: nat)
      reads this, pool, pool.frames, pool.file, pool.Buffers(), pageHandler
    {
      && pool.Valid() && Shape(pool.State().frames)
      && pageHandler.pageNum == p && pageHandler.data != null && pageHandler.data.Length == PAGE_SIZE
      && IndexOf(pool.State().frames, p) < pool.frames.Length
      && pool.frames[IndexOf(pool.State().frames, p)].data == pageHandler.data
    }

    /** Mark the page dirty and store `record` in its slot behind a '#'. */
    method WriteSlot(size: nat, slot: nat, record: array<byte>)
      requires 0 < size <= record.Length && slot < Capacity(size)
      requires pageHandler.pageNum >= 0 && Holding(pageHandler.pageNum) && record != pageHandler.data
      modifies pool`contents, pool.frames, pageHandler.data
      ensures pool.Valid() && pool.Buffers() == old(pool.Buffers()) && record[..] == old(record[..])
      ensures pool.State() == Write(old(pool.State()), pageHandler.pageNum,
        PutSlot(old(pageHandler.data[..]), size, slot, RecordStore.Image(size, old(record[..]))))
    {
      ghost var s := pool.State();
      ghost var i := IndexOf(s.frames, pageHandler.pageNum);
      var rc := pool.MarkDirty(pageHandler);
      pool.Expose();
      FillSlot(pageHandler.data, size, slot, record);
      pool.Wrote(i);
    }

    /** updatePage: store the record, unpin its page twice, then pin page 0. */
    method UpdatePage(size: nat, slot: nat, record: array<byte>)
      requires 0 < size <= record.Length && slot < Capacity(size)
      requires pageHandler.pageNum >= 0 && Holding(pageHandler.pageNum) && record != pageHandler.data
      modifies this`numOfTuples, pool, pool.frames, pool.file, pageHandler, pageHandler.data
      ensures pool.Valid() && numOfTuples == old(numOfTuples) + 1
      ensures var p: nat := old(pageHandler.pageNum);
        var page := PutSlot(old(pageHandler.data[..]), size, slot, RecordStore.Image(size, old(record[..])));
        pool.State() == PoolSteps.Pin(PoolSteps.Unpin(PoolSteps.Unpin(Write(old(pool.State()), p, page), p), p), 0)
    {
      hide PoolSteps.Pin, PoolSteps.Unpin, Write;
      WriteSlot(size, slot, record);
      Unpin();
      Unpin();
      numOfTuples := numOfTuples + 1;
      var rc := pool.PinPage(pageHandler, 0);
    }

    /** One round of insertRecord's search: pin the page, look for a free slot, unpin it if there is none. */
    method TryPage(size: nat, page: nat) returns (slotNum: int)
      requires 0 < size && pool.Valid() && Inv(pool.State()) && pool.strategy == LRU
      modifies pool, pool.frames, pool.file, pageHandler
      ensures slotNum == CheckCase(View(old(pool.State()), page), size) && pool.Valid()
      ensures slotNum == -1 ==> pool.State() == PoolSteps.Unpin(PoolSteps.Pin(old(pool.State()), page), page)
      ensures slotNum != -1 ==> pool.State() == PoolSteps.Pin(old(pool.State()), page)
      ensures slotNum != -1 ==> Holding(page) && pageHandler.data[..] == View(old(pool.State()), page)
      ensures fresh(pool.Buffers() - old(pool.Buffers()))
    {
      Pin(page);
      slotNum := CheckSlots(size, pageHandler.data);
      if slotNum == -1 {
        Unpin();
      }
    }

    /** insertRecord's search, page after page. */
    method FindSlot(size: nat) returns (page: nat, slotNum: int)
      requires Valid(size) && size <= 4096 && pageID >= 0
      modifies pool, pool.frames, pool.file, pageHandler
      ensures page == RecordStore.FreePage(old(pool.State()), size, pageID)
      ensures slotNum == CheckCase(View(old(pool.State()), page), size) && slotNum != -1
      ensures pool.Valid() && pool.State() == PoolSteps.Pin(RecordStore.Searched(old(pool.State()), pageID, page), page)
      ensures Holding(page) && pageHandler.data[..] == View(old(pool.State()), page)
      ensures fresh(pool.Buffers() - old(pool.Buffers()))
    {
      hide PoolSteps.Pin, PoolSteps.Unpin, View, Inv, RecordStore.FreePage, CheckCase, IndexOf;
      ghost var s := pool.State();
      ghost var free := RecordStore.FreePage(s, size, pageID);
      page := pageID;
      slotNum := TryPage(size, page);
      while slotNum == -1
        invariant pageID <= page <= free && pool.Valid()
        invariant slotNum == CheckCase(View(s, page), size)
        invariant slotNum == -1 ==> pool.State() == RecordStore.Searched(s, pageID, page + 1)
        invariant slotNum != -1 ==> pool.State() == PoolSteps.Pin(RecordStore.Searched(s, pageID, page), page)
        invariant slotNum != -1 ==> Holding(page) && pageHandler.data[..] == View(s, page)
        invariant fresh(pool.Buffers() - old(pool.Buffers()))
        decreases free - page
      {
        RecordStore.NotYet(s, size, pageID, page);
        page := page + 1;
        RecordStore.SearchedAlike(s, pageID, page);
        slotNum := TryPage(size, page);
      }
    }

    /**
     * insertRecord. Its second search loop is left out: the slot looked up again
     * right after the first loop is never -1.
     */
    method InsertRecord(size: nat, record: array<byte>) returns (rid: RecordStore.RID)
      requires Valid(size) && 0 < size <= 4096 && size <= record.Length && record !in pool.Buffers() && pageID >= 0
      modifies this, pool, pool.frames, pool.file, pageHandler, pool.Buffers()
      ensures pool.Valid() && TableOf(size) == RecordStore.Insert(old(TableOf(size)), old(record[..]))
      ensures rid == RecordStore.NextRID(old(TableOf(size)))
    {
      hide PoolSteps.Pin, PoolSteps.Unpin, Write, View, Inv;
      ghost var s := pool.State();
      var page, slot := FindSlot(size);
      RecordStore.FoundView(s, pageID, page);
      slot := CheckSlots(size, pageHandler.data);
      rid := RecordStore.RID(page, slot);
      UpdatePage(size, slot, record);
    }

    /** openTable: page 0 of the table's own pool says how many tuples there are and where records start. */
    method OpenTable(size: nat)
      requires Valid(size)
      modifies this, pool, pool.frames, pool.file, pageHandler
      ensures pool.Valid() && TableOf(size) == RecordStore.OpenTable(old(TableOf(size)))
    {
      hide PoolSteps.Pin, View, Inv, Force;
      Pin(0);
      ghost var page := pageHandler.data[..];
      assert pageHandler.data[0..4] == page[0..4] && pageHandler.data[4..8] == page[4..8];
      numOfTuples := DecodeInt(pageHandler.data[0..4]);
      pageID := DecodeInt(pageHandler.data[4..8]);
      var rc := pool.ForcePage(pageHandler);
    }

    /** closeTable, which drops the answer of shutdownBufferPool. */
    method CloseTable(size: nat)
      requires Valid(size)
      modifies pool, pool.frames, pool.file
      ensures pool.Valid() && TableOf(size) == RecordStore.CloseTable(old(TableOf(size)))
    {
      var rc := pool.ShutdownBufferPool();
    }

    /** Mark the page dirty through the handle. */
    method Mark()
      requires pool.Valid()
      modifies pool`contents, pool.frames
      ensures pool.Valid() && pool.State() == PoolSteps.MarkDirty(old(pool.State()), pageHandler.pageNum)
      ensures forall i :: 0 <= i < pool.frames.Length ==> pool.frames[i].data == old(pool.frames[i].data)
      ensures pool.Buffers() == old(pool.Buffers())
    {
      var rc := pool.MarkDirty(pageHandler);
    }

    /** deleteRecord: the tombstone goes in after the page was unpinned, twice. */
    method DeleteRecord(size: nat, rid: RecordStore.RID) returns (rc: RC)
      requires Valid(size) && RecordStore.DeleteInBounds(TableOf(size), rid)
      modifies this, pool, pool.frames, pool.file, pageHandler, pool.Buffers()
      ensures pool.Valid() && TableOf(size) == RecordStore.Delete(old(TableOf(size)), rid)
      ensures rc == RecordStore.DeleteRC(rid)
    {
      hide PoolSteps.Pin, PoolSteps.Unpin, PoolSteps.MarkDirty, Write, View, Inv;
      Pin(rid.page);
      ghost var found := pool.State();
      pageID := rid.page;
      if rid.slot >= RecordStore.NUM_SLOTS {
        Unpin();
        return NO_MORE_TUPLES;
      }
      ghost var i := IndexOf(found.frames, rid.page);
      Mark();
      Unpin();
      Unpin();
      Bury(rid.slot * size, i);
      LateWrite(found, rid.page, pageHandler.data[..]);
      rc := OK;
    }

    /** Write a '*' at `offset` of the page that frame `i` holds. */
    method Bury(offset: nat, ghost i: nat)
      requires pool.Valid() && offset < PAGE_SIZE && i < pool.frames.Length
      requires pageHandler.data != null && pool.frames[i].data == pageHandler.data
      requires pageHandler.data.Length == PAGE_SIZE
      modifies pool`contents, pageHandler.data
      ensures pool.Valid() && pageHandler.data.Length == PAGE_SIZE
      ensures pageHandler.data[..] == RecordStore.Buried(old(pageHandler.data[..]), offset)
      ensures pool.contents == old(pool.contents)[i := old(pool.contents)[i].(data := pageHandler.data[..])]
    {
      pool.Expose();
      pageHandler.data[offset] := DEAD;
      pool.Wrote(i);
      assert pageHandler.data[..] == RecordStore.Buried(old(pageHandler.data[..]), offset);
    }

    /** updateRecord's first loop: it pins every page before the record's own. */
    method PinEarlier(n: nat)
      requires pool.Valid() && Inv(pool.State())
      modifies pool, pool.frames, pool.file, pageHandler
      ensures pool.Valid() && pool.State() == RecordStore.PinnedUpTo(old(pool.State()), n)
      ensures Inv(pool.State()) && fresh(pool.Buffers() - old(pool.Buffers()))
    {
      hide PoolSteps.Pin, Inv;
      ghost var s := pool.State();
      var page := 0;
      while page < n
        invariant page <= n && pool.Valid() && pool.State() == RecordStore.PinnedUpTo(s, page)
        invariant fresh(pool.Buffers() - old(pool.Buffers()))
      {
        var rc := pool.PinPage(pageHandler, page);
        page := page + 1;
      }
      RecordStore.PinnedAlike(s, n);
    }

    /** updateRecord: the payload goes through a buffer of its own that keeps the tombstone byte. */
    method UpdateRecord(size: nat, rid: RecordStore.RID, record: array<byte>)
      requires Valid(size) && 0 < size <= record.Length && rid.slot < Capacity(size) && record !in pool.Buffers()
      modifies pool, pool.frames, pool.file, pageHandler, pool.Buffers()
      ensures pool.Valid() && TableOf(size) == RecordStore.Update(old(TableOf(size)), rid, old(record[..]))
    {
      hide PoolSteps.Pin, PoolSteps.Unpin, View, Inv;
      PinEarlier(rid.page);
      Pin(rid.page);
      ghost var i := IndexOf(pool.State().frames, rid.page);
      ReplacePayload(size, rid.slot, record, i);
      Unpin();
    }

    method ReplacePayload(size: nat, slot: nat, record: array<byte>, ghost i: nat)
      requires pool.Valid() && pageHandler.pageNum >= 0
      requires i == IndexOf(pool.State().frames, pageHandler.pageNum) < pool.frames.Length
      requires pageHandler.data != null && pool.frames[i].data == pageHandler.data
      requires pageHandler.data.Length == PAGE_SIZE
      requires 0 < size <= record.Length && slot < Capacity(size) && record != pageHandler.data
      modifies pool`contents, pool.frames, pageHandler.data
      ensures pool.Valid() && pool.State() == Write(old(pool.State()), pageHandler.pageNum,
        PutSlot(old(pageHandler.data[..]), size, slot,
                [SlotAt(old(pageHandler.data[..]), size, slot)[0]] + old(record[..])[1..size]))
    {
      Mark();
      pool.Expose();
      CopySlot(pageHandler.data, size, slot, record);
      pool.Wrote(i);
    }

    /** getRecord: the payload lands behind the first byte of the caller's record. */
    method GetRecord(size: nat, rid: RecordStore.RID, record: array<byte>)
      requires Valid(size) && 0 < size <= record.Length && rid.slot < Capacity(size) && record !in pool.Buffers()
      modifies pool, pool.frames, pool.file, pageHandler, record
      ensures pool.Valid() && TableOf(size) == RecordStore.Get(old(TableOf(size)), rid)
      ensures record[..] == RecordStore.Fetched(old(TableOf(size)), rid, old(record[..]))
    {
      hide PoolSteps.Pin, PoolSteps.Unpin, View, Inv;
      Pin(rid.page);
      FetchSlot(pageHandler.data, size, rid.slot, record);
      Unpin();
    }
  }

  /** memcpy of the slot and then of the new payload into the buffer, and of the buffer back into the slot. */
  method CopySlot(data: array<byte>, size: nat, slot: nat, record: array<byte>)
    requires data.Length == PAGE_SIZE && data != record
    requires 0 < size <= record.Length && slot < Capacity(size)
    modifies data
    ensures data[..] == PutSlot(old(data[..]), size, slot, [SlotAt(old(data[..]), size, slot)[0]] + record[1..size])
  {
    SlotFits(size, slot);
    var recordOffset := slot * size;
    var tempBuffer := new byte[size](_ => 0);
    forall k | 0 <= k < size {
      tempBuffer[k] := data[recordOffset + k];
    }
    forall k | 1 <= k < size {
      tempBuffer[k] := record[k];
    }
    forall k | 0 <= k < size {
      data[recordOffset + k] := tempBuffer[k];
    }
    assert data[..] == PutSlot(old(data[..]), size, slot, [SlotAt(old(data[..]), size, slot)[0]] + record[1..size]);
  }

  /** memcpy of the payload out of the slot. */
  method FetchSlot(data: array<byte>, size: nat, slot: nat, record: array<byte>)
    requires data.Length == PAGE_SIZE && data != record
    requires 0 < size <= record.Length && slot < Capacity(size)
    modifies record
    ensures record[..] == Splice(old(record[..]), 1, SlotAt(data[..], size, slot)[1..])
  {
    SlotFits(size, slot);
    var info := slot * size;
    ghost var payload := SlotAt(data[..], size, slot)[1..];
    assert payload == data[info + 1..info + size];
    forall k | 1 <= k < size {
      record[k] := data[info + k];
    }
    assert record[..] == Splice(old(record[..]), 1, payload);
  }

  /** Marking, unpinning and only then filling the page comes to the same as filling it first. */
  lemma LateWrite(s: Pool, p: nat, page: Page)
    requires IndexOf(s.frames, p) < |s.frames|
    ensures var i := IndexOf(s.frames, p);
      var t := PoolSteps.Unpin(PoolSteps.Unpin(PoolSteps.MarkDirty(s, p), p), p);
      PoolSteps.Unpin(PoolSteps.Unpin(Write(s, p, page), p), p) ==
        t.(frames := t.frames[i := t.frames[i].(data := page)])
  {
    hide IndexOf;
    var i := IndexOf(s.frames, p);
    var f := s.frames[i];
    var g := f.(dirty := true);
    var h := f.(data := page, dirty := true);
    Unpinned(PoolSteps.MarkDirty(s, p), p, s.frames, i, g);
    Unpinned(PoolSteps.Unpin(PoolSteps.MarkDirty(s, p), p), p, s.frames, i, g.(fix := g.fix - 1));
    Unpinned(Write(s, p, page), p, s.frames, i, h);
    Unpinned(PoolSteps.Unpin(Write(s, p, page), p), p, s.frames, i, h.(fix := h.fix - 1));
    Overwritten(s.frames, i, g.(fix := g.fix - 2), h.(fix := h.fix - 2));
  }

  lemma Unpinned(t: Pool, p: int, frames: seq<Frame>, i: nat, f: Frame)
    requires i == IndexOf(frames, p) < |frames| && f.page == p && t.frames == frames[i := f]
    ensures PoolSteps.Unpin(t, p) == t.(frames := frames[i := f.(fix := f.fix - 1)])
  {
    StaysFirst(frames, p, f);
    Overwritten(frames, i, f, f.(fix := f.fix - 1));
  }

  lemma Overwritten(frames: seq<Frame>, i: nat, f: Frame, g: Frame)
    requires i < |frames|
    ensures frames[i := f][i := g] == frames[i := g]
  {
  }

  lemma StaysFirst(frames: seq<Frame>, p: int, f: Frame)
    requires IndexOf(frames, p) < |frames| && f.page == p
    ensures IndexOf(frames[IndexOf(frames, p) := f], p) == IndexOf(frames, p)
  {
    IndexIs(frames[IndexOf(frames, p) := f], p, IndexOf(frames, p));
  }

  /** The tombstone byte, then memmove of the rest of the record. */
  method FillSlot(data: array<byte>, size: nat, slot: nat, record: array<byte>)
    requires data.Length == PAGE_SIZE && data != record
    requires 0 < size <= record.Length && slot < Capacity(size)
    modifies data
    ensures data[..] == PutSlot(old(data[..]), size, slot, RecordStore.Image(size, record[..]))
  {
    SlotFits(size, slot);
    var offset := slot * size;
    data[offset] := LIVE;
    forall k | 1 <= k < size {
      data[offset + k] := record[k];
    }
    assert data[..] == PutSlot(old(data[..]), size, slot, RecordStore.Image(size, record[..]));
  }
}
