/** When closeTable's flush writes a record just inserted to the page file. */
module TableDurability {
  import opened Bytes
  import opened BlockStore
  import opened PoolSteps
  import opened Coherence
  import opened Slots
  import opened RecordStore
  import opened Durability
  import Accounting
  import TableBalance

  /** The fix count that the frame of page `p` has before a pin makes it resident. */
  function HeldBefore(s: Pool, p: nat): int
    requires |s.frames| > 0
  {
    var i := IndexOf(s.frames, p);
    if i < |s.frames| then s.frames[i].fix
    else if s.frames[0].page == NO_PAGE then s.frames[0].fix
    else 0
  }

  /** updatePage's pin of page 0 replaces page `p`, and so writes it back. */
  ghost predicate ThrownOut(s: Pool, p: nat)
    requires |s.frames| > 0
  {
    Probe(s.frames, 0) == |s.frames| && s.frames[LruScan(s.frames, |s.frames|)].page == p
  }

  lemma Pinned(s: Pool, p: nat)
    requires Inv(s) && s.strategy == LRU
    ensures var t := Pin(s, p); var i := IndexOf(t.frames, p);
      && Inv(t) && i < |t.frames| && t.frames[i].fix == HeldBefore(s, p) + 1
      && Block(t.file, p) == Block(s.file, p)
  {
    hide Install, LruScan, View, Block;
    LruPin(s, p);
    ProbeFinds(s.frames, p);
    var k, t := Probe(s.frames, p), Pin(s, p);
    if k == |s.frames| {
      var v := LruScan(s.frames, |s.frames|);
      assert t == Install(Counted(s), v, p, Block(s.file, p));
      Installed(Counted(s), v, p, Block(s.file, p));
      IndexIs(t.frames, p, v);
      InstalledFile(Counted(s), v, p, Block(s.file, p), p);
    } else {
      IndexIs(t.frames, p, k);
    }
  }

  /** A replacement touches no block but the victim's. */
  lemma InstalledFile(s: Pool, v: nat, p: nat, data: Page, q: nat)
    requires v < |s.frames| && s.frames[v].page != q
    ensures Block(Install(s, v, p, data).file, q) == Block(s.file, q)
  {
    WrittenBlock(s.file, s.frames[v].page, s.frames[v].data, q);
  }

  /** A write to resident page `p` and two unpins change its frame and nothing else. */
  lemma StoreResident(s: Pool, p: nat, page: Page)
    requires Inv(s) && IndexOf(s.frames, p) < |s.frames|
    ensures var i := IndexOf(s.frames, p); var t := Unpin(Unpin(Write(s, p, page), p), p);
      && t.file == s.file && t.strategy == s.strategy && Inv(t)
      && t.frames == s.frames[i := s.frames[i].(data := page, dirty := true, fix := s.frames[i].fix - 2)]
    ensures forall q :: IndexOf(Unpin(Unpin(Write(s, p, page), p), p).frames, q) == IndexOf(s.frames, q)
  {
    var i := IndexOf(s.frames, p);
    var f := s.frames[i].(data := page, dirty := true);
    SamePages(s.frames, i, f);
    SamePages(s.frames, i, f.(fix := f.fix - 1));
    SamePages(s.frames, i, f.(fix := f.fix - 2));
  }

  /** Neither what a client sees of page 0 nor LRU's choice has changed. */
  lemma SameChoice(s: Pool, t: Pool, p: nat)
    requires |s.frames| == |t.frames| > 0
    requires forall i :: 0 <= i < |s.frames| ==>
      t.frames[i].page == s.frames[i].page && t.frames[i].lru == s.frames[i].lru
    ensures ThrownOut(s, p) == ThrownOut(t, p)
  {
    hide LruScan;
    SameScan(s.frames, t.frames, |s.frames|);
    var k := Probe(s.frames, 0);
    assert k < |s.frames| ==> t.frames[k].page == s.frames[k].page;
  }

  lemma {:induction false} SameScan(a: seq<Frame>, b: seq<Frame>, n: nat)
    requires n <= |a| == |b| && |a| > 0 && forall i :: 0 <= i < |a| ==> a[i].lru == b[i].lru
    ensures LruScan(a, n) == LruScan(b, n)
  {
    if n > 0 {
      SameScan(a, b, n - 1);
    }
  }

  /** updatePage's last pin: a stored page either keeps its frame or goes to the file. */
  lemma PinZero(w: Pool, p: nat)
    requires Inv(w) && w.strategy == LRU && IndexOf(w.frames, p) < |w.frames|
    ensures var i, u := IndexOf(w.frames, p), Pin(w, 0);
      && Inv(u) && (ThrownOut(w, p) <==> IndexOf(u.frames, p) == |u.frames|)
      && (!ThrownOut(w, p) ==>
            && IndexOf(u.frames, p) == i && Block(u.file, p) == Block(w.file, p)
            && u.frames[i].data == w.frames[i].data && u.frames[i].dirty == w.frames[i].dirty
            && u.frames[i].fix == w.frames[i].fix + (if p == 0 then 1 else 0))
  {
    hide Install, LruScan, View, Block, LastWrite;
    LruPin(w, 0);
    ProbeFinds(w.frames, 0);
    var i, k, u := IndexOf(w.frames, p), Probe(w.frames, 0), Pin(w, 0);
    if k == |w.frames| {
      var v := LruScan(w.frames, |w.frames|);
      assert u == Install(Counted(w), v, 0, Block(w.file, 0));
      Installed(Counted(w), v, 0, Block(w.file, 0));
      if w.frames[v].page == p {
        IndexIs(w.frames, p, v);
        IndexNone(u.frames, p);
      } else {
        IndexIs(u.frames, p, i);
        InstalledFile(Counted(w), v, 0, Block(w.file, 0), p);
      }
    } else {
      IndexIs(u.frames, p, i);
    }
  }

  /** Pin, write, unpin twice, pin page 0, flush: when page `p` is on file. */
  lemma StoredDurable(s: Pool, p: nat, page: Page)
    requires Inv(s) && s.strategy == LRU
    ensures var u := Pin(Unpin(Unpin(Write(Pin(s, p), p, page), p), p), 0);
      && Inv(u)
      && (Block(Flush(u).file, p) == View(u, p) <==>
           ThrownOut(Pin(s, p), p) || HeldBefore(s, p) == (if p == 0 then 0 else 1) || Block(s.file, p) == page)
  {
    hide Pin, Write, Unpin, Flush, LruScan, HeldBefore, ThrownOut, Block;
    var found := Pin(s, p);
    Pinned(s, p);
    StoreResident(found, p, page);
    var w := Unpin(Unpin(Write(found, p, page), p), p);
    SameChoice(found, w, p);
    PinZero(w, p);
    FlushedView(Pin(w, 0), p);
  }

  /**
   * What closing gets onto the file: each page's block is what the client saw unless
   * the page sits in a frame that is dirty, in use and different from its block.
   */
  lemma ClosedBlock(t: Table, q: nat)
    requires TableInv(t)
    ensures var s := t.pool; var i := IndexOf(s.frames, q);
      Block(CloseTable(t).pool.file, q) == View(s, q) <==>
        !(i < |s.frames| && s.frames[i].dirty && s.frames[i].fix != 0 && s.frames[i].data != Block(s.file, q))
  {
    hide Flush, Block, View;
    FlushedView(t.pool, q);
  }

  /** And nothing else changes on file: every other block is what it was. */
  lemma ClosedKeeps(t: Table, q: nat)
    requires TableInv(t) && Block(CloseTable(t).pool.file, q) != View(t.pool, q)
    ensures Block(CloseTable(t).pool.file, q) == Block(t.pool.file, q)
  {
    hide FlushTo, Block;
    ClosedBlock(t, q);
    FlushSkips(t.pool, |t.pool.frames|, IndexOf(t.pool.frames, q));
  }

  /**
   * After closeTable's flush the page file holds page p, with the record just
   * inserted into it, exactly when the pin of page 0 throws p out and so writes it,
   * when p's frame was pinned once before the call (not at all if p is page 0,
   * which is pinned again), so that the two unpins bring its fix count to 0, or
   * when the file already held those bytes. `s` is the pool after the search for a
   * free slot.
   */
  lemma InsertDurable(t: Table, record: seq<byte>)
    requires TableInv(t) && t.size <= 4096 && t.size <= |record| && t.pageID >= 0
    ensures var p := NextRID(t).page; var s := Searched(t.pool, t.pageID, p); var u := Insert(t, record);
      Block(CloseTable(u).pool.file, p) == View(u.pool, p) <==>
        || ThrownOut(Pin(s, p), p)
        || HeldBefore(s, p) == (if p == 0 then 0 else 1)
        || Block(s.file, p) == View(u.pool, p)
  {
    hide Pin, Write, Unpin, Flush, FreePage, CheckCase, PutSlot, Image, ThrownOut, HeldBefore;
    var rid := NextRID(t);
    var s := Searched(t.pool, t.pageID, rid.page);
    SearchedAlike(t.pool, t.pageID, rid.page);
    FoundView(t.pool, t.pageID, rid.page);
    StoredDurable(s, rid.page, PutSlot(View(Pin(s, rid.page), rid.page), t.size, rid.slot, Image(t.size, record)));
    InsertView(t, record);
  }

  /** The slot that takes the record had no '#', so the page is not what it was. */
  lemma InsertChanges(t: Table, record: seq<byte>)
    requires TableInv(t) && t.size <= 4096 && t.size <= |record| && t.pageID >= 0
    ensures View(Insert(t, record).pool, NextRID(t).page) != View(t.pool, NextRID(t).page)
  {
    hide View, Insert;
    var rid, u := NextRID(t), Insert(t, record);
    InsertView(t, record);
    NextIsFirstFree(t, rid);
    PutGet(View(t.pool, rid.page), t.size, rid.slot, Image(t.size, record), rid.slot);
    assert SlotAt(View(u.pool, rid.page), t.size, rid.slot)[0] == LIVE;
  }

  /**
   * The first record on a page, and any on a page not resident: it reaches the
   * file only by the pin of page 0, as page 0 itself or by page 0 taking its frame.
   */
  lemma NewPageDurable(t: Table, record: seq<byte>)
    requires TableInv(t) && t.size <= 4096 && t.size <= |record| && t.pageID >= 0 && Accounting.EmptyIdle(t.pool)
    requires var p := NextRID(t).page; IndexOf(Searched(t.pool, t.pageID, p).frames, p) == |t.pool.frames|
    ensures var p := NextRID(t).page; var u := Insert(t, record);
      Block(CloseTable(u).pool.file, p) == View(u.pool, p) <==>
        p == 0 || ThrownOut(Pin(Searched(t.pool, t.pageID, p), p), p)
  {
    hide Insert, Flush, ThrownOut, Pin, FreePage, CheckCase;
    var p := NextRID(t).page;
    var s := Searched(t.pool, t.pageID, p);
    InsertDurable(t, record);
    InsertChanges(t, record);
    SearchedAlike(t.pool, t.pageID, p);
    TableBalance.SearchHeld(t.pool, t.pageID, p);
    assert View(s, p) == Block(s.file, p);
    assert Accounting.EmptyIdle(s);
    assert HeldBefore(s, p) == 0;
  }
}
