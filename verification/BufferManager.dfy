/**
 * buffer_mgr.c in place: an array of frames that point to page buffers, loops over
 * that array, and the counters of `pageInfo`. Every method does a step of module PoolSteps.
 */
module BufferManager {
  import opened Bytes
  import opened BlockStore
  import opened PoolSteps
  import Modular

  /** pgFr with its pointer to the page buffer. */
  datatype Cell = Cell(page: int, data: array?<byte>, dirty: bool, fix: int, lru: int, lfu: int)

  /** BM_PageHandle. */
  class PageHandle {
    var pageNum: int
    var data: array?<byte>

    constructor ()
      ensures pageNum == NO_PAGE && data == null
    {
      pageNum, data := NO_PAGE, null;
    }
  }

  class BufferPool {
    const file: PageFile
    const strategy: Strategy
    const frames: array<Cell>
    const uninit: int -> int
    var pageCounter: nat
    var lastPg: nat
    var lastEntry: nat
    var lastPtr: nat
    var writes: nat
    var forced: nat
    /** What the frames and their buffers hold, as frame values. */
    ghost var contents: seq<Frame>

    /** The buffers that the frames own. */
    ghost function Buffers(): (bs: set<object>)
      reads frames
    {
      set i | 0 <= i < frames.Length && frames[i].data != null :: frames[i].data
    }

    static ghost predicate ValidCell(c: Cell) {
      && c.page >= NO_PAGE
      && (c.data == null <==> c.page == NO_PAGE)
      && (c.data != null ==> c.data.Length == PAGE_SIZE)
    }

    static ghost function FrameOf(c: Cell): Frame
      requires ValidCell(c)
      reads if c.data == null then {} else {c.data}
    {
      Frame(c.page, if c.data == null then ZERO_PAGE else c.data[..], c.dirty, c.fix, c.lru, c.lfu)
    }

    /** Occupied frames own a page buffer each, empty frames none. */
    ghost predicate Cells()
      reads this, frames, Buffers()
    {
      && |contents| == frames.Length > 0
      && (forall i :: 0 <= i < frames.Length ==> ValidCell(frames[i]) && contents[i] == FrameOf(frames[i]))
      && (forall i, j :: 0 <= i < j < frames.Length && frames[i].data != null ==> frames[i].data != frames[j].data)
    }

    /** Cells, one frame at a time: callers carry this form and need not look inside. */
    ghost predicate ValidTo(n: nat)
      requires n <= frames.Length == |contents|
      reads this, frames, Buffers()
    {
      n == 0 || (
        && ValidTo(n - 1)
        && ValidCell(frames[n - 1]) && contents[n - 1] == FrameOf(frames[n - 1])
        && (frames[n - 1].data != null ==> forall j :: 0 <= j < n - 1 ==> frames[j].data != frames[n - 1].data))
    }

    ghost predicate Valid()
      reads this, frames, Buffers()
    {
      |contents| == frames.Length > 0 && ValidTo(frames.Length)
    }

    lemma ExposeTo(n: nat)
      requires n <= frames.Length == |contents| && ValidTo(n)
      ensures forall i :: 0 <= i < n ==> ValidCell(frames[i]) && contents[i] == FrameOf(frames[i])
      ensures forall i, j :: 0 <= i < j < n && frames[i].data != null ==> frames[i].data != frames[j].data
    {
      if n > 0 {
        ExposeTo(n - 1);
      }
    }

    lemma Expose()
      requires Valid()
      ensures Cells()
    {
      ExposeTo(frames.Length);
    }

    lemma FoldTo(n: nat)
      requires Cells() && n <= frames.Length
      ensures ValidTo(n)
    {
    }

    lemma Fold()
      requires Cells()
      ensures Valid()
    {
      FoldTo(frames.Length);
    }

    /** The pool value that module PoolSteps works on. */
    ghost function State(): Pool
      reads this, file
    {
      Pool(contents, file.bytes, strategy, pageCounter, lastPg, lastEntry, lastPtr, writes, forced, uninit)
    }

    /** The handle points to the buffer of the frame that holds its page. */
    ghost predicate Holds(page: PageHandle)
      reads frames, page
    {
      && page.data != null
      && exists i :: 0 <= i < frames.Length && frames[i].page == page.pageNum && frames[i].data == page.data
    }

    /** initBufferPool. */
    constructor (file: PageFile, numPages: nat, strategy: Strategy, lastPg: nat, forced: nat, uninit: int -> int)
      requires numPages > 0
      ensures Valid() && fresh(frames) && Buffers() == {}
      ensures this.file == file && State() == Init(numPages, file.bytes, strategy, lastPg, forced, uninit)
    {
      this.file := file;
      this.strategy := strategy;
      this.uninit := uninit;
      pageCounter, lastEntry, lastPtr, writes := 0, 0, 0, 0;
      this.lastPg, this.forced := lastPg, forced;
      contents := seq(numPages, _ => EMPTY_FRAME);
      frames := new Cell[numPages](_ => Cell(NO_PAGE, null, false, 0, 0, 0));
      new;
      Fold();
    }

    /** Assign to frame `i`; its buffer is the one it had or one that no frame owns. */
    method Store(i: nat, c: Cell)
      requires Cells() && i < frames.Length && ValidCell(c)
      requires c.data == null || c.data == frames[i].data || c.data !in Buffers()
      modifies frames, this`contents
      ensures Cells() && contents == old(contents)[i := FrameOf(c)]
      ensures frames[i] == c && Buffers() <= old(Buffers()) + (if c.data == null then {} else {c.data})
    {
      assert forall j :: 0 <= j < frames.Length && frames[j].data != null ==> frames[j].data in Buffers();
      frames[i] := c;
      contents := contents[i := FrameOf(c)];
    }

    /** Set the dirty bit or the fix count of a frame. */
    method SetFields(i: nat, dirty: bool, fix: int)
      requires Cells() && i < frames.Length
      modifies this`contents, frames
      ensures Cells() && State() == old(State()).(
        frames := old(State()).frames[i := old(State()).frames[i].(dirty := dirty, fix := fix)])
      ensures forall j :: 0 <= j < frames.Length ==>
        frames[j].data == old(frames[j].data) && frames[j].page == old(frames[j].page)
    {
      frames[i] := frames[i].(dirty := dirty, fix := fix);
      contents := contents[i := contents[i].(dirty := dirty, fix := fix)];
    }

    /** Everything but the buffer of frame `i` is as recorded. */
    ghost predicate CellsBut(i: nat)
      reads this, frames, Buffers()
    {
      && i < |contents| == frames.Length
      && (forall j :: 0 <= j < frames.Length ==> ValidCell(frames[j]))
      && (forall j :: 0 <= j < frames.Length && j != i ==> contents[j] == FrameOf(frames[j]))
      && (forall j, k :: 0 <= j < k < frames.Length && frames[j].data != null ==> frames[j].data != frames[k].data)
    }

    /** A client has written into the buffer of frame `i`. */
    ghost method Wrote(i: nat)
      requires CellsBut(i)
      requires frames[i].data != null && contents[i] == FrameOf(frames[i]).(data := contents[i].data)
      modifies this`contents
      ensures Valid() && contents == old(contents)[i := old(contents)[i].(data := frames[i].data[..])]
    {
      contents := contents[i := contents[i].(data := frames[i].data[..])];
      Fold();
    }

    // ---------- Replacement ----------

    /** writeBlock on a frame; an empty frame's page number makes it write nothing. */
    method WriteFrame(v: nat)
      requires Cells() && v < frames.Length
      modifies file
      ensures Cells() && State() == old(State()).(file := Written(old(file.bytes), contents[v].page, contents[v].data))
    {
      if frames[v].data != null {
        var rc := file.WriteBlock(frames[v].page, frames[v].data);
      }
    }

    /** writeInvoke. */
    method WriteInvoke(v: nat)
      requires Cells() && v < frames.Length
      modifies this`writes, this`contents, frames, file
      ensures Cells() && State() == WriteBack(old(State()), v) && Buffers() <= old(Buffers())
    {
      WriteFrame(v);
      SetFields(v, false, frames[v].fix);
      writes := writes + 1;
    }

    /** A frame just read: fix count 1, clean, its lruPage as malloc left it. */
    ghost predicate Loaded(fr: Cell)
      reads this, frames
    {
      fr.page >= 0 && !fr.dirty && fr.fix == 1 && fr.lru == uninit(lastPg) && ValidCell(fr) && fr.data !in Buffers()
    }

    ghost predicate FrameHas(i: nat, fr: Cell)
      reads frames
    {
      i < frames.Length && frames[i].page == fr.page && frames[i].data == fr.data
    }

    /** Write back the victim if it is dirty, then assign_val. */
    method Assign(fr: Cell, ct: nat)
      requires Cells() && ct < frames.Length && Loaded(fr)
      modifies this`writes, this`contents, frames, file
      ensures Cells() && State() == Install(old(State()), ct, fr.page, fr.data[..])
      ensures FrameHas(ct, fr) && Buffers() <= old(Buffers()) + {fr.data}
    {
      if frames[ct].dirty {
        WriteInvoke(ct);
      }
      Store(ct, Cell(fr.page, fr.data, fr.dirty, fr.fix, fr.lru, frames[ct].lfu));
    }

    method Fifo(fr: Cell) returns (rc: RC)
      requires Cells() && strategy == FIFO && Loaded(fr)
      modifies this`writes, this`contents, frames, file
      ensures Cells() && State() == Place(old(State()), fr.page, fr.data[..])
      ensures Victim(old(State())).Some? ==> FrameHas(Victim(old(State())).value, fr)
      ensures rc == PlaceRC(old(State())) && Buffers() <= old(Buffers()) + {fr.data}
    {
      ghost var s := State();
      var handler := pageCounter % frames.Length;
      var ct := 0;
      while ct < frames.Length
        invariant handler == s.pageCounter % frames.Length + ct <= frames.Length
        invariant FifoWalk(s.frames, s.pageCounter % frames.Length) == FifoWalk(s.frames, handler)
        invariant frames[..] == old(frames[..]) && Cells() && State() == s
      {
        if handler == frames.Length {
          // the next test would read frame N of an array of N
          return OUT_OF_BOUNDS;
        }
        if frames[handler].fix == 0 {
          Assign(fr, handler);
          return OK;
        }
        handler := handler + 1;
        ct := ct + 1;
      }
      rc := OK;
    }

    /** LRU's loop: the last frame with the smallest stamp. */
    method LruVictim() returns (frameCount: nat)
      requires Cells()
      ensures frameCount == LruScan(State().frames, frames.Length)
    {
      ghost var fs := State().frames;
      var lrNum := frames[0].lru;
      frameCount := 0;
      var flag := 0;
      while flag < frames.Length
        invariant flag <= frames.Length && frameCount == LruScan(fs, flag)
        invariant lrNum == fs[frameCount].lru
      {
        if frames[flag].lru <= lrNum {
          frameCount := flag;
          lrNum := frames[flag].lru;
        }
        flag := flag + 1;
      }
      assert flag == frames.Length && fs == State().frames;
    }

    method Lru(fr: Cell)
      requires Cells() && strategy == LRU && Loaded(fr)
      modifies this`writes, this`contents, frames, file
      ensures Cells() && State() == Place(old(State()), fr.page, fr.data[..])
      ensures Victim(old(State())).Some? && FrameHas(Victim(old(State())).value, fr)
      ensures Buffers() <= old(Buffers()) + {fr.data}
    {
      hide LruScan, Install;
      var frameCount := LruVictim();
      Assign(fr, frameCount);
    }

    method Clock(fr: Cell) returns (rc: RC)
      requires Cells() && strategy == CLOCK && Loaded(fr)
      modifies this`writes, this`contents, this`lastEntry, frames, file
      ensures Cells() && State() == Place(old(State()), fr.page, fr.data[..])
      ensures Victim(old(State())).Some? ==> FrameHas(Victim(old(State())).value, fr)
      ensures rc == PlaceRC(old(State())) && Buffers() <= old(Buffers()) + {fr.data}
    {
      var hand := if lastEntry % frames.Length == 0 then 0 else lastEntry;
      if hand >= frames.Length {
        return OUT_OF_BOUNDS;
      }
      Assign(fr, hand);
      lastEntry := hand + 1;
      rc := OK;
    }

    /** LFU's loop: once around the array from the frame after `start`, ending there. */
    method LfuVictim(start: nat) returns (leastFreq: nat)
      requires Cells() && start < frames.Length
      ensures leastFreq == LfuScan(State().frames, start, frames.Length)
    {
      hide Around;
      ghost var fs := State().frames;
      assert forall i :: 0 <= i < frames.Length ==> fs[i].lfu == frames[i].lfu;
      hide Cells, FrameOf, ValidCell;
      leastFreq := start;
      var leastRef := frames[leastFreq].lfu;
      var ptr := Around(leastFreq, 1, frames.Length);
      var count := 0;
      while count < frames.Length
        invariant count <= frames.Length && leastFreq == LfuScan(fs, start, count)
        invariant leastRef == fs[leastFreq].lfu && ptr == Around(start, count + 1, |fs|)
      {
        if frames[ptr].lfu <= leastRef {
          leastFreq := ptr;
          leastRef := frames[ptr].lfu;
        }
        NextAround(start, count + 1, frames.Length);
        ptr := Around(ptr, 1, frames.Length);
        count := count + 1;
      }
      assert count == frames.Length && fs == State().frames;
    }

    method Lfu(fr: Cell)
      requires Cells() && strategy == LFU && Loaded(fr)
      modifies this`writes, this`contents, this`lastPtr, frames, file
      ensures Cells() && State() == Place(old(State()), fr.page, fr.data[..])
      ensures Victim(old(State())).Some? && FrameHas(Victim(old(State())).value, fr)
      ensures Buffers() <= old(Buffers()) + {fr.data}
    {
      hide LfuScan, Install;
      var leastFreq := LfuVictim(lastPtr % frames.Length);
      Assign(fr, leastFreq);
      lastPtr := leastFreq + 1;
    }

    // ---------- pinPage ----------

    /** A new page buffer with block `pNum` in it. */
    method ReadPage(pNum: nat) returns (data: array<byte>)
      modifies file`curPagePos
      ensures fresh(data) && data.Length == PAGE_SIZE && data[..] == Block(file.bytes, pNum)
    {
      data := new byte[PAGE_SIZE](_ => 0);
      assert data[..] == ZERO_PAGE;
      var rc := file.ReadBlock(pNum, data);
    }

    /** pinPage's loop: the first frame that is empty or holds the page. */
    method FindFrame(pNum: nat) returns (pointer: nat)
      requires Cells()
      ensures pointer == Probe(State().frames, pNum)
    {
      ghost var fs := State().frames;
      pointer := 0;
      while pointer < frames.Length
        invariant pointer <= frames.Length && Probe(fs, pNum) == ProbeFrom(fs, pNum, pointer)
      {
        if frames[pointer].page < 0 || frames[pointer].page == pNum {
          return;
        }
        pointer := pointer + 1;
      }
      assert fs == State().frames;
    }

    /** pinPage on an empty frame. */
    method LoadFrame(i: nat, page: PageHandle, pNum: nat)
      requires Cells() && i < frames.Length && frames[i].page == NO_PAGE
      modifies this`contents, this`pageCounter, this`lastPg, frames, file`curPagePos, page
      ensures Cells() && State() == Load(old(State()), i, pNum)
      ensures page.pageNum == pNum && page.data != null && fresh(page.data)
      ensures page.data == frames[i].data && frames[i].page == pNum && Buffers() <= old(Buffers()) + {page.data}
    {
      var data := ReadPage(pNum);
      page.data, page.pageNum := data, pNum;
      var c := frames[i];
      var lru := if i == 0 then 0 else FirstStamp(strategy, lastPg + 1);
      hide FirstStamp;
      if i > 0 {
        pageCounter, lastPg := pageCounter + 1, lastPg + 1;
      }
      Store(i, Cell(pNum, data, c.dirty, if i == 0 then c.fix + 1 else 1, lru, 0));
    }

    /** pinPage on a resident page. */
    method HitFrame(i: nat, page: PageHandle, pNum: nat)
      requires Cells() && i < frames.Length && frames[i].page == pNum
      modifies this`contents, this`lastPg, this`lastEntry, frames, page
      ensures Cells() && State() == Hit(old(State()), i) && Buffers() <= old(Buffers())
      ensures page.pageNum == pNum && page.data != null && page.data == frames[i].data
      ensures page.data == old(frames[i].data) && frames[i].page == pNum
    {
      page.data, page.pageNum := frames[i].data, pNum;
      lastPg, lastEntry := lastPg + 1, lastEntry + 1;
      var c := frames[i].(fix := frames[i].fix + 1);
      c := match strategy
        case LFU => c.(lfu := 1)
        case LRU => c.(lru := 1)
        case CLOCK => c.(lru := 1)
        case _ => c;
      assert FrameOf(c) == Used(contents[i], strategy);
      hide Used;
      Store(i, c);
    }

    /** The switch at the end of pinPage. */
    method PlaceFrame(fr: Cell) returns (rc: RC)
      requires Cells() && Loaded(fr)
      modifies this`writes, this`contents, this`lastEntry, this`lastPtr, frames, file
      ensures Cells() && State() == Place(old(State()), fr.page, fr.data[..])
      ensures Victim(old(State())).Some? ==> FrameHas(Victim(old(State())).value, fr)
      ensures rc == PlaceRC(old(State())) && Buffers() <= old(Buffers()) + {fr.data}
    {
      rc := OK;
      match strategy {
        case LFU => Lfu(fr);
        case LRU => Lru(fr);
        case FIFO => rc := Fifo(fr);
        case CLOCK => rc := Clock(fr);
        case LRU_K =>
      }
    }

    /** pinPage when every frame holds another page. */
    method ReplaceFrame(page: PageHandle, pNum: nat) returns (rc: RC)
      requires Cells()
      modifies this, frames, file, page
      ensures Cells() && State() == Replace(old(State()), pNum)
      ensures rc == PlaceRC(Counted(old(State())))
      ensures page.pageNum == pNum && page.data != null && fresh(page.data)
      ensures page.data.Length == PAGE_SIZE && page.data[..] == Block(old(file.bytes), pNum)
      ensures Victim(Counted(old(State()))).Some? ==> Holds(page)
      ensures Buffers() <= old(Buffers()) + {page.data}
    {
      hide Place, Victim, Install, Advance;
      ghost var s := State();
      var data := ReadPage(pNum);
      page.data, page.pageNum := data, pNum;
      lastPg, pageCounter := lastPg + 1, pageCounter + 1;
      assert State() == Counted(s);
      rc := PlaceFrame(Cell(pNum, data, false, 1, uninit(lastPg), 0));
    }

    /** pinPage. */
    method PinPage(page: PageHandle, pNum: nat) returns (rc: RC)
      requires Valid()
      modifies this, frames, file, page
      ensures Valid() && State() == Pin(old(State()), pNum)
      ensures rc == PinRC(old(State()), pNum)
      ensures page.pageNum == pNum && page.data != null && page.data.Length == PAGE_SIZE
      ensures Probe(old(State()).frames, pNum) < frames.Length || Victim(Counted(old(State()))).Some? ==> Holds(page)
      ensures fresh(Buffers() - old(Buffers()))
      ensures page.data in old(Buffers()) || fresh(page.data)
    {
      hide Load, Hit, Replace, Victim;
      Expose();
      var pointer := FindFrame(pNum);
      assert pointer < frames.Length ==> State().frames[pointer] == FrameOf(frames[pointer]);
      if pointer == frames.Length {
        rc := ReplaceFrame(page, pNum);
      } else if frames[pointer].page < 0 {
        LoadFrame(pointer, page, pNum);
        rc := OK;
      } else {
        HitFrame(pointer, page, pNum);
        rc := OK;
      }
      Fold();
    }

    // ---------- The other calls ----------

    /** The search in markDirty, unpinPage and forcePage. */
    method FindPage(pageNum: int) returns (count: nat)
      requires Cells()
      ensures count == IndexOf(State().frames, pageNum)
    {
      ghost var fs := State().frames;
      count := 0;
      while count < frames.Length && frames[count].page != pageNum
        invariant count <= frames.Length && IndexOf(fs, pageNum) == IndexFrom(fs, pageNum, count)
      {
        count := count + 1;
      }
      assert fs == State().frames;
      assert count < frames.Length ==> fs[count] == FrameOf(frames[count]);
    }

    /** markDirty. */
    method MarkDirty(page: PageHandle) returns (rc: RC)
      requires Valid()
      modifies this`contents, frames
      ensures Valid() && State() == PoolSteps.MarkDirty(old(State()), page.pageNum)
      ensures rc == FoundRC(old(State()), page.pageNum)
      ensures forall i :: 0 <= i < frames.Length ==>
        frames[i].data == old(frames[i].data) && frames[i].page == old(frames[i].page)
    {
      Expose();
      var count := FindPage(page.pageNum);
      if count == frames.Length {
        Fold();
        return ERROR;
      }
      SetFields(count, true, frames[count].fix);
      rc := OK;
      Fold();
    }

    /** unpinPage. */
    method UnpinPage(page: PageHandle) returns (rc: RC)
      requires Valid()
      modifies this`contents, frames
      ensures Valid() && State() == Unpin(old(State()), page.pageNum)
      ensures rc == FoundRC(old(State()), page.pageNum)
      ensures forall i :: 0 <= i < frames.Length ==>
        frames[i].data == old(frames[i].data) && frames[i].page == old(frames[i].page)
    {
      Expose();
      var check := FindPage(page.pageNum);
      if check == frames.Length {
        Fold();
        return ERROR;
      }
      SetFields(check, frames[check].dirty, frames[check].fix - 1);
      rc := OK;
      Fold();
    }

    /** forcePage. */
    method ForcePage(page: PageHandle) returns (rc: RC)
      requires Valid()
      modifies this`contents, this`forced, frames, file
      ensures Valid() && State() == Force(old(State()), page.pageNum)
      ensures rc == FoundRC(old(State()), page.pageNum)
    {
      hide IndexOf, Written;
      Expose();
      var i := FindPage(page.pageNum);
      if i == frames.Length {
        Fold();
        return ERROR;
      }
      WriteFrame(i);
      forced := forced + 1;
      SetFields(i, false, frames[i].fix);
      rc := OK;
      Fold();
    }

    /** forceFlushPool. */
    method ForceFlushPool()
      requires Valid()
      modifies this`writes, this`contents, frames, file
      ensures Valid() && State() == Flush(old(State()))
    {
      Expose();
      ghost var s := State();
      var x := 0;
      while x < frames.Length
        invariant x <= frames.Length && Cells() && State() == FlushTo(s, x)
        invariant Buffers() <= old(Buffers())
      {
        if frames[x].fix == 0 && frames[x].dirty {
          WriteInvoke(x);
        }
        x := x + 1;
      }
      Fold();
    }

    /** shutdownBufferPool: it returns from the first round of its loop. */
    method ShutdownBufferPool() returns (rc: RC)
      requires Valid()
      modifies this`writes, this`contents, frames, file
      ensures Valid() && State() == Flush(old(State()))
      ensures rc == ShutdownRC(old(State()))
    {
      Expose();
      ForceFlushPool();
      Expose();
      rc := if frames[0].fix != 0 then ERROR else OK;
      Fold();
    }
  }

  lemma NextAround(start: nat, k: nat, n: nat)
    requires n > 0
    ensures Around(Around(start, k, n), 1, n) == Around(start, k + 1, n)
  {
    Modular.Next(start + k, n);
    var r := (start + k) % n;
    if r + 1 == n {
      Modular.Remainder(1, 0, n);
    } else {
      Modular.Remainder(0, r + 1, n);
    }
  }
}
