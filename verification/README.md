# Verification of the C record manager

A Dafny model of a small database stack in C: a record manager on fixed-size
slots (`record_mgr.c`), a buffer pool with FIFO, LRU, CLOCK and LFU replacement
(`buffer_mgr.c`, `assign_val.c`), a byte-level block store (`storage_mgr.c`), an
expression evaluator (`expr.c`) and a value printer with its growable string
(`rm_serializer.c`).

`dafny verify dfyconfig.toml` checks all of it.

## How it is laid out

| file | what it is about |
|---|---|
| `Bytes`, `BlockStore`, `Options`, `Modular`, `Powers` | little-endian ints, C strings, a page file as bytes; arithmetic |
| `PoolSteps` | every buffer manager call as a function on a pool value |
| `BufferManager` | the same calls in place: a frame array with pointers to page buffers; each method does exactly its step |
| `Coherence`, `Durability`, `Accounting`, `Counters`, `PoolCodes` | the pool against a plain array of pages; what flush and shutdown leave on file; fix counts, writes and counters; return codes |
| `FifoQueue`, `Recency`, `Strategies`, `LruStamps`, `Hands`, `Evictions`, `Agreement` | the replacement policies against a queue and a recency list, what they throw out and when they spare frames in use, and against each other |
| `Slots`, `RecordStore`, `RecordManager` | record slots in pages; the record calls as steps; the same calls in place, through the buffer manager |
| `TableBalance`, `TableCount`, `TableDurability`, `SessionPins`, `TableSessions` | what record calls leave pinned, the tuple count, what closing a table writes, and whole sessions from `createTable` on |
| `Tables`, `Attributes`, `AttributeAccess`, `TableHeader`, `Catalog`, `Scan` | attribute offsets and values in a record, the packed schema in page 0 and what `openTable` makes of it, the scan cursor |
| `Comparisons`, `Expressions`, `EvalHeap` | value comparison, the evaluator, and its allocations |
| `VarString`, `ValueText` | the growable string, and values as text |

Code that updates state is modelled as classes and loops (`BufferPool`,
`PageHandle`, `PageFile`, `RecordManager`, `ScanHandle`, `Schema`, `Heap`,
`VarString`). Each method is proved equal to a step function, and the properties
are proved about the step functions on every run.

## The code as written

The model follows the code, slips included. Where an evident intention fails, a
lemma gives the exact condition under which it holds, or a run on which it does not.

* FIFO (`buffer_mgr.c:47`) never wraps its index: the walk goes up to the last
  frame and then reads past the array. That outcome is `OUT_OF_BOUNDS` with the
  frames unchanged (`FifoMiss`, `FifoRunsOff`). A walk from frame 0 ends inside, and
  then pinPage answers RC_OK with the page nowhere (`OkButAbsent`). FIFO is the queue
  exactly when its walks start at idle frames (`FifoExactly`).
* CLOCK resets its hand only at exact multiples of the number of frames, and hits
  move the hand, so it can index past the array too (`ClockMiss`, `ClockOverruns`).
* A hit stamps 1 whatever the strategy (`buffer_mgr.c:190-199`), and the frame of
  a replacement keeps whatever `malloc` left in `lruPage`, modelled as an arbitrary
  function `uninit`. So LRU can replace the page used last (`LruCanEvictLatest`,
  `LruEvictsNewest`; `LruEvictsIff` and `FirstVictim` say when it replaces which).
  With the stamps its counter was meant to give, it is a recency list (`LruRefinesRecency`); `PinStamped` is the only function that departs from the code for that.
* LFU counts to 1 and counts frames, not pages (`LfuCountsHits`).
* LRU, CLOCK and LFU replace frames in use (`OthersEvictPinned`); `SparesIff` says for each when a miss does not.
* `shutdownBufferPool` looks at frame 0 only (`ShutdownCanLose`). The repository's
  README.txt says that closing a table writes all alterations to the page file. It
  does not: the second unpin leaves the page of a first record at fix count -1,
  which the flush takes for a page in use. `InsertDurable` says exactly when one
  insertion gets onto the file, `SessionWrites` which pages of a whole session do,
  and `SessionUnsaved` that without updates none does while a frame stays empty.
* Nothing is lost by that, because `closeTable` frees no frame and `openTable` goes
  back to the pool that `createTable` made: `ReopenKeeps`. What is lost is the tuple
  count, which `openTable` takes from page 0 and no call keeps up to date there.
* `insertRecord` and `deleteRecord` unpin twice, `updateRecord` never unpins the
  earlier pages, `openTable` never unpins page 0 (`CallBalance`, `RunHeld`). `deleteRecord` writes its tombstone after
  unpinning, which single-threaded changes nothing (`LateWrite`), refuses slots
  from 100 on, and leaves the tuple count alone (`DeleteMap`, `TuplesCountLive`).
* The size tables of `getRecordSize`, `getAttr` and `setAttr` do not follow the
  order of `DataType`, and `attrOffset` starts at 0: `OffsetsDiffer`, `RecordSizeOff`,
  `RecordHoldsAll`, `IndependentIffApart` and `OnlyBoolsOverlap` say what comes of it.
  `getAttr` turns attribute 1 of the schema into a string, and the model does so too (`GetSet`).
* `openTable` does not skip the key size and reads every attribute four bytes
  early: `OpenedShifted` and `OpenRecoversIff`; `HeaderRoundTrip` is for a reader that
  skips it. Record sizes come from the schema read that way, record buffers from the
  caller's (`OpenedKnown`, `StoreFitsIff`).
* `boolAnd` and `boolOr` leave the result an int, and the bool case of
  `valueSmaller` falls through to `strcmp`: `EvalTyped` is the typing of that
  code, `EvalAsIntendedIff` compares it with the intended operators.
* `ENSURE_SIZE` never updates `bufsize`; the capacity is right all the same (`Append`, `CapacityBounds`).

Choices where C leaves the behaviour open: the uninitialised `pivot` of
`checkCase` is 0; the extra `&` in `insertRecord`'s call of `updatePage`
(`record_mgr.c:272`) is read as the pointers themselves; `bool` is the 16-bit
`short` of `dt.h`; ints are little-endian. Blocks past the end of the file read as
zero, so page buffers count as zeroed. Ordering two bools has the outcome `UNDEFINED`, and so has `atoi` out of range.

## Model

| member | source | states |
|---|---|---|
| BlockStore.WrittenBlock | storage_mgr.c:205-233 | a block written at `index * PAGE_SIZE` reads back, and every other block, beyond the end of the file too, is unchanged; a negative index writes nothing |
| BlockStore.WrittenLength | storage_mgr.c:205-233 | the file ends where it did, or with the block written past its end |
| BlockStore.BeyondEnd | storage_mgr.c:117-143 | blocks past the end of the file are zero pages |
| BlockStore.PageFile.ReadBlock | storage_mgr.c:117-143 | refuses exactly the positions beyond `totalNumPages`; otherwise fills the buffer with what the file has there and leaves the rest of it alone, so a zeroed buffer gets the block |
| BlockStore.PageFile.WriteBlock | storage_mgr.c:205-233 | the new file, position and return code |
| Bytes.IntRoundTrip | record_mgr.c:130-160 | storing an int byte by byte and reading it are inverse both ways, for all 32-bit values |
| Bytes.IntBytes | record_mgr.c:130-160 | the four bytes of an int, lowest first, add up to it modulo 2^32 |
| Bytes.ShortBytes | record_mgr.c:751 | the same for the two bytes of a bool |
| Bytes.CStringUnique | record_mgr.c:195 | the bytes before the first NUL, and nothing else, satisfy what is used of C strings |
| PoolSteps.IndexOf | buffer_mgr.c:404-407 | the first frame that holds the page, or the number of frames exactly when none does |
| PoolSteps.Probe | buffer_mgr.c:130-221 | where pinPage's loop stops: the first frame that is empty or holds the page |
| PoolSteps.FifoWalk | buffer_mgr.c:34-50 | the first idle frame from the start up, or the end of the array |
| PoolSteps.Installed | assign_val.c:10-31 | a replacement changes one frame; fix count 1, clean, stamp as malloc left it, `lfuPage` still the old page's |
| Coherence.ProbeFinds | buffer_mgr.c:129-221 | in a pool of proper shape, stopping at the first empty frame misses no resident page |
| Coherence.Rehoused | assign_val.c:10-31 | a frame that takes in a page not yet resident keeps the shape: occupied frames a prefix, no page twice |
| Coherence.StoreKeeps | assign_val.c:54-63 | writing a frame back and cleaning it changes no page a client can see |
| Coherence.InstallKeeps | buffer_mgr.c:223-259 | reading the new page before writing the victim back is sound because the page is not resident: the client's pages and the invariant are kept |
| Coherence.AnyVictimKeeps | buffer_mgr.c:27-120 | the same for every occupied frame a strategy might name |
| Coherence.LoadKeeps | buffer_mgr.c:132-160 | loading into the first empty frame keeps view, shape and cleanness |
| Coherence.PinKeeps | buffer_mgr.c:123-261 | pinning any page under any strategy keeps view and invariant |
| Coherence.StepKeeps | buffer_mgr.c:386-466 | every step keeps the invariant, and the view changes only at the page of a write that reaches a resident frame |
| Coherence.RunCoherent | buffer_mgr.c:123-466 | cache coherence: after every run of pins, writes, unpins, forces and flushes the pool shows the last write to each page, clean frames equal their blocks, occupied frames are a prefix and no page is resident twice |
| Coherence.InitInv | buffer_mgr.c:331-347 | a new pool satisfies the invariant and shows the file |
| Durability.FlushFrame | buffer_mgr.c:386-398 | a flush clears the dirty bits of idle frames and changes nothing else in the array |
| Durability.FlushedPage | buffer_mgr.c:386-398 | a page's block equals its frame after a flush exactly when the frame was not dirty, in use and different |
| Durability.FlushedView | buffer_mgr.c:386-398 | the same for any page, resident or not |
| Durability.FlushDurable | buffer_mgr.c:386-398 | the whole file equals the view after a flush if and only if no frame is dirty, in use and different from its block |
| Durability.ReopenedView | buffer_mgr.c:331-398 | with all fix counts zero, a fresh pool of any size and strategy over the flushed file shows the same pages |
| Durability.ShutdownCanLose | buffer_mgr.c:350-382 | a run after which shutdown reports success and a written page is not on file |
| PoolCodes.PinCode | buffer_mgr.c:123-261 | pinPage answers RC_OK if and only if the page is resident, a frame is empty, the strategy is neither FIFO nor CLOCK, FIFO's walk starts at frame 0 or finds an idle frame, or CLOCK's hand is inside the array or at a multiple of its length; otherwise it has run past the array |
| PoolCodes.OkButAbsent | buffer_mgr.c:34-50 | it answers RC_OK with the page nowhere in the pool if and only if the pool is full without the page and the strategy is RS_LRU_K, or FIFO from frame 0 with every frame in use |
| PoolCodes.FoundCode | buffer_mgr.c:400-466 | unpinPage, markDirty and forcePage answer RC_OK if and only if some frame has the handle's page, else RC_ERROR |
| PoolCodes.ShutdownCode | buffer_mgr.c:361-371 | shutdownBufferPool answers RC_OK if and only if frame 0 is not in use, else RC_ERROR |
| Accounting.PinBalance | buffer_mgr.c:123-261 | a pin adds one to the sum of fix counts, less what its victim still held; nothing if there is no replacement |
| Accounting.FifoSparesPinned | buffer_mgr.c:34-49 | under FIFO no frame in use is replaced |
| Accounting.OthersEvictPinned | buffer_mgr.c:55-120 | a new one-frame pool on which LRU, CLOCK and LFU each replace a frame in use; `Evictions.SparesIff` is the exact condition |
| Accounting.FixBalance | buffer_mgr.c:123-261 | on every run of any strategy the fix counts sum to pins minus unpins, less what replacements threw away |
| Accounting.FifoFixBalance | buffer_mgr.c:27-51 | on every FIFO run nothing is thrown away, so the fix counts sum to pins minus unpins |
| Accounting.StepWrites | assign_val.c:54-63 | under any strategy `pgN` plus the number of dirty frames changes only by marking and forcing, and by how much |
| Accounting.WritesBounded | buffer_mgr.c:386-466 | on every run `pgN` plus the dirty frames never exceeds the successful marks |
| Counters.CounterSteps | buffer_mgr.c:158-232 | `lastPg` counts pins and `pageCounter` misses, both but for the load into the first frame, `writeCnt` the pages forced |
| Counters.CounterRun | buffer_mgr.c:123-466 | so on every run of every strategy from a new pool |
| Counters.HitFields | buffer_mgr.c:181-213 | every field of the frame that a hit touches, and no other frame |
| Counters.LoadFields | buffer_mgr.c:132-176 | every field of the frame that a load fills, and no other frame |
| Counters.WritesAre | assign_val.c:54-63 | on every run `pgN` is exactly the writes made due less those still due |
| Counters.NewWritesAre | buffer_mgr.c:336-347 | from a new pool, where none is due and none made |
| Counters.ClockStamp | buffer_mgr.c:163-167 | under CLOCK a frame's stamp is 1 after a hit and after every load but the first |
| Counters.ForceWrites | buffer_mgr.c:452-457 | forcePage writes its page's block whether dirty or not, and makes the file as long as that takes |
| FifoQueue.FifoPin | buffer_mgr.c:27-51 | pinPage is an enqueue on the bounded queue of resident pages if and only if the page is resident, a frame is empty, or the frame at the walk's start is idle |
| FifoQueue.FifoRefinesQueue | buffer_mgr.c:123-261 | on every run with idle starting frames the pool is that queue, however hits, writes and flushes are interleaved |
| FifoQueue.FifoExactly | buffer_mgr.c:27-51 | the pool follows the queue at every point of a run if and only if every walk of the run starts at an idle frame |
| FifoQueue.FifoMiss | buffer_mgr.c:34-50 | when a full-pool miss installs the page, and when it runs past the array instead |
| FifoQueue.FifoRunsOff | buffer_mgr.c:44-48 | for every pool of two or more frames, a run after which frame 0 is idle and the walk for the next page runs past the array and replaces nothing |
| FifoQueue.InitQueue | buffer_mgr.c:331-347 | a new pool is the empty queue |
| Recency.VictimIsOldest | buffer_mgr.c:55-75 | with stamps in recency order LRU's loop picks the page touched longest ago |
| Recency.Restamped | buffer_mgr.c:158-175 | giving one frame the newest stamp moves its page to the end of the list and drops the replaced page |
| Recency.LruRefinesRecency | buffer_mgr.c:55-75 | with the intended stamps, on every run stamps order the resident pages as the recency list does, and the victim of a full pool is the list's head |
| Recency.InitRecent | buffer_mgr.c:331-347 | a new pool is the empty list |
| Strategies.LruIsLastMinimum | buffer_mgr.c:64-71 | LRU's loop as written returns the highest index among the frames of smallest stamp |
| Strategies.LruChooses | buffer_mgr.c:64-71 | a frame is LRU's victim if and only if its stamp is least and all later frames have larger ones |
| Strategies.LruCanEvictLatest | buffer_mgr.c:190-212 | four pins after which LRU replaces the page used last |
| Strategies.LruEvictsNewest | buffer_mgr.c:226-246 | if malloc leaves a smaller stamp than all others, the page just loaded goes at the next miss |
| LruStamps.CounterRun | buffer_mgr.c:158-187 | while the pool fills up, `lastPg` is its first value plus the pins so far, but for the load into frame 0 |
| LruStamps.StampsAre | buffer_mgr.c:139-212 | on every LRU run without replacements a frame has stamp 1 once a pin hit it; otherwise 0 in frame 0, and elsewhere where the counter stood at its load |
| LruStamps.FirstVictim | buffer_mgr.c:55-75 | the first page such a run replaces is in frame 0 if that was never hit, else in the hit frame of highest index, with one exact exception for frame 1 |
| Strategies.LfuIsLastVisited | buffer_mgr.c:95-114 | LFU returns the last visited of the frames with smallest count |
| Strategies.VisitsAll | buffer_mgr.c:99-114 | its rounds visit every frame once, the start last |
| Strategies.LfuIsMinimum | buffer_mgr.c:93-120 | its victim has the smallest count in the array |
| Strategies.LfuCountsHits | buffer_mgr.c:181-212 | on every LFU run a frame's count is 1 once any hit has landed on it, whatever pages passed through since, and else what it was |
| Strategies.LfuSparesHit | buffer_mgr.c:93-120 | LFU replaces a frame that was ever hit only if all frames were |
| Strategies.HitsMoveHand | buffer_mgr.c:181-189 | k hits on one page move CLOCK's hand by k and no page |
| Strategies.ClockMiss | buffer_mgr.c:79-87 | a miss of a full CLOCK pool makes its page resident if and only if the hand is inside the array or at a multiple of its length |
| Strategies.ClockRunsOff | buffer_mgr.c:77-91 | every full CLOCK pool of two or more frames is at most N + 1 hits away from indexing past its array |
| Hands.ClockReplaces | buffer_mgr.c:80-86 | a full-pool miss puts the page under the hand, 0 at multiples of the length, and leaves the hand one further, past the last frame too; or does nothing |
| Hands.HandSteps | buffer_mgr.c:188 | under every strategy a hit moves `lastEntry` by one, and else only CLOCK's replacements move it |
| Hands.HitBehindLast | buffer_mgr.c:77-91 | in every full CLOCK pool of two or more frames: replace the last frame's page, hit any page, and the next miss indexes past the array |
| Hands.ClockOverruns | buffer_mgr.c:77-91 | the run that gets there from a new pool, for every size from 2 on |
| Hands.LfuReplaces | buffer_mgr.c:115-119 | a full-pool miss under LFU puts the page into the frame of the round that is due and the pointer behind it |
| Hands.PointerSteps | buffer_mgr.c:119 | nothing else moves that pointer, no hit and no other strategy |
| Evictions.GoesIffVictim | buffer_mgr.c:223-259 | under every strategy a page goes at a full-pool miss if and only if its frame is the victim |
| Evictions.LruEvictsIff | buffer_mgr.c:55-75 | as written, LRU throws out a given page, the one touched longest ago for instance, if and only if its frame's stamp is least and all later frames have larger ones |
| Evictions.ClockEvictsIff | buffer_mgr.c:77-91 | CLOCK throws out a resident page if and only if its hand is on that page's frame |
| Evictions.LfuChooses | buffer_mgr.c:95-114 | round k of LFU's loop visits the victim if and only if its count is least and every later round's is larger |
| Evictions.LfuEvictsIff | buffer_mgr.c:93-120 | so LFU throws out a resident page if and only if the round that visits its frame is that one |
| Evictions.SparesIff | buffer_mgr.c:27-120 | under every strategy a pin spares all frames in use if and only if the page is resident, a frame is empty, or the frame due to go is idle: always for FIFO, the last of least stamp for LRU, the one under the hand for CLOCK, the last visited of least count for LFU; and if and only if no fix count is thrown away |
| Evictions.SparingBalance | buffer_mgr.c:123-261 | on every run of any strategy whose pins all spare, the fix counts sum to pins minus unpins |
| Agreement.SameVictim | buffer_mgr.c:27-120 | pools in step name the same victim at a miss |
| Agreement.RunsAgree | buffer_mgr.c:123-261 | FIFO against CLOCK or LFU: equal contents, file and counters step for step on runs without hits where FIFO's walks start idle |
| Agreement.PolicyAgreement | buffer_mgr.c:331-347 | the same from new pools, and the same victim at the next miss |
| BufferManager.BufferPool.constructor | buffer_mgr.c:331-347 | initBufferPool: empty frames, counters at zero except those it forgets |
| BufferManager.BufferPool.WriteInvoke | assign_val.c:54-63 | does the write-back step in place |
| BufferManager.BufferPool.Assign | assign_val.c:10-31 | installs a page in the victim's frame; the frame now owns the new buffer |
| BufferManager.BufferPool.Fifo | buffer_mgr.c:27-51 | the FIFO step, frames and return code |
| BufferManager.BufferPool.LruVictim | buffer_mgr.c:57-71 | LRU's loop computes `LruScan` |
| BufferManager.BufferPool.Lru | buffer_mgr.c:55-75 | the LRU step |
| BufferManager.BufferPool.Clock | buffer_mgr.c:77-91 | the CLOCK step, hand and return code |
| BufferManager.BufferPool.LfuVictim | buffer_mgr.c:95-114 | LFU's loop computes `LfuScan` |
| BufferManager.BufferPool.Lfu | buffer_mgr.c:93-120 | the LFU step and its pointer |
| BufferManager.BufferPool.ReadPage | buffer_mgr.c:134-136 | a fresh buffer holding the block |
| BufferManager.BufferPool.FindFrame | buffer_mgr.c:130-221 | pinPage's loop stops at `Probe` |
| BufferManager.BufferPool.LoadFrame | buffer_mgr.c:132-176 | pinPage on an empty frame |
| BufferManager.BufferPool.HitFrame | buffer_mgr.c:181-213 | pinPage on a resident page; the handle gets the frame's own buffer |
| BufferManager.BufferPool.ReplaceFrame | buffer_mgr.c:223-259 | pinPage on a miss of a full pool |
| BufferManager.BufferPool.PinPage | buffer_mgr.c:123-261 | the whole pool after pinPage; the handle points into the pool whenever the page was placed |
| BufferManager.BufferPool.FindPage | buffer_mgr.c:413-428 | the search of markDirty, unpinPage and forcePage |
| BufferManager.BufferPool.MarkDirty | buffer_mgr.c:400-409 | the whole pool and the return code after markDirty |
| BufferManager.BufferPool.UnpinPage | buffer_mgr.c:411-430 | after unpinPage, which can go below zero |
| BufferManager.BufferPool.ForcePage | buffer_mgr.c:433-466 | after forcePage, file included |
| BufferManager.BufferPool.ForceFlushPool | buffer_mgr.c:386-398 | after forceFlushPool, file included |
| BufferManager.BufferPool.ShutdownBufferPool | buffer_mgr.c:350-382 | a flush, and an answer from frame 0 |
| Slots.SlotFits | record_mgr.c:54-66 | slot numbers below `PAGE_SIZE / r_capacity` are exactly those whose slot lies inside the page |
| Slots.SlotsApart | record_mgr.c:36-40 | two slots never overlap |
| Slots.PutGet | record_mgr.c:36-40 | writing a slot changes that slot and no other |
| Slots.CheckCase | record_mgr.c:54-66 | the least free slot, or -1 exactly when every slot is '#' |
| Slots.FreshPage | record_mgr.c:54-66 | a zero page has room exactly when a record fits in a page |
| RecordStore.FreePage | record_mgr.c:238-249 | the search loop stops at the first page with room |
| RecordStore.SearchEnds | record_mgr.c:238-249 | the search ends if and only if the record size is at most 4096 |
| RecordStore.NextIsFirstFree | record_mgr.c:227-251 | the RID chosen is free and the first in order of page and slot from (pageID, 0) |
| RecordStore.StoreView | record_mgr.c:34-50 | pin, write and unpin twice changes one page of the client's view |
| RecordStore.SlotChange | record_mgr.c:34-40 | one slot image changes the map of records at that RID only |
| RecordStore.InsertMap | record_mgr.c:227-274 | insertRecord adds the payload under a RID that held no record and changes no other |
| RecordStore.Tombstones | record_mgr.c:38-315 | the slot of a record just inserted starts with '#', that of one just deleted with '*' |
| RecordStore.DeleteMap | record_mgr.c:291-317 | deleteRecord removes exactly its record if the slot is below 100, and otherwise reports the refusal and changes none |
| RecordStore.UpdateMap | record_mgr.c:319-354 | updateRecord replaces the payload of a live record and revives no deleted one |
| RecordStore.GetMap | record_mgr.c:356-373 | getRecord changes no record and fetches the payload stored last behind the caller's first byte, that of a deleted record too |
| RecordStore.TableStepMap | record_mgr.c:170-374 | one record or pool call, or an opening or closing, acts on the map as it should |
| RecordStore.OpenView | record_mgr.c:170-220 | openTable and closeTable show every page as it was |
| RecordStore.OpenWrites | record_mgr.c:204 | after openTable block 0 of the file is page 0 as the client sees it, even where that was dirty |
| RecordStore.TableRefinesMap | record_mgr.c:170-374 | on every sequence of calls, with any evictions and flushes in between and the table closed and opened again at will, the live slots are a map from RID to payload |
| RecordStore.TuplesCountInserts | record_mgr.c:178-285 | getNumTuples is what page 0 said at the last opening plus the insertions since; deletions never lower it |
| TableCount.LiveSetIs | record_mgr.c:278-285 | the live records are finitely many: none lies past the file and the resident pages |
| TableCount.TuplesCountLive | record_mgr.c:48-317 | on every sequence of calls getNumTuples runs ahead of the number of live records by one for each deletion that took a record out, and each opening moves it to page 0's count while the records stay live |
| TableCount.CountRightIff | record_mgr.c:178-285 | a count that was right is right at the end if and only if removals and openings cancel |
| TableCount.RightWhileOpen | record_mgr.c:278-285 | without another opening: if and only if no deletion took a record out |
| TableCount.RightAfterOpening | record_mgr.c:177-178 | right after an opening: if and only if page 0 names the number of live records |
| RecordManager.CheckSlots | record_mgr.c:54-66 | checkCase's loop computes `CheckCase` |
| RecordManager.HeldFrame | record_mgr.c:242-243 | the handle's buffer holds the client's view of its page |
| RecordManager.RecordManager.WriteSlot | record_mgr.c:34-40 | marks the page and stores the record behind a '#' |
| RecordManager.RecordManager.UpdatePage | record_mgr.c:34-50 | updatePage, with its two unpins and its pin of page 0 |
| RecordManager.RecordManager.TryPage | record_mgr.c:240-249 | one round of the search |
| RecordManager.RecordManager.FindSlot | record_mgr.c:238-249 | the search loop: terminates, and leaves the page found pinned |
| RecordManager.RecordManager.InsertRecord | record_mgr.c:227-274 | the whole table after insertRecord, and the RID |
| RecordManager.RecordManager.OpenTable | record_mgr.c:170-205 | the whole table after openTable on the pool that the table had already |
| RecordManager.RecordManager.CloseTable | record_mgr.c:207-220 | the whole table after closeTable: flushed, every frame still there |
| RecordManager.RecordManager.DeleteRecord | record_mgr.c:291-317 | the whole table and the return code after deleteRecord |
| RecordManager.RecordManager.PinEarlier | record_mgr.c:330-335 | pins every page before the record's own |
| RecordManager.RecordManager.UpdateRecord | record_mgr.c:319-354 | the whole table after updateRecord |
| RecordManager.RecordManager.GetRecord | record_mgr.c:356-373 | the table and the caller's record after getRecord |
| RecordManager.CopySlot | record_mgr.c:348-350 | the three copies replace the payload and keep the tombstone byte |
| RecordManager.FillSlot | record_mgr.c:36-40 | '#' and the record's bytes after its first |
| RecordManager.FetchSlot | record_mgr.c:364-370 | the payload lands behind the caller's first byte |
| RecordManager.LateWrite | record_mgr.c:307-315 | writing the tombstone after the unpins comes to the same as writing it before |
| TableBalance.CallBalance | record_mgr.c:170-373 | the exact balance of fix counts for each record call: a deletion one short, an update one over for each earlier page, an opening one over for page 0, less what replacements throw away |
| TableBalance.RunBalance | record_mgr.c:227-373 | the same summed over every sequence of record calls |
| TableBalance.DeleteUnderflows | record_mgr.c:309-310 | a deletion from a resident page takes one more pin than it gives, so an idle page goes to -1 |
| TableDurability.ClosedBlock | record_mgr.c:207-220 | for every table and page: after closeTable the page's block on file is what the client saw if and only if its frame was not dirty, in use and different from the block |
| TableDurability.ClosedKeeps | record_mgr.c:207-220 | and a block that is not is the one from before |
| TableDurability.InsertDurable | record_mgr.c:227-274 | after insertRecord and closeTable the page file holds the page inserted into if and only if the pin of page 0 throws that page out, its frame was pinned once before the call (never, for page 0), or the file already held those bytes |
| TableDurability.InsertChanges | record_mgr.c:54-66 | an insertion always changes its page, because the slot had no '#' |
| TableDurability.NewPageDurable | record_mgr.c:34-50 | a record on a page not yet resident, the first on its page for instance, reaches the file if and only if the page is page 0 or the pin of page 0 throws it out |
| SessionPins.StepHeld | record_mgr.c:170-374 | what each record call, opening and closing adds to the fix count of each page, while a frame stays empty |
| SessionPins.RunHeld | record_mgr.c:170-374 | so on every sequence of calls that leaves a frame empty, the fix count of page p is its first one plus the updates on pages above p, less the insertions into p and the deletions on p; page 0 has one more for every insertion and opening |
| SessionPins.WrittenIffUnheld | buffer_mgr.c:386-398 | a flush writes a page that differs from its block if and only if its fix count is 0 |
| SessionPins.SessionWrites | record_mgr.c:170-374 | closeTable writes a changed page p from 1 on if and only if the insertions into p and the deletions on it are as many as the updates on pages above it |
| TableSessions.ReopenKeeps | record_mgr.c:170-220 | closing and opening again keeps every record live, written or not, and resets tuple count and first page to those of page 0 |
| TableSessions.RunsOffHeader | record_mgr.c:170-374 | calls that write no record into page 0 can be made in any order, and page 0 with its schema stays what it was |
| TableSessions.CountOffHeader | record_mgr.c:178 | on such a run each opening takes the tuple count back to the one createTable wrote |
| TableSessions.SessionWritesNothing | record_mgr.c:207-220 | insertions, reads, openings, closings, and deletions off page 0 that leave a frame empty leave the page file as it was, after the closing flush too |
| TableSessions.NewOpened | record_mgr.c:113-205 | openTable after createTable: no tuples, records from page 1 on, nothing to write |
| TableSessions.SessionUnsaved | record_mgr.c:113-317 | from createTable on, the page file of such a session never holds more than the header; closed and opened again, the table still has every record and says it has none |
| TableSessions.NewSessionWrites | record_mgr.c:113-374 | with updates too: which changed pages of a new table closeTable gets onto the file |
| TableSessions.FirstRecordUnsaved | record_mgr.c:113-274 | the first record of every new table: after closing, its block on file is still zero; after opening again it is there, and the tuple count is 0 |
| Attributes.OffsetsDiffer | rm_serializer.c:284-308 | the serializer's offset is one less than getAttr's plus two for every earlier bool |
| Attributes.RecordSizeOff | record_mgr.c:553-562 | getRecordSize is right if and only if its string and float errors cancel |
| Attributes.FurthestEnd | record_mgr.c:674-769 | where the furthest byte written for the attributes so far lies, past the position of the next one: two bytes for a bool, less what follows it |
| Attributes.RecordHoldsAll | record_mgr.c:638-648 | for every schema, createRecord's buffer holds every attribute if and only if two bytes per bool plus that slack cover what the last attributes overhang |
| Attributes.PositionGrows | record_mgr.c:674-681 | attributes follow each other without running back |
| Attributes.GetSet | record_mgr.c:661-770 | getAttr after setAttr gives the value back if and only if a string fills its field and attribute 1 is a string |
| Attributes.GetSetString | record_mgr.c:709-756 | a string that does not fill its field comes back cut off, or with the NUL behind it |
| Attributes.SetSet | record_mgr.c:726-769 | the last of two writes wins, and the tombstone byte is never touched |
| Attributes.IndependentIffApart | record_mgr.c:661-769 | setAttr on one attribute never shows in getAttr on another if and only if their bytes are apart |
| Attributes.OnlyBoolsOverlap | record_mgr.c:667-672 | of two attributes in order only a bool runs into the later one, and when |
| AttributeAccess.GetRecordSize | record_mgr.c:553-562 | the loop computes `RecordSize` |
| AttributeAccess.Locate | record_mgr.c:674-681 | the walk of getAttr and setAttr computes `Position` |
| AttributeAccess.AttrOffset | rm_serializer.c:284-308 | the walk of the serializer computes `AttrOffset` |
| AttributeAccess.GetAttr | record_mgr.c:661-724 | the value read, and the schema it leaves with attribute 1 a string |
| AttributeAccess.SetAttr | record_mgr.c:726-769 | the record's bytes afterwards |
| TableHeader.HeaderRoundTrip | record_mgr.c:126-202 | a reader that skips the key size recovers tuple count 0, first page 1 and every attribute's name, type and length |
| TableHeader.LongName | record_mgr.c:153 | a name of 15 bytes or more keeps its first 15, with no NUL behind them |
| TableHeader.OpenedShifted | record_mgr.c:177-202 | what the reader as written makes of each attribute |
| TableHeader.OpenRecoversIff | record_mgr.c:177-202 | it recovers the schema if and only if all attributes are ints of length 0 without names, but for the key size's bytes as the first name |
| Catalog.OpenedColumns | record_mgr.c:193-202 | openTable takes the last four bytes of an attribute's name field for its type, and its type for its length |
| Catalog.OpenedKnown | record_mgr.c:553-562 | getRecordSize is defined on the schema read back if and only if those bytes number a type for every attribute |
| Catalog.HandlerTable | record_mgr.c:555-558 | getRecordSize by type number: 4, 4, the length, 2 |
| Catalog.OpenedSize | record_mgr.c:553-562 | with names of at most 11 bytes every attribute reads back as an int, and records have 1 + 4 * numAttr bytes |
| Catalog.StoreFitsIff | record_mgr.c:40 | with such names updatePage's copy stays inside the buffer of the caller's createRecord if and only if what the caller's schema counts for floats makes up for its bools |
| TableHeader.CreateHeader | record_mgr.c:126-162 | the write loop fills the page with the header and leaves the rest of it |
| TableHeader.OpenHeader | record_mgr.c:177-202 | the read loop computes `Open` from offset 12 |
| Scan.AfterPlace | record_mgr.c:424-436 | after k advances the cursor is at place k, inside a page |
| Scan.PlaceInjective | record_mgr.c:431-435 | different positions have different places |
| Scan.VisitedIff | record_mgr.c:424-436 | a scan visits a slot if and only if its place is from 1 to tuples + 1 |
| Scan.ScanHandle.constructor | record_mgr.c:385-388 | startScan's cursor is at page 1, slot 0 |
| Scan.TurnsPlace | record_mgr.c:424-482 | turns that fetch no record move the cursor and are not counted: after k turns it is at place k, and has counted the fetches |
| Scan.FetchesBounded | record_mgr.c:424 | at most tuples + 1 turns fetch a record |
| Scan.ScanHandle.Next | record_mgr.c:398-482 | one call moves its own cursor by one place, counts the turn only if the record was fetched, or reports the end |
| Comparisons.StoredBytes | expr.c:77 | a bool stored into the prepared int changes its low half only |
| Comparisons.FloatOrder | expr.c:49 | floats compare as the numbers that their sign, exponent and fraction stand for |
| Comparisons.NaNIs | expr.c:49 | and a NaN is the largest exponent with a fraction |
| Comparisons.StringOrder | expr.c:54 | strcmp puts a before b if and only if a ends where b goes on, or has the smaller byte where the two first differ |
| Comparisons.EqualsIs | expr.c:10-34 | valueEquals gives 1 exactly for equal ints, bools, strings up to their NUL and numbers, 0 otherwise, and an error exactly for different types |
| Comparisons.SmallerIs | expr.c:36-59 | valueSmaller gives 1 exactly if the left int, number or string is below the right one, 0 otherwise; bools have no order |
| Comparisons.NotIs | expr.c:61-70 | boolNot gives 1 for a bool 0, 0 for any other bool, and an error for the rest |
| Comparisons.BeforeTotal | expr.c:54 | strcmp's order is total on byte strings |
| Comparisons.ExactlyOne | expr.c:10-59 | among two values of a type exactly one of smaller, equal and greater holds, unless one is a NaN, and then none |
| Comparisons.LessTransitive | expr.c:37-59 | smaller is transitive |
| Comparisons.SameCongruence | expr.c:11-34 | equality is an equivalence that the order respects; only NaN differs from itself |
| Expressions.EvalLayout | record_mgr.c:685-686 | evaluation leaves the schema as it was, or with attribute 1 a string |
| Expressions.SettledSize | record_mgr.c:685-686 | getAttr on attribute 1 leaves the record size as it was if and only if there is none, it is an int or a string, or a float of length 4 |
| Expressions.EvalTyped | expr.c:92-149 | evaluation succeeds if and only if the expression is well typed, for every record of the schema alike, and the result has the static type |
| Expressions.TypedIffSupported | expr.c:61-90 | an expression typed as intended is typed as written if and only if no AND or OR stands below an operator other than a comparison of two of them, and no other bools are ordered |
| Expressions.MeaningKept | expr.c:92-149 | such an expression evaluates to its intended value, with operators and constants read apart from the code |
| Expressions.EvalAsIntendedIff | expr.c:92-149 | both together, for every expression typed as intended |
| Expressions.NotAndFails | expr.c:61-80 | NOT of an AND fails |
| Expressions.OperatorErrors | expr.c:10-90 | on which values each operator fails, and with which error |
| Expressions.EvalErrors | expr.c:92-149 | a failed evaluation reports the error that the schema alone decides, that of the leftmost innermost operator with wrong operands |
| EvalHeap.Heap.FreeVal | expr.c:183-188 | frees the struct, and the buffer of a string |
| EvalHeap.FetchAttr | record_mgr.c:683-718 | one struct more, and a buffer exactly for a string |
| EvalHeap.EvalExpr | expr.c:92-149 | success leaves exactly one more live struct, holding the value, and one more buffer exactly when it is a string; everything allocated before is untouched |
| EvalHeap.EvalBinary | expr.c:101-137 | an operator's operands are both freed, their buffers included |
| VarString.CapacityBounds | rm_serializer.c:45-53 | the true capacity suffices, and is below max(101, twice the size) |
| VarString.CapacityDoubles | rm_serializer.c:49-50 | past 100 bytes it is the first of 200, 400, 800 and so on that suffices |
| VarString.CapacityMonotone | rm_serializer.c:45-53 | requested sizes never fall, so no reallocation shrinks the buffer |
| VarString.VarString.EnsureSize | rm_serializer.c:45-53 | the doubling loop terminates and keeps the contents |
| VarString.VarString.Append | rm_serializer.c:55-60 | the contents are the concatenation of everything appended |
| ValueText.IntReadBack | rm_serializer.c:258 | atoi reads back every printed int, the smallest included |
| ValueText.IntText | rm_serializer.c:233 | an int prints as the one decimal numeral of its size without leading zeros, behind a '-' exactly if it is negative |
| ValueText.BoolText | rm_serializer.c:242 | a bool prints as true or false, true exactly if it is not 0 |
| ValueText.AtoiReads | rm_serializer.c:258 | atoi skips white space, takes one sign, and reads digits up to what is none |
| ValueText.AtoiNothing | rm_serializer.c:258 | and reads 0 where there is no number |
| ValueText.ParseByLetter | rm_serializer.c:254-277 | what stringToValue makes of every text but a float's, by its letter |
| ValueText.PrintParseIff | rm_serializer.c:224-280 | stringToValue after serializeValue gives the value back if and only if a bool is 0 or 1 and a string has no NUL |
| ValueText.SerializeValue | rm_serializer.c:224-247 | the printed text, through the growable string |

## Left out

- File handles, `fopen`, `fseek`, `fstat`, tracing output, `exit`, and the file's existence: a page file is its bytes.
- What a page buffer holds past the end of the file: `malloc` does not clear it, the model takes zeros.
- The storage navigation helpers, `ensureCapacity` and `appendEmptyBlock`: the upper layers do not call them.
- Negative page numbers given to `pinPage`, which end the program in `readBlock`; other calls take any handle.
- Pools without frames, several pools at once (`pageInfo` is one global), and `RS_LRU_K`, which has no victim selection: a miss changes counters only.
- Overflow of C ints in counters, stamps and offsets: they are unbounded here. Values in records and headers have their C widths.
- `shutdownBufferPool`'s frees, which it never reaches.
- `getNumReadIO`, which returns a function's address, and the statistics getters and printing.
- RecordManager.RecordManager.InsertRecord: leaves out `insertRecord`'s second search loop, which cannot be entered because the slot was just found free.
- RecordManager.RecordManager.UpdateRecord: takes a slot inside the page; the code does not check, and past the page C leaves the outcome open. The same holds for GetRecord, and for DeleteRecord past byte 4096.
- RecordStore.TableRefinesMap: other users of the pool may pin, unpin, mark, force and flush between record calls but not write into pages. The record size stays the same: an opening must find a schema in page 0 that gives it (`RunsOffHeader`), and `getAttr` on attribute 1 must not change it (`SettledSize`). Record calls on a closed table, which C leaves undefined, are not told apart.
- TableHeader.OpenRecoversIff: is about names of at most 14 bytes and key sizes below 2^24, that is, fewer than 16 million key attributes.
- TableSessions.SessionWritesNothing: leaves out updates, which keep pages pinned and so can bring a fix count back to 0 (`SessionWrites` has them), and deletions on page 0.
- SessionPins.RunHeld: is about sessions that leave a frame empty; `CallBalance` has the sum of fix counts when frames are replaced.
- ValueText.PrintParseIff: leaves out floats as text, and strings of 10000 bytes and more, which overflow the printer's buffer.
- EvalHeap.EvalExpr: says nothing of the heap after a failure, because a failed `CHECK` ends the program.
- Comparisons.ExactlyOne: is about what the bool case of `valueSmaller` was meant to compute; as written, two bools are read as pointers.
- Scan.ScanHandle.Next: takes whether the record was fetched as a parameter, for the early returns after the slot has moved (`record_mgr.c:449-471`), and promises no code then because they return none.
- The records that `next` fetches: it uses the caller's record id and never looks at the condition. The cursor is modelled.
- `startScan`'s overwriting of the tuple count with 15, `createTable` on a table that exists, whose pool it drops, `createSchema`, `createRecord` and the frees.
- The serializers of schemas, records and tables: concatenations through the growable string.
- `freeExpr`: the evaluator does not call it.
