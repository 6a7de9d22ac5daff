/**
 * LRU with the stamps its counter was meant to give. The page just pinned is
 * stamped with `lastPg`, where the code as written stamps 1 on a hit (the switch
 * at buffer_mgr.c:190 falls through) and nothing on a replacement.
 */
module Recency {
  import opened Bytes
  import opened BlockStore
  import opened PoolSteps
  import opened Coherence
  import opened FifoQueue
  import opened Options
  import Strategies

  /** pinPage, with the touched frame stamped from the counter. */
  function PinStamped(s: Pool, p: nat): (t: Pool)
    requires |s.frames| > 0
    ensures |t.frames| == |s.frames|
  {
    Stamped(Pin(s, p), p)
  }

  function Stamped(t: Pool, p: nat): (u: Pool)
    ensures |u.frames| == |t.frames|
  {
    var i := IndexOf(t.frames, p);
    if i == |t.frames| then t else t.(frames := t.frames[i := t.frames[i].(lru := t.lastPg)])
  }

  /** Move `p` to the recent end of the list, dropping the oldest page if there is no room. */
  function Touch(r: seq<int>, capacity: nat, p: int): seq<int> {
    if p in r then Without(r, p) + [p]
    else if |r| < capacity || r == [] then r + [p]
    else r[1..] + [p]
  }

  function Without(r: seq<int>, p: int): (q: seq<int>)
    requires p in r
    ensures |q| == |r| - 1
  {
    var k := Position(r, p);
    r[..k] + r[k + 1..]
  }

  function Position(r: seq<int>, p: int): (k: nat)
    requires p in r
    ensures k < |r| && r[k] == p && p !in r[..k]
  {
    if r[0] == p then 0 else
      var k := Position(r[1..], p) + 1;
      assert r[..k] == [r[0]] + r[1..][..k - 1];
      k
  }

  /** The stamp of resident page `p`. */
  function StampOf(s: Pool, p: int): int {
    var i := IndexOf(s.frames, p);
    if i < |s.frames| then s.frames[i].lru else 0
  }

  /** `r` lists the resident pages by increasing stamp, none above the counter. */
  ghost predicate Recent(s: Pool, r: seq<int>) {
    && |r| == Occupied(s.frames)
    && (forall k :: 0 <= k < |r| ==> r[k] >= 0 && IndexOf(s.frames, r[k]) < |s.frames|)
    && (forall i :: 0 <= i < |s.frames| && s.frames[i].page >= 0 ==> s.frames[i].page in r)
    && (forall j, k :: 0 <= j < k < |r| ==> StampOf(s, r[j]) < StampOf(s, r[k]))
    && (forall k :: 0 <= k < |r| ==> StampOf(s, r[k]) <= s.lastPg)
  }

  /** The page LRU replaces is the first of the list: the one touched longest ago. */
  lemma VictimIsOldest(s: Pool, r: seq<int>)
    requires Inv(s) && s.strategy == LRU && Recent(s, r)
    requires Occupied(s.frames) == |s.frames|
    ensures Victim(Counted(s)).Some? && s.frames[Victim(Counted(s)).value].page == r[0]
  {
    Prefix(s.frames);
    var v := LruScan(s.frames, |s.frames|);
    Strategies.LruIsLastMinimum(s.frames, |s.frames|);
    IndexIs(s.frames, s.frames[v].page, v);
    var k :| 0 <= k < |r| && r[k] == s.frames[v].page;
    var i := IndexOf(s.frames, r[0]);
    assert s.frames[v].lru <= s.frames[i].lru;
    assert StampOf(s, r[0]) == s.frames[i].lru && StampOf(s, r[k]) == s.frames[v].lru;
  }

  /** Frame `i` takes page `p` with the newest stamp; `q` is what stays of the list. */
  lemma Restamped(s: Pool, r: seq<int>, t: Pool, i: nat, p: nat, q: seq<int>)
    requires Recent(s, r) && Shape(s.frames) && Shape(t.frames) && i < |s.frames| && |t.frames| == |s.frames|
    requires t.frames == s.frames[i := t.frames[i]] && t.frames[i].page == p
    requires t.frames[i].lru == t.lastPg && (s.lastPg < t.lastPg || r == [])
    requires |q| + 1 == Occupied(t.frames)
    requires forall k :: 0 <= k < |q| ==> q[k] in r && q[k] != p && q[k] != s.frames[i].page
    requires forall j, k :: 0 <= j < k < |q| ==> StampOf(s, q[j]) < StampOf(s, q[k])
    requires forall x :: x in r && x != p && x != s.frames[i].page ==> x in q
    ensures Recent(t, q + [p])
  {
    hide IndexOf;
    var r' := q + [p];
    IndexIs(t.frames, p, i);
    forall k | 0 <= k < |q|
      ensures q[k] >= 0 && IndexOf(t.frames, q[k]) < |t.frames| && StampOf(t, q[k]) == StampOf(s, q[k]) <= s.lastPg
      ensures s.lastPg < t.lastPg
    {
      assert q[k] in r;
      var j :| 0 <= j < |r| && r[j] == q[k];
      StaysPut(s.frames, t.frames, i, q[k]);
    }
    forall j | 0 <= j < |t.frames| && t.frames[j].page >= 0
      ensures t.frames[j].page in r'
    {
      if j == i {
        assert r'[|q|] == p;
      } else {
        var x := s.frames[j].page;
        assert x in r && x in q;
        var k :| 0 <= k < |q| && q[k] == x;
        assert r'[k] == x;
      }
    }
  }

  /** A page that is neither put into nor thrown out of frame `i` stays where it is. */
  lemma StaysPut(frames: seq<Frame>, after: seq<Frame>, i: nat, x: int)
    requires Shape(frames) && i < |frames| && |after| == |frames| && after == frames[i := after[i]]
    requires x != after[i].page && x != frames[i].page
    ensures IndexOf(after, x) == IndexOf(frames, x) && (IndexOf(frames, x) < |frames| ==> IndexOf(frames, x) != i)
  {
    var k := IndexOf(frames, x);
    if k < |frames| {
      IndexIs(after, x, k);
    } else {
      IndexNone(after, x);
    }
  }

  /** A list ordered by stamp has no page twice, so taking one out keeps the order and all the others. */
  lemma WithoutKeeps(r: seq<int>, stamp: int -> int, p: int)
    requires p in r
    requires forall j, k :: 0 <= j < k < |r| ==> stamp(r[j]) < stamp(r[k])
    ensures var q := Without(r, p);
      && (forall k :: 0 <= k < |q| ==> q[k] in r && q[k] != p)
      && (forall j, k :: 0 <= j < k < |q| ==> stamp(q[j]) < stamp(q[k]))
      && (forall x :: x in r && x != p ==> x in q)
  {
    var at, q := Position(r, p), Without(r, p);
    assert forall k :: 0 <= k < |q| ==> q[k] == r[Up(k, at)];
    hide Position, Without;
    forall k | 0 <= k < |q|
      ensures q[k] in r && q[k] != p
    {
      assert q[k] == r[Up(k, at)];
      if Up(k, at) < at {
        assert stamp(r[Up(k, at)]) < stamp(r[at]);
      } else {
        assert stamp(r[at]) < stamp(r[Up(k, at)]);
      }
    }
    forall j, k | 0 <= j < k < |q|
      ensures stamp(q[j]) < stamp(q[k])
    {
      assert q[j] == r[Up(j, at)] && q[k] == r[Up(k, at)];
    }
    forall x | x in r && x != p
      ensures x in q
    {
      var k :| 0 <= k < |r| && r[k] == x;
      assert q[if k < at then k else k - 1] == x;
    }
  }

  function Up(k: nat, at: nat): nat {
    if k < at then k else k + 1
  }

  lemma HitRecent(s: Pool, r: seq<int>, p: nat)
    requires Inv(s) && s.strategy == LRU && Recent(s, r) && IndexOf(s.frames, p) < |s.frames|
    ensures Recent(PinStamped(s, p), Touch(r, |s.frames|, p))
  {
    var i, t := IndexOf(s.frames, p), PinStamped(s, p);
    HitStamped(s, p);
    SamePages(s.frames, i, t.frames[i]);
    assert s.frames[i].page in r;
    WithoutKeeps(r, x => StampOf(s, x), p);
    Restamped(s, r, t, i, p, Without(r, p));
  }

  lemma HitStamped(s: Pool, p: nat)
    requires Inv(s) && s.strategy == LRU && IndexOf(s.frames, p) < |s.frames|
    ensures var i, t := IndexOf(s.frames, p), PinStamped(s, p);
      && t.lastPg == s.lastPg + 1 && t.frames == s.frames[i := t.frames[i]]
      && t.frames[i].page == p && t.frames[i].lru == t.lastPg
  {
    var i := IndexOf(s.frames, p);
    ProbeFinds(s.frames, p);
    var h := Hit(s, i);
    assert Pin(s, p) == h;
    SamePages(s.frames, i, h.frames[i]);
  }

  lemma LoadRecent(s: Pool, r: seq<int>, p: nat)
    requires Inv(s) && s.strategy == LRU && Recent(s, r)
    requires IndexOf(s.frames, p) == |s.frames| && Occupied(s.frames) < |s.frames|
    ensures Recent(PinStamped(s, p), Touch(r, |s.frames|, p))
  {
    Prefix(s.frames);
    ProbeFinds(s.frames, p);
    var i := Occupied(s.frames);
    assert Probe(s.frames, p) == i;
    LoadKeeps(s, i, p);
    LoadOccupied(s, p);
    var l, t := Load(s, i, p), PinStamped(s, p);
    assert t.frames == s.frames[i := t.frames[i]];
    SamePages(l.frames, i, t.frames[i]);
    assert t.frames == l.frames[i := t.frames[i]];
    NotListed(s, r, p);
    Restamped(s, r, t, i, p, r);
  }

  lemma NotListed(s: Pool, r: seq<int>, p: int)
    requires Recent(s, r) && IndexOf(s.frames, p) == |s.frames|
    ensures p !in r
  {
  }

  lemma ReplaceRecent(s: Pool, r: seq<int>, p: nat)
    requires Inv(s) && s.strategy == LRU && Recent(s, r)
    requires IndexOf(s.frames, p) == |s.frames| == Occupied(s.frames)
    ensures Recent(PinStamped(s, p), Touch(r, |s.frames|, p))
  {
    hide PinStamped, Victim, StampOf;
    VictimIsOldest(s, r);
    var v, t := Victim(Counted(s)).value, PinStamped(s, p);
    ReplaceStamped(s, p, v);
    NotListed(s, r, p);
    HeadOut(r, x => StampOf(s, x));
    Restamped(s, r, t, v, p, r[1..]);
  }

  /** Taking out the head of a list ordered by stamp. */
  lemma HeadOut(r: seq<int>, stamp: int -> int)
    requires r != []
    requires forall j, k :: 0 <= j < k < |r| ==> stamp(r[j]) < stamp(r[k])
    ensures var q := r[1..];
      && (forall k :: 0 <= k < |q| ==> q[k] in r && q[k] != r[0])
      && (forall j, k :: 0 <= j < k < |q| ==> stamp(q[j]) < stamp(q[k]))
      && (forall x :: x in r && x != r[0] ==> x in q)
  {
  }

  lemma ReplaceStamped(s: Pool, p: nat, v: nat)
    requires Inv(s) && s.strategy == LRU && Victim(Counted(s)) == Some(v)
    requires IndexOf(s.frames, p) == |s.frames| == Occupied(s.frames)
    ensures var t := PinStamped(s, p);
      && t.lastPg == s.lastPg + 1 && t.frames == s.frames[v := t.frames[v]]
      && t.frames[v].page == p && t.frames[v].lru == t.lastPg
      && Shape(t.frames) && Occupied(t.frames) == |t.frames|
  {
    Prefix(s.frames);
    ProbeFinds(s.frames, p);
    InstallKeeps(Counted(s), v, p);
    var u := Install(Counted(s), v, p, Block(s.file, p));
    assert Pin(s, p) == u && u.frames == s.frames[v := u.frames[v]];
    var t := PinStamped(s, p);
    SamePages(u.frames, v, t.frames[v]);
    assert t.frames == u.frames[v := t.frames[v]];
    IndexNone(t.frames, NO_PAGE);
  }

  lemma OtherRecent(s: Pool, r: seq<int>, op: Op)
    requires Inv(s) && Recent(s, r) && !op.PinOp?
    ensures Recent(Step(s, op), r)
  {
    var t := Step(s, op);
    OtherStamps(s, op);
    forall p
      ensures IndexOf(t.frames, p) == IndexOf(s.frames, p) && StampOf(t, p) == StampOf(s, p)
    {
      var k := IndexOf(s.frames, p);
      if k < |s.frames| {
        IndexIs(t.frames, p, k);
      } else {
        IndexNone(t.frames, p);
      }
    }
  }

  lemma OtherStamps(s: Pool, op: Op)
    requires |s.frames| > 0 && !op.PinOp?
    ensures Step(s, op).lastPg == s.lastPg
    ensures forall i :: 0 <= i < |s.frames| ==>
      Step(s, op).frames[i].page == s.frames[i].page && Step(s, op).frames[i].lru == s.frames[i].lru
  {
    if op.FlushOp? {
      FlushStamps(s, |s.frames|);
    }
  }

  lemma FlushStamps(s: Pool, n: nat)
    requires n <= |s.frames|
    ensures FlushTo(s, n).lastPg == s.lastPg
    ensures forall i :: 0 <= i < |s.frames| ==>
      FlushTo(s, n).frames[i].page == s.frames[i].page && FlushTo(s, n).frames[i].lru == s.frames[i].lru
  {
  }

  // ---------- Runs ----------

  function StampedStep(s: Pool, op: Op): (t: Pool)
    requires |s.frames| > 0
    ensures |t.frames| == |s.frames|
  {
    if op.PinOp? then PinStamped(s, op.page) else Step(s, op)
  }

  function StampedRun(s: Pool, ops: seq<Op>): (t: Pool)
    requires |s.frames| > 0
    ensures |t.frames| == |s.frames|
  {
    if ops == [] then s else StampedStep(StampedRun(s, ops[..|ops| - 1]), ops[|ops| - 1])
  }

  /** The recency list after the pins of a run. */
  function Touched(r: seq<int>, capacity: nat, ops: seq<Op>): seq<int> {
    if ops == [] then r
    else
      var before, op := Touched(r, capacity, ops[..|ops| - 1]), ops[|ops| - 1];
      if op.PinOp? then Touch(before, capacity, op.page) else before
  }

  lemma StampedKeeps(s: Pool, p: nat)
    requires Inv(s)
    ensures Inv(PinStamped(s, p)) && PinStamped(s, p).strategy == s.strategy
  {
    PinKeeps(s, p);
    var t := Pin(s, p);
    var i := IndexOf(t.frames, p);
    if i < |t.frames| {
      SamePages(t.frames, i, t.frames[i].(lru := t.lastPg));
    }
  }

  lemma StampedStepRecent(s: Pool, r: seq<int>, op: Op)
    requires Inv(s) && s.strategy == LRU && Recent(s, r)
    ensures Inv(StampedStep(s, op)) && StampedStep(s, op).strategy == LRU
    ensures Recent(StampedStep(s, op), if op.PinOp? then Touch(r, |s.frames|, op.page) else r)
  {
    if op.PinOp? {
      StampedKeeps(s, op.page);
      if IndexOf(s.frames, op.page) < |s.frames| {
        HitRecent(s, r, op.page);
      } else if Occupied(s.frames) < |s.frames| {
        LoadRecent(s, r, op.page);
      } else {
        ReplaceRecent(s, r, op.page);
      }
    } else {
      StepKeeps(s, op);
      OtherRecent(s, r, op);
    }
  }

  /** On every run the stamps order the resident pages as the recency list does, so each victim is its head. */
  lemma {:induction false} LruRefinesRecency(s: Pool, r: seq<int>, ops: seq<Op>)
    requires Inv(s) && s.strategy == LRU && Recent(s, r)
    ensures var t := StampedRun(s, ops);
      && Inv(t) && t.strategy == LRU && Recent(t, Touched(r, |s.frames|, ops))
      && (Occupied(t.frames) == |t.frames| ==>
            Victim(Counted(t)).Some? && t.frames[Victim(Counted(t)).value].page == Touched(r, |s.frames|, ops)[0])
  {
    if ops != [] {
      var before := ops[..|ops| - 1];
      LruRefinesRecency(s, r, before);
      StampedStepRecent(StampedRun(s, before), Touched(r, |s.frames|, before), ops[|ops| - 1]);
    }
    var t := StampedRun(s, ops);
    if Occupied(t.frames) == |t.frames| {
      VictimIsOldest(t, Touched(r, |s.frames|, ops));
    }
  }

  /** A new pool has the empty list. */
  lemma InitRecent(n: nat, file: seq<byte>, lastPg: nat, forced: nat, uninit: int -> int)
    requires n > 0
    ensures var s := Init(n, file, LRU, lastPg, forced, uninit); Inv(s) && Recent(s, [])
  {
    InitInv(n, file, LRU, lastPg, forced, uninit);
    IndexIs(Init(n, file, LRU, lastPg, forced, uninit).frames, NO_PAGE, 0);
  }
}
