/** Fixed-size record slots in a page, each led by a tombstone byte. */
module Slots {
  import opened Bytes
  import opened BlockStore

  /** '#' marks a slot in use, '*' a deleted one. */
  const LIVE: byte := 35
  const DEAD: byte := 42

  /** Slots per page: PAGE_SIZE / r_capacity. */
  function Capacity(size: nat): nat
    requires size > 0
  {
    4096 / size
  }

  /** Every slot lies inside the page. */
  lemma SlotFits(size: nat, k: nat)
    requires size > 0
    ensures k < Capacity(size) <==> k * size + size <= 4096
  {
    var c := Capacity(size);
    assert c * size <= 4096 < c * size + size;
    if k < c {
      assert (k + 1) * size == k * size + size;
      Monotone(k + 1, c, size);
    } else {
      Monotone(c, k, size);
    }
  }

  lemma Monotone(j: nat, k: nat, size: nat)
    requires j <= k
    ensures j * size <= k * size
  {
  }

  /** Two slots never overlap. */
  lemma SlotsApart(size: nat, j: nat, k: nat)
    requires j < k
    ensures j * size + size <= k * size
  {
    assert (j + 1) * size == j * size + size;
    Monotone(j + 1, k, size);
  }

  /** The bytes of slot `k`. */
  function SlotAt(page: Page, size: nat, k: nat): (b: seq<byte>)
    requires 0 < size && k < Capacity(size)
    ensures |b| == size
  {
    SlotFits(size, k);
    page[k * size..k * size + size]
  }

  function PutSlot(page: Page, size: nat, k: nat, b: seq<byte>): Page
    requires 0 < size && k < Capacity(size) && |b| == size
  {
    SlotFits(size, k);
    Splice(page, k * size, b)
  }

  /** Writing a slot changes that slot and no other. */
  lemma PutGet(page: Page, size: nat, k: nat, b: seq<byte>, j: nat)
    requires 0 < size && k < Capacity(size) && |b| == size && j < Capacity(size)
    ensures SlotAt(PutSlot(page, size, k, b), size, j) == if j == k then b else SlotAt(page, size, j)
  {
    SlotFits(size, k);
    SlotFits(size, j);
    if j < k {
      SlotsApart(size, j, k);
    } else if k < j {
      SlotsApart(size, k, j);
    }
    assert SlotAt(PutSlot(page, size, k, b), size, j) == if j == k then b else SlotAt(page, size, j);
  }

  /** checkCase from slot `pivot` on: the first slot not in use, or -1. */
  function CheckFrom(page: Page, size: nat, pivot: nat): (k: int)
    requires size > 0
    ensures k == -1 <==> forall j :: pivot <= j < Capacity(size) ==> InUse(page, size, j)
    ensures k != -1 ==> pivot <= k < Capacity(size) && !InUse(page, size, k)
    ensures k != -1 ==> forall j :: pivot <= j < k ==> InUse(page, size, j)
    decreases Capacity(size) - pivot
  {
    if pivot >= Capacity(size) then -1
    else if !InUse(page, size, pivot) then pivot
    else CheckFrom(page, size, pivot + 1)
  }

  predicate InUse(page: Page, size: nat, k: nat)
    requires 0 < size && k < Capacity(size)
  {
    SlotAt(page, size, k)[0] == LIVE
  }

  /** checkCase, its uninitialised `pivot` taken to be 0. */
  function CheckCase(page: Page, size: nat): (k: int)
    requires size > 0
    ensures k == -1 <==> forall j :: 0 <= j < Capacity(size) ==> InUse(page, size, j)
    ensures k != -1 ==> 0 <= k < Capacity(size) && !InUse(page, size, k)
    ensures k != -1 ==> forall j :: 0 <= j < k ==> InUse(page, size, j)
  {
    CheckFrom(page, size, 0)
  }

  /** A fresh page has room if and only if a record fits in a page at all. */
  lemma FreshPage(size: nat)
    requires size > 0
    ensures CheckCase(ZERO_PAGE, size) == if size <= 4096 then 0 else -1
  {
    SlotFits(size, 0);
    if size <= 4096 {
      assert SlotAt(ZERO_PAGE, size, 0)[0] == ZERO_PAGE[0] == 0;
      assert !InUse(ZERO_PAGE, size, 0);
    } else {
      assert Capacity(size) == 0;
    }
  }
}
