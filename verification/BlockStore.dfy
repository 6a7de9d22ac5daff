/** storage_mgr.c: a page file as bytes, block i at offset i * PAGE_SIZE. */
module BlockStore {
  import opened Bytes

  const PAGE_SIZE: nat := 4096

  const ZERO_PAGE: seq<byte> := seq<byte>(PAGE_SIZE, _ => 0)

  type Page = p: seq<byte> | |p| == PAGE_SIZE witness ZERO_PAGE

  datatype RC = OK | ERROR | READ_NON_EXISTING_PAGE | NO_MORE_TUPLES | OUT_OF_BOUNDS

  /** Bytes past the end of the file count as zero. */
  function ByteAt(file: seq<byte>, k: nat): byte {
    if k < |file| then file[k] else 0
  }

  /** Block `index` of the file. */
  function Block(file: seq<byte>, index: nat): Page {
    var page: seq<byte> := seq<byte>(4096, k requires 0 <= k < 4096 => ByteAt(file, 4096 * index + k));
    page
  }

  /** The file after writeBlock: a negative index writes nothing, a gap before the block fills with zeros. */
  function Written(file: seq<byte>, index: int, data: Page): seq<byte> {
    if index < 0 then file else WrittenFrom(file, 4096 * index, data)
  }

  function WrittenFrom(file: seq<byte>, start: nat, data: Page): seq<byte> {
    var size := if |file| < start + PAGE_SIZE then start + PAGE_SIZE else |file|;
    seq<byte>(size, k requires 0 <= k < size =>
      if start <= k < start + PAGE_SIZE then data[k - start] else ByteAt(file, k))
  }

  lemma BlockByte(file: seq<byte>, index: nat, k: nat)
    requires k < PAGE_SIZE
    ensures Block(file, index)[k] == ByteAt(file, 4096 * index + k)
  {
  }

  lemma BeyondEnd(file: seq<byte>, index: nat)
    requires |file| <= 4096 * index
    ensures Block(file, index) == ZERO_PAGE
  {
    forall k: nat | k < PAGE_SIZE
      ensures Block(file, index)[k] == 0
    {
      BlockByte(file, index, k);
    }
  }

  lemma WrittenByte(file: seq<byte>, index: nat, data: Page, k: nat)
    ensures var start := 4096 * index;
      ByteAt(Written(file, index, data), k) == if start <= k < start + 4096 then data[k - start] else ByteAt(file, k)
  {
    var start := 4096 * index;
    assert Written(file, index, data) == WrittenFrom(file, start, data);
  }

  /** The file ends where it did, or with the block written past its end. */
  lemma WrittenLength(file: seq<byte>, index: nat, data: Page)
    ensures |Written(file, index, data)| == if |file| < 4096 * index + 4096 then 4096 * index + 4096 else |file|
  {
    assert Written(file, index, data) == WrittenFrom(file, 4096 * index, data);
  }

  /** A write replaces exactly the block it names. */
  lemma WrittenBlock(file: seq<byte>, index: int, data: Page, j: nat)
    ensures Block(Written(file, index, data), j) == if j == index then data else Block(file, j)
  {
    if index >= 0 {
      hide Block, Written, ByteAt;
      var file' := Written(file, index, data);
      var expected := if j == index then data else Block(file, j);
      forall k: nat | k < PAGE_SIZE
        ensures Block(file', j)[k] == expected[k]
      {
        var at := 4096 * j + k;
        BlockByte(file, j, k);
        BlockByte(file', j, k);
        WrittenByte(file, index, data, at);
        if j < index {
          assert at < 4096 * index;
        } else if index < j {
          assert 4096 * index + 4096 <= at;
        }
      }
      assert Block(file', j) == expected;
    }
  }

  /** The file as storage_mgr.c sees it through a handle it has just opened. */
  class PageFile {
    var bytes: seq<byte>
    var curPagePos: int

    constructor (contents: seq<byte>)
      ensures bytes == contents
    {
      bytes := contents;
      curPagePos := 0;
    }

    /** readBlock: refuses only positions beyond totalNumPages, so at the end of the file it reads nothing. */
    method ReadBlock(pagePosition: nat, page: array<byte>) returns (rc: RC)
      requires page.Length == PAGE_SIZE
      modifies this`curPagePos, page
      ensures rc == if |bytes| / PAGE_SIZE < pagePosition then READ_NON_EXISTING_PAGE else OK
      ensures old(page[..]) == ZERO_PAGE ==> page[..] == Block(bytes, pagePosition)
      ensures rc != OK ==> page[..] == old(page[..]) && curPagePos == old(curPagePos)
      ensures rc == OK ==> forall k :: 0 <= k < PAGE_SIZE ==>
        page[k] == if 4096 * pagePosition + k < |bytes| then bytes[4096 * pagePosition + k] else old(page[k])
    {
      if |bytes| / PAGE_SIZE < pagePosition {
        assert |bytes| < 4096 * pagePosition;
        BeyondEnd(bytes, pagePosition);
        return READ_NON_EXISTING_PAGE;
      }
      var offset := 4096 * pagePosition;
      forall k | 0 <= k < PAGE_SIZE && offset + k < |bytes| {
        page[k] := bytes[offset + k];
      }
      curPagePos := offset +
        if |bytes| <= offset then 0 else if |bytes| < offset + PAGE_SIZE then |bytes| - offset else PAGE_SIZE;
      if old(page[..]) == ZERO_PAGE {
        forall k: nat | k < PAGE_SIZE
          ensures page[..][k] == Block(bytes, pagePosition)[k]
        {
          BlockByte(bytes, pagePosition, k);
          assert old(page[..])[k] == 0;
        }
      }
      rc := OK;
    }

    /** writeBlock. */
    method WriteBlock(index: int, page: array<byte>) returns (rc: RC)
      requires page.Length == PAGE_SIZE
      modifies this
      ensures rc == if index < 0 then READ_NON_EXISTING_PAGE else OK
      ensures bytes == Written(old(bytes), index, page[..])
      ensures curPagePos == if index < 0 then old(curPagePos) else 4096 * index + PAGE_SIZE
    {
      if index < 0 {
        return READ_NON_EXISTING_PAGE;
      }
      var offset := 4096 * index;
      ghost var before := bytes;
      if |bytes| < offset {
        bytes := bytes + seq<byte>(offset - |bytes|, _ => 0);
      }
      bytes := bytes[..offset] + page[..] + (if offset + PAGE_SIZE <= |bytes| then bytes[offset + PAGE_SIZE..] else []);
      curPagePos := offset + PAGE_SIZE;
      assert bytes == Written(before, index, page[..]);
      rc := OK;
    }
  }
}
