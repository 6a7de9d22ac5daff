/** The schema that createTable writes into page 0, and what openTable reads back. */
module TableHeader {
  import opened Bytes
  import opened BlockStore

  /** One attribute as the header holds it; `dt` is the DataType's number. */
  datatype Column = Column(name: seq<byte>, dt: int32, len: int32)

  /** The 15 bytes of strncpy: the name cut off or filled up with NULs. */
  function NameField(name: seq<byte>): (b: seq<byte>)
    ensures |b| == 15
  {
    if |name| >= 15 then name[..15] else name + seq<byte>(15 - |name|, _ => 0)
  }

  function ColumnBytes(c: Column): (b: seq<byte>)
    ensures |b| == 23
  {
    NameField(c.name) + EncodeInt(c.dt) + EncodeInt(c.len)
  }

  function ColumnsBytes(cols: seq<Column>): (b: seq<byte>)
    ensures |b| == 23 * |cols|
  {
    if cols == [] then [] else ColumnsBytes(cols[..|cols| - 1]) + ColumnBytes(cols[|cols| - 1])
  }

  /** Tuple count 0, first page 1, the number of attributes, the key size, the attributes. */
  function HeaderBytes(cols: seq<Column>, keySize: int32): (b: seq<byte>)
    requires |cols| < 0x8000_0000
    ensures |b| == 16 + 23 * |cols|
  {
    EncodeInt(0) + EncodeInt(1) + EncodeInt(|cols|) + EncodeInt(keySize) + ColumnsBytes(cols)
  }

  predicate FitsPage(cols: seq<Column>) {
    16 + 23 * |cols| <= PAGE_SIZE
  }

  /** Page 0 after createTable; behind the header it holds what was on the stack. */
  function HeaderPage(cols: seq<Column>, keySize: int32, stack: Page): Page
    requires FitsPage(cols)
  {
    Splice(stack, 0, HeaderBytes(cols, keySize))
  }

  // ---------- Reading ----------

  datatype Opened = Opened(numOfTuples: int32, pageID: int32, cols: seq<Column>)

  /** openTable's loop body at offset `at`. */
  function ReadColumn(page: Page, at: nat): Column
    requires at + 23 <= PAGE_SIZE
  {
    Column(CString(page[at..at + 15]), DecodeInt(page[at + 15..at + 19]), DecodeInt(page[at + 19..at + 23]))
  }

  function ReadColumns(page: Page, at: nat, n: nat): (cols: seq<Column>)
    requires at + 23 * n <= PAGE_SIZE
    ensures |cols| == n
    ensures forall i :: 0 <= i < n ==> cols[i] == ReadColumn(page, at + 23 * i)
  {
    if n == 0 then [] else ReadColumns(page, at, n - 1) + [ReadColumn(page, at + 23 * (n - 1))]
  }

  /** openTable, reading the attributes from offset 12 + skip. The code has skip 0 and so starts at the key size. */
  function Open(page: Page, skip: nat): Opened
    requires 0 <= DecodeInt(page[8..12]) && 12 + skip + 23 * DecodeInt(page[8..12]) <= PAGE_SIZE
  {
    Opened(DecodeInt(page[0..4]), DecodeInt(page[4..8]), ReadColumns(page, 12 + skip, DecodeInt(page[8..12])))
  }

  // ---------- Where the bytes are ----------

  /** A slice of a slice. */
  lemma Slice(s: seq<byte>, a: nat, b: nat, c: nat, d: nat)
    requires a <= b <= |s| && c <= d <= b - a
    ensures s[a..b][c..d] == s[a + c..a + d]
  {
    var x, y := s[a..b][c..d], s[a + c..a + d];
    assert forall k :: 0 <= k < |x| ==> x[k] == s[a + c + k] == y[k];
  }

  lemma {:induction false} ColumnAt(cols: seq<Column>, i: nat)
    requires i < |cols|
    ensures ColumnsBytes(cols)[23 * i..23 * i + 23] == ColumnBytes(cols[i])
  {
    hide ColumnBytes;
    var last := |cols| - 1;
    var before := ColumnsBytes(cols[..last]);
    assert ColumnsBytes(cols) == before + ColumnBytes(cols[last]);
    if i < last {
      ColumnAt(cols[..last], i);
      assert ColumnsBytes(cols)[23 * i..23 * i + 23] == before[23 * i..23 * i + 23];
    }
  }

  lemma HeaderInts(cols: seq<Column>, keySize: int32, stack: Page)
    requires FitsPage(cols)
    ensures var page := HeaderPage(cols, keySize, stack);
      && DecodeInt(page[0..4]) == 0 && DecodeInt(page[4..8]) == 1 && DecodeInt(page[8..12]) == |cols|
      && page[12..16] == EncodeInt(keySize)
  {
    hide EncodeInt, DecodeInt, ColumnsBytes;
    var page, b := HeaderPage(cols, keySize, stack), HeaderBytes(cols, keySize);
    assert page[0..4] == b[0..4] == EncodeInt(0);
    assert page[4..8] == b[4..8] == EncodeInt(1);
    assert page[8..12] == b[8..12] == EncodeInt(|cols|);
    assert page[12..16] == b[12..16] == EncodeInt(keySize);
    IntRoundTrip(0, EncodeInt(0));
    IntRoundTrip(1, EncodeInt(0));
    IntRoundTrip(|cols|, EncodeInt(0));
  }

  lemma PageColumn(cols: seq<Column>, keySize: int32, stack: Page, i: nat)
    requires FitsPage(cols) && i < |cols|
    ensures HeaderPage(cols, keySize, stack)[16 + 23 * i..16 + 23 * i + 23] == ColumnBytes(cols[i])
  {
    hide EncodeInt, ColumnBytes, ColumnsBytes;
    var page, b := HeaderPage(cols, keySize, stack), HeaderBytes(cols, keySize);
    var at := 23 * i;
    ColumnAt(cols, i);
    assert page[16 + at..16 + at + 23] == b[16 + at..16 + at + 23] == ColumnsBytes(cols)[at..at + 23];
  }

  predicate PlainName(name: seq<byte>) {
    |name| <= 14 && forall k :: 0 <= k < |name| ==> name[k] != 0
  }

  lemma NameReadBack(name: seq<byte>)
    requires PlainName(name)
    ensures CString(NameField(name)) == name
  {
    CStringUnique(NameField(name), name);
  }

  /** A longer name loses what is past its 15th byte, and the NUL behind it. */
  lemma LongName(name: seq<byte>)
    requires 0 !in name && |name| >= 15
    ensures CString(NameField(name)) == name[..15] && 0 !in NameField(name)
  {
    CStringUnique(NameField(name), name[..15]);
  }

  // ---------- The reader as intended ----------

  /** A reader that skips the key size gets back what createTable wrote. */
  lemma HeaderRoundTrip(cols: seq<Column>, keySize: int32, stack: Page)
    requires FitsPage(cols) && forall i :: 0 <= i < |cols| ==> PlainName(cols[i].name)
    ensures var page := HeaderPage(cols, keySize, stack);
      DecodeInt(page[8..12]) == |cols| && Open(page, 4) == Opened(0, 1, cols)
  {
    hide HeaderPage, DecodeInt, ReadColumn;
    var page := HeaderPage(cols, keySize, stack);
    HeaderInts(cols, keySize, stack);
    forall i | 0 <= i < |cols|
      ensures ReadColumn(page, 16 + 23 * i) == cols[i]
    {
      PageColumn(cols, keySize, stack, i);
      ColumnReadBack(page, 16 + 23 * i, cols[i]);
    }
    assert Open(page, 4).cols == cols;
  }

  lemma ColumnReadBack(page: Page, at: nat, c: Column)
    requires at + 23 <= PAGE_SIZE && page[at..at + 23] == ColumnBytes(c) && PlainName(c.name)
    ensures ReadColumn(page, at) == c
  {
    hide EncodeInt, DecodeInt, CString, NameField;
    Slice(page, at, at + 23, 0, 15);
    Slice(page, at, at + 23, 15, 19);
    Slice(page, at, at + 23, 19, 23);
    ColumnParts(c);
    NameReadBack(c.name);
    IntRoundTrip(c.dt, EncodeInt(0));
    IntRoundTrip(c.len, EncodeInt(0));
  }

  lemma ColumnParts(c: Column)
    ensures var b := ColumnBytes(c);
      b[0..15] == NameField(c.name) && b[15..19] == EncodeInt(c.dt) && b[19..23] == EncodeInt(c.len)
    ensures ColumnBytes(c)[0..11] == NameField(c.name)[..11] && ColumnBytes(c)[11..15] == NameField(c.name)[11..]
  {
    hide EncodeInt, NameField;
  }

  // ---------- The reader as written ----------

  /** The int that stands before attribute `i` in the header. */
  function IntBefore(cols: seq<Column>, keySize: int32, i: nat): int32
    requires i < |cols|
  {
    if i == 0 then keySize else cols[i - 1].len
  }

  /** What openTable makes of attribute `i`, reading everything four bytes early. */
  function Shifted(cols: seq<Column>, keySize: int32, i: nat): Column
    requires i < |cols|
  {
    var field := NameField(cols[i].name);
    Column(CString(EncodeInt(IntBefore(cols, keySize, i)) + field[..11]), DecodeInt(field[11..]), cols[i].dt)
  }

  /** openTable as written: the length it reads is the type, the type is the tail of the name field. */
  lemma OpenedShifted(cols: seq<Column>, keySize: int32, stack: Page)
    requires FitsPage(cols)
    ensures var page := HeaderPage(cols, keySize, stack);
      && DecodeInt(page[8..12]) == |cols|
      && Open(page, 0).numOfTuples == 0 && Open(page, 0).pageID == 1 && |Open(page, 0).cols| == |cols|
      && forall i :: 0 <= i < |cols| ==> Open(page, 0).cols[i] == Shifted(cols, keySize, i)
  {
    var page := HeaderPage(cols, keySize, stack);
    HeaderInts(cols, keySize, stack);
    forall i | 0 <= i < |cols|
      ensures ReadColumn(page, 12 + 23 * i) == Shifted(cols, keySize, i)
    {
      ShiftedColumn(cols, keySize, stack, i);
    }
  }

  lemma ShiftedColumn(cols: seq<Column>, keySize: int32, stack: Page, i: nat)
    requires FitsPage(cols) && i < |cols|
    ensures ReadColumn(HeaderPage(cols, keySize, stack), 12 + 23 * i) == Shifted(cols, keySize, i)
  {
    hide EncodeInt, DecodeInt, CString, NameField, HeaderPage, ColumnBytes;
    var page := HeaderPage(cols, keySize, stack);
    var at := 12 + 23 * i;
    PageColumn(cols, keySize, stack, i);
    ColumnParts(cols[i]);
    Slice(page, at + 4, at + 27, 0, 11);
    Slice(page, at + 4, at + 27, 11, 15);
    Slice(page, at + 4, at + 27, 15, 19);
    assert page[at..at + 4] == EncodeInt(IntBefore(cols, keySize, i)) by {
      HeaderInts(cols, keySize, stack);
      if i > 0 {
        PageColumn(cols, keySize, stack, i - 1);
        ColumnParts(cols[i - 1]);
        Slice(page, at - 19, at + 4, 19, 23);
      }
    }
    assert page[at..at + 15] == page[at..at + 4] + page[at + 4..at + 15];
    IntRoundTrip(cols[i].dt, EncodeInt(0));
  }

  /** Type numbers of tables.h, and at least one attribute, as createTable's do-while needs. */
  predicate RealSchema(cols: seq<Column>) {
    cols != [] && forall i :: 0 <= i < |cols| ==> PlainName(cols[i].name) && 0 <= cols[i].dt <= 3
  }

  /** The one schema of each size that survives: ints of length 0, no names but the key size's bytes as the first. */
  predicate Immune(cols: seq<Column>, keySize: int32) {
    forall i :: 0 <= i < |cols| ==>
      cols[i] == Column(if i == 0 then CString(EncodeInt(keySize)) else [], 0, 0)
  }

  /** An int below 2^24 has a zero byte, which ends any name that starts with it. */
  lemma ShortInt(n: int32, rest: seq<byte>)
    requires 0 <= n < 0x100_0000
    ensures CString(EncodeInt(n) + rest) == CString(EncodeInt(n)) && |CString(EncodeInt(n))| <= 3
  {
    var b := EncodeInt(n);
    var c := CString(b);
    ZeroEnds(b, 3);
    ZeroEnds(b + rest, 3);
    assert c == b[..|c|] == (b + rest)[..|c|];
    CStringUnique(b + rest, c);
  }

  /** A C string does not reach past a zero byte. */
  lemma {:induction false} ZeroEnds(s: seq<byte>, k: nat)
    requires k < |s| && s[k] == 0
    ensures |CString(s)| <= k
  {
    if k > 0 && s[0] != 0 {
      ZeroEnds(s[1..], k - 1);
    }
  }

  lemma EmptyName()
    ensures CString(EncodeInt(0)) == []
  {
    ZeroEnds(EncodeInt(0), 0);
  }

  lemma ShiftedSame(cols: seq<Column>, keySize: int32, i: nat)
    requires RealSchema(cols) && i < |cols| && 0 <= IntBefore(cols, keySize, i) < 0x100_0000
    ensures Shifted(cols, keySize, i) == cols[i] <==>
      cols[i] == Column(CString(EncodeInt(IntBefore(cols, keySize, i))), 0, 0)
  {
    hide EncodeInt, CString, DecodeInt, NameField;
    var name := cols[i].name;
    ShortInt(IntBefore(cols, keySize, i), NameField(name)[..11]);
    if |name| <= 11 {
      ShortTail(name);
    }
  }

  /** A name of at most 11 bytes leaves the last four of its field zero. */
  lemma ShortTail(name: seq<byte>)
    requires |name| <= 11
    ensures DecodeInt(NameField(name)[11..]) == 0
  {
    assert NameField(name)[11..] == [0, 0, 0, 0];
  }

  /**
   * openTable recovers the schema that createTable wrote exactly when there is
   * nothing to recover. Key sizes count attributes, so they are below 2^24.
   */
  lemma OpenRecoversIff(cols: seq<Column>, keySize: int32, stack: Page)
    requires FitsPage(cols) && RealSchema(cols) && 0 <= keySize < 0x100_0000
    ensures var page := HeaderPage(cols, keySize, stack);
      DecodeInt(page[8..12]) == |cols| && (Open(page, 0).cols == cols <==> Immune(cols, keySize))
  {
    hide HeaderPage, Open, Shifted, CString, DecodeInt, EncodeInt;
    OpenedShifted(cols, keySize, stack);
    EmptyName();
    var result := Open(HeaderPage(cols, keySize, stack), 0).cols;
    if forall i :: 0 <= i < |cols| ==> Shifted(cols, keySize, i) == cols[i] {
      forall i | 0 <= i < |cols|
        ensures cols[i] == Column(if i == 0 then CString(EncodeInt(keySize)) else [], 0, 0)
      {
        FixedPoint(cols, keySize, i);
      }
    }
    if Immune(cols, keySize) {
      forall i | 0 <= i < |cols|
        ensures Shifted(cols, keySize, i) == cols[i]
      {
        ShiftedSame(cols, keySize, i);
      }
    }
  }

  lemma {:induction false} FixedPoint(cols: seq<Column>, keySize: int32, i: nat)
    requires RealSchema(cols) && 0 <= keySize < 0x100_0000 && i < |cols|
    requires forall j :: 0 <= j < |cols| ==> Shifted(cols, keySize, j) == cols[j]
    ensures cols[i] == Column(if i == 0 then CString(EncodeInt(keySize)) else [], 0, 0)
  {
    hide Shifted, CString, EncodeInt;
    if i > 0 {
      FixedPoint(cols, keySize, i - 1);
    }
    EmptyName();
    ShiftedSame(cols, keySize, i);
  }

  // ---------- The loops ----------

  /** Store `b` at `at`: strncpy's fifteen bytes or one int. */
  method Put(page: array<byte>, at: nat, b: seq<byte>)
    requires at + |b| <= page.Length
    modifies page
    ensures page[..] == Splice(old(page[..]), at, b)
  {
    forall k | 0 <= k < |b| {
      page[at + k] := b[k];
    }
    assert page[..] == Splice(old(page[..]), at, b);
  }

  /** Two stores side by side are one. */
  lemma SpliceOn(s: seq<byte>, at: nat, a: seq<byte>, b: seq<byte>)
    requires at + |a| + |b| <= |s|
    ensures Splice(Splice(s, at, a), at + |a|, b) == Splice(s, at, a + b)
  {
  }

  /** createTable's part on the page image; its do-while needs an attribute. */
  method CreateHeader(page: array<byte>, cols: seq<Column>, keySize: int32)
    requires page.Length == PAGE_SIZE && FitsPage(cols) && cols != []
    modifies page
    ensures page[..] == HeaderPage(cols, keySize, old(page[..]))
  {
    hide EncodeInt, NameField, ColumnBytes, Splice;
    ghost var stack := page[..];
    Put(page, 0, EncodeInt(0));
    Put(page, 4, EncodeInt(1));
    SpliceOn(stack, 0, EncodeInt(0), EncodeInt(1));
    Put(page, 8, EncodeInt(|cols|));
    SpliceOn(stack, 0, EncodeInt(0) + EncodeInt(1), EncodeInt(|cols|));
    Put(page, 12, EncodeInt(keySize));
    SpliceOn(stack, 0, EncodeInt(0) + EncodeInt(1) + EncodeInt(|cols|), EncodeInt(keySize));
    assert HeaderBytes([], keySize) == EncodeInt(0) + EncodeInt(1) + EncodeInt(0) + EncodeInt(keySize);
    ghost var ints := EncodeInt(0) + EncodeInt(1) + EncodeInt(|cols|) + EncodeInt(keySize);
    assert ints + ColumnsBytes(cols[..0]) == ints;
    var i := 0;
    while i < |cols|
      invariant i <= |cols| && page[..] == Splice(stack, 0, ints + ColumnsBytes(cols[..i]))
    {
      PutColumn(page, 16 + 23 * i, cols[i]);
      SpliceOn(stack, 0, ints + ColumnsBytes(cols[..i]), ColumnBytes(cols[i]));
      assert cols[..i + 1][..i] == cols[..i];
      assert ints + ColumnsBytes(cols[..i]) + ColumnBytes(cols[i]) == ints + ColumnsBytes(cols[..i + 1]);
      i := i + 1;
    }
    assert cols[..|cols|] == cols;
  }

  method PutColumn(page: array<byte>, at: nat, c: Column)
    requires at + 23 <= page.Length
    modifies page
    ensures page[..] == Splice(old(page[..]), at, ColumnBytes(c))
  {
    hide EncodeInt, NameField, Splice;
    ghost var before := page[..];
    Put(page, at, NameField(c.name));
    Put(page, at + 15, EncodeInt(c.dt));
    SpliceOn(before, at, NameField(c.name), EncodeInt(c.dt));
    Put(page, at + 19, EncodeInt(c.len));
    SpliceOn(before, at, NameField(c.name) + EncodeInt(c.dt), EncodeInt(c.len));
  }

  /** openTable's loop, from offset 12. */
  method OpenHeader(page: array<byte>) returns (result: Opened)
    requires page.Length == PAGE_SIZE
    requires 0 <= DecodeInt(page[8..12]) && 12 + 23 * DecodeInt(page[8..12]) <= PAGE_SIZE
    ensures result == Open(page[..], 0)
  {
    hide DecodeInt, CString;
    assert page[0..4] == page[..][0..4] && page[4..8] == page[..][4..8] && page[8..12] == page[..][8..12];
    var counter := DecodeInt(page[8..12]);
    var cols := [];
    var index := 0;
    while index < counter
      invariant 0 <= index <= counter && cols == ReadColumns(page[..], 12, index)
    {
      var at := 12 + 23 * index;
      assert page[at..at + 15] == page[..][at..at + 15] && page[at + 15..at + 19] == page[..][at + 15..at + 19];
      assert page[at + 19..at + 23] == page[..][at + 19..at + 23];
      var name := CString(page[at..at + 15]);
      cols := cols + [Column(name, DecodeInt(page[at + 15..at + 19]), DecodeInt(page[at + 19..at + 23]))];
      index := index + 1;
    }
    result := Opened(DecodeInt(page[0..4]), DecodeInt(page[4..8]), cols);
  }
}
