/** What openTable takes from page 0: the tuple count, the first page for records, and the record size by the schema. */
module Catalog {
  import opened Bytes
  import opened BlockStore
  import opened Options
  import opened Tables
  import A = Attributes
  import H = TableHeader

  function HeaderTuples(page: Page): int32 {
    DecodeInt(page[0..4])
  }

  function HeaderPageID(page: Page): int32 {
    DecodeInt(page[4..8])
  }

  /** The attribute count leaves the walk inside the page. */
  predicate Countable(page: Page) {
    0 <= DecodeInt(page[8..12]) && 12 + 23 * DecodeInt(page[8..12]) <= PAGE_SIZE
  }

  /** Numbers of tables.h, which getRecordSize takes for indices of its handler table, and a length that is one. */
  predicate Known(c: H.Column) {
    0 <= c.dt <= 3 && c.len >= 0
  }

  predicate AllKnown(cols: seq<H.Column>) {
    forall i :: 0 <= i < |cols| ==> Known(cols[i])
  }

  function TypeOf(dt: int): DataType {
    match dt
    case 1 => DT_STRING
    case 2 => DT_FLOAT
    case 3 => DT_BOOL
    case _ => DT_INT
  }

  function LayoutOf(cols: seq<H.Column>): (l: Layout)
    requires AllKnown(cols)
    ensures l.Ok() && |l.types| == |cols|
  {
    Layout(
      seq(|cols|, i requires 0 <= i < |cols| => TypeOf(cols[i].dt)),
      seq(|cols|, i requires 0 <= i < |cols| => cols[i].len))
  }

  /** getRecordSize on the schema that openTable reads; none where C leaves the outcome open. */
  function SchemaSize(page: Page): (size: Option<nat>)
    ensures size.Some? ==> size.value > 0
  {
    if Countable(page) && AllKnown(H.Open(page, 0).cols) then Some(A.RecordSize(LayoutOf(H.Open(page, 0).cols)))
    else None
  }

  /** getRecordSize's handlers by type number: float, int, string, bool. */
  lemma HandlerTable(dt: int, len: nat)
    requires 0 <= dt <= 3
    ensures A.HandlerSize(TypeOf(dt), len) == [4, 4, len, 2][dt]
  {
  }

  // ---------- The schema that openTable makes of createTable's ----------

  /** Every type is one of tables.h. */
  predicate Typed(cols: seq<H.Column>) {
    forall i :: 0 <= i < |cols| ==> 0 <= cols[i].dt <= 3
  }

  /** What openTable takes for the type of an attribute: the last four bytes of its name field. */
  function ReadAsType(c: H.Column): int32 {
    DecodeInt(H.NameField(c.name)[11..])
  }

  /** The attributes as openTable reads them: four bytes early, the type for a length. */
  lemma OpenedColumns(cols: seq<H.Column>, keySize: int32, stack: Page)
    requires H.FitsPage(cols) && Typed(cols)
    ensures var page := H.HeaderPage(cols, keySize, stack);
      && Countable(page) && |H.Open(page, 0).cols| == |cols|
      && forall i :: 0 <= i < |cols| ==>
        H.Open(page, 0).cols[i].dt == ReadAsType(cols[i]) && H.Open(page, 0).cols[i].len == cols[i].dt
  {
    hide H.HeaderPage, DecodeInt, H.NameField, CString, H.ReadColumns;
    H.OpenedShifted(cols, keySize, stack);
  }

  /** openTable gets a schema that C defines if and only if the last four bytes of every name field number a type. */
  lemma OpenedKnown(cols: seq<H.Column>, keySize: int32, stack: Page)
    requires H.FitsPage(cols) && Typed(cols)
    ensures SchemaSize(H.HeaderPage(cols, keySize, stack)).Some? <==>
      forall i :: 0 <= i < |cols| ==> 0 <= ReadAsType(cols[i]) <= 3
  {
    hide H.HeaderPage, ReadAsType, H.Open, DecodeInt, A.RecordSize;
    OpenedColumns(cols, keySize, stack);
    var opened' := H.Open(H.HeaderPage(cols, keySize, stack), 0).cols;
    assert forall i :: 0 <= i < |cols| ==> (Known(opened'[i]) <==> 0 <= ReadAsType(cols[i]) <= 3);
  }

  lemma {:induction false} AllInts(l: Layout, n: nat)
    requires l.Ok() && n <= |l.types| && forall i :: 0 <= i < n ==> l.types[i] == DT_INT
    ensures A.Total(l, A.HandlerSize, n) == 4 * n
  {
    if n > 0 {
      AllInts(l, n - 1);
    }
  }

  /** Names of at most 11 bytes end in four NULs, so openTable takes every attribute for an int. */
  lemma OpenedSize(cols: seq<H.Column>, keySize: int32, stack: Page)
    requires H.FitsPage(cols) && Typed(cols) && forall i :: 0 <= i < |cols| ==> |cols[i].name| <= 11
    ensures SchemaSize(H.HeaderPage(cols, keySize, stack)) == Some(1 + 4 * |cols|)
  {
    hide H.HeaderPage, H.Open, DecodeInt, A.Total;
    var page := H.HeaderPage(cols, keySize, stack);
    OpenedColumns(cols, keySize, stack);
    forall i | 0 <= i < |cols|
      ensures ReadAsType(cols[i]) == 0
    {
      H.ShortTail(cols[i].name);
    }
    var l := LayoutOf(H.Open(page, 0).cols);
    AllInts(l, |cols|);
  }

  /** How much more than four bytes each the caller's schema counts for its attributes. */
  function Excess(l: Layout, n: nat): int
    requires l.Ok() && n <= |l.types|
  {
    if n == 0 then 0
    else
      var len: int := l.lens[n - 1];
      Excess(l, n - 1) + match l.types[n - 1]
        case DT_FLOAT => len - 4
        case DT_BOOL => -2
        case _ => 0
  }

  lemma {:induction false} ExcessIs(l: Layout, n: nat)
    requires l.Ok() && n <= |l.types|
    ensures A.Total(l, A.HandlerSize, n) == 4 * n + Excess(l, n)
  {
    if n > 0 {
      ExcessIs(l, n - 1);
    }
  }

  /**
   * updatePage copies as many bytes as the schema that openTable read counts; the
   * record's buffer has as many as the caller's schema counts. With such names the
   * copy stays inside exactly when the caller's floats make up for its bools.
   */
  lemma StoreFitsIff(cols: seq<H.Column>, keySize: int32, stack: Page)
    requires H.FitsPage(cols) && Typed(cols) && AllKnown(cols)
    requires forall i :: 0 <= i < |cols| ==> |cols[i].name| <= 11
    ensures var size := SchemaSize(H.HeaderPage(cols, keySize, stack));
      size.Some? && (size.value <= A.RecordSize(LayoutOf(cols)) <==> Excess(LayoutOf(cols), |cols|) >= 0)
  {
    hide SchemaSize, A.Total, Excess;
    OpenedSize(cols, keySize, stack);
    ExcessIs(LayoutOf(cols), |cols|);
  }
}
