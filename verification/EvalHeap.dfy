/** evalExpr on the C heap: which Values and string buffers it allocates and frees. */
module EvalHeap {
  import opened Bytes
  import opened Tables
  import opened Attributes
  import opened Comparisons
  import opened Expressions
  import opened AttributeAccess

  type Pointer = nat

  /** A Value struct; a string's buffer is an allocation of its own. */
  datatype Struct = IntS(i: int32) | StringS(buffer: Pointer) | FloatS(bits: float32) | BoolS(b: int16)

  /** What is allocated. Pointers are never given out twice. */
  class Heap {
    var values: map<Pointer, Struct>
    var strings: map<Pointer, seq<byte>>
    var next: Pointer

    ghost predicate Valid()
      reads this
    {
      (forall p :: p in values ==> p < next) && (forall q :: q in strings ==> q < next)
    }

    /** `p` points to a live struct, and to a live buffer if it is a string. */
    ghost predicate Live(p: Pointer)
      reads this
    {
      p in values && (values[p].StringS? ==> values[p].buffer in strings)
    }

    function Deref(p: Pointer): Value
      requires Live(p)
      reads this
    {
      match values[p]
      case IntS(i) => IntV(i)
      case StringS(q) => StringV(strings[q])
      case FloatS(bits) => FloatV(bits)
      case BoolS(b) => BoolV(b)
    }

    constructor ()
      ensures Valid() && values == map[] && strings == map[]
    {
      values, strings, next := map[], map[], 0;
    }

    /** MAKE_VALUE(*result, DT_INT, -1). */
    method MakeValue() returns (p: Pointer)
      requires Valid()
      modifies this
      ensures Valid() && p == old(next) && next == old(next) + 1
      ensures values == old(values)[p := IntS(-1)] && strings == old(strings)
    {
      p, next := next, next + 1;
      values := values[p := IntS(-1)];
    }

    /** Fill a live struct; a string gets a buffer of its own. */
    method Fill(p: Pointer, v: Value)
      requires Valid() && p in values
      modifies this
      ensures Valid() && old(next) <= next <= old(next) + 1 && Live(p) && Deref(p) == v
      ensures values == old(values)[p := values[p]]
      ensures if v.StringV? then values[p] == StringS(old(next)) && strings == old(strings)[old(next) := v.s]
              else !values[p].StringS? && strings == old(strings)
    {
      match v {
        case IntV(i) => values := values[p := IntS(i)];
        case FloatV(bits) => values := values[p := FloatS(bits)];
        case BoolV(b) => values := values[p := BoolS(b)];
        case StringV(s) =>
          strings := strings[next := s];
          values := values[p := StringS(next)];
          next := next + 1;
      }
    }

    /** free of a struct. */
    method Free(p: Pointer)
      requires Valid() && p in values
      modifies this
      ensures Valid() && values == old(values) - {p} && strings == old(strings) && next == old(next)
    {
      values := values - {p};
    }

    /** freeVal: the buffer of a string first. */
    method FreeVal(p: Pointer)
      requires Valid() && Live(p)
      modifies this
      ensures Valid() && values == old(values) - {p} && next == old(next)
      ensures strings == if old(values[p]).StringS? then old(strings) - {old(values[p]).buffer} else old(strings)
    {
      if values[p].StringS? {
        strings := strings - {values[p].buffer};
      }
      Free(p);
    }
  }

  /** One struct more than before, `p`, with value `v`, and one buffer more exactly when `v` is a string. */
  twostate predicate Gained(h: Heap, p: Pointer, v: Value)
    reads h
  {
    && h.Valid() && h.Live(p) && h.Deref(p) == v
    && old(h.next) <= p < h.next && h.values == old(h.values)[p := h.values[p]]
    && if v.StringV? then
         old(h.next) <= h.values[p].buffer && h.strings == old(h.strings)[h.values[p].buffer := v.s]
       else
         h.strings == old(h.strings)
  }

  /** getAttr's allocations: the struct, and the buffer of a string. */
  method FetchAttr(record: array<byte>, schema: Schema, n: nat, h: Heap) returns (p: Pointer)
    requires h.Valid() && CanRead(record[..], schema.Layout(), n)
    modifies h, schema`dataTypes
    ensures Gained(h, p, Attributes.GetAttr(record[..], old(schema.Layout()), n))
    ensures schema.Layout() == Settle(old(schema.Layout()), n)
  {
    var v := AttributeAccess.GetAttr(record, schema, n);
    p := h.MakeValue();
    h.Fill(p, v);
  }

  /** evalExpr; a failed CHECK ends the program, so nothing is said of the heap then. */
  method EvalExpr(e: Expr, record: array<byte>, schema: Schema, h: Heap) returns (r: Outcome<Pointer>)
    requires h.Valid()
    modifies h, schema`dataTypes
    ensures var (v, l) := Eval(e, record[..], old(schema.Layout()));
      && schema.Layout() == l && (v.Failed? ==> r == Failed(v.error))
      && (v.Done? ==> r.Done? && Gained(h, r.value, v.value))
    decreases e, 1
  {
    hide Copy, Settle, Attributes.GetAttr, Position, ReadWidth;
    var p := h.MakeValue();
    ghost var made := h.values;
    match e {
      case Const(v) =>
        h.Fill(p, Copy(v));
        r := Done(p);
      case Attr(n) =>
        if n >= |schema.dataTypes| || |schema.dataTypes| != |schema.typeLength| {
          return Failed(UNDEFINED);
        }
        var fits := Fits(record, schema, n);
        if !fits {
          return Failed(UNDEFINED);
        }
        h.Free(p);
        p := FetchAttr(record, schema, n, h);
        r := Done(p);
      case Not(_) =>
        r := EvalNot(e, record, schema, h, p);
        assert r.Done? ==> made[p := h.values[p]] == old(h.values)[p := h.values[p]];
      case _ =>
        r := EvalBinary(e, record, schema, h, p);
        assert r.Done? ==> made[p := h.values[p]] == old(h.values)[p := h.values[p]];
    }
  }

  /** evalExpr on NOT, its result struct `p` already allocated last. */
  method EvalNot(e: Expr, record: array<byte>, schema: Schema, h: Heap, p: Pointer) returns (r: Outcome<Pointer>)
    requires e.Not? && h.Valid() && p in h.values && !h.values[p].StringS? && p + 1 == h.next
    modifies h, schema`dataTypes
    ensures var (v, l) := Eval(e, record[..], old(schema.Layout()));
      && schema.Layout() == l && (v.Failed? ==> r == Failed(v.error))
      && (v.Done? ==> r == Done(p) && Refilled(h, p, v.value))
    decreases e, 0
  {
    var lIn := EvalExpr(e.arg, record, schema, h);
    if lIn.Failed? {
      return lIn;
    }
    var v := BoolNot(h.Deref(lIn.value));
    if v.Failed? {
      return Failed(v.error);
    }
    h.Fill(p, v.value);
    h.FreeVal(lIn.value);
    r := Done(p);
  }

  lemma ValuesBack(m: map<Pointer, Struct>, p: Pointer, x: Pointer, y: Pointer, a: Struct, b: Struct, c: Struct)
    requires p in m && x !in m && y !in m
    ensures m[x := a][y := b][p := c] - {x, y} == m[p := c]
  {
  }

  /** The buffers of two operands come and go. */
  lemma BuffersBack(m: map<Pointer, seq<byte>>, m1: map<Pointer, seq<byte>>, m2: map<Pointer, seq<byte>>,
                    x: Struct, y: Struct)
    requires if x.StringS? then x.buffer !in m && x.buffer in m1 && m1 == m[x.buffer := m1[x.buffer]] else m1 == m
    requires if y.StringS? then y.buffer !in m1 && y.buffer in m2 && m2 == m1[y.buffer := m2[y.buffer]] else m2 == m1
    ensures m2 - Owned(x) - Owned(y) == m
  {
  }

  lemma BinaryIsNoString(e: Expr)
    requires e.And? || e.Or? || e.Equal? || e.Smaller?
    ensures forall v, w :: Binary(e, v, w).Done? ==> !Binary(e, v, w).value.StringV?
  {
  }

  /** evalExpr on an operator with two operands. */
  method EvalBinary(e: Expr, record: array<byte>, schema: Schema, h: Heap, p: Pointer) returns (r: Outcome<Pointer>)
    requires e.And? || e.Or? || e.Equal? || e.Smaller?
    requires h.Valid() && p in h.values && !h.values[p].StringS? && p + 1 == h.next
    modifies h, schema`dataTypes
    ensures var (v, l) := Eval(e, record[..], old(schema.Layout()));
      && schema.Layout() == l && (v.Failed? ==> r == Failed(v.error))
      && (v.Done? ==> r == Done(p) && Refilled(h, p, v.value))
    decreases e, 0
  {
    hide Comparisons.BoolAnd, Comparisons.BoolOr, ValueEquals, ValueSmaller, Settle, Attributes.GetAttr, CanRead, Copy;
    BinaryIsNoString(e);
    hide Binary;
    var lIn := EvalExpr(e.left, record, schema, h);
    if lIn.Failed? {
      return lIn;
    }
    ghost var left := h.Deref(lIn.value);
    ghost var next := h.next;
    ghost var values, strings := h.values, h.strings;
    var rIn := EvalExpr(e.right, record, schema, h);
    if rIn.Failed? {
      return rIn;
    }
    assert lIn.value < next <= rIn.value && h.Live(lIn.value) && h.Deref(lIn.value) == left;
    var v := Binary(e, h.Deref(lIn.value), h.Deref(rIn.value));
    if v.Failed? {
      return Failed(v.error);
    }
    ghost var x, y := h.values[lIn.value], h.values[rIn.value];
    ghost var strings2 := h.strings;
    Finish(h, p, lIn.value, rIn.value, v.value);
    ValuesBack(old(h.values), p, lIn.value, rIn.value, x, y, h.values[p]);
    BuffersBack(old(h.strings), strings, strings2, x, y);
    r := Done(p);
  }

  /** The result struct is filled, and both operands are freed. */
  method Finish(h: Heap, p: Pointer, x: Pointer, y: Pointer, v: Value)
    requires h.Valid() && !v.StringV? && p in h.values && !h.values[p].StringS? && p != x && p != y && x != y
    requires h.Live(x) && h.Live(y)
    requires h.values[x].StringS? && h.values[y].StringS? ==> h.values[x].buffer != h.values[y].buffer
    modifies h
    ensures h.Valid() && h.Live(p) && h.Deref(p) == v && h.next >= old(h.next)
    ensures h.values == old(h.values)[p := h.values[p]] - {x, y}
    ensures h.strings == old(h.strings) - Owned(old(h.values[x])) - Owned(old(h.values[y]))
  {
    h.Fill(p, v);
    h.FreeVal(x);
    h.FreeVal(y);
  }

  /** The buffer that a struct owns. */
  function Owned(s: Struct): set<Pointer> {
    if s.StringS? then {s.buffer} else {}
  }

  /** Only the struct `p` has changed, and it holds `v`, which is no string. */
  twostate predicate Refilled(h: Heap, p: Pointer, v: Value)
    reads h
  {
    && h.Valid() && h.Live(p) && h.Deref(p) == v && !v.StringV? && old(h.next) <= h.next
    && h.values == old(h.values)[p := h.values[p]] && h.strings == old(h.strings)
  }

  /** Whether attribute `n` lies inside the record's buffer. */
  method Fits(record: array<byte>, schema: Schema, n: nat) returns (b: bool)
    requires schema.Layout().Ok() && n < |schema.dataTypes|
    ensures b == CanRead(record[..], schema.Layout(), n)
  {
    var pos := Locate(schema, n);
    b := pos + Width(if n == 1 then DT_STRING else schema.dataTypes[n], schema.typeLength[n]) <= record.Length;
  }
}
