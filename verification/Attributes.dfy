/** getAttr, setAttr, getRecordSize and attrOffset: four walks over a schema that do not agree on sizes. */
module Attributes {
  import opened Bytes
  import opened Tables

  // ---------- The sizes each walk uses ----------

  /** What setAttr writes and getAttr reads for one attribute; also attrOffset's size. */
  function Width(dt: DataType, len: nat): nat {
    match dt
    case DT_INT => 4
    case DT_STRING => len
    case DT_FLOAT => 4
    case DT_BOOL => 2
  }

  /** The step of getAttr and setAttr over an earlier attribute: their table has 0 at DT_BOOL. */
  function Stride(dt: DataType, len: nat): nat {
    match dt
    case DT_INT => 4
    case DT_STRING => len
    case DT_FLOAT => 4
    case DT_BOOL => 0
  }

  /** getRecordSize's handlers by type number: float, int, string, bool. */
  function HandlerSize(dt: DataType, len: nat): nat {
    match dt
    case DT_INT => 4
    case DT_STRING => 4
    case DT_FLOAT => len
    case DT_BOOL => 2
  }

  function Total(l: Layout, size: (DataType, nat) -> nat, n: nat): nat
    requires l.Ok() && n <= |l.types|
  {
    if n == 0 then 0 else Total(l, size, n - 1) + size(l.types[n - 1], l.lens[n - 1])
  }

  /** Where getAttr and setAttr find attribute `n`. */
  function Position(l: Layout, n: nat): nat
    requires l.Ok() && n <= |l.types|
  {
    1 + Total(l, Stride, n)
  }

  /** attrOffset of the serializer. */
  function AttrOffset(l: Layout, n: nat): nat
    requires l.Ok() && n <= |l.types|
  {
    Total(l, Width, n)
  }

  function RecordSize(l: Layout): nat
    requires l.Ok()
  {
    Total(l, HandlerSize, |l.types|) + 1
  }

  /** The bool attributes before attribute `n`. */
  function Bools(l: Layout, n: nat): nat
    requires l.Ok() && n <= |l.types|
  {
    Total(l, (dt, _) => if dt == DT_BOOL then 1 else 0, n)
  }

  /** How far getRecordSize's table is off for the strings and floats before attribute `n`. */
  function Slack(l: Layout, n: nat): int
    requires l.Ok() && n <= |l.types|
  {
    if n == 0 then 0
    else
      var len: int := l.lens[n - 1];
      Slack(l, n - 1) + match l.types[n - 1]
        case DT_STRING => 4 - len
        case DT_FLOAT => len - 4
        case _ => 0
  }

  /** The serializer reads attribute `n` one byte early, and two bytes later for every bool before it. */
  lemma {:induction false} OffsetsDiffer(l: Layout, n: nat)
    requires l.Ok() && n <= |l.types|
    ensures AttrOffset(l, n) + 1 == Position(l, n) + 2 * Bools(l, n)
  {
    if n > 0 {
      OffsetsDiffer(l, n - 1);
    }
  }

  /** getRecordSize against the bytes the attributes take: right exactly when its errors cancel. */
  lemma {:induction false} RecordSizeOff(l: Layout, n: nat)
    requires l.Ok() && n <= |l.types|
    ensures Total(l, HandlerSize, n) == AttrOffset(l, n) + Slack(l, n)
    ensures n == |l.types| ==> (RecordSize(l) == 1 + AttrOffset(l, n) <==> Slack(l, n) == 0)
  {
    if n > 0 {
      RecordSizeOff(l, n - 1);
    }
  }

  /** How far attributes before `n` reach past the start of attribute `n`: a bool by two bytes, less what follows it. */
  function Overhang(l: Layout, n: nat): nat
    requires l.Ok() && n <= |l.types|
  {
    if n == 0 then 0
    else if l.types[n - 1] == DT_BOOL then 2
    else
      var stride := Stride(l.types[n - 1], l.lens[n - 1]);
      if Overhang(l, n - 1) <= stride then 0 else Overhang(l, n - 1) - stride
  }

  /** The furthest byte written for the attributes before `n` is where the overhang ends. */
  lemma {:induction false} FurthestEnd(l: Layout, n: nat)
    requires l.Ok() && n <= |l.types|
    ensures Overhang(l, n) <= 2
    ensures forall k :: 0 <= k < n ==> Position(l, k) + WriteWidth(l, k) <= Position(l, n) + Overhang(l, n)
    ensures n > 0 ==> exists k :: 0 <= k < n && Position(l, k) + WriteWidth(l, k) == Position(l, n) + Overhang(l, n)
  {
    if n > 0 {
      FurthestEnd(l, n - 1);
      if l.types[n - 1] == DT_BOOL || Overhang(l, n - 1) <= Stride(l.types[n - 1], l.lens[n - 1]) {
        assert Position(l, n - 1) + WriteWidth(l, n - 1) == Position(l, n) + Overhang(l, n);
      } else {
        assert n > 1;
        var k :| 0 <= k < n - 1 && Position(l, k) + WriteWidth(l, k) == Position(l, n - 1) + Overhang(l, n - 1);
        assert Position(l, k) + WriteWidth(l, k) == Position(l, n) + Overhang(l, n);
      }
    }
  }

  /**
   * The buffer that createRecord allocates holds every attribute exactly when the
   * two bytes that getAttr and setAttr save on each bool, and the slack of
   * getRecordSize, cover what the last attributes overhang.
   */
  lemma RecordHoldsAll(l: Layout)
    requires l.Ok()
    ensures (forall n :: 0 <= n < |l.types| ==> Position(l, n) + WriteWidth(l, n) <= RecordSize(l)) <==>
      2 * Bools(l, |l.types|) + Slack(l, |l.types|) >= Overhang(l, |l.types|)
  {
    hide Position, WriteWidth, RecordSize, AttrOffset, Bools, Slack, Overhang;
    var n := |l.types|;
    RecordSizeIs(l);
    OffsetsDiffer(l, n);
    FurthestEnd(l, n);
    if n == 0 {
      NothingHeld(l);
    } else {
      var k :| 0 <= k < n && Position(l, k) + WriteWidth(l, k) == Position(l, n) + Overhang(l, n);
    }
  }

  lemma RecordSizeIs(l: Layout)
    requires l.Ok()
    ensures RecordSize(l) == 1 + AttrOffset(l, |l.types|) + Slack(l, |l.types|)
  {
    RecordSizeOff(l, |l.types|);
  }

  lemma NothingHeld(l: Layout)
    requires l.Ok()
    ensures Bools(l, 0) == Slack(l, 0) == Overhang(l, 0) == 0
  {
  }

  lemma {:induction false} PositionGrows(l: Layout, i: nat, j: nat)
    requires l.Ok() && i < j <= |l.types|
    ensures Position(l, i) + Stride(l.types[i], l.lens[i]) <= Position(l, j)
  {
    if i < j - 1 {
      PositionGrows(l, i, j - 1);
    }
  }

  // ---------- Reading and writing one attribute ----------

  /** The type getAttr uses: it turns attribute 1 into a string first. */
  function ReadType(l: Layout, n: nat): DataType
    requires n < |l.types|
  {
    if n == 1 then DT_STRING else l.types[n]
  }

  function ReadWidth(l: Layout, n: nat): nat
    requires l.Ok() && n < |l.types|
  {
    Width(ReadType(l, n), l.lens[n])
  }

  function WriteWidth(l: Layout, n: nat): nat
    requires l.Ok() && n < |l.types|
  {
    Width(l.types[n], l.lens[n])
  }

  /** The record holds attribute `n` for getAttr. */
  predicate CanRead(data: seq<byte>, l: Layout, n: nat) {
    l.Ok() && n < |l.types| && Position(l, n) + ReadWidth(l, n) <= |data|
  }

  function Decode(dt: DataType, b: seq<byte>): Value
    requires dt != DT_STRING ==> |b| == Width(dt, 0)
  {
    match dt
    case DT_INT => IntV(DecodeInt(b))
    case DT_STRING => StringV(b)
    case DT_FLOAT => FloatV(DecodeFloat(b))
    case DT_BOOL => BoolV(DecodeShort(b))
  }

  /** getAttr. */
  function GetAttr(data: seq<byte>, l: Layout, n: nat): (v: Value)
    requires CanRead(data, l, n)
    ensures v.Type() == ReadType(l, n)
  {
    var pos := Position(l, n);
    Decode(ReadType(l, n), data[pos..pos + ReadWidth(l, n)])
  }

  /** The value fits the attribute: its type, and for a string a buffer that covers the length copied. */
  predicate Suits(v: Value, l: Layout, n: nat) {
    l.Ok() && n < |l.types| && v.Type() == l.types[n] && (v.StringV? ==> l.lens[n] <= |v.s| + 1)
  }

  /** The record holds attribute `n` for setAttr, and the value suits it. */
  predicate CanWrite(data: seq<byte>, l: Layout, n: nat, v: Value) {
    Suits(v, l, n) && Position(l, n) + WriteWidth(l, n) <= |data|
  }

  /** The bytes that setAttr copies; a string's may include its final NUL. */
  function Encode(v: Value, len: nat): (b: seq<byte>)
    requires v.StringV? ==> len <= |v.s| + 1
    ensures |b| == Width(v.Type(), len)
  {
    match v
    case IntV(i) => EncodeInt(i)
    case StringV(s) => (s + [0])[..len]
    case FloatV(bits) => EncodeFloat(bits)
    case BoolV(b) => EncodeShort(b)
  }

  /** setAttr. */
  function SetAttr(data: seq<byte>, l: Layout, n: nat, v: Value): seq<byte>
    requires CanWrite(data, l, n, v)
  {
    Splice(data, Position(l, n), Encode(v, l.lens[n]))
  }

  lemma DecodeEncode(v: Value, len: nat)
    requires v.StringV? ==> len <= |v.s| + 1
    ensures Decode(v.Type(), Encode(v, len)) == v <==> (v.StringV? ==> |v.s| == len)
  {
    match v
    case IntV(i) => IntRoundTrip(i, EncodeInt(i));
    case StringV(s) => assert |s| == len ==> (s + [0])[..len] == s;
    case FloatV(bits) => FloatRoundTrip(bits, EncodeFloat(bits));
    case BoolV(b) => ShortRoundTrip(b, EncodeShort(b));
  }

  /** Different bytes decode to different values. */
  lemma DecodeInjective(dt: DataType, a: seq<byte>, b: seq<byte>)
    requires |a| == |b| && (dt != DT_STRING ==> |a| == Width(dt, 0))
    requires Decode(dt, a) == Decode(dt, b)
    ensures a == b
  {
    match dt
    case DT_INT => IntRoundTrip(0, a); IntRoundTrip(0, b);
    case DT_STRING =>
    case DT_FLOAT => FloatRoundTrip(0, a); FloatRoundTrip(0, b);
    case DT_BOOL => ShortRoundTrip(0, a); ShortRoundTrip(0, b);
  }

  // ---------- Lens laws ----------

  /**
   * getAttr after setAttr gives the value back exactly when a string fills its
   * field, and attribute 1 is a string to begin with.
   */
  lemma GetSet(data: seq<byte>, l: Layout, n: nat, v: Value)
    requires CanWrite(data, l, n, v) && CanRead(data, l, n)
    ensures GetAttr(SetAttr(data, l, n, v), l, n) == v <==>
      (n == 1 ==> l.types[1] == DT_STRING) && (v.StringV? ==> |v.s| == l.lens[n])
  {
    var pos := Position(l, n);
    var b := Encode(v, l.lens[n]);
    if n != 1 || l.types[1] == DT_STRING {
      assert SetAttr(data, l, n, v)[pos..pos + ReadWidth(l, n)] == b;
      DecodeEncode(v, l.lens[n]);
    }
  }

  /** What a string comes back as when it does not fill its field: cut off, or with the NUL behind it. */
  lemma GetSetString(data: seq<byte>, l: Layout, n: nat, s: seq<byte>)
    requires CanWrite(data, l, n, StringV(s)) && CanRead(data, l, n)
    ensures var back := if |s| < l.lens[n] then s + [0] else s[..l.lens[n]];
      GetAttr(SetAttr(data, l, n, StringV(s)), l, n) == StringV(back)
  {
    var pos, len := Position(l, n), l.lens[n];
    assert SetAttr(data, l, n, StringV(s))[pos..pos + len] == (s + [0])[..len];
    assert (s + [0])[..len] == if |s| < len then s + [0] else s[..len];
  }

  /** The last of two writes to an attribute wins, and the tombstone byte is never touched. */
  lemma SetSet(data: seq<byte>, l: Layout, n: nat, v: Value, w: Value)
    requires CanWrite(data, l, n, v) && CanWrite(data, l, n, w)
    ensures SetAttr(SetAttr(data, l, n, v), l, n, w) == SetAttr(data, l, n, w)
    ensures SetAttr(data, l, n, v)[0] == data[0]
  {
  }

  /** The bytes written for attribute `i` and those read for attribute `j` have none in common. */
  predicate Apart(l: Layout, i: nat, j: nat)
    requires l.Ok() && i < |l.types| && j < |l.types|
  {
    || WriteWidth(l, i) == 0
    || ReadWidth(l, j) == 0
    || Position(l, i) + WriteWidth(l, i) <= Position(l, j)
    || Position(l, j) + ReadWidth(l, j) <= Position(l, i)
  }

  /** setAttr on `i` never shows in getAttr on `j`. */
  ghost predicate Independent(l: Layout, i: nat, j: nat) {
    forall data, v :: CanWrite(data, l, i, v) && CanRead(data, l, j) ==>
      GetAttr(SetAttr(data, l, i, v), l, j) == GetAttr(data, l, j)
  }

  /** A value of each type whose bytes are all 255. */
  function Full(dt: DataType, len: nat): (v: Value)
    ensures v.Type() == dt && (v.StringV? ==> |v.s| == len)
  {
    match dt
    case DT_INT => IntV(-1)
    case DT_STRING => StringV(seq<byte>(len, _ => 255))
    case DT_FLOAT => FloatV(0xFFFF_FFFF)
    case DT_BOOL => BoolV(-1)
  }

  lemma FullBytes(dt: DataType, len: nat)
    ensures forall k :: 0 <= k < Width(dt, len) ==> Encode(Full(dt, len), len)[k] == 255
  {
  }

  /** Two attributes are independent if and only if their bytes are apart. */
  lemma IndependentIffApart(l: Layout, i: nat, j: nat)
    requires l.Ok() && i < |l.types| && j < |l.types|
    ensures Independent(l, i, j) <==> Apart(l, i, j)
  {
    if Apart(l, i, j) {
      forall data, v | CanWrite(data, l, i, v) && CanRead(data, l, j)
        ensures GetAttr(SetAttr(data, l, i, v), l, j) == GetAttr(data, l, j)
      {
        var pos := Position(l, j);
        assert SetAttr(data, l, i, v)[pos..pos + ReadWidth(l, j)] == data[pos..pos + ReadWidth(l, j)];
      }
    } else {
      Overlap(l, i, j);
    }
  }

  lemma Overlap(l: Layout, i: nat, j: nat)
    requires l.Ok() && i < |l.types| && j < |l.types| && !Apart(l, i, j)
    ensures !Independent(l, i, j)
  {
    hide Total, Decode, Encode;
    var pi, pj := Position(l, i), Position(l, j);
    var data := seq<byte>(pi + WriteWidth(l, i) + pj + ReadWidth(l, j), _ => 0);
    var v := Full(l.types[i], l.lens[i]);
    var after := SetAttr(data, l, i, v);
    FullBytes(l.types[i], l.lens[i]);
    var k := if pi < pj then pj else pi;
    assert after[k] == 255 && data[k] == 0;
    var a, b := after[pj..pj + ReadWidth(l, j)], data[pj..pj + ReadWidth(l, j)];
    assert a[k - pj] == 255 && b[k - pj] == 0;
    assert GetAttr(after, l, j) == Decode(ReadType(l, j), a) && GetAttr(data, l, j) == Decode(ReadType(l, j), b);
    if Decode(ReadType(l, j), a) == Decode(ReadType(l, j), b) {
      DecodeInjective(ReadType(l, j), a, b);
    }
  }

  /** Of attributes in order, only a bool can run into a later one: getAttr and setAttr give it no room. */
  lemma OnlyBoolsOverlap(l: Layout, i: nat, j: nat)
    requires l.Ok() && i < j < |l.types|
    ensures Apart(l, i, j) <==> l.types[i] != DT_BOOL || Position(l, i) + 2 <= Position(l, j) || ReadWidth(l, j) == 0
    ensures i != 1 ==>
      (Apart(l, j, i) <==> l.types[i] != DT_BOOL || Position(l, i) + 2 <= Position(l, j) || WriteWidth(l, j) == 0)
  {
    PositionGrows(l, i, j);
  }
}
