/** tables.h: data types, values and the parts of a schema that fix a record's layout. */
module Tables {
  import opened Bytes

  datatype DataType = DT_INT | DT_STRING | DT_FLOAT | DT_BOOL

  /** The 32 bits of a C float. */
  type float32 = n: nat | n < 0x1_0000_0000

  /**
   * Value. A string is the bytes of its buffer before the final NUL, a bool is
   * the short that dt.h makes of it.
   */
  datatype Value =
    | IntV(i: int32)
    | StringV(s: seq<byte>)
    | FloatV(bits: float32)
    | BoolV(b: int16)
  {
    function Type(): DataType {
      match this
      case IntV(_) => DT_INT
      case StringV(_) => DT_STRING
      case FloatV(_) => DT_FLOAT
      case BoolV(_) => DT_BOOL
    }
  }

  /** dataTypes and typeLength of a Schema. */
  datatype Layout = Layout(types: seq<DataType>, lens: seq<nat>)
  {
    predicate Ok() {
      |types| == |lens|
    }
  }

  /** The bytes of a float, little-endian. */
  function EncodeFloat(bits: float32): (b: seq<byte>)
    ensures |b| == 4
  {
    EncodeInt(if bits < 0x8000_0000 then bits else bits - 0x1_0000_0000)
  }

  function DecodeFloat(b: seq<byte>): float32
    requires |b| == 4
  {
    var n := DecodeInt(b);
    if n < 0 then n + 0x1_0000_0000 else n
  }

  lemma FloatRoundTrip(bits: float32, b: seq<byte>)
    requires |b| == 4
    ensures DecodeFloat(EncodeFloat(bits)) == bits
    ensures EncodeFloat(DecodeFloat(b)) == b
  {
    IntRoundTrip(if bits < 0x8000_0000 then bits else bits - 0x1_0000_0000, b);
  }
}
