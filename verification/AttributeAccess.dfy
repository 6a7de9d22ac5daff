/** The attribute calls in place: loops over a schema, bytes of a record, and getAttr's write to the schema. */
module AttributeAccess {
  import opened Bytes
  import opened Tables
  import A = Attributes

  class Schema {
    var dataTypes: seq<DataType>
    var typeLength: seq<nat>

    ghost function Layout(): Layout
      reads this
    {
      Tables.Layout(dataTypes, typeLength)
    }

    constructor (dataTypes: seq<DataType>, typeLength: seq<nat>)
      ensures this.dataTypes == dataTypes && this.typeLength == typeLength
    {
      this.dataTypes, this.typeLength := dataTypes, typeLength;
    }
  }

  /** getRecordSize. */
  method GetRecordSize(schema: Schema) returns (memorySize: nat)
    requires schema.Layout().Ok()
    ensures memorySize == A.RecordSize(schema.Layout())
  {
    memorySize := 0;
    var k := 0;
    while k < |schema.dataTypes|
      invariant k <= |schema.dataTypes| && memorySize == A.Total(schema.Layout(), A.HandlerSize, k)
    {
      memorySize := memorySize + match schema.dataTypes[k]
        case DT_INT => 4
        case DT_STRING => 4
        case DT_FLOAT => schema.typeLength[k]
        case DT_BOOL => 2;
      k := k + 1;
    }
    memorySize := memorySize + 1;
  }

  /** The walk at the start of getAttr and setAttr. */
  method Locate(schema: Schema, attrNum: nat) returns (pos: nat)
    requires schema.Layout().Ok() && attrNum <= |schema.dataTypes|
    ensures pos == A.Position(schema.Layout(), attrNum)
  {
    pos := 1;
    var ctr := 0;
    while ctr < attrNum
      invariant ctr <= attrNum && pos == A.Position(schema.Layout(), ctr)
    {
      if schema.dataTypes[ctr] == DT_STRING {
        pos := pos + schema.typeLength[ctr];
      } else if schema.dataTypes[ctr] != DT_BOOL {
        pos := pos + 4;
      }
      ctr := ctr + 1;
    }
  }

  /** attrOffset. */
  method AttrOffset(schema: Schema, attrNum: nat) returns (offset: nat)
    requires schema.Layout().Ok() && attrNum <= |schema.dataTypes|
    ensures offset == A.AttrOffset(schema.Layout(), attrNum)
  {
    offset := 0;
    var attrPos := 0;
    while attrPos < attrNum
      invariant attrPos <= attrNum && offset == A.AttrOffset(schema.Layout(), attrPos)
    {
      match schema.dataTypes[attrPos] {
        case DT_STRING => offset := offset + schema.typeLength[attrPos];
        case DT_INT => offset := offset + 4;
        case DT_FLOAT => offset := offset + 4;
        case DT_BOOL => offset := offset + 2;
      }
      attrPos := attrPos + 1;
    }
  }

  /** getAttr. It overwrites the type of attribute 1 before it looks at it. */
  method GetAttr(record: array<byte>, schema: Schema, attrNum: nat) returns (value: Value)
    requires A.CanRead(record[..], schema.Layout(), attrNum)
    modifies schema`dataTypes
    ensures value == A.GetAttr(record[..], old(schema.Layout()), attrNum)
    ensures schema.dataTypes == if attrNum == 1 then old(schema.dataTypes)[1 := DT_STRING] else old(schema.dataTypes)
  {
    var pos := Locate(schema, attrNum);
    ghost var end := pos + A.ReadWidth(schema.Layout(), attrNum);
    assert record[..][pos..end] == record[pos..end];
    if attrNum == 1 {
      schema.dataTypes := schema.dataTypes[1 := DT_STRING];
    }
    match schema.dataTypes[attrNum] {
      case DT_INT => value := IntV(DecodeInt(record[pos..pos + 4]));
      case DT_FLOAT => value := FloatV(DecodeFloat(record[pos..pos + 4]));
      case DT_BOOL => value := BoolV(DecodeShort(record[pos..pos + 2]));
      case DT_STRING => value := StringV(record[pos..pos + schema.typeLength[attrNum]]);
    }
  }

  /** setAttr: memcpy of the value's bytes into the record. */
  method SetAttr(record: array<byte>, schema: Schema, attrNum: nat, value: Value)
    requires A.CanWrite(record[..], schema.Layout(), attrNum, value)
    modifies record
    ensures record[..] == A.SetAttr(old(record[..]), schema.Layout(), attrNum, value)
  {
    var pos := Locate(schema, attrNum);
    var bytes: seq<byte>;
    match value {
      case BoolV(b) => bytes := EncodeShort(b);
      case StringV(s) => bytes := (s + [0])[..schema.typeLength[attrNum]];
      case FloatV(bits) => bytes := EncodeFloat(bits);
      case IntV(i) => bytes := EncodeInt(i);
    }
    forall k | 0 <= k < |bytes| {
      record[pos + k] := bytes[k];
    }
    assert record[..] == A.SetAttr(old(record[..]), schema.Layout(), attrNum, value);
  }
}
