/** valueEquals, valueSmaller and the boolean operators of expr.c on two values. */
module Comparisons {
  import opened Bytes
  import opened Powers
  import opened Tables

  datatype Error = COMPARE_VALUE_OF_DIFFERENT_DATATYPE | BOOLEAN_EXPR_ARG_IS_NOT_BOOLEAN | UNDEFINED

  datatype Outcome<T> = Done(value: T) | Failed(error: Error)

  // ---------- The order on each type ----------

  /** strcmp(a, b) < 0, on bytes as unsigned. */
  predicate Before(a: seq<byte>, b: seq<byte>) {
    b != [] && (a == [] || a[0] < b[0] || (a[0] == b[0] && Before(a[1..], b[1..])))
  }

  predicate IsNaN(bits: float32) {
    bits % 0x8000_0000 > 0x7F80_0000
  }

  /** Sign and magnitude as one number: it orders the floats that are not NaN, and both zeros are 0. */
  function Key(bits: float32): int {
    if bits < 0x8000_0000 then bits else 0x8000_0000 - bits
  }

  predicate FloatLess(a: float32, b: float32) {
    !IsNaN(a) && !IsNaN(b) && Key(a) < Key(b)
  }

  predicate FloatSame(a: float32, b: float32) {
    !IsNaN(a) && !IsNaN(b) && Key(a) == Key(b)
  }

  /** Two values of one type compare equal. */
  predicate Same(l: Value, r: Value)
    requires l.Type() == r.Type()
  {
    match l
    case IntV(i) => i == r.i
    case StringV(s) => CString(s) == CString(r.s)
    case FloatV(bits) => FloatSame(bits, r.bits)
    case BoolV(b) => b == r.b
  }

  /** The first compares smaller; for bools this is what the switch was meant to compute. */
  predicate Less(l: Value, r: Value)
    requires l.Type() == r.Type()
  {
    match l
    case IntV(i) => i < r.i
    case StringV(s) => Before(CString(s), CString(r.s))
    case FloatV(bits) => FloatLess(bits, r.bits)
    case BoolV(b) => b < r.b
  }

  function FromBool(b: bool): (v: Value)
    ensures v.BoolV? && (v.b == 0 || v.b == 1)
  {
    BoolV(if b then 1 else 0)
  }

  function ValueEquals(l: Value, r: Value): Outcome<Value> {
    if l.Type() != r.Type() then Failed(COMPARE_VALUE_OF_DIFFERENT_DATATYPE) else Done(FromBool(Same(l, r)))
  }

  /** The bool case falls through to strcmp on two bools taken for pointers. */
  function ValueSmaller(l: Value, r: Value): Outcome<Value> {
    if l.Type() != r.Type() then Failed(COMPARE_VALUE_OF_DIFFERENT_DATATYPE)
    else if l.BoolV? then Failed(UNDEFINED)
    else Done(FromBool(Less(l, r)))
  }

  function BoolNot(v: Value): Outcome<Value> {
    if v.BoolV? then Done(FromBool(v.b == 0)) else Failed(BOOLEAN_EXPR_ARG_IS_NOT_BOOLEAN)
  }

  /** boolV stored into the int -1 that evalExpr prepared: the low half changes, the type stays DT_INT. */
  function StoredInInt(b: bool): Value {
    IntV(if b then -0xFFFF else -0x1_0000)
  }

  function BoolAnd(l: Value, r: Value): Outcome<Value> {
    if l.BoolV? && r.BoolV? then Done(StoredInInt(l.b != 0 && r.b != 0)) else Failed(BOOLEAN_EXPR_ARG_IS_NOT_BOOLEAN)
  }

  function BoolOr(l: Value, r: Value): Outcome<Value> {
    if l.BoolV? && r.BoolV? then Done(StoredInInt(l.b != 0 || r.b != 0)) else Failed(BOOLEAN_EXPR_ARG_IS_NOT_BOOLEAN)
  }

  /** The bytes of that int are those of -1 with the bool's two bytes over the first two. */
  lemma StoredBytes(b: bool)
    ensures EncodeInt(StoredInInt(b).i) == EncodeShort(FromBool(b).b) + EncodeInt(-1)[2..]
  {
  }

  // ---------- Strict total orders ----------

  lemma {:induction false} BeforeTotal(a: seq<byte>, b: seq<byte>)
    ensures !(Before(a, b) && Before(b, a)) && !Before(a, a)
    ensures Before(a, b) || a == b || Before(b, a)
  {
    if a != [] && b != [] {
      BeforeTotal(a[1..], b[1..]);
      assert a[0] == b[0] && a[1..] == b[1..] ==> a == [a[0]] + a[1..] == b;
    }
    if a != [] {
      BeforeTotal(a[1..], a[1..]);
    }
  }

  lemma {:induction false} BeforeTransitive(a: seq<byte>, b: seq<byte>, c: seq<byte>)
    requires Before(a, b) && Before(b, c)
    ensures Before(a, c)
  {
    if a != [] && a[0] == b[0] == c[0] {
      BeforeTransitive(a[1..], b[1..], c[1..]);
    }
  }

  /** Among values of one type, exactly one of smaller, equal and greater holds, unless a NaN is involved. */
  lemma ExactlyOne(l: Value, r: Value)
    requires l.Type() == r.Type()
    ensures (l.FloatV? && (IsNaN(l.bits) || IsNaN(r.bits))) <==> !Less(l, r) && !Same(l, r) && !Less(r, l)
    ensures !(Less(l, r) && Less(r, l)) && !(Less(l, r) && Same(l, r))
  {
    if l.StringV? {
      BeforeTotal(CString(l.s), CString(r.s));
    }
  }

  lemma LessTransitive(a: Value, b: Value, c: Value)
    requires a.Type() == b.Type() == c.Type() && Less(a, b) && Less(b, c)
    ensures Less(a, c)
  {
    if a.StringV? {
      BeforeTransitive(CString(a.s), CString(b.s), CString(c.s));
    }
  }

  /** Equality is an equivalence that the order respects; only NaN is not equal to itself. */
  lemma SameCongruence(a: Value, b: Value, c: Value)
    requires a.Type() == b.Type() == c.Type()
    ensures Same(a, a) <==> !(a.FloatV? && IsNaN(a.bits))
    ensures Same(a, b) ==> Same(b, a) && (Same(a, c) <==> Same(b, c))
    ensures Same(a, b) ==> (Less(a, c) <==> Less(b, c)) && (Less(c, a) <==> Less(c, b))
  {
  }

  // ---------- Which order it is ----------

  /**
   * The size of a float, in units of 2^-149, from the exponent and fraction fields
   * of binary32: subnormal below exponent 1, infinity like the next exponent.
   */
  function Size(bits: float32): nat {
    var exponent, fraction := bits % 0x8000_0000 / 0x80_0000, bits % 0x80_0000;
    if exponent == 0 then fraction else (0x80_0000 + fraction) * Pow2(exponent - 1)
  }

  /** The number that the bits of a float stand for, in units of 2^-149. */
  function Number(bits: float32): int {
    if bits < 0x8000_0000 then Size(bits) else -(Size(bits) as int)
  }

  /** The size of a float from its fields `e` and `f`. */
  function SizeOf(e: nat, f: nat): nat {
    if e == 0 then f else (0x80_0000 + f) * Pow2(e - 1)
  }

  lemma SizeGrows(e: nat, f: nat, e': nat, f': nat)
    requires f < 0x80_0000 && f' < 0x80_0000 && (e < e' || (e == e' && f < f'))
    ensures SizeOf(e, f) < SizeOf(e', f')
  {
    if e == e' {
      if e > 0 {
        Times(0x80_0000 + f, 0x80_0000 + f', Pow2(e - 1));
      }
    } else {
      var p := Pow2(e' - 1);
      Pow2Grows(0, e' - 1);
      AtLeastHalf(0x80_0000 + f', p);
      if e > 0 {
        Pow2Grows(e, e' - 1);
        assert Pow2(e) == 2 * Pow2(e - 1);
        Times(0x80_0000 + f, 0x100_0000, Pow2(e - 1));
      }
    }
  }

  lemma Times(a: nat, b: nat, p: nat)
    requires a < b && p > 0
    ensures a * p < b * p
  {
    assert b * p == a * p + (b - a) * p;
    assert (b - a) * p >= p by {
      assert (b - a) * p == (b - a - 1) * p + p;
    }
  }

  lemma AtLeastHalf(a: nat, p: nat)
    requires a >= 0x80_0000
    ensures a * p >= 0x80_0000 * p
  {
    assert a * p == 0x80_0000 * p + (a - 0x80_0000) * p;
  }

  /** Not a number: the largest exponent with a fraction. */
  lemma NaNIs(bits: float32)
    ensures IsNaN(bits) <==> bits % 0x8000_0000 / 0x80_0000 == 255 && bits % 0x80_0000 != 0
  {
    Fields(bits);
  }

  /** A larger magnitude, as bits, is a larger size. */
  lemma SizeOrder(a: float32, b: float32)
    ensures a % 0x8000_0000 < b % 0x8000_0000 <==> Size(a) < Size(b)
    ensures a % 0x8000_0000 == b % 0x8000_0000 <==> Size(a) == Size(b)
    ensures Size(a) == 0 <==> a % 0x8000_0000 == 0
  {
    hide Pow2;
    var ma, mb := a % 0x8000_0000, b % 0x8000_0000;
    Fields(a);
    Fields(b);
    var ea, fa, eb, fb := ma / 0x80_0000, a % 0x80_0000, mb / 0x80_0000, b % 0x80_0000;
    assert Size(a) == SizeOf(ea, fa) && Size(b) == SizeOf(eb, fb);
    if ma < mb {
      SizeGrows(ea, fa, eb, fb);
    } else if mb < ma {
      SizeGrows(eb, fb, ea, fa);
    } else {
      assert ea == eb && fa == fb;
    }
    if ma > 0 {
      SizeGrows(0, 0, ea, fa);
    }
  }

  lemma Fields(a: float32)
    ensures var m := a % 0x8000_0000; m == 0x80_0000 * (m / 0x80_0000) + a % 0x80_0000
  {
  }

  /** The comparison of floats as bits is that of the numbers they stand for. */
  lemma FloatOrder(a: float32, b: float32)
    ensures Key(a) < Key(b) <==> Number(a) < Number(b)
    ensures Key(a) == Key(b) <==> Number(a) == Number(b)
  {
    hide Size;
    SizeOrder(a, b);
    SizeOrder(b, a);
  }

  /** `a` ends where `b` goes on, or has the smaller byte where the two first differ. */
  ghost predicate StringBelow(a: seq<byte>, b: seq<byte>) {
    exists k :: FirstDifference(a, b, k)
  }

  predicate FirstDifference(a: seq<byte>, b: seq<byte>, k: int) {
    0 <= k <= |a| && k < |b| && a[..k] == b[..k] && (k == |a| || a[k] < b[k])
  }

  lemma {:induction false} StringOrder(a: seq<byte>, b: seq<byte>)
    ensures Before(a, b) <==> StringBelow(a, b)
  {
    if a == [] && b != [] {
      assert FirstDifference(a, b, 0);
    } else if a != [] && b != [] {
      if a[0] < b[0] {
        assert FirstDifference(a, b, 0);
      } else if a[0] == b[0] {
        StringOrder(a[1..], b[1..]);
        forall k | 0 <= k
          ensures FirstDifference(a[1..], b[1..], k) <==> FirstDifference(a, b, k + 1)
        {
          HeadsAgree(a, b, k);
        }
        assert !FirstDifference(a, b, 0);
        if StringBelow(a, b) {
          var k :| FirstDifference(a, b, k);
          assert FirstDifference(a[1..], b[1..], k - 1);
        }
      } else {
        forall k
          ensures !FirstDifference(a, b, k)
        {
          if k > 0 && k <= |a| && k < |b| {
            assert a[..k][0] != b[..k][0];
          }
        }
      }
    }
  }

  lemma HeadsAgree(a: seq<byte>, b: seq<byte>, k: nat)
    requires a != [] && b != [] && a[0] == b[0]
    ensures FirstDifference(a[1..], b[1..], k) <==> FirstDifference(a, b, k + 1)
  {
    if k + 1 <= |a| && k + 1 < |b| {
      assert a[..k + 1] == [a[0]] + a[1..][..k];
      assert b[..k + 1] == [b[0]] + b[1..][..k];
      assert a[..k + 1][1..] == a[1..][..k] && b[..k + 1][1..] == b[1..][..k];
    }
  }

  // ---------- What the operators compute ----------

  /** Two values of one type are the same: number, text up to its NUL, or truth value. */
  predicate Equals(l: Value, r: Value)
    requires l.Type() == r.Type()
  {
    match l
    case IntV(i) => i == r.i
    case StringV(s) => CString(s) == CString(r.s)
    case FloatV(bits) => !IsNaN(bits) && !IsNaN(r.bits) && Number(bits) == Number(r.bits)
    case BoolV(b) => b == r.b
  }

  /** The left value is below the right one, among values of one type. */
  ghost predicate Below(l: Value, r: Value)
    requires l.Type() == r.Type()
  {
    match l
    case IntV(i) => i < r.i
    case StringV(s) => StringBelow(CString(s), CString(r.s))
    case FloatV(bits) => !IsNaN(bits) && !IsNaN(r.bits) && Number(bits) < Number(r.bits)
    case BoolV(b) => b < r.b
  }

  /** The order and the equality behind the two operators. */
  lemma OrderIs(l: Value, r: Value)
    requires l.Type() == r.Type()
    ensures Same(l, r) <==> Equals(l, r)
    ensures Less(l, r) <==> Below(l, r)
  {
    hide Number, Key, StringBelow, Before, IsNaN;
    match l
    case IntV(_) =>
    case StringV(s) => StringOrder(CString(s), CString(r.s));
    case FloatV(bits) => FloatOrder(bits, r.bits);
    case BoolV(_) =>
  }

  /** valueEquals: 1 if the values are equal, 0 if not, and an error exactly when their types differ. */
  lemma EqualsIs(l: Value, r: Value)
    ensures l.Type() == r.Type() ==> ValueEquals(l, r) == Done(BoolV(if Equals(l, r) then 1 else 0))
    ensures l.Type() != r.Type() ==> ValueEquals(l, r) == Failed(COMPARE_VALUE_OF_DIFFERENT_DATATYPE)
  {
    if l.Type() == r.Type() {
      hide Same, Equals;
      OrderIs(l, r);
    }
  }

  /** valueSmaller: 1 if the left value is below the right one, 0 if not; bools are not ordered. */
  lemma SmallerIs(l: Value, r: Value)
    ensures l.Type() == r.Type() && !l.BoolV? && Below(l, r) ==> ValueSmaller(l, r) == Done(BoolV(1))
    ensures l.Type() == r.Type() && !l.BoolV? && !Below(l, r) ==> ValueSmaller(l, r) == Done(BoolV(0))
    ensures l.Type() == r.Type() && l.BoolV? ==> ValueSmaller(l, r) == Failed(UNDEFINED)
    ensures l.Type() != r.Type() ==> ValueSmaller(l, r) == Failed(COMPARE_VALUE_OF_DIFFERENT_DATATYPE)
  {
    if l.Type() == r.Type() {
      hide Less, Below;
      OrderIs(l, r);
    }
  }

  /** boolNot: 1 exactly for a bool 0, and an error exactly for what is no bool. */
  lemma NotIs(v: Value)
    ensures v == BoolV(0) ==> BoolNot(v) == Done(BoolV(1))
    ensures v.BoolV? && v.b != 0 ==> BoolNot(v) == Done(BoolV(0))
    ensures !v.BoolV? ==> BoolNot(v) == Failed(BOOLEAN_EXPR_ARG_IS_NOT_BOOLEAN)
  {
  }
}
