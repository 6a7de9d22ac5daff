/** serializeValue and stringToValue: values as text and back. Floats as text are not modelled. */
module ValueText {
  import opened Bytes
  import opened Tables
  import opened Comparisons
  import opened VarString

  // ---------- Printing ----------

  function Digits(n: nat): (s: seq<byte>)
    ensures s != [] && forall k :: 0 <= k < |s| ==> 48 <= s[k] < 58
  {
    if n < 10 then [48 + n] else Digits(n / 10) + [48 + n % 10]
  }

  /** sprintf with %i. */
  function PrintInt(n: int): seq<byte> {
    if n < 0 then [45] + Digits(-n) else Digits(n)
  }

  const TRUE_TEXT: seq<byte> := [116, 114, 117, 101]
  const FALSE_TEXT: seq<byte> := [102, 97, 108, 115, 101]

  /** serializeValue; APPEND's buffer of 10000 bounds the strings it can print. */
  function Print(v: Value): seq<byte>
    requires !v.FloatV? && (v.StringV? ==> |CString(v.s)| < 10000)
  {
    match v
    case IntV(i) => PrintInt(i)
    case StringV(s) => CString(s)
    case BoolV(b) => if b != 0 then TRUE_TEXT else FALSE_TEXT
  }

  // ---------- Parsing ----------

  predicate IsSpace(c: byte) {
    c == 32 || 9 <= c <= 13
  }

  predicate IsDigit(c: byte) {
    48 <= c < 58
  }

  /** The number that the leading digits of `s` add to `acc`. */
  function DigitsValue(s: seq<byte>, acc: nat): nat {
    if s == [] || !IsDigit(s[0]) then acc else DigitsValue(s[1..], 10 * acc + (s[0] - 48))
  }

  /** atoi, before it is squeezed into an int. */
  function Atoi(s: seq<byte>): int {
    if s != [] && IsSpace(s[0]) then Atoi(s[1..])
    else if s != [] && s[0] == 45 then -(DigitsValue(s[1..], 0) as int)
    else if s != [] && s[0] == 43 then DigitsValue(s[1..], 0)
    else DigitsValue(s, 0)
  }

  const LETTER_I: byte := 105
  const LETTER_S: byte := 115
  const LETTER_B: byte := 98
  const LETTER_F: byte := 102

  /** stringToValue on a C string; C leaves atoi undefined when the number is no int. */
  function StringToValue(val: seq<byte>): Outcome<Value>
    requires val != [] ==> val[0] != LETTER_F
  {
    if val == [] then Done(IntV(-1))
    else if val[0] == LETTER_I then
      var n := Atoi(val[1..]);
      if -0x8000_0000 <= n < 0x8000_0000 then Done(IntV(n)) else Failed(UNDEFINED)
    else if val[0] == LETTER_S then Done(StringV(val[1..]))
    else if val[0] == LETTER_B then Done(FromBool(1 < |val| && val[1] == 116))
    else Done(IntV(-1))
  }

  // ---------- Round trip ----------

  lemma {:induction false} DigitsValueMore(s: seq<byte>, d: byte, acc: nat)
    requires IsDigit(d) && forall k :: 0 <= k < |s| ==> IsDigit(s[k])
    ensures DigitsValue(s + [d], acc) == 10 * DigitsValue(s, acc) + (d - 48)
  {
    if s == [] {
      assert [d][1..] == [];
    } else {
      assert (s + [d])[1..] == s[1..] + [d];
      DigitsValueMore(s[1..], d, 10 * acc + (s[0] - 48));
    }
  }

  lemma {:induction false} DigitsReadBack(n: nat)
    ensures DigitsValue(Digits(n), 0) == n
  {
    if n < 10 {
      assert Digits(n)[1..] == [];
    } else {
      DigitsReadBack(n / 10);
      DigitsValueMore(Digits(n / 10), 48 + n % 10, 0);
    }
  }

  /** Every int, the smallest included, is read back. */
  lemma IntReadBack(n: int)
    ensures Atoi(PrintInt(n)) == n
  {
    var s := PrintInt(n);
    if n < 0 {
      assert s[1..] == Digits(-n);
      DigitsReadBack(-n);
    } else {
      DigitsReadBack(n);
    }
  }

  // ---------- The text itself ----------

  predicate AllDigits(s: seq<byte>) {
    forall k :: 0 <= k < |s| ==> IsDigit(s[k])
  }

  /** A decimal numeral: digits, and no zero in front. */
  predicate Numeral(s: seq<byte>) {
    s != [] && AllDigits(s) && (|s| > 1 ==> s[0] != '0' as int)
  }

  /** Digits prints the numeral of its number, and there is no other. */
  lemma {:induction false} DigitsNumeral(n: nat)
    ensures Numeral(Digits(n)) && (n > 0 ==> Digits(n)[0] != '0' as int)
  {
    if n >= 10 {
      DigitsNumeral(n / 10);
    }
  }

  lemma {:induction false} NumeralUnique(s: seq<byte>, n: nat)
    requires Numeral(s) && DigitsValue(s, 0) == n
    ensures s == Digits(n)
  {
    var init, last := s[..|s| - 1], s[|s| - 1];
    assert s == init + [last];
    DigitsValueMore(init, last, 0);
    var m := DigitsValue(init, 0);
    assert n == 10 * m + (last - 48);
    if init == [] {
      assert m == 0;
    } else {
      NumeralUnique(init, m);
      NumeralPositive(init);
      assert n / 10 == m && n % 10 == last - 48;
    }
  }

  /** A numeral that does not start with a zero is not 0. */
  lemma NumeralPositive(s: seq<byte>)
    requires s != [] && AllDigits(s) && s[0] != '0' as int
    ensures DigitsValue(s, 0) > 0
  {
    DigitsValueGrows(s[1..], s[0] - 48);
  }

  lemma {:induction false} DigitsValueGrows(s: seq<byte>, acc: nat)
    ensures DigitsValue(s, acc) >= acc
  {
    if s != [] && IsDigit(s[0]) {
      DigitsValueGrows(s[1..], 10 * acc + (s[0] - 48));
    }
  }

  /** An int prints as the numeral of its size, behind a '-' exactly if it is negative. */
  lemma IntText(n: int, s: seq<byte>)
    ensures var digits := if n < 0 then PrintInt(n)[1..] else PrintInt(n);
      && Numeral(digits) && DigitsValue(digits, 0) == (if n < 0 then -n else n)
      && (n < 0 ==> PrintInt(n)[0] == '-' as int)
      && (Numeral(s) && DigitsValue(s, 0) == (if n < 0 then -n else n) ==> s == digits)
  {
    var size: nat := if n < 0 then -n else n;
    var digits := if n < 0 then PrintInt(n)[1..] else PrintInt(n);
    assert digits == Digits(size);
    DigitsNumeral(size);
    DigitsReadBack(size);
    if Numeral(s) && DigitsValue(s, 0) == size {
      NumeralUnique(s, size);
    }
  }

  /** The bytes of an ASCII text. */
  function Ascii(text: string): seq<byte>
    requires forall k :: 0 <= k < |text| ==> text[k] < 128 as char
  {
    seq(|text|, k requires 0 <= k < |text| => text[k] as int)
  }

  /** Every bool other than 0 prints as true. */
  lemma BoolText(b: int16)
    ensures Print(BoolV(b)) == if b == 0 then Ascii("false") else Ascii("true")
  {
  }

  // ---------- What atoi makes of other texts ----------

  /** Blanks, tabs, newlines, vertical tabs, form feeds and carriage returns. */
  predicate AllSpace(s: seq<byte>) {
    forall k :: 0 <= k < |s| ==> s[k] in [32, 9, 10, 11, 12, 13]
  }

  lemma {:induction false} AtoiSkips(spaces: seq<byte>, s: seq<byte>)
    requires AllSpace(spaces)
    ensures Atoi(spaces + s) == Atoi(s)
  {
    if spaces == [] {
      assert spaces + s == s;
    } else {
      assert (spaces + s)[1..] == spaces[1..] + s;
      AtoiSkips(spaces[1..], s);
    }
  }

  lemma {:induction false} DigitsStop(s: seq<byte>, rest: seq<byte>, acc: nat)
    requires AllDigits(s) && (rest == [] || !IsDigit(rest[0]))
    ensures DigitsValue(s + rest, acc) == DigitsValue(s, acc)
  {
    if s == [] {
      assert s + rest == rest;
    } else {
      assert (s + rest)[1..] == s[1..] + rest;
      DigitsStop(s[1..], rest, 10 * acc + (s[0] - 48));
    }
  }

  /** A sign of either kind and digits, up to what is no digit; 0 where there is none. */
  lemma AtoiSigned(sign: byte, digits: seq<byte>, rest: seq<byte>)
    requires sign == '-' as int || sign == '+' as int
    requires AllDigits(digits) && (rest == [] || !IsDigit(rest[0]))
    ensures Atoi([sign] + (digits + rest)) == (DigitsValue(digits, 0) as int) * if sign == '-' as int then -1 else 1
    ensures digits == [] ==> DigitsValue(digits, 0) == 0
  {
    DigitsStop(digits, rest, 0);
    assert ([sign] + (digits + rest))[1..] == digits + rest;
  }

  /** Leading white space, then a sign and digits, or digits alone. */
  lemma AtoiReads(spaces: seq<byte>, sign: byte, digits: seq<byte>, rest: seq<byte>)
    requires sign == '-' as int || sign == '+' as int
    requires AllSpace(spaces) && AllDigits(digits) && (rest == [] || !IsDigit(rest[0]))
    ensures Atoi(spaces + ([sign] + (digits + rest))) ==
      (DigitsValue(digits, 0) as int) * if sign == '-' as int then -1 else 1
    ensures digits != [] ==> Atoi(spaces + (digits + rest)) == DigitsValue(digits, 0)
  {
    hide Atoi;
    AtoiSkips(spaces, [sign] + (digits + rest));
    AtoiSigned(sign, digits, rest);
    AtoiSkips(spaces, digits + rest);
    if digits != [] {
      AtoiUnsigned(digits, rest);
    }
  }

  lemma AtoiUnsigned(digits: seq<byte>, rest: seq<byte>)
    requires digits != [] && AllDigits(digits) && (rest == [] || !IsDigit(rest[0]))
    ensures Atoi(digits + rest) == DigitsValue(digits, 0)
  {
    hide DigitsValue;
    DigitsStop(digits, rest, 0);
    assert IsDigit((digits + rest)[0]);
  }

  /** What is no number reads as 0. */
  lemma AtoiNothing(s: seq<byte>)
    requires s == [] || !(IsSpace(s[0]) || IsDigit(s[0]) || s[0] == '-' as int || s[0] == '+' as int)
    ensures Atoi(s) == 0
  {
  }

  /** The letter decides: 'i', 's' and 'b' read a value of their type, anything else is the int -1. */
  lemma ParseByLetter(val: seq<byte>)
    requires val != [] ==> val[0] != 'f' as int
    ensures val == [] || val[0] !in Ascii("isb") ==> StringToValue(val) == Done(IntV(-1))
    ensures val != [] && val[0] == 's' as int ==> StringToValue(val) == Done(StringV(val[1..]))
    ensures val != [] && val[0] == 'b' as int ==>
      StringToValue(val) == Done(BoolV(if 1 < |val| && val[1] == 't' as int then 1 else 0))
    ensures val != [] && val[0] == 'i' as int ==>
      (StringToValue(val).Done? <==> -0x8000_0000 <= Atoi(val[1..]) < 0x8000_0000)
    ensures val != [] && val[0] == 'i' as int && StringToValue(val).Done? ==>
      StringToValue(val).value.IntV? && StringToValue(val).value.i == Atoi(val[1..])
  {
    var letters := Ascii("isb");
    assert letters[0] == LETTER_I && letters[1] == LETTER_S && letters[2] == LETTER_B;
  }

  // ---------- Letters and values ----------

  function Letter(v: Value): byte
    requires !v.FloatV?
  {
    match v
    case IntV(_) => LETTER_I
    case StringV(_) => LETTER_S
    case BoolV(_) => LETTER_B
  }

  lemma CStringPlain(s: seq<byte>)
    ensures CString(s) == s <==> 0 !in s
  {
    if 0 !in s {
      CStringUnique(s, s);
    }
  }

  /** A value comes back from its text exactly when a bool is 0 or 1 and a string has no NUL. */
  lemma PrintParseIff(v: Value)
    requires !v.FloatV? && (v.StringV? ==> |CString(v.s)| < 10000)
    ensures StringToValue([Letter(v)] + Print(v)) == Done(v) <==>
      (v.BoolV? ==> v.b == 0 || v.b == 1) && (v.StringV? ==> 0 !in v.s)
  {
    var text := [Letter(v)] + Print(v);
    assert text[1..] == Print(v);
    match v
    case IntV(i) => IntReadBack(i);
    case StringV(s) => CStringPlain(s);
    case BoolV(_) => assert text[1] == Print(v)[0];
  }

  /** serializeValue through a growable string. */
  method SerializeValue(v: Value) returns (s: seq<byte>)
    requires !v.FloatV? && (v.StringV? ==> |CString(v.s)| < 10000)
    ensures s == Print(v)
  {
    var result := new VarString();
    match v {
      case IntV(i) => result.Append(PrintInt(i));
      case StringV(t) => result.Append(CString(t));
      case BoolV(b) => result.Append(if b != 0 then TRUE_TEXT else FALSE_TEXT);
    }
    s := result.GetString();
  }
}
