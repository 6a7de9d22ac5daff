/** Bytes, and the little-endian, two's complement layout of C's int and short. */
module Bytes {
  type byte = b: int | 0 <= b < 256

  type int32 = n: int | -0x8000_0000 <= n < 0x8000_0000

  type int16 = n: int | -0x8000 <= n < 0x8000

  /** The four bytes that `*(int *) p = n` stores. */
  function EncodeInt(n: int32): (b: seq<byte>)
    ensures |b| == 4
  {
    var u := if n < 0 then n + 0x1_0000_0000 else n;
    [u % 0x100, u / 0x100 % 0x100, u / 0x1_0000 % 0x100, u / 0x100_0000]
  }

  function Unsigned(b0: int, b1: int, b2: int, b3: int): int {
    b0 + 0x100 * b1 + 0x1_0000 * b2 + 0x100_0000 * b3
  }

  /** The int that `*(int *) p` reads. */
  function DecodeInt(b: seq<byte>): int32
    requires |b| == 4
  {
    var u := Unsigned(b[0], b[1], b[2], b[3]);
    if u < 0x8000_0000 then u else u - 0x1_0000_0000
  }

  function EncodeShort(n: int16): (b: seq<byte>)
    ensures |b| == 2
  {
    var u := if n < 0 then n + 0x1_0000 else n;
    [u % 0x100, u / 0x100]
  }

  function DecodeShort(b: seq<byte>): int16
    requires |b| == 2
  {
    var u := Unsigned(b[0], b[1], 0, 0);
    if u < 0x8000 then u else u - 0x1_0000
  }

  /** EncodeInt and DecodeInt are inverse to each other. */
  lemma IntRoundTrip(n: int32, b: seq<byte>)
    requires |b| == 4
    ensures DecodeInt(EncodeInt(n)) == n
    ensures EncodeInt(DecodeInt(b)) == b
  {
    Digits(if n < 0 then n + 0x1_0000_0000 else n);
    FromDigits(b[0], b[1], b[2], b[3]);
  }

  lemma Digits(u: nat)
    requires u < 0x1_0000_0000
    ensures u == Unsigned(u % 0x100, u / 0x100 % 0x100, u / 0x1_0000 % 0x100, u / 0x100_0000)
    ensures u / 0x100_0000 < 0x100
  {
    var v := u / 0x100;
    var w := v / 0x100;
    assert w == u / 0x1_0000;
    assert w / 0x100 == u / 0x100_0000;
  }

  lemma FromDigits(a: byte, b: byte, c: byte, d: byte)
    ensures var u := Unsigned(a, b, c, d);
      u % 0x100 == a && u / 0x100 % 0x100 == b && u / 0x1_0000 % 0x100 == c && u / 0x100_0000 == d
  {
    var u := Unsigned(a, b, c, d);
    var v, w := Unsigned(b, c, d, 0), Unsigned(c, d, 0, 0);
    LowDigit(a, v);
    LowDigit(b, w);
    LowDigit(c, d);
    assert u / 0x1_0000 == u / 0x100 / 0x100 == w;
    assert u / 0x100_0000 == w / 0x100;
  }

  lemma LowDigit(a: byte, rest: nat)
    ensures (a + 0x100 * rest) % 0x100 == a && (a + 0x100 * rest) / 0x100 == rest
  {
  }

  /** The lowest byte comes first, and a negative int is what it is modulo 2^32. */
  lemma IntBytes(n: int32)
    ensures var b := EncodeInt(n); Unsigned(b[0], b[1], b[2], b[3]) == if n < 0 then n + 0x1_0000_0000 else n
  {
    Digits(if n < 0 then n + 0x1_0000_0000 else n);
  }

  lemma ShortBytes(n: int16)
    ensures var b := EncodeShort(n); Unsigned(b[0], b[1], 0, 0) == if n < 0 then n + 0x1_0000 else n
  {
  }

  lemma ShortRoundTrip(n: int16, b: seq<byte>)
    requires |b| == 2
    ensures DecodeShort(EncodeShort(n)) == n
    ensures EncodeShort(DecodeShort(b)) == b
  {
    var e := EncodeShort(DecodeShort(b));
    assert e[0] == b[0] && e[1] == b[1];
  }

  /** What a `char *` at the start of `s` denotes: the bytes before the first NUL. */
  function CString(s: seq<byte>): (r: seq<byte>)
    ensures 0 !in r
    ensures r <= s
    ensures |r| < |s| ==> s[|r|] == 0
  {
    if s == [] || s[0] == 0 then []
    else
      var r := CString(s[1..]);
      assert s == [s[0]] + s[1..];
      [s[0]] + r
  }

  /** The postconditions of CString leave no choice. */
  lemma {:induction false} CStringUnique(s: seq<byte>, r: seq<byte>)
    requires forall k :: 0 <= k < |r| ==> r[k] != 0
    requires r <= s && (|r| < |s| ==> s[|r|] == 0)
    ensures CString(s) == r
  {
    if s != [] && s[0] != 0 {
      assert r[0] == s[0];
      assert s == [s[0]] + s[1..] && r == [r[0]] + r[1..];
      CStringUnique(s[1..], r[1..]);
    }
  }

  /** Overwrite the bytes of `s` from `at` on with `b`. */
  function Splice(s: seq<byte>, at: nat, b: seq<byte>): (r: seq<byte>)
    requires at + |b| <= |s|
    ensures |r| == |s|
    ensures forall k :: 0 <= k < |s| ==> r[k] == if at <= k < at + |b| then b[k - at] else s[k]
  {
    s[..at] + b + s[at + |b|..]
  }

  /** Overwriting one byte is overwriting a stretch whose other bytes stay. */
  lemma HeadSpliced(s: seq<byte>, at: nat, n: nat, x: byte)
    requires n > 0 && at + n <= |s|
    ensures s[at := x] == Splice(s, at, [x] + s[at..at + n][1..])
  {
  }
}
