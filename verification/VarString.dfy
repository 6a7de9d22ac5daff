/** The growable string of rm_serializer.c. Its `bufsize` is never brought up to date. */
module VarString {
  import opened Bytes
  import opened Powers

  /** The doubling loop of ENSURE_SIZE from `size` on. */
  function Doubled(size: nat, newsize: nat): (c: nat)
    requires size > 0
    ensures newsize <= c && size <= c
    ensures c == size || c < 2 * newsize
    decreases newsize - size
  {
    if size < newsize then Doubled(2 * size, newsize) else size
  }

  /** The true capacity for `n` bytes: 100, or 100 doubled at least once. */
  function CapacityFor(n: nat): nat {
    if n <= 100 then 100 else Doubled(200, n)
  }

  /** The capacity always suffices and is less than twice what is needed. */
  lemma CapacityBounds(n: nat)
    ensures n <= CapacityFor(n) && (n <= 100 ==> CapacityFor(n) < 101) && (n > 100 ==> CapacityFor(n) < 2 * n)
  {
  }

  lemma {:induction false} DoubledMonotone(size: nat, m: nat, n: nat)
    requires 0 < size && m <= n
    ensures Doubled(size, m) <= Doubled(size, n)
    decreases n - size
  {
    if size < n {
      DoubledMonotone(2 * size, m, n);
    }
  }

  /** Sizes never shrink, so no reallocation does either. */
  lemma CapacityMonotone(m: nat, n: nat)
    requires m <= n
    ensures CapacityFor(m) <= CapacityFor(n)
  {
    if 100 < m {
      DoubledMonotone(200, m, n);
    }
  }

  /** Past 100 bytes the capacity is the first of 200, 400, 800 and so on that suffices. */
  lemma CapacityDoubles(n: nat) returns (k: nat)
    requires n > 100
    ensures k >= 1 && CapacityFor(n) == 100 * Pow2(k) && (k > 1 ==> 100 * Pow2(k - 1) < n)
  {
    k := DoubledPower(200, n, 1);
  }

  lemma {:induction false} DoubledPower(size: nat, n: nat, k: nat) returns (m: nat)
    requires k >= 1 && size == 100 * Pow2(k) && (k > 1 ==> 100 * Pow2(k - 1) < n)
    ensures m >= 1 && Doubled(size, n) == 100 * Pow2(m) && (m > 1 ==> 100 * Pow2(m - 1) < n)
    decreases n - size
  {
    if size < n {
      m := DoubledPower(2 * size, n, k + 1);
    } else {
      m := k;
    }
  }

  class VarString {
    var buf: array<byte>
    var size: nat
    const bufsize: nat := 100

    ghost predicate Valid()
      reads this
    {
      buf.Length == CapacityFor(size)
    }

    ghost function Contents(): seq<byte>
      requires Valid()
      reads this, buf
    {
      CapacityBounds(size);
      buf[..size]
    }

    /** MAKE_VARSTRING. */
    constructor ()
      ensures Valid() && fresh(buf) && Contents() == []
    {
      size := 0;
      buf := new byte[100](_ => 0);
    }

    /** ENSURE_SIZE, called with the size that the string is about to have. */
    method EnsureSize(newsize: nat)
      requires Valid() && size <= newsize
      modifies this`buf
      ensures buf.Length == CapacityFor(newsize) && size <= buf.Length
      ensures buf[..size] == old(buf[..size]) && (buf == old(buf) || fresh(buf))
    {
      CapacityBounds(size);
      CapacityBounds(newsize);
      CapacityMonotone(size, newsize);
      if bufsize < newsize {
        var newbufsize := bufsize * 2;
        while newbufsize < newsize
          invariant newbufsize > 0 && Doubled(200, newsize) == Doubled(newbufsize, newsize)
          decreases newsize - newbufsize
        {
          newbufsize := newbufsize * 2;
        }
        var grown := new byte[newbufsize](_ => 0);
        forall k | 0 <= k < buf.Length && k < newbufsize {
          grown[k] := buf[k];
        }
        buf := grown;
      }
    }

    /** APPEND_STRING: the first `size` bytes are the concatenation of all that was appended. */
    method Append(s: seq<byte>)
      requires Valid()
      modifies this, buf
      ensures Valid() && Contents() == old(Contents()) + s
      ensures buf == old(buf) || fresh(buf)
    {
      ghost var before := Contents();
      EnsureSize(size + |s|);
      CapacityBounds(size + |s|);
      forall k | 0 <= k < |s| {
        buf[size + k] := s[k];
      }
      size := size + |s|;
      assert buf[..size] == before + s;
    }

    /** GET_STRING. */
    method GetString() returns (s: seq<byte>)
      requires Valid()
      ensures s == Contents()
    {
      CapacityBounds(size);
      s := buf[..size];
    }
  }
}
