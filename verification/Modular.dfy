/** Facts about remainders that the circular walks over the frame array need. */
module Modular {
  lemma AtLeast(n: nat, d: nat)
    requires d > 0
    ensures n * d >= n
  {
    assert n * d == n * (d - 1) + n;
  }

  /** Quotient and remainder are unique. */
  lemma Unique(n: nat, q: int, r: nat, q': int, r': nat)
    requires r < n && r' < n
    requires n * q + r == n * q' + r'
    ensures q == q' && r == r'
  {
    assert n * (q - q') == n * q - n * q';
    if q < q' {
      AtLeast(n, q' - q);
    } else if q' < q {
      AtLeast(n, q - q');
    }
  }

  /** Numbers with the same remainder are equal or `n` apart at least. */
  lemma Apart(x: nat, y: nat, n: nat)
    requires n > 0 && x % n == y % n
    ensures x == y || x - y >= n || y - x >= n
  {
    var a, b := x / n, y / n;
    assert x == n * a + x % n && y == n * b + y % n;
    Multiple(a - b, n);
    assert n * (a - b) == n * a - n * b;
  }

  lemma Multiple(d: int, n: nat)
    ensures d == 0 || n * d >= n || n * d + n <= 0
  {
    if d > 0 {
      AtLeast(n, d);
    } else if d < 0 {
      AtLeast(n, -d);
      assert n * -d == -(n * d);
    }
  }

  lemma Remainder(q: nat, r: nat, n: nat)
    requires r < n
    ensures (n * q + r) % n == r
  {
    var x := n * q + r;
    Unique(n, q, r, x / n, x % n);
  }

  /** One step of a counter modulo n. */
  lemma Next(c: nat, n: nat)
    requires n > 0
    ensures (c + 1) % n == if c % n + 1 == n then 0 else c % n + 1
  {
    NextOf(c, c / n, c % n, n);
  }

  lemma NextOf(c: nat, q: nat, r: nat, n: nat)
    requires r < n && c == n * q + r
    ensures (c + 1) % n == if r + 1 == n then 0 else r + 1
  {
    assert n * (q + 1) == n * q + n;
    if r + 1 == n {
      Remainder(q + 1, 0, n);
    } else {
      Remainder(q, r + 1, n);
    }
  }
}
