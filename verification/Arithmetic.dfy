/** Facts about products and quotients. */
module Arithmetic {

  lemma Multiples(a: int, b: int, p: nat)
    requires a < b
    ensures a * p + p <= b * p
  {
    assert (b - a - 1) * p >= 0;
    assert (b - a - 1) * p == b * p - a * p - p;
  }

  lemma SameQuotient(n: nat, q: int, r: int, q': int, r': int)
    requires 0 <= r < n && 0 <= r' < n && q * n + r == q' * n + r'
    ensures q == q' && r == r'
  {
    if q < q' {
      Multiples(q, q', n);
      assert false;
    } else if q > q' {
      Multiples(q', q, n);
      assert false;
    }
  }

  lemma Divides(q: nat, r: nat, n: nat)
    requires r < n
    ensures (q * n + r) / n == q && (q * n + r) % n == r
  {
    var x := q * n + r;
    assert x == x / n * n + x % n;
    SameQuotient(n, q, r, x / n, x % n);
  }

  lemma NextMultiple(a: int, b: int)
    ensures (a + 1) * b == a * b + b
  {
  }

  lemma SameFactor(a: int, b: int, c: int)
    requires c != 0 && a * c == b * c
    ensures a == b
  {
    assert (a - b) * c == a * c - b * c;
  }

  lemma Monotonic(a: nat, b: nat, n: nat)
    requires a <= b && n > 0
    ensures a / n <= b / n
  {
    assert a == a / n * n + a % n && b == b / n * n + b % n;
    if b / n < a / n {
      Multiples(b / n, a / n, n);
      assert false;
    }
  }

  /** A multiple of `c` lies between 0 and a larger multiple. */
  lemma Between(a: nat, b: nat, c: int)
    requires a <= b
    ensures if c >= 0 then 0 <= a * c <= b * c else b * c <= a * c <= 0
  {
    assert (b - a) * c == b * c - a * c;
    assert c >= 0 ==> a * c >= 0 && (b - a) * c >= 0;
    assert c < 0 ==> a * -c >= 0 && (b - a) * -c >= 0 && a * -c == -(a * c) && (b - a) * -c == -((b - a) * c);
  }
}
