/** Facts about products, quotients and fixed-width numbers that several modules share. */
module Arithmetic {

  const MOD32: nat := 0x1_0000_0000
  const MOD64: nat := 0x1_0000_0000_0000_0000

  lemma ScaleUp(a: int, b: int, u: nat)
    requires a <= b
    ensures a * u <= b * u && (a + 1) * u == a * u + u
  {}

  /** Quotient and remainder are the only numbers of their kind. */
  lemma Quotient(n: int, k: nat, q: int, r: int)
    requires k > 0 && n == q * k + r && 0 <= r < k
    ensures n / k == q && n % k == r
  {
    var p := n / k;
    assert n == p * k + n % k;
    if p > q {
      ScaleUp(q + 1, p, k);
      ScaleUp(q, q, k);
    } else if p < q {
      ScaleUp(p + 1, q, k);
      ScaleUp(p, p, k);
    }
  }

  /** One turn around a cycle of length `n`. */
  lemma Wraps(x: nat, n: nat)
    requires n > 0 && x < 2 * n
    ensures x % n == if x < n then x else x - n
  {
    if x < n {
      Quotient(x, n, 0, x);
    } else {
      Quotient(x, n, 1, x - n);
    }
  }

  lemma Below(x: int, m: nat)
    requires 0 <= x < m
    ensures x % m == x
  {
    Quotient(x, m, 0, x);
  }

  lemma DropMultiple(n: int, x: int, m: nat)
    requires m > 0
    ensures (n * m + x) % m == x % m
  {
    var q, r := x / m, x % m;
    assert n * m + x == (n + q) * m + r by {
      assert (n + q) * m == n * m + q * m;
    }
    Quotient(n * m + x, m, n + q, r);
  }

  /** Additions and a scaling modulo `m` can be wrapped at the end. */
  lemma WrapLate(x: int, scale: nat, y: int, m: nat)
    requires m > 0
    ensures (x % m * scale + y) % m == (x * scale + y) % m
  {
    var q, r := x / m, x % m;
    assert x * scale + y == q * scale * m + (r * scale + y) by {
      assert x == q * m + r;
      assert x * scale == q * m * scale + r * scale;
      assert q * m * scale == q * scale * m;
    }
    DropMultiple(q * scale, r * scale + y, m);
  }
}
