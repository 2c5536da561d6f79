/** Products and remainders, one fact at a time. */
module Arithmetic {
  lemma MulGrows(k: int, x: int, y: int)
    requires k >= 0 && x <= y
    ensures k * x <= k * y && x * k <= y * k
  {
  }

  lemma ScaleProduct(k: int, a: int, b: int)
    ensures (k * a) * b == k * (a * b) && a * (k * b) == k * (a * b)
  {
  }

  lemma ProductPositive(a: int, b: int)
    requires a >= 1 && b >= 1
    ensures a * b >= 1
  {
  }

  lemma DivisionParts(n: int, d: int)
    requires d > 0
    ensures n == d * (n / d) + n % d
  {
  }

  lemma RemainderIs(n: int, a: int, k: int, x: int)
    requires 0 <= x < a && n == a * k + x
    ensures n % a == x
  {
    var q := n / a;
    if k < q {
      MulGrows(a, k + 1, q);
    } else if q < k {
      MulGrows(a, q + 1, k);
    }
  }

  lemma QuotientIs(n: int, d: int, q: int)
    requires d > 0 && d * q <= n < d * q + d
    ensures n / d == q
  {
    var k := n / d;
    DivisionParts(n, d);
    if k < q {
      MulGrows(d, k + 1, q);
    } else if q < k {
      MulGrows(d, q + 1, k);
    }
  }

  /** Multiples of the modulus do not matter. */
  lemma RemainderShift(a: int, k: int, m: int)
    requires m > 0
    ensures (a + m * k) % m == a % m
  {
    DivisionParts(a, m);
    assert m * (a / m + k) == m * (a / m) + m * k;
    RemainderIs(a + m * k, m, a / m + k, a % m);
  }

  /** Of a quotient by a divisor of m, the lower part is that of the remainder by m. */
  lemma LowPart(v: int, d: int, n: int, k: int, m: int)
    requires d > 0 && n > 0 && k > 0 && d * (n * k) == m
    ensures m > 0 && v / d % n == v % m / d % n
  {
    ProductPositive(n, k);
    ProductPositive(d, n * k);
    var q, w := v / m, v % m;
    DivisionParts(v, m);
    DivisionParts(w, d);
    assert m * q == d * (n * k * q) by { ScaleProduct(d, n * k, q); }
    QuotientIs(v, d, n * k * q + w / d);
    assert n * k * q == n * (k * q) by { ScaleProduct(n, k, q); }
    RemainderShift(w / d, k * q, n);
  }
}
