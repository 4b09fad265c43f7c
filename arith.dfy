/** Facts about Euclidean division that the ring cursor and the row numbering
    of the state table rest on. */
module Arith {

  /** Multiplying by a factor that is not negative keeps the order. */
  lemma MulMonotone(a: int, b: int, c: int)
    requires a <= b && c >= 0
    ensures a * c <= b * c
  {
    if a < b {
      assert b * c == a * c + (b - a) * c;
    }
  }

  /** Quotient and remainder are unique. */
  lemma DivModUnique(x: int, q: int, r: int, c: int)
    requires c >= 1 && 0 <= r < c && x == q * c + r
    ensures x / c == q && x % c == r
  {
    var d := q - x / c;
    assert x == (x / c) * c + x % c;
    assert d * c == x % c - r;
    if d >= 1 {
      MulMonotone(1, d, c);
    } else if d <= -1 {
      MulMonotone(1, -d, c);
    }
  }

  /** Two numbers fewer than `c` apart have different remainders. */
  lemma ModDistinct(m: int, n: int, c: int)
    requires c >= 1 && m < n < m + c
    ensures m % c != n % c
  {
    if m % c == n % c {
      var d := n / c - m / c;
      assert m == (m / c) * c + m % c;
      assert n == (n / c) * c + n % c;
      assert n - m == d * c;
      if d >= 1 {
        MulMonotone(1, d, c);
      }
    }
  }

  /** Advancing modulo `c` from `x % c` lands on `(x + 1) % c`. */
  lemma ModStep(x: int, c: int)
    requires c >= 1
    ensures (x % c + 1) % c == (x + 1) % c
  {
    var q, a := x / c, x % c;
    assert x == q * c + a;
    if a + 1 < c {
      DivModUnique(x + 1, q, a + 1, c);
      DivModUnique(a + 1, 0, a + 1, c);
    } else {
      DivModUnique(x + 1, q + 1, 0, c);
      DivModUnique(a + 1, 1, 0, c);
    }
  }
}
