/** Facts about quotients and remainders that the modules share. */
module Arithmetic {

  lemma DivModUnique(x: int, q: int, r: int, a: int)
    requires 0 <= r < a && x == q * a + r
    ensures x / a == q && x % a == r
  {
    var p, t := x / a, x % a;
    assert x == p * a + t;
    assert (p - q) * a == r - t;
    if p > q {
      Scale(1, p - q, a);
    } else if p < q {
      Scale(p - q, -1, a);
    }
  }

  lemma Scale(i: int, j: int, a: int)
    requires i <= j && a >= 0
    ensures i * a <= j * a
  {
    Product(j - i, a);
    assert (j - i) * a == j * a - i * a;
  }

  lemma Product(i: int, a: int)
    requires i >= 0 && a >= 0
    ensures i * a >= 0
  {
  }

  lemma MultipleMod(q: int, a: int)
    requires a > 0
    ensures (q * a) % a == 0 && (q * a) / a == q
  {
    DivModUnique(q * a, q, 0, a);
  }

  /** Adding a multiple shifts the quotient and keeps the remainder. */
  lemma AddMultiple(x: int, q: int, a: int)
    requires a > 0
    ensures (x + q * a) / a == x / a + q && (x + q * a) % a == x % a
  {
    assert x + q * a == (x / a + q) * a + x % a;
    DivModUnique(x + q * a, x / a + q, x % a, a);
  }
}
