/** Facts about products, quotients and remainders. */
module Arithmetic {

  lemma Distributes(n: int, x: int, y: int)
    ensures n * (x + y) == n * x + n * y && n * (x - y) == n * x - n * y
  {
  }

  lemma MultipleAtLeast(n: nat, k: nat)
    requires k >= 1
    ensures n * k >= n
  {
  }

  /** Quotient and remainder are the only ones of their kind. */
  lemma DivisionIsUnique(a: nat, n: nat, q: nat, r: nat)
    requires r < n && a == n * q + r
    ensures a / n == q && a % n == r
  {
    var p := a / n;
    assert a == n * p + a % n;
    if q > p {
      Distributes(n, p, q - p);
      MultipleAtLeast(n, q - p);
    } else if q < p {
      Distributes(n, q, p - q);
      MultipleAtLeast(n, p - q);
    }
  }
}
