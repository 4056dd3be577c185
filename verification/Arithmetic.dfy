/** Division and products of two variables, where the solver needs a hand. */
module Arithmetic {
  /** A number below `n` past a multiple of `n`. */
  lemma Split(a: nat, b: nat, n: nat)
    requires b < n
    ensures (a * n + b) / n == a && (a * n + b) % n == b
  {
    var q := (a * n + b) / n;
    assert q * n <= a * n + b < q * n + n by { Quotient(a * n + b, n); }
    if q < a {
      Scale(q + 1, a, n);
    } else if q > a {
      Scale(a + 1, q, n);
    }
  }

  lemma Quotient(m: nat, n: nat)
    requires n > 0
    ensures m == m / n * n + m % n
  {
  }

  lemma Scale(x: nat, y: nat, n: nat)
    requires x <= y
    ensures x * n <= y * n
  {
  }
}
