/** Quotients and remainders. */
module Arithmetic {
  /** A quotient and remainder that fit are the quotient and remainder. */
  lemma {:induction false} DivModUnique(x: nat, m: nat, q: nat, r: nat)
    requires m > 0 && r < m && x == m * q + r
    ensures x / m == q && x % m == r
  {
    var q', r' := x / m, x % m;
    assert m * q' + r' == m * q + r;
    assert m * q' - m * q == m * (q' - q);
    if q' > q {
      MulMono(m, 1, q' - q);
    } else if q' < q {
      MulMono(m, 1, q - q');
    }
  }

  lemma {:induction false} MulMono(m: nat, a: nat, b: nat)
    requires a <= b
    ensures m * a <= m * b
  {
  }

  lemma {:induction false} AddMultiple(x: nat, m: nat, k: nat)
    requires m > 0
    ensures (x + m * k) / m == x / m + k
  {
    var q, r := x / m, x % m;
    assert m * (q + k) == m * q + m * k;
    DivModUnique(x + m * k, m, q + k, r);
  }
}
