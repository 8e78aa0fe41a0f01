/** Quotients and remainders. */
module Divisions {

  /** The quotient and the remainder are the only numbers of their kind. */
  lemma DivIs(k: nat, q: nat, a: nat, r: nat)
    requires q > 0 && r < q && k == q * a + r
    ensures k / q == a && k % q == r
  {
    var b, t := k / q, k % q;
    assert k == q * b + t;
    if b < a {
      MulGap(b, a, q);
    } else if a < b {
      MulGap(a, b, q);
    }
  }

  lemma {:induction false} MulGap(a: nat, b: nat, q: nat)
    requires a < b
    ensures q * a + q <= q * b
    decreases b
  {
    assert q * b == q * (b - 1) + q;
    if a + 1 < b {
      MulGap(a, b - 1, q);
    }
  }
}
