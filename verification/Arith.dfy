/** Facts about products, quotients and remainders of variables. */
module Arith {

  lemma MulMono(a: int, b: int, p: nat)
    requires a <= b
    ensures a * p <= b * p
  {
  }

  lemma MulStrict(a: int, b: int, p: nat)
    requires a < b && p > 0
    ensures a * p + p <= b * p
  {
    MulMono(a + 1, b, p);
    assert (a + 1) * p == a * p + p;
  }

  lemma DivMod(x: nat, p: nat)
    requires p > 0
    ensures x == (x / p) * p + x % p && x % p < p
  {
  }

  /** Quotient and remainder are the only way to write x as d * p + m with 0 <= m < p. */
  lemma DivModUnique(x: nat, p: nat, d: nat, m: nat)
    requires p > 0 && m < p && x == d * p + m
    ensures x / p == d && x % p == m
  {
    DivMod(x, p);
    if x / p < d { MulStrict(x / p, d, p); }
    if d < x / p { MulStrict(d, x / p, p); }
  }

  lemma DivBelow(x: nat, p: nat, k: nat)
    requires p > 0 && x < k * p
    ensures x / p < k
  {
    DivMod(x, p);
    if k <= x / p { MulMono(k, x / p, p); }
  }

  lemma DivAtLeast(x: nat, p: nat, k: nat)
    requires p > 0 && k * p <= x
    ensures k <= x / p
  {
    DivMod(x, p);
    if x / p < k { MulStrict(x / p, k, p); }
  }
}
