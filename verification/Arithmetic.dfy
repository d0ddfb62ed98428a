/** Multiplication and powers of two, where the verifier needs help. */
module Arithmetic {
  lemma MulMono(a: nat, b: nat, x: nat, y: nat)
    requires a <= b && x <= y
    ensures a * x <= b * y
  {
    assert a * x <= b * x;
    assert b * x <= b * y;
  }

  lemma MulAssoc(a: nat, b: nat, c: nat)
    ensures a * (b * c) == (a * b) * c
  {
  }

  function Power(k: nat): (p: nat)
    ensures p > 0
  {
    if k == 0 then 1 else 2 * Power(k - 1)
  }

  lemma {:induction false} PowerMono(j: nat, k: nat)
    requires j < k
    ensures 2 * Power(j) <= Power(k)
  {
    if j + 1 < k { PowerMono(j, k - 1); }
  }

  lemma {:induction false} PowerAdd(j: nat, k: nat)
    ensures Power(j + k) == Power(j) * Power(k)
  {
    if j > 0 {
      PowerAdd(j - 1, k);
    }
  }

  lemma DivBound(a: nat, b: nat)
    requires b > 0
    ensures (a / b) * b <= a < (a / b + 1) * b
  {
  }

  /** The quotient is the number of times the divisor fits. */
  lemma DivIs(a: nat, b: nat, q: nat)
    requires b > 0
    ensures a / b == q <==> q * b <= a < (q + 1) * b
  {
    DivBound(a, b);
    if q * b <= a < (q + 1) * b {
      MulMono(q + 1, if q < a / b then a / b else q + 1, b, b);
      MulMono(a / b + 1, if a / b < q then q else a / b + 1, b, b);
    }
  }
}
