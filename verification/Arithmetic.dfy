/** The few facts about products and quotients of unknowns that the formulas need. */
module Arithmetic {
  lemma MulNext(d: nat, q: nat)
    ensures d * (q + 1) == d * q + d
  {
  }

  lemma MulMonotone(c: nat, a: nat, b: nat)
    requires a <= b
    ensures c * a <= c * b
  {
    assert c * b == c * a + c * (b - a);
  }

  lemma DivUnique(x: nat, d: nat, q: nat, r: nat)
    requires r < d && x == d * q + r
    ensures x / d == q
  {
    var p := x / d;
    assert x == d * p + x % d;
    MulNext(d, p);
    MulNext(d, q);
    if p < q {
      MulMonotone(d, p + 1, q);
    }
    if q < p {
      MulMonotone(d, q + 1, p);
    }
  }

  lemma DivStep(a: nat, d: nat)
    requires 0 < d
    ensures (a + d) / d == a / d + 1
  {
    assert a == d * (a / d) + a % d;
    MulNext(d, a / d);
    DivUnique(a + d, d, a / d + 1, a % d);
  }
}
