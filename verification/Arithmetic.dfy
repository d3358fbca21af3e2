/** Division and remainder by numbers that are not literals. */
module Arithmetic {

  lemma Quotient(v: nat, d: nat) returns (q: nat, r: nat)
    requires d > 0
    ensures q == v / d && v == d * q + r && r < d
  {
    q, r := v / d, v % d;
  }

  lemma TwiceProduct(p: nat, q: nat)
    ensures (2 * p) * q == 2 * (p * q)
  {
  }

  lemma DivUnique(v: nat, d: nat, q: nat, r: nat)
    requires d > 0 && v == d * q + r && r < d
    ensures v / d == q
  {
    var q' := v / d;
    assert v == d * q' + v % d;
    if q' < q { MulMonotone(q' + 1, q, d); }
    if q < q' { MulMonotone(q + 1, q', d); }
  }

  lemma MulMonotone(a: nat, b: nat, d: nat)
    requires a <= b
    ensures d * a <= d * b
  {
    assert d * (b - a) >= 0;
  }

  lemma ModAdd(a: nat, b: nat, m: nat)
    requires m > 0
    ensures (a % m + b) % m == (a + b) % m
  {
    var q, r := Quotient(a, m);
    var q2, r2 := Quotient(r + b, m);
    ModUnique(a + b, m, q + q2, r2);
    ModUnique(r + b, m, q2, r2);
    ModUnique(a, m, q, r);
  }

  lemma ModUnique(v: nat, d: nat, q: nat, r: nat)
    requires d > 0 && r < d && v == d * q + r
    ensures v % d == r
  {
    DivUnique(v, d, q, r);
  }
}
