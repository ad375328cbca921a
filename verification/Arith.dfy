/** Facts about division of naturals. */
module Arith {
  /** Quotient and remainder are unique. */
  lemma DivUnique(n: nat, s: nat, q: nat, r: nat)
    requires r < s && n == q * s + r
    ensures n / s == q && n % s == r
  {
    var q' := n / s;
    assert n == q' * s + n % s;
    if q' < q {
      MulMonotone(q' + 1, q, s);
    } else if q < q' {
      MulMonotone(q + 1, q', s);
    }
  }

  function Quotient(n: nat, s: nat): nat
    requires s > 0
  {
    n / s
  }

  lemma MulMonotone(a: nat, b: nat, s: nat)
    requires a <= b
    ensures a * s <= b * s
  {}

  /** Adding a multiple of s changes only the quotient. */
  lemma ModAddMultiple(n: nat, s: nat, q: nat)
    requires s > 0
    ensures (n + q * s) % s == n % s && (n + q * s) / s == n / s + q
  {
    assert n + q * s == (n / s + q) * s + n % s;
    DivUnique(n + q * s, s, n / s + q, n % s);
  }

  /** Distinct multiples of s are at least s apart. */
  lemma Multiples(a: nat, b: nat, s: nat)
    requires s > 0 && a < b && a % s == 0 && b % s == 0
    ensures a + s <= b
  {
    if b < a + s {
      var q := a / s;
      assert a == q * s;
      DivUnique(b, s, q, b - a);
    }
  }
}
