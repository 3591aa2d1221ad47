/** Products, quotients and remainders, kept away from everything else. */
module Arithmetic {
  lemma MulMonotone(a: nat, b: nat, c: nat, d: nat)
    requires a <= c && b <= d
    ensures a * b <= c * d
  {
    assert a * b <= c * b;
    assert c * b <= c * d;
  }

  lemma MulOrder(a: nat, b: nat, m: nat)
    ensures a <= b ==> a * m <= b * m
  {
  }

  lemma QuotientAtLeast(x: nat, d: nat, q: nat)
    requires d > 0 && q * d <= x
    ensures x / d >= q
  {
    var p := x / d;
    assert x < (p + 1) * d;
    assert p + 1 <= q ==> (p + 1) * d <= q * d;
  }

  lemma QuotientIff(x: nat, d: nat, q: nat)
    requires d > 0
    ensures q <= x / d <==> q * d <= x
  {
    if q * d <= x {
      QuotientAtLeast(x, d, q);
    } else {
      var p := x / d;
      assert p * d <= x;
      assert q <= p ==> q * d <= p * d;
    }
  }

  lemma DivOfMultiple(q: nat, e: nat, y: nat)
    requires y < e
    ensures (q * e + y) / e == q
  {
    QuotientIff(q * e + y, e, q);
    QuotientIff(q * e + y, e, q + 1);
    assert (q + 1) * e == q * e + e;
  }

  lemma ModOfMultiple(q: nat, e: nat, y: nat)
    requires y < e
    ensures (q * e + y) % e == y
  {
    DivOfMultiple(q, e, y);
  }
}
