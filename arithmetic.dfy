/** Facts about integer multiplication and Euclidean division by a positive
    number, used by the pixel geometry of the second and third generations. */
module Arithmetic {

  /** For a positive factor, multiplication keeps strict order both ways. */
  lemma {:induction false} MulOrder(x: int, y: int, d: nat)
    requires d > 0
    ensures x < y <==> x * d < y * d
    decreases d
  {
    if d > 1 {
      MulOrder(x, y, d - 1);
      assert x * d == x * (d - 1) + x;
      assert y * d == y * (d - 1) + y;
    }
  }

  lemma {:induction false} MulLe(x: int, y: int, d: nat)
    requires x <= y
    ensures x * d <= y * d
    decreases d
  {
    if d > 0 {
      MulLe(x, y, d - 1);
      assert x * d == x * (d - 1) + x;
      assert y * d == y * (d - 1) + y;
    }
  }

  lemma DivMonotone(a: nat, b: nat, d: nat)
    requires a <= b && d > 0
    ensures a / d <= b / d
  {
    assert (a / d) * d <= a;
    assert b < (b / d + 1) * d;
    MulOrder(a / d, b / d + 1, d);
  }

  lemma DivBelow(a: nat, q: nat, d: nat)
    requires d > 0 && a < q * d
    ensures a / d < q
  {
    assert (a / d) * d <= a;
    MulOrder(a / d, q, d);
  }

  lemma DivAtLeast(a: nat, b: nat, d: nat)
    requires d > 0 && a * d <= b
    ensures a <= b / d
  {
    assert b < (b / d + 1) * d;
    MulOrder(a, b / d + 1, d);
  }

  lemma DivOfMulPlus(q: int, r: int, d: nat)
    requires d > 0 && 0 <= r < d
    ensures (q * d + r) / d == q
  {
    var k := (q * d + r) / d;
    assert k * d <= q * d + r < k * d + d;
    assert (q + 1) * d == q * d + d && (k + 1) * d == k * d + d;
    MulOrder(k, q + 1, d);
    MulOrder(q, k + 1, d);
  }
}
