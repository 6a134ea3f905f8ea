/** Small facts of nonlinear arithmetic, stated once. */
module Arithmetic {
  lemma MulMono(x: int, y: int, b: int)
    requires x <= y && b >= 0
    ensures x * b <= y * b
  {
    assert (y - x) * b >= 0;
  }

  lemma MulOrder(x: int, y: int, b: int)
    requires b > 0
    ensures x <= y <==> x * b <= y * b
    ensures x == y <==> x * b == y * b
  {
    if x < y { MulMono(x + 1, y, b); } else if x > y { MulMono(y + 1, x, b); }
  }

  lemma QuotientIs(a: int, b: int, q: int)
    requires b > 0 && q * b <= a < q * b + b
    ensures a / b == q && a % b == a - q * b
  {
    var p := a / b;
    assert a == b * p + a % b && b * p == p * b;
    if p < q { MulMono(p + 1, q, b); } else if p > q { MulMono(q + 1, p, b); }
  }

  lemma RemainderAtMost(a: nat, b: nat)
    requires b > 0
    ensures a % b <= a
  {
    var q := a / b;
    assert a == b * q + a % b && b * q == q * b;
    if q >= 0 { MulMono(0, q, b); } else { MulMono(q, -1, b); }
  }

  lemma {:induction false} RealProduct(a: int, b: nat)
    ensures a as real * b as real == (a * b) as real
  {
    if b > 0 {
      RealProduct(a, b - 1);
      assert a * b == a * (b - 1) + a;
      assert a as real * b as real == a as real * (b - 1) as real + a as real;
    }
  }

  /** The multiple `d * k` and the next one, as reals. */
  lemma RealMultiples(d: int, k: nat)
    ensures (d * k) as real == d as real * k as real
    ensures (d * k + k) as real == (d as real + 1.0) * k as real
  {
    RealProduct(d, k);
    RealProduct(d + 1, k);
    assert (d + 1) * k == d * k + k;
    assert (d + 1) as real == d as real + 1.0;
  }

  lemma RealMulStrict(x: real, y: real, r: real)
    requires x < y && r > 0.0
    ensures x * r < y * r
  {
    assert (y - x) * r > 0.0;
  }

  lemma QuotientAtLeast(x: real, r: real, a: real)
    requires r > 0.0
    ensures a <= x / r <==> a * r <= x
  {
    var y := x / r;
    assert y * r == x;
    if y < a { RealMulStrict(y, a, r); }
    if a < y { RealMulStrict(a, y, r); }
  }

  lemma DivideByProduct(x: real, r: real, y: real)
    requires r > 0.0 && y > 0.0 && r * y > 0.0
    ensures x / (r * y) * r == x / y
  {
    var q := x / (r * y);
    assert q * (r * y) == x;
    assert q * r * y == x;
    QuotientAtLeast(x, y, q * r);
    if q * r < x / y { RealMulStrict(q * r, x / y, y); }
  }
}
