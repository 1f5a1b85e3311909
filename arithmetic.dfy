/** Small facts about integer multiplication and multiples that the
    rounding helpers and the layout calculator share. */
module Arithmetic {

  /** Multiplying by a positive factor preserves and reflects order. */
  lemma MulOrder(x: int, y: int, b: int)
    requires b > 0
    ensures x <= y <==> x * b <= y * b
  {
    if x <= y {
      var d := y - x;
      assert d * b >= 0;
      assert y * b == x * b + d * b;
    } else {
      var d := x - y - 1;
      assert d * b >= 0;
      assert x * b == y * b + d * b + b;
    }
  }

  /** Two multiples of `b` that lie in the same window [lo, lo + b) are equal. */
  lemma MultiplesInWindowAreEqual(x: int, y: int, lo: int, b: int)
    requires b > 0
    requires x % b == 0 && y % b == 0
    requires lo <= x < lo + b && lo <= y < lo + b
    ensures x == y
  {
    var p, q := x / b, y / b;
    assert x == p * b && y == q * b;
    if p < q {
      MulOrder(p + 1, q, b);
    } else if q < p {
      MulOrder(q + 1, p, b);
    }
  }

  /** A quotient c = m / n with positive n lies below 1 (above 0) exactly
      when m lies below n (above 0). */
  lemma QuotientBounds(c: real, m: real, n: real)
    requires n > 0.0 && c * n == m
    ensures c <= 1.0 <==> m <= n
    ensures c >= 0.0 <==> m >= 0.0
  {
    if c <= 1.0 {
      assert (1.0 - c) * n >= 0.0;
    } else {
      assert (c - 1.0) * n > 0.0;
    }
    if c < 0.0 {
      assert (0.0 - c) * n > 0.0;
    }
  }

  /** A multiple of `b` leaves no remainder and divides back exactly. */
  lemma MultipleDivides(q: int, b: int)
    requires b > 0
    ensures (q * b) / b == q && (q * b) % b == 0
  {
    var d, r := (q * b) / b, (q * b) % b;
    assert q * b == d * b + r && 0 <= r < b;
    assert (d + 1) * b == d * b + b;
    MulOrder(d + 1, q, b);
    MulOrder(d, q, b);
  }

  /** Integer division rounds down: `a / b` whole `b`s fit in `a`, one more does not. */
  lemma DivBounds(a: int, b: int)
    requires b > 0
    ensures (a / b) * b <= a < (a / b) * b + b
  {
  }

  /** Comparing a real quotient m / n (n > 0) with y is comparing m with y * n. */
  lemma QuotientCompare(m: real, n: real, y: real)
    requires n > 0.0
    ensures m / n <= y <==> m <= y * n
  {
    var c := m / n;
    assert c * n == m;
    if c <= y {
      assert (y - c) * n >= 0.0;
    } else {
      assert (c - y) * n > 0.0;
    }
  }
}
