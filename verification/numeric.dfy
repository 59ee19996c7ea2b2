/**
  Arithmetic shared by the percentage computations: JavaScript's
  `Math.round` over exact reals, and the integer-division facts used to
  restate rounded quotients as integer quotients.
 */
module Numeric {
  /** `Math.round`: the nearest integer, halves rounded up. */
  function Round(x: real): (n: int)
    ensures n as real - 0.5 <= x < n as real + 0.5
  {
    (x + 0.5).Floor
  }

  /** The real quotient of two integers rounds down to their integer quotient. */
  lemma FloorOfQuotient(a: int, b: int)
    requires b > 0
    ensures (a as real / b as real).Floor == a / b
  {
    var q, r := a / b, a % b;
    assert a == q * b + r && 0 <= r < b;
    var x := a as real / b as real;
    assert x * b as real == a as real;
    assert x == q as real + r as real / b as real;
    assert 0.0 <= r as real / b as real < 1.0;
  }

  /** Dividing `q * d + r` by `d` gives back `q` when `r` is a remainder. */
  lemma QuotientOf(q: int, r: int, d: int)
    requires 0 <= r < d
    ensures (q * d + r) / d == q
  {
    var x := q * d + r;
    var qq, rr := x / d, x % d;
    assert qq * d + rr == q * d + r;
    assert (q - qq) * d == rr - r;
    if q - qq >= 1 {
      MulAtLeast(q - qq, d);
    } else if qq - q >= 1 {
      MulAtLeast(qq - q, d);
    }
  }

  lemma MulAtLeast(k: int, d: int)
    requires k >= 1 && d > 0
    ensures k * d >= d
  {
    assert k * d == (k - 1) * d + d;
  }

  lemma DivMonotone(a: int, b: int, d: int)
    requires 0 <= a <= b && d > 0
    ensures a / d <= b / d
  {
    var qa, qb := a / d, b / d;
    assert a == qa * d + a % d;
    assert b == qb * d + b % d;
    if qa - qb >= 1 {
      MulAtLeast(qa - qb, d);
    }
  }

  function Max(a: int, b: int): (m: int)
    ensures m >= a && m >= b && (m == a || m == b)
  {
    if a >= b then a else b
  }

  function Min(a: int, b: int): (m: int)
    ensures m <= a && m <= b && (m == a || m == b)
  {
    if a <= b then a else b
  }

  /** The rounded quotient of two integers is an integer quotient. */
  lemma RoundOfQuotient(a: int, b: int)
    requires b > 0
    ensures Round(a as real / b as real) == (2 * a + b) / (2 * b)
  {
    var A, B := a as real, b as real;
    var u := A / B;
    assert u * B == A;
    var lhs := u + 0.5;
    assert lhs * (2.0 * B) == 2.0 * (u * B) + B;
    var y := (2.0 * A + B) / (2.0 * B);
    assert y * (2.0 * B) == 2.0 * A + B;
    assert lhs == y by {
      assert (lhs - y) * (2.0 * B) == 0.0;
    }
    assert (2 * a + b) as real == 2.0 * A + B;
    assert (2 * b) as real == 2.0 * B;
    FloorOfQuotient(2 * a + b, 2 * b);
  }
}
