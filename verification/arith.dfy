/** Small facts of integer arithmetic that the solver does not find on
    its own (products of two variables, division by a variable). */
module Arith {

  /** An unsigned 8-bit value (uint8_t). */
  type Byte = b: int | 0 <= b < 256

  /** A non-zero multiple of a positive number is at least that number in
      magnitude. */
  lemma MultipleMagnitude(k: int, w: int)
    requires w > 0
    ensures k >= 1 ==> k * w >= w
    ensures k <= -1 ==> k * w <= -w
  {}

  lemma MulMono(a: int, b: int, w: int)
    requires w >= 0
    ensures a <= b ==> a * w <= b * w
  {}

  /** Quotient and remainder of q * m + r by m, for 0 <= r < m. */
  lemma DivModUnique(q: int, r: int, m: int)
    requires 0 <= r < m
    ensures (q * m + r) / m == q && (q * m + r) % m == r
  {
    var n := q * m + r;
    var d, e := n / m, n % m;
    assert d * m + e == q * m + r;
    assert (d - q) * m == r - e;
    MultipleMagnitude(d - q, m);
  }

  /** Dividing by m and then by n is dividing by m * n. */
  lemma DivDiv(c: int, m: int, n: int)
    requires c >= 0 && m > 0 && n > 0
    ensures c / (m * n) == (c / m) / n
  {
    var q := c / m;
    var q2 := q / n;
    var low := (q % n) * m + c % m;
    assert c == (q2 * n + q % n) * m + c % m;
    assert c == q2 * (m * n) + low;
    assert 0 <= low < m * n by {
      MulMono(q % n, n - 1, m);
      assert (n - 1) * m + m == m * n;
    }
    DivModUnique(q2, low, m * n);
  }

  function Max(a: int, b: int): int { if a < b then b else a }
  function Min(a: int, b: int): int { if a < b then a else b }

  /** |d| <= m implies d * d <= m * m. */
  lemma SquareMono(d: int, m: int)
    requires -m <= d <= m
    ensures d * d <= m * m
  {
    if d >= 0 {
      MulMono(d, m, d);
      MulMono(d, m, m);
    } else {
      MulMono(-d, m, -d);
      MulMono(-d, m, m);
    }
  }

  /** `a` and `b` bound `v`, in whichever order they come. */
  predicate Between(v: int, a: int, b: int) {
    (a <= b && a <= v <= b) || (b <= a && b <= v <= a)
  }

  function Abs(a: int): nat { if a < 0 then -a else a }

  /** C++ integer division, which truncates toward zero (Dafny's `/` is
      Euclidean: -7 / 2 is -4 in Dafny and -3 in C++). The quotient leaves
      a remainder smaller than the divisor in magnitude and never of the
      opposite sign to the dividend. */
  function TruncDiv(a: int, b: int): (q: int)
    requires b != 0
    ensures Abs(a - q * b) < Abs(b)
    ensures a >= 0 ==> a - q * b >= 0
    ensures a <= 0 ==> a - q * b <= 0
  {
    if a >= 0 && b > 0 then
      Remainder(a, b);
      a / b
    else if a >= 0 then
      var q := a / -b;
      Remainder(a, -b);
      NegateProduct(q, b);
      -q
    else if b > 0 then
      var q := (-a) / b;
      Remainder(-a, b);
      NegateProduct(q, b);
      -q
    else
      var q := (-a) / (-b);
      Remainder(-a, -b);
      NegateProduct(q, b);
      q
  }

  lemma Remainder(a: int, b: int)
    requires a >= 0 && b > 0
    ensures 0 <= a - (a / b) * b < b
  {}

  lemma NegateProduct(q: int, b: int)
    ensures (-q) * b == -(q * b) && q * (-b) == -(q * b)
  {}

  /** Truncating division commutes with negating the dividend or the
      divisor. */
  lemma TruncDivNegate(a: int, b: int)
    requires b != 0
    ensures TruncDiv(-a, b) == -TruncDiv(a, b)
    ensures TruncDiv(a, -b) == -TruncDiv(a, b)
  {}

  /** For 0 <= t <= d, the quotient t * m / d lies between 0 and m. */
  lemma TruncDivScaled(t: int, d: int, m: int)
    requires 0 <= t <= d && d > 0
    ensures 0 <= m ==> 0 <= TruncDiv(t * m, d) <= m
    ensures m <= 0 ==> m <= TruncDiv(t * m, d) <= 0
  {
    if m >= 0 {
      MulMono(t, d, m);
      DivBound(t * m, d, m);
    } else {
      var u := t * (-m);
      MulMono(t, d, -m);
      assert 0 <= u <= (-m) * d;
      NegateProduct(t, m);
      assert -u == t * m;
      DivBound(u, d, -m);
      TruncDivNegate(u, d);
    }
  }

  lemma DivBound(a: int, d: int, m: int)
    requires 0 <= a <= m * d && d > 0
    ensures 0 <= TruncDiv(a, d) == a / d <= m
  {}

  /** The fraction t / d of m, for t strictly between 0 and d on the side
      where the ratio lies in [0, 1), truncated, lies between 0 and m. */
  lemma ScaledBetween(t: int, d: int, m: int)
    requires (0 <= t < d) || (d <= t < 0)
    ensures Between(TruncDiv(t * m, d), 0, m)
  {
    if d > 0 {
      TruncDivScaled(t, d, m);
    } else {
      TruncDivScaled(-t, -d, m);
      NegateProduct(t, m);
      assert (-t) * m == -(t * m);
      TruncDivNegate(t * m, d);
      TruncDivNegate(-(t * m), d);
    }
  }
}
