/** Facts about multiplication and Euclidean division of naturals. */
module Arith {

  lemma DivNonNegative(x: nat, d: nat)
    requires d > 0
    ensures x / d >= 0
  {
  }

  lemma DivBelow(x: nat, q: nat, m: nat)
    requires q > 0 && x < q * m
    ensures x / q < m
  {
    var d := x / q;
    assert q * d <= x;
    MulMonotonic(m, d, q);
  }

  lemma MulMonotonic(a: int, b: int, c: nat)
    ensures a <= b ==> a * c <= b * c
  {
  }

  /** A digit below `m` followed by a remainder below `n`. */
  lemma DigitBound(a: nat, b: nat, m: nat, n: nat)
    requires a < m && b < n
    ensures a * n + b < m * n
  {
    MulMonotonic(a, m - 1, n);
    assert (m - 1) * n == m * n - n;
  }

  lemma DivModUnique(x: nat, q: nat, r: nat, m: nat)
    requires 0 <= r < m && x == q * m + r
    ensures x / m == q && x % m == r
  {
    var q', r' := x / m, x % m;
    assert q' * m + r' == x;
    assert (q - q') * m == r' - r;
    MulMonotonic(1, q - q', m);
    MulMonotonic(1, q' - q, m);
  }

  lemma DivStep(x: nat, d: nat)
    requires d > 0
    ensures (x + d) / d == x / d + 1
  {
    DivModUnique(x + d, x / d + 1, x % d, d);
  }

  /** Three digits below `m` read back from the number they make. */
  lemma ThreeDigits(rq: nat, gq: nat, bq: nat, m: nat)
    requires rq < m && gq < m && bq < m
    ensures (rq * (m * m) + (gq * m + bq)) / (m * m) == rq
    ensures ((rq * (m * m) + (gq * m + bq)) / m) % m == gq
    ensures (rq * (m * m) + (gq * m + bq)) % m == bq
  {
    var inner := gq * m + bq;
    var x := rq * (m * m) + inner;
    DigitBound(gq, bq, m, m);
    DivModUnique(x, rq, inner, m * m);
    assert x == (rq * m + gq) * m + bq;
    DivModUnique(x, rq * m + gq, bq, m);
    DivModUnique(rq * m + gq, rq, gq, m);
  }

  /** Facts about real division by a positive total. */
  lemma RealDivSelf(t: real)
    requires t > 0.0
    ensures t / t == 1.0
  {
  }

  lemma RealDivUnit(c: real, t: real)
    requires 0.0 <= c <= t && t > 0.0
    ensures 0.0 <= c / t <= 1.0
  {
  }

  lemma RealDivAdd(a: real, b: real, t: real)
    requires t > 0.0
    ensures a / t + b / t == (a + b) / t
  {
  }
}
