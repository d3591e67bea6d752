/** Small facts of integer multiplication and division, proved apart from everything else. */
module Arith {

  lemma MulMono(a: int, b: int, c: int)
    requires a <= b && 0 <= c
    ensures a * c <= b * c
  {
  }

  lemma Distrib(a: int, b: int, c: int)
    ensures (a + b) * c == a * c + b * c
    ensures (a - b) * c == a * c - b * c
  {
  }

  lemma Assoc(a: int, b: int, c: int)
    ensures (a * b) * c == a * (b * c)
  {
  }

  /** A quotient and remainder determine each other. */
  lemma DivOfSum(x: int, q: int, r: int, m: int)
    requires 0 <= r < m && x == q * m + r
    ensures x / m == q && x % m == r
  {
    var d := x / m;
    assert x == d * m + x % m;
    Distrib(d, q, m);
    assert (d - q) * m == r - x % m;
    if d - q >= 1 {
      MulMono(1, d - q, m);
    }
    if d - q <= -1 {
      MulMono(d - q, -1, m);
    }
  }

  lemma DivDiv(x: int, a: int, b: int)
    requires a > 0 && b > 0
    ensures a * b > 0 && x / (a * b) == x / a / b
  {
    var q, r := x / a, x % a;
    var q2, r2 := q / b, q % b;
    MulMono(1, a, b);
    Distrib(q2 * b, r2, a);
    Assoc(q2, b, a);
    MulMono(r2 + 1, b, a);
    Distrib(r2, 1, a);
    MulMono(0, r2, a);
    DivOfSum(x, q2, r2 * a + r, a * b);
  }

  /** Adding a multiple of the modulus changes nothing. */
  lemma ModPlusMultiple(x: int, k: int, m: int)
    requires m > 0
    ensures (x + k * m) % m == x % m
  {
    Distrib(x / m, k, m);
    DivOfSum(x + k * m, x / m + k, x % m, m);
  }

  lemma ModSmall(x: int, m: int)
    requires 0 <= x < m
    ensures x % m == x
  {
    DivOfSum(x, 0, x, m);
  }

  lemma QuotientBounds(k: nat, m: nat)
    requires m > 0
    ensures 0 <= k / m && k / m * m <= k < (k / m + 1) * m
  {
    Distrib(k / m, 1, m);
  }
}
