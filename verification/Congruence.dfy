/** Congruence, divisibility and primes over the integers. */
module Congruence {
  import opened Arith

  predicate Cong(x: int, y: int, m: nat)
    requires m > 0
  {
    x % m == y % m
  }

  /** The quotient witnessing a congruence. */
  lemma CongWitness(x: int, y: int, m: nat) returns (k: int)
    requires m > 0 && Cong(x, y, m)
    ensures x == y + k * m
  {
    k := x / m - y / m;
    Distrib(x / m, y / m, m);
  }

  lemma CongOf(x: int, y: int, k: int, m: nat)
    requires m > 0 && x == y + k * m
    ensures Cong(x, y, m)
  {
    ModPlusMultiple(y, k, m);
  }

  lemma CongAdd(x: int, y: int, a: int, b: int, m: nat)
    requires m > 0 && Cong(x, y, m) && Cong(a, b, m)
    ensures Cong(x + a, y + b, m) && Cong(x - a, y - b, m)
  {
    var i := CongWitness(x, y, m);
    var j := CongWitness(a, b, m);
    Distrib(i, j, m);
    CongOf(x + a, y + b, i + j, m);
    CongOf(x - a, y - b, i - j, m);
  }

  lemma CongMul(x: int, y: int, a: int, b: int, m: nat)
    requires m > 0 && Cong(x, y, m) && Cong(a, b, m)
    ensures Cong(x * a, y * b, m)
  {
    var i := CongWitness(x, y, m);
    var j := CongWitness(a, b, m);
    calc {
      x * a;
      (y + i * m) * a;
      { Distrib(y, i * m, a); Assoc(i, m, a); Assoc(i, a, m); }
      y * a + (i * a) * m;
      { Distrib(b, j * m, y); Assoc(j, m, y); Assoc(j, y, m); }
      y * b + (j * y) * m + (i * a) * m;
      { Distrib(j * y, i * a, m); }
      y * b + (j * y + i * a) * m;
    }
    CongOf(x * a, y * b, j * y + i * a, m);
  }

  lemma CongOfMod(x: int, m: nat)
    requires m > 0
    ensures Cong(x % m, x, m) && 0 <= x % m < m
  {
    ModSmall(x % m, m);
  }

  lemma CongSmall(x: int, y: int, m: nat)
    requires m > 0 && Cong(x, y, m) && 0 <= x < m && 0 <= y < m
    ensures x == y
  {
    ModSmall(x, m);
    ModSmall(y, m);
  }

  /** A difference that is congruent to zero, and back. */
  lemma CongDiff(x: int, y: int, m: nat)
    requires m > 0
    ensures Cong(x, y, m) <==> (x - y) % m == 0
  {
    ModSmall(0, m);
    if Cong(x, y, m) {
      CongAdd(x, y, y, y, m);
    } else if (x - y) % m == 0 {
      CongAdd(x - y, 0, y, y, m);
    }
  }

  // ---- Divisibility ----

  predicate Divides(d: int, x: int)
    requires d > 0
  {
    x % d == 0
  }

  lemma DividesWitness(d: int, x: int) returns (k: int)
    requires d > 0 && Divides(d, x)
    ensures x == k * d
  {
    k := x / d;
  }

  lemma DividesOf(d: int, x: int, k: int)
    requires d > 0 && x == k * d
    ensures Divides(d, x)
  {
    DivOfSum(x, k, 0, d);
  }

  lemma DividesSum(d: int, x: int, y: int)
    requires d > 0 && Divides(d, x) && Divides(d, y)
    ensures Divides(d, x + y) && Divides(d, x - y)
  {
    var i := DividesWitness(d, x);
    var j := DividesWitness(d, y);
    Distrib(i, j, d);
    DividesOf(d, x + y, i + j);
    DividesOf(d, x - y, i - j);
  }

  lemma DividesMultiple(d: int, x: int, k: int)
    requires d > 0 && Divides(d, x)
    ensures Divides(d, k * x)
  {
    var i := DividesWitness(d, x);
    Assoc(k, i, d);
    DividesOf(d, k * x, k * i);
  }

  lemma ParityOfProduct(x: int, y: int)
    ensures x * y % 2 == 1 <==> x % 2 == 1 && y % 2 == 1
  {
    var i, j := x / 2, y / 2;
    if x % 2 == 0 {
      Assoc(2, i, y);
    } else if y % 2 == 0 {
      Assoc(x, j, 2);
    } else {
      Distrib(2 * i, 1, y);
      Assoc(2, i, y);
    }
  }

  /** An odd divisor of an even number divides its half. */
  lemma OddDividesHalf(d: int, x: int)
    requires d > 0 && d % 2 == 1 && Divides(d, 2 * x)
    ensures Divides(d, x)
  {
    var k := DividesWitness(d, 2 * x);
    ParityOfProduct(k, d);
    Assoc(2, k / 2, d);
    DividesOf(d, x, k / 2);
  }

  lemma DivisorOfOddIsOdd(d: int, x: int)
    requires d > 0 && x % 2 == 1 && Divides(d, x)
    ensures d % 2 == 1
  {
    var k := DividesWitness(d, x);
    ParityOfProduct(k, d);
  }

  lemma HalveCong(x: int, y: int, m: nat)
    requires m > 0 && m % 2 == 1 && Cong(2 * x, 2 * y, m)
    ensures Cong(x, y, m)
  {
    CongDiff(2 * x, 2 * y, m);
    assert 2 * x - 2 * y == 2 * (x - y);
    OddDividesHalf(m, x - y);
    CongDiff(x, y, m);
  }

  /** `g` is a greatest common divisor: common divisors divide it. */
  ghost predicate IsGcd(g: nat, a: int, b: int) {
    && g > 0 && Divides(g, a) && Divides(g, b)
    && forall d: nat | d > 0 && Divides(d, a) && Divides(d, b) :: Divides(d, g)
  }

  ghost predicate Prime(p: nat) {
    p > 1 && forall d: nat | 0 < d && Divides(d, p) :: d == 1 || d == p
  }

  lemma GcdWithPrime(g: nat, a: int, p: nat)
    requires Prime(p) && a % p != 0 && IsGcd(g, a, p)
    ensures g == 1
  {
  }

  /** Every pair has a greatest common divisor that is a combination of the two. */
  lemma {:induction false} Bezout(a: nat, b: nat) returns (g: nat, s: int, t: int)
    requires a > 0 || b > 0
    ensures IsGcd(g, a, b) && g == s * a + t * b
    decreases b
  {
    if b == 0 {
      g, s, t := a, 1, 0;
      DividesOf(g, a, 1);
      DividesOf(g, 0, 0);
    } else {
      var r := a % b;
      var s', t';
      g, s', t' := Bezout(b, r);
      s, t := BezoutStep(a, b, g, s', t');
    }
  }

  lemma BezoutStep(a: nat, b: nat, g: nat, s': int, t': int) returns (s: int, t: int)
    requires b > 0 && IsGcd(g, b, a % b) && g == s' * b + t' * (a % b)
    ensures IsGcd(g, a, b) && g == s * a + t * b
  {
    hide Divides;
    var q, r := a / b, a % b;
    s, t := t', s' - q * t';
    assert a == q * b + r && r == a - q * b;
    DividesMultiple(g, b, q);
    DividesSum(g, q * b, r);
    forall d: nat | d > 0 && Divides(d, a) && Divides(d, b) ensures Divides(d, g) {
      DividesMultiple(d, b, q);
      DividesSum(d, a, q * b);
    }
    BezoutAlgebra(a, b, q, r, s', t');
  }

  lemma BezoutAlgebra(a: int, b: int, q: int, r: int, s: int, t: int)
    requires a == q * b + r
    ensures s * b + t * r == t * a + (s - q * t) * b
  {
    Distrib(s, q * t, b);
    Assoc(t, q, b);
    Distrib(a, q * b, t);
  }

  /** Every number that a prime does not divide has an inverse. */
  lemma PrimeInverse(x: int, p: nat) returns (s: int)
    requires Prime(p) && x % p != 0
    ensures Cong(s * x, 1, p)
  {
    var a := x % p;
    var g, t;
    g, s, t := Bezout(a, p);
    ModSmall(a, p);
    GcdWithPrime(g, a, p);
    CongOf(s * a, 1, -t, p);
    CongOfMod(x, p);
    CongMul(s, s, a, x, p);
  }

  /** Euclid's lemma. */
  lemma PrimeDividesProduct(p: nat, x: int, y: int)
    requires Prime(p) && Divides(p, x * y)
    ensures Divides(p, x) || Divides(p, y)
  {
    if !Divides(p, x) {
      var s := PrimeInverse(x, p);
      CongMul(s * x, 1, y, y, p);
      DividesMultiple(p, x * y, s);
      Assoc(s, x, y);
    }
  }

  /** A nonzero factor cancels modulo a prime. */
  lemma CancelCong(x: int, y: int, c: int, p: nat)
    requires Prime(p) && c % p != 0 && Cong(x * c, y * c, p)
    ensures Cong(x, y, p)
  {
    CongDiff(x * c, y * c, p);
    Distrib(x, y, c);
    PrimeDividesProduct(p, x - y, c);
    CongDiff(x, y, p);
  }
}
