/** Fermat's little theorem, by the permutation that multiplication by a unit is. */
module Fermat {
  import opened Arith
  import opened Congruence
  import opened CurveMath

  function Power(a: int, e: nat): int {
    if e == 0 then 1 else Power(a, e - 1) * a
  }

  lemma {:induction false} PowerAdd(a: int, e: nat, f: nat)
    ensures Power(a, e + f) == Power(a, e) * Power(a, f)
  {
    if f > 0 {
      PowerAdd(a, e, f - 1);
      Assoc(Power(a, e), Power(a, f - 1), a);
    }
  }

  lemma {:induction false} PowerCong(a: int, b: int, e: nat, p: nat)
    requires p > 0 && Cong(a, b, p)
    ensures Cong(Power(a, e), Power(b, e), p)
  {
    if e > 0 {
      PowerCong(a, b, e - 1, p);
      CongMul(Power(a, e - 1), Power(b, e - 1), a, b, p);
    }
  }

  // ---- Products of permutations ----

  function Product(s: seq<int>): int {
    if s == [] then 1 else Product(s[..|s| - 1]) * s[|s| - 1]
  }

  function Factorial(n: nat): int {
    if n == 0 then 1 else Factorial(n - 1) * n
  }

  predicate Distinct(s: seq<int>) {
    forall i, j | 0 <= i < j < |s| :: s[i] != s[j]
  }

  predicate Within(s: seq<int>, n: nat) {
    forall i | 0 <= i < |s| :: 1 <= s[i] <= n
  }

  function Without(s: seq<int>, i: nat): (r: seq<int>)
    requires i < |s|
    ensures |r| == |s| - 1
  {
    s[..i] + s[i + 1..]
  }

  lemma {:induction false} ProductWithout(s: seq<int>, i: nat)
    requires i < |s|
    ensures Product(s) == Product(Without(s, i)) * s[i]
    decreases |s|
  {
    var n := |s| - 1;
    var r := Without(s, i);
    if i == n {
      assert r == s[..n];
    } else {
      ProductWithout(s[..n], i);
      assert r[..n - 1] == Without(s[..n], i) && r[n - 1] == s[n];
      PolySwap(Product(r[..n - 1]), s[i], s[n]);
    }
  }

  lemma PolySwap(a: int, b: int, c: int)
    ensures a * b * c == a * c * b
  {
  }

  /** Distinct numbers from 1 to n, n of them, include n. */
  lemma {:induction false} TopIsIn(s: seq<int>, n: nat)
    requires |s| == n > 0 && Distinct(s) && Within(s, n)
    ensures exists i :: 0 <= i < n && s[i] == n
    decreases n
  {
    if forall i | 0 <= i < n :: s[i] != n {
      TooMany(s, n - 1);
    }
  }

  /** There are no n + 1 distinct numbers from 1 to n. */
  lemma {:induction false} TooMany(s: seq<int>, n: nat)
    requires |s| == n + 1 && Distinct(s) && Within(s, n)
    ensures false
    decreases n
  {
    assert s[0] >= 1;
    if n == 0 {
      assert false;
    } else if exists i :: 0 <= i < |s| && s[i] == n {
      var i :| 0 <= i < |s| && s[i] == n;
      var r := Without(s, i);
      assert Distinct(r) && Within(r, n - 1) by { WithoutTop(s, i, n); }
      TooMany(r, n - 1);
    } else {
      TooMany(s[..n], n - 1);
    }
  }

  lemma WithoutTop(s: seq<int>, i: nat, n: nat)
    requires i < |s| && n > 0 && Distinct(s) && Within(s, n) && s[i] == n
    ensures Distinct(Without(s, i)) && Within(Without(s, i), n - 1)
  {
    var r := Without(s, i);
    forall j | 0 <= j < |r| ensures r[j] == s[if j < i then j else j + 1] && r[j] != n {
    }
  }

  /** The product of n distinct numbers from 1 to n. */
  lemma {:induction false} ProductOfPermutation(s: seq<int>, n: nat)
    requires |s| == n && Distinct(s) && Within(s, n)
    ensures Product(s) == Factorial(n)
    decreases n
  {
    if n > 0 {
      TopIsIn(s, n);
      var i :| 0 <= i < n && s[i] == n;
      ProductWithout(s, i);
      WithoutTop(s, i, n);
      ProductOfPermutation(Without(s, i), n - 1);
    }
  }

  // ---- The theorem ----

  /** y, 2y, ..., n y modulo p. */
  function Multiples(y: int, n: nat, p: nat): (s: seq<int>)
    requires p > 0
    ensures |s| == n
  {
    seq(n, i => (i + 1) * y % p)
  }

  lemma MultiplesDistinct(y: int, p: nat)
    requires Prime(p) && y % p != 0
    ensures Distinct(Multiples(y, p - 1, p)) && Within(Multiples(y, p - 1, p), p - 1)
  {
    assert p > 1;
    hide Prime;
    var s := Multiples(y, p - 1, p);
    forall i | 0 <= i < p - 1 ensures 1 <= s[i] <= p - 1 {
      ModSmall(i + 1, p);
      NonzeroProduct(i + 1, y, p);
    }
    forall i, j | 0 <= i < j < p - 1 ensures s[i] != s[j] {
      if s[i] == s[j] {
        CancelCong(i + 1, j + 1, y, p);
        CongSmall(i + 1, j + 1, p);
      }
    }
  }

  lemma {:induction false} ProductOfMultiples(y: int, n: nat, p: nat)
    requires p > 0
    ensures Cong(Product(Multiples(y, n, p)), Factorial(n) * Power(y, n), p)
  {
    if n > 0 {
      ProductOfMultiples(y, n - 1, p);
      var s := Multiples(y, n, p);
      assert s[..n - 1] == Multiples(y, n - 1, p);
      CongOfMod(n * y, p);
      CongMul(Product(s[..n - 1]), Factorial(n - 1) * Power(y, n - 1), n * y % p, n * y, p);
      PolyStep(Factorial(n - 1), Power(y, n - 1), n, y);
    }
  }

  lemma PolyStep(f: int, q: int, n: int, y: int)
    ensures f * q * (n * y) == f * n * (q * y)
  {
  }

  lemma {:induction false} FactorialNonzero(n: nat, p: nat)
    requires Prime(p) && n < p
    ensures Factorial(n) % p != 0
  {
    assert p > 1;
    hide Prime;
    ModSmall(1, p);
    if n > 0 {
      FactorialNonzero(n - 1, p);
      ModSmall(n, p);
      NonzeroProduct(Factorial(n - 1), n, p);
    }
  }

  /** y^(p-1) is 1 modulo p. */
  lemma LittleTheorem(y: int, p: nat)
    requires Prime(p) && y % p != 0
    ensures p > 1 && Cong(Power(y, p - 1), 1, p)
  {
    assert p > 1;
    hide Prime;
    var f, w := Factorial(p - 1), Power(y, p - 1);
    MultiplesDistinct(y, p);
    ProductOfPermutation(Multiples(y, p - 1, p), p - 1);
    ProductOfMultiples(y, p - 1, p);
    FactorialNonzero(p - 1, p);
    CommuteInts(f, w);
    CancelCong(1, w, f, p);
  }

  lemma CommuteInts(a: int, b: int)
    ensures a * b == b * a && 1 * a == a
  {
  }
}
