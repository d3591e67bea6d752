/** Multiples of a curve point of odd order, given that chord-and-tangent addition is a group law. */
module Group {
  import opened Arith
  import opened Congruence
  import opened CurveMath

  /** Adding three curve points stays on the curve and does not depend on the grouping. */
  ghost predicate AssociatesAt(q: Point, r: Point, s: Point, b: int, p: nat)
    requires Prime(p) && p > 3
  {
    OnCurve(q, b, p) && OnCurve(r, b, p) && OnCurve(s, b, p) ==>
      && OnCurve(Plus(q, r, p), b, p) && OnCurve(Plus(r, s, p), b, p)
      && Plus(Plus(q, r, p), s, p) == Plus(q, Plus(r, s, p), p)
  }

  /** Chord-and-tangent addition is a group law, as it is on every nonsingular curve. */
  ghost predicate GroupLaw(b: int, p: nat) {
    && Prime(p) && p > 3 && p % 2 == 1
    && forall q, r, s :: AssociatesAt(q, r, s, b, p)
  }

  ghost function Times(k: nat, g: Point, b: int, p: nat): (r: Point)
    requires GroupLaw(b, p) && OnCurve(g, b, p)
    ensures OnCurve(r, b, p)
  {
    if k == 0 then Infinity
    else
      var h := Times(k - 1, g, b, p);
      assert AssociatesAt(h, g, Infinity, b, p);
      Plus(h, g, p)
  }

  lemma PlusInfinity(q: Point, b: int, p: nat)
    requires Prime(p) && p > 3 && OnCurve(q, b, p)
    ensures Plus(q, Infinity, p) == q && Plus(Infinity, q, p) == q
  {
  }

  lemma {:induction false} TimesAdd(i: nat, j: nat, g: Point, b: int, p: nat)
    requires GroupLaw(b, p) && OnCurve(g, b, p)
    ensures Times(i + j, g, b, p) == Plus(Times(i, g, b, p), Times(j, g, b, p), p)
    decreases j
  {
    hide Plus, OnCurve;
    if j > 0 {
      TimesAdd(i, j - 1, g, b, p);
      assert AssociatesAt(Times(i, g, b, p), Times(j - 1, g, b, p), g, b, p);
    } else {
      PlusInfinity(Times(i, g, b, p), b, p);
    }
  }

  lemma TimesOne(g: Point, b: int, p: nat)
    requires GroupLaw(b, p) && OnCurve(g, b, p)
    ensures Times(1, g, b, p) == g && Times(2, g, b, p) == Plus(g, g, p)
  {
    hide Plus, OnCurve;
    assert Times(0, g, b, p) == Infinity;
    PlusInfinity(g, b, p);
  }

  /** `n` is the order of `g`, and it is odd. */
  ghost predicate OddOrder(n: nat, g: Point, b: int, p: nat) {
    && GroupLaw(b, p) && OnCurve(g, b, p)
    && n % 2 == 1 && Times(n, g, b, p) == Infinity
    && forall i: nat | 0 < i < n :: Times(i, g, b, p) != Infinity
  }

  lemma {:induction false} TimesOfMultiple(q: nat, n: nat, g: Point, b: int, p: nat)
    requires OddOrder(n, g, b, p)
    ensures Times(q * n, g, b, p) == Infinity
  {
    hide Plus, OnCurve;
    PlusInfinity(Infinity, b, p);
    if q > 0 {
      TimesOfMultiple(q - 1, n, g, b, p);
      Distrib(q - 1, 1, n);
      TimesAdd((q - 1) * n, n, g, b, p);
    } else {
      assert q * n == 0;
    }
  }

  /** Multiples depend on the multiplier only modulo the order. */
  lemma TimesMod(k: nat, n: nat, g: Point, b: int, p: nat)
    requires OddOrder(n, g, b, p)
    ensures Times(k, g, b, p) == Times(k % n, g, b, p)
    ensures Times(k, g, b, p) == Infinity <==> k % n == 0
  {
    hide Plus, OnCurve, Prime;
    var q, r := k / n, k % n;
    QuotientAndRest(k, n);
    TimesOfMultiple(q, n, g, b, p);
    TimesAdd(q * n, r, g, b, p);
    PlusInfinity(Times(r, g, b, p), b, p);
  }

  lemma QuotientAndRest(k: nat, n: nat)
    requires n > 0
    ensures k == k / n * n + k % n && k / n * n >= 0 && k % n < n
  {
    MulMono(0, k / n, n);
  }

  lemma TimesCong(i: nat, j: nat, n: nat, g: Point, b: int, p: nat)
    requires OddOrder(n, g, b, p) && i % n == j % n
    ensures Times(i, g, b, p) == Times(j, g, b, p)
  {
    TimesMod(i, n, g, b, p);
    TimesMod(j, n, g, b, p);
  }

  /** Two curve points with equal abscissas are equal or mirror images. */
  lemma SameAbscissa(q: Point, r: Point, b: int, p: nat)
    requires Prime(p) && OnCurve(q, b, p) && OnCurve(r, b, p) && q.Affine? && r.Affine? && q.x == r.x
    ensures r == q || r == Neg(q, p)
  {
    CongDiff(q.y * q.y, r.y * r.y, p);
    DifferenceOfSquares(q.y, r.y);
    PrimeDividesProduct(p, q.y - r.y, q.y + r.y);
    if Divides(p, q.y - r.y) {
      CongDiff(q.y, r.y, p);
      CongSmall(q.y, r.y, p);
    } else {
      CongDiff(r.y, 0 - q.y, p);
      CongOfMod(0 - q.y, p);
      CongSmall(r.y, (0 - q.y) % p, p);
    }
  }

  lemma DifferenceOfSquares(x: int, y: int)
    ensures x * x - y * y == (x - y) * (x + y)
  {
  }

  /** Only the mirror image adds up to infinity. */
  lemma InfiniteSum(q: Point, r: Point, b: int, p: nat)
    requires Prime(p) && p > 3 && OnCurve(q, b, p) && OnCurve(r, b, p) && Plus(q, r, p) == Infinity
    ensures r == Neg(q, p)
  {
    if q.Affine? && r.Affine? {
      SameAbscissa(q, r, b, p);
      if r == q {
        ModSmall(0, p);
      }
    }
  }

  lemma NegTimes(i: nat, j: nat, n: nat, g: Point, b: int, p: nat)
    requires OddOrder(n, g, b, p) && (i + j) % n == 0
    ensures Neg(Times(i, g, b, p), p) == Times(j, g, b, p)
  {
    hide Plus, OnCurve, Neg;
    TimesAdd(i, j, g, b, p);
    TimesMod(i + j, n, g, b, p);
    InfiniteSum(Times(i, g, b, p), Times(j, g, b, p), b, p);
  }

  /** What has to be added to reach the next multiple of n. */
  lemma Complement(j: nat, n: nat) returns (k: nat)
    requires n > 0
    ensures (j + k) % n == 0
  {
    k := n - j % n;
    CongOfMod(j, n);
    CongAdd(j % n, j, k, k, n);
    DivOfSum(j % n + k, 1, 0, n);
  }

  lemma DifferenceMod(i: nat, j: nat, k: nat, m: nat, n: nat)
    requires n > 0 && (j + k) % n == 0 && (j + m) % n == i % n
    ensures (i + k) % n == m % n
  {
    ModSmall(0, n);
    CongAdd(j + m, i, k, k, n);
    CongAdd(j + k, 0, m, m, n);
  }

  /** i·g - j·g, written with any m that makes up the difference. */
  lemma TimesMinus(i: nat, j: nat, m: nat, n: nat, g: Point, b: int, p: nat)
    requires OddOrder(n, g, b, p) && (j + m) % n == i % n
    ensures Plus(Times(i, g, b, p), Neg(Times(j, g, b, p), p), p) == Times(m, g, b, p)
  {
    hide Plus, OnCurve, Neg;
    var k := Complement(j, n);
    NegTimes(j, k, n, g, b, p);
    TimesAdd(i, k, g, b, p);
    DifferenceMod(i, j, k, m, n);
    TimesCong(i + k, m, n, g, b, p);
  }

  /** Different multiples, up to sign, have different abscissas. */
  lemma DistinctAbscissas(i: nat, j: nat, n: nat, g: Point, b: int, p: nat)
    requires OddOrder(n, g, b, p)
    requires i % n != 0 && j % n != 0 && i % n != j % n && (i + j) % n != 0
    ensures Times(i, g, b, p).Affine? && Times(j, g, b, p).Affine?
    ensures Times(i, g, b, p).x != Times(j, g, b, p).x
  {
    hide Plus, OnCurve, Neg;
    TimesMod(i, n, g, b, p);
    TimesMod(j, n, g, b, p);
    var q, r := Times(i, g, b, p), Times(j, g, b, p);
    if q.x == r.x {
      SameAbscissa(q, r, b, p);
      var k := Complement(i, n);
      NegTimes(i, k, n, g, b, p);
      if r == q {
        EqualMultiples(j, i, n, g, b, p);
      } else {
        EqualMultiples(j, k, n, g, b, p);
        CongAdd(j, k, i, i, n);
      }
    }
  }

  lemma EqualMultiples(i: nat, j: nat, n: nat, g: Point, b: int, p: nat)
    requires OddOrder(n, g, b, p) && Times(i, g, b, p) == Times(j, g, b, p)
    ensures i % n == j % n
  {
    hide Plus, OnCurve, Neg;
    var k := Complement(j, n);
    TimesAdd(i, k, g, b, p);
    TimesAdd(j, k, g, b, p);
    TimesMod(i + k, n, g, b, p);
    TimesMod(j + k, n, g, b, p);
    ModSmall(0, n);
    CongAdd(i + k, j + k, k, k, n);
  }

  /** A point of odd order is not its own mirror image. */
  lemma NonzeroOrdinate(i: nat, n: nat, g: Point, b: int, p: nat)
    requires OddOrder(n, g, b, p) && i % n != 0
    ensures Times(i, g, b, p).Affine? && Times(i, g, b, p).y != 0
  {
    hide Plus, OnCurve;
    TimesMod(i, n, g, b, p);
    var q := Times(i, g, b, p);
    if q.y == 0 {
      TimesAdd(i, i, g, b, p);
      PlusSelf(q, b, p);
      TimesMod(2 * i, n, g, b, p);
      OddDividesHalf(n, i);
    }
  }

  lemma PlusSelf(q: Point, b: int, p: nat)
    requires Prime(p) && p > 3 && OnCurve(q, b, p) && q.Affine? && q.y == 0
    ensures Plus(q, q, p) == Infinity
  {
  }
}
