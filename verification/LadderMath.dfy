/** What the co-Z ladder computes, for every scalar and every point of odd order. */
module LadderMath {
  import opened Arith
  import opened Bits
  import opened Congruence
  import opened CoZ
  import opened CurveMath
  import opened Jacobian
  import opened Ladder
  import opened Group

  // ---- One bit ----

  /** The registers hold j·g and (j + 1)·g at the common denominator z. */
  ghost predicate AtState(r: Pairs, z: nat, j: nat, g: Point, b: int, p: nat)
    requires GroupLaw(b, p) && OnCurve(g, b, p)
  {
    Represents(r.x1, r.y1, z, Times(j, g, b, p), p) && Represents(r.x2, r.y2, z, Times(j + 1, g, b, p), p)
  }

  /** No addition in the step from prefix `j` meets infinity or equal abscissas. */
  predicate SafePrefix(j: nat, n: nat)
    requires n > 0
  {
    j % n != 0 && (j + 1) % n != 0 && (2 * j + 1) % n != 0
  }

  /** The difference of the registers: g when register 1 comes first, -g otherwise. */
  function DiffMultiple(bit: int, n: nat): nat
    requires n > 1
  {
    if bit == 1 then 1 else n - 1
  }

  lemma OffByOne(j: nat, n: nat)
    requires n > 2
    ensures j % n != (j + 1) % n
    ensures (j + 1 + (n - 1)) % n == j % n
  {
    CongDiff(j + 1, j, n);
    ModSmall(1, n);
    CongOf(j + 1 + (n - 1), j, 1, n);
  }

  lemma AddCMeaning(r: Pairs, z: nat, j: nat, bit: int, n: nat, g: Point, b: int, p: nat) returns (w: nat)
    requires OddOrder(n, g, b, p) && n > 2 && AtState(r, z, j, g, b, p) && SafePrefix(j, n) && 0 <= bit <= 1
    ensures var c := Oriented(AddCStep(r, bit, p), bit);
      && Represents(c.x1, c.y1, w, Times(DiffMultiple(bit, n), g, b, p), p)
      && Represents(c.x2, c.y2, w, Times(2 * j + 1, g, b, p), p)
  {
    hide Times, Plus, OnCurve, Prime, CoZAddC, Represents, Neg;
    var q := Oriented(r, bit);
    OffByOne(j, n);
    DistinctAbscissas(j + bit, j + 1 - bit, n, g, b, p);
    var A, B := Times(j + bit, g, b, p), Times(j + 1 - bit, g, b, p);
    CoZAddCMeaning(q, z, A, B, p);
    TimesAdd(j + bit, j + 1 - bit, g, b, p);
    TimesMinus(j + bit, j + 1 - bit, DiffMultiple(bit, n), n, g, b, p);
    w := CoZDenominator(q, z, p);
    OrientedTwice(CoZAddC(q, p), bit);
  }

  lemma OrientedTwice(r: Pairs, bit: int)
    ensures Oriented(Oriented(r, bit), bit) == r
  {
  }

  /** 2j+1 and ±1 have different abscissas as multiples of g. */
  lemma SumApart(j: nat, bit: int, n: nat)
    requires n > 2 && n % 2 == 1 && SafePrefix(j, n) && 0 <= bit <= 1
    ensures (2 * j + 1) % n != DiffMultiple(bit, n) % n && DiffMultiple(bit, n) % n != 0
    ensures (2 * j + 1 + DiffMultiple(bit, n)) % n != 0
    ensures (2 * j + 1 + DiffMultiple(bit, n)) % n == (2 * j + 2 * bit) % n
  {
    ModSmall(1, n);
    ModSmall(n - 1, n);
    if (2 * j) % n == 0 {
      OddDividesHalf(n, j);
    }
    if (2 * (j + 1)) % n == 0 {
      OddDividesHalf(n, j + 1);
    }
    ModSmall(0, n);
    CongDiff(2 * j + 1, 1, n);
    CongDiff(2 * j + 1, n - 1, n);
    var q: int := 1;
    CongOf(2 * j + 1 - (n - 1), 2 * (j + 1), -q, n);
    CongOf(2 * j + 1 + (n - 1), 2 * j, 1, n);
  }

  lemma AddMeaning(c: Pairs, z: nat, j: nat, bit: int, n: nat, g: Point, b: int, p: nat) returns (w: nat)
    requires OddOrder(n, g, b, p) && n > 2 && SafePrefix(j, n) && 0 <= bit <= 1
    requires var o := Oriented(c, bit);
      && Represents(o.x1, o.y1, z, Times(DiffMultiple(bit, n), g, b, p), p)
      && Represents(o.x2, o.y2, z, Times(2 * j + 1, g, b, p), p)
    ensures w == CoZDenominator(Oriented(c, 1 - bit), z, p)
    ensures AtState(AddStep(c, bit, p), w, 2 * j + bit, g, b, p)
  {
    hide Times, Plus, OnCurve, Prime, CoZAdd, Represents;
    var q := Oriented(c, 1 - bit);
    SumApart(j, bit, n);
    DistinctAbscissas(2 * j + 1, DiffMultiple(bit, n), n, g, b, p);
    var A, B := Times(2 * j + 1, g, b, p), Times(DiffMultiple(bit, n), g, b, p);
    CoZAddMeaning(q, z, A, B, p);
    TimesAdd(2 * j + 1, DiffMultiple(bit, n), g, b, p);
    TimesCong(2 * j + 1 + DiffMultiple(bit, n), 2 * j + 2 * bit, n, g, b, p);
    w := CoZDenominator(q, z, p);
    OrientedTwice(CoZAdd(q, p), 1 - bit);
  }

  lemma StepMeaning(r: Pairs, z: nat, j: nat, bit: int, n: nat, g: Point, b: int, p: nat) returns (w: nat)
    requires OddOrder(n, g, b, p) && n > 2 && AtState(r, z, j, g, b, p) && SafePrefix(j, n) && 0 <= bit <= 1
    ensures AtState(AddStep(AddCStep(r, bit, p), bit, p), w, 2 * j + bit, g, b, p)
  {
    hide Times, Plus, OnCurve, Prime, Represents, CoZAdd, CoZAddC;
    w := AddCMeaning(r, z, j, bit, n, g, b, p);
    w := AddMeaning(AddCStep(r, bit, p), w, j, bit, n, g, b, p);
  }

  // ---- All bits but the last ----

  /** The scalar without its lowest `i` bits. */
  function Prefix(k: nat, i: nat): (r: nat)
    ensures r * Pow2(i) <= k < (r + 1) * Pow2(i)
  {
    QuotientBounds(k, Pow2(i));
    k / Pow2(i)
  }

  lemma PrefixStep(k: nat, i: nat)
    ensures Prefix(k, i) == 2 * Prefix(k, i + 1) + BitAt(k, i)
  {
    DivDiv(k, Pow2(i), 2);
  }

  /** Bit `t` of the word value is that of `k`, and the prefix above it is safe. */
  predicate SafeAt(s: nat, k: nat, t: nat, n: nat)
    requires n > 0
  {
    BitAt(s, t) == BitAt(k, t) && SafePrefix(Prefix(k, t + 1), n)
  }

  /** As long as every prefix met is safe, the registers follow the prefixes of `k`. */
  lemma {:induction false} RunMeaning(start: Pairs, z0: nat, s: nat, k: nat, top: nat, i: nat,
                                      n: nat, g: Point, b: int, p: nat) returns (z: nat)
    requires OddOrder(n, g, b, p) && n > 2 && i <= top
    requires AtState(start, z0, 1, g, b, p) && Prefix(k, top) == 1
    requires forall t | i <= t < top :: SafeAt(s, k, t, n)
    ensures AtState(Run(start, s, top, i, p), z, Prefix(k, i), g, b, p)
    decreases top - i
  {
    assert p > 0 && n > 0;
    hide AtState, AddStep, AddCStep, OddOrder, BitAt, SafePrefix, Pow2, Prefix;
    if i == top {
      z := z0;
    } else {
      z := RunMeaning(start, z0, s, k, top, i + 1, n, g, b, p);
      PrefixStep(k, i);
      assert SafeAt(s, k, i, n);
      BitIsBit(k, i);
      z := StepMeaning(Run(start, s, top, i + 1, p), z, Prefix(k, i + 1), BitAt(s, i), n, g, b, p);
    }
  }

  lemma BitIsBit(k: nat, i: nat)
    ensures 0 <= BitAt(k, i) <= 1
  {
  }

  lemma StartMeaning(g: Point, z: nat, n: nat, b: int, p: nat) returns (w: nat)
    requires OddOrder(n, g, b, p) && n > 2 && g.Affine? && z < p && z % p != 0
    ensures AtState(StartOf(g.x, g.y, z, p), w, 1, g, b, p)
  {
    hide Times, Plus, Prime, Represents, InitialDoubleOf;
    TimesOne(g, b, p);
    ModSmall(1, n);
    NonzeroOrdinate(1, n, g, b, p);
    w := InitialDoubleMeaning(g, z, p);
  }

  // ---- The last bit ----

  /** z computed as v·Xb / (e·Yb·u) inverts the denominator, when Yb is v or -v at w. */
  lemma FinalInverse(d: nat, e: nat, xb: nat, yb: nat, u: nat, v: nat, sg: int, w: nat, z: nat, p: nat)
    requires Prime(p) && u < p && v < p && u != 0 && v != 0 && w % p != 0 && e % p != 0
    requires sg == 1 || sg == -1
    requires Cong(xb, u * (w * w), p) && Cong(yb, sg * v * (w * w * w), p)
    requires d == FMul(FMul(e, yb, p), u, p) && z == FMul(FMul(InvOf(d, p), v, p), xb, p)
    ensures Cong(z * (sg * e * w), 1, p)
  {
    hide Prime, FInv;
    var ww := w * w;
    var www := w * w * w;
    ModSmall(u, p);
    ModSmall(v, p);
    NonzeroProduct(w, w, p);
    NonzeroProduct(ww, w, p);
    NonzeroProduct(v, www, p);
    var Y := sg * v * www;
    SignedNonzero(sg, v, www, p);
    MulIs(e, yb, e, Y, p);
    MulIs(FMul(e, yb, p), u, e * Y, u, p);
    NonzeroProduct(e, Y, p);
    NonzeroProduct(e * Y, u, p);
    var i := FInv(d, p);
    MulIs(i, v, i, v, p);
    MulIs(FMul(i, v, p), xb, i * v, u * ww, p);
    // z·d is v·u·w^2, and d is e·sg·v·w^3·u
    CongMul(z, i * v * (u * ww), d, d, p);
    CongMul(i * d, 1, v * (u * ww), v * (u * ww), p);
    PolyShuffle(i, d, v, u * ww);
    CongMul(z, z, d, e * Y * u, p);
    PolyCancel(z, e, sg, v, w, u);
    NonzeroProduct(u, ww, p);
    NonzeroProduct(v, u * ww, p);
    CancelCong(z * (sg * e * w), 1, v * (u * ww), p);
  }

  lemma SignedNonzero(sg: int, v: int, www: int, p: nat)
    requires p > 0 && (sg == 1 || sg == -1) && v * www % p != 0
    ensures sg * v * www % p != 0
  {
    if sg == -1 {
      assert sg * v * www == 0 - v * www;
      ModSmall(0, p);
      if (0 - v * www) % p == 0 {
        CongAdd(0, 0, 0 - v * www, 0, p);
      }
    }
  }

  lemma PolyShuffle(i: int, d: int, v: int, x: int)
    ensures i * v * x * d == (i * d) * (v * x)
  {
  }

  lemma PolyCancel(z: int, e: int, sg: int, v: int, w: int, u: int)
    ensures z * (e * (sg * v * (w * w * w)) * u) == (z * (sg * e * w)) * (v * (u * (w * w)))
  {
  }

  /** The difference register holds g or -g, so its ordinate is that of g up to sign. */
  lemma DifferenceRegister(bit: int, n: nat, g: Point, b: int, p: nat) returns (sg: int)
    requires OddOrder(n, g, b, p) && n > 2 && 0 <= bit <= 1
    ensures sg == (if bit == 1 then 1 else -1)
    ensures g.Affine? && g.y != 0
    ensures var d := Times(DiffMultiple(bit, n), g, b, p);
      d.Affine? && d.x == g.x && Cong(d.y, sg * g.y, p)
  {
    hide Plus, Prime;
    sg := if bit == 1 then 1 else -1;
    TimesOne(g, b, p);
    ModSmall(1, n);
    NonzeroOrdinate(1, n, g, b, p);
    if bit == 0 {
      DivOfSum(1 + (n - 1), 1, 0, n);
      NegTimes(1, n - 1, n, g, b, p);
      CongOfMod(0 - g.y, p);
    }
  }

  /** The denominator XYcZ_add will produce is w (Xb - Xa), up to the sign of X1 - X0. */
  lemma DenominatorSigned(c: Pairs, bit: int, w: nat, sg: int, p: nat)
    requires p > 0 && (sg == 1 || sg == -1) && 0 <= bit <= 1 && sg == (if bit == 1 then 1 else -1)
    ensures Cong(CoZDenominator(Oriented(c, 1 - bit), w, p), sg * FSub(c.x2, c.x1, p) * w, p)
  {
    var q := Oriented(c, 1 - bit);
    var e := FSub(c.x2, c.x1, p);
    SubIs(q.x2, q.x1, q.x2, q.x1, p);
    SubIs(c.x2, c.x1, c.x2, c.x1, p);
    CongMul(sg, sg, e, c.x2 - c.x1, p);
    MulIs(w, FSub(q.x2, q.x1, p), w, sg * e, p);
    CommuteSigned(w, sg * e);
  }

  lemma CommuteSigned(w: int, x: int)
    ensures w * x == x * w
  {
  }

  /** Register 0 leaves as the affine point at the prefix 2j + bit. */
  lemma FinishMeaning(r: Pairs, z: nat, j: nat, bit: int, n: nat, g: Point, b: int, p: nat)
    requires OddOrder(n, g, b, p) && n > 2 && AtState(r, z, j, g, b, p) && SafePrefix(j, n) && 0 <= bit <= 1
    requires g.Affine? && g.x != 0
    ensures var f := FinishOf(r, bit, g.x, g.y, p);
      Times(2 * j + bit, g, b, p) == Affine(f.x, f.y)
  {
    assert g.x < p && g.y < p && Prime(p);
    hide Times, Plus, Prime, CoZAdd, CoZAddC, OnCurve, FinalZ, ApplyZOf, GroupLaw;
    var c := AddCStep(r, bit, p);
    var w := AddCMeaning(r, z, j, bit, n, g, b, p);
    var w3 := AddMeaning(c, w, j, bit, n, g, b, p);
    var a := AddStep(c, bit, p);
    var sg := DifferenceRegister(bit, n, g, b, p);
    var fz := FinalZ(c, bit, g.x, g.y, p);
    FinalZInverts(c, w, bit, sg, n, g, b, p, Times(DiffMultiple(bit, n), g, b, p));
    MadeAffine(a.x1, a.y1, w3, fz, Times(2 * j + bit, g, b, p), p);
  }

  /** Applying the inverse of the denominator leaves the affine coordinates. */
  lemma MadeAffine(X: nat, Y: nat, w: nat, z: nat, A: Point, p: nat)
    requires Prime(p) && Represents(X, Y, w, A, p) && z < p && Cong(z * w, 1, p)
    ensures var f := ApplyZOf(X, Y, z, p);
      A == Affine(f.x, f.y)
  {
    hide Prime;
    assert p > 1 by { PrimeAboveOne(p); }
    InverseNonzero(z, w, p);
    ApplyZMeaning(X, Y, w, z, A, p);
    MulIs(w, z, w, z, p);
    CommuteSigned(w, z);
    var f := ApplyZOf(X, Y, z, p);
    FromOne(f.x, f.y, FMul(w, z, p), A, p);
  }

  lemma PrimeAboveOne(p: nat)
    requires Prime(p)
    ensures p > 1
  {
  }

  lemma InverseNonzero(z: nat, w: nat, p: nat)
    requires p > 1 && Cong(z * w, 1, p)
    ensures z % p != 0
  {
    ModSmall(1, p);
    ModSmall(0, p);
    if z % p == 0 {
      CongMul(z, 0, w, w, p);
    }
  }

  lemma FinalZInverts(c: Pairs, w: nat, bit: int, sg: int, n: nat, g: Point, b: int, p: nat, D: Point)
    requires Prime(p) && 0 <= bit <= 1 && sg == (if bit == 1 then 1 else -1)
    requires g.Affine? && 0 < g.x < p && 0 < g.y < p
    requires D.Affine? && D.x == g.x && Cong(D.y, sg * g.y, p)
    requires var o := Oriented(c, bit);
      Represents(o.x1, o.y1, w, D, p)
    requires CoZDenominator(Oriented(c, 1 - bit), w, p) % p != 0
    ensures var fz := FinalZ(c, bit, g.x, g.y, p);
      fz < p && Cong(fz * CoZDenominator(Oriented(c, 1 - bit), w, p), 1, p)
  {
    hide Prime, InvOf;
    var o := Oriented(c, bit);
    var e := FSub(c.x2, c.x1, p);
    var fz := FinalZ(c, bit, g.x, g.y, p);
    var d := FMul(FMul(e, o.y1, p), g.x, p);
    var w3 := CoZDenominator(Oriented(c, 1 - bit), w, p);
    DenominatorSigned(c, bit, w, sg, p);
    FactorNonzero(sg, e, w, w3, p);
    CongMul(D.y, sg * g.y, w * w * w, w * w * w, p);
    FinalInverse(d, e, o.x1, o.y1, g.x, g.y, sg, w, fz, p);
    CongMul(fz, fz, w3, sg * e * w, p);
  }

  lemma FactorNonzero(sg: int, e: int, w: int, w3: int, p: nat)
    requires p > 0 && Cong(w3, sg * e * w, p) && w3 % p != 0
    ensures e % p != 0
  {
    ModSmall(0, p);
    if e % p == 0 {
      CongMul(sg, sg, e, 0, p);
      CongMul(sg * e, 0, w, w, p);
    }
  }

  // ---- When it goes wrong ----

  lemma ZeroOf(x: nat, p: nat)
    requires p > 0
    ensures FMul(x, 0, p) == 0 && FMul(0, x, p) == 0
    ensures x < p ==> FSub(x, 0, p) == x && FSub(x, x, p) == 0 && FAdd(x, 0, p) == x && FAdd(0, x, p) == x
  {
    ModSmall(0, p);
    if x < p {
      ModSmall(x, p);
    }
  }

  /** A register (a^2, a^3): what remains of a point at denominator zero. */
  ghost predicate Cusp(x: nat, y: nat, a: int, p: nat)
    requires p > 0
  {
    x < p && y < p && Cong(x, a * a, p) && Cong(y, a * a * a, p)
  }

  /** addC on two opposite points leaves (0,0) and a cusp. */
  lemma OppositeCollapses(q: Pairs, p: nat) returns (a: int)
    requires p > 0 && q.x1 == q.x2 && q.x1 < p && q.y1 < p && FAdd(q.y2, q.y1, p) == 0
    ensures var r := CoZAddC(q, p);
      r.x1 == 0 && r.y1 == 0 && Cusp(r.x2, r.y2, a, p)
  {
    hide FMul, FSub, FAdd;
    ZeroOf(q.x1, p);
    ZeroOf(q.y1, p);
    ZeroOf(0, p);
    ZeroOf(q.x2, p);
    var dy: int := FSub(q.y2, q.y1, p);
    var x3 := FMul(dy, dy, p);
    ZeroOf(x3, p);
    a := 0 - dy;
    MulIs(dy, dy, dy, dy, p);
    ModSmall(0, p);
    SubIs(0, x3, 0, dy * dy, p);
    MulIs(dy, FSub(0, x3, p), dy, 0 - dy * dy, p);
    SubIs(FMul(dy, FSub(0, x3, p), p), 0, dy * (0 - dy * dy), 0, p);
    PolyMinusCube(dy);
  }

  lemma PolyMinusCube(d: int)
    ensures d * (0 - d * d) == (0 - d) * (0 - d) * (0 - d) && d * d == (0 - d) * (0 - d)
  {
  }

  lemma PolySigns(x: int, y: int)
    ensures (0 - x) * (0 - x) == x * x
    ensures x * (0 - y) == 0 - x * y && (0 - x) * y == 0 - x * y
    ensures x * y == y * x
  {
  }

  lemma PolyCusp(a: int)
    ensures (a * a) * ((a * a) * (a * a)) == (a * a * a) * (a * a * a)
  {
  }

  /** With x = s and y = c, where s^3 = c^2: the values both formulas build from (x, y) and (0, 0). */
  lemma CuspTerms(x: nat, y: nat, s: int, c: int, p: nat)
    requires p > 0 && x < p && y < p && Cong(x, s, p) && Cong(y, c, p) && s * (s * s) == c * c
    ensures var d := FSub(0, x, p);
      var b := FMul(x, FMul(d, d, p), p);
      var dy := FSub(0, y, p);
      var e := FMul(y, FSub(0, b, p), p);
      && Cong(b, c * c, p) && Cong(dy, 0 - c, p) && Cong(e, 0 - c * (c * c), p)
      && FSub(FMul(dy, dy, p), b, p) == 0 && FSub(FMul(y, y, p), b, p) == 0
      && FSub(FMul(dy, b, p), e, p) == 0
      && FSub(FMul(FSub(0, b, p), y, p), e, p) == 0
  {
    hide FMul, FSub, FAdd;
    var d := FSub(0, x, p);
    var dd := FMul(d, d, p);
    var b := FMul(x, dd, p);
    var dy := FSub(0, y, p);
    var nb := FSub(0, b, p);
    var e := FMul(y, nb, p);
    ModSmall(0, p);
    PolySigns(s, s);
    SubIs(0, x, 0, s, p);
    MulIs(d, d, 0 - s, 0 - s, p);
    MulIs(x, dd, s, s * s, p);
    PolySigns(c, c);
    PolySigns(c, c * c);
    SubIs(0, y, 0, c, p);
    SubIs(0, b, 0, c * c, p);
    MulIs(dy, dy, 0 - c, 0 - c, p);
    MulIs(y, y, c, c, p);
    MulIs(y, nb, c, 0 - c * c, p);
    MulIs(dy, b, 0 - c, c * c, p);
    MulIs(nb, y, 0 - c * c, c, p);
    PolySigns(c * c, c);
    Vanishes(FMul(dy, dy, p), b, c * c, p);
    Vanishes(FMul(y, y, p), b, c * c, p);
    Vanishes(FMul(dy, b, p), e, 0 - c * (c * c), p);
    Vanishes(FMul(nb, y, p), e, 0 - c * (c * c), p);
  }

  lemma Vanishes(x: nat, y: nat, v: int, p: nat)
    requires p > 0 && Cong(x, v, p) && Cong(y, v, p)
    ensures FSub(x, y, p) == 0
  {
    SubIs(x, y, v, v, p);
    ModSmall(0, p);
    CongSmall(FSub(x, y, p), 0, p);
  }

  /** add on a cusp and (0,0) leaves a cusp and (0,0). */
  lemma CuspAdds(q: Pairs, a: int, p: nat)
    requires p > 0 && Cusp(q.x1, q.y1, a, p) && q.x2 == 0 && q.y2 == 0
    ensures var r := CoZAdd(q, p);
      Cusp(r.x1, r.y1, 0 - a * a * a, p) && r.x2 == 0 && r.y2 == 0
  {
    hide FMul, FSub, FAdd;
    var c := a * a * a;
    PolyCusp(a);
    CuspTerms(q.x1, q.y1, a * a, c, p);
    var d := FSub(0, q.x1, p);
    ZeroOf(FMul(d, d, p), p);
    var b := FMul(q.x1, FMul(d, d, p), p);
    ZeroOf(b, p);
    ZeroOf(0, p);
    PolyMinusPowers(c);
  }

  lemma PolyMinusPowers(c: int)
    ensures c * c == (0 - c) * (0 - c) && 0 - c * (c * c) == (0 - c) * (0 - c) * (0 - c)
  {
  }

  /** addC on a cusp and (0,0), in either order, leaves nothing. */
  lemma CuspVanishes(q: Pairs, a: int, p: nat)
    requires p > 0
    requires (Cusp(q.x1, q.y1, a, p) && q.x2 == 0 && q.y2 == 0)
          || (Cusp(q.x2, q.y2, a, p) && q.x1 == 0 && q.y1 == 0)
    ensures CoZAddC(q, p) == Pairs(0, 0, 0, 0)
  {
    if Cusp(q.x1, q.y1, a, p) && q.x2 == 0 && q.y2 == 0 {
      CuspFirst(q, a, p);
    } else {
      CuspSecond(q, a, p);
    }
  }

  lemma CuspFirst(q: Pairs, a: int, p: nat)
    requires p > 0 && Cusp(q.x1, q.y1, a, p) && q.x2 == 0 && q.y2 == 0
    ensures CoZAddC(q, p) == Pairs(0, 0, 0, 0)
  {
    hide FMul, FSub, FAdd;
    PolyCusp(a);
    CuspTerms(q.x1, q.y1, a * a, a * a * a, p);
    var d := FSub(0, q.x1, p);
    ZeroOf(FMul(d, d, p), p);
    var b := FMul(q.x1, FMul(d, d, p), p);
    ZeroOf(b, p);
    ZeroOf(q.y1, p);
  }

  lemma CuspSecond(q: Pairs, a: int, p: nat)
    requires p > 0 && Cusp(q.x2, q.y2, a, p) && q.x1 == 0 && q.y1 == 0
    ensures CoZAddC(q, p) == Pairs(0, 0, 0, 0)
  {
    hide FMul, FSub, FAdd;
    ModSmall(0, p);
    ZeroOf(q.x2, p);
    ZeroOf(q.y2, p);
    ZeroOf(0, p);
    var x := q.x2;
    var aa := FMul(x, x, p);
    var c := FMul(x, aa, p);
    ZeroOf(aa, p);
    ZeroOf(c, p);
    var c3 := a * a * a;
    MulIs(x, x, a * a, a * a, p);
    MulIs(x, aa, a * a, (a * a) * (a * a), p);
    PolyCusp(a);
    MulIs(q.y2, q.y2, c3, c3, p);
    Vanishes(FMul(q.y2, q.y2, p), c, c3 * c3, p);
  }

  /** From opposite registers the last two bits leave every register zero, and so does the result. */
  lemma CollapseMeaning(r: Pairs, bit1: int, bit0: int, px: nat, py: nat, p: nat)
    requires Prime(p) && 0 <= bit1 <= 1 && 0 <= bit0 <= 1
    requires r.x1 == r.x2 && r.x1 < p && r.y1 < p && r.y2 < p
    requires FAdd(r.y2, r.y1, p) == 0 && FAdd(r.y1, r.y2, p) == 0
    ensures FinishOf(AddStep(AddCStep(r, bit1, p), bit1, p), bit0, px, py, p) == Pair(0, 0)
  {
    hide Prime, CoZAdd, CoZAddC, Cusp;
    var q := Oriented(r, bit1);
    var a := OppositeCollapses(q, p);
    var c := AddCStep(r, bit1, p);
    OrientedTwice(CoZAddC(q, p), bit1);
    var s := Oriented(c, 1 - bit1);
    CuspAdds(s, a, p);
    var t := AddStep(c, bit1, p);
    OrientedTwice(CoZAdd(s, p), 1 - bit1);
    CuspVanishes(Oriented(t, bit0), 0 - a * a * a, p);
    FinishOfNothing(t, bit0, px, py, p);
  }

  lemma FinishOfNothing(t: Pairs, bit: int, px: nat, py: nat, p: nat)
    requires Prime(p) && AddCStep(t, bit, p) == Pairs(0, 0, 0, 0)
    ensures FinishOf(t, bit, px, py, p) == Pair(0, 0)
  {
    hide Prime, FMul, FSub, FAdd;
    var c := AddCStep(t, bit, p);
    ZeroOf(0, p);
    ModSmall(0, p);
    ZeroOf(px, p);
    ZeroOf(py, p);
  }

  /** With abscissa zero the computed 1/Z is zero, and so is the result. */
  lemma ZeroAbscissa(r: Pairs, bit: int, py: nat, p: nat)
    requires Prime(p)
    ensures FinishOf(r, bit, 0, py, p) == Pair(0, 0)
  {
    assert p > 0;
    hide Prime, CoZAdd, CoZAddC, FMul, FSub;
    var c := AddCStep(r, bit, p);
    var a := AddStep(c, bit, p);
    var o := Oriented(c, bit);
    ZeroOf(FMul(FSub(c.x2, c.x1, p), o.y1, p), p);
    ModSmall(0, p);
    ZeroOf(py, p);
    ZeroOf(o.x1, p);
    ZeroOf(0, p);
    ZeroOf(a.x1, p);
    ZeroOf(a.y1, p);
  }

  // ---- The whole multiplication ----

  /** `k` has its leading 1 at bit `bits`, one above the length of the order, and `s` has its lower bits. */
  ghost predicate Regular(k: nat, s: nat, bits: nat, n: nat) {
    && 5 <= n && Pow2(bits) <= k < Pow2(bits + 1) && k <= 3 * n - 2
    && n < Pow2(bits) && 2 <= bits
    && forall t | 0 <= t < bits :: BitAt(s, t) == BitAt(k, t)
  }

  /** Some prefix of such a `k` is (n - 1)/2, and the two registers meet up to sign. */
  predicate Exceptional(k: nat, n: nat) {
    2 * n - 2 <= k <= 2 * n + 1
  }

  lemma TopPrefix(k: nat, bits: nat)
    requires Pow2(bits) <= k < Pow2(bits + 1)
    ensures Prefix(k, bits) == 1
  {
    DivOfSum(k, 1, k - Pow2(bits), Pow2(bits));
  }

  lemma {:induction false} PrefixAtLeastOne(k: nat, bits: nat, t: nat)
    requires Pow2(bits) <= k < Pow2(bits + 1) && t <= bits
    ensures Prefix(k, t) >= 1
    decreases bits - t
  {
    hide Pow2, Prefix, BitAt;
    if t == bits {
      TopPrefix(k, bits);
    } else {
      PrefixAtLeastOne(k, bits, t + 1);
      PrefixStep(k, t);
      BitIsBit(k, t);
    }
  }

  lemma LowPrefixes(k: nat)
    ensures Prefix(k, 0) == k && Prefix(k, 1) == k / 2 && Prefix(k, 2) == k / 4 && Prefix(k, 3) == k / 8
  {
    assert Pow2(0) == 1 && Pow2(1) == 2 && Pow2(2) == 4 && Pow2(3) == 8;
  }

  lemma {:induction false} PrefixShrinks(k: nat, t: nat)
    requires t >= 3
    ensures Prefix(k, t) <= k / 8
    decreases t
  {
    hide Pow2, Prefix, BitAt;
    if t == 3 {
      LowPrefixes(k);
    } else {
      PrefixShrinks(k, t - 1);
      PrefixStep(k, t - 1);
      BitIsBit(k, t - 1);
    }
  }

  lemma SafeSmall(j: nat, n: nat)
    requires 1 <= j && j + 1 < n && 2 * j + 1 < 2 * n && 2 * j + 1 != n
    ensures SafePrefix(j, n)
  {
    ModSmall(j, n);
    ModSmall(j + 1, n);
    if 2 * j + 1 < n {
      ModSmall(2 * j + 1, n);
    } else {
      DivOfSum(2 * j + 1, 1, 2 * j + 1 - n, n);
    }
  }

  /** Prefixes of at least three fewer bits are below 3n/8. */
  lemma SafeHigh(k: nat, s: nat, bits: nat, n: nat, t: nat)
    requires Regular(k, s, bits, n) && 2 <= t < bits
    ensures SafePrefix(Prefix(k, t + 1), n)
  {
    PrefixAtLeastOne(k, bits, t + 1);
    PrefixShrinks(k, t + 1);
    SafeSmall(Prefix(k, t + 1), n);
  }

  lemma SafeNextToLast(k: nat, s: nat, bits: nat, n: nat)
    requires Regular(k, s, bits, n) && n % 2 == 1 && !Exceptional(k, n)
    ensures SafePrefix(Prefix(k, 2), n)
  {
    PrefixAtLeastOne(k, bits, 2);
    LowPrefixes(k);
    SafeSmall(k / 4, n);
  }

  lemma SafeLast(k: nat, s: nat, bits: nat, n: nat)
    requires Regular(k, s, bits, n) && n % 2 == 1 && !Exceptional(k, n)
    ensures SafePrefix(Prefix(k, 1), n)
  {
    LowPrefixes(k);
    var j := k / 2;
    assert n < 2 * j + 1 < 3 * n && 2 * j + 1 != 2 * n;
    if j < n - 1 {
      ModSmall(j, n);
      ModSmall(j + 1, n);
      DivOfSum(2 * j + 1, 1, 2 * j + 1 - n, n);
    } else {
      DivOfSum(j, 1, j - n, n);
      DivOfSum(j + 1, 1, j + 1 - n, n);
      DivOfSum(2 * j + 1, 2, 2 * j + 1 - 2 * n, n);
    }
  }

  /** Up to bit 2 nothing can go wrong. */
  lemma RunHigh(g: Point, z: nat, k: nat, s: nat, bits: nat, i: nat, n: nat, b: int, p: nat) returns (w: nat)
    requires OddOrder(n, g, b, p) && g.Affine? && z < p && z % p != 0
    requires Regular(k, s, bits, n) && 1 <= i <= 2
    requires i == 1 ==> !Exceptional(k, n)
    ensures AtState(Run(StartOf(g.x, g.y, z, p), s, bits, i, p), w, Prefix(k, i), g, b, p)
  {
    hide AtState, StartOf, Run, Pow2, Prefix, SafePrefix, BitAt, Times;
    w := StartMeaning(g, z, n, b, p);
    TopPrefix(k, bits);
    forall t | i <= t < bits ensures SafeAt(s, k, t, n) {
      if t >= 2 {
        SafeHigh(k, s, bits, n, t);
      } else {
        SafeNextToLast(k, s, bits, n);
      }
    }
    w := RunMeaning(StartOf(g.x, g.y, z, p), w, s, k, bits, i, n, g, b, p);
  }

  /**
   The ladder returns k·g, except that it returns (0, 0) when the abscissa of g is zero or when
   2n - 2 <= k <= 2n + 1.
   */
  lemma MultCorrect(g: Point, z: nat, k: nat, s: nat, bits: nat, n: nat, b: int, p: nat)
    requires OddOrder(n, g, b, p) && g.Affine? && z < p && z % p != 0
    requires Regular(k, s, bits, n) && k % n != 0
    ensures var f := MultOf(g.x, g.y, s, z, bits + 1, p);
      && Times(k, g, b, p).Affine?
      && f == if g.x == 0 || Exceptional(k, n) then Pair(0, 0)
              else Pair(Times(k, g, b, p).x, Times(k, g, b, p).y)
  {
    assert Prime(p) && n > 0 && bits + 1 >= 2;
    hide AtState, MultOf, Regular, Prefix, SafePrefix, BitAt, Times, GroupLaw, Exceptional, Prime, OnCurve;
    TimesMod(k, n, g, b, p);
    if g.x == 0 {
      MultOfZero(g.y, s, z, bits + 1, p);
    } else if Exceptional(k, n) {
      MultCollapses(g, z, k, s, bits, n, b, p);
    } else {
      MultReaches(g, z, k, s, bits, n, b, p);
    }
  }

  lemma MultOfZero(py: nat, s: nat, z: nat, numBits: nat, p: nat)
    requires Prime(p) && numBits >= 2
    ensures MultOf(0, py, s, z, numBits, p) == Pair(0, 0)
  {
    assert p > 0;
    hide Run, FinishOf, Prime;
    ZeroAbscissa(Run(StartOf(0, py, z, p), s, numBits - 1, 1, p), BitAt(s, 0), py, p);
  }

  lemma MultReaches(g: Point, z: nat, k: nat, s: nat, bits: nat, n: nat, b: int, p: nat)
    requires OddOrder(n, g, b, p) && g.Affine? && z < p && z % p != 0
    requires Regular(k, s, bits, n) && !Exceptional(k, n) && g.x != 0
    ensures var f := MultOf(g.x, g.y, s, z, bits + 1, p);
      Times(k, g, b, p) == Affine(f.x, f.y)
  {
    hide AtState, StartOf, Run, FinishOf, Prefix, SafePrefix, BitAt, Times, GroupLaw, Exceptional, Pow2;
    var w := RunHigh(g, z, k, s, bits, 1, n, b, p);
    SafeLast(k, s, bits, n);
    BitIsBit(s, 0);
    FinishMeaning(Run(StartOf(g.x, g.y, z, p), s, bits, 1, p), w, Prefix(k, 1), BitAt(s, 0), n, g, b, p);
    PrefixStep(k, 0);
    LowPrefixes(k);
  }

  lemma MultCollapses(g: Point, z: nat, k: nat, s: nat, bits: nat, n: nat, b: int, p: nat)
    requires OddOrder(n, g, b, p) && g.Affine? && z < p && z % p != 0
    requires Regular(k, s, bits, n) && Exceptional(k, n)
    ensures MultOf(g.x, g.y, s, z, bits + 1, p) == Pair(0, 0)
  {
    assert Prime(p) && bits >= 2;
    hide AtState, StartOf, FinishOf, Prefix, BitAt, Times, GroupLaw, AddStep, AddCStep, Pow2, Regular, Exceptional, Prime;
    var w := RunHigh(g, z, k, s, bits, 2, n, b, p);
    MiddlePrefix(k, n);
    BitIsBit(s, 0);
    BitIsBit(s, 1);
    var r := Run(StartOf(g.x, g.y, z, p), s, bits, 2, p);
    RegistersOpposite(r, w, Prefix(k, 2), n, g, b, p);
    CollapseMeaning(r, BitAt(s, 1), BitAt(s, 0), g.x, g.y, p);
  }

  lemma MiddlePrefix(k: nat, n: nat)
    requires Exceptional(k, n) && n % 2 == 1
    ensures 2 * Prefix(k, 2) + 1 == n
  {
    LowPrefixes(k);
  }

  lemma RegistersOpposite(r: Pairs, w: nat, j: nat, n: nat, g: Point, b: int, p: nat)
    requires OddOrder(n, g, b, p) && AtState(r, w, j, g, b, p) && 2 * j + 1 == n
    ensures Prime(p) && r.x1 == r.x2 && r.x1 < p && r.y1 < p && r.y2 < p
    ensures FAdd(r.y2, r.y1, p) == 0 && FAdd(r.y1, r.y2, p) == 0
  {
    hide Times, OnCurve, Plus;
    var A, B := Times(j, g, b, p), Times(j + 1, g, b, p);
    DivOfSum(j + (j + 1), 1, 0, n);
    NegTimes(j, j + 1, n, g, b, p);
    OppositeRegisters(r, w, A, p);
  }

  lemma OppositeRegisters(r: Pairs, w: nat, A: Point, p: nat)
    requires p > 0 && Represents(r.x1, r.y1, w, A, p) && Represents(r.x2, r.y2, w, Neg(A, p), p)
    ensures r.x1 == r.x2
    ensures FAdd(r.y2, r.y1, p) == 0 && FAdd(r.y1, r.y2, p) == 0
  {
    var www: int := w * w * w;
    CongSmall(r.x1, r.x2, p);
    CongOfMod(0 - A.y, p);
    CongMul(Neg(A, p).y, 0 - A.y, www, www, p);
    PolySigns(A.y, www);
    AddIs(r.y2, r.y1, 0 - A.y * www, A.y * www, p);
    AddIs(r.y1, r.y2, A.y * www, 0 - A.y * www, p);
    ModSmall(0, p);
    CongSmall(FAdd(r.y2, r.y1, p), 0, p);
    CongSmall(FAdd(r.y1, r.y2, p), 0, p);
  }
}
