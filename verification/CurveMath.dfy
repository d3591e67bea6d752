/** What the point formulas mean: points of y^2 = x^3 - 3x + b in co-Z and Jacobian coordinates. */
module CurveMath {
  import opened Arith
  import opened Congruence
  import opened CoZ

  // ---- From residues to integer polynomials ----

  lemma SubIs(a: int, b: int, x: int, y: int, p: nat)
    requires p > 0 && Cong(a, x, p) && Cong(b, y, p)
    ensures Cong(FSub(a, b, p), x - y, p)
  {
    CongAdd(a, x, b, y, p);
    CongOfMod(a - b, p);
  }

  lemma AddIs(a: int, b: int, x: int, y: int, p: nat)
    requires p > 0 && Cong(a, x, p) && Cong(b, y, p)
    ensures Cong(FAdd(a, b, p), x + y, p)
  {
    CongAdd(a, x, b, y, p);
    CongOfMod(a + b, p);
  }

  lemma MulIs(a: int, b: int, x: int, y: int, p: nat)
    requires p > 0 && Cong(a, x, p) && Cong(b, y, p)
    ensures Cong(FMul(a, b, p), x * y, p)
  {
    CongMul(a, x, b, y, p);
    CongOfMod(a * b, p);
  }

  lemma NonzeroProduct(a: int, b: int, p: nat)
    requires Prime(p) && a % p != 0 && b % p != 0
    ensures a * b % p != 0
  {
    if a * b % p == 0 {
      PrimeDividesProduct(p, a, b);
    }
  }

  // ---- Inverses and slopes ----

  ghost predicate IsInverse(s: int, x: int, p: nat)
    requires p > 0
  {
    Cong(s * x, 1, p)
  }

  lemma InverseExists(x: int, p: nat)
    requires Prime(p) && x % p != 0
    ensures exists s: int :: IsInverse(s, x, p)
  {
    var s := PrimeInverse(x, p);
    assert IsInverse(s, x, p);
  }

  ghost function FInv(x: int, p: nat): (r: nat)
    requires Prime(p) && x % p != 0
    ensures r < p && Cong(r * x, 1, p)
  {
    InverseExists(x, p);
    var s: int :| IsInverse(s, x, p);
    CongOfMod(s, p);
    CongMul(s % p, s, x, x, p);
    s % p
  }

  /** The quotient y/x modulo p. */
  ghost function FDiv(y: int, x: int, p: nat): (r: nat)
    requires Prime(p) && x % p != 0
    ensures r < p && Cong(r * x, y, p)
  {
    var i := FInv(x, p);
    CongMul(y, y, i * x, 1, p);
    Assoc(y, i, x);
    CongOfMod(y * i, p);
    CongMul((y * i) % p, y * i, x, x, p);
    (y * i) % p
  }

  lemma DivUnique(l: int, y: int, x: int, p: nat)
    requires Prime(p) && x % p != 0 && Cong(l * x, y, p)
    ensures Cong(l, FDiv(y, x, p), p)
  {
    CancelCong(l, FDiv(y, x, p), x, p);
  }

  // ---- The curve ----

  datatype Point = Infinity | Affine(x: nat, y: nat)

  ghost predicate OnCurve(q: Point, b: int, p: nat)
    requires p > 0
  {
    q.Affine? ==> q.x < p && q.y < p && Cong(q.y * q.y, q.x * q.x * q.x - 3 * q.x + b, p)
  }

  function Neg(q: Point, p: nat): Point
    requires p > 0
  {
    if q.Affine? then Affine(q.x, (0 - q.y) % p) else q
  }

  /** The third point of the line of slope `l` through q and a point with abscissa `x2`, mirrored. */
  function Third(l: int, q: Point, x2: nat, p: nat): (r: Point)
    requires q.Affine? && p > 0
    ensures r.Affine? && r.x < p && r.y < p
  {
    var x3 := (l * l - q.x - x2) % p;
    Affine(x3, (l * (q.x - x3) - q.y) % p)
  }

  lemma ThirdCong(l: int, m: int, q: Point, x2: nat, p: nat)
    requires q.Affine? && p > 0 && Cong(l, m, p)
    ensures Third(l, q, x2, p) == Third(m, q, x2, p)
  {
    CongMul(l, m, l, m, p);
    CongAdd(l * l, m * m, q.x, q.x, p);
    CongAdd(l * l - q.x, m * m - q.x, x2, x2, p);
    var x3 := (l * l - q.x - x2) % p;
    CongMul(l, m, q.x - x3, q.x - x3, p);
    CongAdd(l * (q.x - x3), m * (q.x - x3), q.y, q.y, p);
  }

  /** Chord-and-tangent addition. */
  ghost function Plus(q: Point, r: Point, p: nat): Point
    requires Prime(p) && p > 3
    requires q.Affine? ==> q.x < p && q.y < p
    requires r.Affine? ==> r.x < p && r.y < p
  {
    if q.Infinity? then r
    else if r.Infinity? then q
    else if q.x != r.x then
      DistinctResidues(r.x, q.x, p);
      Third(FDiv(r.y - q.y, r.x - q.x, p), q, r.x, p)
    else if q.y == r.y && q.y != 0 then
      TwiceNonzero(q.y, p);
      Third(FDiv(3 * q.x * q.x - 3, 2 * q.y, p), q, q.x, p)
    else Infinity
  }

  lemma DistinctResidues(x: nat, y: nat, p: nat)
    requires x < p && y < p && x != y
    ensures (x - y) % p != 0
  {
    CongDiff(x, y, p);
    ModSmall(x, p);
    ModSmall(y, p);
  }

  lemma TwiceNonzero(y: nat, p: nat)
    requires Prime(p) && p > 3 && 0 < y < p
    ensures (2 * y) % p != 0
  {
    ModSmall(2, p);
    ModSmall(y, p);
    NonzeroProduct(2, y, p);
  }

  // ---- Jacobian coordinates ----

  /** (X, Y) stands for the point q at denominator z. */
  ghost predicate Represents(X: nat, Y: nat, z: nat, q: Point, p: nat)
    requires p > 0
  {
    && q.Affine? && q.x < p && q.y < p && X < p && Y < p && z < p && z % p != 0
    && Cong(X, q.x * (z * z), p) && Cong(Y, q.y * (z * z * z), p)
  }

  /** The outputs (l^2 - u1 - u2) w^2 and (l(u1 - u3) - v1) w^3 stand for the third point. */
  lemma ThirdRepresented(l: int, q: Point, x2: nat, w: nat, X3: nat, Y3: nat, p: nat)
    requires p > 0 && q.Affine? && w < p && w % p != 0 && X3 < p && Y3 < p
    requires Cong(X3, (l * l - q.x - x2) * (w * w), p)
    requires Cong(Y3, (l * (q.x - (l * l - q.x - x2)) - q.y) * (w * w * w), p)
    ensures Represents(X3, Y3, w, Third(l, q, x2, p), p)
  {
    var t := Third(l, q, x2, p);
    var x3 := l * l - q.x - x2;
    CongOfMod(x3, p);
    CongMul(t.x, x3, w * w, w * w, p);
    CongAdd(q.x, q.x, t.x, x3, p);
    CongMul(l, l, q.x - t.x, q.x - x3, p);
    CongAdd(l * (q.x - t.x), l * (q.x - x3), q.y, q.y, p);
    CongOfMod(l * (q.x - t.x) - q.y, p);
    CongMul(t.y, l * (q.x - x3) - q.y, w * w * w, w * w * w, p);
  }

  // ---- XYcZ_add and XYcZ_addC ----

  /** Two points at a common denominator z, with different abscissas. */
  ghost predicate CoZPair(q: Pairs, z: nat, A: Point, B: Point, p: nat) {
    && Prime(p) && p > 3
    && Represents(q.x1, q.y1, z, A, p) && Represents(q.x2, q.y2, z, B, p)
    && A.x != B.x
  }

  /** The denominator of both outputs. */
  function CoZDenominator(q: Pairs, z: nat, p: nat): nat
    requires p > 0
  {
    FMul(z, FSub(q.x2, q.x1, p), p)
  }

  lemma PolyB(u: int, z: int, d: int)
    ensures u * (z * z) * (d * d) == u * ((z * d) * (z * d))
  {
  }

  lemma PolyE(v: int, z: int, d: int)
    ensures v * (z * z * z) * (d * (d * d)) == v * ((z * d) * (z * d) * (z * d))
  {
  }

  lemma PolyD(u1: int, u2: int, s: int)
    ensures u2 * s - u1 * s == (u2 - u1) * s
  {
  }

  lemma PolyCB(u1: int, u2: int, z: int)
    ensures u2 * ((z * ((u2 - u1) * (z * z))) * (z * ((u2 - u1) * (z * z))))
          - u1 * ((z * ((u2 - u1) * (z * z))) * (z * ((u2 - u1) * (z * z))))
         == (u2 - u1) * (z * z) * (((u2 - u1) * (z * z)) * ((u2 - u1) * (z * z)))
  {
  }

  /** d is (u2 - u1) z^2 and w is z d; neither vanishes. */
  lemma Denominators(q: Pairs, z: nat, A: Point, B: Point, p: nat)
    requires CoZPair(q, z, A, B, p)
    ensures var w := CoZDenominator(q, z, p);
      var D := (B.x - A.x) * (z * z);
      && w % p != 0
      && Cong(FSub(q.x2, q.x1, p), D, p) && Cong(w, z * D, p)
  {
    var d := FSub(q.x2, q.x1, p);
    var zz := z * z;
    var k := B.x - A.x;
    SubIs(q.x2, q.x1, B.x * zz, A.x * zz, p);
    PolyD(A.x, B.x, zz);
    MulIs(z, d, z, k * zz, p);
    DistinctResidues(B.x, A.x, p);
    NonzeroProduct(z, z, p);
    NonzeroProduct(k, zz, p);
    NonzeroProduct(z, k * zz, p);
  }

  /** An abscissa times d^2 is that abscissa at the new denominator. */
  lemma RescaledX(x: nat, u: nat, z: nat, d: nat, D: int, w: nat, p: nat)
    requires p > 0 && Cong(x, u * (z * z), p) && Cong(d, D, p) && Cong(w, z * D, p)
    ensures Cong(FMul(x, FMul(d, d, p), p), u * (w * w), p)
  {
    MulIs(d, d, D, D, p);
    MulIs(x, FMul(d, d, p), u * (z * z), D * D, p);
    PolyB(u, z, D);
    PowersCong(w, z * D, p);
    CongMul(u, u, (z * D) * (z * D), w * w, p);
  }

  lemma RescaledY(q: Pairs, z: nat, A: Point, B: Point, b: nat, c: nat, p: nat)
    requires CoZPair(q, z, A, B, p)
    requires var w := CoZDenominator(q, z, p);
      Cong(b, A.x * (w * w), p) && Cong(c, B.x * (w * w), p)
    ensures var w := CoZDenominator(q, z, p);
      Cong(FMul(q.y1, FSub(c, b, p), p), A.y * (w * w * w), p)
  {
    var w := CoZDenominator(q, z, p);
    var D := (B.x - A.x) * (z * z);
    var V := z * D;
    Denominators(q, z, A, B, p);
    PowersCong(w, V, p);
    CongMul(A.x, A.x, w * w, V * V, p);
    CongMul(B.x, B.x, w * w, V * V, p);
    CongMul(A.y, A.y, V * V * V, w * w * w, p);
    SubIs(c, b, B.x * (V * V), A.x * (V * V), p);
    PolyCB(A.x, B.x, z);
    MulIs(q.y1, FSub(c, b, p), A.y * (z * z * z), D * (D * D), p);
    PolyE(A.y, z, D);
  }

  /** With w the new denominator: B = u1 w^2, C = u2 w^2, E = v1 w^3. */
  lemma Rescaled(q: Pairs, z: nat, A: Point, B: Point, p: nat)
    requires CoZPair(q, z, A, B, p)
    ensures var w := CoZDenominator(q, z, p);
      var d := FSub(q.x2, q.x1, p);
      var a := FMul(d, d, p);
      var b, c := FMul(q.x1, a, p), FMul(q.x2, a, p);
      && w % p != 0 && Cong(w, z * ((B.x - A.x) * (z * z)), p)
      && Cong(b, A.x * (w * w), p) && Cong(c, B.x * (w * w), p)
      && Cong(FMul(q.y1, FSub(c, b, p), p), A.y * (w * w * w), p)
  {
    var d := FSub(q.x2, q.x1, p);
    var a := FMul(d, d, p);
    var w := CoZDenominator(q, z, p);
    var D := (B.x - A.x) * (z * z);
    Denominators(q, z, A, B, p);
    RescaledX(q.x1, A.x, z, d, D, w, p);
    RescaledX(q.x2, B.x, z, d, D, w, p);
    RescaledY(q, z, A, B, FMul(q.x1, a, p), FMul(q.x2, a, p), p);
  }

  lemma PowersCong(x: int, y: int, p: nat)
    requires p > 0 && Cong(x, y, p)
    ensures Cong(x * x, y * y, p) && Cong(x * x * x, y * y * y, p)
  {
    CongMul(x, y, x, y, p);
    CongMul(x * x, y * y, x, y, p);
  }

  lemma PolySlope(l: int, k: int, z: int)
    ensures (l * k) * (z * z * z) == l * (z * (k * (z * z)))
  {
  }

  /** y2 - y1 is the slope of the chord times the new denominator. */
  lemma SlopeScaled(dy: nat, num: int, l: int, k: int, z: nat, w: nat, p: nat)
    requires p > 0
    requires Cong(dy, num * (z * z * z), p) && Cong(l * k, num, p) && Cong(w, z * (k * (z * z)), p)
    ensures Cong(dy, l * w, p)
  {
    CongMul(l * k, num, z * z * z, z * z * z, p);
    PolySlope(l, k, z);
    CongMul(l, l, w, z * (k * (z * z)), p);
  }

  lemma PolyX3(l: int, u1: int, u2: int, w: int)
    ensures (l * w) * (l * w) - u1 * (w * w) - u2 * (w * w) == (l * l - u1 - u2) * (w * w)
    ensures (l * w) * (l * w) - (u1 * (w * w) + u2 * (w * w)) == (l * l - u1 - u2) * (w * w)
  {
  }

  lemma PolyY3(l: int, u1: int, u3: int, v1: int, w: int)
    ensures (l * w) * (u1 * (w * w) - u3 * (w * w)) - v1 * (w * w * w)
         == (l * (u1 - u3) - v1) * (w * w * w)
  {
  }

  /** x3 and y3 computed from dy = l w, B = u1 w^2, C = u2 w^2, E = v1 w^3 stand for the third point. */
  lemma OutputRepresents(l: int, A: Point, x2: nat, w: nat, dy: nat, b: nat, x3: nat, e: nat, p: nat)
    requires p > 0 && A.Affine? && w < p && w % p != 0 && x3 < p
    requires Cong(dy, l * w, p) && Cong(b, A.x * (w * w), p) && Cong(e, A.y * (w * w * w), p)
    requires Cong(x3, (l * l - A.x - x2) * (w * w), p)
    ensures Represents(x3, FSub(FMul(dy, FSub(b, x3, p), p), e, p), w, Third(l, A, x2, p), p)
  {
    var t := FSub(b, x3, p);
    var u3 := l * l - A.x - x2;
    SubIs(b, x3, A.x * (w * w), u3 * (w * w), p);
    MulIs(dy, t, l * w, A.x * (w * w) - u3 * (w * w), p);
    SubIs(FMul(dy, t, p), e, (l * w) * (A.x * (w * w) - u3 * (w * w)), A.y * (w * w * w), p);
    PolyY3(l, A.x, u3, A.y, w);
    ThirdRepresented(l, A, x2, w, x3, FSub(FMul(dy, t, p), e, p), p);
  }

  lemma CoZAddMeaning(q: Pairs, z: nat, A: Point, B: Point, p: nat)
    requires CoZPair(q, z, A, B, p)
    ensures var r := CoZAdd(q, p);
      var w := CoZDenominator(q, z, p);
      Represents(r.x1, r.y1, w, A, p) && Represents(r.x2, r.y2, w, Plus(A, B, p), p)
  {
    Rescaled(q, z, A, B, p);
    var w := CoZDenominator(q, z, p);
    var r := CoZAdd(q, p);
    var d := FSub(q.x2, q.x1, p);
    var a := FMul(d, d, p);
    var b, c := FMul(q.x1, a, p), FMul(q.x2, a, p);
    var dy := FSub(q.y2, q.y1, p);
    var e := FMul(q.y1, FSub(c, b, p), p);
    DistinctResidues(B.x, A.x, p);
    var l := FDiv(B.y - A.y, B.x - A.x, p);
    SubIs(q.y2, q.y1, B.y * (z * z * z), A.y * (z * z * z), p);
    PolyD(A.y, B.y, z * z * z);
    SlopeScaled(dy, B.y - A.y, l, B.x - A.x, z, w, p);
    MulIs(dy, dy, l * w, l * w, p);
    SubIs(FMul(dy, dy, p), b, (l * w) * (l * w), A.x * (w * w), p);
    SubIs(FSub(FMul(dy, dy, p), b, p), c, (l * w) * (l * w) - A.x * (w * w), B.x * (w * w), p);
    PolyX3(l, A.x, B.x, w);
    OutputRepresents(l, A, B.x, w, dy, b, r.x2, e, p);
  }

  lemma PolySum(s: int, t: int, x: int)
    ensures s * x + t * x == (s + t) * x
  {
  }

  /** -(y1 + y2)/(x2 - x1), the slope of the chord from A to the mirror image of B. */
  lemma MirrorSlope(A: Point, B: Point, p: nat) returns (l: nat)
    requires Prime(p) && p > 3 && A.Affine? && B.Affine? && A.x < p && A.y < p && B.x < p && B.y < p
    requires A.x != B.x
    ensures Cong(l * (B.x - A.x), 0 - B.y - A.y, p)
    ensures Plus(A, Neg(B, p), p) == Third(l, A, B.x, p)
  {
    DistinctResidues(B.x, A.x, p);
    l := FDiv(Neg(B, p).y - A.y, B.x - A.x, p);
    CongOfMod(0 - B.y, p);
    CongAdd(Neg(B, p).y, 0 - B.y, A.y, A.y, p);
  }

  lemma PolyMirror(l: int, u1: int, u4: int, v1: int, w: int)
    ensures (u4 * (w * w) - u1 * (w * w)) * (0 - l * w) - v1 * (w * w * w)
         == (l * (u1 - u4) - v1) * (w * w * w)
    ensures (0 - l * w) * (0 - l * w) == (l * w) * (l * w)
  {
  }

  /** y4 = (x4 - B) sy - E with sy = -l w. */
  lemma MirrorOutput(l: int, A: Point, x2: nat, w: nat, sy: nat, b: nat, x4: nat, e: nat, p: nat)
    requires p > 0 && A.Affine? && w < p && w % p != 0 && x4 < p
    requires Cong(sy, 0 - l * w, p) && Cong(b, A.x * (w * w), p) && Cong(e, A.y * (w * w * w), p)
    requires Cong(x4, (l * l - A.x - x2) * (w * w), p)
    ensures Represents(x4, FSub(FMul(FSub(x4, b, p), sy, p), e, p), w, Third(l, A, x2, p), p)
  {
    var t := FSub(x4, b, p);
    var u4 := l * l - A.x - x2;
    SubIs(x4, b, u4 * (w * w), A.x * (w * w), p);
    MulIs(t, sy, u4 * (w * w) - A.x * (w * w), 0 - l * w, p);
    SubIs(FMul(t, sy, p), e, (u4 * (w * w) - A.x * (w * w)) * (0 - l * w), A.y * (w * w * w), p);
    PolyMirror(l, A.x, u4, A.y, w);
    ThirdRepresented(l, A, x2, w, x4, FSub(FMul(t, sy, p), e, p), p);
  }

  lemma CoZAddCMeaning(q: Pairs, z: nat, A: Point, B: Point, p: nat)
    requires CoZPair(q, z, A, B, p)
    ensures var r := CoZAddC(q, p);
      var w := CoZDenominator(q, z, p);
      && Represents(r.x1, r.y1, w, Plus(A, Neg(B, p), p), p)
      && Represents(r.x2, r.y2, w, Plus(A, B, p), p)
  {
    Rescaled(q, z, A, B, p);
    var w := CoZDenominator(q, z, p);
    var r := CoZAddC(q, p);
    var d := FSub(q.x2, q.x1, p);
    var a := FMul(d, d, p);
    var b, c := FMul(q.x1, a, p), FMul(q.x2, a, p);
    var e := FMul(q.y1, FSub(c, b, p), p);
    var bc := FAdd(b, c, p);
    AddIs(b, c, A.x * (w * w), B.x * (w * w), p);
    CoZSum(q, z, A, B, w, b, e, bc, p);
    CoZDifference(q, z, A, B, w, b, e, bc, p);
  }

  /** The output with dy = y2 - y1. */
  lemma CoZSum(q: Pairs, z: nat, A: Point, B: Point, w: nat, b: nat, e: nat, bc: nat, p: nat)
    requires CoZPair(q, z, A, B, p) && w < p && w % p != 0
    requires Cong(w, z * ((B.x - A.x) * (z * z)), p)
    requires Cong(b, A.x * (w * w), p) && Cong(e, A.y * (w * w * w), p)
    requires Cong(bc, A.x * (w * w) + B.x * (w * w), p)
    ensures var dy := FSub(q.y2, q.y1, p);
      var x3 := FSub(FMul(dy, dy, p), bc, p);
      Represents(x3, FSub(FMul(dy, FSub(b, x3, p), p), e, p), w, Plus(A, B, p), p)
  {
    var dy := FSub(q.y2, q.y1, p);
    var x3 := FSub(FMul(dy, dy, p), bc, p);
    DistinctResidues(B.x, A.x, p);
    var l := FDiv(B.y - A.y, B.x - A.x, p);
    SubIs(q.y2, q.y1, B.y * (z * z * z), A.y * (z * z * z), p);
    PolyD(A.y, B.y, z * z * z);
    SlopeScaled(dy, B.y - A.y, l, B.x - A.x, z, w, p);
    MulIs(dy, dy, l * w, l * w, p);
    SubIs(FMul(dy, dy, p), bc, (l * w) * (l * w), A.x * (w * w) + B.x * (w * w), p);
    PolyX3(l, A.x, B.x, w);
    OutputRepresents(l, A, B.x, w, dy, b, x3, e, p);
  }

  /** The output with sy = y2 + y1. */
  lemma CoZDifference(q: Pairs, z: nat, A: Point, B: Point, w: nat, b: nat, e: nat, bc: nat, p: nat)
    requires CoZPair(q, z, A, B, p) && w < p && w % p != 0
    requires Cong(w, z * ((B.x - A.x) * (z * z)), p)
    requires Cong(b, A.x * (w * w), p) && Cong(e, A.y * (w * w * w), p)
    requires Cong(bc, A.x * (w * w) + B.x * (w * w), p)
    ensures var sy := FAdd(q.y2, q.y1, p);
      var x4 := FSub(FMul(sy, sy, p), bc, p);
      Represents(x4, FSub(FMul(FSub(x4, b, p), sy, p), e, p), w, Plus(A, Neg(B, p), p), p)
  {
    var sy := FAdd(q.y2, q.y1, p);
    var x4 := FSub(FMul(sy, sy, p), bc, p);
    var l := MirrorSlope(A, B, p);
    AddIs(q.y2, q.y1, B.y * (z * z * z), A.y * (z * z * z), p);
    PolySum(B.y, A.y, z * z * z);
    NegSlopeScaled(sy, B.y + A.y, l, B.x - A.x, z, w, p);
    MulIs(sy, sy, 0 - l * w, 0 - l * w, p);
    PolyMirror(l, A.x, 0, A.y, w);
    SubIs(FMul(sy, sy, p), bc, (l * w) * (l * w), A.x * (w * w) + B.x * (w * w), p);
    PolyX3(l, A.x, B.x, w);
    MirrorOutput(l, A, B.x, w, sy, b, x4, e, p);
  }

  lemma NegSlopeScaled(sy: nat, num: int, l: int, k: int, z: nat, w: nat, p: nat)
    requires p > 0
    requires Cong(sy, num * (z * z * z), p) && Cong(l * k, 0 - num, p) && Cong(w, z * (k * (z * z)), p)
    ensures Cong(sy, 0 - l * w, p)
  {
    CongMul(l * k, 0 - num, z * z * z, z * z * z, p);
    PolySlope(l, k, z);
    CongMul(l, l, w, z * (k * (z * z)), p);
    CongAdd(0, 0, l * w, (0 - num) * (z * z * z), p);
    PolyNeg(num, z * z * z);
  }

  lemma PolyNeg(x: int, y: int)
    ensures 0 - (0 - x) * y == x * y
  {
  }
}
