/** Jacobian doubling for curves with a = -3, and the doubling that starts the ladder. */
module Jacobian {
  import opened Arith
  import opened Bits
  import opened Congruence
  import opened Vli
  import opened VliMod
  import opened CoZ
  import opened CurveMath

  // ---- Halving modulo p ----

  function FHalf(a: nat, p: nat): nat {
    if a % 2 == 1 then (a + p) / 2 else a / 2
  }

  lemma HalfIs(a: nat, x: int, p: nat)
    requires p > 0 && p % 2 == 1 && a < p && Cong(a, 2 * x, p)
    ensures FHalf(a, p) < p && Cong(FHalf(a, p), x, p)
  {
    var h := FHalf(a, p);
    if a % 2 == 1 {
      OddSum(a, p);
      CongOf(2 * h, a, 1, p);
    }
    HalveCong(h, x, p);
  }

  lemma OddSum(a: nat, p: nat)
    requires a % 2 == 1 && p % 2 == 1
    ensures 2 * ((a + p) / 2) == a + p
  {
  }

  method HalveMod(X: array<Word>, curve: Curve)
    requires curve.Valid() && curve.Holds(X)
    modifies X
    ensures curve.Holds(X)
    ensures Val(X, curve.numWords) == old(FHalf(Val(X, curve.numWords), curve.P()))
  {
    ghost var x, p := Val(X, curve.numWords), curve.P();
    var odd := TestBit(X, 0, curve.numWords);
    assert odd <==> x % 2 == 1 by {
      assert Pow2(0) == 1;
    }
    if odd {
      OddSum(x, p);
      HalveWithCarry(X, curve.p, curve.numWords);
    } else {
      Halve(X, curve.numWords);
    }
  }

  /** `carry = X + mod; X >>= 1; X[n-1] |= carry << 31`, for an even sum. */
  method HalveWithCarry(X: array<Word>, mod: array<Word>, n: nat)
    requires 0 < n <= X.Length && n <= mod.Length && X != mod
    requires (Val(X, n) + Val(mod, n)) % 2 == 0
    modifies X
    ensures 2 * Val(X, n) == old(Val(X, n)) + Val(mod, n)
  {
    ghost var total := Val(X, n) + Val(mod, n);
    var carry := Add(X, X, mod, n);
    ghost var full, s := Val(X, n), X[..];
    Halve(X, n);
    ghost var before := X[..];
    HalvedTopWord(s, before, n);
    ShiftIn(2 * X[n - 1], carry * HIGH_BIT % BASE);
    X[n - 1] := BitOr(X[n - 1], carry * HIGH_BIT % BASE);
    ValuePrefix(before, X[..], n - 1);
    TopCarry(before, X[..], n, carry, full, total);
  }

  lemma TopCarry(before: seq<Word>, after: seq<Word>, n: nat, carry: Word, full: nat, total: nat)
    requires 0 < n <= |before| && n <= |after| && carry <= 1
    requires Value(before, n - 1) == Value(after, n - 1)
    requires after[n - 1] == before[n - 1] + carry * HIGH_BIT % BASE
    requires Value(before, n) == full / 2 && full + carry * W(n) == total && total % 2 == 0
    ensures 2 * Value(after, n) == total
  {
    hide Value, W;
    ValueTop(before, n);
    ValueTop(after, n);
    var top: int, c: int := before[n - 1], carry;
    TopCarryOf(Value(before, n - 1), top, c, W(n - 1), full, total);
  }

  lemma TopCarryOf(low: nat, top: int, c: int, w: nat, full: nat, total: nat)
    requires (c == 0 || c == 1) && low + top * w == full / 2 && full + c * (BASE * w) == total && total % 2 == 0
    ensures 2 * (low + (top + c * HIGH_BIT % BASE) * w) == total
  {
    TwiceHighBit(w);
    Distrib(top, HIGH_BIT, w);
  }

  lemma TwiceHighBit(w: nat)
    ensures 2 * (HIGH_BIT * w) == BASE * w
  {
  }

  // ---- Doubling ----

  datatype Triple = Triple(x: nat, y: nat, z: nat)

  function DoubleOf(q: Triple, p: nat): Triple
    requires p > 0
  {
    if q.z == 0 then q else
      var yy := FMul(q.y, q.y, p);
      var a := FMul(q.x, yy, p);
      var y4 := FMul(yy, yy, p);
      var z3 := FMul(q.y, q.z, p);
      var bb := TangentOf(q.x, FMul(q.z, q.z, p), p);
      var x3 := FSub(FSub(FMul(bb, bb, p), a, p), a, p);
      Triple(x3, FSub(FMul(bb, FSub(a, x3, p), p), y4, p), z3)
  }

  /** 3/2 (x^2 - zz^2), computed as 3/2 (x + zz)(x - zz). */
  function TangentOf(x: nat, zz: nat, p: nat): nat
    requires p > 0
  {
    var s := FAdd(x, zz, p);
    var m := FMul(s, FSub(s, FAdd(zz, zz, p), p), p);
    FHalf(FAdd(m, FAdd(m, m, p), p), p)
  }

  method DoubleJacobian(X1: array<Word>, Y1: array<Word>, Z1: array<Word>, curve: Curve)
    requires curve.Valid() && curve.Holds(X1) && curve.Holds(Y1) && curve.Holds(Z1)
    requires X1 != Y1 && X1 != Z1 && Y1 != Z1
    modifies X1, Y1, Z1
    ensures curve.Holds(X1) && curve.Holds(Y1) && curve.Holds(Z1)
    ensures Triple(Val(X1, curve.numWords), Val(Y1, curve.numWords), Val(Z1, curve.numWords))
         == old(DoubleOf(Triple(Val(X1, curve.numWords), Val(Y1, curve.numWords), Val(Z1, curve.numWords)), curve.P()))
  {
    var zero := IsZero(Z1, curve.numWords);
    if zero {
      return;
    }
    var t4 := new Word[curve.numWords];
    var t5 := new Word[curve.numWords];
    StartDouble(X1, Y1, Z1, t4, t5, curve);
    Tangent(X1, Z1, curve);
    FinishDouble(X1, Y1, Z1, t4, t5, curve);
  }

  /** t4 = y1^4, t5 = x1 y1^2 = A, Y1 = y1 z1 = z3 and Z1 = z1^2. */
  method StartDouble(X1: array<Word>, Y1: array<Word>, Z1: array<Word>, t4: array<Word>, t5: array<Word>, curve: Curve)
    requires curve.Valid() && curve.Holds(X1) && curve.Holds(Y1) && curve.Holds(Z1)
    requires curve.Room(t4) && curve.Room(t5)
    requires X1 != Y1 && X1 != Z1 && Y1 != Z1 && t4 != t5 && {t4, t5} !! {X1, Y1, Z1}
    modifies Y1, Z1, t4, t5
    ensures curve.Holds(Y1) && curve.Holds(Z1) && curve.Holds(t4) && curve.Holds(t5)
    ensures var x, y, z, p := Val(X1, curve.numWords), old(Val(Y1, curve.numWords)),
        old(Val(Z1, curve.numWords)), curve.P();
      var yy := FMul(y, y, p);
      && Val(t4, curve.numWords) == FMul(yy, yy, p) && Val(t5, curve.numWords) == FMul(x, yy, p)
      && Val(Y1, curve.numWords) == FMul(y, z, p) && Val(Z1, curve.numWords) == FMul(z, z, p)
  {
    ModSquareFast(t4, Y1, curve);
    ModMultFast(t5, X1, t4, curve);
    ModSquareFast(t4, t4, curve);
    ModMultFast(Y1, Y1, Z1, curve);
    ModSquareFast(Z1, Z1, curve);
  }

  /** X1 = 3/2 (X1^2 - Z1^2), with Z1 used as scratch. */
  method Tangent(X1: array<Word>, Z1: array<Word>, curve: Curve)
    requires curve.Valid() && curve.Holds(X1) && curve.Holds(Z1) && X1 != Z1
    modifies X1, Z1
    ensures curve.Holds(X1) && curve.Holds(Z1)
    ensures Val(X1, curve.numWords)
         == old(TangentOf(Val(X1, curve.numWords), Val(Z1, curve.numWords), curve.P()))
  {
    Sum(X1, X1, Z1, curve);
    Sum(Z1, Z1, Z1, curve);
    Difference(Z1, X1, Z1, curve);
    ModMultFast(X1, X1, Z1, curve);
    Sum(Z1, X1, X1, curve);
    Sum(X1, X1, Z1, curve);
    HalveMod(X1, curve);
  }

  /** From B in X1, z3 in Y1, y1^4 in t4 and A in t5 to the doubled point. */
  method FinishDouble(X1: array<Word>, Y1: array<Word>, Z1: array<Word>, t4: array<Word>, t5: array<Word>, curve: Curve)
    requires curve.Valid() && curve.Holds(X1) && curve.Holds(Y1) && curve.Holds(Z1)
    requires curve.Holds(t4) && curve.Holds(t5)
    requires X1 != Y1 && X1 != Z1 && Y1 != Z1 && t4 != t5 && {t4, t5} !! {X1, Y1, Z1}
    modifies X1, Y1, Z1, t4, t5
    ensures curve.Holds(X1) && curve.Holds(Y1) && curve.Holds(Z1)
    ensures var bb, y4, a := old(Val(X1, curve.numWords)), old(Val(t4, curve.numWords)), old(Val(t5, curve.numWords));
      var x3 := FSub(FSub(FMul(bb, bb, curve.P()), a, curve.P()), a, curve.P());
      && Val(X1, curve.numWords) == x3
      && Val(Y1, curve.numWords)
         == FSub(FMul(bb, FSub(a, x3, curve.P()), curve.P()), y4, curve.P())
      && Val(Z1, curve.numWords) == old(Val(Y1, curve.numWords))
  {
    ModSquareFast(Z1, X1, curve);
    Difference(Z1, Z1, t5, curve);
    Difference(Z1, Z1, t5, curve);
    Difference(t5, t5, Z1, curve);
    ModMultFast(X1, X1, t5, curve);
    Difference(t4, X1, t4, curve);
    Set(X1, Z1, curve.numWords);
    Set(Z1, Y1, curve.numWords);
    Set(Y1, t4, curve.numWords);
  }

  // ---- What doubling means ----

  lemma PolyTangent(u: int, z: int)
    ensures (u * (z * z) + z * z) * ((u * (z * z) + z * z) - (z * z + z * z))
         == (u * u - 1) * ((z * z) * (z * z))
  {
  }

  lemma PolyTriple(m: int, u: int, zz: int)
    requires m == (u * u - 1) * zz
    ensures m + (m + m) == (3 * u * u - 3) * zz
  {
  }

  lemma PolyTangentSlope(l: int, v: int, z: int)
    ensures (l * (2 * v)) * ((z * z) * (z * z)) == 2 * (l * (v * (z * z * z) * z))
  {
  }

  lemma PolyDoubleA(u: int, v: int, z: int)
    ensures (u * (z * z)) * ((v * (z * z * z)) * (v * (z * z * z)))
         == u * ((v * (z * z * z) * z) * (v * (z * z * z) * z))
    ensures ((v * (z * z * z)) * (v * (z * z * z))) * ((v * (z * z * z)) * (v * (z * z * z)))
         == v * ((v * (z * z * z) * z) * (v * (z * z * z) * z) * (v * (z * z * z) * z))
  {
  }

  /** The tangent slope times the new denominator. */
  lemma TangentIs(x: nat, zz: nat, z: nat, A: Point, l: int, w: nat, p: nat)
    requires p > 0 && p % 2 == 1 && A.Affine?
    requires Cong(x, A.x * (z * z), p) && Cong(zz, z * z, p)
    requires Cong(l * (2 * A.y), 3 * A.x * A.x - 3, p) && Cong(w, A.y * (z * z * z) * z, p)
    ensures Cong(TangentOf(x, zz, p), l * w, p) && TangentOf(x, zz, p) < p
  {
    var u, v := A.x, A.y;
    var s := FAdd(x, zz, p);
    var t := FAdd(zz, zz, p);
    var m := FMul(s, FSub(s, t, p), p);
    var q4 := (z * z) * (z * z);
    AddIs(x, zz, u * (z * z), z * z, p);
    AddIs(zz, zz, z * z, z * z, p);
    SubIs(s, t, u * (z * z) + z * z, z * z + z * z, p);
    MulIs(s, FSub(s, t, p), u * (z * z) + z * z, (u * (z * z) + z * z) - (z * z + z * z), p);
    PolyTangent(u, z);
    var M := (u * u - 1) * q4;
    AddIs(m, m, M, M, p);
    AddIs(m, FAdd(m, m, p), M, M + M, p);
    PolyTriple(M, u, q4);
    CongMul(l * (2 * v), 3 * u * u - 3, q4, q4, p);
    PolyTangentSlope(l, v, z);
    CongMul(l, l, w, v * (z * z * z) * z, p);
    CongMul(2, 2, l * w, l * (v * (z * z * z) * z), p);
    HalfIs(FAdd(m, FAdd(m, m, p), p), l * w, p);
  }

  lemma DoubleDenominator(q: Triple, A: Point, p: nat)
    requires Prime(p) && p > 3 && Represents(q.x, q.y, q.z, A, p) && A.y != 0
    ensures var w := FMul(q.y, q.z, p);
      w % p != 0 && Cong(w, A.y * (q.z * q.z * q.z) * q.z, p)
  {
    hide Prime, FMul;
    var z: int, v: int := q.z, A.y;
    MulIs(q.y, z, v * (z * z * z), z, p);
    ModSmall(v, p);
    NonzeroFourth(v, z, p);
  }

  lemma NonzeroFourth(v: int, z: int, p: nat)
    requires Prime(p) && v % p != 0 && z % p != 0
    ensures v * (z * z * z) * z % p != 0
  {
    hide Prime;
    NonzeroProduct(z, z, p);
    var zz := z * z;
    NonzeroProduct(zz, z, p);
    var zzz := zz * z;
    NonzeroProduct(v, zzz, p);
    NonzeroProduct(v * zzz, z, p);
  }

  lemma DoubleParts(q: Triple, A: Point, w: nat, p: nat)
    requires p > 0 && Represents(q.x, q.y, q.z, A, p)
    requires Cong(w, A.y * (q.z * q.z * q.z) * q.z, p)
    ensures var yy := FMul(q.y, q.y, p);
      && Cong(FMul(q.x, yy, p), A.x * (w * w), p)
      && Cong(FMul(yy, yy, p), A.y * (w * w * w), p)
  {
    hide FMul;
    var z, v := q.z, A.y;
    var yy := FMul(q.y, q.y, p);
    var Y := v * (z * z * z);
    var V := Y * z;
    MulIs(q.y, q.y, Y, Y, p);
    MulIs(q.x, yy, A.x * (z * z), Y * Y, p);
    MulIs(yy, yy, Y * Y, Y * Y, p);
    PolyDoubleA(A.x, v, z);
    PowersCong(w, V, p);
    CongMul(A.x, A.x, w * w, V * V, p);
    CongMul(v, v, w * w * w, V * V * V, p);
  }

  lemma DoubleMeaning(q: Triple, A: Point, p: nat)
    requires Prime(p) && p > 3 && p % 2 == 1 && Represents(q.x, q.y, q.z, A, p) && A.y != 0
    ensures var r := DoubleOf(q, p);
      Represents(r.x, r.y, r.z, Plus(A, A, p), p)
  {
    var r := DoubleOf(q, p);
    var w := r.z;
    var yy := FMul(q.y, q.y, p);
    var a := FMul(q.x, yy, p);
    var zz := FMul(q.z, q.z, p);
    ModSmall(0, p);
    DoubleDenominator(q, A, p);
    DoubleParts(q, A, w, p);
    TwiceNonzero(A.y, p);
    var l := FDiv(3 * A.x * A.x - 3, 2 * A.y, p);
    MulIs(q.z, q.z, q.z, q.z, p);
    TangentIs(q.x, zz, q.z, A, l, w, p);
    var bb := TangentOf(q.x, zz, p);
    MulIs(bb, bb, l * w, l * w, p);
    SubIs(FMul(bb, bb, p), a, (l * w) * (l * w), A.x * (w * w), p);
    SubIs(FSub(FMul(bb, bb, p), a, p), a, (l * w) * (l * w) - A.x * (w * w), A.x * (w * w), p);
    PolyX3(l, A.x, A.x, w);
    OutputRepresents(l, A, A.x, w, bb, a, r.x, FMul(yy, yy, p), p);
  }

  // ---- apply_z ----

  lemma PolyApply(u: int, z: int, s: int)
    ensures (u * (z * z)) * (s * s) == u * ((z * s) * (z * s))
    ensures (u * (z * z * z)) * ((s * s) * s) == u * ((z * s) * (z * s) * (z * s))
  {
  }

  /** Multiplying by s^2 and s^3 changes the denominator from z to z s. */
  lemma ApplyZMeaning(X: nat, Y: nat, z: nat, s: nat, A: Point, p: nat)
    requires Prime(p) && Represents(X, Y, z, A, p) && s < p && s % p != 0
    ensures var r := ApplyZOf(X, Y, s, p);
      Represents(r.x, r.y, FMul(z, s, p), A, p)
  {
    var r := ApplyZOf(X, Y, s, p);
    var w := FMul(z, s, p);
    var s2 := FMul(s, s, p);
    MulIs(s, s, s, s, p);
    MulIs(s2, s, s * s, s, p);
    MulIs(X, s2, A.x * (z * z), s * s, p);
    MulIs(Y, FMul(s2, s, p), A.y * (z * z * z), (s * s) * s, p);
    PolyApply(A.x, z, s);
    PolyApply(A.y, z, s);
    MulIs(z, s, z, s, p);
    NonzeroProduct(z, s, p);
    PowersCong(w, z * s, p);
    CongMul(A.x, A.x, w * w, (z * s) * (z * s), p);
    CongMul(A.y, A.y, w * w * w, (z * s) * (z * s) * (z * s), p);
  }

  /** An affine point stands for itself at denominator 1, and only for itself. */
  lemma AtOne(A: Point, p: nat)
    requires p > 1 && A.Affine? && A.x < p && A.y < p
    ensures Represents(A.x, A.y, 1, A, p)
  {
    ModSmall(1, p);
  }

  lemma FromOne(X: nat, Y: nat, z: nat, A: Point, p: nat)
    requires p > 1 && Represents(X, Y, z, A, p) && Cong(z, 1, p)
    ensures A == Affine(X, Y)
  {
    PowersCong(z, 1, p);
    CongMul(A.x, A.x, z * z, 1, p);
    CongMul(A.y, A.y, z * z * z, 1, p);
    CongSmall(X, A.x, p);
    CongSmall(Y, A.y, p);
  }

  // ---- XYcZ_initial_double ----

  function InitialDoubleOf(x: nat, y: nat, z: nat, p: nat): Pairs
    requires p > 0
  {
    var a := ApplyZOf(x, y, z, p);
    var d := DoubleOf(Triple(a.x, a.y, z), p);
    var c := ApplyZOf(x, y, d.z, p);
    Pairs(d.x, d.y, c.x, c.y)
  }

  method XYcZInitialDouble(X1: array<Word>, Y1: array<Word>, X2: array<Word>, Y2: array<Word>,
                           initialZ: array?<Word>, curve: Curve)
    requires curve.Valid() && curve.Holds(X1) && curve.Holds(Y1) && curve.Room(X2) && curve.Room(Y2)
    requires X1 != Y1 && X1 != X2 && X1 != Y2 && Y1 != X2 && Y1 != Y2 && X2 != Y2
    requires initialZ != null ==> curve.Holds(initialZ)
    modifies X1, Y1, X2, Y2
    ensures FourHold(X1, Y1, X2, Y2, curve)
    ensures PairsOf(X1, Y1, X2, Y2, curve.numWords)
         == old(InitialDoubleOf(Val(X1, curve.numWords), Val(Y1, curve.numWords),
                if initialZ != null then Val(initialZ, curve.numWords) else 1, curve.P()))
  {
    var z := new Word[curve.numWords];
    if initialZ != null {
      Set(z, initialZ, curve.numWords);
    } else {
      Clear(z, curve.numWords);
      z[0] := 1;
      SmallValue(z[..], curve.numWords, 1);
    }
    Set(X2, X1, curve.numWords);
    Set(Y2, Y1, curve.numWords);
    ApplyZ(X1, Y1, z, curve);
    DoubleJacobian(X1, Y1, z, curve);
    ApplyZ(X2, Y2, z, curve);
  }

  lemma InitialDoubleMeaning(A: Point, z: nat, p: nat) returns (w: nat)
    requires Prime(p) && p > 3 && p % 2 == 1 && z < p && z % p != 0
    requires A.Affine? && A.x < p && A.y < p && A.y != 0
    ensures var r := InitialDoubleOf(A.x, A.y, z, p);
      && Represents(r.x1, r.y1, w, Plus(A, A, p), p)
      && Represents(r.x2, r.y2, w, A, p)
  {
    AtOne(A, p);
    ApplyZMeaning(A.x, A.y, 1, z, A, p);
    ModSmall(z, p);
    var a := ApplyZOf(A.x, A.y, z, p);
    assert FMul(1, z, p) == z;
    DoubleMeaning(Triple(a.x, a.y, z), A, p);
    var d := DoubleOf(Triple(a.x, a.y, z), p);
    w := d.z;
    ApplyZMeaning(A.x, A.y, 1, w, A, p);
    ModSmall(w, p);
    assert FMul(1, w, p) == w;
  }
}
