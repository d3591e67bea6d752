/** Point formulas on word arrays, each proved against the same formula on numbers modulo p. */
module CoZ {
  import opened Vli
  import opened VliMod

  /** The constants of a curve that the point formulas use; `p` holds the field prime. */
  datatype Curve = Curve(numWords: nat, p: array<Word>) {
    ghost predicate Valid()
      reads p
    {
      && 0 < numWords < BASE && numWords <= p.Length
      && p[numWords - 1] != 0
      && Val(p, numWords) > 3 && Val(p, numWords) % 2 == 1
    }

    ghost function P(): (m: nat)
      requires numWords <= p.Length
      reads p
    {
      Val(p, numWords)
    }

    /** `a` can hold a field element and is not the modulus itself. */
    ghost predicate Holds(a: array<Word>)
      requires numWords <= p.Length
      reads p, a
    {
      a != p && numWords <= a.Length && Val(a, numWords) < P()
    }

    ghost predicate Room(a: array<Word>) {
      a != p && numWords <= a.Length
    }
  }

  // ---- Arithmetic modulo p ----

  function FAdd(a: int, b: int, p: nat): (r: nat) requires p > 0 ensures r < p { (a + b) % p }
  function FSub(a: int, b: int, p: nat): (r: nat) requires p > 0 ensures r < p { (a - b) % p }
  function FMul(a: int, b: int, p: nat): (r: nat) requires p > 0 ensures r < p { (a * b) % p }

  method Sum(result: array<Word>, left: array<Word>, right: array<Word>, curve: Curve)
    requires curve.Valid() && curve.Room(result) && curve.Holds(left) && curve.Holds(right)
    modifies result
    ensures curve.Holds(result)
    ensures Val(result, curve.numWords)
         == old(FAdd(Val(left, curve.numWords), Val(right, curve.numWords), curve.P()))
  {
    ModAdd(result, left, right, curve.p, curve.numWords);
  }

  method Difference(result: array<Word>, left: array<Word>, right: array<Word>, curve: Curve)
    requires curve.Valid() && curve.Room(result) && curve.Holds(left) && curve.Holds(right)
    modifies result
    ensures curve.Holds(result)
    ensures Val(result, curve.numWords)
         == old(FSub(Val(left, curve.numWords), Val(right, curve.numWords), curve.P()))
  {
    ModSub(result, left, right, curve.p, curve.numWords);
  }

  method ModMultFast(result: array<Word>, left: array<Word>, right: array<Word>, curve: Curve)
    requires curve.Valid() && curve.Room(result) && curve.Holds(left) && curve.Holds(right)
    modifies result
    ensures curve.Holds(result)
    ensures Val(result, curve.numWords)
         == old(FMul(Val(left, curve.numWords), Val(right, curve.numWords), curve.P()))
  {
    ModMult(result, left, right, curve.p, curve.numWords);
  }

  method ModSquareFast(result: array<Word>, left: array<Word>, curve: Curve)
    requires curve.Valid() && curve.Room(result) && curve.Holds(left)
    modifies result
    ensures curve.Holds(result)
    ensures Val(result, curve.numWords)
         == old(FMul(Val(left, curve.numWords), Val(left, curve.numWords), curve.P()))
  {
    ModMultFast(result, left, left, curve);
  }

  // ---- apply_z ----

  datatype Pair = Pair(x: nat, y: nat)

  function ApplyZOf(x: nat, y: nat, z: nat, p: nat): Pair
    requires p > 0
  {
    var z2 := FMul(z, z, p);
    Pair(FMul(x, z2, p), FMul(y, FMul(z2, z, p), p))
  }

  method ApplyZ(X1: array<Word>, Y1: array<Word>, Z: array<Word>, curve: Curve)
    requires curve.Valid() && curve.Holds(X1) && curve.Holds(Y1) && curve.Holds(Z)
    requires X1 != Y1 && X1 != Z && Y1 != Z
    modifies X1, Y1
    ensures curve.Holds(X1) && curve.Holds(Y1)
    ensures Pair(Val(X1, curve.numWords), Val(Y1, curve.numWords))
         == old(ApplyZOf(Val(X1, curve.numWords), Val(Y1, curve.numWords), Val(Z, curve.numWords), curve.P()))
  {
    var t1 := new Word[curve.numWords];
    ModSquareFast(t1, Z, curve);
    ModMultFast(X1, X1, t1, curve);
    ModMultFast(t1, t1, Z, curve);
    ModMultFast(Y1, Y1, t1, curve);
  }

  // ---- XYcZ_add ----

  datatype Pairs = Pairs(x1: nat, y1: nat, x2: nat, y2: nat)

  ghost function PairsOf(X1: array<Word>, Y1: array<Word>, X2: array<Word>, Y2: array<Word>, n: nat): Pairs
    requires n <= X1.Length && n <= Y1.Length && n <= X2.Length && n <= Y2.Length
    reads X1, Y1, X2, Y2
  {
    Pairs(Val(X1, n), Val(Y1, n), Val(X2, n), Val(Y2, n))
  }

  ghost predicate FourHold(X1: array<Word>, Y1: array<Word>, X2: array<Word>, Y2: array<Word>, curve: Curve)
    requires curve.numWords <= curve.p.Length
    reads X1, Y1, X2, Y2, curve.p
  {
    && X1 != Y1 && X1 != X2 && X1 != Y2 && Y1 != X2 && Y1 != Y2 && X2 != Y2
    && curve.Holds(X1) && curve.Holds(Y1) && curve.Holds(X2) && curve.Holds(Y2)
  }

  function CoZAdd(q: Pairs, p: nat): Pairs
    requires p > 0
  {
    var d := FSub(q.x2, q.x1, p);
    var a := FMul(d, d, p);
    var b := FMul(q.x1, a, p);
    var c := FMul(q.x2, a, p);
    var dy := FSub(q.y2, q.y1, p);
    var x3 := FSub(FSub(FMul(dy, dy, p), b, p), c, p);
    var e := FMul(q.y1, FSub(c, b, p), p);
    Pairs(b, e, x3, FSub(FMul(dy, FSub(b, x3, p), p), e, p))
  }

  method XYcZAdd(X1: array<Word>, Y1: array<Word>, X2: array<Word>, Y2: array<Word>, curve: Curve)
    requires curve.Valid() && FourHold(X1, Y1, X2, Y2, curve)
    modifies X1, Y1, X2, Y2
    ensures FourHold(X1, Y1, X2, Y2, curve)
    ensures PairsOf(X1, Y1, X2, Y2, curve.numWords)
         == CoZAdd(old(PairsOf(X1, Y1, X2, Y2, curve.numWords)), curve.P())
  {
    var t5 := new Word[curve.numWords];
    AddAbscissa(X1, Y1, X2, Y2, t5, curve);
    AddOrdinate(X1, Y1, X2, Y2, t5, curve);
  }

  /** The first eight lines: X1 = B, X2 = C, Y2 = y2 - y1 and t5 = x3. */
  method AddAbscissa(X1: array<Word>, Y1: array<Word>, X2: array<Word>, Y2: array<Word>, t5: array<Word>, curve: Curve)
    requires curve.Valid() && FourHold(X1, Y1, X2, Y2, curve)
    requires curve.Room(t5) && t5 !in {X1, Y1, X2, Y2}
    modifies X1, X2, Y2, t5
    ensures FourHold(X1, Y1, X2, Y2, curve) && curve.Holds(t5)
    ensures AbscissaAdded(old(PairsOf(X1, Y1, X2, Y2, curve.numWords)),
                          PairsOf(X1, Y1, X2, Y2, curve.numWords), Val(t5, curve.numWords), curve.P())
  {
    Difference(t5, X2, X1, curve);
    ModSquareFast(t5, t5, curve);
    ModMultFast(X1, X1, t5, curve);
    ModMultFast(X2, X2, t5, curve);
    Difference(Y2, Y2, Y1, curve);
    ModSquareFast(t5, Y2, curve);
    Difference(t5, t5, X1, curve);
    Difference(t5, t5, X2, curve);
  }

  ghost predicate AbscissaAdded(q: Pairs, r: Pairs, x3: nat, p: nat)
    requires p > 0
  {
    var d := FSub(q.x2, q.x1, p);
    var a := FMul(d, d, p);
    && r.x1 == FMul(q.x1, a, p) && r.x2 == FMul(q.x2, a, p)
    && r.y1 == q.y1 && r.y2 == FSub(q.y2, q.y1, p)
    && x3 == FSub(FSub(FMul(r.y2, r.y2, p), r.x1, p), r.x2, p)
  }

  /** The rest: Y1 = y1(C - B), Y2 = (y2 - y1)(B - x3) - Y1 and X2 = x3. */
  method AddOrdinate(X1: array<Word>, Y1: array<Word>, X2: array<Word>, Y2: array<Word>, t5: array<Word>, curve: Curve)
    requires curve.Valid() && FourHold(X1, Y1, X2, Y2, curve)
    requires curve.Holds(t5) && t5 !in {X1, Y1, X2, Y2}
    modifies Y1, X2, Y2
    ensures FourHold(X1, Y1, X2, Y2, curve)
    ensures OrdinateAdded(old(PairsOf(X1, Y1, X2, Y2, curve.numWords)),
                          PairsOf(X1, Y1, X2, Y2, curve.numWords), Val(t5, curve.numWords), curve.P())
  {
    Difference(X2, X2, X1, curve);
    ModMultFast(Y1, Y1, X2, curve);
    Difference(X2, X1, t5, curve);
    ModMultFast(Y2, Y2, X2, curve);
    Difference(Y2, Y2, Y1, curve);
    Set(X2, t5, curve.numWords);
  }

  ghost predicate OrdinateAdded(r: Pairs, s: Pairs, x3: nat, p: nat)
    requires p > 0
  {
    && s.x1 == r.x1 && s.x2 == x3
    && s.y1 == FMul(r.y1, FSub(r.x2, r.x1, p), p)
    && s.y2 == FSub(FMul(r.y2, FSub(r.x1, x3, p), p), s.y1, p)
  }

  // ---- XYcZ_addC ----

  function CoZAddC(q: Pairs, p: nat): Pairs
    requires p > 0
  {
    var d := FSub(q.x2, q.x1, p);
    var a := FMul(d, d, p);
    var b := FMul(q.x1, a, p);
    var c := FMul(q.x2, a, p);
    var sy := FAdd(q.y2, q.y1, p);
    var dy := FSub(q.y2, q.y1, p);
    var e := FMul(q.y1, FSub(c, b, p), p);
    var bc := FAdd(b, c, p);
    var x3 := FSub(FMul(dy, dy, p), bc, p);
    var y3 := FSub(FMul(dy, FSub(b, x3, p), p), e, p);
    var x4 := FSub(FMul(sy, sy, p), bc, p);
    Pairs(x4, FSub(FMul(FSub(x4, b, p), sy, p), e, p), x3, y3)
  }

  method XYcZAddC(X1: array<Word>, Y1: array<Word>, X2: array<Word>, Y2: array<Word>, curve: Curve)
    requires curve.Valid() && FourHold(X1, Y1, X2, Y2, curve)
    modifies X1, Y1, X2, Y2
    ensures FourHold(X1, Y1, X2, Y2, curve)
    ensures PairsOf(X1, Y1, X2, Y2, curve.numWords)
         == CoZAddC(old(PairsOf(X1, Y1, X2, Y2, curve.numWords)), curve.P())
  {
    var t5 := new Word[curve.numWords];
    var t6 := new Word[curve.numWords];
    Rescale(X1, Y1, X2, Y2, t5, t6, curve);
    FirstOutput(X1, Y1, X2, Y2, t6, curve);
    SecondOutput(X1, Y1, t5, t6, curve);
  }

  /** The first nine lines: X1 = B, X2 = C, Y1 = E, Y2 = y2 - y1, t5 = y2 + y1, t6 = B + C. */
  method Rescale(X1: array<Word>, Y1: array<Word>, X2: array<Word>, Y2: array<Word>,
                 t5: array<Word>, t6: array<Word>, curve: Curve)
    requires curve.Valid() && FourHold(X1, Y1, X2, Y2, curve)
    requires curve.Room(t5) && curve.Room(t6) && t5 != t6 && {t5, t6} !! {X1, Y1, X2, Y2}
    modifies X1, Y1, X2, Y2, t5, t6
    ensures FourHold(X1, Y1, X2, Y2, curve) && curve.Holds(t5) && curve.Holds(t6)
    ensures RescaledTo(old(PairsOf(X1, Y1, X2, Y2, curve.numWords)), PairsOf(X1, Y1, X2, Y2, curve.numWords),
                       Val(t5, curve.numWords), Val(t6, curve.numWords), curve.P())
  {
    Difference(t5, X2, X1, curve);
    ModSquareFast(t5, t5, curve);
    ModMultFast(X1, X1, t5, curve);
    ModMultFast(X2, X2, t5, curve);
    Sum(t5, Y2, Y1, curve);
    Difference(Y2, Y2, Y1, curve);
    Difference(t6, X2, X1, curve);
    ModMultFast(Y1, Y1, t6, curve);
    Sum(t6, X1, X2, curve);
  }

  ghost predicate RescaledTo(q: Pairs, r: Pairs, sy: nat, bc: nat, p: nat)
    requires p > 0
  {
    var d := FSub(q.x2, q.x1, p);
    var a := FMul(d, d, p);
    && r.x1 == FMul(q.x1, a, p) && r.x2 == FMul(q.x2, a, p)
    && sy == FAdd(q.y2, q.y1, p) && r.y2 == FSub(q.y2, q.y1, p)
    && r.y1 == FMul(q.y1, FSub(r.x2, r.x1, p), p)
    && bc == FAdd(r.x1, r.x2, p)
  }

  /** X2 = (y2 - y1)^2 - (B + C) = x3 and Y2 = (y2 - y1)(B - x3) - E = y3. */
  method FirstOutput(X1: array<Word>, Y1: array<Word>, X2: array<Word>, Y2: array<Word>, t6: array<Word>, curve: Curve)
    requires curve.Valid() && FourHold(X1, Y1, X2, Y2, curve) && curve.Holds(t6) && t6 !in {X1, Y1, X2, Y2}
    modifies X2, Y2
    ensures FourHold(X1, Y1, X2, Y2, curve)
    ensures var b, e, dy, bc := Val(X1, curve.numWords), Val(Y1, curve.numWords),
        old(Val(Y2, curve.numWords)), Val(t6, curve.numWords);
      && Val(X2, curve.numWords) == FSub(FMul(dy, dy, curve.P()), bc, curve.P())
      && Val(Y2, curve.numWords)
         == FSub(FMul(dy, FSub(b, Val(X2, curve.numWords), curve.P()), curve.P()), e, curve.P())
  {
    var t7 := new Word[curve.numWords];
    ModSquareFast(X2, Y2, curve);
    Difference(X2, X2, t6, curve);
    Difference(t7, X1, X2, curve);
    ModMultFast(Y2, Y2, t7, curve);
    Difference(Y2, Y2, Y1, curve);
  }

  /** X1 = (y2 + y1)^2 - (B + C) = x3' and Y1 = (y2 + y1)(x3' - B) - E = y3'. */
  method SecondOutput(X1: array<Word>, Y1: array<Word>, t5: array<Word>, t6: array<Word>, curve: Curve)
    requires curve.Valid() && curve.Holds(X1) && curve.Holds(Y1) && curve.Holds(t5) && curve.Holds(t6)
    requires X1 != Y1 && t5 != t6 && {X1, Y1} !! {t5, t6}
    modifies X1, Y1, t6
    ensures curve.Holds(X1) && curve.Holds(Y1)
    ensures var b, e, sy, bc := old(Val(X1, curve.numWords)), old(Val(Y1, curve.numWords)),
        Val(t5, curve.numWords), old(Val(t6, curve.numWords));
      && Val(X1, curve.numWords) == FSub(FMul(sy, sy, curve.P()), bc, curve.P())
      && Val(Y1, curve.numWords)
         == FSub(FMul(FSub(Val(X1, curve.numWords), b, curve.P()), sy, curve.P()), e, curve.P())
  {
    var t7 := new Word[curve.numWords];
    ModSquareFast(t7, t5, curve);
    Difference(t7, t7, t6, curve);
    Difference(t6, t7, X1, curve);
    ModMultFast(t6, t6, t5, curve);
    Difference(Y1, t6, Y1, curve);
    Set(X1, t7, curve.numWords);
  }
}
