/** Another small curve, y^2 = x^3 - 3x + 1 modulo 5 with seven points, on which there are signatures to verify. */
module SevenPoints {
  import opened Bits
  import opened Congruence
  import opened Vli
  import opened CoZ
  import opened CurveMath
  import opened Group
  import opened Ladder
  import opened LadderMath
  import opened Shamir
  import opened Ecdsa
  import opened Verify
  import opened PointTable
  import SmallCurve

  const P: nat := 5
  const B: int := 1
  const ORDER: nat := 7
  const G: Point := Affine(1, 2)

  /** The point i·G at position i. */
  function Points(): (points: seq<Point>)
    ensures |points| == ORDER
  {
    [Infinity, G, Affine(3, 3), Affine(0, 1), Affine(0, 4), Affine(3, 2), Affine(1, 3)]
  }

  lemma FiveIsPrime()
    ensures Prime(P)
  {
    forall d: nat | 0 < d && Divides(d, P) ensures d == 1 || d == P {
      if d > P {
        assert false;
      }
      assert d == 1 || d == 2 || d == 3 || d == 4 || d == 5;
    }
  }

  /** The curve has no other points. */
  lemma PointsAre(q: Point)
    requires OnCurve(q, B, P)
    ensures q in Points()
  {
    if q.Affine? {
      var x, y := q.x, q.y;
      assert x == 0 || x == 1 || x == 2 || x == 3 || x == 4;
      assert y == 0 || y == 1 || y == 2 || y == 3 || y == 4;
    }
  }

  lemma OnTheCurve(i: nat)
    requires i < ORDER
    ensures OnCurve(Points()[i], B, P) && (Points()[i] == Infinity <==> i == 0)
  {
    assert i == 0 || i == 1 || i == 2 || i == 3 || i == 4 || i == 5 || i == 6;
  }

  lemma Doubles()
    ensures Fits(Affine(1, 2), Affine(1, 2), 0, Affine(3, 3), 5) && Fits(Affine(3, 3), Affine(3, 3), 4, Affine(0, 4), 5)
    ensures Fits(Affine(0, 1), Affine(0, 1), 1, Affine(1, 3), 5) && Fits(Affine(0, 4), Affine(0, 4), 4, Affine(1, 2), 5)
    ensures Fits(Affine(3, 2), Affine(3, 2), 1, Affine(0, 1), 5) && Fits(Affine(1, 3), Affine(1, 3), 0, Affine(3, 2), 5)
  {
  }

  lemma ChordsOfFirst()
    ensures Fits(Affine(1, 2), Affine(3, 3), 3, Affine(0, 1), 5) && Fits(Affine(1, 2), Affine(0, 1), 1, Affine(0, 4), 5)
    ensures Fits(Affine(1, 2), Affine(0, 4), 3, Affine(3, 2), 5) && Fits(Affine(1, 2), Affine(3, 2), 0, Affine(1, 3), 5)
  {
  }

  lemma ChordsOfSecond()
    ensures Fits(Affine(3, 3), Affine(1, 2), 3, Affine(0, 1), 5) && Fits(Affine(3, 3), Affine(0, 1), 4, Affine(3, 2), 5)
    ensures Fits(Affine(3, 3), Affine(0, 4), 3, Affine(1, 3), 5) && Fits(Affine(3, 3), Affine(1, 3), 0, Affine(1, 2), 5)
  {
  }

  lemma ChordsOfThird()
    ensures Fits(Affine(0, 1), Affine(1, 2), 1, Affine(0, 4), 5) && Fits(Affine(0, 1), Affine(3, 3), 4, Affine(3, 2), 5)
    ensures Fits(Affine(0, 1), Affine(3, 2), 2, Affine(1, 2), 5) && Fits(Affine(0, 1), Affine(1, 3), 2, Affine(3, 3), 5)
  {
  }

  lemma ChordsOfFourth()
    ensures Fits(Affine(0, 4), Affine(1, 2), 3, Affine(3, 2), 5) && Fits(Affine(0, 4), Affine(3, 3), 3, Affine(1, 3), 5)
    ensures Fits(Affine(0, 4), Affine(3, 2), 1, Affine(3, 3), 5) && Fits(Affine(0, 4), Affine(1, 3), 4, Affine(0, 1), 5)
  {
  }

  lemma ChordsOfFifth()
    ensures Fits(Affine(3, 2), Affine(1, 2), 0, Affine(1, 3), 5) && Fits(Affine(3, 2), Affine(0, 1), 2, Affine(1, 2), 5)
    ensures Fits(Affine(3, 2), Affine(0, 4), 1, Affine(3, 3), 5) && Fits(Affine(3, 2), Affine(1, 3), 2, Affine(0, 4), 5)
  {
  }

  lemma ChordsOfSixth()
    ensures Fits(Affine(1, 3), Affine(3, 3), 0, Affine(1, 2), 5) && Fits(Affine(1, 3), Affine(0, 1), 2, Affine(3, 3), 5)
    ensures Fits(Affine(1, 3), Affine(0, 4), 4, Affine(0, 1), 5) && Fits(Affine(1, 3), Affine(3, 2), 2, Affine(0, 4), 5)
  {
  }

  /** The slope of the line through the points i and j. */
  function Slope(i: nat, j: nat): int {
    if i == 1 then (if j == 1 || j == 5 then 0 else if j == 2 || j == 4 then 3 else 1)
    else if i == 2 then (if j == 1 || j == 4 then 3 else if j == 2 || j == 3 then 4 else 0)
    else if i == 3 then (if j == 1 || j == 3 then 1 else if j == 2 then 4 else 2)
    else if i == 4 then (if j == 1 || j == 2 then 3 else if j == 4 || j == 6 then 4 else 1)
    else if i == 5 then (if j == 1 then 0 else if j == 3 || j == 6 then 2 else 1)
    else (if j == 2 || j == 6 then 0 else if j == 3 || j == 5 then 2 else 4)
  }

  lemma RowIs(i: nat, j: nat)
    requires 0 < i < ORDER && 0 < j < ORDER
    ensures Row(Points(), Slope, i, j, P)
  {
    hide Fits;
    Doubles();
    ChordsOfFirst();
    ChordsOfSecond();
    ChordsOfThird();
    ChordsOfFourth();
    ChordsOfFifth();
    ChordsOfSixth();
    assert i == 1 || i == 2 || i == 3 || i == 4 || i == 5 || i == 6;
    assert j == 1 || j == 2 || j == 3 || j == 4 || j == 5 || j == 6;
  }

  /** The hypothesis about chord-and-tangent addition holds on this curve. */
  lemma LawHolds()
    ensures Listed(Points(), B, P) && GroupLaw(B, P) && OddOrder(ORDER, G, B, P)
  {
    hide Prime, OnCurve, Row, Listed, GroupLaw, OddOrder;
    FiveIsPrime();
    forall i | 0 <= i < ORDER ensures OnCurve(Points()[i], B, P) && (Points()[i] == Infinity <==> i == 0) {
      OnTheCurve(i);
    }
    forall q | OnCurve(q, B, P) ensures q in Points() {
      PointsAre(q);
    }
    forall i, j | 0 < i < ORDER && 0 < j < ORDER ensures Row(Points(), Slope, i, j, P) {
      RowIs(i, j);
    }
    TabledLaw(Points(), Slope, B, P);
  }

  // ---- Three signatures with k = 1, for which r is 1 ----

  lemma DivByOne(y: nat)
    requires Prime(ORDER)
    ensures (1 as int) % ORDER != 0 && FDiv(y, 1, ORDER) == y % ORDER && InvOf(1, ORDER) == 1
  {
    assert (1 as int) % ORDER != 0;
    CongOfMod(y, ORDER);
    CongSmall(FDiv(y, 1, ORDER), y % ORDER, ORDER);
    CongSmall(FInv(1, ORDER), 1, ORDER);
  }

  lemma SignedWithOne(e: nat, d: nat, s: nat)
    requires Prime(ORDER) && s == (e + d) % ORDER
    ensures (1 as int) % ORDER != 0 && SignedAs(1, s, e, d, 1, ORDER, 3, G, 1)
  {
    DivByOne(e + d);
    Pow2Small();
    assert 1 * d == d && Pow2(3) == 8;
  }

  lemma Multiples(d: nat)
    requires d < ORDER
    ensures GroupLaw(B, P) && OnCurve(G, B, P) && Times(d, G, B, P) == Points()[d] && Times(1, G, B, P) == G
  {
    hide OddOrder, Prime, GroupLaw, OnCurve, Times, Listed;
    LawHolds();
    MultipleIs(d, Points(), B, P);
    MultipleIs(1, Points(), B, P);
  }

  /** Accepted: the private key 2 and the hash 6. */
  lemma Accepted()
    ensures Prime(P) && Prime(ORDER) && (1 as int) % ORDER != 0 && SignedAs(1, 1, 6, 2, 1, ORDER, 3, G, 1)
    ensures GroupLaw(B, P) && OnCurve(G, B, P) && Times(2, G, B, P) == Affine(3, 3)
    ensures VerifyOf(Pair(1, 2), Pair(3, 3), 6, 1, 1, ORDER, P)
  {
    hide OddOrder, Prime, GroupLaw, OnCurve, Times, Listed, VerifyOf, SignedAs, StepsApart, FDiv, FInv;
    FiveIsPrime();
    SmallCurve.SevenIsPrime();
    LawHolds();
    Multiples(2);
    SignedWithOne(6, 2, 1);
    DivByOne(0);
    Lengths();
    SignedIsAccepted(G, 6, 2, 1, 1, 1, 3, 1, ORDER, B, P);
    AcceptedSteps();
  }

  lemma Lengths()
    ensures BitLen(1) == 1 && BitLen(5) == 3 && BitLen(6) == 3
  {
  }

  lemma SmallBits(v: nat)
    ensures Prefix(v, 1) == v / 2 && Prefix(v, 2) == v / 4
    ensures (BitOf(v, 0) <==> v % 2 == 1) && (BitOf(v, 1) <==> v / 2 % 2 == 1)
  {
    assert Pow2(0) == 1 && Pow2(1) == 2 * Pow2(0) && Pow2(2) == 2 * Pow2(1);
  }

  lemma AcceptedSteps()
    ensures StepsApart(6, 1, 2, 0, 3, ORDER)
  {
    hide BitOf, Prefix, Pow2;
    SmallBits(6);
    SmallBits(1);
    forall i | 0 <= i < 2 ensures StepApart(6, 1, 2, i, ORDER) {
      assert i == 0 || i == 1;
    }
  }

  /** Refused: with the private key 3 and the hash 4 the signature has s = 0. */
  lemma ZeroRefused()
    ensures Prime(P) && Prime(ORDER) && (1 as int) % ORDER != 0 && SignedAs(1, 0, 4, 3, 1, ORDER, 3, G, 1)
    ensures GroupLaw(B, P) && OnCurve(G, B, P) && Times(3, G, B, P) == Affine(0, 1)
    ensures !VerifyOf(Pair(1, 2), Pair(0, 1), 4, 1, 0, ORDER, P)
  {
    hide Prime, GroupLaw, OnCurve, Times, SignedAs;
    FiveIsPrime();
    SmallCurve.SevenIsPrime();
    Multiples(3);
    SignedWithOne(4, 3, 0);
  }

  /**
   Refused: with the private key 3 and the hash 5 the signature is well formed, but the last step doubles to 4·G and
   adds G + Q, which is 4·G again.
   */
  lemma CollisionRefused()
    ensures Prime(P) && Prime(ORDER) && (1 as int) % ORDER != 0 && SignedAs(1, 1, 5, 3, 1, ORDER, 3, G, 1)
    ensures GroupLaw(B, P) && OnCurve(G, B, P) && Times(3, G, B, P) == Affine(0, 1)
    ensures !VerifyOf(Pair(1, 2), Pair(0, 1), 5, 1, 1, ORDER, P)
  {
    hide OddOrder, Prime, GroupLaw, OnCurve, Times, Listed, VerifyOf, SignedAs, StepsApart, FDiv, FInv;
    FiveIsPrime();
    SmallCurve.SevenIsPrime();
    LawHolds();
    Multiples(3);
    SignedWithOne(5, 3, 1);
    DivByOne(0);
    Lengths();
    SignedIsAccepted(G, 5, 3, 1, 1, 1, 3, 1, ORDER, B, P);
    CollidingSteps();
  }

  lemma CollidingSteps()
    ensures !StepsApart(5, 1, 3, 0, 3, ORDER)
  {
    hide BitOf, Prefix, Pow2;
    SmallBits(5);
    SmallBits(1);
    assert !StepApart(5, 1, 3, 0, ORDER);
  }
}
