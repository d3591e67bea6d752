/**
 A curve small enough to compute with: y^2 = x^3 - 3x + 1 modulo 7, whose five points are the multiples of (4, 2).
 The group-law hypothesis holds there, and the ladder can be seen to fail without any hypothesis.
 */
module SmallCurve {
  import opened Bits
  import opened Congruence
  import opened Vli
  import opened CoZ
  import opened CurveMath
  import opened Group
  import opened Ladder
  import opened Keys
  import opened PointTable

  const P: nat := 7
  const B: int := 1
  const ORDER: nat := 5
  const G: Point := Affine(4, 2)

  /** The point i·G at position i. */
  function Points(): (points: seq<Point>)
    ensures |points| == ORDER
  {
    [Infinity, G, Affine(0, 1), Affine(0, 6), Affine(4, 5)]
  }

  lemma SevenIsPrime()
    ensures Prime(P)
  {
    forall d: nat | 0 < d && Divides(d, P) ensures d == 1 || d == P {
      if d > P {
        assert false;
      }
      assert d == 1 || d == 2 || d == 3 || d == 4 || d == 5 || d == 6 || d == 7;
    }
  }

  /** The curve has no other points. */
  lemma PointsAre(q: Point)
    requires OnCurve(q, B, P)
    ensures q in Points()
  {
    if q.Affine? {
      var x, y := q.x, q.y;
      assert x == 0 || x == 1 || x == 2 || x == 3 || x == 4 || x == 5 || x == 6;
      assert y == 0 || y == 1 || y == 2 || y == 3 || y == 4 || y == 5 || y == 6;
    }
  }

  lemma OnTheCurve(i: nat)
    requires i < ORDER
    ensures OnCurve(Points()[i], B, P) && (Points()[i] == Infinity <==> i == 0)
  {
    assert i == 0 || i == 1 || i == 2 || i == 3 || i == 4;
  }

  lemma FitsTable()
    ensures Fits(Affine(4, 2), Affine(4, 2), 6, Affine(0, 1), P) && Fits(Affine(0, 1), Affine(0, 1), 2, Affine(4, 5), P)
    ensures Fits(Affine(0, 6), Affine(0, 6), 5, Affine(4, 2), P) && Fits(Affine(4, 5), Affine(4, 5), 1, Affine(0, 6), P)
    ensures Fits(Affine(4, 2), Affine(0, 1), 2, Affine(0, 6), P) && Fits(Affine(0, 1), Affine(4, 2), 2, Affine(0, 6), P)
    ensures Fits(Affine(4, 2), Affine(0, 6), 6, Affine(4, 5), P) && Fits(Affine(0, 6), Affine(4, 2), 6, Affine(4, 5), P)
    ensures Fits(Affine(0, 1), Affine(4, 5), 1, Affine(4, 2), P) && Fits(Affine(4, 5), Affine(0, 1), 1, Affine(4, 2), P)
    ensures Fits(Affine(0, 6), Affine(4, 5), 5, Affine(0, 1), P) && Fits(Affine(4, 5), Affine(0, 6), 5, Affine(0, 1), P)
  {
    hide Fits;
    Doubles();
    ChordsOfFirst();
    OtherChords();
  }

  lemma Doubles()
    ensures Fits(Affine(4, 2), Affine(4, 2), 6, Affine(0, 1), 7) && Fits(Affine(0, 1), Affine(0, 1), 2, Affine(4, 5), 7)
    ensures Fits(Affine(0, 6), Affine(0, 6), 5, Affine(4, 2), 7) && Fits(Affine(4, 5), Affine(4, 5), 1, Affine(0, 6), 7)
  {
  }

  lemma ChordsOfFirst()
    ensures Fits(Affine(4, 2), Affine(0, 1), 2, Affine(0, 6), 7) && Fits(Affine(0, 1), Affine(4, 2), 2, Affine(0, 6), 7)
    ensures Fits(Affine(4, 2), Affine(0, 6), 6, Affine(4, 5), 7) && Fits(Affine(0, 6), Affine(4, 2), 6, Affine(4, 5), 7)
  {
  }

  lemma OtherChords()
    ensures Fits(Affine(0, 1), Affine(4, 5), 1, Affine(4, 2), 7) && Fits(Affine(4, 5), Affine(0, 1), 1, Affine(4, 2), 7)
    ensures Fits(Affine(0, 6), Affine(4, 5), 5, Affine(0, 1), 7) && Fits(Affine(4, 5), Affine(0, 6), 5, Affine(0, 1), 7)
  {
  }

  /** The slope of the line through the points i and j. */
  function Slope(i: nat, j: nat): int {
    if i == j then (if i == 1 then 6 else if i == 2 then 2 else if i == 3 then 5 else 1)
    else if i + j == 3 then 2 else if i + j == 4 then 6 else if i + j == 6 then 1 else 5
  }

  lemma RowIs(i: nat, j: nat)
    requires 0 < i < ORDER && 0 < j < ORDER
    ensures Row(Points(), Slope, i, j, P)
  {
    hide Fits;
    FitsTable();
    assert i == 1 || i == 2 || i == 3 || i == 4;
    assert j == 1 || j == 2 || j == 3 || j == 4;
  }

  /** The hypothesis about chord-and-tangent addition holds on this curve. */
  lemma LawHolds()
    ensures Listed(Points(), B, P) && GroupLaw(B, P) && OddOrder(ORDER, G, B, P)
  {
    hide Prime, OnCurve, Row, Listed, GroupLaw, OddOrder;
    SevenIsPrime();
    forall i | 0 <= i < ORDER ensures OnCurve(Points()[i], B, P) && (Points()[i] == Infinity <==> i == 0) {
      OnTheCurve(i);
    }
    forall q | OnCurve(q, B, P) ensures q in Points() {
      PointsAre(q);
    }
    forall i, j | 0 < i < ORDER && 0 < j < ORDER ensures Row(Points(), Slope, i, j, P) {
      RowIs(i, j);
    }
    TabledLaw(Points(), Slope, B, P);
  }

  /**
   On this curve the ladder is right for the multiplier 2 only: for 1, 3 and 4 it gives (0, 0) instead of the multiple,
   whatever the blinding factor.
   */
  lemma LadderFails(k: nat, z: nat)
    requires 0 < k < ORDER && 0 < z < P
    ensures Prime(P)
    ensures MultOf(G.x, G.y, Regularized(k, ORDER, 3), z, 4, P) == if k == 2 then Pair(0, 1) else Pair(0, 0)
    ensures GroupLaw(B, P) && OnCurve(G, B, P) && Times(k, G, B, P) == Points()[k] != Affine(0, 0)
  {
    hide OddOrder, MultOf, Prime, GroupLaw, OnCurve, Times, Pow2, W, Listed;
    SevenIsPrime();
    LawHolds();
    Sizes(k);
    MultipleIs(k, Points(), B, P);
    RegularMultCorrect(G, z, k, 3, ORDER, B, P);
  }

  lemma Sizes(k: nat)
    requires k < ORDER
    ensures Pow2(2) == 4 && Pow2(3) == 8
    ensures Regularized(k, ORDER, 3) % W(1) == Regularized(k, ORDER, 3)
  {
    Pow2Small();
    assert W(1) == BASE * W(0);
  }
}
