/** Curves small enough to list: when the points are listed as multiples of one of them, the group law holds. */
module PointTable {
  import opened Arith
  import opened Congruence
  import opened CurveMath
  import opened Group

  /** The points listed are all points of the curve, the first is infinity, and they add like their positions. */
  ghost predicate Listed(points: seq<Point>, b: int, p: nat) {
    && Prime(p) && p > 3 && p % 2 == 1
    && |points| % 2 == 1 && |points| > 1
    && (forall i | 0 <= i < |points| :: OnCurve(points[i], b, p) && (points[i] == Infinity <==> i == 0))
    && (forall q | OnCurve(q, b, p) :: q in points)
    && (forall i, j | 0 <= i < |points| && 0 <= j < |points| :: SumAt(points, i, j, p))
  }

  ghost predicate SumAt(points: seq<Point>, i: nat, j: nat, p: nat)
    requires Prime(p) && p > 3 && i < |points| && j < |points|
  {
    var q, r := points[i], points[j];
    (q.Affine? ==> q.x < p && q.y < p) && (r.Affine? ==> r.x < p && r.y < p) ==>
      Plus(q, r, p) == points[(i + j) % |points|]
  }

  lemma SumIs(points: seq<Point>, i: nat, j: nat, b: int, p: nat)
    requires Listed(points, b, p) && i < |points| && j < |points|
    ensures Plus(points[i], points[j], p) == points[(i + j) % |points|]
  {
    hide Plus;
    assert SumAt(points, i, j, p);
  }

  /** The hypothesis about chord-and-tangent addition holds on such a curve. */
  lemma LawOf(points: seq<Point>, b: int, p: nat)
    requires Listed(points, b, p)
    ensures GroupLaw(b, p)
  {
    assert Prime(p) && p > 3 && p % 2 == 1;
    hide Plus, Prime, OnCurve, AssociatesAt, Listed;
    forall q, r, s ensures AssociatesAt(q, r, s, b, p) {
      AssociatesHere(q, r, s, points, b, p);
    }
  }

  lemma AssociatesHere(q: Point, r: Point, s: Point, points: seq<Point>, b: int, p: nat)
    requires Listed(points, b, p)
    ensures Prime(p) && p > 3 && AssociatesAt(q, r, s, b, p)
  {
    assert Prime(p) && p > 3;
    hide Plus, Prime, OnCurve, SumAt;
    if OnCurve(q, b, p) && OnCurve(r, b, p) && OnCurve(s, b, p) {
      var n := |points|;
      var i :| 0 <= i < n && points[i] == q;
      var j :| 0 <= j < n && points[j] == r;
      var k :| 0 <= k < n && points[k] == s;
      SumIs(points, i, j, b, p);
      SumIs(points, j, k, b, p);
      SumIs(points, (i + j) % n, k, b, p);
      SumIs(points, i, (j + k) % n, b, p);
      SameRemainder(i, j, k, n);
    }
  }

  lemma SameRemainder(i: nat, j: nat, k: nat, n: nat)
    requires n > 0
    ensures ((i + j) % n + k) % n == (i + (j + k) % n) % n
  {
    CongOfMod(i + j, n);
    CongOfMod(j + k, n);
    CongAdd((i + j) % n, i + j, k, k, n);
    CongAdd(i, i, (j + k) % n, j + k, n);
  }

  lemma {:induction false} MultipleIs(k: nat, points: seq<Point>, b: int, p: nat)
    requires Listed(points, b, p)
    ensures GroupLaw(b, p) && OnCurve(points[1], b, p)
    ensures Times(k, points[1], b, p) == points[k % |points|]
  {
    hide *;
    FirstPoints(points, b, p);
    LawOf(points, b, p);
    var n := |points|;
    if k == 0 {
      ModSmall(0, n);
      TimesNone(points[1], b, p);
    } else {
      MultipleIs(k - 1, points, b, p);
      TimesNext(k, points[1], b, p);
      SumIs(points, (k - 1) % n, 1, b, p);
      NextRemainder(k, n);
    }
  }

  lemma FirstPoints(points: seq<Point>, b: int, p: nat)
    requires Listed(points, b, p)
    ensures Prime(p) && p > 3 && |points| > 1 && points[0] == Infinity && OnCurve(points[1], b, p)
  {
  }

  lemma TimesNone(g: Point, b: int, p: nat)
    requires GroupLaw(b, p) && OnCurve(g, b, p)
    ensures Times(0, g, b, p) == Infinity
  {
  }

  lemma TimesNext(k: nat, g: Point, b: int, p: nat)
    requires GroupLaw(b, p) && OnCurve(g, b, p) && k > 0
    ensures Prime(p) && p > 3 && OnCurve(Times(k - 1, g, b, p), b, p)
    ensures Times(k, g, b, p) == Plus(Times(k - 1, g, b, p), g, p)
  {
    hide Plus, OnCurve, Prime;
  }

  lemma NextRemainder(k: nat, n: nat)
    requires k > 0 && n > 1
    ensures (k - 1) % n < n && ((k - 1) % n + 1) % n == k % n
  {
    CongOfMod(k - 1, n);
    CongAdd((k - 1) % n, k - 1, 1, 1, n);
  }

  lemma OrderIs(points: seq<Point>, b: int, p: nat)
    requires Listed(points, b, p)
    ensures OddOrder(|points|, points[1], b, p)
  {
    var n := |points|;
    MultipleIs(0, points, b, p);
    hide Plus, Prime, OnCurve, GroupLaw, Times;
    MultipleIs(n, points, b, p);
    forall i: nat | 0 < i < n ensures Times(i, points[1], b, p) != Infinity {
      MultipleIs(i, points, b, p);
      ModSmall(i, n);
    }
  }

  // ---- Showing that points are listed ----

  /** The line of slope l through q and r, or tangent at q when they are equal, meets the curve again opposite s. */
  predicate Fits(q: Point, r: Point, l: int, s: Point, p: nat)
    requires p > 0
  {
    && q.Affine? && r.Affine? && Third(l, q, r.x, p) == s
    && q.x < p && q.y < p && r.x < p && r.y < p
    && (q != r ==> q.x != r.x && Cong(l * (r.x - q.x), r.y - q.y, p))
    && (q == r ==> q.y > 0 && Cong(l * (2 * q.y), 3 * q.x * q.x - 3, p))
  }

  lemma SumFits(q: Point, r: Point, l: int, s: Point, p: nat)
    requires Prime(p) && p > 3 && Fits(q, r, l, s, p)
    ensures Plus(q, r, p) == s
  {
    hide Prime, Third, Cong;
    if q == r {
      TwiceNonzero(q.y, p);
      DivUnique(l, 3 * q.x * q.x - 3, 2 * q.y, p);
      ThirdCong(l, FDiv(3 * q.x * q.x - 3, 2 * q.y, p), q, q.x, p);
    } else {
      DistinctResidues(r.x, q.x, p);
      DivUnique(l, r.y - q.y, r.x - q.x, p);
      ThirdCong(l, FDiv(r.y - q.y, r.x - q.x, p), q, r.x, p);
    }
  }

  predicate Opposite(q: Point, r: Point) {
    q.Affine? && r.Affine? && q.x == r.x && (q.y != r.y || q.y == 0)
  }

  /** The points i and j are opposite, or the line through them has the given slope. */
  predicate Row(points: seq<Point>, slope: (nat, nat) -> int, i: nat, j: nat, p: nat)
    requires p > 0 && i < |points| && j < |points|
  {
    if i + j == |points| then Opposite(points[i], points[j])
    else Fits(points[i], points[j], slope(i, j), points[(i + j) % |points|], p)
  }

  /** What has to be computed for a list of points: that they are all, and the slopes. */
  ghost predicate Tabled(points: seq<Point>, slope: (nat, nat) -> int, b: int, p: nat) {
    && Prime(p) && p > 3 && p % 2 == 1
    && |points| % 2 == 1 && |points| > 1
    && (forall i | 0 <= i < |points| :: OnCurve(points[i], b, p) && (points[i] == Infinity <==> i == 0))
    && (forall q | OnCurve(q, b, p) :: q in points)
    && (forall i, j | 0 < i < |points| && 0 < j < |points| :: Row(points, slope, i, j, p))
  }

  lemma SumTabled(points: seq<Point>, slope: (nat, nat) -> int, i: nat, j: nat, b: int, p: nat)
    requires Tabled(points, slope, b, p) && i < |points| && j < |points|
    ensures SumAt(points, i, j, p)
  {
    hide Prime, OnCurve, Row, SumAt;
    BelowModulus(points[i], b, p);
    BelowModulus(points[j], b, p);
    SumOfRow(points, slope, i, j, p);
  }

  lemma SumOfRow(points: seq<Point>, slope: (nat, nat) -> int, i: nat, j: nat, p: nat)
    requires Prime(p) && p > 3 && i < |points| && j < |points| && points[0] == Infinity
    requires i > 0 && j > 0 ==> Row(points, slope, i, j, p)
    requires points[i].Affine? ==> points[i].x < p && points[i].y < p
    requires points[j].Affine? ==> points[j].x < p && points[j].y < p
    ensures SumAt(points, i, j, p)
  {
    hide Prime, Fits, Plus, Opposite;
    var n, q, r := |points|, points[i], points[j];
    SumsWithout(q, r, p);
    if i == 0 || j == 0 {
      ModSmall(i + j, n);
    } else if i + j != n {
      SumFits(q, r, slope(i, j), points[(i + j) % n], p);
    } else {
      DivOfSum(n, 1, 0, n);
    }
  }

  lemma BelowModulus(q: Point, b: int, p: nat)
    requires p > 0 && OnCurve(q, b, p)
    ensures q.Affine? ==> q.x < p && q.y < p
  {
  }

  /** Sums that need no slope. */
  lemma SumsWithout(q: Point, r: Point, p: nat)
    requires Prime(p) && p > 3
    requires (q.Affine? ==> q.x < p && q.y < p) && (r.Affine? ==> r.x < p && r.y < p)
    ensures q == Infinity ==> Plus(q, r, p) == r
    ensures r == Infinity ==> Plus(q, r, p) == q
    ensures Opposite(q, r) ==> Plus(q, r, p) == Infinity
  {
  }

  /** Then the list has the group law, and its second point generates it. */
  lemma TabledLaw(points: seq<Point>, slope: (nat, nat) -> int, b: int, p: nat)
    requires Tabled(points, slope, b, p)
    ensures Listed(points, b, p) && GroupLaw(b, p) && OddOrder(|points|, points[1], b, p)
  {
    hide Plus, Prime, OnCurve, SumAt, Row, GroupLaw, OddOrder;
    forall i, j | 0 <= i < |points| && 0 <= j < |points| ensures SumAt(points, i, j, p) {
      SumTabled(points, slope, i, j, b, p);
    }
    LawOf(points, b, p);
    OrderIs(points, b, p);
  }
}
