/** Column-by-column multiplication and squaring with a three-word accumulator. */
module VliMult {
  import opened Arith
  import opened Vli

  const BASE2: nat := BASE * BASE

  function Acc(r0: nat, r1: nat, r2: nat): nat {
    r0 + r1 * BASE + r2 * BASE2
  }

  method MulAdd(a: Word, b: Word, r0: Word, r1: Word, r2: Word) returns (s0: Word, s1: Word, s2: Word)
    requires r2 + 1 < BASE
    ensures Acc(s0, s1, s2) == Acc(r0, r1, r2) + Product(a, b)
    ensures s2 <= r2 + 1
  {
    var p := Product(a, b);
    s0, s1, s2 := AddDoubleWord(p, r0, r1, r2);
  }

  /** `r01 += p; r2 += (r01 < p)`: a wrapped sum is recognised by being below what was added. */
  method AddDoubleWord(p: nat, r0: Word, r1: Word, r2: Word) returns (s0: Word, s1: Word, s2: Word)
    requires p < BASE2 && r2 + 1 < BASE
    ensures Acc(s0, s1, s2) == Acc(r0, r1, r2) + p
    ensures s2 <= r2 + 1
  {
    var r01: nat := (r1 * BASE + r0 + p) % BASE2;
    s2 := r2 + (if r01 < p then 1 else 0);
    s1 := r01 / BASE;
    s0 := r01 % BASE;
  }

  method Mul2Add(a: Word, b: Word, r0: Word, r1: Word, r2: Word) returns (s0: Word, s1: Word, s2: Word)
    requires r2 + 2 < BASE
    ensures Acc(s0, s1, s2) == Acc(r0, r1, r2) + 2 * Product(a, b)
    ensures s2 <= r2 + 2
  {
    var p := Product(a, b);
    DoubleWraps(p);
    s2 := r2 + p / (BASE2 / 2);
    p := 2 * p % BASE2;
    s0, s1, s2 := AddDoubleWord(p, r0, r1, s2);
  }

  /** The top bit of a double word is what doubling it loses. */
  lemma DoubleWraps(p: nat)
    requires p < BASE2
    ensures p / (BASE2 / 2) <= 1
    ensures 2 * p == 2 * p % BASE2 + p / (BASE2 / 2) * BASE2
  {
    if p < BASE2 / 2 {
      ModSmall(2 * p, BASE2);
      DivOfSum(p, 0, p, BASE2 / 2);
    } else {
      DivOfSum(2 * p, 1, 2 * p - BASE2, BASE2);
      DivOfSum(p, 1, p - BASE2 / 2, BASE2 / 2);
    }
  }

  lemma ProductBound(a: Word, b: Word)
    ensures 0 <= a * b <= (BASE - 1) * (BASE - 1)
  {
    MulMono(0, a, b);
    MulMono(a, BASE - 1, b);
    MulMono(b, BASE - 1, BASE - 1);
  }

  /** The double-word product of two words. */
  function Product(a: Word, b: Word): (p: nat)
    ensures p <= (BASE - 1) * (BASE - 1)
  {
    ProductBound(a, b);
    a as int * b as int
  }

  // ---- What the columns add up to ----

  /** The terms left[j] * right[k - j] of column `k` with j < i. */
  function Column(l: seq<Word>, r: seq<Word>, n: nat, k: nat, i: nat): nat
    requires i <= n <= |l| && n <= |r|
  {
    if i == 0 then 0
    else Column(l, r, n, k, i - 1) + Term(l, r, n, k, i - 1)
  }

  function Term(l: seq<Word>, r: seq<Word>, n: nat, k: nat, j: nat): nat
    requires j < n <= |l| && n <= |r|
  {
    if 0 <= k - j < n then Product(l[j], r[k - j]) else 0
  }

  /** Columns 0 to K-1, each limited to its first `m` rows, at their weights. */
  function Columns(l: seq<Word>, r: seq<Word>, n: nat, K: nat, m: nat): nat
    requires m <= n <= |l| && n <= |r|
  {
    if K == 0 then 0 else Columns(l, r, n, K - 1, m) + Column(l, r, n, K - 1, m) * W(K - 1)
  }

  /** The words of row `j` that fall into columns 0 to K-1. */
  function RowLength(n: nat, K: nat, j: nat): nat {
    if K <= j then 0 else if K - j <= n then K - j else n
  }

  lemma {:induction false} ColumnsAddRow(l: seq<Word>, r: seq<Word>, n: nat, K: nat, m: nat)
    requires m < n <= |l| && n <= |r|
    ensures Columns(l, r, n, K, m + 1)
         == Columns(l, r, n, K, m) + l[m] * (Value(r, RowLength(n, K, m)) * W(m))
  {
    if K > 0 {
      ColumnsAddRow(l, r, n, K - 1, m);
      var k := K - 1;
      Distrib(Column(l, r, n, k, m), Term(l, r, n, k, m), W(k));
      if 0 <= k - m < n {
        WAdd(k - m, m);
        RowStep(l[m], Value(r, k - m), r[k - m], W(k - m), W(m));
      }
    }
  }

  lemma RowStep(x: nat, v: nat, d: nat, wd: nat, wm: nat)
    ensures x * ((v + d * wd) * wm) == x * (v * wm) + x * d * (wd * wm)
  {
    Distrib(v, d * wd, wm);
    Assoc(d, wd, wm);
    Assoc(x, d, wd * wm);
    Distrib(v * wm, d * (wd * wm), x);
  }

  /** All columns together are the product. */
  lemma {:induction false} ColumnsAreProduct(l: seq<Word>, r: seq<Word>, n: nat, m: nat)
    requires m <= n <= |l| && n <= |r| && n > 0
    ensures Columns(l, r, n, 2 * n - 1, m) == Value(l, m) * Value(r, n)
  {
    if m == 0 {
      NoRows(l, r, n, 2 * n - 1);
    } else {
      ColumnsAreProduct(l, r, n, m - 1);
      ColumnsAddRow(l, r, n, 2 * n - 1, m - 1);
      assert RowLength(n, 2 * n - 1, m - 1) == n;
      OneMoreRow(Value(l, m - 1), l[m - 1], W(m - 1), Value(r, n));
    }
  }

  lemma OneMoreRow(v: nat, d: nat, w: nat, y: nat)
    ensures (v + d * w) * y == v * y + d * (y * w)
  {
    Distrib(v, d * w, y);
    Assoc(d, w, y);
  }

  lemma {:induction false} NoRows(l: seq<Word>, r: seq<Word>, n: nat, K: nat)
    requires n <= |l| && n <= |r|
    ensures Columns(l, r, n, K, 0) == 0
  {
    if K > 0 {
      NoRows(l, r, n, K - 1);
    }
  }

  /** Rows outside [lo, hi) contribute nothing to column `k`. */
  lemma {:induction false} ColumnEnds(l: seq<Word>, r: seq<Word>, n: nat, k: nat, i: nat)
    requires i <= n <= |l| && n <= |r|
    ensures i <= k + 1 - n ==> Column(l, r, n, k, i) == 0
    ensures i > k ==> k < n && Column(l, r, n, k, i) == Column(l, r, n, k, k + 1)
  {
    if i > 0 {
      ColumnEnds(l, r, n, k, i - 1);
    }
  }

  // ---- Multiplication ----

  /** The loops' state: finished words, and an accumulator `acc` waiting at column `k`. */
  ghost predicate Finished(result: array<Word>, l: seq<Word>, r: seq<Word>, n: nat, k: nat, acc: nat)
    requires n <= |l| && n <= |r| && k <= result.Length
    reads result
  {
    Val(result, k) + acc * W(k) == Columns(l, r, n, k, n)
  }

  lemma NextWord(before: seq<Word>, after: seq<Word>, l: seq<Word>, r: seq<Word>, n: nat, k: nat,
                 accIn: nat, r0: Word, r1: Word, r2: Word)
    requires n <= |l| && n <= |r| && k < |after| && k <= |before|
    requires forall j | 0 <= j < k :: before[j] == after[j]
    requires after[k] == r0
    requires Value(before, k) + accIn * W(k) == Columns(l, r, n, k, n)
    requires Acc(r0, r1, r2) == accIn + Column(l, r, n, k, n)
    ensures Value(after, k + 1) + Acc(r1, r2, 0) * W(k + 1) == Columns(l, r, n, k + 1, n)
  {
    ValuePrefix(before, after, k);
    var rest := Acc(r1, r2, 0);
    assert Acc(r0, r1, r2) == r0 + rest * BASE;
    CarryStep(Acc(r0, r1, r2), r0, rest, k);
    Distrib(accIn, Column(l, r, n, k, n), W(k));
  }

  method Mult(result: array<Word>, left: array<Word>, right: array<Word>, n: nat)
    requires 0 < n < BASE
    requires n <= left.Length && n <= right.Length && 2 * n <= result.Length
    requires result != left && result != right
    modifies result
    ensures Val(result, 2 * n) == Val(left, n) * Val(right, n)
  {
    hide W;
    var r0: Word, r1: Word, r2: Word := 0, 0, 0;
    ghost var l, r := left[..], right[..];
    for k := 0 to n
      invariant r2 == 0
      invariant Finished(result, l, r, n, k, Acc(r0, r1, r2))
    {
      ghost var accIn, before := Acc(r0, r1, r2), result[..];
      for i := 0 to k + 1
        invariant r2 <= i
        invariant result[..] == before
        invariant Acc(r0, r1, r2) == accIn + Column(l, r, n, k, i)
      {
        r0, r1, r2 := MulAdd(left[i], right[k - i], r0, r1, r2);
      }
      ColumnEnds(l, r, n, k, n);
      result[k] := r0;
      NextWord(before, result[..], l, r, n, k, accIn, r0, r1, r2);
      r0, r1, r2 := r1, r2, 0;
    }
    for k := n to 2 * n - 1
      invariant r2 == 0
      invariant Finished(result, l, r, n, k, Acc(r0, r1, r2))
    {
      ghost var accIn, before := Acc(r0, r1, r2), result[..];
      ColumnEnds(l, r, n, k, k + 1 - n);
      for i := k + 1 - n to n
        invariant r2 <= i
        invariant result[..] == before
        invariant Acc(r0, r1, r2) == accIn + Column(l, r, n, k, i)
      {
        r0, r1, r2 := MulAdd(left[i], right[k - i], r0, r1, r2);
      }
      result[k] := r0;
      NextWord(before, result[..], l, r, n, k, accIn, r0, r1, r2);
      r0, r1, r2 := r1, r2, 0;
    }
    ghost var before := result[..];
    result[2 * n - 1] := r0;
    ValuePrefix(before, result[..], 2 * n - 1);
    LastWord(l, r, n, Value(before, 2 * n - 1), r0, r1);
  }

  /** The product fits, so nothing is left above the last word. */
  lemma LastWord(l: seq<Word>, r: seq<Word>, n: nat, low: nat, r0: Word, r1: Word)
    requires 0 < n <= |l| && n <= |r|
    requires low + Acc(r0, r1, 0) * W(2 * n - 1) == Columns(l, r, n, 2 * n - 1, n)
    ensures low + r0 * W(2 * n - 1) == Value(l, n) * Value(r, n)
  {
    ColumnsAreProduct(l, r, n, n);
    ValueBound(l, n);
    ValueBound(r, n);
    WAdd(n, n);
    BelowSquare(Value(l, n), Value(r, n), W(n));
    assert W(2 * n) == BASE * W(2 * n - 1);
    if r1 > 0 {
      MulMono(BASE, Acc(r0, r1, 0), W(2 * n - 1));
      assert false;
    }
  }

  lemma BelowSquare(x: nat, y: nat, w: nat)
    requires x < w && y < w
    ensures x * y < w * w
  {
    MulMono(x, w, y);
    MulMono(y + 1, w, w);
    Distrib(y, 1, w);
  }

  // ---- Squaring ----

  /** Column `k` of the square summed as the code does: pairs i < k-i doubled, from row `lo`. */
  function Doubled(l: seq<Word>, n: nat, k: nat, lo: nat, i: nat): nat
    requires n <= |l| && lo <= i <= n && k < lo + n && i <= k / 2 + 1
    decreases i
  {
    if i == lo then 0
    else Doubled(l, n, k, lo, i - 1) + (if 2 * (i - 1) < k then 2 else 1) * Product(l[i - 1], l[k - (i - 1)])
  }

  function Lowest(n: nat, k: nat): nat {
    if k < n then 0 else k + 1 - n
  }

  /** Rows a to b-1 of column `k`. */
  function Rows(l: seq<Word>, n: nat, k: nat, a: nat, b: nat): nat
    requires n <= |l| && a <= b <= n
    decreases b
  {
    if a == b then 0 else Rows(l, n, k, a, b - 1) + Term(l, l, n, k, b - 1)
  }

  lemma {:induction false} RowsSplit(l: seq<Word>, n: nat, k: nat, a: nat, b: nat, c: nat)
    requires n <= |l| && a <= b <= c <= n
    ensures Rows(l, n, k, a, c) == Rows(l, n, k, a, b) + Rows(l, n, k, b, c)
    decreases c
  {
    if b < c {
      RowsSplit(l, n, k, a, b, c - 1);
    }
  }

  lemma {:induction false} ColumnIsRows(l: seq<Word>, n: nat, k: nat, i: nat)
    requires i <= n <= |l|
    ensures Column(l, l, n, k, i) == Rows(l, n, k, 0, i)
  {
    if i > 0 {
      ColumnIsRows(l, n, k, i - 1);
    }
  }

  /** Each visited pair takes the outer two rows off the part still to come. */
  lemma {:induction false} PairsFromOutside(l: seq<Word>, n: nat, k: nat, lo: nat, i: nat)
    requires n <= |l| && k < 2 * n - 1 && lo == Lowest(n, k)
    requires lo <= i && 2 * i <= k + 1
    ensures k + 1 - lo <= n
    ensures Doubled(l, n, k, lo, i) + Rows(l, n, k, i, k + 1 - i) == Rows(l, n, k, lo, k + 1 - lo)
    decreases i
  {
    if i > lo {
      var a := i - 1;
      PairsFromOutside(l, n, k, lo, a);
      RowsSplit(l, n, k, a, i, k + 1 - a);
      RowsSplit(l, n, k, i, k - a, k + 1 - a);
      OneRow(l, n, k, a);
      OneRow(l, n, k, k - a);
      ProductCommutes(l[a], l[k - a]);
    }
  }

  lemma OneRow(l: seq<Word>, n: nat, k: nat, j: nat)
    requires j < n <= |l|
    ensures Rows(l, n, k, j, j + 1) == Term(l, l, n, k, j)
  {
    assert Rows(l, n, k, j, j) == 0;
  }

  lemma ProductCommutes(a: Word, b: Word)
    ensures Product(a, b) == Product(b, a)
  {
  }

  lemma HalfColumn(l: seq<Word>, n: nat, k: nat)
    requires 0 < n <= |l| && k < 2 * n - 1
    ensures k / 2 + 1 <= n && Lowest(n, k) <= k / 2 + 1
    ensures Doubled(l, n, k, Lowest(n, k), k / 2 + 1) == Column(l, l, n, k, n)
  {
    var lo := Lowest(n, k);
    PairsFromOutside(l, n, k, lo, (k + 1) / 2);
    if k % 2 == 0 {
      OneRow(l, n, k, k / 2);
    }
    ColumnIsRows(l, n, k, n);
    ColumnIsRows(l, n, k, lo);
    ColumnEnds(l, l, n, k, lo);
    RowsSplit(l, n, k, 0, lo, n);
    ColumnIsRows(l, n, k, k + 1 - lo);
    ColumnEnds(l, l, n, k, n);
    RowsSplit(l, n, k, 0, lo, k + 1 - lo);
  }

  /** The inner loop of uECC_vli_square: the doubled products of column k, and the square in its middle. */
  method SquareColumn(left: array<Word>, n: nat, k: nat, a0: Word, a1: Word) returns (r0: Word, r1: Word, r2: Word)
    requires 0 < n < BASE / 2 && n <= left.Length && k < 2 * n - 1
    ensures Acc(r0, r1, r2) == Acc(a0, a1, 0) + Column(left[..], left[..], n, k, n)
  {
    hide W, Term;
    r0, r1, r2 := a0, a1, 0;
    ghost var l := left[..];
    var min: nat := if k < n then 0 else k + 1 - n;
    HalfColumn(l, n, k);
    var i := min;
    while i <= k && i <= k - i
      invariant min <= i <= k / 2 + 1
      invariant r2 <= 2 * i
      invariant Acc(r0, r1, r2) == Acc(a0, a1, 0) + Doubled(l, n, k, min, i)
    {
      if i < k - i {
        r0, r1, r2 := Mul2Add(left[i], left[k - i], r0, r1, r2);
      } else {
        r0, r1, r2 := MulAdd(left[i], left[k - i], r0, r1, r2);
      }
      i := i + 1;
    }
  }

  method Square(result: array<Word>, left: array<Word>, n: nat)
    requires 0 < n < BASE / 2
    requires n <= left.Length && 2 * n <= result.Length && result != left
    modifies result
    ensures Val(result, 2 * n) == Val(left, n) * Val(left, n)
  {
    hide W, Term;
    var r0: Word, r1: Word, r2: Word := 0, 0, 0;
    ghost var l := left[..];
    for k := 0 to 2 * n - 1
      invariant r2 == 0
      invariant Finished(result, l, l, n, k, Acc(r0, r1, r2))
    {
      ghost var accIn, before := Acc(r0, r1, r2), result[..];
      r0, r1, r2 := SquareColumn(left, n, k, r0, r1);
      result[k] := r0;
      NextWord(before, result[..], l, l, n, k, accIn, r0, r1, r2);
      r0, r1, r2 := r1, r2, 0;
    }
    ghost var before := result[..];
    result[2 * n - 1] := r0;
    ValuePrefix(before, result[..], 2 * n - 1);
    LastWord(l, l, n, Value(before, 2 * n - 1), r0, r1);
  }
}
