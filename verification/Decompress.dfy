/** Square roots modulo p and compressed points (sections 2.3.3 and 2.3.4 of SEC 1). */
module Decompress {
  import opened Arith
  import opened Bits
  import opened Congruence
  import opened Vli
  import opened VliMod
  import opened Bytes
  import opened CoZ
  import opened CurveMath
  import opened LadderMath
  import opened Fermat

  // ---- x^3 - 3x + b ----

  function SideOf(x: nat, b: nat, p: nat): (r: nat)
    requires p > 0
    ensures r < p
  {
    FAdd(FMul(FSub(FMul(x, x, p), 3, p), x, p), b, p)
  }

  lemma PolySide(x: int, b: int)
    ensures (x * x - 3) * x + b == x * x * x - 3 * x + b
  {
  }

  lemma SideMeaning(x: nat, b: nat, p: nat)
    requires p > 0
    ensures Cong(SideOf(x, b, p), x * x * x - 3 * x + b, p)
  {
    hide FAdd, FSub, FMul, Cong;
    CongSelf(x, p);
    CongSelf(3, p);
    CongSelf(b, p);
    MulIs(x, x, x, x, p);
    SubIs(FMul(x, x, p), 3, x * x, 3, p);
    MulIs(FSub(FMul(x, x, p), 3, p), x, x * x - 3, x, p);
    AddIs(FMul(FSub(FMul(x, x, p), 3, p), x, p), b, (x * x - 3) * x, b, p);
    PolySide(x, b);
  }

  lemma CongSelf(x: int, p: nat)
    requires p > 0
    ensures Cong(x, x, p)
  {
  }

  /** x_side_default; `b` is the curve's constant. */
  method XSide(result: array<Word>, x: array<Word>, b: array<Word>, curve: Curve)
    requires curve.Valid() && curve.Room(result) && curve.Holds(x) && curve.Holds(b) && result != x && result != b
    modifies result
    ensures curve.Holds(result)
    ensures Val(result, curve.numWords) == SideOf(Val(x, curve.numWords), Val(b, curve.numWords), curve.P())
  {
    hide Value, W, FAdd, FSub, FMul;
    var three := new Word[curve.numWords](_ => 0);
    three[0] := 3;
    SmallValue(three[..], curve.numWords, 3);
    ModSquareFast(result, x, curve);
    Difference(result, result, three, curve);
    ModMultFast(result, result, x, curve);
    Sum(result, result, b, curve);
  }

  // ---- Square roots ----

  function FPow(a: int, e: nat, p: nat): (r: nat)
    requires p > 0
    ensures r < p
  {
    Power(a, e) % p
  }

  lemma PowStep(a: int, e: nat, bit: bool, p: nat)
    requires p > 0
    ensures var s := FMul(FPow(a, e, p), FPow(a, e, p), p);
      if bit then FMul(s, a, p) == FPow(a, 2 * e + 1, p) else s == FPow(a, 2 * e, p)
  {
    hide Cong;
    var w := Power(a, e);
    CongOfMod(w, p);
    CongSelf(a, p);
    PowerAdd(a, e, e);
    PowerAdd(a, 2 * e, 1);
    MulIs(FPow(a, e, p), FPow(a, e, p), w, w, p);
    var s := FMul(FPow(a, e, p), FPow(a, e, p), p);
    MulIs(s, a, w * w, a, p);
    CongOfMod(w * w, p);
    CongOfMod(w * w * a, p);
    SameResidue(s, w * w, p);
    SameResidue(FMul(s, a, p), w * w * a, p);
    PowerOne(a);
  }

  lemma PowerOne(a: int)
    ensures Power(a, 1) == a && Power(a, 0) == 1
  {
  }

  lemma SameResidue(s: nat, x: int, p: nat)
    requires p > 0 && s < p && Cong(s, x, p)
    ensures s == x % p
  {
    CongOfMod(x, p);
    CongSmall(s, x % p, p);
  }

  /** p + 1 fits in the words: 2^(32 n) - 1 is a multiple of 3. */
  lemma {:induction false} WeightModThree(n: nat)
    ensures W(n) % 3 == 1
  {
    if n > 0 {
      WeightModThree(n - 1);
      BaseModThree(W(n - 1));
    }
  }

  lemma BaseModThree(w: nat)
    requires w % 3 == 1
    ensures 0x1_0000_0000 * w % 3 == 1
  {
  }

  lemma RoomForOne(p: nat, n: nat)
    requires Prime(p) && p > 3 && p < W(n)
    ensures p + 1 < W(n)
  {
    WeightModThree(n);
    assert Divides(3, p) <==> p % 3 == 0;
  }

  /** mod_sqrt_default: a to the power (p + 1) / 4, square by square from the top bit. */
  method ModSqrt(a: array<Word>, curve: Curve)
    requires curve.Valid() && Prime(curve.P()) && curve.Holds(a)
    modifies a
    ensures curve.Holds(a)
    ensures Val(a, curve.numWords) == FPow(old(Val(a, curve.numWords)), (curve.P() + 1) / 4, curve.P())
  {
    hide Value, W, FMul, FPow, Prime, Power, Pow2, Prefix;
    var n := curve.numWords;
    ghost var x, p := Val(a, n), curve.P();
    var p1, bits := PlusOne(curve);
    var l := new Word[n](_ => 0);
    l[0] := 1;
    SmallValue(l[..], n, 1);
    FirstPower(x, p);
    var i := bits - 1;
    while i > 1
      invariant 1 <= i <= bits - 1 && Val(p1, n) == p + 1 && Val(a, n) == x && curve.Valid() && curve.P() == p
      invariant curve.Holds(l) && curve.Holds(a) && Val(l, n) == FPow(x, Prefix(p + 1, i + 1), p)
    {
      PrefixStep(p + 1, i);
      PowStep(x, Prefix(p + 1, i + 1), BitOf(p + 1, i), p);
      var bit := TestBit(p1, i, n);
      SquareBit(l, a, bit, curve);
      i := i - 1;
    }
    LowPrefixes(p + 1);
    Set(a, l, n);
  }

  /** p + 1 and its length. */
  method PlusOne(curve: Curve) returns (p1: array<Word>, bits: nat)
    requires curve.Valid() && Prime(curve.P())
    ensures fresh(p1) && p1.Length == curve.numWords && Val(p1, curve.numWords) == curve.P() + 1
    ensures 3 <= bits <= 32 * curve.numWords && Prefix(curve.P() + 1, bits) == 0
  {
    hide Value, W, Prime, Pow2, Prefix;
    var n := curve.numWords;
    ghost var p := curve.P();
    p1 := new Word[n](_ => 0);
    p1[0] := 1;
    SmallValue(p1[..], n, 1);
    ValueBound(curve.p[..], n);
    RoomForOne(p, n);
    var carry := Add(p1, curve.p, p1, n);
    ValueBound(p1[..], n);
    NoCarry(Val(p1, n), carry, p + 1, W(n));
    bits := NumBits(p1, n);
    LongEnough(p + 1, bits);
  }

  /** The body of the loop. */
  method SquareBit(l: array<Word>, a: array<Word>, bit: bool, curve: Curve)
    requires curve.Valid() && curve.Holds(l) && curve.Holds(a) && l != a
    modifies l
    ensures curve.Holds(l)
    ensures var n, p := curve.numWords, curve.P();
      var s := FMul(old(Val(l, n)), old(Val(l, n)), p);
      Val(l, n) == if bit then FMul(s, Val(a, n), p) else s
  {
    hide Value, W, FMul;
    ModSquareFast(l, l, curve);
    if bit {
      ModMultFast(l, l, a, curve);
    }
  }

  lemma NoCarry(v: nat, carry: nat, total: nat, w: nat)
    requires v + carry * w == total < w && carry <= 1
    ensures v == total
  {
  }

  lemma LongEnough(v: nat, bits: nat)
    requires IsBitLength(v, bits) && v >= 4
    ensures bits >= 3 && Prefix(v, bits) == 0
  {
    assert Pow2(0) == 1 && Pow2(1) == 2 && Pow2(2) == 4;
    DivOfSum(v, 0, v, Pow2(bits));
  }

  lemma FirstPower(x: int, p: nat)
    requires p > 1
    ensures FPow(x, 0, p) == 1
  {
    ModSmall(1, p);
  }

  // ---- Why it is a square root ----

  lemma PolySquare(y: int, u: int, v: int)
    ensures (u * y) * (u * y) == (u * u) * (y * y)
    ensures (v - y) * (v + y) == v * v - y * y
  {
  }

  lemma {:induction false} PowerOfSquare(y: int, e: nat)
    ensures Power(y * y, e) == Power(y, 2 * e)
  {
    if e > 0 {
      PowerOfSquare(y, e - 1);
      Assoc(Power(y, 2 * e - 2), y, y);
      assert Power(y, 2 * e) == Power(y, 2 * e - 1) * y && Power(y, 2 * e - 1) == Power(y, 2 * e - 2) * y;
    }
  }

  /** When p = 3 modulo 4, the power (p + 1) / 4 of a square is a square root of it. */
  lemma RootOfSquare(a: nat, y: nat, p: nat)
    requires Prime(p) && p % 4 == 3 && a < p && Cong(y * y, a, p)
    ensures var r := FPow(a, (p + 1) / 4, p); Cong(r * r, y * y, p)
  {
    assert p > 1;
    hide Prime, Power, Cong;
    var e := (p + 1) / 4;
    var r := FPow(a, e, p);
    var w := Power(a, e);
    CongOfMod(w, p);
    CongMul(r, w, r, w, p);
    CongSymmetric(y * y, a, p);
    PowerCong(a, y * y, e, p);
    CongMul(w, Power(y * y, e), w, Power(y * y, e), p);
    PowerOfSquare(y, e);
    PowerAdd(y, 2 * e, 2 * e);
    assert 2 * e + 2 * e == (p - 1) + 2;
    PowerAdd(y, p - 1, 2);
    PowerTwo(y);
    if y % p == 0 {
      ZeroSquare(y, p);
      CongMul(Power(y, p - 1), Power(y, p - 1), y * y, 0, p);
      CongSelf(Power(y, p - 1), p);
    } else {
      LittleTheorem(y, p);
      CongSelf(y * y, p);
      CongMul(Power(y, p - 1), 1, y * y, y * y, p);
    }
    CongChain(r * r, w * w, Power(y, 2 * e) * Power(y, 2 * e), y * y, p);
  }

  lemma CongSymmetric(x: int, y: int, p: nat)
    requires p > 0 && Cong(x, y, p)
    ensures Cong(y, x, p)
  {
  }

  lemma PowerTwo(y: int)
    ensures Power(y, 2) == y * y
  {
    assert Power(y, 1) == y;
  }

  lemma ZeroSquare(y: nat, p: nat)
    requires p > 0 && y % p == 0
    ensures Cong(y * y, 0, p)
  {
    CongOf(y, 0, y / p, p);
    CongMul(y, 0, y, 0, p);
  }

  lemma CongChain(a: int, b: int, c: int, d: int, p: nat)
    requires p > 0 && Cong(a, b, p) && Cong(b, c, p) && Cong(c, d, p)
    ensures Cong(a, d, p)
  {
  }

  // ---- Compressed points ----

  /** The ordinate with the given parity among the two roots computed for the abscissa. */
  function OrdinateOf(x: nat, parity: nat, b: nat, p: nat): nat
    requires p > 0
  {
    var r := FPow(SideOf(x, b, p), (p + 1) / 4, p);
    if r % 2 != parity % 2 then p - r else r
  }

  /** Two square roots of the same number are equal or opposite. */
  lemma RootsAreOpposite(r: nat, y: nat, p: nat)
    requires Prime(p) && r < p && y < p && Cong(r * r, y * y, p)
    ensures r == y || r + y == p
  {
    assert p > 1;
    PolySquare(r, 0, r);
    PolySquare(y, 0, r);
    CongDiff(r * r, y * y, p);
    assert Divides(p, (r - y) * (r + y));
    PrimeDividesProduct(p, r - y, r + y);
    if Divides(p, r - y) {
      CongDiff(r, y, p);
      CongSmall(r, y, p);
    } else {
      SumIsPrime(r + y, p);
    }
  }

  lemma SumIsPrime(s: nat, p: nat)
    requires p > 0 && s % p == 0 && s < 2 * p
    ensures s == 0 || s == p
  {
    if s >= p {
      DivOfSum(s, 1, s - p, p);
    } else {
      ModSmall(s, p);
    }
  }

  /** For every point of the curve the ordinate is recovered from the abscissa and the ordinate's parity. */
  lemma OrdinateRecovered(x: nat, y: nat, b: nat, p: nat)
    requires Prime(p) && p % 4 == 3 && OnCurve(Affine(x, y), b, p)
    ensures OrdinateOf(x, y % 2, b, p) == y
  {
    hide *;
    CurveEquation(x, y, b, p);
    var side := SideOf(x, b, p);
    SideMeaning(x, b, p);
    CongSymmetric(side, x * x * x - 3 * x + b, p);
    CongChain(y * y, x * x * x - 3 * x + b, side, side, p);
    RootOfSquare(side, y, p);
    var r := FPow(side, (p + 1) / 4, p);
    RootsAreOpposite(r, y, p);
    OrdinateChoice(x, y, y % 2, b, p);
  }

  lemma CurveEquation(x: nat, y: nat, b: nat, p: nat)
    requires Prime(p) && OnCurve(Affine(x, y), b, p)
    ensures p > 1 && x < p && y < p && Cong(y * y, x * x * x - 3 * x + b, p) && Cong(SideOf(x, b, p), SideOf(x, b, p), p)
  {
  }

  /** Of two opposite roots the parity selects the right one, as p is odd. */
  lemma OrdinateChoice(x: nat, y: nat, parity: nat, b: nat, p: nat)
    requires p > 0 && p % 4 == 3 && y < p && parity % 2 == y % 2
    requires var r := FPow(SideOf(x, b, p), (p + 1) / 4, p); r == y || r + y == p
    ensures OrdinateOf(x, parity, b, p) == y
  {
    hide SideOf, FPow;
  }

  /** Decompression of a compressed point gives its ordinate back. */
  lemma DecompressUndoes(x: nat, y: nat, first: nat, b: nat, p: nat, numBytes: nat)
    requires Prime(p) && p % 4 == 3 && OnCurve(Affine(x, y), b, p) && first == 2 + y % 2 && p <= Pow2(8 * numBytes)
    ensures OrdinateOf(x, first, b, p) % Pow2(8 * numBytes) == y
  {
    hide *;
    CurveEquation(x, y, b, p);
    OrdinateRecovered(x, y, b, p);
    SameParity(x, y % 2, first, b, p);
    ModSmall(y, Pow2(8 * numBytes));
  }

  lemma SameParity(x: nat, parity: nat, other: nat, b: nat, p: nat)
    requires p > 0 && parity % 2 == other % 2
    ensures OrdinateOf(x, parity, b, p) == OrdinateOf(x, other, b, p)
  {
    hide SideOf, FPow;
  }

  /** uECC_compress: a byte for the parity, and the abscissa. */
  method CompressSap(publicKey: array<byte>, compressed: array<byte>, numBytes: nat)
    requires 0 < numBytes && 2 * numBytes <= publicKey.Length && numBytes + 1 <= compressed.Length
    requires compressed != publicKey
    modifies compressed
    ensures compressed[1..numBytes + 1] == publicKey[0..numBytes]
    ensures compressed[0] == 2 + BigEndian(publicKey[numBytes..2 * numBytes]) % 2
  {
    var i := 0;
    while i < numBytes
      invariant 0 <= i <= numBytes && compressed[1..i + 1] == publicKey[0..i]
    {
      compressed[i + 1] := publicKey[i];
      i := i + 1;
    }
    compressed[0] := 2 + publicKey[numBytes * 2 - 1] % 2;
    LastByteParity(publicKey[numBytes..2 * numBytes]);
  }

  lemma LastByteParity(s: seq<byte>)
    requires s != []
    ensures BigEndian(s) % 2 == s[|s| - 1] % 2
  {
  }

  /** uECC_decompress. */
  method DecompressSap(compressed: array<byte>, publicKey: array<byte>, b: array<Word>, curve: Curve, numBytes: nat)
    requires curve.Valid() && Prime(curve.P()) && FieldBytes(curve, numBytes) && curve.Holds(b)
    requires numBytes + 1 <= compressed.Length && 2 * numBytes <= publicKey.Length
    requires BigEndian(compressed[1..numBytes + 1]) < curve.P()
    modifies publicKey
    ensures var x := old(BigEndian(compressed[1..numBytes + 1]));
      && BigEndian(publicKey[0..numBytes]) == x
      && BigEndian(publicKey[numBytes..2 * numBytes])
         == old(OrdinateOf(x, compressed[0], Val(b, curve.numWords), curve.P()) % Pow2(8 * numBytes))
  {
    hide Value, W, Pow2, BigEndian, Prime, OrdinateOf, BitOr, SideOf, FPow, Power;
    var n := curve.numWords;
    var x, y := new Word[n], new Word[n];
    BytesToNative(x, compressed, 1, numBytes);
    OrdinateWords(y, x, compressed[0], b, curve);
    NativeToBytes(publicKey, 0, numBytes, x);
    ghost var first := publicKey[0..numBytes];
    ModSmall(Val(x, n), Pow2(8 * numBytes));
    NativeToBytes(publicKey, numBytes, numBytes, y);
    assert publicKey[0..numBytes] == first;
  }

  /** The ordinate with the parity of the first byte. */
  method OrdinateWords(y: array<Word>, x: array<Word>, first: byte, b: array<Word>, curve: Curve)
    requires curve.Valid() && Prime(curve.P()) && curve.Holds(x) && curve.Holds(b) && curve.Room(y) && y != x && y != b
    modifies y
    ensures Val(y, curve.numWords) == OrdinateOf(Val(x, curve.numWords), first, Val(b, curve.numWords), curve.P())
  {
    hide Value, W, Prime, SideOf, FPow;
    XSide(y, x, b, curve);
    ModSqrt(y, curve);
    ValueParity(y[..], curve.numWords);
    if y[0] % 2 != first % 2 {
      Opposite(y, curve);
    }
  }

  /** y = p - y. */
  method Opposite(y: array<Word>, curve: Curve)
    requires curve.Valid() && curve.Holds(y)
    modifies y
    ensures Val(y, curve.numWords) == curve.P() - old(Val(y, curve.numWords))
  {
    hide Value, W;
    ghost var r, p := Val(y, curve.numWords), curve.P();
    ValueBound(curve.p[..], curve.numWords);
    var borrow := Sub(y, curve.p, y, curve.numWords);
    ValueBound(y[..], curve.numWords);
    CancelledCarry(Val(y, curve.numWords), p - r, 0, borrow, W(curve.numWords));
  }
}
