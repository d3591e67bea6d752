/** uECC_verify on word arrays and bytes, against the verification on numbers. */
module VerifyWords {
  import opened Arith
  import opened Bits
  import opened Congruence
  import opened Vli
  import opened VliMod
  import opened Bytes
  import opened HashBits
  import opened CoZ
  import opened Jacobian
  import opened Group
  import opened Ladder
  import opened LadderMath
  import opened Keys
  import opened Shamir
  import opened Ecdsa
  import opened Verify

  // ---- The table of points ----

  /** The arrays behind points[1], points[2] and points[3]; points[0] is null. */
  datatype Points = Points(x: seq<array<Word>>, y: seq<array<Word>>) {
    ghost predicate Good(curve: Curve)
      requires curve.numWords <= curve.p.Length
      reads x, y, curve.p
    {
      && |x| == 3 && |y| == 3
      && curve.Holds(x[0]) && curve.Holds(x[1]) && curve.Holds(x[2])
      && curve.Holds(y[0]) && curve.Holds(y[1]) && curve.Holds(y[2])
    }

    ghost function Value(n: nat): Table
      requires |x| == 3 && |y| == 3
      requires n <= x[0].Length && n <= x[1].Length && n <= x[2].Length
      requires n <= y[0].Length && n <= y[1].Length && n <= y[2].Length
      reads x, y
    {
      Table(Pair(Val(x[0], n), Val(y[0], n)), Pair(Val(x[1], n), Val(y[1], n)), Pair(Val(x[2], n), Val(y[2], n)))
    }

    predicate Apart(a: array<Word>) {
      a !in x && a !in y
    }
  }

  /** sum = G + Q, over a copy of Q. */
  method SumOfPoints(qx: array<Word>, qy: array<Word>, dom: Domain, ghost b: int)
    returns (sumX: array<Word>, sumY: array<Word>)
    requires dom.Valid(b) && dom.field.Holds(qx) && dom.field.Holds(qy) && dom.gx != dom.gy
    ensures fresh(sumX) && fresh(sumY) && sumX != sumY
    ensures dom.field.Holds(sumX) && dom.field.Holds(sumY)
    ensures Prime(dom.field.P())
    ensures Pair(Val(sumX, dom.field.numWords), Val(sumY, dom.field.numWords))
         == TableOf(Pair(dom.G().x, dom.G().y), Pair(Val(qx, dom.field.numWords), Val(qy, dom.field.numWords)),
                    dom.field.P()).sum
  {
    hide CoZAdd, ApplyZOf, Times, Pow2, Value, InvOf;
    var curve := dom.field;
    sumX := Copied(qx, curve);
    sumY := Copied(qy, curve);
    var tx := Copied(dom.gx, curve);
    var ty := Copied(dom.gy, curve);
    var z := new Word[curve.numWords];
    SumOfCopies(tx, ty, sumX, sumY, z, curve);
  }

  /** uECC_vli_set into a local buffer. */
  method Copied(a: array<Word>, curve: Curve) returns (c: array<Word>)
    requires curve.Valid() && curve.Holds(a)
    ensures fresh(c) && curve.Holds(c) && Val(c, curve.numWords) == Val(a, curve.numWords)
  {
    hide Value;
    c := new Word[curve.numWords];
    Set(c, a, curve.numWords);
  }

  method SumOfCopies(tx: array<Word>, ty: array<Word>, sumX: array<Word>, sumY: array<Word>, z: array<Word>, curve: Curve)
    requires curve.Valid() && Prime(curve.P()) && FourHold(tx, ty, sumX, sumY, curve)
    requires curve.Room(z) && z !in {tx, ty, sumX, sumY}
    modifies tx, ty, sumX, sumY, z
    ensures curve.Holds(sumX) && curve.Holds(sumY)
    ensures Pair(Val(sumX, curve.numWords), Val(sumY, curve.numWords))
         == old(TableOf(Pair(Val(tx, curve.numWords), Val(ty, curve.numWords)),
                        Pair(Val(sumX, curve.numWords), Val(sumY, curve.numWords)), curve.P())).sum
  {
    hide CoZAdd, ApplyZOf, InvOf, Prime, FSub, Value;
    Difference(z, sumX, tx, curve);
    XYcZAdd(tx, ty, sumX, sumY, curve);
    ModInvField(z, z, curve);
    ApplyZ(sumX, sumY, z, curve);
  }

  // ---- Shamir's trick ----

  /** The running point's arrays. */
  datatype Running = Running(rx: array<Word>, ry: array<Word>, z: array<Word>) {
    ghost predicate Good(curve: Curve)
      requires curve.numWords <= curve.p.Length
      reads rx, ry, z, curve.p
    {
      rx != ry && rx != z && ry != z && curve.Holds(rx) && curve.Holds(ry) && curve.Holds(z)
    }

    ghost function Value(n: nat): Triple
      requires n <= rx.Length && n <= ry.Length && n <= z.Length
      reads rx, ry, z
    {
      Triple(Val(rx, n), Val(ry, n), Val(z, n))
    }

    predicate Apart(a: array<Word>) {
      a != rx && a != ry && a != z
    }
  }

  method AddPoint(r: Running, px: array<Word>, py: array<Word>, curve: Curve)
    requires curve.Valid() && r.Good(curve) && curve.Holds(px) && curve.Holds(py)
    requires r.Apart(px) && r.Apart(py)
    modifies r.rx, r.ry, r.z
    ensures r.Good(curve)
    ensures r.Value(curve.numWords)
         == AddEntry(old(r.Value(curve.numWords)), Pair(Val(px, curve.numWords), Val(py, curve.numWords)), curve.P())
  {
    hide CoZAdd, ApplyZOf, FSub, FMul, Value;
    var tx, ty := new Word[curve.numWords], new Word[curve.numWords];
    var tz := new Word[curve.numWords];
    Set(tx, px, curve.numWords);
    Set(ty, py, curve.numWords);
    AddCopy(r, tx, ty, tz, curve);
  }

  method AddCopy(r: Running, tx: array<Word>, ty: array<Word>, tz: array<Word>, curve: Curve)
    requires curve.Valid() && r.Good(curve) && curve.Holds(tx) && curve.Holds(ty) && curve.Room(tz)
    requires r.Apart(tx) && r.Apart(ty) && r.Apart(tz) && tx != ty && tx != tz && ty != tz
    modifies r.rx, r.ry, r.z, tx, ty, tz
    ensures r.Good(curve)
    ensures r.Value(curve.numWords)
         == old(AddEntry(r.Value(curve.numWords), Pair(Val(tx, curve.numWords), Val(ty, curve.numWords)), curve.P()))
  {
    hide CoZAdd, ApplyZOf, FSub, FMul, Value;
    ApplyZ(tx, ty, r.z, curve);
    Difference(tz, r.rx, tx, curve);
    XYcZAdd(tx, ty, r.rx, r.ry, curve);
    ModMultFast(r.z, r.z, tz, curve);
  }

  method ShamirBit(r: Running, points: Points, bit1: bool, bit2: bool, curve: Curve)
    requires curve.Valid() && r.Good(curve) && points.Good(curve)
    requires points.Apart(r.rx) && points.Apart(r.ry) && points.Apart(r.z)
    modifies r.rx, r.ry, r.z
    ensures r.Good(curve)
    ensures r.Value(curve.numWords)
         == ShamirStep(old(r.Value(curve.numWords)), points.Value(curve.numWords),
                       if bit1 then 1 else 0, if bit2 then 1 else 0, curve.P())
  {
    hide DoubleOf, AddEntry, Value;
    DoubleJacobian(r.rx, r.ry, r.z, curve);
    var index := (if bit1 then 1 else 0) + (if bit2 then 2 else 0);
    if index != 0 {
      AddPoint(r, points.x[index - 1], points.y[index - 1], curve);
    }
  }

  method ShamirLoop(r: Running, points: Points, u1: array<Word>, u2: array<Word>, numBits: nat, nw: nat, curve: Curve)
    requires curve.Valid() && r.Good(curve) && points.Good(curve)
    requires points.Apart(r.rx) && points.Apart(r.ry) && points.Apart(r.z) && r.Apart(u1) && r.Apart(u2)
    requires nw <= u1.Length && nw <= u2.Length && 0 < numBits <= 32 * nw
    requires r.Value(curve.numWords)
          == ShamirRun(points.Value(curve.numWords), Val(u1, nw), Val(u2, nw), numBits, numBits - 1, curve.P())
    modifies r.rx, r.ry, r.z
    ensures r.Good(curve)
    ensures r.Value(curve.numWords)
         == ShamirRun(points.Value(curve.numWords), Val(u1, nw), Val(u2, nw), numBits, 0, curve.P())
  {
    hide ShamirStep, BitOf, Value;
    var i: int := numBits - 2;
    while i >= 0
      invariant -1 <= i <= numBits - 2
      invariant curve.Valid() && curve.P() == old(curve.P()) && r.Good(curve) && points.Good(curve)
      invariant points.Value(curve.numWords) == old(points.Value(curve.numWords))
      invariant Val(u1, nw) == old(Val(u1, nw)) && Val(u2, nw) == old(Val(u2, nw))
      invariant r.Value(curve.numWords)
             == ShamirRun(points.Value(curve.numWords), Val(u1, nw), Val(u2, nw), numBits, i + 1, curve.P())
    {
      var bit1 := TestBit(u1, i, nw);
      var bit2 := TestBit(u2, i, nw);
      ShamirBit(r, points, bit1, bit2, curve);
      i := i - 1;
    }
  }

  /** The start: the table entry selected by the top bits, at denominator 1. */
  method ShamirStart(points: Points, u1: array<Word>, u2: array<Word>, numBits: nat, nw: nat, curve: Curve)
    returns (r: Running)
    requires curve.Valid() && points.Good(curve)
    requires nw <= u1.Length && nw <= u2.Length && 0 < numBits <= 32 * nw
    requires BitOf(Val(u1, nw), numBits - 1) || BitOf(Val(u2, nw), numBits - 1)
    ensures fresh(r.rx) && fresh(r.ry) && fresh(r.z) && r.Good(curve)
    ensures r.Value(curve.numWords)
         == ShamirRun(points.Value(curve.numWords), Val(u1, nw), Val(u2, nw), numBits, numBits - 1, curve.P())
  {
    hide BitOf, Value;
    var rx, ry := new Word[curve.numWords], new Word[curve.numWords];
    var z := new Word[curve.numWords];
    r := Running(rx, ry, z);
    var bit1 := TestBit(u1, numBits - 1, nw);
    var bit2 := TestBit(u2, numBits - 1, nw);
    var index := (if bit1 then 1 else 0) + (if bit2 then 2 else 0);
    StartAt(r, points.x[index - 1], points.y[index - 1], curve);
  }

  method StartAt(r: Running, px: array<Word>, py: array<Word>, curve: Curve)
    requires curve.Valid() && curve.Room(r.rx) && curve.Room(r.ry) && curve.Room(r.z)
    requires r.rx != r.ry && r.rx != r.z && r.ry != r.z
    requires curve.Holds(px) && curve.Holds(py) && r.Apart(px) && r.Apart(py)
    modifies r.rx, r.ry, r.z
    ensures r.Good(curve)
    ensures r.Value(curve.numWords) == Triple(Val(px, curve.numWords), Val(py, curve.numWords), 1)
  {
    hide Value;
    Set(r.rx, px, curve.numWords);
    Set(r.ry, py, curve.numWords);
    Clear(r.z, curve.numWords);
    r.z[0] := 1;
    SmallValue(r.z[..], curve.numWords, 1);
  }

  /** The abscissa of u1·G + u2·Q. */
  method SimultaneousX(points: Points, u1: array<Word>, u2: array<Word>, nw: nat, curve: Curve) returns (rx: array<Word>)
    requires curve.Valid() && Prime(curve.P()) && points.Good(curve)
    requires nw <= u1.Length && nw <= u2.Length && (Val(u1, nw) > 0 || Val(u2, nw) > 0)
    ensures fresh(rx) && curve.Holds(rx) && Longest(Val(u1, nw), Val(u2, nw)) > 0
    ensures Val(rx, curve.numWords)
         == ShamirX(points.Value(curve.numWords), Val(u1, nw), Val(u2, nw),
                    Longest(Val(u1, nw), Val(u2, nw)), curve.P())
  {
    hide BitOf, Value, Prime, ShamirRun, ApplyZOf, InvOf, Pow2, BitLen, Prefix;
    var bits1 := NumBits(u1, nw);
    var bits2 := NumBits(u2, nw);
    BitLenIs(Val(u1, nw), bits1);
    BitLenIs(Val(u2, nw), bits2);
    LongestTop(Val(u1, nw), Val(u2, nw));
    var numBits := if bits1 > bits2 then bits1 else bits2;
    var r := ShamirStart(points, u1, u2, numBits, nw, curve);
    ShamirLoop(r, points, u1, u2, numBits, nw, curve);
    FinishX(r, curve);
    rx := r.rx;
  }

  /** uECC_vli_modInv and apply_z on the running point. */
  method FinishX(r: Running, curve: Curve)
    requires curve.Valid() && Prime(curve.P()) && r.Good(curve)
    modifies r.rx, r.ry, r.z
    ensures curve.Holds(r.rx)
    ensures var t := old(r.Value(curve.numWords));
      Val(r.rx, curve.numWords) == ApplyZOf(t.x, t.y, InvOf(t.z, curve.P()), curve.P()).x
  {
    hide Value, Prime, ApplyZOf, InvOf;
    ModInvField(r.z, r.z, curve);
    ApplyZ(r.rx, r.ry, r.z, curve);
  }

  // ---- Scalars ----

  /** A number read from `numBytes` bytes into words that end in a zero word. */
  method ReadScalar(bytes: array<byte>, off: nat, numBytes: nat, nw: nat) returns (a: array<Word>)
    requires off + numBytes <= bytes.Length && WordsFor(numBytes) <= nw <= WordsFor(numBytes) + 1 && nw > 0
    ensures fresh(a) && a.Length == nw
    ensures Val(a, nw) == BigEndian(bytes[off..off + numBytes]) && Val(a, WordsFor(numBytes)) == Val(a, nw)
  {
    hide BigEndian, Value;
    a := new Word[nw];
    a[nw - 1] := 0;
    BytesToNative(a, bytes, off, numBytes);
    HighZeros(a[..], WordsFor(numBytes), nw);
  }

  lemma SameProduct(e: nat, f: nat, i: nat, n: nat)
    requires n > 0 && Cong(e, f, n)
    ensures FMul(e, i, n) == FMul(f, i, n)
  {
    CongMul(e, f, i, i, n);
  }

  /** u1 = e/s and u2 = r/s modulo n. */
  method ScalarsOf(r: array<Word>, s: array<Word>, hash: array<byte>, hashSize: nat, dom: Domain, ghost b: int)
    returns (u1: array<Word>, u2: array<Word>)
    requires dom.Valid(b) && Prime(dom.N()) && hashSize <= hash.Length
    requires dom.NumNWords() <= r.Length && dom.NumNWords() <= s.Length && Val(s, dom.NumNWords()) < dom.N()
    ensures fresh(u1) && fresh(u2) && u1.Length == dom.NumNWords() == u2.Length
    ensures Val(u1, dom.NumNWords())
         == U1(HashInteger(hash[..hashSize], dom.numNBits), Val(s, dom.NumNWords()), dom.N())
    ensures Val(u2, dom.NumNWords()) == U2(Val(r, dom.NumNWords()), Val(s, dom.NumNWords()), dom.N())
  {
    hide Pow2, W, Value, Prime, OddOrder, InvOf, FMul, Bits2Int, HashInteger;
    var nw := dom.NumNWords();
    u1, u2 := new Word[nw], new Word[nw];
    var z := new Word[nw];
    InvN(z, s, dom, b);
    Bits2IntWords(u1, hash, hashSize, dom.n, dom.numNBits);
    Bits2IntCongruent(hash[..hashSize], dom.numNBits, dom.N());
    SameProduct(Val(u1, nw), HashInteger(hash[..hashSize], dom.numNBits), Val(z, nw), dom.N());
    MultN(u1, u1, z, dom, b);
    MultN(u2, r, z, dom, b);
  }

  // ---- uECC_verify ----

  /** `rx` reduced by at most one subtraction of n, compared with r. */
  method SameModN(rx: array<Word>, r: array<Word>, dom: Domain, numBytes: nat, ghost b: int) returns (same: bool)
    requires dom.Valid(b) && Sized(dom, numBytes) && dom.field.Holds(rx) && dom.NumNWords() <= r.Length
    requires Val(r, dom.field.numWords) == Val(r, dom.NumNWords()) < dom.N()
    ensures same <==> Reduced(Val(rx, dom.field.numWords), dom.N()) == Val(r, dom.NumNWords())
  {
    hide Pow2, W, Value, OddOrder;
    var nw := dom.NumNWords();
    var v := new Word[nw];
    v[nw - 1] := 0;
    Set(v, rx, dom.field.numWords);
    HighZeros(v[..], dom.field.numWords, nw);
    ghost var x, n := Val(v, nw), dom.N();
    var c := CmpUnsafe(dom.n, v, nw);
    if c != 1 {
      ValueBound(v[..], nw);
      var borrow := Sub(v, v, dom.n, nw);
      ValueBound(v[..], nw);
      CancelledCarry(Val(v, nw), x - n, 0, borrow, W(nw));
    }
    same := Equal(v, r, dom.field.numWords);
    ValueBound(dom.field.p[..], dom.field.numWords);
    LowPartOf(v[..], dom.field.numWords, nw, x, Val(v, nw), dom.field.P());
  }

  /** The value compared is not above the abscissa, so it too lies in the field's words. */
  lemma LowPartOf(v: seq<Word>, m: nat, n: nat, x: nat, y: nat, p: nat)
    requires m <= n <= |v| && Value(v, n) == y <= x < p <= W(m)
    ensures Value(v, m) == Value(v, n)
  {
    hide Value, W;
    ValueSplit(v, m, n);
    var hi := Value(v[m..], n - m);
    if hi >= 1 {
      MulMono(1, hi, W(m));
      assert false;
    }
  }

  /** r and s as read from a signature, when both lie in [1, n). */
  method ReadSignature(signature: array<byte>, dom: Domain, numBytes: nat, ghost b: int)
    returns (r: array<Word>, s: array<Word>, ok: bool)
    requires dom.Valid(b) && Sized(dom, numBytes) && 2 * numBytes <= signature.Length
    ensures fresh(r) && fresh(s) && r.Length == dom.NumNWords() == s.Length
    ensures Val(r, dom.NumNWords()) == BigEndian(signature[0..numBytes])
    ensures Val(s, dom.NumNWords()) == BigEndian(signature[numBytes..2 * numBytes])
    ensures ok ==> Val(r, dom.field.numWords) == Val(r, dom.NumNWords())
    ensures ok <==> 0 < Val(r, dom.NumNWords()) < dom.N() && 0 < Val(s, dom.NumNWords()) < dom.N()
  {
    hide Pow2, W, Value, OddOrder, BigEndian;
    var nw := dom.NumNWords();
    r := ReadScalar(signature, 0, numBytes, nw);
    s := ReadScalar(signature, numBytes, numBytes, nw);
    var zeroR := IsZero(r, dom.field.numWords);
    var zeroS := IsZero(s, dom.field.numWords);
    if zeroR || zeroS {
      return r, s, false;
    }
    var cr := CmpUnsafe(dom.n, r, nw);
    var cs := CmpUnsafe(dom.n, s, nw);
    ok := cr == 1 && cs == 1;
  }

  /** Accepts exactly what the verification on numbers accepts; Q's coordinates must be field elements. */
  method VerifySap(publicKey: array<byte>, hash: array<byte>, hashSize: nat, signature: array<byte>,
                   dom: Domain, numBytes: nat, ghost b: int) returns (accepted: bool)
    requires dom.Valid(b) && Prime(dom.N()) && Sized(dom, numBytes) && dom.gx != dom.gy
    requires 2 * numBytes <= publicKey.Length && 2 * numBytes <= signature.Length && hashSize <= hash.Length
    requires BigEndian(publicKey[0..numBytes]) < dom.field.P()
    requires BigEndian(publicKey[numBytes..2 * numBytes]) < dom.field.P()
    ensures Prime(dom.field.P())
    ensures accepted <==>
      VerifyOf(Pair(dom.G().x, dom.G().y),
               Pair(BigEndian(publicKey[0..numBytes]), BigEndian(publicKey[numBytes..2 * numBytes])),
               HashInteger(hash[..hashSize], dom.numNBits),
               BigEndian(signature[0..numBytes]), BigEndian(signature[numBytes..2 * numBytes]),
               dom.N(), dom.field.P())
  {
    hide Pow2, W, Value, OddOrder, BigEndian, HashInteger, TableOf, ShamirX, BitLen, Longest, InvOf, FMul;
    var nw, curve := dom.NumNWords(), dom.field;
    assert Prime(curve.P()) by { OrderFacts(dom.N(), dom.G(), b, curve.P()); }
    hide Prime;
    var qx := ReadScalar(publicKey, 0, numBytes, curve.numWords);
    var qy := ReadScalar(publicKey, numBytes, numBytes, curve.numWords);
    var r, s, ok := ReadSignature(signature, dom, numBytes, b);
    if !ok {
      return false;
    }
    accepted := VerifyInRange(qx, qy, r, s, hash, hashSize, dom, numBytes, b);
  }

  /** The part of uECC_verify after the range checks. */
  method VerifyInRange(qx: array<Word>, qy: array<Word>, r: array<Word>, s: array<Word>,
                       hash: array<byte>, hashSize: nat, dom: Domain, numBytes: nat, ghost b: int)
    returns (accepted: bool)
    requires dom.Valid(b) && Prime(dom.N()) && Prime(dom.field.P()) && Sized(dom, numBytes) && dom.gx != dom.gy
    requires dom.field.Holds(qx) && dom.field.Holds(qy) && hashSize <= hash.Length
    requires dom.NumNWords() <= r.Length && dom.NumNWords() <= s.Length
    requires Val(r, dom.field.numWords) == Val(r, dom.NumNWords())
    requires 0 < Val(r, dom.NumNWords()) < dom.N() && 0 < Val(s, dom.NumNWords()) < dom.N()
    ensures accepted <==>
      VerifyOf(Pair(dom.G().x, dom.G().y), Pair(Val(qx, dom.field.numWords), Val(qy, dom.field.numWords)),
               HashInteger(hash[..hashSize], dom.numNBits),
               Val(r, dom.NumNWords()), Val(s, dom.NumNWords()), dom.N(), dom.field.P())
  {
    hide Pow2, W, Value, OddOrder, HashInteger, TableOf, ShamirX, BitLen, Longest, InvOf, FMul, Prime, U1, U2;
    var nw, curve := dom.NumNWords(), dom.field;
    ghost var e := HashInteger(hash[..hashSize], dom.numNBits);
    ScalarsNotBothZero(e, Val(r, nw), Val(s, nw), dom.N());
    var u1, u2 := ScalarsOf(r, s, hash, hashSize, dom, b);
    var sumX, sumY := SumOfPoints(qx, qy, dom, b);
    var points := Points([dom.gx, qx, sumX], [dom.gy, qy, sumY]);
    var rx := SimultaneousX(points, u1, u2, nw, curve);
    TableParts(Pair(dom.G().x, dom.G().y), Pair(Val(qx, curve.numWords), Val(qy, curve.numWords)), curve.P());
    accepted := SameModN(rx, r, dom, numBytes, b);
  }

  lemma TableParts(g: Pair, q: Pair, p: nat)
    requires Prime(p)
    ensures TableOf(g, q, p) == Table(g, q, TableOf(g, q, p).sum)
  {
  }
}
