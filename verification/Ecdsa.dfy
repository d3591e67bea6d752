/** Signing with a given k and verifying, from bytes to bytes. */
module Ecdsa {
  import opened Arith
  import opened Bits
  import opened Congruence
  import opened Vli
  import opened VliMod
  import opened Bytes
  import opened HashBits
  import opened CoZ
  import opened CurveMath
  import opened Group
  import opened Ladder
  import opened LadderMath
  import opened Keys

  /** The words of the order are as many as those of the field, or one more. */
  ghost predicate Sized(dom: Domain, numBytes: nat)
    requires dom.field.numWords <= dom.field.p.Length
    reads dom.field.p
  {
    FieldBytes(dom.field, numBytes) && dom.field.numWords <= dom.NumNWords() <= dom.field.numWords + 1
  }

  // ---- Arithmetic modulo n ----

  lemma TopWordNonzero(s: seq<Word>, bits: nat)
    requires 1 <= bits && (bits + 31) / 32 <= |s| && Pow2(bits - 1) <= Value(s, (bits + 31) / 32)
    ensures s[(bits + 31) / 32 - 1] != 0
  {
    var w := (bits + 31) / 32;
    ValueTop(s, w);
    ValueBound(s, w - 1);
    WAsPow2(w - 1);
    Pow2Monotone(32 * (w - 1), bits - 1);
  }

  method MultN(result: array<Word>, left: array<Word>, right: array<Word>, dom: Domain, ghost b: int)
    requires dom.Valid(b) && result != dom.n
    requires dom.NumNWords() <= result.Length && dom.NumNWords() <= left.Length && dom.NumNWords() <= right.Length
    modifies result
    ensures Val(result, dom.NumNWords())
         == FMul(old(Val(left, dom.NumNWords())), old(Val(right, dom.NumNWords())), old(dom.N()))
  {
    hide OddOrder, Pow2, W, Value;
    TopWordNonzero(dom.n[..], dom.numNBits);
    ModMult(result, left, right, dom.n, dom.NumNWords());
  }

  method InvN(result: array<Word>, input: array<Word>, dom: Domain, ghost b: int)
    requires dom.Valid(b) && result != dom.n && Prime(dom.N())
    requires dom.NumNWords() <= result.Length && dom.NumNWords() <= input.Length
    requires Val(input, dom.NumNWords()) < dom.N()
    modifies result
    ensures Val(result, dom.NumNWords()) == InvOf(old(Val(input, dom.NumNWords())), old(dom.N()))
  {
    hide Pow2, W, Value, Prime, Times;
    ghost var x, n := Val(input, dom.NumNWords()), dom.N();
    ghost var g := ModInv(result, input, dom.n, dom.NumNWords());
    InverseOf(x, Val(result, dom.NumNWords()), g, n);
  }

  // ---- uECC_sign_with_k ----

  /** s = (e + r d)/k modulo n. */
  ghost function SignatureS(e: nat, r: nat, d: nat, k: nat, n: nat): nat
    requires Prime(n) && k % n != 0
  {
    FDiv(e + r * d, k, n)
  }

  /** The blinded inverse: t·(1/(k t)). */
  lemma BlindedInverse(k: nat, t: nat, n: nat)
    requires Prime(n) && 0 < k < n && 0 < t < n
    ensures var i := FMul(InvOf(FMul(k, t, n), n), t, n);
      i < n && Cong(i * k, 1, n)
  {
    hide Prime, FInv;
    ModSmall(k, n);
    ModSmall(t, n);
    NonzeroProduct(k, t, n);
    var m := FMul(k, t, n);
    CongOfMod(k * t, n);
    var v := InvOf(m, n);
    CongMul(v, v, m, k * t, n);
    MulIs(v, t, v, t, n);
    CongMul(FMul(v, t, n), v * t, k, k, n);
    PolyBlind(v, t, k);
  }

  lemma PolyBlind(v: int, t: int, k: int)
    ensures v * t * k == v * (k * t)
  {
  }

  /** The three modular steps give the quotient, also when e is not below n. */
  lemma SignatureSteps(e: nat, r: nat, d: nat, k: nat, i: nat, n: nat)
    requires Prime(n) && 0 < k < n && i < n && Cong(i * k, 1, n)
    ensures k % n != 0
    ensures FMul(Reduced(e + FMul(d, r, n), n), i, n) == SignatureS(e, r, d, k, n)
  {
    hide Prime, FDiv;
    ModSmall(k, n);
    var rd := FMul(d, r, n);
    var a := Reduced(e + rd, n);
    ReducedCong(e + rd, n);
    MulIs(d, r, d, r, n);
    CongAdd(e, e, rd, d * r, n);
    var s := FMul(a, i, n);
    MulIs(a, i, e + d * r, i, n);
    CongMul(s, (e + d * r) * i, k, k, n);
    Assoc(e + d * r, i, k);
    CongMul(e + d * r, e + d * r, i * k, 1, n);
    CommuteSigned(d, r);
    DivUnique(s, e + r * d, k, n);
    CongSmall(s, FDiv(e + r * d, k, n), n);
  }

  lemma ReducedCong(x: nat, n: nat)
    requires n > 0
    ensures Cong(Reduced(x, n), x, n)
  {
    if x >= n {
      CongOf(x, x - n, 1, n);
    }
  }

  /** The equation of section 4.1.3 of SEC 1, which has this one solution below n. */
  lemma SignatureEquation(s: nat, e: nat, r: nat, d: nat, k: nat, n: nat)
    requires Prime(n) && k % n != 0
    ensures s == SignatureS(e, r, d, k, n) <==> s < n && Cong(s * k, e + r * d, n)
  {
    assert n > 0;
    hide Prime, FDiv;
    if s < n && Cong(s * k, e + r * d, n) {
      DivUnique(s, e + r * d, k, n);
      CongSmall(s, SignatureS(e, r, d, k, n), n);
    }
  }

  /** So it depends on the integer to be signed modulo n only. */
  lemma SameSignature(e: nat, f: nat, r: nat, d: nat, k: nat, n: nat)
    requires Prime(n) && k % n != 0 && Cong(e, f, n)
    ensures SignatureS(e, r, d, k, n) == SignatureS(f, r, d, k, n)
  {
    assert n > 0;
    hide Prime, FDiv, SignatureS;
    CongAdd(e, f, r * d, r * d, n);
    SignatureEquation(SignatureS(e, r, d, k, n), e, r, d, k, n);
    SignatureEquation(SignatureS(e, r, d, k, n), f, r, d, k, n);
  }

  lemma WordsOfOrder(bits: nat)
    requires bits >= 1
    ensures WordsFor((bits + 7) / 8) == (bits + 31) / 32
  {
  }

  /** What signing returns for a scalar that passes the first check. */
  ghost predicate SignedAs(r: nat, s: nat, e: nat, d: nat, k: nat, n: nat, bits: nat, kg: Point, numBytes: nat)
    requires Prime(n) && k % n != 0
  {
    && !Unlucky(k, n, bits) && kg.Affine? && kg.x != 0 && r == kg.x
    && s == SignatureS(e, r, d, k, n) && s < Pow2(8 * numBytes)
  }

  /** k^-1 modulo n, blinded by a random t (1 when no generator is installed). */
  method InvertK(k: array<Word>, blind: array?<Word>, dom: Domain, ghost b: int)
    requires dom.Valid(b) && dom.Apart(k) && Prime(dom.N()) && dom.NumNWords() <= k.Length
    requires blind != k
    requires 0 < Val(k, dom.NumNWords()) < dom.N()
    requires blind != null ==> dom.NumNWords() <= blind.Length && 0 < Val(blind, dom.NumNWords()) < dom.N()
    modifies k
    ensures Val(k, dom.NumNWords()) < old(dom.N())
    ensures Cong(Val(k, dom.NumNWords()) * old(Val(k, dom.NumNWords())), 1, old(dom.N()))
  {
    hide Pow2, W, Value, Prime, OddOrder, InvOf, FMul;
    ghost var kv, n := Val(k, dom.NumNWords()), dom.N();
    var tmp := new Word[dom.NumNWords()];
    if blind == null {
      Clear(tmp, dom.NumNWords());
      tmp[0] := 1;
      SmallValue(tmp[..], dom.NumNWords(), 1);
    } else {
      Set(tmp, blind, dom.NumNWords());
    }
    ghost var t := Val(tmp, dom.NumNWords());
    BlindedInverse(kv, t, n);
    MultN(k, k, tmp, dom, b);
    InvN(k, k, dom, b);
    MultN(k, k, tmp, dom, b);
  }

  /** s = r d modulo n, with d from the private key's bytes and r from the words of pX. */
  method RTimesD(s: array<Word>, pX: array<Word>, privateKey: array<byte>, dom: Domain, ghost b: int)
    requires dom.Valid(b) && dom.field.numWords <= dom.NumNWords()
    requires dom.NumNWords() <= s.Length && dom.field.numWords <= pX.Length
    requires dom.NumNWords() <= dom.field.numWords + 1
    requires dom.Apart(s) && s != pX && privateKey.Length >= (dom.numNBits + 7) / 8
    modifies s
    ensures Val(s, dom.NumNWords())
         == FMul(BigEndian(privateKey[0..(dom.numNBits + 7) / 8]), Val(pX, dom.field.numWords), old(dom.N()))
  {
    hide Pow2, W, Value, OddOrder, FMul, BigEndian;
    var nw := dom.NumNWords();
    WordsOfOrder(dom.numNBits);
    var tmp := new Word[nw];
    BytesToNative(tmp, privateKey, 0, (dom.numNBits + 7) / 8);
    s[nw - 1] := 0;
    Set(s, pX, dom.field.numWords);
    HighZeros(s[..], dom.field.numWords, nw);
    MultN(s, tmp, s, dom, b);
  }

  /** s = (e + r d)·k, with k already inverted and r in the words of pX. */
  method SignatureWords(s: array<Word>, k: array<Word>, pX: array<Word>, privateKey: array<byte>,
                        hash: array<byte>, hashSize: nat, dom: Domain, numBytes: nat, ghost b: int, ghost kv: nat)
    requires dom.Valid(b) && Prime(dom.N()) && Sized(dom, numBytes)
    requires dom.NumNWords() <= s.Length && dom.NumNWords() <= k.Length && dom.field.numWords <= pX.Length
    requires dom.Apart(s) && s != k && s != pX
    requires privateKey.Length >= (dom.numNBits + 7) / 8 && hashSize <= hash.Length
    requires Val(k, dom.NumNWords()) < dom.N() && 0 < kv < dom.N() && Cong(Val(k, dom.NumNWords()) * kv, 1, dom.N())
    modifies s
    ensures kv % old(dom.N()) != 0
    ensures Val(s, dom.NumNWords())
         == SignatureS(HashInteger(hash[..hashSize], dom.numNBits), Val(pX, dom.field.numWords),
                       BigEndian(privateKey[0..(dom.numNBits + 7) / 8]), kv, old(dom.N()))
  {
    hide Pow2, W, Value, Prime, OddOrder, SignatureS, FMul, BigEndian, Bits2Int, HashInteger;
    var nw := dom.NumNWords();
    ghost var n, r, d := dom.N(), Val(pX, dom.field.numWords), BigEndian(privateKey[0..(dom.numNBits + 7) / 8]);
    RTimesD(s, pX, privateKey, dom, b);
    var tmp := new Word[nw];
    Bits2IntWords(tmp, hash, hashSize, dom.n, dom.numNBits);
    ghost var e := Val(tmp, nw);
    Bits2IntCongruent(hash[..hashSize], dom.numNBits, n);
    SignatureSteps(e, r, d, kv, Val(k, nw), n);
    SameSignature(e, HashInteger(hash[..hashSize], dom.numNBits), r, d, kv, n);
    ModAdd(s, tmp, s, dom.n, nw);
    MultN(s, s, k, dom, b);
  }

  /** Writes r and s; s is refused when it needs more than numBytes bytes. */
  method StoreSignature(signature: array<byte>, pX: array<Word>, s: array<Word>, dom: Domain, numBytes: nat) returns (ok: bool)
    requires 0 < dom.field.numWords <= dom.field.p.Length && Sized(dom, numBytes)
    requires 2 * numBytes <= signature.Length
    requires dom.field.numWords <= pX.Length && dom.NumNWords() <= s.Length
    requires Val(pX, dom.field.numWords) < dom.field.P()
    modifies signature
    ensures ok <==> Val(s, dom.NumNWords()) < Pow2(8 * numBytes)
    ensures ok ==>
      && BigEndian(signature[0..numBytes]) == Val(pX, dom.field.numWords)
      && BigEndian(signature[numBytes..2 * numBytes]) == Val(s, dom.NumNWords())
  {
    hide Pow2, W, Value, BigEndian;
    NativeToBytes(signature, 0, numBytes, pX);
    ModSmall(Val(pX, dom.field.numWords), Pow2(8 * numBytes));
    var bits := NumBits(s, dom.NumNWords());
    ghost var v := Val(s, dom.NumNWords());
    LengthAsBound(v, bits, 8 * numBytes);
    if bits > numBytes * 8 {
      return false;
    }
    ghost var first := signature[0..numBytes];
    NativeToBytes(signature, numBytes, numBytes, s);
    assert signature[0..numBytes] == first;
    FitsInWords(s[..], dom.field.numWords, dom.NumNWords(), 8 * numBytes);
    ModSmall(v, Pow2(8 * numBytes));
    return true;
  }

  lemma LengthAsBound(v: nat, bits: nat, limit: nat)
    requires IsBitLength(v, bits)
    ensures bits <= limit <==> v < Pow2(limit)
  {
    if bits <= limit {
      Pow2Monotone(bits, limit);
    } else {
      Pow2Monotone(limit, bits - 1);
    }
  }

  lemma FitsInWords(s: seq<Word>, m: nat, n: nat, limit: nat)
    requires m <= n <= |s| && limit <= 32 * m && Value(s, n) < Pow2(limit)
    ensures Value(s, m) == Value(s, n)
  {
    hide Value, W, Pow2;
    ValueSplit(s, m, n);
    WAsPow2(m);
    Pow2Monotone(limit, 32 * m);
    var hi := Value(s[m..], n - m);
    if hi >= 1 {
      MulMono(1, hi, W(m));
      assert false;
    }
  }

  /**
   Signs with the scalar `k`. It succeeds exactly when k passes the range check, the ladder reaches k·G (for which the
   abscissa of G must not be zero), the abscissa of k·G is not zero, and s fits; r is that abscissa (not reduced
   modulo n).
   */
  method SignWithK(privateKey: array<byte>, hash: array<byte>, hashSize: nat, k: array<Word>,
                   signature: array<byte>, blind: array?<Word>, dom: Domain, numBytes: nat, ghost b: int)
    returns (ok: bool)
    requires dom.Valid(b) && Prime(dom.N()) && Sized(dom, numBytes)
    requires dom.NumNWords() <= k.Length && dom.Apart(k)
    requires privateKey.Length >= (dom.numNBits + 7) / 8 && hashSize <= hash.Length
    requires 2 * numBytes <= signature.Length && signature != privateKey && signature != hash
    requires blind != null ==> blind != k && dom.NumNWords() <= blind.Length && 0 < Val(blind, dom.NumNWords()) < dom.N()
    modifies k, signature
    ensures var kv, n := old(Val(k, dom.NumNWords())), old(dom.N());
      var e, d := old(HashInteger(hash[..hashSize], dom.numNBits)), old(BigEndian(privateKey[0..(dom.numNBits + 7) / 8]));
      var kg := old(Times(Val(k, dom.NumNWords()), dom.G(), b, dom.field.P()));
      if old(Val(k, dom.field.numWords)) == 0 || kv >= n then !ok
      else
        && 0 < kv < n && kv % n != 0 && kg.Affine?
        && (ok <==> old(dom.G().x) != 0 && SignedAs(kg.x, SignatureS(e, kg.x, d, kv, n), e, d, kv, n, dom.numNBits, kg, numBytes))
        && (ok ==> SignedAs(BigEndian(signature[0..numBytes]), BigEndian(signature[numBytes..2 * numBytes]),
                            e, d, kv, n, dom.numNBits, kg, numBytes))
  {
    hide Pow2, W, Value, Prime, OddOrder, SignatureS, BigEndian, HashInteger, Times, MultOf;
    ghost var kv, n := Val(k, dom.NumNWords()), dom.N();
    var zero := IsZero(k, dom.field.numWords);
    var c := Cmp(dom.n, k, dom.NumNWords());
    if zero || c != 1 {
      return false;
    }
    LowZero(k[..], dom.field.numWords, dom.NumNWords());
    ModSmall(kv, n);
    var pX, pY := MultiplyBase(k, dom, b);
    var zeroX := IsZero(pX, dom.field.numWords);
    if zeroX {
      return false;
    }
    InvertK(k, blind, dom, b);
    var s := new Word[dom.NumNWords()];
    SignatureWords(s, k, pX, privateKey, hash, hashSize, dom, numBytes, b, kv);
    ok := StoreSignature(signature, pX, s, dom, numBytes);
  }

  lemma LowZero(s: seq<Word>, m: nat, n: nat)
    requires m <= n <= |s|
    ensures Value(s, n) == 0 ==> Value(s, m) == 0
  {
    ValueZeroIff(s, n);
    ValueZeroIff(s, m);
  }

  /** k·G through the regularised ladder. */
  method MultiplyBase(k: array<Word>, dom: Domain, ghost b: int) returns (pX: array<Word>, pY: array<Word>)
    requires dom.Valid(b) && dom.NumNWords() <= k.Length && 0 < Val(k, dom.NumNWords()) < dom.N()
    ensures fresh(pX) && fresh(pY) && pX.Length == dom.field.numWords
    ensures Val(pX, dom.field.numWords) < dom.field.P()
    ensures var kg := Times(Val(k, dom.NumNWords()), dom.G(), b, dom.field.P());
      && kg.Affine?
      && Val(pX, dom.field.numWords)
         == if dom.G().x == 0 || Unlucky(Val(k, dom.NumNWords()), dom.N(), dom.numNBits) then 0 else kg.x
  {
    hide Pow2, W, MultOf, OddOrder, Times, Unlucky;
    pX, pY := new Word[dom.field.numWords], new Word[dom.field.numWords];
    var tmp := new Word[dom.NumNWords()];
    var s := new Word[dom.NumNWords()];
    ghost var kv, p := Val(k, dom.NumNWords()), dom.field.P();
    var carry := RegularizeK(k, tmp, s, dom, b);
    assert Prime(p) && p > 3 by { OrderFacts(dom.N(), dom.G(), b, p); }
    ModSmall(1, p);
    RegularMultCorrect(dom.G(), 1, kv, dom.numNBits, dom.N(), b, p);
    NWordsHoldBits(dom.numNBits);
    EccPointMult(pX, pY, dom.gx, dom.gy, if carry then tmp else s, null, dom.numNBits + 1, dom.field, dom.NumNWords());
  }
}
