/** The fast reduction modulo the secp160r1 prime 2^160 - 2^31 - 1, and the products it gets wrong. */
module Secp160r1 {
  import opened Arith
  import opened Congruence
  import opened Vli

  const M: nat := 0x1_0000000000_0000000000_0000000000_0000000000
  const OMEGA: nat := 0x8000_0001
  const P: nat := 0xFFFFFFFFFF_FFFFFFFFFF_FFFFFFFFFF_FF7FFFFFFF

  lemma Weights()
    ensures W(5) == M && W(6) == M * BASE
  {
    assert W(1) == BASE * W(0);
    assert W(2) == BASE * W(1);
    assert W(3) == BASE * W(2);
    assert W(4) == BASE * W(3);
    assert W(5) == BASE * W(4);
    assert W(6) == BASE * W(5);
  }

  // ---- Multiplication by omega = 2^31 + 1 ----

  lemma LowBit(s: seq<Word>, n: nat)
    requires 0 < n <= |s|
    ensures s[0] * HIGH_BIT % BASE == Value(s, n) % 2 * HIGH_BIT
  {
    ValueParity(s, n);
    var q, b := s[0] / 2, s[0] % 2;
    DivOfSum(s[0] * HIGH_BIT, q, b * HIGH_BIT, BASE);
  }

  /** A low word below n others. */
  lemma WordBelow(s: seq<Word>, n: nat)
    requires n + 1 <= |s|
    ensures Value(s, n + 1) == s[0] + BASE * Value(s[1..], n)
  {
    ValueSplit(s, 1, n + 1);
    OneWord(s);
  }

  /** Shifted down by one bit from one word up, with the bit lost put back below: a shift by 31 bits. */
  method ShiftBy31(result: array<Word>, right: array<Word>, n: nat)
    requires 0 < n <= right.Length && n + 1 <= result.Length && result != right
    modifies result
    ensures Val(result, n + 1) == Val(right, n) * HIGH_BIT
    ensures forall i | n < i < result.Length :: result[i] == old(result[i])
  {
    for i := 0 to n
      invariant forall j | 0 <= j < i :: result[1 + j] == right[j]
      invariant forall j | n < j < result.Length :: result[j] == old(result[j])
    {
      result[1 + i] := right[i];
    }
    ValuePrefix(result[1..], right[..], n);
    RShift1(result, 1, n);
    ghost var half := result[1..];
    result[0] := right[0] * HIGH_BIT % BASE;
    assert result[1..] == half;
    LowBit(right[..], n);
    WordBelow(result[..], n);
    assert result[..][1..] == half;
  }

  /** omega_mult: the carry of the addition ends in the word above. */
  method OmegaMult(result: array<Word>, right: array<Word>, n: nat)
    requires 0 < n <= right.Length && n + 1 <= result.Length && result != right
    modifies result
    ensures Val(result, n + 1) == Val(right, n) * OMEGA
    ensures forall i | n < i < result.Length :: result[i] == old(result[i])
  {
    ghost var r: int := Val(right, n);
    ShiftBy31(result, right, n);
    ghost var top: int := result[n];
    assert Val(result, n + 1) == Val(result, n) + result[n] * W(n);
    var carry := Add(result, result, right, n);
    assert result[n] == top;
    ghost var low: int, c0: int := Val(result, n), carry;
    Distrib(top, c0, W(n));
    assert low + (top + c0) * W(n) == r * OMEGA;
    ValueBound(right[..], n);
    TopFits(low, top + c0, r, n);
    var i := n;
    while carry != 0
      invariant i == n || (i == n + 1 && carry == 0)
      invariant Val(result, n) == low && result[n] + carry == top + c0
      invariant forall j | n < j < result.Length :: result[j] == old(result[j])
      decreases n + 1 - i
    {
      var sum := result[i] + carry;
      ghost var before := result[..];
      result[i] := sum % BASE;
      carry := sum / BASE;
      ValuePrefix(before, result[..], n);
      i := i + 1;
    }
  }

  lemma TopFits(low: nat, top: nat, r: nat, n: nat)
    requires low + top * W(n) == r * OMEGA && r < W(n)
    ensures top < BASE
  {
    MulMono(r, W(n), OMEGA);
    if top >= BASE {
      MulMono(BASE, top, W(n));
    }
  }

  // ---- The reduction ----

  /** What the two multiplications by omega fold a product into. */
  function Folded(x: nat): nat {
    x % M + x / M * OMEGA % M + x / M * OMEGA / M * OMEGA
  }

  lemma FoldedIsCongruent(x: nat)
    requires x < M * M
    ensures Folded(x) % P == x % P && Folded(x) < 2 * M + BASE * BASE
  {
    var h, l := x / M, x % M;
    var hc := h * OMEGA;
    var q, r := hc / M, hc % M;
    assert x == h * M + l && hc == q * M + r && M == P + OMEGA;
    assert x == Folded(x) + (h + q) * P;
    ModPlusMultiple(Folded(x), h + q, P);
    assert h < M;
    assert q < OMEGA;
  }

  /** What is left when one modulus is taken away for each carry, modulo 2^160, and one more if the rest is above it. */
  function Remaining(t: nat): int {
    if t < M then (if t > P then t - P else t)
    else if t < M + P then (if t - P > P then t - 2 * P else t - P)
    else if t < 2 * M then t - M - P
    else t - 2 * P
  }

  /**
   The reduction is right except for positive multiples of P, where it leaves P, and when taking P away does not borrow
   although there was a carry, where 2^160 is lost.
   */
  lemma ExactWhen(x: nat)
    requires x < M * M
    ensures Remaining(Folded(x)) == x % P <==> (x % P == 0 ==> x == 0) && !(M + P <= Folded(x) < 2 * M)
  {
    hide Folded;
    FoldedIsCongruent(x);
    FoldedIsZero(x);
    var t := Folded(x);
    if t < P {
      ModSmall(t, P);
    } else if t < 2 * P {
      DivOfSum(t, 1, t - P, P);
    } else if t < 3 * P {
      DivOfSum(t, 2, t - 2 * P, P);
    }
  }

  lemma FoldedIsZero(x: nat)
    ensures Folded(x) == 0 <==> x == 0
  {
  }

  /** The carry can only be lost when the lower half is within 2^64 of 2^160. */
  lemma LostOnlyNearTop(x: nat)
    requires x < M * M
    ensures M + P <= Folded(x) < 2 * M ==> x % M > P - BASE * BASE
  {
    var hc := x / M * OMEGA;
    assert x / M < M;
    assert hc / M < OMEGA;
  }

  /** For operands below a prime P only a lost carry makes the product of field elements wrong. */
  lemma ReducedOperands(a: nat, b: nat)
    requires Prime(P) && a < P && b < P
    ensures Remaining(Folded(a * b)) == a * b % P <==> !(M + P <= Folded(a * b) < 2 * M)
  {
    hide Folded, Remaining, Prime;
    MulMono(a, M - 1, b);
    MulMono(b, M - 1, M - 1);
    ExactWhen(a * b);
    if a * b % P == 0 {
      PrimeDividesProduct(P, a, b);
      MultiplesBelow(a);
      MultiplesBelow(b);
    }
  }

  lemma MultiplesBelow(a: nat)
    requires a < P
    ensures Divides(P, a) ==> a == 0
  {
    ModSmall(a, P);
  }

  /** Two field elements, both below P, whose product loses its carry. */
  lemma CarryLost()
    ensures var a, b := 0x55555555555555555555555555555555471C71C7, 0xBFFFFFFE80000002FFFFFFFA0000000C2;
      && a < P && b < P && M + P <= Folded(a * b) < 2 * M
      && Remaining(Folded(a * b)) == 0x638E390F && a * b % P == 0xE38E3910
  {
  }

  /** An operand that is not below P: 1·P is left at P. */
  lemma UnreducedOperand()
    ensures Remaining(Folded(1 * P)) == P && 1 * P % P == 0
  {
  }

  // ---- The reduction on words ----

  /** The words read through a pointer to the sixth one. */
  method UpperHalf(a: array<Word>) returns (high: array<Word>)
    requires a.Length >= 10
    ensures fresh(high) && high.Length == 5 && high[..] == a[5..10]
  {
    high := new Word[5];
    forall k | 0 <= k < 5 {
      high[k] := a[5 + k];
    }
  }

  lemma SplitAt160(s: seq<Word>)
    requires |s| >= 10
    ensures Value(s, 10) == Value(s, 5) + Value(s[5..10], 5) * M
    ensures Value(s, 5) < M && Value(s[5..10], 5) < M
  {
    hide Value, W;
    Weights();
    ValueSplit(s, 5, 10);
    ValuePrefix(s[5..], s[5..10], 5);
    ValueBound(s, 5);
    ValueBound(s[5..10], 5);
  }

  lemma TopWord(s: seq<Word>)
    requires |s| >= 6
    ensures Value(s, 6) == Value(s, 5) + s[5] * M && Value(s, 5) < M
  {
    Weights();
    ValueBound(s, 5);
  }

  lemma LoneWord(s: seq<Word>)
    requires |s| >= 5 && s[1] == 0 && s[2] == 0 && s[3] == 0 && s[4] == 0
    ensures Value(s, 5) == s[0]
  {
    OneWord(s);
    assert Value(s, 2) == Value(s, 1) + s[1] * W(1);
    assert Value(s, 3) == Value(s, 2) + s[2] * W(2);
    assert Value(s, 4) == Value(s, 3) + s[3] * W(3);
    assert Value(s, 5) == Value(s, 4) + s[4] * W(4);
  }

  lemma SmallTop(low: nat, top: nat, q: nat)
    requires low + top * M == q * OMEGA && q < BASE
    ensures top == 0
  {
  }

  lemma FoldedFrom(x: nat, h: nat, l: nat, q: nat, r: nat, v: nat, carry: nat)
    requires x == l + h * M && h < M && l < M && h * OMEGA == r + q * M && r < M
    requires v + carry * M == l + r + q * OMEGA
    ensures x < M * M && Folded(x) == v + carry * M < 2 * M + BASE * BASE
  {
    DivOfSum(x, h, l, M);
    DivOfSum(h * OMEGA, q, r, M);
    MulMono(h + 1, M, M);
    FoldedIsCongruent(x);
  }

  /** One modulus less, modulo 2^160. */
  function Less(r: nat): nat {
    if r >= P then r - P else r + OMEGA
  }

  lemma ReducedIs(t: nat)
    requires t < 2 * M + BASE * BASE
    ensures var r := if t < M then t else if t < 2 * M then Less(t - M) else Less(Less(t - 2 * M));
      Remaining(t) == if r > P then r - P else r
  {
  }

  /** The loop on the carry, and the last comparison. */
  method SubtractCarries(result: array<Word>, p: array<Word>, carry0: nat, ghost t: nat)
    requires result.Length >= 5 && p.Length >= 5 && p != result && Val(p, 5) == P
    requires Val(result, 5) + carry0 * M == t < 2 * M + BASE * BASE
    modifies result
    ensures Val(result, 5) == Remaining(t)
  {
    hide Value, Less, W, Remaining;
    var carry: nat := carry0;
    ghost var r := Val(result, 5);
    Weights();
    ValueBound(result[..], 5);
    assert carry0 <= 2;
    while carry > 0
      invariant carry <= carry0 && Val(p, 5) == P && Val(result, 5) < M
      invariant Val(result, 5) == if carry == carry0 then r else if carry == carry0 - 1 then Less(r) else Less(Less(r))
    {
      ghost var before := Val(result, 5);
      carry := carry - 1;
      var b := Sub(result, result, p, 5);
      ValueBound(result[..], 5);
      LessIs(before, Val(result, 5), b);
    }
    ReducedIs(t);
    var c := CmpUnsafe(result, p, 5);
    if c > 0 {
      var b := Sub(result, result, p, 5);
      ValueBound(result[..], 5);
      AboveFits(Val(result, 5), b);
    }
  }

  lemma LessIs(before: nat, after: nat, b: nat)
    requires before < M && after < M && b <= 1 && after - b * M == before - P
    ensures after == Less(before)
  {
  }

  lemma AboveFits(after: nat, b: nat)
    requires after < M && after - b * M >= 0
    ensures b == 0
  {
  }

  /** vli_mmod_fast_secp160r1; the pointers into the upper halves are copies of the words read through them. */
  method MModFast(result: array<Word>, product: array<Word>, p: array<Word>)
    requires result.Length >= 5 && product.Length >= 10 && p.Length >= 5 && Val(p, 5) == P
    requires result != product && p != result && p != product
    modifies result, product
    ensures var x := old(Val(product, 10));
      x < M * M && Val(result, 5) == Remaining(Folded(x))
  {
    hide Folded, Remaining, Value, W;
    Weights();
    var tmp := new Word[10](_ => 0);
    var high := UpperHalf(product);
    ghost var x: int, h: int, l: int := Val(product, 10), Val(high, 5), Val(product, 5);
    SplitAt160(product[..]);
    OmegaMult(tmp, high, 5);
    TopWord(tmp[..]);
    ghost var q: int, r: int := tmp[5], Val(tmp, 5);
    var carry: int := Add(result, product, tmp, 5);
    Clear(product, 5);
    high := UpperHalf(tmp);
    LoneWord(high[..]);
    OmegaMult(product, high, 5);
    TopWord(product[..]);
    SmallTop(Val(product, 5), product[5], q);
    var more := Add(result, result, product, 5);
    carry := carry + more;
    FoldedFrom(x, h, l, q, r, Val(result, 5), carry);
    SubtractCarries(result, p, carry, Folded(x));
  }
}
