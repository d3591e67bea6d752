/** uECC_verify, and its agreement with signing. */
module Verify {
  import opened Arith
  import opened Bits
  import opened Congruence
  import opened Vli
  import opened VliMod
  import opened CoZ
  import opened CurveMath
  import opened Group
  import opened Ladder
  import opened LadderMath
  import opened Keys
  import opened Shamir
  import opened Ecdsa

  // ---- Verification on numbers ----

  /** The length of a number in bits. */
  function BitLen(v: nat): nat {
    if v == 0 then 0 else 1 + BitLen(v / 2)
  }

  lemma {:induction false} BitLenIs(v: nat, bits: nat)
    requires IsBitLength(v, bits)
    ensures bits == BitLen(v)
    decreases bits
  {
    if bits > 0 {
      assert Pow2(bits) == 2 * Pow2(bits - 1);
      if bits > 1 {
        assert Pow2(bits - 1) == 2 * Pow2(bits - 2);
      } else {
        assert Pow2(0) == 1;
      }
      BitLenIs(v / 2, bits - 1);
    }
  }

  lemma {:induction false} BitLenBounds(v: nat)
    ensures IsBitLength(v, BitLen(v))
  {
    if v > 0 {
      BitLenBounds(v / 2);
      if v / 2 == 0 {
        assert Pow2(0) == 1;
      }
    }
  }

  function Longest(u1: nat, u2: nat): nat {
    if BitLen(u1) > BitLen(u2) then BitLen(u1) else BitLen(u2)
  }

  /** Above the longer of two numbers nothing is left, and one of them has its top bit there. */
  lemma LongestTop(u1: nat, u2: nat)
    requires u1 > 0 || u2 > 0
    ensures var top := Longest(u1, u2);
      && top > 0 && Prefix(u1, top) == 0 && Prefix(u2, top) == 0
      && (BitOf(u1, top - 1) || BitOf(u2, top - 1))
  {
    var top := Longest(u1, u2);
    BitLenBounds(u1);
    BitLenBounds(u2);
    Pow2Monotone(BitLen(u1), top);
    Pow2Monotone(BitLen(u2), top);
    DivOfSum(u1, 0, u1, Pow2(top));
    DivOfSum(u2, 0, u2, Pow2(top));
    if BitLen(u1) == top {
      TopBitSet(u1, top);
    } else {
      TopBitSet(u2, top);
    }
  }

  lemma TopBitSet(u: nat, top: nat)
    requires top > 0 && IsBitLength(u, top)
    ensures BitOf(u, top - 1)
  {
    Pow2Next(top);
    assert Pow2(top) == 2 * Pow2(top - 1);
    TopBitAsComparison(u, top - 1);
  }

  /** The scalars e/s and r/s modulo n. */
  ghost function U1(e: nat, s: nat, n: nat): nat requires Prime(n) { FMul(e, InvOf(s, n), n) }
  ghost function U2(r: nat, s: nat, n: nat): nat requires Prime(n) { FMul(r, InvOf(s, n), n) }

  /** What uECC_verify answers. */
  ghost predicate VerifyOf(g: Pair, q: Pair, e: nat, r: nat, s: nat, n: nat, p: nat)
    requires Prime(n) && Prime(p)
  {
    && 0 < r < n && 0 < s < n
    && (U1(e, s, n) > 0 || U2(r, s, n) > 0)
    && Longest(U1(e, s, n), U2(r, s, n)) > 0
    && Reduced(ShamirX(TableOf(g, q, p), U1(e, s, n), U2(r, s, n), Longest(U1(e, s, n), U2(r, s, n)), p), n) == r
  }

  lemma ScalarsNotBothZero(e: nat, r: nat, s: nat, n: nat)
    requires Prime(n) && 0 < r < n && 0 < s < n
    ensures U2(r, s, n) > 0 && Longest(U1(e, s, n), U2(r, s, n)) > 0
  {
    hide Prime, FInv;
    ModSmall(r, n);
    ModSmall(s, n);
    InvOfInverts(s, n);
    InverseNonzero(InvOf(s, n), s, n);
    NonzeroProduct(r, InvOf(s, n), n);
    LongestTop(U1(e, s, n), U2(r, s, n));
  }

  // ---- Agreement ----

  lemma PolyAgree(e: int, i: int, r: int, d: int)
    ensures e * i + r * i * d == i * (e + r * d)
  {
  }

  /** With s = (e + r d)/k, the two scalars add up to k. */
  lemma ScalarsAddUp(e: nat, r: nat, d: nat, k: nat, s: nat, n: nat)
    requires Prime(n) && 0 < k < n && 0 < s < n
    requires k % n != 0 && s == SignatureS(e, r, d, k, n)
    ensures Combined(U1(e, s, n), U2(r, s, n), d) % n == k
  {
    hide Prime, FInv, FDiv, InvOf;
    ModSmall(s, n);
    ModSmall(k, n);
    var i := InvOf(s, n);
    InvOfInverts(s, n);
    var u1, u2 := U1(e, s, n), U2(r, s, n);
    MulIs(e, i, e, i, n);
    MulIs(r, i, r, i, n);
    CongMul(u2, r * i, d, d, n);
    CongAdd(u1, e * i, u2 * d, r * i * d, n);
    PolyAgree(e, i, r, d);
    CongMul(i, i, s * k, e + r * d, n);
    Assoc(i, s, k);
    CongMul(i * s, 1, k, k, n);
    CongOfMod(u1 + u2 * d, n);
    CongSmall((u1 + u2 * d) % n, k, n);
  }

  /** What the simultaneous multiplication gives for scalars that are not both zero. */
  lemma AbscissaDecides(g: Point, u1: nat, u2: nat, d: nat, r: nat, n: nat, b: int, p: nat)
    requires OddOrder(n, g, b, p) && n > 2 && KeyServes(u1, u2, d, n) && 0 < r && (u1 > 0 || u2 > 0)
    ensures Prime(p) && g.Affine? && Times(d, g, b, p).Affine? && Longest(u1, u2) > 0
    ensures var top, q, sum := Longest(u1, u2), Times(d, g, b, p), Times(Combined(u1, u2, d), g, b, p);
      Reduced(ShamirX(TableOf(Pair(g.x, g.y), Pair(q.x, q.y), p), u1, u2, top, p), n) == r <==>
        StepsApart(u1, u2, d, 0, top, n) && sum.Affine? && Reduced(sum.x, n) == r
  {
    assert Prime(p) && d % n != 0;
    hide Times, Plus, Prime, OnCurve, GroupLaw, OddOrder, ShamirX, TableOf, TableAt, KeyServes, BitLen, Combined, Longest;
    hide StepsApart, Prefix, BitOf;
    TableMeaning(g, d, n, b, p);
    LongestTop(u1, u2);
    var q, top := Times(d, g, b, p), Longest(u1, u2);
    var t := TableOf(Pair(g.x, g.y), Pair(q.x, q.y), p);
    if StepsApart(u1, u2, d, 0, top, n) {
      ShamirXMeaning(t, u1, u2, d, top, n, g, b, p);
    } else {
      CollidingX(t, u1, u2, d, top, n, g, b, p);
    }
  }

  /**
   For a public key d·G, when G + Q is sound or not used, verification accepts exactly when r and s are in range, no step adds
   equal or opposite points, and x(u1·G + u2·Q), reduced once, is r.
   */
  lemma VerifyDecides(g: Point, e: nat, d: nat, r: nat, s: nat, n: nat, b: int, p: nat)
    requires OddOrder(n, g, b, p) && n > 2 && Prime(n) && KeyServes(U1(e, s, n), U2(r, s, n), d, n)
    ensures g.Affine? && Times(d, g, b, p).Affine?
    ensures var u1, u2 := U1(e, s, n), U2(r, s, n);
      var q, sum := Times(d, g, b, p), Times(Combined(u1, u2, d), g, b, p);
      VerifyOf(Pair(g.x, g.y), Pair(q.x, q.y), e, r, s, n, p) <==>
        && 0 < r < n && 0 < s < n && StepsApart(u1, u2, d, 0, Longest(u1, u2), n)
        && sum.Affine? && Reduced(sum.x, n) == r
  {
    assert Prime(p);
    hide Times, Plus, Prime, OnCurve, GroupLaw, ShamirX, TableOf, InvOf, BitLen, Combined, U1, U2, Longest, StepsApart;
    hide KeyApart, NoCommonBit, Reduced;
    TimesMod(d, n, g, b, p);
    ModSmall(1, n);
    TimesMod(1, n, g, b, p);
    TimesOne(g, b, p);
    if 0 < r < n && 0 < s < n {
      ScalarsNotBothZero(e, r, s, n);
      AbscissaDecides(g, U1(e, s, n), U2(r, s, n), d, r, n, b, p);
    }
  }

  /**
   When G + Q is sound or not used, a signature made with d and k is accepted for d·G if and only if r is below n,
   s is not zero, and no step of the verification adds equal or opposite points.
   */
  lemma SignedIsAccepted(g: Point, e: nat, d: nat, k: nat, r: nat, s: nat, bits: nat, numBytes: nat,
                         n: nat, b: int, p: nat)
    requires OddOrder(n, g, b, p) && n > 2 && Prime(n) && 0 < k < n && k % n != 0
    requires KeyServes(U1(e, s, n), U2(r, s, n), d, n)
    requires SignedAs(r, s, e, d, k, n, bits, Times(k, g, b, p), numBytes)
    ensures g.Affine? && Times(d, g, b, p).Affine?
    ensures var q := Times(d, g, b, p);
      var u1, u2 := U1(e, s, n), U2(r, s, n);
      VerifyOf(Pair(g.x, g.y), Pair(q.x, q.y), e, r, s, n, p) <==>
        r < n && s != 0 && StepsApart(u1, u2, d, 0, Longest(u1, u2), n)
  {
    assert Prime(p);
    hide Times, Plus, Prime, OnCurve, GroupLaw, FDiv, Unlucky, Combined, U1, U2, Longest, StepsApart, VerifyOf;
    VerifyDecides(g, e, d, r, s, n, b, p);
    if r < n && s != 0 {
      ScalarsAddUp(e, r, d, k, s, n);
      ModSmall(k, n);
      TimesCong(Combined(U1(e, s, n), U2(r, s, n), d), k, n, g, b, p);
    }
  }
}
