/** Arithmetic in GF(2^8) on the bytes and columns of AES (section 4 of FIPS 197). */
module AesField {
  import opened Crc

  // ---- Bytes ----

  lemma XorComm(a: bv8, b: bv8)
    ensures Xor8(a, b) == Xor8(b, a)
  {
  }

  lemma XorAssoc(a: bv8, b: bv8, c: bv8)
    ensures Xor8(Xor8(a, b), c) == Xor8(a, Xor8(b, c))
  {
  }

  lemma XorSelf(a: bv8)
    ensures Xor8(a, a) == 0
  {
  }

  /** Multiplication by x modulo x^8 + x^4 + x^3 + x + 1: the bit shifted out adds 0x1B. */
  function Two(a: bv8): bv8 {
    var t := a >> 7;
    ((a << 1) ^ t) ^ ((t << 1) ^ ((t << 3) ^ (t << 4)))
  }

  function TwoPlus(p: bv8, a: bv8): bv8 { Xor8(Two(p), a) }

  function Three(a: bv8): bv8 { TwoPlus(a, a) }
  function Nine(a: bv8): bv8 { TwoPlus(Two(Two(a)), a) }
  function Eleven(a: bv8): bv8 { TwoPlus(TwoPlus(Two(a), a), a) }
  function Thirteen(a: bv8): bv8 { TwoPlus(Two(TwoPlus(a, a)), a) }
  function Fourteen(a: bv8): bv8 { Two(TwoPlus(TwoPlus(a, a), a)) }

  lemma TwoIsXtime(a: bv8)
    ensures Two(a) == if a & 0x80 != 0 then (a << 1) ^ 0x1B else a << 1
  {
    assert a & 0x80 != 0 ==> a >> 7 == 1;
    assert a & 0x80 == 0 ==> a >> 7 == 0;
  }

  lemma TwoLinear(a: bv8, b: bv8)
    ensures Two(Xor8(a, b)) == Xor8(Two(a), Two(b))
  {
  }

  lemma Interchange(p: bv8, q: bv8, a: bv8, b: bv8)
    ensures Xor8(Xor8(p, q), Xor8(a, b)) == Xor8(Xor8(p, a), Xor8(q, b))
  {
    hide *;
    XorAssoc(p, q, Xor8(a, b));
    XorAssoc(q, a, b);
    XorComm(q, a);
    XorAssoc(a, q, b);
    XorAssoc(p, a, Xor8(q, b));
  }

  /** Four terms taken in rotated order. */
  lemma Rotate(a: bv8, b: bv8, c: bv8, d: bv8)
    ensures Xor8(Xor8(a, b), Xor8(c, d)) == Xor8(Xor8(b, c), Xor8(d, a))
  {
    hide *;
    XorComm(a, b);
    Interchange(b, a, c, d);
    XorComm(a, d);
  }

  lemma TwoPlusLinear(p: bv8, q: bv8, a: bv8, b: bv8)
    ensures TwoPlus(Xor8(p, q), Xor8(a, b)) == Xor8(TwoPlus(p, a), TwoPlus(q, b))
  {
    hide Xor8, Two;
    TwoLinear(p, q);
    Interchange(Two(p), Two(q), a, b);
  }

  lemma NineLinear(a: bv8, b: bv8)
    ensures Nine(Xor8(a, b)) == Xor8(Nine(a), Nine(b))
  {
    hide Xor8, Two, TwoPlus;
    TwoLinear(a, b);
    TwoLinear(Two(a), Two(b));
    TwoPlusLinear(Two(Two(a)), Two(Two(b)), a, b);
  }

  lemma ElevenLinear(a: bv8, b: bv8)
    ensures Eleven(Xor8(a, b)) == Xor8(Eleven(a), Eleven(b))
  {
    hide Xor8, Two, TwoPlus;
    TwoLinear(a, b);
    TwoPlusLinear(Two(a), Two(b), a, b);
    TwoPlusLinear(TwoPlus(Two(a), a), TwoPlus(Two(b), b), a, b);
  }

  lemma ThirteenLinear(a: bv8, b: bv8)
    ensures Thirteen(Xor8(a, b)) == Xor8(Thirteen(a), Thirteen(b))
  {
    hide Xor8, Two, TwoPlus;
    TwoPlusLinear(a, b, a, b);
    TwoLinear(TwoPlus(a, a), TwoPlus(b, b));
    TwoPlusLinear(Two(TwoPlus(a, a)), Two(TwoPlus(b, b)), a, b);
  }

  lemma FourteenLinear(a: bv8, b: bv8)
    ensures Fourteen(Xor8(a, b)) == Xor8(Fourteen(a), Fourteen(b))
  {
    hide Xor8, Two, TwoPlus;
    TwoPlusLinear(a, b, a, b);
    TwoPlusLinear(TwoPlus(a, a), TwoPlus(b, b), a, b);
    TwoLinear(TwoPlus(TwoPlus(a, a), a), TwoPlus(TwoPlus(b, b), b));
  }

  /** The first column of the product of the two circulant matrices. */
  lemma Product0(a: bv8)
    ensures Xor8(Xor8(Fourteen(Two(a)), Eleven(a)), Xor8(Thirteen(a), Nine(Three(a)))) == a
  {
  }

  lemma Product1(a: bv8)
    ensures Xor8(Xor8(Nine(Two(a)), Fourteen(a)), Xor8(Eleven(a), Thirteen(Three(a)))) == 0
  {
  }

  lemma Product2(a: bv8)
    ensures Xor8(Xor8(Thirteen(Two(a)), Nine(a)), Xor8(Fourteen(a), Eleven(Three(a)))) == 0
  {
  }

  lemma Product3(a: bv8)
    ensures Xor8(Xor8(Eleven(Two(a)), Thirteen(a)), Xor8(Nine(a), Fourteen(Three(a)))) == 0
  {
  }

  // ---- Columns ----

  /** A 32-bit word, most significant byte first: a column of the state or a word of the key schedule. */
  datatype Word = Word(b3: bv8, b2: bv8, b1: bv8, b0: bv8)

  function XorW(x: Word, y: Word): Word {
    Word(Xor8(x.b3, y.b3), Xor8(x.b2, y.b2), Xor8(x.b1, y.b1), Xor8(x.b0, y.b0))
  }

  /** MixColumns of a column with one byte set (section 5.1.3 of FIPS 197). */
  function Mix3(x: bv8): Word { Word(Two(x), x, x, Three(x)) }
  function Mix2(x: bv8): Word { Word(Three(x), Two(x), x, x) }
  function Mix1(x: bv8): Word { Word(x, Three(x), Two(x), x) }
  function Mix0(x: bv8): Word { Word(x, x, Three(x), Two(x)) }

  function Mix(c: Word): Word {
    XorW(XorW(Mix3(c.b3), Mix2(c.b2)), XorW(Mix1(c.b1), Mix0(c.b0)))
  }

  /** InvMixColumns likewise (section 5.3.3). */
  function Inv3(x: bv8): Word { Word(Fourteen(x), Nine(x), Thirteen(x), Eleven(x)) }
  function Inv2(x: bv8): Word { Word(Eleven(x), Fourteen(x), Nine(x), Thirteen(x)) }
  function Inv1(x: bv8): Word { Word(Thirteen(x), Eleven(x), Fourteen(x), Nine(x)) }
  function Inv0(x: bv8): Word { Word(Nine(x), Thirteen(x), Eleven(x), Fourteen(x)) }

  function InvMix(c: Word): Word {
    XorW(XorW(Inv3(c.b3), Inv2(c.b2)), XorW(Inv1(c.b1), Inv0(c.b0)))
  }

  lemma XorWComm(x: Word, y: Word)
    ensures XorW(x, y) == XorW(y, x)
  {
    hide Xor8;
    XorComm(x.b3, y.b3);
    XorComm(x.b2, y.b2);
    XorComm(x.b1, y.b1);
    XorComm(x.b0, y.b0);
  }

  lemma XorWAssoc(x: Word, y: Word, z: Word)
    ensures XorW(XorW(x, y), z) == XorW(x, XorW(y, z))
  {
    hide Xor8;
    XorAssoc(x.b3, y.b3, z.b3);
    XorAssoc(x.b2, y.b2, z.b2);
    XorAssoc(x.b1, y.b1, z.b1);
    XorAssoc(x.b0, y.b0, z.b0);
  }

  const ZERO: Word := Word(0, 0, 0, 0)

  lemma XorZero8(a: bv8)
    ensures Xor8(a, 0) == a && Xor8(0, a) == a
  {
  }

  lemma XorWSelf(x: Word)
    ensures XorW(x, x) == ZERO && XorW(x, ZERO) == x && XorW(ZERO, x) == x
  {
    hide Xor8;
    XorSelf(x.b3);
    XorSelf(x.b2);
    XorSelf(x.b1);
    XorSelf(x.b0);
    XorZero8(x.b3);
    XorZero8(x.b2);
    XorZero8(x.b1);
    XorZero8(x.b0);
  }

  /** Adding twice cancels. */
  lemma XorWTwice(x: Word, y: Word)
    ensures XorW(XorW(x, y), y) == x
  {
    hide *;
    XorWAssoc(x, y, y);
    XorWSelf(y);
    XorWSelf(x);
  }

  lemma SwapMiddle(a: Word, b: Word, c: Word, d: Word)
    ensures XorW(XorW(a, b), XorW(c, d)) == XorW(XorW(a, c), XorW(b, d))
  {
    hide *;
    XorWAssoc(a, b, XorW(c, d));
    XorWAssoc(b, c, d);
    XorWComm(b, c);
    XorWAssoc(c, b, d);
    XorWAssoc(a, c, XorW(b, d));
  }

  // ---- InvMixColumns undoes MixColumns ----

  lemma InvTermsLinear(a: bv8, b: bv8)
    ensures Inv3(Xor8(a, b)) == XorW(Inv3(a), Inv3(b)) && Inv2(Xor8(a, b)) == XorW(Inv2(a), Inv2(b))
    ensures Inv1(Xor8(a, b)) == XorW(Inv1(a), Inv1(b)) && Inv0(Xor8(a, b)) == XorW(Inv0(a), Inv0(b))
  {
    hide Xor8, Nine, Eleven, Thirteen, Fourteen;
    NineLinear(a, b);
    ElevenLinear(a, b);
    ThirteenLinear(a, b);
    FourteenLinear(a, b);
  }

  lemma InvMixLinear(x: Word, y: Word)
    ensures InvMix(XorW(x, y)) == XorW(InvMix(x), InvMix(y))
  {
    InvMixParts(x, y);
    hide *;
    InvMixIs(x);
    InvMixIs(y);
    SwapMiddle(Inv3(x.b3), Inv3(y.b3), Inv2(x.b2), Inv2(y.b2));
    SwapMiddle(Inv1(x.b1), Inv1(y.b1), Inv0(x.b0), Inv0(y.b0));
    SwapMiddle(XorW(Inv3(x.b3), Inv2(x.b2)), XorW(Inv3(y.b3), Inv2(y.b2)),
               XorW(Inv1(x.b1), Inv0(x.b0)), XorW(Inv1(y.b1), Inv0(y.b0)));
  }

  lemma InvMixIs(x: Word)
    ensures InvMix(x) == XorW(XorW(Inv3(x.b3), Inv2(x.b2)), XorW(Inv1(x.b1), Inv0(x.b0)))
  {
  }

  lemma InvMixParts(x: Word, y: Word)
    ensures InvMix(XorW(x, y)) ==
      XorW(XorW(XorW(Inv3(x.b3), Inv3(y.b3)), XorW(Inv2(x.b2), Inv2(y.b2))),
           XorW(XorW(Inv1(x.b1), Inv1(y.b1)), XorW(Inv0(x.b0), Inv0(y.b0))))
  {
    InvTermsLinear(x.b3, y.b3);
    InvTermsLinear(x.b2, y.b2);
    InvTermsLinear(x.b1, y.b1);
    InvTermsLinear(x.b0, y.b0);
    hide Inv3, Inv2, Inv1, Inv0, Xor8;
    var z := XorW(x, y);
    InvMixIs(z);
  }

  lemma InvOfMix3(x: bv8)
    ensures InvMix(Mix3(x)) == Word(x, 0, 0, 0)
  {
    hide Xor8, Two, Three, Nine, Eleven, Thirteen, Fourteen;
    Product0(x);
    Product1(x);
    Product2(x);
    Product3(x);
  }

  lemma InvOfMix2(x: bv8)
    ensures InvMix(Mix2(x)) == Word(0, x, 0, 0)
  {
    hide Xor8, Two, Three, Nine, Eleven, Thirteen, Fourteen;
    Product0(x);
    Product1(x);
    Product2(x);
    Product3(x);
    Rotate(Fourteen(Three(x)), Eleven(Two(x)), Thirteen(x), Nine(x));
    Rotate(Nine(Three(x)), Fourteen(Two(x)), Eleven(x), Thirteen(x));
    Rotate(Thirteen(Three(x)), Nine(Two(x)), Fourteen(x), Eleven(x));
    Rotate(Eleven(Three(x)), Thirteen(Two(x)), Nine(x), Fourteen(x));
  }

  lemma RotateTwice(a: bv8, b: bv8, c: bv8, d: bv8)
    ensures Xor8(Xor8(a, b), Xor8(c, d)) == Xor8(Xor8(c, d), Xor8(a, b))
  {
    hide *;
    XorComm(Xor8(a, b), Xor8(c, d));
  }

  lemma InvOfMix1(x: bv8)
    ensures InvMix(Mix1(x)) == Word(0, 0, x, 0)
  {
    hide Xor8, Two, Three, Nine, Eleven, Thirteen, Fourteen;
    Product0(x);
    Product1(x);
    Product2(x);
    Product3(x);
    RotateTwice(Fourteen(x), Eleven(Three(x)), Thirteen(Two(x)), Nine(x));
    RotateTwice(Nine(x), Fourteen(Three(x)), Eleven(Two(x)), Thirteen(x));
    RotateTwice(Thirteen(x), Nine(Three(x)), Fourteen(Two(x)), Eleven(x));
    RotateTwice(Eleven(x), Thirteen(Three(x)), Nine(Two(x)), Fourteen(x));
  }

  lemma InvOfMix0(x: bv8)
    ensures InvMix(Mix0(x)) == Word(0, 0, 0, x)
  {
    hide Xor8, Two, Three, Nine, Eleven, Thirteen, Fourteen;
    Product0(x);
    Product1(x);
    Product2(x);
    Product3(x);
    Rotate(Nine(Two(x)), Fourteen(x), Eleven(x), Thirteen(Three(x)));
    Rotate(Thirteen(Two(x)), Nine(x), Fourteen(x), Eleven(Three(x)));
    Rotate(Eleven(Two(x)), Thirteen(x), Nine(x), Fourteen(Three(x)));
    Rotate(Fourteen(Two(x)), Eleven(x), Thirteen(x), Nine(Three(x)));
  }

  lemma FourBytes(c: Word)
    ensures XorW(XorW(Word(c.b3, 0, 0, 0), Word(0, c.b2, 0, 0)), XorW(Word(0, 0, c.b1, 0), Word(0, 0, 0, c.b0))) == c
  {
    hide Xor8;
    XorZero8(c.b3);
    XorZero8(c.b2);
    XorZero8(c.b1);
    XorZero8(c.b0);
    XorZero8(0);
  }

  /** InvMixColumns undoes MixColumns. */
  lemma InvMixUndoes(c: Word)
    ensures InvMix(Mix(c)) == c
  {
    hide XorW, InvMix, Mix3, Mix2, Mix1, Mix0;
    InvMixLinear(XorW(Mix3(c.b3), Mix2(c.b2)), XorW(Mix1(c.b1), Mix0(c.b0)));
    InvMixLinear(Mix3(c.b3), Mix2(c.b2));
    InvMixLinear(Mix1(c.b1), Mix0(c.b0));
    InvOfMix3(c.b3);
    InvOfMix2(c.b2);
    InvOfMix1(c.b1);
    InvOfMix0(c.b0);
    FourBytes(c);
  }
}
