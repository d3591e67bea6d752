/** AES as FIPS 197 states it, on blocks of bytes, and that the word-wise cipher of aes.c computes it. */
module Fips197 {
  import opened Crc
  import opened AesField
  import opened AesRounds
  import opened AesKeys
  import opened AesCipher
  import AesCbc

  // ---- The standard ----

  type Block = s: seq<bv8> | |s| == 16 witness [0, 0, 0, 0, 0, 0, 0, 0, 0, 0, 0, 0, 0, 0, 0, 0]

  /** Multiplication by x (section 4.2.1). */
  function XTime(a: bv8): bv8 {
    if a & 0x80 != 0 then (a << 1) ^ 0x1B else a << 1
  }

  /** The product with the polynomial whose coefficients are the bits of k (section 4.2). */
  function Mul(k: nat, a: bv8): bv8 {
    if k == 0 then 0 else (if k % 2 == 1 then a else 0) ^ XTime(Mul(k / 2, a))
  }

  /** The byte in row r and column c of the state (section 3.4). */
  function At(s: Block, r: nat, c: nat): bv8
    requires r < 4 && c < 4
  {
    s[r + 4 * c]
  }

  function SubBytes(box: SBox, s: Block): Block {
    seq(16, i requires 0 <= i < 16 => box.s(s[i]))
  }

  /** Row r moves r columns to the left (section 5.1.2). */
  function ShiftRows(s: Block): Block {
    seq(16, i requires 0 <= i < 16 => MovedLeft(s, i % 4, i / 4))
  }

  function MovedLeft(s: Block, r: nat, c: nat): bv8
    requires r < 4 && c < 4
  {
    At(s, r, (c + r) % 4)
  }

  /** Each column times the polynomial 3 x^3 + x^2 + x + 2 (section 5.1.3). */
  function MixColumns(s: Block): Block {
    seq(16, i requires 0 <= i < 16 => Mixed(s, i % 4, i / 4, 2, 3, 1, 1))
  }

  function Mixed(s: Block, r: nat, c: nat, k0: nat, k1: nat, k2: nat, k3: nat): bv8
    requires r < 4 && c < 4
  {
    Sum(Mul(k0, At(s, r, c)), Mul(k1, At(s, (r + 1) % 4, c)), Mul(k2, At(s, (r + 2) % 4, c)), Mul(k3, At(s, (r + 3) % 4, c)))
  }

  function Sum(a: bv8, b: bv8, c: bv8, d: bv8): bv8 { a ^ b ^ c ^ d }

  function AddRoundKey(s: Block, k: Block): Block {
    seq(16, i requires 0 <= i < 16 => s[i] ^ k[i])
  }

  /** x^j, the first byte of the round constant j + 1 (section 5.2). */
  function XPower(j: nat): bv8 {
    if j == 0 then 1 else XTime(XPower(j - 1))
  }

  /** What is added to byte b of the word nk before word i; `next` is the byte of word i - 1 behind its byte b, cyclically. */
  function Added(box: SBox, nk: nat, i: nat, b: nat, same: bv8, next: bv8): bv8
    requires 0 < nk <= i
  {
    if i % nk == 0 then box.s(next) ^ (if b == 0 then XPower(i / nk - 1) else 0)
    else if nk > 6 && i % nk == 4 then box.s(same)
    else same
  }

  /** Byte b of word i of the expanded key (section 5.2). */
  function KeyByte(box: SBox, key: seq<bv8>, i: nat, b: nat): bv8
    requires |key| >= 16 && b < 4
    decreases i
  {
    var nk := |key| / 4;
    if i < nk then key[4 * i + b]
    else
      KeyByte(box, key, i - nk, b)
      ^ Added(box, nk, i, b, KeyByte(box, key, i - 1, b), KeyByte(box, key, i - 1, (b + 1) % 4))
  }

  function RoundKeyOf(box: SBox, key: seq<bv8>, g: nat): Block
    requires |key| >= 16
  {
    seq(16, i requires 0 <= i < 16 => KeyByte(box, key, 4 * g + i / 4, i % 4))
  }

  /** The state after `round` full rounds (section 5.1). */
  function CipherAfter(box: SBox, key: seq<bv8>, s: Block, round: nat): Block
    requires |key| >= 16
  {
    if round == 0 then AddRoundKey(s, RoundKeyOf(box, key, 0))
    else
      AddRoundKey(MixColumns(ShiftRows(SubBytes(box, CipherAfter(box, key, s, round - 1)))), RoundKeyOf(box, key, round))
  }

  function Cipher(box: SBox, key: seq<bv8>, s: Block): Block
    requires KeySize(|key|)
  {
    var nr := |key| / 4 + 6;
    AddRoundKey(ShiftRows(SubBytes(box, CipherAfter(box, key, s, nr - 1))), RoundKeyOf(box, key, nr))
  }

  // ---- Its inverse (section 5.3) ----

  function InvSubBytes(box: SBox, s: Block): Block {
    seq(16, i requires 0 <= i < 16 => box.si(s[i]))
  }

  /** Row r moves r columns to the right. */
  function InvShiftRows(s: Block): Block {
    seq(16, i requires 0 <= i < 16 => MovedRight(s, i % 4, i / 4))
  }

  function MovedRight(s: Block, r: nat, c: nat): bv8
    requires r < 4 && c < 4
  {
    At(s, r, (c + 4 - r) % 4)
  }

  function InvMixColumns(s: Block): Block {
    seq(16, i requires 0 <= i < 16 => Mixed(s, i % 4, i / 4, 0x0E, 0x0B, 0x0D, 0x09))
  }

  /** The state after as many rounds of the inverse, from the last round key on. */
  function InvCipherAfter(box: SBox, key: seq<bv8>, s: Block, rounds: nat): Block
    requires |key| >= 16 && rounds <= |key| / 4 + 6
  {
    var nr := |key| / 4 + 6;
    if rounds == 0 then AddRoundKey(s, RoundKeyOf(box, key, nr))
    else
      InvMixColumns(AddRoundKey(InvSubBytes(box, InvShiftRows(InvCipherAfter(box, key, s, rounds - 1))),
                                RoundKeyOf(box, key, nr - rounds)))
  }

  function InvCipher(box: SBox, key: seq<bv8>, s: Block): Block
    requires KeySize(|key|)
  {
    AddRoundKey(InvSubBytes(box, InvShiftRows(InvCipherAfter(box, key, s, |key| / 4 + 5))), RoundKeyOf(box, key, 0))
  }

  // ---- Coefficients ----

  lemma XorIs(a: bv8, b: bv8)
    ensures Xor8(a, b) == a ^ b
  {
  }

  lemma MulOne(a: bv8)
    ensures Mul(1, a) == a
  {
    assert Mul(0, a) == 0;
    assert XTime(0) == 0;
    assert a ^ 0 == a;
  }

  lemma MulEven(k: nat, a: bv8)
    requires k > 0
    ensures Mul(2 * k, a) == XTime(Mul(k, a))
  {
    var t := XTime(Mul(k, a));
    assert 0 ^ t == t;
  }

  lemma MulOdd(k: nat, a: bv8)
    ensures Mul(2 * k + 1, a) == a ^ XTime(Mul(k, a))
  {
    hide XTime;
    assert (2 * k + 1) % 2 == 1 && (2 * k + 1) / 2 == k;
  }

  lemma XTimeIs(a: bv8)
    ensures XTime(a) == Two(a)
  {
    TwoIsXtime(a);
  }

  lemma TwoPlusIs(p: bv8, a: bv8)
    ensures TwoPlus(p, a) == a ^ XTime(p)
  {
    hide Two, XTime;
    XTimeIs(p);
    assert Two(p) ^ a == a ^ Two(p);
  }

  lemma Doubled(k: nat, a: bv8, p: bv8)
    requires k > 0 && Mul(k, a) == p
    ensures Mul(2 * k, a) == Two(p)
  {
    hide *;
    MulEven(k, a);
    XTimeIs(p);
  }

  lemma DoubledPlus(k: nat, a: bv8, p: bv8)
    requires Mul(k, a) == p
    ensures Mul(2 * k + 1, a) == TwoPlus(p, a)
  {
    hide *;
    MulOdd(k, a);
    TwoPlusIs(p, a);
  }

  lemma SmallCoefficients(a: bv8)
    ensures Mul(1, a) == a && Mul(2, a) == Two(a) && Mul(3, a) == Three(a)
  {
    hide Mul, Two, TwoPlus;
    MulOne(a);
    Doubled(1, a, a);
    DoubledPlus(1, a, a);
  }

  lemma NineElevenIs(a: bv8)
    ensures Mul(0x09, a) == Nine(a) && Mul(0x0B, a) == Eleven(a)
  {
    hide Mul, Two, TwoPlus;
    SmallCoefficients(a);
    Doubled(2, a, Two(a));
    DoubledPlus(4, a, Two(Two(a)));
    DoubledPlus(2, a, Two(a));
    DoubledPlus(5, a, TwoPlus(Two(a), a));
  }

  lemma ThirteenFourteenIs(a: bv8)
    ensures Mul(0x0D, a) == Thirteen(a) && Mul(0x0E, a) == Fourteen(a)
  {
    hide Mul, Two, TwoPlus;
    SmallCoefficients(a);
    Doubled(3, a, TwoPlus(a, a));
    DoubledPlus(6, a, Two(TwoPlus(a, a)));
    DoubledPlus(3, a, TwoPlus(a, a));
    Doubled(7, a, TwoPlus(TwoPlus(a, a), a));
  }

  /** The multiplications of the tables are the products with 2, 3, 9, 11, 13 and 14. */
  lemma CoefficientsAre(a: bv8)
    ensures Mul(1, a) == a && Mul(2, a) == Two(a) && Mul(3, a) == Three(a)
    ensures Mul(0x09, a) == Nine(a) && Mul(0x0B, a) == Eleven(a) && Mul(0x0D, a) == Thirteen(a) && Mul(0x0E, a) == Fourteen(a)
  {
    hide *;
    SmallCoefficients(a);
    NineElevenIs(a);
    ThirteenFourteenIs(a);
  }

  // ---- The round constants and the schedule ----

  /** Each round constant is x times the one before. */
  lemma RconIs(j: nat)
    requires j < 10
    ensures Rcon(j) == Word(XPower(j), 0, 0, 0)
  {
    assert XPower(1) == 0x02 && XPower(2) == 0x04;
    assert XPower(3) == 0x08 && XPower(4) == 0x10;
    assert XPower(5) == 0x20 && XPower(6) == 0x40;
    assert XPower(7) == 0x80 && XPower(8) == 0x1B;
    assert XPower(9) == 0x36;
  }

  lemma XorByte(x: Word, y: Word, b: nat)
    requires b < 4
    ensures StoreWord(XorW(x, y))[b] == StoreWord(x)[b] ^ StoreWord(y)[b]
  {
    hide Xor8;
    match b
    case 0 => XorIs(x.b3, y.b3);
    case 1 => XorIs(x.b2, y.b2);
    case 2 => XorIs(x.b1, y.b1);
    case 3 => XorIs(x.b0, y.b0);
  }

  lemma SubstitutedByte(box: SBox, t: Word, b: nat)
    requires b < 4
    ensures StoreWord(Sub(box, t))[b] == box.s(StoreWord(t)[b])
    ensures StoreWord(SubRot(box, t))[b] == box.s(StoreWord(t)[(b + 1) % 4])
  {
  }

  lemma ConstantByte(j: nat, b: nat)
    requires j < 10 && b < 4
    ensures StoreWord(Rcon(j))[b] == if b == 0 then XPower(j) else 0
  {
    hide XPower, Rcon;
    RconIs(j);
  }

  lemma UserByte(key: seq<bv8>, i: nat, b: nat)
    requires i < |key| / 4 && b < 4
    ensures StoreWord(KeyWords(key)[i])[b] == key[4 * i + b]
  {
  }

  /** The byte added to the one nk words before. */
  lemma AddedByte(box: SBox, user: seq<Word>, i: nat, b: nat)
    requires |user| == 4 || |user| == 6 || |user| == 8
    requires |user| <= i < 4 * (|user| + 7) && b < 4
    ensures var nk, t := |user|, StoreWord(KeyWord(box, user, i - 1));
      StoreWord(KeyWord(box, user, i))[b]
      == StoreWord(KeyWord(box, user, i - nk))[b] ^ Added(box, nk, i, b, t[b], t[(b + 1) % 4])
  {
    var nk, old', t := |user|, KeyWord(box, user, i - |user|), KeyWord(box, user, i - 1);
    assert KeyWord(box, user, i) == XorW(old', AddedWord(box, nk, i, t));
    hide *;
    XorByte(old', AddedWord(box, nk, i, t), b);
    AddedWordByte(box, nk, i, t, b);
  }

  function AddedWord(box: SBox, nk: nat, i: nat, t: Word): Word
    requires 0 < nk <= i
  {
    if i % nk == 0 then XorW(SubRot(box, t), Rcon(i / nk - 1))
    else if nk > 6 && i % nk == 4 then Sub(box, t)
    else t
  }

  lemma AddedWordByte(box: SBox, nk: nat, i: nat, t: Word, b: nat)
    requires nk == 4 || nk == 6 || nk == 8
    requires nk <= i < 4 * (nk + 7) && b < 4
    ensures StoreWord(AddedWord(box, nk, i, t))[b]
         == Added(box, nk, i, b, StoreWord(t)[b], StoreWord(t)[(b + 1) % 4])
  {
    hide StoreWord, XorW, SubRot, Sub, Rcon, XPower;
    if i % nk == 0 {
      GroupBounds(i, nk);
      ConstantByte(i / nk - 1, b);
      SubstitutedByte(box, t, b);
      XorByte(SubRot(box, t), Rcon(i / nk - 1), b);
    } else if nk > 6 && i % nk == 4 {
      SubstitutedByte(box, t, b);
    }
  }

  lemma GroupBounds(i: nat, nk: nat)
    requires nk == 4 || nk == 6 || nk == 8
    requires nk <= i < 4 * (nk + 7)
    ensures 0 <= i / nk - 1 < 10
  {
  }

  lemma KeyByteIs(box: SBox, key: seq<bv8>, i: nat, b: nat)
    requires KeySize(|key|) && b < 4
    ensures var nk := |key| / 4;
      && (i < nk ==> KeyByte(box, key, i, b) == key[4 * i + b])
      && (i >= nk ==>
            KeyByte(box, key, i, b) == KeyByte(box, key, i - nk, b)
              ^ Added(box, nk, i, b, KeyByte(box, key, i - 1, b), KeyByte(box, key, i - 1, (b + 1) % 4)))
  {
    hide XPower;
  }

  lemma UserWord(box: SBox, user: seq<Word>, i: nat)
    requires i < |user| && |user| >= 4
    ensures KeyWord(box, user, i) == user[i]
  {
  }

  /** The word-wise schedule is the key expansion of the standard, byte by byte. */
  lemma {:induction false} ScheduleIs(box: SBox, key: seq<bv8>, i: nat, b: nat)
    requires KeySize(|key|) && i < |key| + 28 && b < 4
    ensures StoreWord(KeyWord(box, KeyWords(key), i))[b] == KeyByte(box, key, i, b)
    decreases i
  {
    hide *;
    var nk := |key| / 4;
    KeyLengths(|key|);
    KeyByteIs(box, key, i, b);
    if i < nk {
      UserByte(key, i, b);
      UserWord(box, KeyWords(key), i);
    } else {
      AddedByte(box, KeyWords(key), i, b);
      ScheduleIs(box, key, i - nk, b);
      ScheduleIs(box, key, i - 1, b);
      ScheduleIs(box, key, i - 1, (b + 1) % 4);
    }
  }

  lemma KeyLengths(n: nat)
    requires KeySize(n)
    ensures var nk := n / 4; (nk == 4 || nk == 6 || nk == 8) && n == 4 * nk
  {
  }

  // ---- The transformations on words ----

  function Column(s: State, c: nat): Word
    requires c < 4
  {
    match c case 0 => s.w0 case 1 => s.w1 case 2 => s.w2 case 3 => s.w3
  }

  /** Words are columns, most significant byte in row 0. */
  lemma ColumnsAre(s: State, i: nat)
    requires i < 16
    ensures StoreState(s)[i] == StoreWord(Column(s, i / 4))[i % 4]
  {
    hide StoreWord;
    match i / 4 { case 0 => case 1 => case 2 => case 3 => }
  }

  lemma AddKeyIs(s: State, k: State)
    ensures StoreState(AddKey(s, k)) == AddRoundKey(StoreState(s), StoreState(k))
  {
    hide StoreState, StoreWord, XorW;
    forall i | 0 <= i < 16 ensures StoreState(AddKey(s, k))[i] == StoreState(s)[i] ^ StoreState(k)[i] {
      ColumnsAre(AddKey(s, k), i);
      ColumnsAre(s, i);
      ColumnsAre(k, i);
      XorByte(Column(s, i / 4), Column(k, i / 4), i % 4);
    }
  }

  lemma AtIs(s: State, r: nat, c: nat)
    requires r < 4 && c < 4
    ensures At(StoreState(s), r, c) == StoreWord(Column(s, c))[r]
  {
    hide StoreState, StoreWord, Column;
    ColumnsAre(s, r + 4 * c);
  }

  lemma SubShiftByte(box: SBox, s: State, r: nat, c: nat)
    requires r < 4 && c < 4
    ensures StoreWord(Column(SubShift(box, s), c))[r] == box.s(StoreWord(Column(s, (c + r) % 4))[r])
  {
    match c
    case 0 => match r { case 0 => case 1 => case 2 => case 3 => }
    case 1 => match r { case 0 => case 1 => case 2 => case 3 => }
    case 2 => match r { case 0 => case 1 => case 2 => case 3 => }
    case 3 => match r { case 0 => case 1 => case 2 => case 3 => }
  }

  lemma InvSubShiftByte(box: SBox, s: State, r: nat, c: nat)
    requires r < 4 && c < 4
    ensures StoreWord(Column(InvSubShift(box, s), c))[r] == box.si(StoreWord(Column(s, (c + 4 - r) % 4))[r])
  {
    match c
    case 0 => match r { case 0 => case 1 => case 2 => case 3 => }
    case 1 => match r { case 0 => case 1 => case 2 => case 3 => }
    case 2 => match r { case 0 => case 1 => case 2 => case 3 => }
    case 3 => match r { case 0 => case 1 => case 2 => case 3 => }
  }

  lemma SubShiftIs(box: SBox, s: State)
    ensures StoreState(SubShift(box, s)) == ShiftRows(SubBytes(box, StoreState(s)))
  {
    hide StoreState, StoreWord, Column, SubShift, At, ShiftRows, SubBytes;
    var b := StoreState(s);
    forall i | 0 <= i < 16 ensures StoreState(SubShift(box, s))[i] == ShiftRows(SubBytes(box, b))[i] {
      SubShiftAt(box, s, i);
      ShiftRowsAt(SubBytes(box, b), i);
      SubBytesAt(box, b, i % 4, (i / 4 + i % 4) % 4);
    }
  }

  lemma SubShiftAt(box: SBox, s: State, i: nat)
    requires i < 16
    ensures StoreState(SubShift(box, s))[i] == box.s(At(StoreState(s), i % 4, (i / 4 + i % 4) % 4))
  {
    hide StoreState, StoreWord, Column, SubShift, At;
    ColumnsAre(SubShift(box, s), i);
    SubShiftByte(box, s, i % 4, i / 4);
    AtIs(s, i % 4, (i / 4 + i % 4) % 4);
  }

  lemma ShiftRowsAt(s: Block, i: nat)
    requires i < 16
    ensures ShiftRows(s)[i] == MovedLeft(s, i % 4, i / 4)
  {
    hide MovedLeft;
  }

  lemma SubBytesAt(box: SBox, s: Block, r: nat, c: nat)
    requires r < 4 && c < 4
    ensures At(SubBytes(box, s), r, c) == box.s(At(s, r, c))
  {
  }

  lemma InvSubShiftIs(box: SBox, s: State)
    ensures StoreState(InvSubShift(box, s)) == InvSubBytes(box, InvShiftRows(StoreState(s)))
  {
    hide StoreState, StoreWord, Column, InvSubShift, At;
    var b := StoreState(s);
    hide InvShiftRows;
    forall i | 0 <= i < 16 ensures StoreState(InvSubShift(box, s))[i] == box.si(InvShiftRows(b)[i]) {
      InvSubShiftAt(box, s, i);
      InvShiftRowsAt(b, i);
    }
  }

  lemma InvShiftRowsAt(s: Block, i: nat)
    requires i < 16
    ensures InvShiftRows(s)[i] == MovedRight(s, i % 4, i / 4)
  {
    hide MovedRight;
  }

  lemma InvSubShiftAt(box: SBox, s: State, i: nat)
    requires i < 16
    ensures StoreState(InvSubShift(box, s))[i] == box.si(At(StoreState(s), i % 4, (i / 4 + 4 - i % 4) % 4))
  {
    hide StoreState, StoreWord, Column, InvSubShift, At;
    ColumnsAre(InvSubShift(box, s), i);
    InvSubShiftByte(box, s, i % 4, i / 4);
    AtIs(s, i % 4, (i / 4 + 4 - i % 4) % 4);
  }

  // ---- Columns times a polynomial ----

  lemma SumIs(a: bv8, b: bv8, c: bv8, d: bv8)
    ensures Xor8(Xor8(a, b), Xor8(c, d)) == Sum(a, b, c, d)
  {
  }

  lemma SumTurned(a: bv8, b: bv8, c: bv8, d: bv8)
    ensures Sum(a, b, c, d) == Sum(b, c, d, a)
  {
  }

  /** Four products in the order of the row they are taken for. */
  lemma TurnedTo(a: bv8, b: bv8, c: bv8, d: bv8)
    ensures var x := Xor8(Xor8(a, b), Xor8(c, d));
      x == Sum(a, b, c, d) && x == Sum(b, c, d, a) && x == Sum(c, d, a, b) && x == Sum(d, a, b, c)
  {
    hide *;
    SumIs(a, b, c, d);
    SumTurned(a, b, c, d);
    SumTurned(b, c, d, a);
    SumTurned(c, d, a, b);
  }

  lemma MixWord(w: Word)
    ensures Mix(w) == Word(Sum(Two(w.b3), Three(w.b2), w.b1, w.b0), Sum(Two(w.b2), Three(w.b1), w.b0, w.b3),
                           Sum(Two(w.b1), Three(w.b0), w.b3, w.b2), Sum(Two(w.b0), Three(w.b3), w.b2, w.b1))
  {
    hide Xor8, Two, Three, Sum;
    TurnedTo(Two(w.b3), Three(w.b2), w.b1, w.b0);
    TurnedTo(w.b3, Two(w.b2), Three(w.b1), w.b0);
    TurnedTo(w.b3, w.b2, Two(w.b1), Three(w.b0));
    TurnedTo(Three(w.b3), w.b2, w.b1, Two(w.b0));
  }

  lemma InvMixWord(w: Word)
    ensures InvMix(w) == Word(Sum(Fourteen(w.b3), Eleven(w.b2), Thirteen(w.b1), Nine(w.b0)),
                              Sum(Fourteen(w.b2), Eleven(w.b1), Thirteen(w.b0), Nine(w.b3)),
                              Sum(Fourteen(w.b1), Eleven(w.b0), Thirteen(w.b3), Nine(w.b2)),
                              Sum(Fourteen(w.b0), Eleven(w.b3), Thirteen(w.b2), Nine(w.b1)))
  {
    hide Xor8, Nine, Eleven, Thirteen, Fourteen, Sum;
    TurnedTo(Fourteen(w.b3), Eleven(w.b2), Thirteen(w.b1), Nine(w.b0));
    TurnedTo(Nine(w.b3), Fourteen(w.b2), Eleven(w.b1), Thirteen(w.b0));
    TurnedTo(Thirteen(w.b3), Nine(w.b2), Fourteen(w.b1), Eleven(w.b0));
    TurnedTo(Eleven(w.b3), Thirteen(w.b2), Nine(w.b1), Fourteen(w.b0));
  }

  lemma BytesOf(w: Word)
    ensures var b := StoreWord(w); b[0] == w.b3 && b[1] == w.b2 && b[2] == w.b1 && b[3] == w.b0
  {
  }

  lemma Cyclic(r: nat)
    requires r < 4
    ensures r == 0 || r == 1 || r == 2 || r == 3
    ensures (r + 1) % 4 == (if r == 3 then 0 else r + 1) && (r + 3) % 4 == if r == 0 then 3 else r - 1
    ensures (r + 2) % 4 == if r < 2 then r + 2 else r - 2
  {
  }

  lemma MixByte(w: Word, r: nat)
    requires r < 4
    ensures var b := StoreWord(w);
      StoreWord(Mix(w))[r] == Sum(Two(b[r]), Three(b[(r + 1) % 4]), b[(r + 2) % 4], b[(r + 3) % 4])
  {
    MixWord(w);
    hide *;
    BytesOf(w);
    BytesOf(Mix(w));
    Cyclic(r);
  }

  lemma InvMixByte(w: Word, r: nat)
    requires r < 4
    ensures var b := StoreWord(w);
      StoreWord(InvMix(w))[r] == Sum(Fourteen(b[r]), Eleven(b[(r + 1) % 4]), Thirteen(b[(r + 2) % 4]), Nine(b[(r + 3) % 4]))
  {
    InvMixWord(w);
    hide *;
    BytesOf(w);
    BytesOf(InvMix(w));
    Cyclic(r);
  }

  lemma MixedIs(s: State, c: nat, r: nat)
    requires r < 4 && c < 4
    ensures StoreWord(Mix(Column(s, c)))[r] == Mixed(StoreState(s), r, c, 2, 3, 1, 1)
    ensures StoreWord(InvMix(Column(s, c)))[r] == Mixed(StoreState(s), r, c, 0x0E, 0x0B, 0x0D, 0x09)
  {
    hide StoreState, StoreWord, Column, Mix, InvMix, Mul, At, Two, Three, Nine, Eleven, Thirteen, Fourteen, Sum;
    var w := Column(s, c);
    MixByte(w, r);
    InvMixByte(w, r);
    AtIs(s, r, c);
    AtIs(s, (r + 1) % 4, c);
    AtIs(s, (r + 2) % 4, c);
    AtIs(s, (r + 3) % 4, c);
    CoefficientsAre(StoreWord(w)[r]);
    CoefficientsAre(StoreWord(w)[(r + 1) % 4]);
    CoefficientsAre(StoreWord(w)[(r + 2) % 4]);
    CoefficientsAre(StoreWord(w)[(r + 3) % 4]);
  }

  lemma MixStateColumn(s: State, c: nat)
    requires c < 4
    ensures Column(MixState(s), c) == Mix(Column(s, c)) && Column(InvMixState(s), c) == InvMix(Column(s, c))
  {
    hide Mix, InvMix;
  }

  lemma MixStateIs(s: State)
    ensures StoreState(MixState(s)) == MixColumns(StoreState(s))
    ensures StoreState(InvMixState(s)) == InvMixColumns(StoreState(s))
  {
    hide StoreState, StoreWord, Column, Mix, InvMix, Mixed, MixState, InvMixState;
    forall i | 0 <= i < 16
      ensures StoreState(MixState(s))[i] == Mixed(StoreState(s), i % 4, i / 4, 2, 3, 1, 1)
      ensures StoreState(InvMixState(s))[i] == Mixed(StoreState(s), i % 4, i / 4, 0x0E, 0x0B, 0x0D, 0x09)
    {
      ColumnsAre(MixState(s), i);
      ColumnsAre(InvMixState(s), i);
      MixStateColumn(s, i / 4);
      MixedIs(s, i / 4, i % 4);
    }
  }

  // ---- The cipher ----

  lemma ScheduleColumn(box: SBox, user: seq<Word>, g: nat, c: nat)
    requires (|user| == 4 || |user| == 6 || |user| == 8) && g < |user| + 7 && c < 4
    ensures Column(Schedule(box, user)[g], c) == KeyWord(box, user, 4 * g + c)
  {
    hide KeyWord;
    match c { case 0 => case 1 => case 2 => case 3 => }
  }

  lemma RoundKeyIs(box: SBox, key: seq<bv8>, g: nat)
    requires KeySize(|key|) && g < |key| / 4 + 7
    ensures StoreState(Schedule(box, KeyWords(key))[g]) == RoundKeyOf(box, key, g)
  {
    hide StoreState, StoreWord, Column, Schedule, KeyWords, KeyWord, KeyByte;
    KeyLengths(|key|);
    forall i | 0 <= i < 16 ensures StoreState(Schedule(box, KeyWords(key))[g])[i] == KeyByte(box, key, 4 * g + i / 4, i % 4) {
      ColumnsAre(Schedule(box, KeyWords(key))[g], i);
      ScheduleColumn(box, KeyWords(key), g, i / 4);
      ScheduleIs(box, key, 4 * g + i / 4, i % 4);
    }
  }

  lemma RoundIs(box: SBox, s: State, k: State)
    ensures StoreState(EncRound(box, s, k))
         == AddRoundKey(MixColumns(ShiftRows(SubBytes(box, StoreState(s)))), StoreState(k))
    ensures StoreState(AddKey(SubShift(box, s), k)) == AddRoundKey(ShiftRows(SubBytes(box, StoreState(s))), StoreState(k))
  {
    hide StoreState, AddKey, MixState, SubShift, AddRoundKey, MixColumns, ShiftRows, SubBytes;
    SubShiftIs(box, s);
    MixStateIs(SubShift(box, s));
    AddKeyIs(MixState(SubShift(box, s)), k);
    AddKeyIs(SubShift(box, s), k);
  }

  lemma {:induction false} RoundsAre(box: SBox, key: seq<bv8>, s: State, i: nat)
    requires KeySize(|key|) && i < |key| / 4 + 7
    ensures StoreState(EncAfter(box, Schedule(box, KeyWords(key)), s, i)) == CipherAfter(box, key, StoreState(s), i)
  {
    hide StoreState, Schedule, KeyWords, EncRound, AddKey, AddRoundKey, MixColumns, ShiftRows, SubBytes, RoundKeyOf;
    KeyLengths(|key|);
    var keys := Schedule(box, KeyWords(key));
    RoundKeyIs(box, key, i);
    if i == 0 {
      AddKeyIs(s, keys[0]);
    } else {
      RoundsAre(box, key, s, i - 1);
      RoundIs(box, EncAfter(box, keys, s, i - 1), keys[i]);
    }
  }

  /** The cipher of aes.c is AES. */
  lemma EncBlockIsCipher(box: SBox, key: seq<bv8>, b: Block)
    requires KeySize(|key|)
    ensures EncBlock(box, Schedule(box, KeyWords(key)), b) == Cipher(box, key, b)
  {
    hide StoreState, LoadState, Schedule, KeyWords, EncAfter, AddKey, SubShift, AddRoundKey, ShiftRows, SubBytes, RoundKeyOf;
    KeyLengths(|key|);
    var keys, s, nr := Schedule(box, KeyWords(key)), LoadState(b), |key| / 4 + 6;
    StoreLoad(b);
    RoundsAre(box, key, s, nr - 1);
    RoundKeyIs(box, key, nr);
    RoundIs(box, EncAfter(box, keys, s, nr - 1), keys[nr]);
  }

  lemma InverseRoundIs(box: SBox, t: State, k: State)
    ensures StoreState(DecRound(box, t, InvMixState(k)))
         == InvMixColumns(AddRoundKey(InvSubBytes(box, InvShiftRows(StoreState(t))), StoreState(k)))
    ensures StoreState(AddKey(InvSubShift(box, t), k)) == AddRoundKey(InvSubBytes(box, InvShiftRows(StoreState(t))), StoreState(k))
  {
    hide StoreState, AddKey, InvMixState, InvSubShift, AddRoundKey, InvMixColumns, InvShiftRows, InvSubBytes;
    var u := InvSubShift(box, t);
    InvSubShiftIs(box, t);
    InvMixStateLinear(u, k);
    AddKeyIs(u, k);
    MixStateIs(AddKey(u, k));
  }

  lemma {:induction false} InverseRoundsAre(box: SBox, key: seq<bv8>, s: State, i: nat)
    requires KeySize(|key|) && i < |key| / 4 + 6
    ensures StoreState(DecAfter(box, InverseKeys(Schedule(box, KeyWords(key))), s, i)) == InvCipherAfter(box, key, StoreState(s), i)
  {
    hide StoreState, Schedule, KeyWords, DecRound, AddKey, AddRoundKey, InvMixColumns, InvShiftRows, InvSubBytes, RoundKeyOf;
    hide InvMixState;
    KeyLengths(|key|);
    var keys := Schedule(box, KeyWords(key));
    RoundKeyIs(box, key, |key| / 4 + 6 - i);
    if i == 0 {
      AddKeyIs(s, keys[|key| / 4 + 6]);
    } else {
      InverseRoundsAre(box, key, s, i - 1);
      InverseRoundIs(box, DecAfter(box, InverseKeys(keys), s, i - 1), keys[|key| / 4 + 6 - i]);
    }
  }

  /** The equivalent inverse cipher of aes.c is the inverse cipher of the standard. */
  lemma DecBlockIsInvCipher(box: SBox, key: seq<bv8>, b: Block)
    requires KeySize(|key|)
    ensures DecBlock(box, InverseKeys(Schedule(box, KeyWords(key))), b) == InvCipher(box, key, b)
  {
    hide StoreState, LoadState, Schedule, KeyWords, DecAfter, AddKey, InvSubShift, AddRoundKey, InvShiftRows, InvSubBytes;
    hide RoundKeyOf, InvMixState;
    KeyLengths(|key|);
    var keys, s, nr := InverseKeys(Schedule(box, KeyWords(key))), LoadState(b), |key| / 4 + 6;
    StoreLoad(b);
    InverseRoundsAre(box, key, s, nr - 1);
    RoundKeyIs(box, key, 0);
    InverseRoundIs(box, DecAfter(box, keys, s, nr - 1), keys[nr]);
  }

  // ---- Chaining ----

  /** The equation of section 6.2 of SP 800-38A for block k. */
  ghost predicate Chained(box: SBox, key: seq<bv8>, iv: Block, p: seq<bv8>, c: seq<bv8>, k: nat)
    requires KeySize(|key|) && 16 * k + 16 <= |p| == |c|
  {
    var previous := if k == 0 then iv else AesCbc.Block(c, k - 1);
    AesCbc.Block(c, k) == Cipher(box, key, AddRoundKey(AesCbc.Block(p, k), previous))
  }

  lemma AddedBytes(a: Block, b: Block)
    ensures AesCbc.XorBytes(b, a) == AddRoundKey(a, b)
  {
    hide Xor8;
    forall i | 0 <= i < 16 ensures Xor8(b[i], a[i]) == a[i] ^ b[i] {
      XorIs(a[i], b[i]);
      XorComm(b[i], a[i]);
    }
  }

  /** The blocks written are those of the standard's chaining around the standard's cipher, and no others are. */
  lemma CbcIsStandard(box: SBox, key: seq<bv8>, iv: Block, p: seq<bv8>, c: seq<bv8>)
    requires KeySize(|key|) && |p| == |c|
    ensures AesCbc.Enciphered(box, Schedule(box, KeyWords(key)), iv, p, c)
       <==> forall k: nat | k < |p| / 16 :: Chained(box, key, iv, p, c, k)
  {
    hide Schedule, KeyWords, Cipher, EncBlock, AddRoundKey, AesCbc.XorBytes;
    KeyLengths(|key|);
    if forall k: nat | k < |p| / 16 :: Chained(box, key, iv, p, c, k) {
      forall k: nat | k < |p| / 16 ensures AesCbc.Block(c, k) == AesCbc.EncAt(box, Schedule(box, KeyWords(key)), iv, p, k) {
        ChainedBlock(box, key, iv, p, c, k);
      }
    }
    if AesCbc.Enciphered(box, Schedule(box, KeyWords(key)), iv, p, c) {
      forall k: nat | k < |p| / 16 ensures Chained(box, key, iv, p, c, k) {
        ChainStep(box, key, iv, p, c, k);
      }
    }
  }

  lemma ChainStep(box: SBox, key: seq<bv8>, iv: Block, p: seq<bv8>, c: seq<bv8>, k: nat)
    requires KeySize(|key|) && 16 * k + 16 <= |p| == |c|
    requires k > 0 ==> AesCbc.Block(c, k - 1) == AesCbc.EncAt(box, Schedule(box, KeyWords(key)), iv, p, k - 1)
    ensures AesCbc.Block(c, k) == AesCbc.EncAt(box, Schedule(box, KeyWords(key)), iv, p, k) <==> Chained(box, key, iv, p, c, k)
  {
    hide Schedule, KeyWords, Cipher, EncBlock, AddRoundKey, AesCbc.XorBytes;
    KeyLengths(|key|);
    var previous: Block := if k == 0 then iv else AesCbc.Block(c, k - 1);
    AddedBytes(AesCbc.Block(p, k), previous);
    EncBlockIsCipher(box, key, AddRoundKey(AesCbc.Block(p, k), previous));
  }

  lemma {:induction false} ChainedBlock(box: SBox, key: seq<bv8>, iv: Block, p: seq<bv8>, c: seq<bv8>, k: nat)
    requires KeySize(|key|) && 16 * k + 16 <= |p| == |c|
    requires forall j: nat | j < |p| / 16 :: Chained(box, key, iv, p, c, j)
    ensures AesCbc.Block(c, k) == AesCbc.EncAt(box, Schedule(box, KeyWords(key)), iv, p, k)
  {
    hide Schedule, KeyWords, Cipher, EncBlock, AddRoundKey, AesCbc.XorBytes, Chained;
    if k > 0 {
      ChainedBlock(box, key, iv, p, c, k - 1);
    }
    ChainStep(box, key, iv, p, c, k);
  }

  /** Likewise for decryption. */
  lemma InverseCbcIsStandard(box: SBox, key: seq<bv8>, iv: Block, c: seq<bv8>, p: seq<bv8>)
    requires KeySize(|key|) && |p| == |c|
    ensures AesCbc.Deciphered(box, InverseKeys(Schedule(box, KeyWords(key))), iv, c, p)
       <==> forall k: nat | k < |c| / 16 ::
              AesCbc.Block(p, k)
              == AddRoundKey(if k == 0 then iv else AesCbc.Block(c, k - 1), InvCipher(box, key, AesCbc.Block(c, k)))
  {
    hide Schedule, KeyWords, InverseKeys, InvCipher, DecBlock, AddRoundKey, AesCbc.XorBytes;
    KeyLengths(|key|);
    forall k: nat | k < |c| / 16
      ensures AesCbc.DecAt(box, InverseKeys(Schedule(box, KeyWords(key))), iv, c, k)
           == AddRoundKey(if k == 0 then iv else AesCbc.Block(c, k - 1), InvCipher(box, key, AesCbc.Block(c, k)))
    {
      DecBlockIsInvCipher(box, key, AesCbc.Block(c, k));
      AddedBytes(if k == 0 then iv else AesCbc.Block(c, k - 1), InvCipher(box, key, AesCbc.Block(c, k)));
    }
  }
}
