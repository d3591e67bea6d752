/** The key schedules of aes.c: expansion (section 5.2 of FIPS 197) and its inversion in place. */
module AesKeys {
  import opened Arith
  import opened AesField
  import opened AesRounds

  // ---- Key expansion as the standard states it ----

  const RCON: seq<bv8> := [0x01, 0x02, 0x04, 0x08, 0x10, 0x20, 0x40, 0x80, 0x1B, 0x36]

  function Rcon(j: nat): Word {
    Word(if j < 10 then RCON[j] else 0, 0, 0, 0)
  }

  /** SubWord of RotWord. */
  function SubRot(box: SBox, t: Word): Word {
    SubWord(box, t.b2, t.b1, t.b0, t.b3)
  }

  function Sub(box: SBox, t: Word): Word {
    SubWord(box, t.b3, t.b2, t.b1, t.b0)
  }

  /** Word i of the schedule for a key of nk words. */
  function KeyWord(box: SBox, user: seq<Word>, i: nat): Word
    requires |user| >= 4
  {
    var nk := |user|;
    if i < nk then user[i]
    else
      var t := KeyWord(box, user, i - 1);
      XorW(KeyWord(box, user, i - nk),
           if i % nk == 0 then XorW(SubRot(box, t), Rcon(i / nk - 1))
           else if nk > 6 && i % nk == 4 then Sub(box, t)
           else t)
  }

  /** The first `n` words of the array are those of the schedule. */
  ghost predicate Expanded(key: array<Word>, box: SBox, user: seq<Word>, n: nat)
    reads key
  {
    |user| >= 4 && n <= key.Length && forall i | 0 <= i < n :: key[i] == KeyWord(box, user, i)
  }

  lemma PlainNext(box: SBox, user: seq<Word>, i: nat)
    requires |user| >= 4 && i >= |user| && i % |user| != 0 && (|user| > 6 ==> i % |user| != 4)
    ensures KeyWord(box, user, i) == XorW(KeyWord(box, user, i - |user|), KeyWord(box, user, i - 1))
  {
  }

  lemma RotatedNext(box: SBox, user: seq<Word>, i: nat)
    requires |user| >= 4 && i >= |user| && i % |user| == 0
    ensures KeyWord(box, user, i)
         == XorW(XorW(KeyWord(box, user, i - |user|), SubRot(box, KeyWord(box, user, i - 1))), Rcon(i / |user| - 1))
  {
    var t := KeyWord(box, user, i - 1);
    XorWAssoc(KeyWord(box, user, i - |user|), SubRot(box, t), Rcon(i / |user| - 1));
    hide XorW, SubRot, Rcon;
  }

  lemma SubstitutedNext(box: SBox, user: seq<Word>, i: nat)
    requires |user| == 8 && i >= 8 && i % 8 == 4
    ensures KeyWord(box, user, i) == XorW(KeyWord(box, user, i - 8), Sub(box, KeyWord(box, user, i - 1)))
  {
  }

  // ---- The loops ----

  /** rk[at] = rk[at - nk] ^ rk[at - 1]. */
  method NextPlain(key: array<Word>, at: nat, nk: nat, ghost box: SBox, ghost user: seq<Word>)
    requires nk == |user| && Expanded(key, box, user, at) && nk <= at < key.Length
    requires at % nk != 0 && (nk > 6 ==> at % nk != 4)
    modifies key
    ensures Expanded(key, box, user, at + 1)
  {
    hide KeyWord, XorW;
    PlainNext(box, user, at);
    key[at] := XorW(key[at - nk], key[at - 1]);
  }

  /** The first word of a group: rotated, substituted, and a round constant added. */
  method NextRotated(key: array<Word>, at: nat, nk: nat, i: nat, box: SBox, ghost user: seq<Word>)
    requires nk == |user| && Expanded(key, box, user, at) && nk <= at < key.Length && at == nk * (i + 1)
    modifies key
    ensures Expanded(key, box, user, at + 1)
  {
    hide KeyWord, XorW;
    GroupStart(at, nk, i);
    RotatedNext(box, user, at);
    var temp := key[at - 1];
    key[at] := XorW(XorW(key[at - nk], SubRot(box, temp)), Rcon(i));
  }

  lemma GroupStart(at: nat, nk: nat, i: nat)
    requires nk > 0 && at == nk * (i + 1)
    ensures at % nk == 0 && at / nk - 1 == i
  {
    DivOfSum(at, i + 1, 0, nk);
  }

  /** The middle of a group of eight: substituted only. */
  method NextSubstituted(key: array<Word>, at: nat, box: SBox, ghost user: seq<Word>)
    requires 8 == |user| && Expanded(key, box, user, at) && 8 <= at < key.Length && at % 8 == 4
    modifies key
    ensures Expanded(key, box, user, at + 1)
  {
    hide KeyWord, XorW;
    SubstitutedNext(box, user, at);
    var temp := key[at - 1];
    key[at] := XorW(key[at - 8], Sub(box, temp));
  }

  method Expand16(key: array<Word>, box: SBox, ghost user: seq<Word>)
    requires |user| == 4 && key.Length == 60 && Expanded(key, box, user, 4)
    modifies key
    ensures Expanded(key, box, user, 44)
  {
    var i, rk := 0, 0;
    while true
      invariant 0 <= i < 10 && rk == 4 * i && Expanded(key, box, user, rk + 4)
      decreases 10 - i
    {
      NextRotated(key, rk + 4, 4, i, box, user);
      NextPlain(key, rk + 5, 4, box, user);
      NextPlain(key, rk + 6, 4, box, user);
      NextPlain(key, rk + 7, 4, box, user);
      i := i + 1;
      if i == 10 {
        break;
      }
      rk := rk + 4;
    }
  }

  method Expand24(key: array<Word>, box: SBox, ghost user: seq<Word>)
    requires |user| == 6 && key.Length == 60 && Expanded(key, box, user, 6)
    modifies key
    ensures Expanded(key, box, user, 52)
  {
    var i, rk := 0, 0;
    while true
      invariant 0 <= i < 8 && rk == 6 * i && Expanded(key, box, user, rk + 6)
      decreases 8 - i
    {
      NextRotated(key, rk + 6, 6, i, box, user);
      NextPlain(key, rk + 7, 6, box, user);
      NextPlain(key, rk + 8, 6, box, user);
      NextPlain(key, rk + 9, 6, box, user);
      i := i + 1;
      if i == 8 {
        break;
      }
      NextPlain(key, rk + 10, 6, box, user);
      NextPlain(key, rk + 11, 6, box, user);
      rk := rk + 6;
    }
  }

  method Expand32(key: array<Word>, box: SBox, ghost user: seq<Word>)
    requires |user| == 8 && key.Length == 60 && Expanded(key, box, user, 8)
    modifies key
    ensures Expanded(key, box, user, 60)
  {
    var i, rk := 0, 0;
    while true
      invariant 0 <= i < 7 && rk == 8 * i && Expanded(key, box, user, rk + 8)
      decreases 7 - i
    {
      NextRotated(key, rk + 8, 8, i, box, user);
      NextPlain(key, rk + 9, 8, box, user);
      NextPlain(key, rk + 10, 8, box, user);
      NextPlain(key, rk + 11, 8, box, user);
      i := i + 1;
      if i == 7 {
        break;
      }
      NextSubstituted(key, rk + 12, box, user);
      NextPlain(key, rk + 13, 8, box, user);
      NextPlain(key, rk + 14, 8, box, user);
      NextPlain(key, rk + 15, 8, box, user);
      rk := rk + 8;
    }
  }

  // ---- Round keys ----

  /** Round key g of an array of words. */
  function RoundKey(words: seq<Word>, g: nat): State
    requires 4 * g + 4 <= |words|
  {
    State(words[4 * g], words[4 * g + 1], words[4 * g + 2], words[4 * g + 3])
  }

  function RoundKeys(words: seq<Word>, rounds: nat): (keys: seq<State>)
    requires 4 * rounds + 4 <= |words|
    ensures |keys| == rounds + 1
  {
    seq(rounds + 1, g requires 0 <= g < rounds + 1 => RoundKey(words, g))
  }

  /** The schedule of a key: 10, 12 or 14 rounds. */
  function Schedule(box: SBox, user: seq<Word>): (keys: seq<State>)
    requires |user| == 4 || |user| == 6 || |user| == 8
    ensures |keys| == |user| + 7
  {
    RoundKeys(seq(4 * (|user| + 7), i requires 0 <= i < 4 * (|user| + 7) => KeyWord(box, user, i)), |user| + 6)
  }

  // ---- The inverse schedule, in place ----

  method WriteRoundKey(key: array<Word>, i: nat, s: State)
    requires 4 * i + 4 <= key.Length
    modifies key
    ensures RoundKey(key[..], i) == s
    ensures forall g: nat | 4 * g + 4 <= key.Length && g != i :: RoundKey(key[..], g) == old(RoundKey(key[..], g))
  {
    key[4 * i] := s.w0;
    key[4 * i + 1] := s.w1;
    key[4 * i + 2] := s.w2;
    key[4 * i + 3] := s.w3;
  }

  /** Round keys i and j change places. */
  predicate Swapped(was: seq<Word>, now: seq<Word>, i: nat, j: nat) {
    && |was| == |now| && 4 * i + 4 <= |was| && 4 * j + 4 <= |was|
    && RoundKey(now, i) == RoundKey(was, j) && RoundKey(now, j) == RoundKey(was, i)
    && forall g: nat | g < |was| / 4 && g != i && g != j :: RoundKey(now, g) == RoundKey(was, g)
  }

  /** The four word swaps of one step. */
  method SwapRoundKeys(key: array<Word>, i: nat, j: nat)
    requires i < j && 4 * j + 4 <= key.Length
    modifies key
    ensures Swapped(old(key[..]), key[..], i, j)
  {
    var temp := RoundKey(key[..], i);
    var other := RoundKey(key[..], j);
    hide RoundKey;
    WriteRoundKey(key, i, other);
    WriteRoundKey(key, j, temp);
  }

  /** The round keys outside [i, j] stand in inverted order, the others as they were. */
  predicate Mirrored(was: seq<Word>, now: seq<Word>, rounds: nat, i: int, j: int) {
    && |was| == |now| && 4 * rounds + 4 <= |was|
    && forall g: nat | g <= rounds :: RoundKey(now, g) == RoundKey(was, if g < i || g > j then rounds - g else g)
  }

  lemma MirroredNext(was: seq<Word>, before: seq<Word>, now: seq<Word>, rounds: nat, i: nat, j: nat)
    requires i < j && i + j == rounds && Mirrored(was, before, rounds, i, j) && Swapped(before, now, i, j)
    ensures Mirrored(was, now, rounds, i + 1, j - 1)
  {
    hide RoundKey;
    forall g: nat | g <= rounds
      ensures RoundKey(now, g) == RoundKey(was, if g < i + 1 || g > j - 1 then rounds - g else g)
    {
      assert RoundKey(before, g) == RoundKey(was, if g < i || g > j then rounds - g else g);
    }
  }

  /** The order of the round keys inverted. */
  method ReverseRoundKeys(key: array<Word>, rounds: nat)
    requires 4 * rounds + 4 <= key.Length
    modifies key
    ensures Mirrored(old(key[..]), key[..], rounds, rounds, 0)
  {
    ghost var was := key[..];
    assert Mirrored(was, was, rounds, 0, rounds);
    hide *;
    var i, j := 0, rounds;
    while i < j
      invariant 0 <= i <= j + 1 && i + j == rounds && Mirrored(was, key[..], rounds, i, j)
    {
      ghost var before := key[..];
      SwapRoundKeys(key, i, j);
      MirroredNext(was, before, key[..], rounds, i, j);
      i, j := i + 1, j - 1;
    }
    AllMirrored(was, key[..], rounds, i, j);
  }

  lemma AllMirrored(was: seq<Word>, now: seq<Word>, rounds: nat, i: int, j: int)
    requires j <= i <= j + 1 && i + j == rounds && Mirrored(was, now, rounds, i, j)
    ensures Mirrored(was, now, rounds, rounds, 0)
  {
    hide RoundKey;
    forall g: nat | g <= rounds ensures RoundKey(now, g) == RoundKey(was, if g < rounds || g > 0 then rounds - g else g) {
      assert RoundKey(now, g) == RoundKey(was, if g < i || g > j then rounds - g else g);
    }
  }

  /** A word of a round key through the tables: Te[4] substitutes and Td[..] substitutes back and multiplies. */
  function KeyColumn(box: SBox, w: Word): Word {
    XorW(XorW(XorW(Inv3(box.si(box.s(w.b3))), Inv2(box.si(box.s(w.b2)))), Inv1(box.si(box.s(w.b1)))), Inv0(box.si(box.s(w.b0))))
  }

  lemma KeyColumnIs(box: SBox, w: Word)
    requires box.Good()
    ensures KeyColumn(box, w) == InvMix(w)
  {
    assert box.Undone(w.b3) && box.Undone(w.b2) && box.Undone(w.b1) && box.Undone(w.b0);
    hide XorW, Inv3, Inv2, Inv1, Inv0;
    XorWAssoc(XorW(Inv3(w.b3), Inv2(w.b2)), Inv1(w.b1), Inv0(w.b0));
  }

  /** The inverse MixColumns transform applied to all round keys but the first and the last. */
  method TransformRoundKeys(key: array<Word>, rounds: nat, box: SBox)
    requires 4 * rounds + 4 <= key.Length && box.Good()
    modifies key
    ensures forall g: nat | g <= rounds ::
      RoundKey(key[..], g) == if 0 < g < rounds then old(InvMixState(RoundKey(key[..], g))) else old(RoundKey(key[..], g))
  {
    hide RoundKey, InvMixState;
    var i := 1;
    while i < rounds
      invariant 1 <= i && (rounds > 0 ==> i <= rounds)
      invariant forall g: nat | g <= rounds ::
        RoundKey(key[..], g) == if 0 < g < i then old(InvMixState(RoundKey(key[..], g))) else old(RoundKey(key[..], g))
    {
      TransformRoundKey(key, i, box);
      i := i + 1;
    }
  }

  method TransformRoundKey(key: array<Word>, i: nat, box: SBox)
    requires 4 * i + 4 <= key.Length && box.Good()
    modifies key
    ensures RoundKey(key[..], i) == InvMixState(old(RoundKey(key[..], i)))
    ensures forall g: nat | 4 * g + 4 <= key.Length && g != i :: RoundKey(key[..], g) == old(RoundKey(key[..], g))
  {
    hide KeyColumn, InvMix;
    var rk := 4 * i;
    KeyColumnIs(box, key[rk]);
    KeyColumnIs(box, key[rk + 1]);
    KeyColumnIs(box, key[rk + 2]);
    KeyColumnIs(box, key[rk + 3]);
    key[rk] := KeyColumn(box, key[rk]);
    key[rk + 1] := KeyColumn(box, key[rk + 1]);
    key[rk + 2] := KeyColumn(box, key[rk + 2]);
    key[rk + 3] := KeyColumn(box, key[rk + 3]);
  }

  /** Both steps turn the schedule into that of the equivalent inverse cipher. */
  method InvertSchedule(key: array<Word>, rounds: nat, box: SBox)
    requires 4 * rounds + 4 <= key.Length && rounds > 0 && box.Good()
    modifies key
    ensures RoundKeys(key[..], rounds) == InverseKeys(old(RoundKeys(key[..], rounds)))
  {
    hide RoundKey, InvMixState;
    ghost var was := key[..];
    ReverseRoundKeys(key, rounds);
    assert forall g: nat | g <= rounds :: RoundKey(key[..], g) == RoundKey(was, rounds - g);
    TransformRoundKeys(key, rounds, box);
  }
}
