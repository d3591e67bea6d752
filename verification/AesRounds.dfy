/** The rounds of AES, and that the equivalent inverse cipher undoes the cipher (section 5.3.5 of FIPS 197). */
module AesRounds {
  import opened AesField

  /** The S-box and its inverse, which the tables of aes.c hold. */
  datatype SBox = SBox(s: bv8 -> bv8, si: bv8 -> bv8) {
    ghost predicate Good() {
      forall x :: Undone(x)
    }

    predicate Undone(x: bv8) {
      si(s(x)) == x
    }
  }

  datatype State = State(w0: Word, w1: Word, w2: Word, w3: Word)

  function AddKey(s: State, k: State): State {
    State(XorW(s.w0, k.w0), XorW(s.w1, k.w1), XorW(s.w2, k.w2), XorW(s.w3, k.w3))
  }

  function SubWord(box: SBox, a: bv8, b: bv8, c: bv8, d: bv8): Word {
    Word(box.s(a), box.s(b), box.s(c), box.s(d))
  }

  function InvSubWord(box: SBox, a: bv8, b: bv8, c: bv8, d: bv8): Word {
    Word(box.si(a), box.si(b), box.si(c), box.si(d))
  }

  /** SubBytes and ShiftRows. */
  function SubShift(box: SBox, s: State): State {
    State(SubWord(box, s.w0.b3, s.w1.b2, s.w2.b1, s.w3.b0), SubWord(box, s.w1.b3, s.w2.b2, s.w3.b1, s.w0.b0),
          SubWord(box, s.w2.b3, s.w3.b2, s.w0.b1, s.w1.b0), SubWord(box, s.w3.b3, s.w0.b2, s.w1.b1, s.w2.b0))
  }

  /** InvSubBytes and InvShiftRows. */
  function InvSubShift(box: SBox, t: State): State {
    State(InvSubWord(box, t.w0.b3, t.w3.b2, t.w2.b1, t.w1.b0), InvSubWord(box, t.w1.b3, t.w0.b2, t.w3.b1, t.w2.b0),
          InvSubWord(box, t.w2.b3, t.w1.b2, t.w0.b1, t.w3.b0), InvSubWord(box, t.w3.b3, t.w2.b2, t.w1.b1, t.w0.b0))
  }

  function MixState(s: State): State {
    State(Mix(s.w0), Mix(s.w1), Mix(s.w2), Mix(s.w3))
  }

  function InvMixState(s: State): State {
    State(InvMix(s.w0), InvMix(s.w1), InvMix(s.w2), InvMix(s.w3))
  }

  function EncRound(box: SBox, s: State, k: State): State {
    AddKey(MixState(SubShift(box, s)), k)
  }

  function DecRound(box: SBox, t: State, k: State): State {
    AddKey(InvMixState(InvSubShift(box, t)), k)
  }

  // ---- The cipher and the equivalent inverse cipher ----

  /** The state after `i` full rounds. */
  function EncAfter(box: SBox, keys: seq<State>, s: State, i: nat): State
    requires i < |keys|
  {
    if i == 0 then AddKey(s, keys[0]) else EncRound(box, EncAfter(box, keys, s, i - 1), keys[i])
  }

  /** Section 5.1: |keys| - 2 full rounds and a last one without MixColumns. */
  function Encrypt(box: SBox, keys: seq<State>, s: State): State
    requires |keys| >= 2
  {
    var n := |keys| - 1;
    AddKey(SubShift(box, EncAfter(box, keys, s, n - 1)), keys[n])
  }

  function DecAfter(box: SBox, keys: seq<State>, s: State, i: nat): State
    requires i < |keys|
  {
    if i == 0 then AddKey(s, keys[0]) else DecRound(box, DecAfter(box, keys, s, i - 1), keys[i])
  }

  function Decrypt(box: SBox, keys: seq<State>, s: State): State
    requires |keys| >= 2
  {
    var n := |keys| - 1;
    AddKey(InvSubShift(box, DecAfter(box, keys, s, n - 1)), keys[n])
  }

  /** The round keys reversed, and all but the outer two transformed by InvMixColumns. */
  function InverseKeys(keys: seq<State>): (r: seq<State>)
    requires |keys| >= 2
    ensures |r| == |keys|
  {
    var n := |keys| - 1;
    seq(|keys|, i requires 0 <= i < |keys| => if i == 0 || i == n then keys[n - i] else InvMixState(keys[n - i]))
  }

  // ---- The inverse undoes the cipher ----

  lemma SubShiftUndone(box: SBox, s: State)
    requires box.Good()
    ensures InvSubShift(box, SubShift(box, s)) == s
  {
    assert box.Undone(s.w0.b3) && box.Undone(s.w0.b2) && box.Undone(s.w0.b1) && box.Undone(s.w0.b0);
    assert box.Undone(s.w1.b3) && box.Undone(s.w1.b2) && box.Undone(s.w1.b1) && box.Undone(s.w1.b0);
    assert box.Undone(s.w2.b3) && box.Undone(s.w2.b2) && box.Undone(s.w2.b1) && box.Undone(s.w2.b0);
    assert box.Undone(s.w3.b3) && box.Undone(s.w3.b2) && box.Undone(s.w3.b1) && box.Undone(s.w3.b0);
  }

  lemma AddKeyTwice(s: State, k: State)
    ensures AddKey(AddKey(s, k), k) == s
  {
    hide XorW;
    XorWTwice(s.w0, k.w0);
    XorWTwice(s.w1, k.w1);
    XorWTwice(s.w2, k.w2);
    XorWTwice(s.w3, k.w3);
  }

  lemma InvMixStateLinear(s: State, k: State)
    ensures InvMixState(AddKey(s, k)) == AddKey(InvMixState(s), InvMixState(k))
  {
    hide XorW, InvMix;
    InvMixLinear(s.w0, k.w0);
    InvMixLinear(s.w1, k.w1);
    InvMixLinear(s.w2, k.w2);
    InvMixLinear(s.w3, k.w3);
  }

  lemma InvMixStateUndoes(s: State)
    ensures InvMixState(MixState(s)) == s
  {
    hide InvMix, Mix;
    InvMixUndoes(s.w0);
    InvMixUndoes(s.w1);
    InvMixUndoes(s.w2);
    InvMixUndoes(s.w3);
  }

  /** One inverse round with the transformed key leads from one round's SubBytes to the previous round's. */
  lemma RoundUndone(box: SBox, s: State, k: State)
    requires box.Good()
    ensures DecRound(box, SubShift(box, EncRound(box, s, k)), InvMixState(k)) == SubShift(box, s)
  {
    hide AddKey, MixState, SubShift, InvMixState, InvSubShift;
    var m := MixState(SubShift(box, s));
    SubShiftUndone(box, AddKey(m, k));
    InvMixStateLinear(m, k);
    AddKeyTwice(InvMixState(m), InvMixState(k));
    InvMixStateUndoes(SubShift(box, s));
  }

  /** After i inverse rounds the state is that before the last i + 1 rounds, substituted and shifted. */
  lemma {:induction false} DecMirrorsEnc(box: SBox, keys: seq<State>, s: State, i: nat)
    requires box.Good() && |keys| >= 2 && i < |keys| - 1
    ensures DecAfter(box, InverseKeys(keys), Encrypt(box, keys, s), i)
         == SubShift(box, EncAfter(box, keys, s, |keys| - 2 - i))
  {
    hide AddKey, SubShift, EncRound, DecRound, InvMixState;
    var n := |keys| - 1;
    if i == 0 {
      AddKeyTwice(SubShift(box, EncAfter(box, keys, s, n - 1)), keys[n]);
    } else {
      DecMirrorsEnc(box, keys, s, i - 1);
      RoundUndone(box, EncAfter(box, keys, s, n - 1 - i), keys[n - i]);
    }
  }

  /** Decryption with the inverse schedule undoes encryption, for every block and any round keys. */
  lemma DecryptUndoes(box: SBox, keys: seq<State>, s: State)
    requires box.Good() && |keys| >= 2
    ensures Decrypt(box, InverseKeys(keys), Encrypt(box, keys, s)) == s
  {
    hide AddKey, SubShift, EncRound, DecRound, InvMixState, Encrypt, InvSubShift;
    var n := |keys| - 1;
    DecMirrorsEnc(box, keys, s, n - 1);
    SubShiftUndone(box, EncAfter(box, keys, s, 0));
    AddKeyTwice(s, keys[0]);
  }
}
