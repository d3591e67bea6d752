/** The Aes structure of aes.c: key schedules, block cipher, and cipher block chaining. */
module AesCipher {
  import opened AesField
  import opened AesRounds
  import opened AesKeys

  const BAD_FUNC_ARG := -173
  const AES_ENCRYPTION := 0
  const AES_DECRYPTION := 1

  // ---- Bytes and states ----

  function LoadWord(s: seq<bv8>, i: nat): Word
    requires i + 4 <= |s|
  {
    Word(s[i], s[i + 1], s[i + 2], s[i + 3])
  }

  function LoadState(s: seq<bv8>): State
    requires |s| == 16
  {
    State(LoadWord(s, 0), LoadWord(s, 4), LoadWord(s, 8), LoadWord(s, 12))
  }

  function StoreWord(w: Word): (r: seq<bv8>)
    ensures |r| == 4
  {
    [w.b3, w.b2, w.b1, w.b0]
  }

  function StoreState(s: State): (r: seq<bv8>)
    ensures |r| == 16
  {
    StoreWord(s.w0) + StoreWord(s.w1) + StoreWord(s.w2) + StoreWord(s.w3)
  }

  lemma LoadStore(s: State)
    ensures LoadState(StoreState(s)) == s
  {
  }

  lemma StoreLoad(b: seq<bv8>)
    requires |b| == 16
    ensures StoreState(LoadState(b)) == b
  {
  }

  function KeyWords(userKey: seq<bv8>): (ws: seq<Word>)
    ensures |ws| == |userKey| / 4
  {
    seq(|userKey| / 4, i requires 0 <= i < |userKey| / 4 => LoadWord(userKey, 4 * i))
  }

  predicate KeySize(n: nat) {
    n == 16 || n == 24 || n == 32
  }

  // ---- Table look-ups ----

  /** A full round of the cipher for one column, through the tables Te[0] to Te[3]. */
  function EncColumn(box: SBox, a: Word, b: Word, c: Word, d: Word, k: Word): Word {
    XorW(XorW(XorW(XorW(Mix3(box.s(a.b3)), Mix2(box.s(b.b2))), Mix1(box.s(c.b1))), Mix0(box.s(d.b0))), k)
  }

  function DecColumn(box: SBox, a: Word, b: Word, c: Word, d: Word, k: Word): Word {
    XorW(XorW(XorW(XorW(Inv3(box.si(a.b3)), Inv2(box.si(b.b2))), Inv1(box.si(c.b1))), Inv0(box.si(d.b0))), k)
  }

  /** The last round of one column, through the masked table Te[4]. */
  function EncLast(box: SBox, a: Word, b: Word, c: Word, d: Word, k: Word): Word {
    XorW(XorW(XorW(XorW(Word(box.s(a.b3), 0, 0, 0), Word(0, box.s(b.b2), 0, 0)),
                   Word(0, 0, box.s(c.b1), 0)), Word(0, 0, 0, box.s(d.b0))), k)
  }

  function DecLast(box: SBox, a: Word, b: Word, c: Word, d: Word, k: Word): Word {
    XorW(XorW(XorW(XorW(Word(box.si(a.b3), 0, 0, 0), Word(0, box.si(b.b2), 0, 0)),
                   Word(0, 0, box.si(c.b1), 0)), Word(0, 0, 0, box.si(d.b0))), k)
  }

  lemma EncColumnIs(box: SBox, a: Word, b: Word, c: Word, d: Word, k: Word)
    ensures EncColumn(box, a, b, c, d, k) == XorW(Mix(SubWord(box, a.b3, b.b2, c.b1, d.b0)), k)
  {
    hide XorW, Mix3, Mix2, Mix1, Mix0;
    XorWAssoc(XorW(Mix3(box.s(a.b3)), Mix2(box.s(b.b2))), Mix1(box.s(c.b1)), Mix0(box.s(d.b0)));
  }

  lemma DecColumnIs(box: SBox, a: Word, b: Word, c: Word, d: Word, k: Word)
    ensures DecColumn(box, a, b, c, d, k) == XorW(InvMix(InvSubWord(box, a.b3, b.b2, c.b1, d.b0)), k)
  {
    hide XorW, Inv3, Inv2, Inv1, Inv0;
    XorWAssoc(XorW(Inv3(box.si(a.b3)), Inv2(box.si(b.b2))), Inv1(box.si(c.b1)), Inv0(box.si(d.b0)));
  }

  lemma LastIs(b3: bv8, b2: bv8, b1: bv8, b0: bv8, k: Word)
    ensures XorW(XorW(XorW(XorW(Word(b3, 0, 0, 0), Word(0, b2, 0, 0)), Word(0, 0, b1, 0)), Word(0, 0, 0, b0)), k)
         == XorW(Word(b3, b2, b1, b0), k)
  {
    hide XorW;
    XorWAssoc(XorW(Word(b3, 0, 0, 0), Word(0, b2, 0, 0)), Word(0, 0, b1, 0), Word(0, 0, 0, b0));
    FourBytes(Word(b3, b2, b1, b0));
  }

  /** The four columns of a round are EncRound. */
  lemma EncColumnsAreRound(box: SBox, s: State, k: State)
    ensures State(EncColumn(box, s.w0, s.w1, s.w2, s.w3, k.w0), EncColumn(box, s.w1, s.w2, s.w3, s.w0, k.w1),
                  EncColumn(box, s.w2, s.w3, s.w0, s.w1, k.w2), EncColumn(box, s.w3, s.w0, s.w1, s.w2, k.w3))
         == EncRound(box, s, k)
  {
    hide XorW, Mix, EncColumn;
    EncColumnIs(box, s.w0, s.w1, s.w2, s.w3, k.w0);
    EncColumnIs(box, s.w1, s.w2, s.w3, s.w0, k.w1);
    EncColumnIs(box, s.w2, s.w3, s.w0, s.w1, k.w2);
    EncColumnIs(box, s.w3, s.w0, s.w1, s.w2, k.w3);
  }

  lemma DecColumnsAreRound(box: SBox, t: State, k: State)
    ensures State(DecColumn(box, t.w0, t.w3, t.w2, t.w1, k.w0), DecColumn(box, t.w1, t.w0, t.w3, t.w2, k.w1),
                  DecColumn(box, t.w2, t.w1, t.w0, t.w3, k.w2), DecColumn(box, t.w3, t.w2, t.w1, t.w0, k.w3))
         == DecRound(box, t, k)
  {
    hide XorW, InvMix, DecColumn;
    DecColumnIs(box, t.w0, t.w3, t.w2, t.w1, k.w0);
    DecColumnIs(box, t.w1, t.w0, t.w3, t.w2, k.w1);
    DecColumnIs(box, t.w2, t.w1, t.w0, t.w3, k.w2);
    DecColumnIs(box, t.w3, t.w2, t.w1, t.w0, k.w3);
  }

  lemma EncLastIs(box: SBox, s: State, k: State)
    ensures State(EncLast(box, s.w0, s.w1, s.w2, s.w3, k.w0), EncLast(box, s.w1, s.w2, s.w3, s.w0, k.w1),
                  EncLast(box, s.w2, s.w3, s.w0, s.w1, k.w2), EncLast(box, s.w3, s.w0, s.w1, s.w2, k.w3))
         == AddKey(SubShift(box, s), k)
  {
    hide XorW;
    LastIs(box.s(s.w0.b3), box.s(s.w1.b2), box.s(s.w2.b1), box.s(s.w3.b0), k.w0);
    LastIs(box.s(s.w1.b3), box.s(s.w2.b2), box.s(s.w3.b1), box.s(s.w0.b0), k.w1);
    LastIs(box.s(s.w2.b3), box.s(s.w3.b2), box.s(s.w0.b1), box.s(s.w1.b0), k.w2);
    LastIs(box.s(s.w3.b3), box.s(s.w0.b2), box.s(s.w1.b1), box.s(s.w2.b0), k.w3);
  }

  lemma DecLastIs(box: SBox, t: State, k: State)
    ensures State(DecLast(box, t.w0, t.w3, t.w2, t.w1, k.w0), DecLast(box, t.w1, t.w0, t.w3, t.w2, k.w1),
                  DecLast(box, t.w2, t.w1, t.w0, t.w3, k.w2), DecLast(box, t.w3, t.w2, t.w1, t.w0, k.w3))
         == AddKey(InvSubShift(box, t), k)
  {
    hide XorW;
    LastIs(box.si(t.w0.b3), box.si(t.w3.b2), box.si(t.w2.b1), box.si(t.w1.b0), k.w0);
    LastIs(box.si(t.w1.b3), box.si(t.w0.b2), box.si(t.w3.b1), box.si(t.w2.b0), k.w1);
    LastIs(box.si(t.w2.b3), box.si(t.w1.b2), box.si(t.w0.b1), box.si(t.w3.b0), k.w2);
    LastIs(box.si(t.w3.b3), box.si(t.w2.b2), box.si(t.w1.b1), box.si(t.w0.b0), k.w3);
  }

  /** Blocks as byte sequences. */
  function EncBlock(box: SBox, keys: seq<State>, b: seq<bv8>): (r: seq<bv8>)
    requires |keys| >= 2 && |b| == 16
    ensures |r| == 16
  {
    StoreState(Encrypt(box, keys, LoadState(b)))
  }

  function DecBlock(box: SBox, keys: seq<State>, b: seq<bv8>): (r: seq<bv8>)
    requires |keys| >= 2 && |b| == 16
    ensures |r| == 16
  {
    StoreState(Decrypt(box, keys, LoadState(b)))
  }

  lemma DecBlockUndoes(box: SBox, keys: seq<State>, b: seq<bv8>)
    requires box.Good() && |keys| >= 2 && |b| == 16
    ensures DecBlock(box, InverseKeys(keys), EncBlock(box, keys, b)) == b
  {
    hide Encrypt, Decrypt, LoadState, StoreState;
    LoadStore(Encrypt(box, keys, LoadState(b)));
    DecryptUndoes(box, keys, LoadState(b));
    StoreLoad(b);
  }

  // ---- The structure ----

  class Aes {
    const box: SBox
    const key: array<Word>
    var rounds: nat
    const reg: array<bv8>
    const tmp: array<bv8>

    ghost predicate Valid()
      reads this
    {
      && key.Length == 60 && reg.Length == 16 && tmp.Length == 16 && reg != tmp && box.Good()
      && Apart(reg) && Apart(tmp)
    }

    /** A buffer is not the key schedule. */
    ghost predicate Apart(a: array<bv8>) {
      var o: object := a;
      o != key
    }

    /** A schedule of 10, 12 or 14 rounds is in place. */
    ghost predicate Keyed(keys: seq<State>)
      reads this, key
    {
      && Valid() && (rounds == 10 || rounds == 12 || rounds == 14) && keys == RoundKeys(key[..], rounds)
    }

    constructor (box: SBox)
      requires box.Good()
      ensures Valid() && this.box == box && fresh(key) && fresh(reg) && fresh(tmp)
    {
      this.box := box;
      key := new Word[60](_ => ZERO);
      reg := new bv8[16](_ => 0);
      tmp := new bv8[16](_ => 0);
      rounds := 0;
    }

    method SetIV(iv: array?<bv8>)
      requires Valid() && iv != reg && (iv != null ==> iv.Length >= 16)
      modifies reg
      ensures reg[..] == if iv == null then old(reg[..]) else iv[..16]
    {
      if iv != null {
        forall k | 0 <= k < 16 {
          reg[k] := iv[k];
        }
        assert reg[..] == iv[..16];
      }
    }

    /** AesSetKey: the schedule for the direction. */
    method SetKey(userKey: seq<bv8>, keylen: nat, iv: array?<bv8>, dir: int) returns (code: int)
      requires Valid() && keylen <= |userKey| && iv != reg && (iv != null ==> iv.Length >= 16)
      modifies this`rounds, key, reg
      ensures code == if KeySize(keylen) then 0 else BAD_FUNC_ARG
      ensures code == 0 ==>
        && Keyed(if dir == AES_DECRYPTION then InverseKeys(Schedule(box, KeyWords(userKey[..keylen])))
                 else Schedule(box, KeyWords(userKey[..keylen])))
        && reg[..] == if iv == null then old(reg[..]) else iv[..16]
      ensures code != 0 ==> rounds == old(rounds) && key[..] == old(key[..]) && reg[..] == old(reg[..])
    {
      hide KeyWord, InverseKeys, RoundKey;
      if !KeySize(keylen) {
        return BAD_FUNC_ARG;
      }
      ghost var user := KeyWords(userKey[..keylen]);
      rounds := keylen / 4 + 6;
      LoadKey(userKey, keylen);
      if keylen == 16 {
        Expand16(key, box, user);
      } else if keylen == 24 {
        Expand24(key, box, user);
      } else {
        Expand32(key, box, user);
      }
      ScheduleReady(key[..], box, user);
      if dir == AES_DECRYPTION {
        InvertSchedule(key, rounds, box);
      }
      SetIV(iv);
      return 0;
    }

    /** The user key copied and its words' bytes reversed. */
    method LoadKey(userKey: seq<bv8>, keylen: nat)
      requires Valid() && KeySize(keylen) && keylen <= |userKey|
      modifies key
      ensures Expanded(key, box, KeyWords(userKey[..keylen]), keylen / 4)
    {
      ghost var bytes := userKey[..keylen];
      var i := 0;
      while i < keylen / 4
        invariant 0 <= i <= keylen / 4
        invariant forall k | 0 <= k < i :: key[k] == LoadWord(bytes, 4 * k)
      {
        key[i] := Word(userKey[4 * i], userKey[4 * i + 1], userKey[4 * i + 2], userKey[4 * i + 3]);
        assert key[i] == LoadWord(bytes, 4 * i);
        i := i + 1;
      }
      UserWords(key[..], box, bytes);
    }

    // ---- Blocks ----

    /** AesEncrypt: two rounds a turn; nothing is written when the number of rounds is improper. */
    method AesEncrypt(inBlock: array<bv8>, inAt: nat, outBlock: array<bv8>, outAt: nat, ghost keys: seq<State>)
      requires Keyed(keys) && inAt + 16 <= inBlock.Length && outAt + 16 <= outBlock.Length && Apart(outBlock)
      modifies outBlock
      ensures Keyed(keys)
      ensures outBlock[outAt..outAt + 16] == EncBlock(box, keys, old(inBlock[inAt..inAt + 16]))
      ensures outBlock[..outAt] == old(outBlock[..outAt]) && outBlock[outAt + 16..] == old(outBlock[outAt + 16..])
    {
      hide Encrypt, LoadState, StoreState;
      var s := LoadState(inBlock[inAt..inAt + 16]);
      s := EncryptState(s, keys);
      WriteBlock(outBlock, outAt, StoreState(s));
    }

    /** The rounds. */
    method EncryptState(start: State, ghost keys: seq<State>) returns (s: State)
      requires Keyed(keys)
      ensures s == Encrypt(box, keys, start)
    {
      hide EncColumn, EncLast, EncRound, SubShift, XorW, RoundKeys;
      var r := rounds / 2;
      if r > 7 || r == 0 {
        assert false; // only without a key
      }
      s := AddKey(start, RoundKey(key[..], 0));
      KeysAt(key[..], rounds);
      var t := s;
      var rk := 0;
      while true
        invariant 0 < r && rk + 2 * r == rounds && s == EncAfter(box, keys, start, rk)
        decreases r
      {
        var k := RoundKey(key[..], rk + 1);
        EncColumnsAreRound(box, s, k);
        t := State(EncColumn(box, s.w0, s.w1, s.w2, s.w3, k.w0), EncColumn(box, s.w1, s.w2, s.w3, s.w0, k.w1),
                   EncColumn(box, s.w2, s.w3, s.w0, s.w1, k.w2), EncColumn(box, s.w3, s.w0, s.w1, s.w2, k.w3));
        rk := rk + 2;
        r := r - 1;
        if r == 0 {
          break;
        }
        k := RoundKey(key[..], rk);
        EncColumnsAreRound(box, t, k);
        s := State(EncColumn(box, t.w0, t.w1, t.w2, t.w3, k.w0), EncColumn(box, t.w1, t.w2, t.w3, t.w0, k.w1),
                   EncColumn(box, t.w2, t.w3, t.w0, t.w1, k.w2), EncColumn(box, t.w3, t.w0, t.w1, t.w2, k.w3));
      }
      var k := RoundKey(key[..], rk);
      EncLastIs(box, t, k);
      s := State(EncLast(box, t.w0, t.w1, t.w2, t.w3, k.w0), EncLast(box, t.w1, t.w2, t.w3, t.w0, k.w1),
                 EncLast(box, t.w2, t.w3, t.w0, t.w1, k.w2), EncLast(box, t.w3, t.w0, t.w1, t.w2, k.w3));
    }

    method AesDecrypt(inBlock: array<bv8>, inAt: nat, outBlock: array<bv8>, outAt: nat, ghost keys: seq<State>)
      requires Keyed(keys) && inAt + 16 <= inBlock.Length && outAt + 16 <= outBlock.Length && Apart(outBlock)
      modifies outBlock
      ensures Keyed(keys)
      ensures outBlock[outAt..outAt + 16] == DecBlock(box, keys, old(inBlock[inAt..inAt + 16]))
      ensures outBlock[..outAt] == old(outBlock[..outAt]) && outBlock[outAt + 16..] == old(outBlock[outAt + 16..])
    {
      hide Decrypt, LoadState, StoreState;
      var s := LoadState(inBlock[inAt..inAt + 16]);
      s := DecryptState(s, keys);
      WriteBlock(outBlock, outAt, StoreState(s));
    }

    /** The rounds. */
    method DecryptState(start: State, ghost keys: seq<State>) returns (s: State)
      requires Keyed(keys)
      ensures s == Decrypt(box, keys, start)
    {
      hide DecColumn, DecLast, DecRound, InvSubShift, XorW, RoundKeys;
      var r := rounds / 2;
      if r > 7 || r == 0 {
        assert false; // only without a key
      }
      s := AddKey(start, RoundKey(key[..], 0));
      KeysAt(key[..], rounds);
      var t := s;
      var rk := 0;
      while true
        invariant 0 < r && rk + 2 * r == rounds && s == DecAfter(box, keys, start, rk)
        decreases r
      {
        var k := RoundKey(key[..], rk + 1);
        DecColumnsAreRound(box, s, k);
        t := State(DecColumn(box, s.w0, s.w3, s.w2, s.w1, k.w0), DecColumn(box, s.w1, s.w0, s.w3, s.w2, k.w1),
                   DecColumn(box, s.w2, s.w1, s.w0, s.w3, k.w2), DecColumn(box, s.w3, s.w2, s.w1, s.w0, k.w3));
        rk := rk + 2;
        r := r - 1;
        if r == 0 {
          break;
        }
        k := RoundKey(key[..], rk);
        DecColumnsAreRound(box, t, k);
        s := State(DecColumn(box, t.w0, t.w3, t.w2, t.w1, k.w0), DecColumn(box, t.w1, t.w0, t.w3, t.w2, k.w1),
                   DecColumn(box, t.w2, t.w1, t.w0, t.w3, k.w2), DecColumn(box, t.w3, t.w2, t.w1, t.w0, k.w3));
      }
      var k := RoundKey(key[..], rk);
      DecLastIs(box, t, k);
      s := State(DecLast(box, t.w0, t.w3, t.w2, t.w1, k.w0), DecLast(box, t.w1, t.w0, t.w3, t.w2, k.w1),
                 DecLast(box, t.w2, t.w1, t.w0, t.w3, k.w2), DecLast(box, t.w3, t.w2, t.w1, t.w0, k.w3));
    }
  }

  method WriteBlock(out: array<bv8>, at: nat, b: seq<bv8>)
    requires |b| == 16 && at + 16 <= out.Length
    modifies out
    ensures out[at..at + 16] == b && out[..at] == old(out[..at]) && out[at + 16..] == old(out[at + 16..])
  {
    forall k | 0 <= k < 16 {
      out[at + k] := b[k];
    }
  }

  lemma KeysAt(words: seq<Word>, rounds: nat)
    requires 4 * rounds + 4 <= |words|
    ensures forall g: nat | g <= rounds :: RoundKey(words, g) == RoundKeys(words, rounds)[g]
  {
    hide RoundKey;
  }

  lemma UserWords(words: seq<Word>, box: SBox, userKey: seq<bv8>)
    requires KeySize(|userKey|) && |words| == 60
    requires forall k | 0 <= k < |userKey| / 4 :: words[k] == LoadWord(userKey, 4 * k)
    ensures forall i | 0 <= i < |userKey| / 4 :: words[i] == KeyWord(box, KeyWords(userKey), i)
  {
    hide LoadWord;
  }

  lemma ScheduleReady(words: seq<Word>, box: SBox, user: seq<Word>)
    requires (|user| == 4 || |user| == 6 || |user| == 8) && |words| == 60
    requires forall i | 0 <= i < 4 * (|user| + 7) :: words[i] == KeyWord(box, user, i)
    ensures RoundKeys(words, |user| + 6) == Schedule(box, user)
  {
    hide KeyWord;
    var ws := seq(4 * (|user| + 7), i requires 0 <= i < 4 * (|user| + 7) => KeyWord(box, user, i));
    forall g: nat | g <= |user| + 6 ensures RoundKey(words, g) == RoundKey(ws, g) {
    }
  }
}
