/** Cipher block chaining (section 6.2 of SP 800-38A) in place, and the padding of device_aes_encrypt. */
module AesCbc {
  import opened Crc
  import opened AesField
  import opened AesRounds
  import opened AesKeys
  import opened AesCipher

  // ---- Chaining on block sequences ----

  function XorBytes(a: seq<bv8>, b: seq<bv8>): (r: seq<bv8>)
    requires |a| == |b|
    ensures |r| == |a|
  {
    seq(|a|, i requires 0 <= i < |a| => Xor8(a[i], b[i]))
  }

  lemma XorBytesTwice(a: seq<bv8>, b: seq<bv8>)
    requires |a| == |b|
    ensures XorBytes(XorBytes(a, b), b) == a
  {
    hide Xor8;
    forall i | 0 <= i < |a| ensures Xor8(Xor8(a[i], b[i]), b[i]) == a[i] {
      XorAssoc(a[i], b[i], b[i]);
      XorSelf(b[i]);
      XorZero8(a[i]);
    }
  }

  function Block(s: seq<bv8>, k: nat): (b: seq<bv8>)
    requires 16 * k + 16 <= |s|
    ensures |b| == 16
  {
    s[16 * k..16 * k + 16]
  }

  /** Block k of the ciphertext: the plaintext block added to the previous ciphertext block, enciphered. */
  function EncAt(box: SBox, keys: seq<State>, iv: seq<bv8>, p: seq<bv8>, k: nat): (c: seq<bv8>)
    requires |keys| >= 2 && |iv| == 16 && 16 * k + 16 <= |p|
    ensures |c| == 16
  {
    EncBlock(box, keys, XorBytes(if k == 0 then iv else EncAt(box, keys, iv, p, k - 1), Block(p, k)))
  }

  function DecAt(box: SBox, keys: seq<State>, iv: seq<bv8>, c: seq<bv8>, k: nat): (p: seq<bv8>)
    requires |keys| >= 2 && |iv| == 16 && 16 * k + 16 <= |c|
    ensures |p| == 16
  {
    XorBytes(DecBlock(box, keys, Block(c, k)), if k == 0 then iv else Block(c, k - 1))
  }

  /** All whole blocks of `c` are the CBC encryption of those of `p`. */
  predicate Enciphered(box: SBox, keys: seq<State>, iv: seq<bv8>, p: seq<bv8>, c: seq<bv8>) {
    |keys| >= 2 && |iv| == 16 && |p| == |c| && forall k: nat | k < |p| / 16 :: Block(c, k) == EncAt(box, keys, iv, p, k)
  }

  predicate Deciphered(box: SBox, keys: seq<State>, iv: seq<bv8>, c: seq<bv8>, p: seq<bv8>) {
    |keys| >= 2 && |iv| == 16 && |p| == |c| && forall k: nat | k < |p| / 16 :: Block(p, k) == DecAt(box, keys, iv, c, k)
  }

  lemma XorBytesComm(a: seq<bv8>, b: seq<bv8>)
    requires |a| == |b|
    ensures XorBytes(a, b) == XorBytes(b, a)
  {
    hide Xor8;
    forall i | 0 <= i < |a| ensures Xor8(a[i], b[i]) == Xor8(b[i], a[i]) {
      XorComm(a[i], b[i]);
    }
  }

  /** CBC decryption undoes CBC encryption. */
  lemma CbcUndoes(box: SBox, keys: seq<State>, iv: seq<bv8>, p: seq<bv8>, c: seq<bv8>, q: seq<bv8>)
    requires box.Good() && |p| % 16 == 0 && |keys| >= 2
    requires Enciphered(box, keys, iv, p, c) && Deciphered(box, InverseKeys(keys), iv, c, q)
    ensures q == p
  {
    hide EncBlock, DecBlock, InverseKeys, XorBytes;
    forall k: nat | k < |p| / 16 ensures Block(q, k) == Block(p, k) {
      var previous := if k == 0 then iv else EncAt(box, keys, iv, p, k - 1);
      assert k > 0 ==> Block(c, k - 1) == previous;
      assert Block(c, k) == EncAt(box, keys, iv, p, k);
      DecBlockUndoes(box, keys, XorBytes(previous, Block(p, k)));
      XorBytesComm(previous, Block(p, k));
      XorBytesTwice(Block(p, k), previous);
    }
    SameBlocks(p, q);
  }

  lemma SameBlocks(p: seq<bv8>, q: seq<bv8>)
    requires |p| == |q| && |p| % 16 == 0 && forall k: nat | k < |p| / 16 :: Block(q, k) == Block(p, k)
    ensures p == q
  {
    forall i | 0 <= i < |p| ensures p[i] == q[i] {
      assert Block(q, i / 16)[i % 16] == Block(p, i / 16)[i % 16];
    }
  }

  // ---- The loops ----

  /** xorbuf. */
  method XorBuf(buf: array<bv8>, at: nat, mask: array<bv8>, from: nat)
    requires at + 16 <= buf.Length && from + 16 <= mask.Length && mask != buf
    modifies buf
    ensures buf[at..at + 16] == XorBytes(old(buf[at..at + 16]), mask[from..from + 16])
    ensures buf[..at] == old(buf[..at]) && buf[at + 16..] == old(buf[at + 16..])
  {
    hide Xor8;
    ghost var was, m := buf[..], mask[from..from + 16];
    var i := 0;
    while i < 16
      invariant 0 <= i <= 16 && mask[from..from + 16] == m
      invariant forall j | at <= j < at + i :: buf[j] == Xor8(was[j], m[j - at])
      invariant forall j | 0 <= j < buf.Length && !(at <= j < at + i) :: buf[j] == was[j]
    {
      assert mask[from + i] == m[i];
      buf[at + i] := Xor8(buf[at + i], mask[from + i]);
      i := i + 1;
    }
    assert buf[at..at + 16] == XorBytes(was[at..at + 16], m);
  }

  method CopyBlock(out: array<bv8>, at: nat, src: array<bv8>, from: nat)
    requires at + 16 <= out.Length && from + 16 <= src.Length
    modifies out
    ensures out[at..at + 16] == old(src[from..from + 16])
    ensures out[..at] == old(out[..at]) && out[at + 16..] == old(out[at + 16..])
  {
    WriteBlock(out, at, src[from..from + 16]);
  }

  /** The buffers of one call: plaintext and ciphertext may be the same array. */
  ghost predicate Buffers(aes: Aes, out: array<bv8>, input: array<bv8>, sz: nat) {
    && sz <= out.Length && sz <= input.Length
    && out != aes.reg && out != aes.tmp && input != aes.reg && input != aes.tmp && aes.Apart(out) && aes.Apart(input)
  }

  /** The blocks before k are kept, and of the rest the part after block k. */
  lemma BlocksKept(before: seq<bv8>, after: seq<bv8>, k: nat)
    requires |before| == |after| && 16 * k + 16 <= |before| && after[..16 * k] == before[..16 * k]
    ensures forall j: nat | j < k :: Block(after, j) == Block(before, j)
  {
    forall j: nat | j < k ensures Block(after, j) == Block(before, j) {
      assert Block(after, j) == after[..16 * k][16 * j..16 * j + 16];
    }
  }

  /** What is read next is still as it was, also when it is the buffer being written. */
  lemma InputAhead(before: seq<bv8>, after: seq<bv8>, p: seq<bv8>, k: nat, sz: nat)
    requires |before| == |after| && 16 * k + 16 <= sz <= |before| && |p| == sz
    requires before[16 * k..sz] == p[16 * k..] && after[16 * k + 16..] == before[16 * k + 16..]
    ensures after[16 * k + 16..sz] == p[16 * k + 16..]
  {
    assert after[16 * k + 16..sz] == after[16 * k + 16..][..sz - (16 * k + 16)];
    assert before[16 * k + 16..sz] == before[16 * k + 16..][..sz - (16 * k + 16)] == before[16 * k..sz][16..] == p[16 * k..][16..];
  }

  lemma TailKept(before: seq<bv8>, after: seq<bv8>, was: seq<bv8>, k: nat)
    requires |before| == |after| == |was| && 16 * k + 16 <= |was|
    requires before[16 * k..] == was[16 * k..] && after[16 * k + 16..] == before[16 * k + 16..]
    ensures after[16 * k + 16..] == was[16 * k + 16..]
  {
    assert before[16 * k + 16..] == before[16 * k..][16..] == was[16 * k..][16..] == was[16 * k + 16..];
  }

  lemma PrefixBlocks(out: seq<bv8>, sz: nat)
    requires sz <= |out|
    ensures forall j: nat | j < sz / 16 :: Block(out[..sz], j) == Block(out, j)
  {
  }

  /** AesCbcEncrypt; in place when out == input. */
  method AesCbcEncrypt(aes: Aes, out: array<bv8>, input: array<bv8>, sz: nat, ghost keys: seq<State>)
    requires aes.Keyed(keys) && Buffers(aes, out, input, sz)
    modifies out, aes.reg
    ensures aes.Keyed(keys)
    ensures Enciphered(aes.box, keys, old(aes.reg[..]), old(input[..sz]), out[..sz])
    ensures out[sz / 16 * 16..] == old(out[sz / 16 * 16..])
    ensures aes.reg[..] == if sz < 16 then old(aes.reg[..]) else Block(out[..sz], sz / 16 - 1)
  {
    hide EncBlock, XorBytes, RoundKeys, Block, FirstEnciphered;
    ghost var iv, p, was := aes.reg[..], input[..sz], out[..];
    NoneEnciphered(aes.box, keys, iv, p, out[..]);
    var k := 0;
    while k < sz / 16
      invariant 0 <= k <= sz / 16 && aes.Keyed(keys)
      invariant FirstEnciphered(aes.box, keys, iv, p, out[..], k)
      invariant input[16 * k..sz] == p[16 * k..] && out[16 * k..] == was[16 * k..]
      invariant aes.reg[..] == if k == 0 then iv else EncAt(aes.box, keys, iv, p, k - 1)
    {
      ghost var before, read := out[..], input[..];
      NextBlockIs(input[..], p, k, sz);
      EncryptNext(aes, out, input, k, keys);
      NextEnciphered(aes.box, keys, iv, p, before, out[..], k);
      InputAhead(read, input[..], p, k, sz);
      TailKept(before, out[..], was, k);
      k := k + 1;
    }
    AllEnciphered(aes.box, keys, iv, p, out[..], sz);
    assert out[..][..sz] == out[..sz];
  }

  /** The first k blocks of `out` are the ciphertext of p. */
  predicate FirstEnciphered(box: SBox, keys: seq<State>, iv: seq<bv8>, p: seq<bv8>, out: seq<bv8>, k: nat) {
    && |keys| >= 2 && |iv| == 16 && 16 * k <= |out| && 16 * k <= |p|
    && forall j: nat | j < k :: Block(out, j) == EncAt(box, keys, iv, p, j)
  }

  lemma NoneEnciphered(box: SBox, keys: seq<State>, iv: seq<bv8>, p: seq<bv8>, out: seq<bv8>)
    requires |keys| >= 2 && |iv| == 16
    ensures FirstEnciphered(box, keys, iv, p, out, 0)
  {
  }

  lemma NextEnciphered(box: SBox, keys: seq<State>, iv: seq<bv8>, p: seq<bv8>, before: seq<bv8>, after: seq<bv8>, k: nat)
    requires FirstEnciphered(box, keys, iv, p, before, k)
    requires |before| == |after| && 16 * k + 16 <= |before| && after[..16 * k] == before[..16 * k] && 16 * k + 16 <= |p|
    requires after[16 * k..16 * k + 16] == EncAt(box, keys, iv, p, k)
    ensures FirstEnciphered(box, keys, iv, p, after, k + 1)
  {
    hide Block, EncBlock, XorBytes, EncAt;
    BlocksKept(before, after, k);
    BlockOf(after, k);
  }

  lemma AllEnciphered(box: SBox, keys: seq<State>, iv: seq<bv8>, p: seq<bv8>, out: seq<bv8>, sz: nat)
    requires FirstEnciphered(box, keys, iv, p, out, sz / 16) && |p| == sz <= |out|
    ensures Enciphered(box, keys, iv, p, out[..sz])
  {
    hide Block, EncBlock, XorBytes, EncAt;
    PrefixBlocks(out, sz);
  }

  lemma NextBlockIs(input: seq<bv8>, p: seq<bv8>, k: nat, sz: nat)
    requires 16 * k + 16 <= sz <= |input| && |p| == sz && input[16 * k..sz] == p[16 * k..]
    ensures input[16 * k..16 * k + 16] == Block(p, k)
  {
    assert input[16 * k..16 * k + 16] == input[16 * k..sz][..16];
  }

  lemma BlockOf(s: seq<bv8>, k: nat)
    requires 16 * k + 16 <= |s|
    ensures Block(s, k) == s[16 * k..16 * k + 16]
  {
  }

  /** One block. */
  method EncryptNext(aes: Aes, out: array<bv8>, input: array<bv8>, k: nat, ghost keys: seq<State>)
    requires aes.Keyed(keys) && Buffers(aes, out, input, 16 * k + 16)
    modifies out, aes.reg
    ensures aes.Keyed(keys)
    ensures aes.reg[..] == EncBlock(aes.box, keys, XorBytes(old(aes.reg[..]), old(input[16 * k..16 * k + 16])))
    ensures out[16 * k..16 * k + 16] == aes.reg[..]
    ensures out[..16 * k] == old(out[..16 * k]) && out[16 * k + 16..] == old(out[16 * k + 16..])
  {
    hide EncBlock, XorBytes, RoundKeys;
    assert aes.reg[0..16] == aes.reg[..];
    XorBuf(aes.reg, 0, input, 16 * k);
    aes.AesEncrypt(aes.reg, 0, aes.reg, 0, keys);
    assert aes.reg[0..16] == aes.reg[..];
    CopyBlock(out, 16 * k, aes.reg, 0);
  }

  method AesCbcDecrypt(aes: Aes, out: array<bv8>, input: array<bv8>, sz: nat, ghost keys: seq<State>)
    requires aes.Keyed(keys) && Buffers(aes, out, input, sz)
    modifies out, aes.reg, aes.tmp
    ensures aes.Keyed(keys)
    ensures Deciphered(aes.box, keys, old(aes.reg[..]), old(input[..sz]), out[..sz])
    ensures out[sz / 16 * 16..] == old(out[sz / 16 * 16..])
    ensures aes.reg[..] == if sz < 16 then old(aes.reg[..]) else Block(old(input[..sz]), sz / 16 - 1)
  {
    hide DecBlock, XorBytes, RoundKeys, Block;
    ghost var iv, c, was := aes.reg[..], input[..sz], out[..];
    var k := 0;
    while k < sz / 16
      invariant 0 <= k <= sz / 16 && aes.Keyed(keys)
      invariant forall j: nat | j < k :: Block(out[..], j) == DecAt(aes.box, keys, iv, c, j)
      invariant input[16 * k..sz] == c[16 * k..] && out[16 * k..] == was[16 * k..]
      invariant aes.reg[..] == if k == 0 then iv else Block(c, k - 1)
    {
      ghost var before, read := out[..], input[..];
      NextBlockIs(input[..], c, k, sz);
      DecryptNext(aes, out, input, k, keys);
      BlocksKept(before, out[..], k);
      InputAhead(read, input[..], c, k, sz);
      TailKept(before, out[..], was, k);
      BlockOf(out[..], k);
      k := k + 1;
    }
    PrefixBlocks(out[..], sz);
    assert out[..][..sz] == out[..sz];
  }

  method DecryptNext(aes: Aes, out: array<bv8>, input: array<bv8>, k: nat, ghost keys: seq<State>)
    requires aes.Keyed(keys) && Buffers(aes, out, input, 16 * k + 16)
    modifies out, aes.reg, aes.tmp
    ensures aes.Keyed(keys)
    ensures out[16 * k..16 * k + 16]
         == XorBytes(DecBlock(aes.box, keys, old(input[16 * k..16 * k + 16])), old(aes.reg[..]))
    ensures aes.reg[..] == old(input[16 * k..16 * k + 16])
    ensures out[..16 * k] == old(out[..16 * k]) && out[16 * k + 16..] == old(out[16 * k + 16..])
  {
    hide DecBlock, XorBytes, RoundKeys;
    CopyBlock(aes.tmp, 0, input, 16 * k);
    aes.AesDecrypt(aes.tmp, 0, out, 16 * k, keys);
    assert aes.reg[0..16] == aes.reg[..] && aes.tmp[0..16] == aes.tmp[..];
    XorBuf(out, 16 * k, aes.reg, 0);
    CopyBlock(aes.reg, 0, aes.tmp, 0);
    assert aes.reg[0..16] == aes.reg[..];
  }
}
