/** device_aes_encrypt and device_aes_decrypt: padding (section 6.3 of RFC 5652) around CBC. */
module AesDevice {
  import opened AesRounds
  import opened AesKeys
  import opened AesCipher
  import opened AesCbc

  // ---- Padding ----

  /** Between 1 and 16 bytes, each holding their number. */
  function PadCount(n: nat): (k: nat)
    ensures 1 <= k <= 16 && (n + k) % 16 == 0
  {
    16 - n % 16
  }

  function Pad(m: seq<bv8>): (p: seq<bv8>)
    ensures |p| == |m| + PadCount(|m|) && |p| % 16 == 0
  {
    m + seq(PadCount(|m|), _ => PadCount(|m|) as bv8)
  }

  /** What device_aes_decrypt returns: the length without as many bytes as the last one says. */
  function Unpadded(p: seq<bv8>): int
    requires p != []
  {
    |p| - p[|p| - 1] as int
  }

  lemma UnpaddedPad(m: seq<bv8>)
    ensures Unpadded(Pad(m)) == |m| && Pad(m)[..|m|] == m
  {
  }

  lemma PaddedLength(n: nat)
    ensures n + PadCount(n) == (n / 16 + 1) * 16
  {
  }

  // ---- The two calls ----

  /** The length rounded up to whole blocks, which maxOutLen is compared with. */
  function RoundedUp(n: nat): nat {
    if n != n / 16 * 16 then (n / 16 + 1) * 16 else n
  }

  /** How far device_aes_encrypt writes: two blocks beyond a whole number of blocks. */
  function WrittenTo(n: nat): nat {
    if n % 16 == 0 then n + 32 else RoundedUp(n)
  }

  /** What is written stays within the room that is checked exactly for texts that are no whole number of blocks. */
  lemma WrittenWithinRoom(n: nat)
    ensures WrittenTo(n) <= RoundedUp(n) <==> n % 16 != 0
    ensures n % 16 == 0 ==> WrittenTo(n) == RoundedUp(n) + 32
  {
    assert n == n / 16 * 16 + n % 16;
  }

  /** Sixteen bytes pass the check for a room of 16, and 48 are written. */
  lemma SixteenBytes()
    ensures RoundedUp(16) == 16 && WrittenTo(16) == 48
  {
  }

  method DeviceAesEncrypt(box: SBox, key: seq<bv8>, iv: array<bv8>, plain: seq<bv8>, encOut: array<bv8>, maxOutLen: int)
    returns (r: int)
    requires box.Good() && KeySize(|key|) && iv.Length >= 16 && iv != encOut
    requires maxOutLen >= RoundedUp(|plain|) ==> WrittenTo(|plain|) <= encOut.Length
    modifies encOut
    ensures maxOutLen < RoundedUp(|plain|) ==> r == -1 && encOut[..] == old(encOut[..])
    ensures maxOutLen >= RoundedUp(|plain|) ==>
      && r == (|plain| / 16 + 1) * 16 == |Pad(plain)| <= encOut.Length
      && Enciphered(box, Schedule(box, KeyWords(key)), iv[..16], Pad(plain), encOut[..r])
      && r <= WrittenTo(|plain|) && (forall k | r <= k < WrittenTo(|plain|) :: encOut[k] == 0x10)
      && encOut[WrittenTo(|plain|)..] == old(encOut[WrittenTo(|plain|)..])
  {
    hide Schedule, KeyWords, EncAt, PadCount;
    PaddedLength(|plain|);
    var enc := new Aes(box);
    var datLen := |plain|;
    assert key[..|key|] == key;
    var code := enc.SetKey(key, |key|, iv, AES_ENCRYPTION);
    if datLen != datLen / 16 * 16 {
      datLen := (datLen / 16 + 1) * 16;
    }
    if maxOutLen < datLen {
      return -1;
    }
    datLen := PadInto(encOut, plain, datLen);
    AesCbcEncrypt(enc, encOut, encOut, datLen, Schedule(box, KeyWords(key)));
    return datLen;
  }

  /** The plaintext copied and padded; after a whole number of blocks 32 bytes are written, and 16 of them count. */
  method PadInto(encOut: array<bv8>, plain: seq<bv8>, rounded: nat) returns (datLen: nat)
    requires rounded == RoundedUp(|plain|) && WrittenTo(|plain|) <= encOut.Length
    modifies encOut
    ensures datLen == |Pad(plain)| <= encOut.Length && encOut[..datLen] == Pad(plain)
    ensures datLen <= WrittenTo(|plain|) && forall k | datLen <= k < WrittenTo(|plain|) :: encOut[k] == 0x10
    ensures encOut[WrittenTo(|plain|)..] == old(encOut[WrittenTo(|plain|)..])
  {
    datLen := rounded;
    forall k | 0 <= k < |plain| {
      encOut[k] := plain[k];
    }
    if datLen - |plain| > 0 {
      FillRange(encOut, |plain|, datLen, (datLen - |plain|) as bv8);
      assert datLen == |Pad(plain)|;
    } else {
      datLen := datLen + 0x10;
      FillRange(encOut, |plain|, datLen + 16, 0x10);
      assert PadCount(|plain|) == 16;
    }
    assert encOut[..|plain|] == plain;
  }

  /**
   A room of 16 bytes is accepted for a plaintext of 16, and the 32 bytes behind that room do not keep what they held:
   the first half becomes ciphertext and the second padding.
   */
  method SixteenWritten(box: SBox, key: seq<bv8>, iv: array<bv8>, plain: seq<bv8>) returns (r: int, out: array<bv8>)
    requires box.Good() && KeySize(|key|) && iv.Length >= 16 && |plain| == 16
    ensures r == 32 && out.Length == 64 && fresh(out)
    ensures forall k | 32 <= k < 64 :: out[k] == if k < 48 then 0x10 else 0
  {
    out := new bv8[64](_ => 0);
    SixteenBytes();
    assert out[48..] == seq(16, _ => 0);
    r := DeviceAesEncrypt(box, key, iv, plain, out, 16);
    assert out[48..] == seq(16, _ => 0);
    assert forall k | 48 <= k < 64 :: out[k] == out[48..][k - 48];
  }

  method FillRange(out: array<bv8>, from: nat, to: nat, b: bv8)
    requires from <= to <= out.Length
    modifies out
    ensures forall k | 0 <= k < out.Length :: out[k] == if from <= k < to then b else old(out[k])
  {
    var i := from;
    while i < to
      invariant from <= i <= to
      invariant forall k | 0 <= k < out.Length :: out[k] == if from <= k < i then b else old(out[k])
    {
      out[i] := b;
      i := i + 1;
    }
  }

  method DeviceAesDecrypt(box: SBox, key: seq<bv8>, iv: array<bv8>, encIn: array<bv8>, encLength: nat,
                          plainOut: array<bv8>, maxOutLen: int) returns (r: int)
    requires box.Good() && KeySize(|key|) && iv.Length >= 16 && iv != plainOut
    requires 0 < encLength <= encIn.Length
    requires maxOutLen >= encLength ==> encLength <= plainOut.Length
    modifies plainOut
    ensures maxOutLen < encLength ==> r == -1 && plainOut[..] == old(plainOut[..])
    ensures maxOutLen >= encLength ==>
      && Deciphered(box, InverseKeys(Schedule(box, KeyWords(key))), iv[..16], old(encIn[..encLength]), plainOut[..encLength])
      && r == Unpadded(plainOut[..encLength])
      && plainOut[encLength..] == old(plainOut[encLength..])
  {
    hide Schedule, KeyWords, DecAt, InverseKeys;
    if maxOutLen < encLength {
      return -1;
    }
    var datLen := encLength;
    var dec := new Aes(box);
    assert key[..|key|] == key;
    var code := dec.SetKey(key, |key|, iv, AES_DECRYPTION);
    AesCbcDecrypt(dec, plainOut, encIn, datLen, InverseKeys(Schedule(box, KeyWords(key))));
    return datLen - plainOut[datLen - 1] as int;
  }

  /**
   Decrypting what was encrypted gives back the length and the text, for every text and key: `c` is what
   DeviceAesEncrypt leaves in its buffer, `q` what DeviceAesDecrypt makes of it.
   */
  lemma DeviceRoundTrip(box: SBox, key: seq<bv8>, iv: seq<bv8>, m: seq<bv8>, c: seq<bv8>, q: seq<bv8>)
    requires box.Good() && KeySize(|key|) && |iv| == 16
    requires Enciphered(box, Schedule(box, KeyWords(key)), iv, Pad(m), c)
    requires Deciphered(box, InverseKeys(Schedule(box, KeyWords(key))), iv, c, q)
    ensures q != [] && Unpadded(q) == |m| && q[..|m|] == m
  {
    hide Schedule, KeyWords, DecAt, EncAt, InverseKeys, Pad;
    CbcUndoes(box, Schedule(box, KeyWords(key)), iv, Pad(m), c, q);
    UnpaddedPad(m);
  }
}
