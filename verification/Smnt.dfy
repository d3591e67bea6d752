/**
 The SmartConfig receiver of joylink_smnt.c: fragments of two bytes sent in multicast addresses, and groups of four
 bytes sent in the lengths of broadcast packets.
 */
module Smnt {
  import opened Crc
  import AesRounds
  import AesKeys
  import AesCipher
  import AesCbc
  import AesDevice

  const SMART_CH_LOCKING := 0x2
  const SMART_FINISH := 0x8
  const PAYLOAD_MIN := 3
  const PAYLOAD_MAX := 49
  const RESULT_SIZE := 97
  const STEP_MULTICAST_HOLD_CHANNEL := 5
  const STEP_BROADCAST_HOLD_CHANNEL := 4
  const STEP_BROADCAST_ERROR_HOLE_CHANNEL := 2

  // ---- Addresses ----

  type Address = a: seq<bv8> | |a| == 6 witness [0, 0, 0, 0, 0, 0]

  /** The top two bits of byte 3 carry the parity of the two payload bytes. */
  predicate ParityOk(a: Address) {
    a[3] >> 6 == (a[4] ^ a[5]) & 1
  }

  function Index(a: Address): nat {
    (a[3] & 0x3F) as nat
  }

  predicate Accepts(a: Address) {
    ParityOk(a) && 1 <= Index(a) < PAYLOAD_MAX
  }

  /** The address for bytes x and y at index i, as a sender makes it: 64 is added to the index when x and y differ in parity. */
  function AddressOf(head: seq<bv8>, i: bv8, x: bv8, y: bv8): Address
    requires |head| == 3
  {
    head + [i + (if Odd8(x) != Odd8(y) then 64 else 0), x, y]
  }

  lemma IndexByte(i: bv8, b: bool)
    requires 1 <= i <= 48
    ensures var c := i + (if b then 64 else 0); c & 0x3F == i && c >> 6 == if b then 1 else 0
  {
  }

  lemma IndexParts(c: bv8)
    requires c >> 6 <= 1
    ensures c == (c & 0x3F) + (if c >> 6 == 1 then 64 else 0)
  {
  }

  lemma ParityIs(x: bv8, y: bv8)
    ensures (x ^ y) & 1 == if Odd8(x) != Odd8(y) then 1 else 0
  {
  }

  /** A six-bit number as it is. */
  lemma IndexBounds(c: bv8)
    ensures 1 <= (c & 0x3F) as nat < PAYLOAD_MAX <==> 1 <= c & 0x3F <= 48
  {
  }

  /** The addresses that are accepted are those with an index from 1 to 48 and the parity of their bytes. */
  lemma AcceptedIs(a: Address)
    ensures Accepts(a) <==> exists i: bv8 :: 1 <= i <= 48 && a == AddressOf(a[..3], i, a[4], a[5])
  {
    if Accepts(a) {
      AcceptedHas(a);
    }
    if j: bv8 :| 1 <= j <= 48 && a == AddressOf(a[..3], j, a[4], a[5]) {
      SentIsAccepted(a[..3], j, a[4], a[5]);
    }
  }

  lemma AcceptedHas(a: Address)
    requires Accepts(a)
    ensures var i := a[3] & 0x3F; 1 <= i <= 48 && a == AddressOf(a[..3], i, a[4], a[5])
  {
    ParityIs(a[4], a[5]);
    IndexBounds(a[3]);
    hide Odd8;
    IndexParts(a[3]);
    assert a == a[..3] + [a[3], a[4], a[5]];
  }

  lemma SentIsAccepted(head: seq<bv8>, i: bv8, x: bv8, y: bv8)
    requires |head| == 3 && 1 <= i <= 48
    ensures Accepts(AddressOf(head, i, x, y))
  {
    ParityIs(x, y);
    hide Odd8;
    var a := AddressOf(head, i, x, y);
    IndexByte(i, Odd8(x) != Odd8(y));
    IndexBounds(a[3]);
  }

  /** Its index is the sender's. */
  lemma IndexIs(head: seq<bv8>, i: bv8, x: bv8, y: bv8)
    requires |head| == 3 && 1 <= i <= 48
    ensures var a := AddressOf(head, i, x, y); Index(a) == i as nat && a[4] == x && a[5] == y
  {
    IndexByte(i, Odd8(x) != Odd8(y));
  }

  // ---- The payload buffer ----

  /** The buffer after one address. */
  function Fed(buffer: seq<bv8>, a: Address): (r: seq<bv8>)
    requires |buffer| == 128
    ensures |r| == 128
  {
    if Accepts(a) then
      var k := Index(a) - 1;
      buffer[2 * k := a[4]][2 * k + 1 := a[5]]
    else buffer
  }

  /** The length byte, as a number. */
  function Length(p: seq<bv8>): nat
    requires |p| > 1
  {
    p[1] as nat
  }

  /** What joylink_smnt_payLoadcheck accepts. */
  predicate CheckOk(p: seq<bv8>)
    requires |p| == 128
  {
    PAYLOAD_MIN * 2 < Length(p) < PAYLOAD_MAX * 2 && p[0] == Crc8(p[1..Length(p) + 2])
  }

  /** The checksum is taken inside the buffer, and what is copied after a successful check fits in the result. */
  predicate Sane(p: seq<bv8>)
    requires |p| == 128
  {
    (Length(p) <= 126 || Length(p) == 0xFF) && (CheckOk(p) ==> Length(p) + 1 <= RESULT_SIZE)
  }

  /** The check admits the length bytes 7 to 97 with the checksum of what they count and themselves. */
  lemma AdmittedIs(p: seq<bv8>)
    requires |p| == 128
    ensures CheckOk(p) <==> 7 <= Length(p) <= 97 && p[0] == Crc8(p[1..Length(p) + 2])
  {
  }

  /** Of the lengths the check admits, 97 is the only one whose payload does not fit in the result. */
  lemma AdmittedFits(p: seq<bv8>)
    requires |p| == 128 && CheckOk(p)
    ensures Length(p) + 1 <= RESULT_SIZE <==> Length(p) != 97
  {
  }

  /** Every payload with the length byte 97 passes the check with the right first byte, although 98 bytes are copied. */
  lemma NinetySevenAdmitted(q: seq<bv8>)
    requires |q| == 128 && Length(q) == 97
    ensures var p := q[0 := Crc8(q[1..99])];
      CheckOk(p) && Length(p) + 1 == RESULT_SIZE + 1 && !Sane(p)
  {
    hide Crc8;
    var p := q[0 := Crc8(q[1..99])];
    assert p[1..Length(p) + 2] == q[1..99];
  }

  /** A length byte of 98 to 126 is refused, and one that is unset. */
  lemma OthersRefused(p: seq<bv8>)
    requires |p| == 128 && (98 <= Length(p) <= 126 || Length(p) == 0xFF)
    ensures Sane(p) && !CheckOk(p)
  {
  }

  // ---- Groups of broadcast packets ----

  /** A packet length stands for nine bits: the flag of a group's header, and a byte. */
  datatype Symbol = Symbol(flag: bool, byte: bv8)

  /** A header and four bytes are collected in `buffer`; `index` is where the last byte went. */
  datatype Broadcast = Broadcast(index: nat, buffer: seq<bv8>, payload: seq<bv8>)
  {
    predicate Valid() {
      index < 4 && |buffer| == 5 && |payload| == 128
    }
  }

  function High5(h: bv8): bv8 { h >> 3 }
  function Low3(h: bv8): bv8 { h & 7 }

  /** The number of a group, counted from 1. */
  function GroupOf(h: bv8): (g: nat)
    ensures g < 32
  {
    HighSmall(h);
    High5(h) as nat
  }

  lemma HighSmall(h: bv8)
    ensures High5(h) < 32
  {
  }

  /** The group after the whole ones of a payload whose length byte is known ends after two bytes. */
  predicate EndsEarly(payload: seq<bv8>, h: bv8)
    requires |payload| == 128
  {
    Length(payload) != 0 && Length(payload) != 0xFF && (Length(payload) + 2) / 4 + 1 == GroupOf(h)
  }

  /** Three bits of the checksum protect a group. */
  predicate GroupOk(buffer: seq<bv8>)
    requires |buffer| == 5
  {
    GroupOf(buffer[0]) > 0 && Low3(Crc8(buffer[1..])) == Low3(buffer[0])
  }

  function Stored(payload: seq<bv8>, buffer: seq<bv8>): (r: seq<bv8>)
    requires |payload| == 128 && |buffer| == 5 && GroupOf(buffer[0]) > 0
    ensures |r| == 128
  {
    var at := 4 * (GroupOf(buffer[0]) - 1);
    payload[..at] + buffer[1..] + payload[at + 4..]
  }

  /** The buffer once the byte is in it, with the missing half of a short group cleared. */
  function Filled(s: Broadcast, c: bv8): (r: seq<bv8>)
    requires s.Valid()
    ensures |r| == 5
  {
    var b := s.buffer[s.index + 1 := c];
    if s.index == 1 && EndsEarly(s.payload, b[0]) then b[3 := 0][4 := 0] else b
  }

  /** The byte completes its group. */
  predicate Completes(s: Broadcast)
    requires s.Valid()
  {
    s.index == 3 || (s.index == 1 && EndsEarly(s.payload, s.buffer[0]))
  }

  /** The receiver's collection after one more symbol. */
  function Received(s: Broadcast, x: Symbol): (r: Broadcast)
    requires s.Valid()
    ensures r.Valid()
  {
    if x.flag then Broadcast(0, s.buffer[0 := x.byte], s.payload)
    else
      var b := Filled(s, x.byte);
      if Completes(s) then Broadcast(0, b, if GroupOk(b) then Stored(s.payload, b) else s.payload)
      else if s.index == 1 && GroupOf(b[0]) == 0 then Broadcast(0, b, s.payload)
      else Broadcast(s.index + 1, b, s.payload)
  }

  /** The symbol stores a group. */
  predicate Stores(s: Broadcast, x: Symbol)
    requires s.Valid()
  {
    !x.flag && Completes(s) && GroupOk(Filled(s, x.byte))
  }

  /** How long the channel is held: longer after every complete group, and after a good one most. */
  function HoldAfter(probability: nat, s: Broadcast, x: Symbol): nat
    requires s.Valid()
  {
    if x.flag || !Completes(s) || probability >= 30 then probability
    else if GroupOk(Filled(s, x.byte)) then probability + 4
    else probability + 2
  }

  /** Group 0 announces the sender's version in the first of two bytes, with the checksum of both. */
  function VersionAfter(version: bv8, s: Broadcast, x: Symbol): bv8
    requires s.Valid()
  {
    if !x.flag && s.index == 1 && GroupOf(s.buffer[0]) == 0 && Low3(Crc8([s.buffer[1], x.byte])) == Low3(s.buffer[0])
    then s.buffer[1] else version
  }

  /** Group 0 never ends early. */
  lemma VersionBytes(s: Broadcast, c: bv8)
    requires s.Valid() && s.index == 1 && GroupOf(s.buffer[0]) == 0
    ensures !EndsEarly(s.payload, s.buffer[0])
    ensures var b := Filled(s, c); b[1] == s.buffer[1] && b[1..3] == [s.buffer[1], c]
  {
    hide GroupOf;
  }

  function SymbolOf(ascii: int): Symbol {
    Symbol(ascii / 256 % 2 == 1, (ascii % 256) as bv8)
  }

  /** A packet length and the symbol it stands for: 256 for the flag, and the byte. */
  lemma SymbolIs(flag: bool, c: bv8)
    ensures SymbolOf((if flag then 256 else 0) + c as int) == Symbol(flag, c)
  {
    NineBits(if flag then 1 else 0, c as int);
  }

  lemma NineBits(f: int, n: int)
    requires 0 <= f <= 1 && 0 <= n < 256
    ensures (f * 256 + n) / 256 % 2 == f && (f * 256 + n) % 256 == n
  {
  }

  const ZEROS: seq<bv8> := [0, 0, 0, 0, 0, 0, 0, 0, 0, 0, 0, 0, 0, 0, 0, 0]

  /** The last byte, taken as the number of bytes of padding, leaves a text of 1 to 96 bytes. */
  predicate PaddingOk(p: seq<bv8>)
    requires p != []
  {
    0 < AesDevice.Unpadded(p) <= 96
  }

  const PASSWORD_SIZE := 65
  const SSID_SIZE := 33

  /** What is left for the name behind the length, the password and six more bytes, in eight bits. */
  function SsidLength(n: nat, ret: nat): nat {
    (ret - n - 1 - 6) % 256
  }

  /** The password and the name are inside the text and fit in their buffers. */
  predicate SplitFits(n: nat, ret: nat) {
    n <= PASSWORD_SIZE && 0 <= ret - n - 7 <= SSID_SIZE
  }

  /** The two copies stay inside their buffers if and only if password and name fit; then they stay inside the text. */
  lemma SplitInRange(n: nat, ret: nat)
    requires n < 256 && ret <= 96
    ensures n <= PASSWORD_SIZE && SsidLength(n, ret) <= SSID_SIZE <==> SplitFits(n, ret)
    ensures SplitFits(n, ret) ==> n + 8 + SsidLength(n, ret) == ret + 1
  {
  }

  class Receiver {
    const box: AesRounds.SBox
    const secretkey: seq<bv8>
    var state: int
    var resultType: int
    const encData: array<bv8>
    const payloadMulticast: array<bv8>
    const payloadBroadcast: array<bv8>
    const broadBuffer: array<bv8>
    var broadIndex: nat
    var broadcastVersion: bv8
    var chCurrentProbability: nat

    ghost predicate Valid()
      reads this
    {
      && box.Good() && |secretkey| == 16
      && encData.Length == RESULT_SIZE && payloadMulticast.Length == 128 && payloadBroadcast.Length == 128
      && broadBuffer.Length == 5 && broadIndex < 4
      && encData != payloadMulticast && encData != payloadBroadcast && payloadMulticast != payloadBroadcast
      && broadBuffer != payloadBroadcast && broadBuffer != encData && broadBuffer != payloadMulticast
    }

    /** The plaintext of the payload under the secret key. */
    ghost predicate Decrypted(c: seq<bv8>, p: seq<bv8>)
      requires |secretkey| == 16
    {
      AesCbc.Deciphered(box, AesRounds.InverseKeys(AesKeys.Schedule(box, AesCipher.KeyWords(secretkey))), ZEROS, c, p)
    }

    /**
     An accepted payload has been copied to the result and decrypted there, and the receiver is finished, or goes on
     looking for a channel when the padding is impossible.
     */
    ghost predicate Finished(payload: seq<bv8>)
      requires |secretkey| == 16 && encData.Length == RESULT_SIZE && |payload| == 128
      reads this`state, encData
    {
      var n := Length(payload);
      && 0 < n < 97 && encData[0] == payload[1] && Decrypted(payload[2..n + 2], encData[1..n + 1])
      && state == if PaddingOk(encData[1..n + 1]) then SMART_FINISH else SMART_CH_LOCKING
    }

    /** What has been collected from broadcast packets. */
    ghost function Collected(): (s: Broadcast)
      requires Valid()
      reads this, broadBuffer, payloadBroadcast
      ensures s.Valid()
    {
      Broadcast(broadIndex, broadBuffer[..], payloadBroadcast[..])
    }

    /** joylink_smnt_init. */
    constructor (box: AesRounds.SBox, secretkey: seq<bv8>)
      requires box.Good() && |secretkey| == 16
      ensures this.box == box && this.secretkey == secretkey
      ensures Valid() && fresh(encData) && fresh(payloadMulticast) && fresh(payloadBroadcast) && fresh(broadBuffer)
      ensures state == 0 && resultType == 0 && chCurrentProbability == 0 && payloadMulticast[..] == Unset()
      ensures Collected() == Broadcast(0, [0, 0, 0, 0, 0], Unset())
    {
      this.box, this.secretkey := box, secretkey;
      state, resultType, chCurrentProbability, broadIndex, broadcastVersion := 0, 0, 0, 0, 0;
      encData := new bv8[RESULT_SIZE](_ => 0);
      payloadMulticast := new bv8[128](_ => 0xFF);
      payloadBroadcast := new bv8[128](_ => 0xFF);
      broadBuffer := new bv8[5](_ => 0);
    }

    /** joylink_smnt_payLoadcheck: an accepted payload is copied to the result and handed on. */
    method PayLoadCheck(payload: array<bv8>) returns (r: int)
      requires Valid() && payload.Length == 128 && payload != encData && Sane(payload[..])
      modifies this`state, encData
      ensures r == if CheckOk(payload[..]) then 0 else 1
      ensures r == 0 ==> Finished(payload[..]) && encData[payload[1] as nat + 1..] == old(encData[payload[1] as nat + 1..])
      ensures r != 0 ==> state == old(state) && encData[..] == old(encData[..])
    {
      hide CheckOk, Decrypted, PaddingOk, Sane;
      var n := payload[1] as nat;
      var ok := Check(payload);
      if !ok {
        return 1;
      }
      CheckBounds(payload[..]);
      CopyResult(payload, n + 1);
      ghost var c := payload[2..n + 2];
      assert encData[0] == encData[..n + 1][0] == payload[1];
      assert encData[1..n + 1] == encData[..n + 1][1..] == c;
      state := SMART_FINISH;
      Finish();
      return 0;
    }

    lemma CheckBounds(p: seq<bv8>)
      requires |p| == 128 && Sane(p) && CheckOk(p)
      ensures 6 < Length(p) <= 96
    {
    }

    /** The condition of joylink_smnt_payLoadcheck. */
    method Check(payload: array<bv8>) returns (ok: bool)
      requires payload.Length == 128 && Sane(payload[..])
      ensures ok <==> CheckOk(payload[..])
    {
      hide Crc8;
      ghost var p := payload[..];
      var n := payload[1] as nat;
      var crc := JoylinkSmntCrc(payload, 1, (n + 1) % 256);
      assert n <= 126 ==> payload[1..1 + (n + 1)] == p[1..n + 2];
      ok := n > PAYLOAD_MIN * 2 && n < PAYLOAD_MAX * 2 && payload[0] == crc;
    }

    /** joylink_smnt_finish up to the callback: the result is decrypted in place, by its own length. */
    method Finish()
      requires Valid() && 0 < encData[0] as nat < 97
      modifies this`state, encData
      ensures var n := old(encData[0]) as nat;
        if old(state) != SMART_FINISH then state == old(state) && encData[..] == old(encData[..])
        else
          && encData[0] == old(encData[0]) && Decrypted(old(encData[1..n + 1]), encData[1..n + 1])
          && encData[n + 1..] == old(encData[n + 1..])
          && state == if PaddingOk(encData[1..n + 1]) then SMART_FINISH else SMART_CH_LOCKING
    {
      hide Decrypted;
      if state == SMART_FINISH {
        var ret := DecryptResult(encData[0] as nat);
        if !(ret > 0 && ret <= 96) {
          state := SMART_CH_LOCKING;
        }
      }
    }

    /** The rest of joylink_smnt_finish: password and name are copied out of a decrypted text of `ret` bytes. */
    method SplitText(ret: nat) returns (password: array<bv8>, ssid: array<bv8>)
      requires Valid() && ret <= 96 && SplitFits(encData[1] as nat, ret)
      ensures fresh(password) && fresh(ssid) && password.Length == PASSWORD_SIZE && ssid.Length == SSID_SIZE
      ensures var n := encData[1] as nat;
        && password[..] == encData[2..n + 2] + seq(PASSWORD_SIZE - n, _ => 0)
        && ssid[..] == encData[n + 8..ret + 1] + seq(SSID_SIZE - SsidLength(n, ret), _ => 0)
    {
      var n := encData[1] as nat;
      SplitInRange(n, ret);
      password := CopiedOut(2, n, PASSWORD_SIZE);
      ssid := CopiedOut(2 + n + 6, SsidLength(n, ret), SSID_SIZE);
    }

    /** memcpy of m bytes of the result into a cleared buffer. */
    method CopiedOut(from: nat, m: nat, size: nat) returns (out: array<bv8>)
      requires Valid() && from + m <= RESULT_SIZE && m <= size
      ensures fresh(out) && out.Length == size && out[..] == encData[from..from + m] + seq(size - m, _ => 0)
    {
      out := new bv8[size](_ => 0);
      forall k | 0 <= k < m {
        out[k] := encData[from + k];
      }
    }

    /** device_aes_decrypt in place on the bytes behind the length; their pointer is a copy of them. */
    method DecryptResult(n: nat) returns (ret: int)
      requires Valid() && 0 < n < 97
      modifies encData
      ensures encData[0] == old(encData[0]) && Decrypted(old(encData[1..n + 1]), encData[1..n + 1])
      ensures ret == AesDevice.Unpadded(encData[1..n + 1]) && encData[n + 1..] == old(encData[n + 1..])
    {
      hide AesKeys.Schedule, AesCipher.KeyWords, AesRounds.InverseKeys, AesCbc.Deciphered, AesDevice.Unpadded;
      ghost var c := encData[1..n + 1];
      var text := new bv8[96];
      forall k | 0 <= k < 96 {
        text[k] := encData[1 + k];
      }
      assert text[..n] == c;
      ghost var rest := encData[n + 1..];
      assert text[n..] == rest;
      var iv := new bv8[16](_ => 0);
      assert iv[..16] == ZEROS;
      ret := AesDevice.DeviceAesDecrypt(box, secretkey, iv, text, n, text, 128);
      ghost var p := text[..n];
      assert forall k | n <= k < 96 :: text[k] == text[n..][k - n];
      forall k | 0 <= k < 96 {
        encData[1 + k] := text[k];
      }
      assert encData[1..n + 1] == p;
    }

    /** memcpy(encData, payload + 1, m). */
    method CopyResult(payload: array<bv8>, m: nat)
      requires Valid() && payload.Length == 128 && payload != encData && m <= RESULT_SIZE
      modifies encData
      ensures encData[..m] == payload[1..m + 1] && encData[m..] == old(encData[m..])
    {
      forall k | 0 <= k < m {
        encData[k] := payload[1 + k];
      }
    }

    /** joylink_smnt_muticastadd. */
    method MuticastAdd(pAddr: Address)
      requires Valid() && (Accepts(pAddr) ==> Sane(Fed(payloadMulticast[..], pAddr)))
      modifies this`state, this`resultType, this`chCurrentProbability, encData, payloadMulticast
      ensures payloadMulticast[..] == Fed(old(payloadMulticast[..]), pAddr)
      ensures chCurrentProbability == old(chCurrentProbability)
           + if Accepts(pAddr) && old(chCurrentProbability) < 20 then 5 else 0
      ensures if Accepts(pAddr) && CheckOk(payloadMulticast[..]) then
          resultType == 3 && Finished(payloadMulticast[..])
        else state == old(state) && resultType == old(resultType) && encData[..] == old(encData[..])
    {
      hide Crc8, ParityOk, Index, CheckOk, Finished;
      if !ParityOk(pAddr) {
        return;
      }
      var index := Index(pAddr);
      if index >= 1 && index < PAYLOAD_MAX {
        var payloadIndex := index - 1;
        if payloadIndex > 64 {
          assert false;
        }
        if chCurrentProbability < 20 {
          chCurrentProbability := chCurrentProbability + STEP_MULTICAST_HOLD_CHANNEL;
        }
        payloadMulticast[payloadIndex * 2] := pAddr[4];
        payloadMulticast[payloadIndex * 2 + 1] := pAddr[5];
        assert payloadMulticast[..] == Fed(old(payloadMulticast[..]), pAddr);
        var r := PayLoadCheck(payloadMulticast);
        if r == 0 {
          resultType := 3;
        }
      }
    }

    /** joylink_smnt_broadcastadd: a packet length relative to the synchronising one. */
    method BroadcastAdd(ascii: int)
      requires Valid()
      requires Stores(Collected(), SymbolOf(ascii)) ==> Sane(Received(Collected(), SymbolOf(ascii)).payload)
      modifies this`state, this`resultType, this`chCurrentProbability, this`broadIndex, this`broadcastVersion,
               encData, payloadBroadcast, broadBuffer
      ensures Valid() && Collected() == Received(old(Collected()), SymbolOf(ascii))
      ensures chCurrentProbability == HoldAfter(old(chCurrentProbability), old(Collected()), SymbolOf(ascii))
      ensures broadcastVersion == VersionAfter(old(broadcastVersion), old(Collected()), SymbolOf(ascii))
      ensures if Stores(old(Collected()), SymbolOf(ascii)) && CheckOk(payloadBroadcast[..]) then
          resultType == 2 && Finished(payloadBroadcast[..])
        else state == old(state) && resultType == old(resultType) && encData[..] == old(encData[..])
    {
      hide Crc8, CheckOk, EndsEarly, GroupOf, Sane, GroupOk, Filled, Finished;
      ghost var s := Collected();
      var x := SymbolOf(ascii);
      if x.flag {
        broadIndex := 0;
        broadBuffer[0] := x.byte;
        return;
      }
      if s.index == 1 && GroupOf(s.buffer[0]) == 0 {
        VersionBytes(s, x.byte);
      }
      var finishPacket, last := PutByte(x.byte);
      broadIndex := last;
      if broadIndex >= 4 || finishPacket {
        broadIndex := 0;
        FinishGroup(s, x);
      } else if broadIndex == 2 && GroupOf(broadBuffer[0]) == 0 {
        broadIndex := 0;
        var rCrc := JoylinkSmntCrc(broadBuffer, 1, 2);
        assert broadBuffer[1..3] == Filled(s, x.byte)[1..3];
        if Low3(rCrc) == Low3(broadBuffer[0]) {
          broadcastVersion := broadBuffer[1];
        }
      }
    }

    /** Puts the byte behind the last one; the last group is filled up with zeros when it has two bytes. */
    method PutByte(c: bv8) returns (finishPacket: bool, last: nat)
      requires Valid()
      modifies broadBuffer
      ensures last == broadIndex + 1 && broadBuffer[..] == Filled(old(Collected()), c)
      ensures broadBuffer[0] == old(broadBuffer[0])
      ensures finishPacket <==> last == 2 && EndsEarly(payloadBroadcast[..], broadBuffer[0])
    {
      hide GroupOf;
      last := broadIndex + 1;
      broadBuffer[last] := c;
      finishPacket := false;
      var length := payloadBroadcast[1] as nat;
      if (length + 2) / 4 + 1 == GroupOf(broadBuffer[0]) && length != 0 && length != 0xFF {
        if last == 2 {
          finishPacket := true;
          broadBuffer[3] := 0;
          broadBuffer[4] := 0;
        }
      }
    }

    /** memcpy(payload_broadcast + (index - 1) * 4, broadBuffer + 1, 4). */
    method CopyGroup(index: nat)
      requires Valid() && 0 < index == GroupOf(broadBuffer[0])
      modifies payloadBroadcast
      ensures payloadBroadcast[..] == Stored(old(payloadBroadcast[..]), broadBuffer[..])
    {
      forall k | 0 <= k < 4 {
        payloadBroadcast[(index - 1) * 4 + k] := broadBuffer[1 + k];
      }
    }

    /** A complete group is stored and the payload checked, if the group's own check passes. */
    method FinishGroup(ghost s: Broadcast, ghost x: Symbol)
      requires Valid() && broadIndex == 0 && s.Valid() && !x.flag && Completes(s)
      requires broadBuffer[..] == Filled(s, x.byte) && payloadBroadcast[..] == s.payload
      requires Stores(s, x) ==> Sane(Received(s, x).payload)
      modifies this`state, this`resultType, this`chCurrentProbability, encData, payloadBroadcast
      ensures Collected() == Received(s, x)
      ensures chCurrentProbability == HoldAfter(old(chCurrentProbability), s, x)
      ensures if Stores(s, x) && CheckOk(payloadBroadcast[..]) then
          resultType == 2 && Finished(payloadBroadcast[..])
        else state == old(state) && resultType == old(resultType) && encData[..] == old(encData[..])
    {
      hide Crc8, CheckOk, Filled, Completes, Stored, Sane, GroupOf, Finished;
      ghost var b := broadBuffer[..];
      var index := GroupOf(broadBuffer[0]);
      var rCrc := JoylinkSmntCrc(broadBuffer, 1, 4);
      assert broadBuffer[1..5] == b[1..];
      if index > 0 && index < 33 && Low3(rCrc) == Low3(broadBuffer[0]) {
        CopyGroup(index);
        var r := PayLoadCheck(payloadBroadcast);
        if chCurrentProbability < 30 {
          chCurrentProbability := chCurrentProbability + STEP_BROADCAST_HOLD_CHANNEL;
        }
        if r == 0 {
          resultType := 2;
        }
      } else if chCurrentProbability < 30 {
        chCurrentProbability := chCurrentProbability + STEP_BROADCAST_ERROR_HOLE_CHANNEL;
      }
    }
  }

  // ---- Whole runs ----

  function Unset(): (p: seq<bv8>)
    ensures |p| == 128
  {
    seq(128, _ => 0xFF)
  }

  /** The buffer after addresses received one after the other. */
  function FedAll(buffer: seq<bv8>, ps: seq<Address>): (r: seq<bv8>)
    requires |buffer| == 128
    ensures |r| == 128
  {
    if ps == [] then buffer else Fed(FedAll(buffer, ps[..|ps| - 1]), ps[|ps| - 1])
  }

  /** A payload as the sender makes it: checksum, length, data. */
  predicate Payload(sent: seq<bv8>) {
    && 9 <= |sent| <= 96 && Length(sent) == |sent| - 2
    && sent[0] == Crc8(sent[1..])
  }

  /** The address carries bytes 2k and 2k + 1 of the payload; a missing last byte may be anything. */
  predicate IsFragment(a: Address, sent: seq<bv8>, k: nat) {
    && Accepts(a) && Index(a) == k + 1 && 2 * k < |sent| && a[4] == sent[2 * k]
    && (2 * k + 1 < |sent| ==> a[5] == sent[2 * k + 1])
  }

  /** Only fragments of the payload and addresses that are ignored, in any order and number. */
  predicate FromSender(ps: seq<Address>, sent: seq<bv8>) {
    forall i | 0 <= i < |ps| :: Accepts(ps[i]) ==> IsFragment(ps[i], sent, Index(ps[i]) - 1)
  }

  /** Fragment k is among the addresses. */
  ghost predicate Arrived(ps: seq<Address>, k: nat) {
    exists i :: 0 <= i < |ps| && Accepts(ps[i]) && Index(ps[i]) == k + 1
  }

  /** What has arrived is in place, and the rest is unset. */
  lemma {:induction false} ArrivedInPlace(ps: seq<Address>, sent: seq<bv8>, j: nat)
    requires FromSender(ps, sent) && j < |sent| <= 96
    ensures FedAll(Unset(), ps)[j] == if Arrived(ps, j / 2) then sent[j] else 0xFF
  {
    hide ParityOk, Index;
    if ps != [] {
      var n := |ps| - 1;
      var init, a := ps[..n], ps[n];
      ArrivedInPlace(init, sent, j);
      LastArrived(ps, j / 2);
      var b := FedAll(Unset(), init);
      assert FedAll(Unset(), ps) == Fed(b, a);
      if Accepts(a) {
        assert IsFragment(a, sent, Index(a) - 1);
      }
    }
  }

  lemma LastArrived(ps: seq<Address>, k: nat)
    requires ps != []
    ensures var n := |ps| - 1;
      Arrived(ps, k) <==> Arrived(ps[..n], k) || (Accepts(ps[n]) && Index(ps[n]) == k + 1)
  {
    hide Accepts, Index;
    var n := |ps| - 1;
    if Arrived(ps[..n], k) {
      var i :| 0 <= i < n && Accepts(ps[..n][i]) && Index(ps[..n][i]) == k + 1;
      assert ps[i] == ps[..n][i];
    }
    if Arrived(ps, k) {
      var i :| 0 <= i < |ps| && Accepts(ps[i]) && Index(ps[i]) == k + 1;
      if i < n {
        assert ps[..n][i] == ps[i];
      }
    }
  }

  /** All fragments have arrived. */
  ghost predicate AllArrived(ps: seq<Address>, sent: seq<bv8>) {
    forall k: nat | 2 * k < |sent| :: Arrived(ps, k)
  }

  /**
   In whatever order and however often the fragments come, once all have arrived the buffer begins with the
   payload and the check succeeds.
   */
  lemma Reassembled(ps: seq<Address>, sent: seq<bv8>)
    requires Payload(sent) && FromSender(ps, sent) && AllArrived(ps, sent)
    ensures FedAll(Unset(), ps)[..|sent|] == sent && CheckOk(FedAll(Unset(), ps))
  {
    hide Crc8, Index, Accepts, FedAll;
    var p := FedAll(Unset(), ps);
    forall j | 0 <= j < |sent| ensures p[j] == sent[j] {
      assert Arrived(ps, j / 2);
      ArrivedInPlace(ps, sent, j);
    }
    assert p[..|sent|] == sent;
    assert p[1..Length(p) + 2] == sent[1..];
  }

  /** At every point of such a run the length byte is unset or right, and before the first fragment no check succeeds. */
  lemma RunIsSane(ps: seq<Address>, sent: seq<bv8>)
    requires Payload(sent) && FromSender(ps, sent)
    ensures Sane(FedAll(Unset(), ps)) && (!Arrived(ps, 0) ==> !CheckOk(FedAll(Unset(), ps)))
  {
    hide Crc8, Index, Accepts, FedAll;
    ArrivedInPlace(ps, sent, 1);
    UnsetLength();
  }

  lemma UnsetLength()
    ensures (0xFF as bv8) as nat == 255
  {
  }

  /** The address that completes the set is accepted, so the receiver finishes with it at the latest. */
  lemma FinishesWithLastFragment(ps: seq<Address>, a: Address, sent: seq<bv8>)
    requires Payload(sent) && FromSender(ps + [a], sent)
    requires !AllArrived(ps, sent) && AllArrived(ps + [a], sent)
    ensures Accepts(a) && CheckOk(FedAll(Unset(), ps + [a])) && FedAll(Unset(), ps + [a]) == Fed(FedAll(Unset(), ps), a)
  {
    hide Index, Accepts, CheckOk, Fed;
    Reassembled(ps + [a], sent);
    var k: nat :| 2 * k < |sent| && !Arrived(ps, k);
    assert (ps + [a])[..|ps|] == ps;
    LastArrived(ps + [a], k);
  }

  /**
   What the sender encrypted is what the receiver's result holds: m is the text, `sent` the payload made of its
   ciphertext, and p what an accepted payload is decrypted to.
   */
  lemma TextDelivered(box: AesRounds.SBox, key: seq<bv8>, m: seq<bv8>, ps: seq<Address>, sent: seq<bv8>, p: seq<bv8>)
    requires box.Good() && |key| == 16 && m != []
    requires Payload(sent) && FromSender(ps, sent) && AllArrived(ps, sent)
    requires var keys := AesKeys.Schedule(box, AesCipher.KeyWords(key));
      var received := FedAll(Unset(), ps);
      && AesCbc.Enciphered(box, keys, ZEROS, AesDevice.Pad(m), sent[2..])
      && AesCbc.Deciphered(box, AesRounds.InverseKeys(keys), ZEROS, received[2..Length(sent) + 2], p)
    ensures p != [] && PaddingOk(p) && AesDevice.Unpadded(p) == |m| && p[..|m|] == m
  {
    hide AesKeys.Schedule, AesCipher.KeyWords, AesRounds.InverseKeys, AesCbc.Enciphered, AesCbc.Deciphered;
    hide Crc8, FedAll, FromSender, AllArrived, CheckOk, AesDevice.Unpadded;
    Reassembled(ps, sent);
    var received := FedAll(Unset(), ps);
    assert received[2..Length(sent) + 2] == received[..|sent|][2..] == sent[2..];
    AesDevice.DeviceRoundTrip(box, key, ZEROS, m, sent[2..], p);
    CipherLength(box, AesKeys.Schedule(box, AesCipher.KeyWords(key)), m, sent[2..]);
  }

  /** The text that carries a password and a name: the length of the password, the password, six bytes, the name. */
  function TextOf(first: bv8, password: seq<bv8>, six: seq<bv8>, ssid: seq<bv8>): seq<bv8> {
    [first] + password + six + ssid
  }

  lemma TextParts(first: bv8, password: seq<bv8>, six: seq<bv8>, ssid: seq<bv8>)
    ensures var m := TextOf(first, password, six, ssid);
      && |m| == 1 + |password| + |six| + |ssid| && m[0] == first
      && m[1..|password| + 1] == password && m[|password| + |six| + 1..|m|] == ssid
  {
  }

  /** Such a text, at the beginning of the decrypted data, is split into just these. */
  lemma NameDelivered(first: bv8, password: seq<bv8>, six: seq<bv8>, ssid: seq<bv8>, p: seq<bv8>)
    requires first as nat == |password| <= PASSWORD_SIZE && |six| == 6 && |ssid| <= SSID_SIZE
    requires var m := TextOf(first, password, six, ssid); |m| <= |p| && p[..|m|] == m
    ensures var n, ret := |password|, |TextOf(first, password, six, ssid)|;
      p[0] as nat == n && SplitFits(n, ret) && p[1..n + 1] == password && p[n + 7..ret] == ssid
  {
    hide TextOf;
    var n, m := |password|, TextOf(first, password, six, ssid);
    TextParts(first, password, six, ssid);
    assert p[0] == p[..|m|][0];
    WithinPrefix(p, m, 1, n + 1);
    WithinPrefix(p, m, n + 7, |m|);
  }

  lemma WithinPrefix(p: seq<bv8>, m: seq<bv8>, a: nat, b: nat)
    requires a <= b <= |m| <= |p| && p[..|m|] == m
    ensures p[a..b] == m[a..b]
  {
    forall k | a <= k < b ensures p[k] == m[k] {
      assert p[k] == p[..|m|][k];
    }
  }

  lemma CipherLength(box: AesRounds.SBox, keys: seq<AesRounds.State>, m: seq<bv8>, c: seq<bv8>)
    requires AesCbc.Enciphered(box, keys, ZEROS, AesDevice.Pad(m), c)
    ensures |m| < |c|
  {
  }
}
