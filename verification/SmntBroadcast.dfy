/** What the broadcast half of the SmartConfig receiver collects over whole runs. */
module SmntBroadcast {
  import opened Crc
  import opened Smnt

  function Feed(s: Broadcast, xs: seq<Symbol>): (r: Broadcast)
    requires s.Valid()
    ensures r.Valid()
  {
    if xs == [] then s else Received(Feed(s, xs[..|xs| - 1]), xs[|xs| - 1])
  }

  // ---- Groups as the sender makes them ----

  /** Byte j of the payload; groups are filled up with zeros. */
  function ByteAt(sent: seq<bv8>, j: nat): bv8 {
    if j < |sent| then sent[j] else 0
  }

  function GroupBytes(sent: seq<bv8>, k: nat): (r: seq<bv8>)
    ensures |r| == 4
  {
    [ByteAt(sent, 4 * k), ByteAt(sent, 4 * k + 1), ByteAt(sent, 4 * k + 2), ByteAt(sent, 4 * k + 3)]
  }

  function Header(i: bv8, c: bv8): bv8 {
    (i << 3) | (c & 7)
  }

  /** Eight times the number, and the checksum modulo 8. */
  lemma HeaderIs(i: bv8, c: bv8)
    requires i < 32
    ensures Header(i, c) == i * 8 + c % 8
  {
  }

  lemma HeaderParts(i: bv8, c: bv8)
    requires i < 32
    ensures High5(Header(i, c)) == i && Low3(Header(i, c)) == Low3(c)
  {
  }

  /** The header of group k: its number, counted from 1, and three bits of the checksum of its bytes. */
  predicate IsHeader(h: bv8, bytes: seq<bv8>, k: nat) {
    GroupOf(h) == k + 1 && Low3(h) == Low3(Crc8(bytes))
  }

  lemma HeaderExists(bytes: seq<bv8>, k: nat)
    requires k < 31
    ensures IsHeader(Header((k + 1) as bv8, Crc8(bytes)), bytes, k)
  {
    HeaderParts((k + 1) as bv8, Crc8(bytes));
  }

  /** The header, then the first `n` bytes of the group. */
  function Frame(h: bv8, bytes: seq<bv8>, n: nat): (xs: seq<Symbol>)
    requires |bytes| == 4 && n <= 4
    ensures |xs| == n + 1
  {
    [Symbol(true, h)] + seq(n, i requires 0 <= i < n => Symbol(false, bytes[i]))
  }

  // ---- One frame ----

  lemma FrameFront(h: bv8, bytes: seq<bv8>, n: nat)
    requires |bytes| == 4 && n < 4
    ensures Frame(h, bytes, n + 1)[..n + 1] == Frame(h, bytes, n) && Frame(h, bytes, n + 1)[n + 1] == Symbol(false, bytes[n])
    ensures Frame(h, bytes, 0) == [Symbol(true, h)]
  {
  }

  /** The header and the first byte, in whatever state they come. */
  lemma TwoSymbols(s: Broadcast, h: bv8, bytes: seq<bv8>)
    requires s.Valid() && |bytes| == 4
    ensures var r := Feed(s, Frame(h, bytes, 1));
      r.index == 1 && r.buffer == [h, bytes[0], s.buffer[2], s.buffer[3], s.buffer[4]] && r.payload == s.payload
  {
    FrameFront(h, bytes, 0);
    assert Feed(s, [Symbol(true, h)]) == Received(Feed(s, []), Symbol(true, h));
  }

  /** A group whose four bytes are expected is stored when the fourth is there. */
  lemma LongFrame(s: Broadcast, h: bv8, bytes: seq<bv8>, k: nat)
    requires s.Valid() && |bytes| == 4 && IsHeader(h, bytes, k) && !EndsEarly(s.payload, h)
    ensures Feed(s, Frame(h, bytes, 4)) == Broadcast(0, [h] + bytes, Stored(s.payload, [h] + bytes))
    ensures Stores(Feed(s, Frame(h, bytes, 3)), Symbol(false, bytes[3]))
  {
    hide Crc8, GroupOf, EndsEarly, Low3, Frame, Stored;
    TwoSymbols(s, h, bytes);
    ThreeBytes(s, h, bytes);
    FrameFront(h, bytes, 3);
    var t := Feed(s, Frame(h, bytes, 3));
    assert ([h] + bytes)[1..] == bytes;
    assert Filled(t, bytes[3]) == [h] + bytes;
  }

  lemma ByteCollected(s: Broadcast, c: bv8)
    requires s.Valid() && 0 < s.index < 3 && GroupOf(s.buffer[0]) > 0 && !EndsEarly(s.payload, s.buffer[0])
    ensures Received(s, Symbol(false, c)) == Broadcast(s.index + 1, s.buffer[s.index + 1 := c], s.payload)
  {
    hide Crc8, GroupOf, EndsEarly, GroupOk;
  }

  lemma ThreeBytes(s: Broadcast, h: bv8, bytes: seq<bv8>)
    requires s.Valid() && |bytes| == 4 && GroupOf(h) > 0 && !EndsEarly(s.payload, h)
    ensures Feed(s, Frame(h, bytes, 3)) == Broadcast(3, [h, bytes[0], bytes[1], bytes[2], s.buffer[4]], s.payload)
  {
    hide Received, GroupOf, EndsEarly, Frame;
    TwoSymbols(s, h, bytes);
    FrameFront(h, bytes, 1);
    FrameFront(h, bytes, 2);
    ByteCollected(Feed(s, Frame(h, bytes, 1)), bytes[1]);
    ByteCollected(Feed(s, Frame(h, bytes, 2)), bytes[2]);
  }

  /** A group that ends early is stored after two bytes, filled up with zeros. */
  lemma ShortFrame(s: Broadcast, h: bv8, bytes: seq<bv8>, k: nat)
    requires s.Valid() && |bytes| == 4 && IsHeader(h, bytes, k) && EndsEarly(s.payload, h)
    requires bytes[2] == 0 && bytes[3] == 0
    ensures Feed(s, Frame(h, bytes, 2)) == Broadcast(0, [h] + bytes, Stored(s.payload, [h] + bytes))
    ensures var t := Feed(s, Frame(h, bytes, 1)); Stores(t, Symbol(false, bytes[1]))
  {
    hide Crc8, GroupOf, EndsEarly, Low3, Frame, Stored;
    TwoSymbols(s, h, bytes);
    FrameFront(h, bytes, 1);
    var t := Feed(s, Frame(h, bytes, 1));
    assert ([h] + bytes)[1..] == bytes;
    assert Filled(t, bytes[1]) == [h] + bytes;
  }

  /** Two bytes of a group that is not known to end there store nothing. */
  lemma UnknownFrame(s: Broadcast, h: bv8, bytes: seq<bv8>)
    requires s.Valid() && |bytes| == 4 && !EndsEarly(s.payload, h)
    ensures Feed(s, Frame(h, bytes, 2)).payload == s.payload
  {
    hide Crc8, GroupOf, EndsEarly, Frame;
    TwoSymbols(s, h, bytes);
    FrameFront(h, bytes, 1);
  }

  /** Half of a group, filled up with zeros, has the checksum in the header of the whole one. */
  predicate HalfPasses(x: bv8, y: bv8, bytes: seq<bv8>) {
    Low3(Crc8([x, y, 0, 0])) == Low3(Crc8(bytes))
  }

  /** The payload after half of a group ended it early. */
  function HalfStored(payload: seq<bv8>, h: bv8, x: bv8, y: bv8, bytes: seq<bv8>): (r: seq<bv8>)
    requires |payload| == 128 && GroupOf(h) > 0
    ensures |r| == 128
  {
    if HalfPasses(x, y, bytes) then Stored(payload, [h, x, y, 0, 0]) else payload
  }

  lemma HalfReceived(s: Broadcast, h: bv8, x: bv8, y: bv8, bytes: seq<bv8>, k: nat)
    requires s.Valid() && s.index == 1 && s.buffer[0] == h && s.buffer[1] == x
    requires IsHeader(h, bytes, k) && EndsEarly(s.payload, h)
    ensures Received(s, Symbol(false, y)) == Broadcast(0, [h, x, y, 0, 0], HalfStored(s.payload, h, x, y, bytes))
    ensures HalfPasses(x, y, bytes) ==> Stores(s, Symbol(false, y))
  {
    hide Crc8, GroupOf, EndsEarly, Low3, Stored;
    assert Filled(s, y) == [h, x, y, 0, 0];
    assert [h, x, y, 0, 0][1..] == [x, y, 0, 0];
  }

  /** A group of four bytes that is taken to end early: both halves are tried, the second over the first. */
  lemma LateFrame(s: Broadcast, h: bv8, bytes: seq<bv8>, k: nat)
    requires s.Valid() && |bytes| == 4 && k > 0 && IsHeader(h, bytes, k) && EndsEarly(s.payload, h)
    ensures var p := HalfStored(s.payload, h, bytes[0], bytes[1], bytes);
      && Feed(s, Frame(h, bytes, 2)).payload == p
      && Feed(s, Frame(h, bytes, 4)).payload == HalfStored(p, h, bytes[2], bytes[3], bytes)
      && (HalfPasses(bytes[0], bytes[1], bytes) ==> Stores(Feed(s, Frame(h, bytes, 1)), Symbol(false, bytes[1])))
  {
    hide Crc8, GroupOf, EndsEarly, Low3, Frame, Stored, HalfStored, HalfPasses, IsHeader, Received;
    TwoSymbols(s, h, bytes);
    FrameFront(h, bytes, 1);
    FrameFront(h, bytes, 2);
    FrameFront(h, bytes, 3);
    HalfReceived(Feed(s, Frame(h, bytes, 1)), h, bytes[0], bytes[1], bytes, k);
    var t := Feed(s, Frame(h, bytes, 2));
    LengthKept(s.payload, h, bytes[0], bytes[1], bytes, k);
    FirstAgain(t, bytes[2]);
    HalfReceived(Feed(s, Frame(h, bytes, 3)), h, bytes[2], bytes[3], bytes, k);
  }

  lemma FirstAgain(t: Broadcast, c: bv8)
    requires t.Valid() && t.index == 0
    ensures Received(t, Symbol(false, c)) == Broadcast(1, t.buffer[1 := c], t.payload)
  {
    hide Crc8, GroupOf, EndsEarly, GroupOk;
  }

  lemma LengthKept(payload: seq<bv8>, h: bv8, x: bv8, y: bv8, bytes: seq<bv8>, k: nat)
    requires |payload| == 128 && k > 0 && IsHeader(h, bytes, k)
    ensures EndsEarly(HalfStored(payload, h, x, y, bytes), h) <==> EndsEarly(payload, h)
  {
    hide Crc8, GroupOf, HalfPasses, Low3, Stored;
    assert [h] + [x, y, 0, 0] == [h, x, y, 0, 0];
    StoredAt(payload, h, [x, y, 0, 0], k, 1);
  }

  lemma StoredAt(payload: seq<bv8>, h: bv8, bytes: seq<bv8>, k: nat, j: nat)
    requires |payload| == 128 && |bytes| == 4 && GroupOf(h) == k + 1 && j < 128
    ensures Stored(payload, [h] + bytes)[j] == if j / 4 == k then bytes[j % 4] else payload[j]
  {
    hide GroupOf;
    assert j == 4 * (j / 4) + j % 4;
  }

  // ---- Runs of frames ----

  /** A payload as the sender makes it. */
  predicate BroadcastPayload(sent: seq<bv8>) {
    9 <= |sent| <= 98 && Length(sent) == |sent| - 2 && sent[0] == Crc8(sent[1..])
  }

  /** Group k is the last one and not whole. */
  predicate Partial(sent: seq<bv8>, k: nat) {
    k == |sent| / 4
  }

  /** The last group has three bytes. */
  predicate Three(sent: seq<bv8>) {
    |sent| % 4 == 3
  }

  /** A last group of one or two bytes is sent with two, all others with four. */
  function FrameOf(sent: seq<bv8>, k: nat): (xs: seq<Symbol>)
    requires k < 31
    ensures |xs| > 0
  {
    var bytes := GroupBytes(sent, k);
    Frame(Header((k + 1) as bv8, Crc8(bytes)), bytes, if Partial(sent, k) && !Three(sent) then 2 else 4)
  }

  /** Frames of groups of the payload, in any order and number. */
  predicate FromSender(ks: seq<nat>, sent: seq<bv8>) {
    |sent| <= 98 && forall i | 0 <= i < |ks| :: 4 * ks[i] < |sent|
  }

  function Start(): (s: Broadcast)
    ensures s.Valid()
  {
    Broadcast(0, [0, 0, 0, 0, 0], Unset())
  }

  function After(sent: seq<bv8>, ks: seq<nat>): (s: Broadcast)
    requires FromSender(ks, sent)
    ensures s.Valid()
  {
    if ks == [] then Start() else Feed(After(sent, ks[..|ks| - 1]), FrameOf(sent, ks[|ks| - 1]))
  }

  /** A frame of group k came after one of group 0, which brings the length. */
  predicate CameLate(ks: seq<nat>, k: nat) {
    exists i | 0 <= i < |ks| :: ks[i] == k && 0 in ks[..i]
  }

  /** A frame of group k came before any of group 0. */
  predicate CameEarly(ks: seq<nat>, k: nat) {
    exists i | 0 <= i < |ks| :: ks[i] == k && 0 !in ks[..i]
  }

  lemma CameNext(ks: seq<nat>, x: nat, k: nat)
    ensures CameLate(ks + [x], k) <==> CameLate(ks, k) || (x == k && 0 in ks)
    ensures CameEarly(ks + [x], k) <==> CameEarly(ks, k) || (x == k && 0 !in ks)
    ensures CameLate(ks, k) ==> 0 in ks
  {
    var more := ks + [x];
    assert more[..|ks|] == ks && more[|ks|] == x;
    assert forall i | 0 <= i < |ks| :: more[i] == ks[i] && more[..i] == ks[..i];
    if CameLate(ks, k) {
      var i :| 0 <= i < |ks| && ks[i] == k && 0 in ks[..i];
      assert more[i] == k && 0 in more[..i];
    }
    if CameEarly(ks, k) {
      var i :| 0 <= i < |ks| && ks[i] == k && 0 !in ks[..i];
      assert more[i] == k && 0 !in more[..i];
    }
  }

  /** A late frame of a last group of three bytes stores one of its halves. */
  predicate LateStores(bytes: seq<bv8>)
    requires |bytes| == 4
  {
    HalfPasses(bytes[0], bytes[1], bytes) || HalfPasses(bytes[2], bytes[3], bytes)
  }

  /** Byte i of the group after a late frame that stores. */
  function LateByte(bytes: seq<bv8>, i: nat): bv8
    requires |bytes| == 4 && i < 4
  {
    if i >= 2 then 0
    else if HalfPasses(bytes[2], bytes[3], bytes) then bytes[2 + i]
    else bytes[i]
  }

  /** What a run of frames leaves at byte j of the payload. */
  function Held(sent: seq<bv8>, ks: seq<nat>, j: nat): bv8
    requires j < |sent|
  {
    var k := j / 4;
    if !Partial(sent, k) then (if k in ks then sent[j] else 0xFF)
    else if !Three(sent) then (if CameLate(ks, k) then sent[j] else 0xFF)
    else if CameLate(ks, k) && LateStores(GroupBytes(sent, k)) then LateByte(GroupBytes(sent, k), j % 4)
    else if CameEarly(ks, k) then sent[j]
    else 0xFF
  }

  lemma EndsWhenKnown(sent: seq<bv8>, p: seq<bv8>, k: nat, known: bool)
    requires BroadcastPayload(sent) && |p| == 128 && 4 * k < |sent| && p[1] == if known then sent[1] else 0xFF
    ensures var bytes := GroupBytes(sent, k);
      var h := Header((k + 1) as bv8, Crc8(bytes));
      EndsEarly(p, h) <==> known && Partial(sent, k)
  {
    var bytes := GroupBytes(sent, k);
    HeaderExists(bytes, k);
    hide Crc8, GroupOf, Header;
    UnsetLength();
  }

  /** What one frame makes of byte j of its group. */
  function NewByte(sent: seq<bv8>, j: nat, known: bool, was: bv8): bv8
    requires j < |sent|
  {
    var bytes := GroupBytes(sent, j / 4);
    if !Partial(sent, j / 4) then sent[j]
    else if !Three(sent) then (if known then sent[j] else was)
    else if !known then sent[j]
    else if LateStores(bytes) then LateByte(bytes, j % 4)
    else was
  }

  lemma FrameEffect(sent: seq<bv8>, s: Broadcast, k: nat, j: nat, known: bool)
    requires BroadcastPayload(sent) && s.Valid() && 4 * k < |sent| && j < |sent|
    requires s.payload[1] == if known then sent[1] else 0xFF
    ensures Feed(s, FrameOf(sent, k)).payload[j]
         == if j / 4 == k then NewByte(sent, j, known, s.payload[j]) else s.payload[j]
  {
    hide Crc8, GroupOf, Header, Frame, Stored, Feed, EndsEarly, Length, LateStores, LateByte;
    var bytes := GroupBytes(sent, k);
    var h := Header((k + 1) as bv8, Crc8(bytes));
    HeaderExists(bytes, k);
    EndsWhenKnown(sent, s.payload, k, known);
    StoredAt(s.payload, h, bytes, k, j);
    BytesOfGroup(sent, k, j);
    if !Partial(sent, k) || (Three(sent) && !known) {
      LongFrame(s, h, bytes, k);
    } else if !Three(sent) {
      if known {
        ShortFrame(s, h, bytes, k);
      } else {
        UnknownFrame(s, h, bytes);
      }
    } else {
      LateFrame(s, h, bytes, k);
      LateEffect(s.payload, h, bytes, k, j);
    }
  }

  lemma LateEffect(payload: seq<bv8>, h: bv8, bytes: seq<bv8>, k: nat, j: nat)
    requires |payload| == 128 && |bytes| == 4 && GroupOf(h) == k + 1 && j < 128 && bytes[3] == 0
    ensures HalfStored(HalfStored(payload, h, bytes[0], bytes[1], bytes), h, bytes[2], bytes[3], bytes)[j]
         == if j / 4 == k && LateStores(bytes) then LateByte(bytes, j % 4) else payload[j]
  {
    hide GroupOf, HalfPasses, Stored;
    var b0, b1, b2, b3 := bytes[0], bytes[1], bytes[2], bytes[3];
    var p := HalfStored(payload, h, b0, b1, bytes);
    assert [h] + [b0, b1, 0, 0] == [h, b0, b1, 0, 0] && [h] + [b2, b3, 0, 0] == [h, b2, b3, 0, 0];
    StoredAt(payload, h, [b0, b1, 0, 0], k, j);
    StoredAt(p, h, [b2, b3, 0, 0], k, j);
  }

  lemma BytesOfGroup(sent: seq<bv8>, k: nat, j: nat)
    requires 4 * k < |sent| && j < |sent|
    ensures var bytes := GroupBytes(sent, k);
      && (j / 4 == k ==> bytes[j % 4] == sent[j])
      && (Partial(sent, k) ==> bytes[3] == 0 && (!Three(sent) ==> bytes[2] == 0))
  {
    assert j == 4 * (j / 4) + j % 4;
  }

  lemma HeldNext(sent: seq<bv8>, ks: seq<nat>, k: nat, j: nat)
    requires j < |sent|
    ensures Held(sent, ks + [k], j)
         == if j / 4 == k then NewByte(sent, j, 0 in ks, Held(sent, ks, j)) else Held(sent, ks, j)
  {
    hide CameLate, CameEarly, LateStores, LateByte, GroupBytes;
    CameNext(ks, k, j / 4);
  }

  /** At every point of a run each byte is as the order of the frames of its group and of group 0 says. */
  lemma {:induction false} ArrivedInPlace(sent: seq<bv8>, ks: seq<nat>, j: nat)
    requires BroadcastPayload(sent) && FromSender(ks, sent) && j < |sent|
    ensures After(sent, ks).payload[j] == Held(sent, ks, j)
    decreases ks
  {
    hide Crc8, FrameOf, Feed, BroadcastPayload, NewByte, LateStores, LateByte, GroupBytes;
    if ks != [] {
      var n := |ks| - 1;
      var front := ks[..n];
      var s := After(sent, front);
      assert front + [ks[n]] == ks;
      assert |sent| >= 9 by { Long(sent); }
      ArrivedInPlace(sent, front, 1);
      ArrivedInPlace(sent, front, j);
      FrameEffect(sent, s, ks[n], j, 0 in front);
      HeldNext(sent, front, ks[n], j);
    }
  }

  lemma Long(sent: seq<bv8>)
    requires BroadcastPayload(sent)
    ensures 9 <= |sent| <= 98 && Length(sent) == |sent| - 2 && sent[0] == Crc8(sent[1..])
  {
  }

  // ---- When the payload is received ----

  /** The bytes of the group are what the buffer holds before anything arrives. */
  predicate Blank(sent: seq<bv8>, k: nat) {
    forall j | 4 * k <= j < 4 * k + 4 && j < |sent| :: sent[j] == 0xFF
  }

  /** What a late frame of a last group of three bytes stores is the group. */
  predicate LateFits(bytes: seq<bv8>)
    requires |bytes| == 4
  {
    bytes[2] == 0 && (HalfPasses(bytes[2], bytes[3], bytes) ==> bytes[0] == 0 && bytes[1] == 0)
  }

  /** The order of the frames leaves group k as it was sent. */
  predicate Right(sent: seq<bv8>, ks: seq<nat>, k: nat) {
    var bytes := GroupBytes(sent, k);
    if !Partial(sent, k) then k in ks || Blank(sent, k)
    else if !Three(sent) then CameLate(ks, k) || Blank(sent, k)
    else if CameLate(ks, k) && LateStores(bytes) then LateFits(bytes)
    else CameEarly(ks, k) || Blank(sent, k)
  }

  lemma GroupHeld(sent: seq<bv8>, ks: seq<nat>, k: nat)
    requires 4 * k < |sent|
    ensures Right(sent, ks, k) <==> forall j | 4 * k <= j < 4 * k + 4 && j < |sent| :: Held(sent, ks, j) == sent[j]
  {
    hide CameLate, CameEarly, HalfPasses;
    var bytes := GroupBytes(sent, k);
    forall j | 4 * k <= j < 4 * k + 4 && j < |sent| ensures j / 4 == k && j % 4 == j - 4 * k {
    }
    if Partial(sent, k) && Three(sent) && CameLate(ks, k) && LateStores(bytes) {
      assert |sent| == 4 * k + 3;
      assert Held(sent, ks, 4 * k) == LateByte(bytes, 0);
      assert Held(sent, ks, 4 * k + 1) == LateByte(bytes, 1);
      assert Held(sent, ks, 4 * k + 2) == LateByte(bytes, 2);
    } else if !Right(sent, ks, k) {
      var j :| 4 * k <= j < 4 * k + 4 && j < |sent| && sent[j] != 0xFF;
      assert Held(sent, ks, j) != sent[j];
    }
  }

  predicate Complete(sent: seq<bv8>, ks: seq<nat>) {
    forall k | 0 <= k <= |sent| :: 4 * k < |sent| ==> Right(sent, ks, k)
  }

  /** The buffer begins with the payload if and only if every group came as it must, and then the check succeeds. */
  lemma Reassembled(sent: seq<bv8>, ks: seq<nat>)
    requires BroadcastPayload(sent) && FromSender(ks, sent)
    ensures After(sent, ks).payload[..|sent|] == sent <==> Complete(sent, ks)
    ensures Complete(sent, ks) ==> CheckOk(After(sent, ks).payload)
  {
    hide Crc8, After, Right, Held, BroadcastPayload;
    Long(sent);
    var p := After(sent, ks).payload;
    forall j | 0 <= j < |sent| ensures p[j] == Held(sent, ks, j) && j / 4 <= |sent| && 4 * (j / 4) <= j < 4 * (j / 4) + 4 {
      ArrivedInPlace(sent, ks, j);
    }
    forall k | 0 <= k <= |sent| && 4 * k < |sent|
      ensures Right(sent, ks, k) <==> forall j | 4 * k <= j < 4 * k + 4 && j < |sent| :: p[j] == sent[j]
    {
      GroupHeld(sent, ks, k);
    }
    if Complete(sent, ks) {
      forall j | 0 <= j < |sent| ensures p[j] == sent[j] {
        assert Right(sent, ks, j / 4);
      }
      assert p[..|sent|] == sent;
      assert p[1..Length(p) + 2] == sent[1..];
    }
    if p[..|sent|] == sent {
      assert forall j | 0 <= j < |sent| :: p[j] == p[..|sent|][j];
    }
  }

  /** The last group has three bytes, and the third is not what the receiver puts in its place. */
  predicate Endangered(sent: seq<bv8>) {
    BroadcastPayload(sent) && Three(sent) && sent[|sent| - 1] != 0
  }

  /**
   A payload whose last group has three bytes, the third of them not 0, is received if and only if all other groups
   came, the last one came before the length, and none of its frames that came later stored one of its halves.
   */
  lemma ThreeReceived(sent: seq<bv8>, ks: seq<nat>)
    requires Endangered(sent) && FromSender(ks, sent)
    ensures var last := |sent| / 4;
      var bytes := GroupBytes(sent, last);
      After(sent, ks).payload[..|sent|] == sent <==>
        && (forall k | 0 <= k < last :: k in ks || Blank(sent, k))
        && (CameEarly(ks, last) || Blank(sent, last))
        && !(CameLate(ks, last) && (HalfPasses(bytes[0], bytes[1], bytes) || HalfPasses(bytes[2], 0, bytes)))
  {
    hide Crc8, After, CameLate, CameEarly, Blank, HalfPasses, GroupBytes, Right;
    Reassembled(sent, ks);
    var last := |sent| / 4;
    forall k | 0 <= k <= last
      ensures 4 * k < |sent|
      ensures k < last ==> (Right(sent, ks, k) <==> k in ks || Blank(sent, k))
    {
      if k < last {
        RightWhole(sent, ks, k);
      }
    }
    RightThree(sent, ks);
    assert Complete(sent, ks) <==> (forall k | 0 <= k < last :: Right(sent, ks, k)) && Right(sent, ks, last);
  }

  lemma RightWhole(sent: seq<bv8>, ks: seq<nat>, k: nat)
    requires k < |sent| / 4
    ensures Right(sent, ks, k) <==> k in ks || Blank(sent, k)
  {
    hide CameLate, CameEarly, Blank, HalfPasses;
  }

  lemma RightThree(sent: seq<bv8>, ks: seq<nat>)
    requires Three(sent) && sent[|sent| - 1] != 0
    ensures var last := |sent| / 4;
      var bytes := GroupBytes(sent, last);
      Right(sent, ks, last) <==>
        && (CameEarly(ks, last) || Blank(sent, last))
        && !(CameLate(ks, last) && (HalfPasses(bytes[0], bytes[1], bytes) || HalfPasses(bytes[2], 0, bytes)))
  {
    hide CameLate, CameEarly, Blank, HalfPasses;
    var last := |sent| / 4;
    assert GroupBytes(sent, last)[2] == sent[|sent| - 1] && GroupBytes(sent, last)[3] == 0;
  }

  /** Such a payload is never received by a run that begins with its first group. */
  lemma InOrderNeverReceived(sent: seq<bv8>, ks: seq<nat>)
    requires Endangered(sent) && FromSender(ks, sent) && ks != [] && ks[0] == 0
    requires !Blank(sent, |sent| / 4)
    ensures After(sent, ks).payload[..|sent|] != sent
  {
    hide Crc8, After, Blank, HalfPasses;
    ThreeReceived(sent, ks);
    var last := |sent| / 4;
    forall i | 0 <= i < |ks| && ks[i] == last ensures 0 in ks[..i] {
      assert ks[..i][0] == 0;
    }
  }

  /** Eleven bytes, nine of them data: however often its groups are sent after the first one, it is not received. */
  lemma ElevenBytesLost(ks: seq<nat>)
    requires ks != [] && ks[0] == 0 && forall i | 0 <= i < |ks| :: ks[i] < 3
    ensures var data := [9, 1, 2, 3, 4, 5, 6, 7, 8, 9];
      var sent := [Crc8(data)] + data;
      Endangered(sent) && FromSender(ks, sent) && After(sent, ks).payload[..11] != sent
  {
    hide Crc8, After, HalfPasses;
    var data: seq<bv8> := [9, 1, 2, 3, 4, 5, 6, 7, 8, 9];
    var sent := [Crc8(data)] + data;
    assert sent[1..] == data;
    assert sent[8] == 7;
    InOrderNeverReceived(sent, ks);
  }

  // ---- The last frame ----

  lemma LengthKeptBy(t: Broadcast, h: bv8, c: bv8)
    requires t.Valid() && t.buffer[0] == h && GroupOf(h) != 1
    ensures var r := Received(t, Symbol(false, c)); r.buffer[0] == h && r.payload[1] == t.payload[1]
  {
    hide Crc8, GroupOf, EndsEarly, Low3;
    var b := Filled(t, c);
    if GroupOk(b) {
      assert [b[0]] + b[1..] == b;
      StoredAt(t.payload, b[0], b[1..], GroupOf(b[0]) - 1, 1);
    }
  }

  /** A frame of a group other than the first leaves the length byte alone. */
  lemma {:induction false} LengthInFrame(s: Broadcast, h: bv8, bytes: seq<bv8>, n: nat, m: nat)
    requires s.Valid() && |bytes| == 4 && n <= 4 && m <= n + 1 && GroupOf(h) != 1
    ensures var r := Feed(s, Frame(h, bytes, n)[..m]);
      r.payload[1] == s.payload[1] && (m > 0 ==> r.buffer[0] == h)
    decreases m
  {
    hide Received, GroupOf;
    var xs := Frame(h, bytes, n);
    if m == 0 {
      assert xs[..0] == [];
    } else {
      LengthInFrame(s, h, bytes, n, m - 1);
      assert xs[..m][..m - 1] == xs[..m - 1];
      var t := Feed(s, xs[..m - 1]);
      if m == 1 {
        HeaderOnly(t, h);
      } else {
        LengthKeptBy(t, h, bytes[m - 2]);
      }
    }
  }

  lemma HeaderOnly(t: Broadcast, h: bv8)
    requires t.Valid()
    ensures Received(t, Symbol(true, h)) == Broadcast(0, t.buffer[0 := h], t.payload)
  {
  }

  /** A frame whose four bytes are expected leaves the payload alone up to its last symbol. */
  lemma PayloadInFrame(s: Broadcast, h: bv8, bytes: seq<bv8>, m: nat)
    requires s.Valid() && |bytes| == 4 && m <= 4 && GroupOf(h) > 0 && !EndsEarly(s.payload, h)
    ensures Feed(s, Frame(h, bytes, 4)[..m]).payload == s.payload
  {
    hide Received, Feed, GroupOf, EndsEarly;
    var xs := Frame(h, bytes, 4);
    if m == 0 {
      assert xs[..0] == [];
      FeedNothing(s);
    } else {
      assert xs[..m] == Frame(h, bytes, m - 1);
      if m == 1 {
        HeaderAlone(s, h, bytes);
      } else if m == 2 {
        TwoSymbols(s, h, bytes);
      } else if m == 3 {
        NextByteKept(s, h, bytes);
      } else {
        ThreeBytes(s, h, bytes);
      }
    }
  }

  lemma FeedNothing(s: Broadcast)
    requires s.Valid()
    ensures Feed(s, []) == s
  {
  }

  lemma HeaderAlone(s: Broadcast, h: bv8, bytes: seq<bv8>)
    requires s.Valid() && |bytes| == 4
    ensures Feed(s, Frame(h, bytes, 0)).payload == s.payload
  {
    hide GroupOf, EndsEarly;
    var xs := Frame(h, bytes, 0);
    assert xs == [Symbol(true, h)] && xs[..0] == [];
    HeaderOnly(s, h);
  }

  lemma NextByteKept(s: Broadcast, h: bv8, bytes: seq<bv8>)
    requires s.Valid() && |bytes| == 4 && GroupOf(h) > 0 && !EndsEarly(s.payload, h)
    ensures Feed(s, Frame(h, bytes, 2)).payload == s.payload
  {
    UnknownFrame(s, h, bytes);
  }

  /** At every symbol of such a run the length byte is unset or right. */
  lemma RunIsSane(sent: seq<bv8>, ks: seq<nat>, k: nat, m: nat)
    requires BroadcastPayload(sent) && FromSender(ks, sent) && FromSender(ks + [k], sent)
    requires k < 31 && m <= |FrameOf(sent, k)|
    ensures Sane(Feed(After(sent, ks), FrameOf(sent, k)[..m]).payload)
  {
    hide Crc8, After, BroadcastPayload, Feed, Frame, GroupOf, Header, CheckOk;
    Long(sent);
    assert (ks + [k])[|ks|] == k;
    ArrivedInPlace(sent, ks, 1);
    var s, bytes := After(sent, ks), GroupBytes(sent, k);
    var h := Header((k + 1) as bv8, Crc8(bytes));
    HeaderExists(bytes, k);
    if k > 0 {
      LengthInFrame(s, h, bytes, |FrameOf(sent, k)| - 1, m);
    } else if m <= 4 {
      EndsWhenKnown(sent, s.payload, k, 0 in ks);
      PayloadInFrame(s, h, bytes, m);
    } else {
      assert FrameOf(sent, k)[..m] == FrameOf(sent, k);
      AfterNext(sent, ks, k);
      ArrivedInPlace(sent, ks + [k], 1);
    }
    KnownIsSane(sent, Feed(s, FrameOf(sent, k)[..m]).payload);
  }

  lemma KnownIsSane(sent: seq<bv8>, p: seq<bv8>)
    requires BroadcastPayload(sent) && |p| == 128 && (p[1] == sent[1] || p[1] == 0xFF)
    ensures Sane(p)
  {
    hide Crc8;
    UnsetLength();
  }

  /** Where in its frame a group is stored: behind its second byte when it ends early, else behind its fourth. */
  function StoredBehind(sent: seq<bv8>, ks: seq<nat>, k: nat): nat {
    if Partial(sent, k) && 0 in ks then 2 else 4
  }

  /** The frame that completes the payload stores its group, and with that symbol the check succeeds. */
  lemma FinishesWithLastFrame(sent: seq<bv8>, ks: seq<nat>, k: nat)
    requires BroadcastPayload(sent) && FromSender(ks + [k], sent) && FromSender(ks, sent)
    requires !Complete(sent, ks) && Complete(sent, ks + [k])
    ensures k < 31 && StoredBehind(sent, ks, k) < |FrameOf(sent, k)|
    ensures var xs := FrameOf(sent, k);
      var i := StoredBehind(sent, ks, k);
      var t, x := Feed(After(sent, ks), xs[..i]), xs[i];
      Stores(t, x) && Received(t, x).payload[..|sent|] == sent && CheckOk(Received(t, x).payload)
  {
    hide Crc8, Received, CheckOk, Stores, GroupOf, Header, Frame, Stored, After, Complete, LateStores, Feed;
    assert (ks + [k])[..|ks|] == ks && (ks + [k])[|ks|] == k;
    CompletingGroup(sent, ks, k);
    Reassembled(sent, ks + [k]);
    ArrivedInPlace(sent, ks, 1);
    var s, bytes := After(sent, ks), GroupBytes(sent, k);
    var h := Header((k + 1) as bv8, Crc8(bytes));
    HeaderExists(bytes, k);
    EndsWhenKnown(sent, s.payload, k, 0 in ks);
    BytesOfGroup(sent, k, 4 * k);
    AfterNext(sent, ks, k);
    if !Partial(sent, k) {
      LongFrame(s, h, bytes, k);
      FeedFrame(s, h, bytes, 3);
    } else if !Three(sent) {
      ShortFrame(s, h, bytes, k);
      FeedFrame(s, h, bytes, 1);
    } else {
      LateFrame(s, h, bytes, k);
      FeedFrame(s, h, bytes, 1);
      forall j | 0 <= j < |sent| && j / 4 != k ensures s.payload[j] == sent[j] {
        ArrivedInPlace(sent, ks, j);
      }
      LastStored(sent, s.payload, h, k);
    }
  }

  lemma AfterNext(sent: seq<bv8>, ks: seq<nat>, k: nat)
    requires FromSender(ks + [k], sent) && FromSender(ks, sent)
    ensures k < 31 && After(sent, ks + [k]) == Feed(After(sent, ks), FrameOf(sent, k))
  {
    hide Feed, FrameOf;
    assert (ks + [k])[..|ks|] == ks && (ks + [k])[|ks|] == k;
  }

  lemma FeedFrame(s: Broadcast, h: bv8, bytes: seq<bv8>, n: nat)
    requires s.Valid() && |bytes| == 4 && n < 4
    ensures Feed(s, Frame(h, bytes, n + 1)) == Received(Feed(s, Frame(h, bytes, n)), Symbol(false, bytes[n]))
    ensures forall m | n < m <= 4 :: Frame(h, bytes, m)[..n + 1] == Frame(h, bytes, n) && Frame(h, bytes, m)[n + 1] == Symbol(false, bytes[n])
  {
    hide Received;
    FrameFront(h, bytes, n);
  }

  lemma CompletingGroup(sent: seq<bv8>, ks: seq<nat>, k: nat)
    requires BroadcastPayload(sent) && FromSender(ks + [k], sent)
    requires !Complete(sent, ks) && Complete(sent, ks + [k])
    ensures 4 * k < |sent| && (Partial(sent, k) ==> 0 in ks)
    ensures Partial(sent, k) && Three(sent) ==> LateFits(GroupBytes(sent, k))
    ensures forall j | 0 <= j < |sent| && j / 4 != k :: Held(sent, ks, j) == sent[j]
  {
    hide Crc8, Right, Held, CameLate, CameEarly, LateFits, BroadcastPayload;
    Long(sent);
    assert (ks + [k])[|ks|] == k;
    forall m | 0 <= m <= |sent| && 4 * m < |sent| && m != k ensures Right(sent, ks, m) {
      assert Right(sent, ks + [k], m);
      RightNext(sent, ks, k, m);
    }
    assert Right(sent, ks + [k], k) && !Right(sent, ks, k);
    FirstNeeded(sent, ks, k);
    LateNeeded(sent, ks, k);
    forall j | 0 <= j < |sent| && j / 4 != k ensures Held(sent, ks, j) == sent[j] {
      assert Right(sent, ks, j / 4) && 4 * (j / 4) <= j < 4 * (j / 4) + 4;
      GroupHeld(sent, ks, j / 4);
    }
  }

  lemma RightNext(sent: seq<bv8>, ks: seq<nat>, k: nat, m: nat)
    requires m != k
    ensures Right(sent, ks + [k], m) <==> Right(sent, ks, m)
  {
    hide CameLate, CameEarly, LateStores, LateFits, Blank;
    CameNext(ks, k, m);
  }

  lemma FirstNeeded(sent: seq<bv8>, ks: seq<nat>, k: nat)
    requires 9 <= |sent| <= 98 && Length(sent) == |sent| - 2 && Complete(sent, ks + [k])
    ensures Partial(sent, k) ==> 0 in ks
  {
    hide CameLate, CameEarly, LateStores, LateFits;
    assert Right(sent, ks + [k], 0);
    UnsetLength();
    assert sent[1] != 0xFF;
  }

  lemma LateNeeded(sent: seq<bv8>, ks: seq<nat>, k: nat)
    requires Right(sent, ks + [k], k) && !Right(sent, ks, k) && (Partial(sent, k) ==> 0 in ks)
    ensures Partial(sent, k) && Three(sent) ==> LateFits(GroupBytes(sent, k))
  {
    hide CameLate, CameEarly, LateStores, LateFits, Blank;
    CameNext(ks, k, k);
  }

  /** A late frame of a last group of three bytes, the third of them 0, has it in place after its second byte. */
  lemma LastStored(sent: seq<bv8>, p: seq<bv8>, h: bv8, k: nat)
    requires BroadcastPayload(sent) && |p| == 128 && Partial(sent, k) && Three(sent)
    requires GroupOf(h) == k + 1 && LateFits(GroupBytes(sent, k))
    requires forall j | 0 <= j < |sent| && j / 4 != k :: p[j] == sent[j]
    ensures var bytes := GroupBytes(sent, k);
      var r := HalfStored(p, h, bytes[0], bytes[1], bytes);
      HalfPasses(bytes[0], bytes[1], bytes) && r[..|sent|] == sent && CheckOk(r)
  {
    hide Crc8, GroupOf, Stored, BroadcastPayload;
    Long(sent);
    var bytes := GroupBytes(sent, k);
    BytesOfGroup(sent, k, 0);
    assert bytes == [bytes[0], bytes[1], 0, 0] && [h] + bytes == [h, bytes[0], bytes[1], 0, 0];
    var r := Stored(p, [h] + bytes);
    forall j | 0 <= j < |sent| ensures r[j] == sent[j] {
      StoredAt(p, h, bytes, k, j);
      BytesOfGroup(sent, k, j);
    }
    assert r[..|sent|] == sent;
    assert r[1..Length(r) + 2] == sent[1..];
  }

  // ---- The third byte of a short group ----

  /** The length byte is L, and no group that ends early is being collected past its second byte. */
  predicate Settled(s: Broadcast, L: nat)
    requires s.Valid()
  {
    0 < L < 255 && Length(s.payload) == L && (GroupOf(s.buffer[0]) == (L + 2) / 4 + 1 ==> s.index < 2)
  }

  /** The symbol stores the group that ends early at the length L. */
  predicate StoresLast(s: Broadcast, x: Symbol, L: nat)
    requires s.Valid()
  {
    Stores(s, x) && GroupOf(s.buffer[0]) == (L + 2) / 4 + 1
  }

  /** One of the symbols does. */
  predicate LastStoredBy(s: Broadcast, xs: seq<Symbol>, L: nat)
    requires s.Valid()
  {
    xs != [] && (LastStoredBy(s, xs[..|xs| - 1], L) || StoresLast(Feed(s, xs[..|xs| - 1]), xs[|xs| - 1], L))
  }

  /**
   Whatever is received while the length byte stays L, the third byte of the last group is zero from the first time
   that group is stored, and unchanged before.
   */
  lemma {:induction false} ThirdByteLost(s: Broadcast, xs: seq<Symbol>, L: nat)
    requires s.Valid() && Settled(s, L) && 4 * ((L + 2) / 4) + 2 < 128
    requires forall i | 0 <= i <= |xs| :: Length(Feed(s, xs[..i]).payload) == L
    ensures Settled(Feed(s, xs), L)
    ensures var at := 4 * ((L + 2) / 4) + 2;
      Feed(s, xs).payload[at] == if LastStoredBy(s, xs, L) then 0 else s.payload[at]
    decreases xs
  {
    assert xs[..|xs|] == xs;
    if xs != [] {
      var n := |xs| - 1;
      hide Received, Settled, Feed, Length, StoresLast;
      forall i | 0 <= i <= n ensures Length(Feed(s, xs[..n][..i]).payload) == L {
        assert xs[..n][..i] == xs[..i];
      }
      ThirdByteLost(s, xs[..n], L);
      FeedLast(s, xs);
      SettledNext(Feed(s, xs[..n]), xs[n], L);
    }
  }

  lemma FeedLast(s: Broadcast, xs: seq<Symbol>)
    requires s.Valid() && xs != []
    ensures Feed(s, xs) == Received(Feed(s, xs[..|xs| - 1]), xs[|xs| - 1])
  {
  }

  lemma SettledNext(s: Broadcast, x: Symbol, L: nat)
    requires s.Valid() && Settled(s, L) && Length(Received(s, x).payload) == L && 4 * ((L + 2) / 4) + 2 < 128
    ensures Settled(Received(s, x), L)
    ensures var at := 4 * ((L + 2) / 4) + 2;
      Received(s, x).payload[at] == if StoresLast(s, x, L) then 0 else s.payload[at]
  {
    hide Crc8, GroupOf, Low3;
    var at := 4 * ((L + 2) / 4) + 2;
    if !x.flag && Completes(s) {
      var b := Filled(s, x.byte);
      if GroupOk(b) {
        assert [b[0]] + b[1..] == b;
        StoredAt(s.payload, b[0], b[1..], GroupOf(b[0]) - 1, at);
      }
    }
  }
}
