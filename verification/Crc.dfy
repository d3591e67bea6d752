/** The checksums of crc.c and joylink_smnt.c. */
module Crc {

  // ---- CRC-8, polynomial 0x8C reflected ----

  function Xor8(a: bv8, b: bv8): bv8 { a ^ b }

  predicate Odd8(c: bv8) { c & 1 != 0 }

  function Half8(c: bv8): bv8 { c >> 1 }

  const POLY8: bv8 := 0x8C

  /** One shift of the register, least significant bit first. */
  function Shift8(c: bv8): bv8 {
    if Odd8(c) then Xor8(Half8(c), POLY8) else Half8(c)
  }

  function Shifts8(c: bv8, n: nat): bv8 {
    if n == 0 then c else Shift8(Shifts8(c, n - 1))
  }

  /** The checksum: the message divided byte by byte. */
  function Crc8(s: seq<bv8>): bv8 {
    if s == [] then 0 else Shifts8(Xor8(Crc8(s[..|s| - 1]), s[|s| - 1]), 8)
  }

  lemma Crc8Next(s: seq<bv8>, k: nat)
    requires k < |s|
    ensures Crc8(s[..k + 1]) == Shifts8(Xor8(Crc8(s[..k]), s[k]), 8)
  {
    hide Shifts8, Xor8;
    assert s[..k + 1][..k] == s[..k];
  }

  lemma Crc8Empty()
    ensures Crc8([]) == 0
  {
  }

  lemma Shifts8Next(c: bv8, n: nat)
    ensures Shifts8(c, n + 1) == Shift8(Shifts8(c, n)) && Shifts8(c, 0) == c
  {
  }

  /** joylink_smnt_crc. */
  method JoylinkSmntCrc(s: array<bv8>, from: nat, len: nat) returns (crc: bv8)
    requires from + len <= s.Length
    ensures crc == Crc8(s[from..from + len])
  {
    hide *;
    ghost var m := s[from..from + len];
    Crc8Empty();
    assert m[..0] == [];
    crc := 0;
    var k := 0;
    while k < len
      invariant 0 <= k <= len && crc == Crc8(m[..k])
    {
      Crc8Next(m, k);
      crc := Xor8(crc, s[from + k]);
      ghost var start := crc;
      Shifts8Next(start, 0);
      for i := 0 to 8
        invariant crc == Shifts8(start, i)
      {
        Shifts8Next(start, i);
        ShiftIs(crc);
        if Odd8(crc) {
          crc := Xor8(Half8(crc), POLY8);
        } else {
          crc := Half8(crc);
        }
      }
      k := k + 1;
    }
    assert m[..len] == m;
  }

  lemma ShiftIs(c: bv8)
    ensures Shift8(c) == if Odd8(c) then Xor8(Half8(c), POLY8) else Half8(c)
  {
  }

  // ---- The other form: message bits one at a time ----

  /** The mask of bit j, and 0 once it has been shifted out. */
  function Bit(j: nat): bv8 {
    if j == 0 then 1 else Double8(Bit(j - 1))
  }

  function Double8(i: bv8): bv8 { i * 2 }

  predicate Selects(a: bv8, i: bv8) { a & i != 0 }

  /** The byte without its lowest j bits. */
  function Above(b: bv8, j: nat): bv8 {
    if j == 0 then b else Half8(Above(b, j - 1))
  }

  lemma BitTable()
    ensures Bit(0) == 1 && Bit(1) == 2 && Bit(2) == 4 && Bit(3) == 8
    ensures Bit(4) == 16 && Bit(5) == 32 && Bit(6) == 64 && Bit(7) == 128 && Bit(8) == 0
  {
    assert Bit(1) == 2 && Bit(2) == 4;
    assert Bit(3) == 8 && Bit(4) == 16;
    assert Bit(5) == 32 && Bit(6) == 64;
  }

  lemma AboveTable(b: bv8)
    ensures Above(b, 0) == b && Above(b, 1) == b >> 1 && Above(b, 2) == b >> 2 && Above(b, 3) == b >> 3
    ensures Above(b, 4) == b >> 4 && Above(b, 5) == b >> 5 && Above(b, 6) == b >> 6 && Above(b, 7) == b >> 7
    ensures Above(b, 8) == 0
  {
    assert Above(b, 1) == b >> 1 && Above(b, 2) == b >> 2;
    assert Above(b, 3) == b >> 3 && Above(b, 4) == b >> 4;
    assert Above(b, 5) == b >> 5 && Above(b, 6) == b >> 6;
  }

  /** The mask selects the lowest bit not yet taken, until all eight are. */
  lemma NextBit(b: bv8, j: nat)
    requires j <= 8
    ensures Bit(j) == 0 <==> j == 8
    ensures j < 8 ==> (Selects(b, Bit(j)) <==> Odd8(Above(b, j)))
    ensures Bit(0) == 1 && Above(b, 0) == b && Above(b, 8) == 0
    ensures Bit(j + 1) == Double8(Bit(j)) && Above(b, j + 1) == Half8(Above(b, j))
  {
    BitTable();
    AboveTable(b);
  }

  /** One step: the message bit is added after the shift instead of before it. */
  lemma BitAfterShift(checksum: bv8, rest: bv8)
    ensures Shift8(Xor8(checksum, rest))
         == Xor8(if Odd8(rest) then Xor8(Shift8(checksum), POLY8) else Shift8(checksum), Half8(rest))
  {
  }

  lemma XorZero(c: bv8)
    ensures Xor8(c, 0) == c
  {
  }

  /** The inner loop of crc8; dividing by 2 is the shift. */
  method AddByte(checksum0: bv8, a: bv8) returns (checksum: bv8)
    ensures checksum == Shifts8(Xor8(checksum0, a), 8)
  {
    hide *;
    ghost var start := Xor8(checksum0, a);
    checksum := checksum0;
    var i: bv8, j := 1, 0;
    NextBit(a, 0);
    Shifts8Next(start, 0);
    while i != 0
      invariant 0 <= j <= 8 && i == Bit(j)
      invariant Xor8(checksum, Above(a, j)) == Shifts8(start, j)
      decreases 8 - j
    {
      NextBit(a, j);
      Shifts8Next(start, j);
      BitAfterShift(checksum, Above(a, j));
      ShiftIs(checksum);
      if Odd8(checksum) {
        checksum := Half8(checksum);
        checksum := Xor8(checksum, POLY8);
      } else {
        checksum := Half8(checksum);
      }
      if Selects(a, i) {
        checksum := Xor8(checksum, POLY8);
      }
      i := Double8(i);
      j := j + 1;
    }
    NextBit(a, j);
    XorZero(checksum);
  }

  /** crc8: the same checksum. */
  method CRC8(a: array<bv8>, n: nat) returns (checksum: bv8)
    requires n <= a.Length && n < 256
    ensures checksum == Crc8(a[..n])
  {
    hide *;
    Crc8Empty();
    assert a[..0] == [];
    checksum := 0;
    var k := 0;
    while k < n
      invariant 0 <= k <= n && checksum == Crc8(a[..k])
    {
      Crc8Next(a[..], k);
      assert a[..][..k] == a[..k] && a[..][..k + 1] == a[..k + 1];
      checksum := AddByte(checksum, a[k]);
      k := k + 1;
    }
  }

  // ---- CRC-16, polynomial 0x1021 ----

  /** One shift of the register, most significant bit first. */
  function Shift16(c: bv16): bv16 {
    if c & 0x8000 != 0 then (c << 1) ^ 0x1021 else c << 1
  }

  function Shifts16(c: bv16, n: nat): bv16 {
    if n == 0 then c else Shift16(Shifts16(c, n - 1))
  }

  /** A message byte added at the top of the register. */
  function AddHigh(c: bv16, b: bv8): bv16 {
    c ^ High16(b)
  }

  function High16(b: bv8): bv16 { (b as bv16) << 8 }

  /** Division by x^16 + x^12 + x^5 + 1, bit by bit, from the register 0xFFFF. */
  function Crc16(s: seq<bv8>): bv16 {
    if s == [] then 0xFFFF else Shifts16(AddHigh(Crc16(s[..|s| - 1]), s[|s| - 1]), 8)
  }

  lemma Crc16Next(s: seq<bv8>, k: nat)
    requires k < |s|
    ensures Crc16(s[..k + 1]) == Shifts16(AddHigh(Crc16(s[..k]), s[k]), 8)
  {
    hide Shifts16, AddHigh;
    assert s[..k + 1][..k] == s[..k];
  }

  lemma Crc16Empty()
    ensures Crc16([]) == 0xFFFF
  {
  }

  function Swap16(c: bv16): bv16 { (c >> 8) | (c << 8) }

  function AddLow(c: bv16, b: bv8): bv16 { c ^ (b as bv16) }

  function MixNibble(c: bv16): bv16 { c ^ ((c & 0xFF) >> 4) }

  function MixHigh(c: bv16): bv16 { c ^ (c << 12) }

  function MixLow(c: bv16): bv16 { c ^ ((c & 0xFF) << 5) }

  /** The bits shifted out times the polynomial, without carries. */
  function Times16(t: bv16): bv16 {
    (t ^ (t << 5)) ^ (t << 12)
  }

  lemma TopBit16(c: bv16)
    ensures c & 0x8000 != 0 ==> c >> 15 == 1
    ensures c & 0x8000 == 0 ==> c >> 15 == 0
    ensures Times16(0) == 0 && Times16(1) == 0x1021
  {
  }

  lemma XorZero16(c: bv16)
    ensures c ^ 0 == c
  {
  }

  lemma Shift16Is(c: bv16)
    ensures Shift16(c) == (c << 1) ^ Times16(c >> 15)
  {
    hide Times16;
    TopBit16(c);
    XorZero16(c << 1);
  }

  /** The register after one to four steps. */
  function After1(c: bv16): bv16 { (c << 1) ^ Times16(c >> 15) }
  function After2(c: bv16): bv16 { (c << 2) ^ Times16(c >> 14) }
  function After3(c: bv16): bv16 { (c << 3) ^ Times16(c >> 13) }
  function After4(c: bv16): bv16 { (c << 4) ^ Times16(c >> 12) }

  lemma After1Is(c: bv16)
    ensures After1(c) == (c << 1) ^ Times16(c >> 15)
  {
  }

  lemma After2Is(c: bv16)
    ensures After2(c) == (c << 2) ^ Times16(c >> 14)
  {
  }

  lemma After3Is(c: bv16)
    ensures After3(c) == (c << 3) ^ Times16(c >> 13)
  {
  }

  lemma After4Is(c: bv16)
    ensures After4(c) == (c << 4) ^ Times16(c >> 12)
  {
  }

  lemma OneShift(c: bv16)
    ensures Shift16(c) == After1(c)
  {
    hide *;
    Shift16Is(c);
    After1Is(c);
  }

  lemma SecondShift(c: bv16)
    ensures After1((c << 1) ^ Times16(c >> 15)) == After2(c)
  {
  }

  lemma ThirdShift(c: bv16)
    ensures After1((c << 2) ^ Times16(c >> 14)) == After3(c)
  {
  }

  lemma FourthShift(c: bv16)
    ensures After1((c << 3) ^ Times16(c >> 13)) == After4(c)
  {
  }

  lemma TwoShifts(c: bv16)
    ensures Shift16(Shift16(c)) == After2(c)
  {
    hide *;
    OneShift(c);
    OneShift(After1(c));
    After1Is(c);
    SecondShift(c);
  }

  lemma ThreeShifts(c: bv16)
    ensures Shift16(Shift16(Shift16(c))) == After3(c)
  {
    hide *;
    TwoShifts(c);
    OneShift(After2(c));
    After2Is(c);
    ThirdShift(c);
  }

  /** Four steps at once: the top nibble times the polynomial. */
  lemma FourShifts(c: bv16)
    ensures Shift16(Shift16(Shift16(Shift16(c)))) == After4(c)
  {
    hide *;
    ThreeShifts(c);
    OneShift(After3(c));
    After3Is(c);
    FourthShift(c);
  }

  lemma MixIsTwoNibbles(c: bv16)
    ensures MixLow(MixHigh(MixNibble((c >> 8) | (c << 8)))) == After4((c << 4) ^ Times16(c >> 12))
  {
  }

  lemma SwapIs(c: bv16)
    ensures Swap16(c) == (c >> 8) | (c << 8)
  {
  }

  lemma MixIsEightShifts(c: bv16)
    ensures MixLow(MixHigh(MixNibble(Swap16(c)))) == After4(After4(c))
  {
    hide *;
    SwapIs(c);
    After4Is(c);
    MixIsTwoNibbles(c);
  }

  lemma SwapThenAdd(crc: bv16, b: bv8)
    ensures AddLow(Swap16(crc), b) == Swap16(AddHigh(crc, b))
  {
  }

  lemma Shifts16Next(c: bv16, n: nat)
    ensures Shifts16(c, n + 1) == Shift16(Shifts16(c, n)) && Shifts16(c, 0) == c
  {
  }

  /** A whole byte at once is eight steps of the division. */
  lemma ByteIsEightShifts(crc: bv16, b: bv8)
    ensures MixLow(MixHigh(MixNibble(AddLow(Swap16(crc), b)))) == Shifts16(AddHigh(crc, b), 8)
  {
    hide *;
    var c := AddHigh(crc, b);
    SwapThenAdd(crc, b);
    MixIsEightShifts(c);
    FourShifts(c);
    FourShifts(After4(c));
    Shifts16Next(c, 0);
    Shifts16Next(c, 1);
    Shifts16Next(c, 2);
    Shifts16Next(c, 3);
    Shifts16Next(c, 4);
    Shifts16Next(c, 5);
    Shifts16Next(c, 6);
    Shifts16Next(c, 7);
  }

  /** CRC16: byte by byte, and the same as bit by bit. */
  method CRC16(buffer: array?<bv8>, size: nat) returns (crc: bv16)
    requires buffer != null ==> size <= buffer.Length
    ensures crc == if buffer == null then 0xFFFF else Crc16(buffer[..size])
  {
    hide *;
    Crc16Empty();
    crc := 0xFFFF;
    if buffer != null && size != 0 {
      var k := 0;
      assert buffer[..0] == [];
      while k < size
        invariant 0 <= k <= size && crc == Crc16(buffer[..k])
      {
        Crc16Next(buffer[..], k);
        assert buffer[..][..k] == buffer[..k] && buffer[..][..k + 1] == buffer[..k + 1];
        ByteIsEightShifts(crc, buffer[k]);
        crc := Swap16(crc);
        crc := AddLow(crc, buffer[k]);
        crc := MixNibble(crc);
        crc := MixHigh(crc);
        crc := MixLow(crc);
        k := k + 1;
      }
    } else {
      assert buffer != null ==> buffer[..size] == [];
    }
  }

  // ---- Error detection ----

  function Unshift8(d: bv8): bv8 {
    if d & 0x80 != 0 then ((d ^ 0x8C) << 1) | 1 else d << 1
  }

  lemma UnshiftUndoes(c: bv8)
    ensures Unshift8(Shift8(c)) == c
  {
  }

  lemma {:induction false} ShiftsInjective(c: bv8, d: bv8, n: nat)
    requires Shifts8(c, n) == Shifts8(d, n)
    ensures c == d
  {
    hide Shift8, Unshift8;
    if n > 0 {
      UnshiftUndoes(Shifts8(c, n - 1));
      UnshiftUndoes(Shifts8(d, n - 1));
      ShiftsInjective(c, d, n - 1);
    }
  }

  lemma XorDiffers(a: bv8, b: bv8, x: bv8)
    requires a != b
    ensures Xor8(a, x) != Xor8(b, x) && Xor8(x, a) != Xor8(x, b)
  {
  }

  /** Changing exactly one byte changes the checksum. */
  lemma {:induction false} OneByteDetected(s: seq<bv8>, t: seq<bv8>, k: nat)
    requires |s| == |t| && k < |s| && s[k] != t[k]
    requires forall i | 0 <= i < |s| && i != k :: s[i] == t[i]
    ensures Crc8(s) != Crc8(t)
  {
    hide *;
    var n := |s| - 1;
    Crc8Next(s, n);
    Crc8Next(t, n);
    assert s[..n + 1] == s && t[..n + 1] == t;
    var c, d := Crc8(s[..n]), Crc8(t[..n]);
    if Crc8(s) == Crc8(t) {
      ShiftsInjective(Xor8(c, s[n]), Xor8(d, t[n]), 8);
    }
    if k == n {
      assert s[..n] == t[..n];
      XorDiffers(s[n], t[n], c);
    } else {
      OneByteDetected(s[..n], t[..n], k);
      XorDiffers(c, d, s[n]);
    }
  }
}
