/** Big-endian bytes and multi-word integers. */
module Bytes {
  import opened Arith
  import opened Bits
  import opened Vli
  import opened VliMod
  import opened CoZ

  function BigEndian(s: seq<byte>): nat {
    if |s| == 0 then 0 else BigEndian(s[..|s| - 1]) * 0x100 + s[|s| - 1]
  }

  lemma BigEndianNext(s: seq<byte>, d: byte)
    ensures BigEndian(s + [d]) == BigEndian(s) * 0x100 + d
  {
    assert (s + [d])[..|s|] == s;
  }

  lemma Pow2Bytes(i: nat)
    ensures Pow2(8 * (i + 1)) == 0x100 * Pow2(8 * i)
  {
    Pow2Add(8, 8 * i);
    Pow2Small();
  }

  lemma {:induction false} BigEndianBound(s: seq<byte>)
    ensures BigEndian(s) < Pow2(8 * |s|)
  {
    if |s| > 0 {
      BigEndianBound(s[..|s| - 1]);
      Pow2Bytes(|s| - 1);
    }
  }

  /** The number of 32-bit words that hold `m` bytes. */
  /** Coordinates take `numBytes` bytes, which fill the words of the field exactly. */
  ghost predicate FieldBytes(curve: Curve, numBytes: nat)
    requires curve.numWords <= curve.p.Length
    reads curve.p
  {
    curve.numWords == WordsFor(numBytes) && curve.P() <= Pow2(8 * numBytes)
  }

  function WordsFor(m: nat): nat {
    (m + 3) / 4
  }

  // ---- native -> bytes ----

  lemma LowDivMod(x: nat, m: nat, q: nat, h: nat, k: nat)
    requires m > 0 && k > 0 && h > 0 && q == m * (k * h)
    ensures x % q / m % k == x / m % k
  {
    var a, r := x / q, x % q;
    var y := r / m;
    Assoc(a, k * h, m);
    Distrib(a * (k * h), y, m);
    DivOfSum(x, a * (k * h) + y, r % m, m);
    Assoc(k, h, a);
    ModPlusMultiple(y, h * a, k);
    assert a * (k * h) == h * a * k by {
      Assoc(h, a, k);
    }
  }

  lemma ByteOfWord(v: nat, w: nat, p: nat, h: nat)
    requires w > 0 && p > 0 && h > 0 && BASE == p * (0x100 * h)
    ensures v / w % BASE / p % 0x100 == v / (w * p) % 0x100
  {
    DivDiv(v, w, p);
    LowDivMod(v / w, p, BASE, h, 0x100);
  }

  /** Byte `b` of a number sits in word b/4 at bit 8(b%4). */
  lemma ByteOfValue(s: seq<Word>, n: nat, b: nat)
    requires b < 4 * n && n <= |s|
    ensures s[b / 4] / Pow2(8 * (b % 4)) % 0x100 == Value(s, n) / Pow2(8 * b) % 0x100
  {
    hide Value, W, Pow2;
    var k, e := b / 4, 8 * (b % 4);
    WordOfValue(s, n, k);
    WAsPow2(k);
    Pow2Add(32 * k, e);
    Pow2Small();
    Pow2Add(e, 32 - e);
    Pow2Add(8, 24 - e);
    ByteOfWord(Value(s, n), W(k), Pow2(e), Pow2(24 - e));
  }

  /** The first `i` of the `m` lowest bytes of `v`, most significant first, as a number. */
  function LeadingBytes(v: nat, m: nat, i: nat): int
    requires i <= m
  {
    v / Pow2(8 * (m - i)) % Pow2(8 * i)
  }

  lemma LeadingEnds(v: nat, m: nat)
    ensures LeadingBytes(v, m, 0) == 0 && LeadingBytes(v, m, m) == v % Pow2(8 * m)
  {
    assert Pow2(0) == 1;
  }

  lemma NextByte(v: nat, m: nat, i: nat, d: nat)
    requires i < m && d == v / Pow2(8 * (m - 1 - i)) % 0x100
    ensures LeadingBytes(v, m, i) * 0x100 + d == LeadingBytes(v, m, i + 1)
  {
    Pow2Bytes(m - 1 - i);
    Pow2Bytes(i);
    hide Pow2;
    NextByteOf(v, Pow2(8 * (m - 1 - i)), Pow2(8 * i), d);
  }

  lemma NextByteOf(v: nat, q: nat, r: nat, d: nat)
    requires q > 0 && r > 0 && d == v / q % 0x100
    ensures v / (0x100 * q) % r * 0x100 + d == v / q % (0x100 * r)
  {
    DivDiv(v, q, 0x100);
    var x := v / q;
    var y := x / 0x100;
    Assoc(y / r, r, 0x100);
    Distrib(y / r * r, y % r, 0x100);
    DivOfSum(x, y / r, y % r * 0x100 + d, 0x100 * r);
  }

  method NativeToBytes(bytes: array<byte>, off: nat, m: nat, native: array<Word>)
    requires off + m <= bytes.Length && WordsFor(m) <= native.Length
    modifies bytes
    ensures BigEndian(bytes[off..off + m]) == Val(native, WordsFor(m)) % Pow2(8 * m)
    ensures forall j | 0 <= j < bytes.Length && !(off <= j < off + m) :: bytes[j] == old(bytes[j])
  {
    ghost var v := Val(native, WordsFor(m));
    LeadingEnds(v, m);
    ghost var done: seq<byte> := [];
    assert BigEndian(done) == 0;
    hide Pow2, LeadingBytes, Value, BigEndian;
    for i := 0 to m
      invariant forall j | 0 <= j < bytes.Length && !(off <= j < off + i) :: bytes[j] == old(bytes[j])
      invariant done == bytes[off..off + i]
      invariant BigEndian(done) == LeadingBytes(v, m, i)
    {
      var b := m - 1 - i;
      ByteOfValue(native[..], WordsFor(m), b);
      var d: byte := native[b / 4] / Pow2(8 * (b % 4)) % 0x100;
      bytes[off + i] := d;
      BigEndianNext(done, d);
      NextByte(v, m, i, d);
      done := done + [d];
    }
  }

  // ---- bytes -> native ----

  lemma {:induction false} ValueUpdate(s: seq<Word>, k: nat, w: Word, n: nat)
    requires k < n <= |s|
    ensures Value(s[k := w], n) == Value(s, n) + (w - s[k]) * W(k)
  {
    if k == n - 1 {
      ValuePrefix(s, s[k := w], k);
      Distrib(w, s[k], W(k));
    } else {
      ValueUpdate(s, k, w, n - 1);
    }
  }

  /** A number that ends in 8(b+1) zero bits leaves room for byte `b`. */
  lemma RoomForByte(s: seq<Word>, n: nat, b: nat, x: nat, d: byte)
    requires b < 4 * n && n <= |s| && Value(s, n) == x * Pow2(8 * (b + 1))
    ensures var k, e := b / 4, 8 * (b % 4);
      && BitOr(s[k], d * Pow2(e) % BASE) == s[k] + d * Pow2(e) < BASE
      && d * Pow2(e) * W(k) == d * Pow2(8 * b)
  {
    hide Value, W, Pow2;
    var k, e := b / 4, 8 * (b % 4);
    WordOfValue(s, n, k);
    WAsPow2(k);
    Pow2Add(e, 32 * k);
    Pow2Add(e + 8, 32 * k);
    Pow2Add(e + 8, 24 - e);
    Pow2Add(8, e);
    Pow2Small();
    var h, c := Pow2(24 - e), Pow2(e + 8);
    Assoc(x, c, W(k));
    DivOfSum(Value(s, n), x * c, 0, W(k));
    MultipleMod(x, c, h);
    ByteBelow(d, Pow2(e));
    FitsBelow(x % h, c, h, d * Pow2(e));
    ModSmall(d * Pow2(e), BASE);
    BitOrDisjoint(d * Pow2(e), x % h, e + 8);
    Assoc(d, Pow2(e), W(k));
  }

  lemma MultipleMod(x: nat, c: nat, h: nat)
    requires c > 0 && h > 0
    ensures x * c % (c * h) == x % h * c
  {
    Distrib(x / h * h, x % h, c);
    Assoc(x / h, h, c);
    MulMono(x % h + 1, h, c);
    Distrib(x % h, 1, c);
    MulMono(0, x % h, c);
    DivOfSum(x * c, x / h, x % h * c, c * h);
  }

  lemma ByteBelow(d: byte, q: nat)
    requires q > 0
    ensures 0 <= d * q < 0x100 * q
  {
    MulMono(0, d, q);
    MulMono(d + 1, 0x100, q);
    Distrib(d, 1, q);
  }

  lemma FitsBelow(y: nat, c: nat, h: nat, d: nat)
    requires y < h && d < c
    ensures y * c + d < c * h
  {
    MulMono(y + 1, h, c);
    Distrib(y, 1, c);
  }

  method BytesToNative(native: array<Word>, bytes: array<byte>, off: nat, m: nat)
    requires off + m <= bytes.Length && WordsFor(m) <= native.Length
    modifies native
    ensures Val(native, WordsFor(m)) == BigEndian(bytes[off..off + m])
    ensures forall j | WordsFor(m) <= j < native.Length :: native[j] == old(native[j])
  {
    hide BitOr, BigEndian, Value, W, Pow2;
    var w := WordsFor(m);
    Clear(native, w);
    NothingRead(m);
    assert bytes[off..off + 0] == [];
    for i := 0 to m
      invariant Val(native, w) == BigEndian(bytes[off..off + i]) * Pow2(8 * (m - i))
      invariant forall j | w <= j < native.Length :: native[j] == old(native[j])
    {
      var b := m - 1 - i;
      ghost var s, x := native[..], BigEndian(bytes[off..off + i]);
      RoomForByte(s, w, b, x, bytes[off + i]);
      native[b / 4] := BitOr(native[b / 4], bytes[off + i] * Pow2(8 * (b % 4)) % BASE);
      assert native[..] == s[b / 4 := native[b / 4]];
      ValueUpdate(s, b / 4, native[b / 4], w);
      Pow2Bytes(b);
      assert bytes[off..off + i + 1] == bytes[off..off + i] + [bytes[off + i]];
      BigEndianNext(bytes[off..off + i], bytes[off + i]);
      AppendByte(x, bytes[off + i], Pow2(8 * b));
    }
  }

  lemma NothingRead(m: nat)
    ensures BigEndian([]) * Pow2(8 * m) == 0 && Pow2(0) == 1
  {
  }

  lemma AppendByte(x: nat, d: byte, q: nat)
    ensures x * (0x100 * q) + d * q == (x * 0x100 + d) * q
  {
    Distrib(x * 0x100, d, q);
    Assoc(x, 0x100, q);
  }

  // ---- bits2int ----

  /** `x >> shift` on `n` words, for 0 < shift < 32. */
  method ShiftRight(native: array<Word>, n: nat, shift: nat)
    requires n <= native.Length && 0 < shift < 32
    modifies native
    ensures Val(native, n) == old(Val(native, n)) / Pow2(shift)
    ensures forall j | n <= j < native.Length :: native[j] == old(native[j])
  {
    var carry: Word := 0;
    ghost var s, h, c := native[..], native[n..], 0;
    var i := n;
    assert Pow2(0) == 1;
    while i > 0
      invariant 0 <= i <= n
      invariant 0 <= c < Pow2(shift) && carry == c * Pow2(32 - shift)
      invariant forall j | 0 <= j < i || n <= j < native.Length :: native[j] == s[j]
      invariant h == native[i..]
      invariant Value(h, n - i) * Pow2(shift) + c == Value(s[i..], n - i)
    {
      i := i - 1;
      ghost var above, cIn := h, c;
      var temp := native[i];
      ShiftedOut(temp, cIn, shift);
      native[i] := BitOr(temp / Pow2(shift), carry);
      carry := temp * Pow2(32 - shift) % BASE;
      c := temp % Pow2(shift);
      h := [native[i]] + above;
      ShiftStepDown(h, above, s, i, n - i, cIn, c, shift);
    }
    assert s[0..] == s && h == native[..];
    DivOfSum(Value(s, n), Value(h, n), c, Pow2(shift));
  }

  lemma ShiftedOut(temp: Word, c: nat, shift: nat)
    requires 0 < shift < 32 && c < Pow2(shift)
    ensures 0 <= temp / Pow2(shift) < BASE && 0 <= c * Pow2(32 - shift) < BASE
    ensures BitOr(temp / Pow2(shift), c * Pow2(32 - shift)) == temp / Pow2(shift) + c * Pow2(32 - shift) < BASE
    ensures temp * Pow2(32 - shift) % BASE == temp % Pow2(shift) * Pow2(32 - shift)
  {
    Pow2Small();
    Pow2Add(32 - shift, shift);
    hide Pow2;
    var p, q := Pow2(shift), Pow2(32 - shift);
    QuotientBelow(temp, p, q);
    FitsBelow(c, q, p, temp / p);
    MulMono(0, c, q);
    BitOrDisjoint(temp / p, c, 32 - shift);
    MultipleMod(temp, q, p);
  }

  lemma QuotientBelow(t: nat, p: nat, q: nat)
    requires p > 0 && t < q * p
    ensures 0 <= t / p < q
  {
    assert t == t / p * p + t % p;
    if t / p >= q {
      MulMono(q, t / p, p);
      assert false;
    }
  }

  lemma ShiftStepDown(h: seq<Word>, above: seq<Word>, s: seq<Word>, i: nat, len: nat, cIn: nat, c: nat, shift: nat)
    requires 0 < len <= |h| && i + len <= |s| && 0 < shift < 32 && cIn < Pow2(shift)
    requires |above| == |h| - 1 && h == [h[0]] + above
    requires h[0] == s[i] / Pow2(shift) + cIn * Pow2(32 - shift) && c == s[i] % Pow2(shift)
    requires Value(above, len - 1) * Pow2(shift) + cIn == Value(s[i + 1..], len - 1)
    ensures Value(h, len) * Pow2(shift) + c == Value(s[i..], len)
  {
    hide Value, W;
    var t := s[i..];
    assert h[1..] == above && t[1..] == s[i + 1..];
    ValueSplit(h, 1, len);
    ValueSplit(t, 1, len);
    OneWord(h);
    OneWord(t);
    Pow2Add(32 - shift, shift);
    Pow2Small();
    hide Pow2;
    var p, q: int := Pow2(shift), Pow2(32 - shift);
    ShiftStepOf(Value(above, len - 1), s[i], cIn, p, q);
  }

  lemma ShiftStepOf(a: nat, d: nat, cIn: nat, p: nat, q: nat)
    requires p > 0 && q * p == BASE
    ensures (d / p + cIn * q + a * BASE) * p + d % p == d + (a * p + cIn) * BASE
  {
    Distrib(d / p + cIn * q, a * BASE, p);
    Distrib(d / p, cIn * q, p);
    Assoc(cIn, q, p);
    Assoc(a, BASE, p);
    Assoc(a, p, BASE);
  }

  /** The leftmost bits of a hash as a number, one subtraction away from being reduced. */
  function Bits2Int(hash: seq<byte>, bits: nat, n: nat): nat {
    var numBytes := (bits + 7) / 8;
    var size := if |hash| > numBytes then numBytes else |hash|;
    var v := BigEndian(hash[..size]);
    if size * 8 <= bits then v else Reduced(Shifted(v, size * 8 - bits), n)
  }

  function Shifted(v: nat, shift: nat): nat {
    QuotientBounds(v, Pow2(shift));
    v / Pow2(shift)
  }

  method Bits2IntWords(native: array<Word>, bits: array<byte>, bitsSize: nat, n: array<Word>, numNBits: nat)
    requires bitsSize <= bits.Length && native != n && 1 <= numNBits
    requires (numNBits + 31) / 32 <= native.Length && (numNBits + 31) / 32 <= n.Length
    modifies native
    ensures Val(native, (numNBits + 31) / 32)
         == Bits2Int(bits[..bitsSize], numNBits, Val(n, (numNBits + 31) / 32))
  {
    var numBytes, w := (numNBits + 7) / 8, (numNBits + 31) / 32;
    ghost var m := Val(n, w);
    var size := if bitsSize > numBytes then numBytes else bitsSize;
    Clear(native, w);
    BytesToNative(native, bits, 0, size);
    HighZeros(native[..], WordsFor(size), w);
    assert bits[..bitsSize][..size] == bits[0..size];
    if size * 8 <= numNBits {
      return;
    }
    var shift := size * 8 - numNBits;
    ShiftRight(native, w, shift);
    var c := CmpUnsafe(n, native, w);
    ghost var x := Val(native, w);
    if c != 1 {
      ValueBound(native[..], w);
      var borrow := Sub(native, native, n, w);
      ValueBound(native[..], w);
      CancelledCarry(Val(native, w), x - m, 0, borrow, W(w));
    }
  }
}
