/** Streaming MD5 (RFC 1321): the buffering of md5.c around an arbitrary compression function. */
module Md5 {
  import opened Arith
  import opened Bits
  import opened Vli

  /** The chaining value. */
  datatype Chaining = Chaining(a: Word, b: Word, c: Word, d: Word)

  const INITIAL: Chaining := Chaining(0x67452301, 0xEFCDAB89, 0x98BADCFE, 0x10325476)

  type Compression = (Chaining, seq<byte>) -> Chaining

  // ---- The hash on whole messages ----

  /** The compression function folded over the whole 64-byte blocks of a text. */
  function Fold(f: Compression, s: Chaining, text: seq<byte>): Chaining
    decreases |text|
  {
    if |text| < 64 then s else Fold(f, f(s, text[..64]), text[64..])
  }

  lemma {:induction false} FoldAppend(f: Compression, s: Chaining, a: seq<byte>, b: seq<byte>)
    requires |a| % 64 == 0
    ensures Fold(f, s, a + b) == Fold(f, Fold(f, s, a), b)
    decreases |a|
  {
    if |a| == 0 {
      assert a + b == b;
    } else {
      FoldAppend(f, f(s, a[..64]), a[64..], b);
      assert (a + b)[..64] == a[..64] && (a + b)[64..] == a[64..] + b;
    }
  }

  lemma FoldBlock(f: Compression, s: Chaining, a: seq<byte>, block: seq<byte>)
    requires |a| % 64 == 0 && |block| == 64
    ensures Fold(f, s, a + block) == f(Fold(f, s, a), block)
  {
    FoldAppend(f, s, a, block);
    assert block[..64] == block && |block[64..]| == 0;
  }

  /** The words of a 64-bit number, least significant byte first. */
  function Encode64(n: nat): (s: seq<byte>)
    ensures |s| == 8
  {
    EncodeWord(n % 0x1_0000_0000) + EncodeWord(n / 0x1_0000_0000 % 0x1_0000_0000)
  }

  function EncodeWord(w: Word): (s: seq<byte>)
    ensures |s| == 4
  {
    [w % 0x100, w / 0x100 % 0x100, w / 0x10000 % 0x100, w / 0x100_0000 % 0x100]
  }

  /** The number of padding bytes, at least one, that bring a length to 56 modulo 64 (section 3.1). */
  function PadLength(n: nat): (k: nat)
    ensures 1 <= k <= 64 && (n + k) % 64 == 56
  {
    (55 - n % 64) % 64 + 1
  }

  function Zeros(n: nat): (s: seq<byte>)
    ensures |s| == n
  {
    seq(n, _ => 0)
  }

  /** The message with its padding and its length in bits modulo 2^64 (sections 3.1 and 3.2). */
  function Padded(m: seq<byte>): seq<byte> {
    m + Padding(PadLength(|m|)) + Encode64(8 * |m|)
  }

  /** The first bytes of PADDING. */
  function Padding(k: nat): (s: seq<byte>)
    requires k > 0
    ensures |s| == k
  {
    [0x80] + Zeros(k - 1)
  }

  lemma PaddedIsWhole(m: seq<byte>)
    ensures |Padded(m)| == |m| + PadLength(|m|) + 8 && |Padded(m)| % 64 == 0
  {
    hide PadLength;
    ToWhole(|m| + PadLength(|m|));
  }

  lemma ToWhole(x: nat)
    requires x % 64 == 56
    ensures (x + 8) % 64 == 0
  {
  }

  function EncodeChaining(s: Chaining): (d: seq<byte>)
    ensures |d| == 16
  {
    EncodeWord(s.a) + EncodeWord(s.b) + EncodeWord(s.c) + EncodeWord(s.d)
  }

  /** MD5 of a message (section 3). */
  function Hash(f: Compression, m: seq<byte>): seq<byte> {
    EncodeChaining(Fold(f, INITIAL, Padded(m)))
  }

  // ---- Byte order and padding, independently ----

  /** The number whose bytes are given, least significant first. */
  function LittleEndian(s: seq<byte>): nat {
    if s == [] then 0 else s[0] + 0x100 * LittleEndian(s[1..])
  }

  lemma FourBytes(s: seq<byte>)
    requires |s| == 4
    ensures var a: int, b: int, c: int, d: int := s[0], s[1], s[2], s[3];
      LittleEndian(s) == a + 0x100 * b + 0x10000 * c + 0x100_0000 * d
  {
    assert s[1..][1..] == s[2..] && s[2..][1..] == s[3..] && s[3..][1..] == [];
    assert LittleEndian(s[3..]) == s[3];
    assert LittleEndian(s[1..]) == s[1] + 0x100 * LittleEndian(s[2..]);
  }

  /** A word is written least significant byte first (section 2). */
  lemma WordIsLittleEndian(w: Word)
    ensures LittleEndian(EncodeWord(w)) == w
  {
    FourBytes(EncodeWord(w));
    hide LittleEndian;
    FourDigits(w);
  }

  lemma FourDigits(w: nat)
    requires w < 0x1_0000_0000
    ensures w % 0x100 + 0x100 * (w / 0x100 % 0x100) + 0x10000 * (w / 0x10000 % 0x100) + 0x100_0000 * (w / 0x100_0000 % 0x100) == w
  {
    assert w / 0x10000 == w / 0x100 / 0x100 && w / 0x100_0000 == w / 0x10000 / 0x100;
  }

  lemma {:induction false} LittleEndianParts(a: seq<byte>, b: seq<byte>)
    ensures LittleEndian(a + b) == LittleEndian(a) + Pow2(8 * |a|) * LittleEndian(b)
  {
    if a == [] {
      assert a + b == b && Pow2(0) == 1;
    } else {
      LittleEndianParts(a[1..], b);
      assert (a + b)[1..] == a[1..] + b;
      Pow2Add(8, 8 * (|a| - 1));
      Pow2Small();
      Assoc(0x100, Pow2(8 * (|a| - 1)), LittleEndian(b));
    }
  }

  /** So is the length, low word first (section 3.2). */
  lemma LengthIsLittleEndian(n: nat)
    ensures LittleEndian(Encode64(n)) == n % 0x1_0000_0000_0000_0000
  {
    hide EncodeWord, LittleEndian, Pow2;
    var low, high := n % 0x1_0000_0000, n / 0x1_0000_0000 % 0x1_0000_0000;
    WordIsLittleEndian(low);
    WordIsLittleEndian(high);
    LittleEndianParts(EncodeWord(low), EncodeWord(high));
    Pow2Small();
    TwoWords(n);
  }

  lemma TwoWords(n: nat)
    ensures n % 0x1_0000_0000 + 0x1_0000_0000 * (n / 0x1_0000_0000 % 0x1_0000_0000) == n % 0x1_0000_0000_0000_0000
  {
    var q := n / 0x1_0000_0000;
    DivDiv(n, 0x1_0000_0000, 0x1_0000_0000);
    DivOfSum(n, q / 0x1_0000_0000, q % 0x1_0000_0000 * 0x1_0000_0000 + n % 0x1_0000_0000, 0x1_0000_0000_0000_0000);
  }

  lemma {:induction false} LittleEndianInjective(s: seq<byte>, t: seq<byte>)
    requires |s| == |t| && LittleEndian(s) == LittleEndian(t)
    ensures s == t
  {
    if s != [] {
      LittleEndianInjective(s[1..], t[1..]);
      assert s == [s[0]] + s[1..] && t == [t[0]] + t[1..];
    }
  }

  /** Steps 1 and 2 of the algorithm: a 1 bit, as few 0 bits as bring the length to 448 modulo 512, and the length. */
  predicate IsPadded(m: seq<byte>, p: seq<byte>) {
    && |p| % 64 == 0 && |m| + 9 <= |p| <= |m| + 72
    && p[..|m|] == m && p[|m|] == 0x80
    && (forall i | |m| < i < |p| - 8 :: p[i] == 0)
    && LittleEndian(p[|p| - 8..]) == 8 * |m| % 0x1_0000_0000_0000_0000
  }

  /** The padded message is the one text that is so made. */
  lemma PaddedExactly(m: seq<byte>, p: seq<byte>)
    ensures p == Padded(m) <==> IsPadded(m, p)
  {
    hide LittleEndian, PadLength, Encode64;
    var q := Padded(m);
    PaddedIsWhole(m);
    LengthIsLittleEndian(8 * |m|);
    assert q[|q| - 8..] == Encode64(8 * |m|);
    assert IsPadded(m, q);
    if IsPadded(m, p) {
      SameLength(|m|, |p|, |q|);
      LittleEndianInjective(p[|p| - 8..], q[|q| - 8..]);
      assert p == p[..|m|] + [p[|m|]] + p[|m| + 1..|p| - 8] + p[|p| - 8..];
      assert q == q[..|m|] + [q[|m|]] + q[|m| + 1..|q| - 8] + q[|q| - 8..];
    }
  }

  lemma SameLength(m: nat, p: nat, q: nat)
    requires p % 64 == 0 && q % 64 == 0 && m + 9 <= p <= m + 72 && m + 9 <= q <= m + 72
    ensures p == q
  {
  }

  /** The initial chaining value, low-order bytes first (section 3.3). */
  lemma InitialBytes()
    ensures EncodeChaining(INITIAL) == [0x01, 0x23, 0x45, 0x67, 0x89, 0xAB, 0xCD, 0xEF,
                                        0xFE, 0xDC, 0xBA, 0x98, 0x76, 0x54, 0x32, 0x10]
  {
  }

  /** The digest holds the words of the chaining value one after the other, each low-order byte first (section 3.5). */
  lemma DigestWords(f: Compression, m: seq<byte>, p: seq<byte>)
    requires IsPadded(m, p)
    ensures var d, s := Hash(f, m), Fold(f, INITIAL, p);
      && |d| == 16
      && LittleEndian(d[0..4]) == s.a && LittleEndian(d[4..8]) == s.b
      && LittleEndian(d[8..12]) == s.c && LittleEndian(d[12..16]) == s.d
  {
    hide LittleEndian, Fold, Padded, EncodeWord, IsPadded;
    PaddedExactly(m, p);
    var s := Fold(f, INITIAL, p);
    WordIsLittleEndian(s.a);
    WordIsLittleEndian(s.b);
    WordIsLittleEndian(s.c);
    WordIsLittleEndian(s.d);
    var d := EncodeChaining(s);
    assert d[0..4] == EncodeWord(s.a) && d[4..8] == EncodeWord(s.b);
    assert d[8..12] == EncodeWord(s.c) && d[12..16] == EncodeWord(s.d);
  }

  // ---- The counter ----

  /** A 64-bit counter of bits in two words. */
  function Count(c0: Word, c1: Word): nat {
    c1 * 0x1_0000_0000 + c0
  }

  lemma CountsBytes(c0: Word, c1: Word, n: nat, l: nat)
    requires Count(c0, c1) == 8 * n % 0x1_0000_0000_0000_0000 && l < 0x1_0000_0000
    ensures var low := l * 8 % 0x1_0000_0000;
      var d0 := (c0 + low) % 0x1_0000_0000;
      var d1 := (c1 + (if d0 < low then 1 else 0) + l / 0x2000_0000) % 0x1_0000_0000;
      Count(d0, d1) == 8 * (n + l) % 0x1_0000_0000_0000_0000
  {
    var low, high := l * 8 % 0x1_0000_0000, l / 0x2000_0000;
    assert 8 * l == high * 0x1_0000_0000 + low;
    var q := 8 * n / 0x1_0000_0000_0000_0000;
    var c := if (c0 + low) % 0x1_0000_0000 < low then 1 else 0;
    assert c0 + low == c * 0x1_0000_0000 + (c0 + low) % 0x1_0000_0000;
    var t := c1 + c + high;
    var e := t / 0x1_0000_0000;
    assert 8 * (n + l) == (q + e) * 0x1_0000_0000_0000_0000 + (t % 0x1_0000_0000 * 0x1_0000_0000 + (c0 + low) % 0x1_0000_0000);
    DivOfSum(8 * (n + l), q + e, t % 0x1_0000_0000 * 0x1_0000_0000 + (c0 + low) % 0x1_0000_0000, 0x1_0000_0000_0000_0000);
  }

  lemma IndexOf(c0: Word, c1: Word, n: nat)
    requires Count(c0, c1) == 8 * n % 0x1_0000_0000_0000_0000
    ensures c0 / 8 % 64 == n % 64
  {
    var q := 8 * n / 0x1_0000_0000_0000_0000;
    assert 8 * n == q * 0x1_0000_0000_0000_0000 + c1 * 0x1_0000_0000 + c0;
    assert c0 == 8 * (n - q * 0x2000_0000_0000_0000 - c1 * 0x2000_0000);
  }

  // ---- The context ----

  class MD5_CTX {
    var count0: Word
    var count1: Word
    var state: Chaining
    const buffer: array<byte>
    /** MD5Transform. */
    const transform: Compression

    /** The context after the bytes of `m`: the whole blocks are compressed, the rest is in the buffer. */
    ghost predicate Holds(m: seq<byte>)
      reads this, buffer
    {
      && buffer.Length == 64
      && Count(count0, count1) == 8 * |m| % 0x1_0000_0000_0000_0000
      && state == Fold(transform, INITIAL, m[..Whole(|m|)])
      && buffer[..|m| - Whole(|m|)] == m[Whole(|m|)..]
    }

    /** MD5Init. */
    constructor (transform: Compression)
      ensures this.transform == transform && Holds([]) && fresh(buffer)
    {
      count0, count1 := 0, 0;
      state := INITIAL;
      buffer := new byte[64];
      this.transform := transform;
    }

    /** memcpy into the buffer. */
    method Fill(index: nat, input: array<byte>, from: nat, n: nat)
      requires buffer.Length == 64 && index + n <= 64 && from + n <= input.Length && input != buffer
      modifies buffer
      ensures buffer[..index + n] == old(buffer[..index]) + input[from..from + n]
    {
      forall k | 0 <= k < n {
        buffer[index + k] := input[from + k];
      }
      assert buffer[..index] == old(buffer[..index]) && buffer[index..index + n] == input[from..from + n];
      assert buffer[..index + n] == buffer[..index] + buffer[index..index + n];
    }

    /** Adds to the counter of bits. */
    method Advance(inputlen: nat, ghost n: nat)
      requires inputlen < 0x1_0000_0000 && Count(count0, count1) == 8 * n % 0x1_0000_0000_0000_0000
      modifies this`count0, this`count1
      ensures Count(count0, count1) == 8 * (n + inputlen) % 0x1_0000_0000_0000_0000
    {
      hide *;
      CountsBytes(count0, count1, n, inputlen);
      var low := inputlen * 8 % 0x1_0000_0000;
      count0 := (count0 + low) % 0x1_0000_0000;
      CarryThenHigh(count1, if count0 < low then 1 else 0, inputlen / 0x2000_0000);
      if count0 < low {
        count1 := (count1 + 1) % 0x1_0000_0000;
      }
      count1 := (count1 + inputlen / 0x2000_0000) % 0x1_0000_0000;
    }

    /** Adds bytes to the message, in whatever pieces they come. */
    method Update(input: array<byte>, inputlen: nat, ghost m: seq<byte>)
      requires Holds(m) && input != buffer && inputlen <= input.Length && inputlen < 0xFFFF_FFC0
      modifies this`count0, this`count1, this`state, buffer
      ensures Holds(m + input[..inputlen])
    {
      hide Count, Fold;
      ghost var w, all := Whole(|m|), m + input[..inputlen];
      IndexOf(count0, count1, |m|);
      var index := count0 / 8 % 64;
      var partlen := 64 - index;
      Advance(inputlen, |m|);
      var i := 0;
      if inputlen >= partlen {
        i := Compress(input, inputlen, index, m);
        index := 0;
      }
      ghost var start := buffer[..index];
      Fill(index, input, i, inputlen - i);
      Remainder(m, input[..inputlen], i, start);
    }

    /** The buffer completed to a block, and all whole blocks that follow in the input. */
    method Compress(input: array<byte>, inputlen: nat, index: nat, ghost m: seq<byte>) returns (i: nat)
      requires buffer.Length == 64 && input != buffer && 64 - index <= inputlen <= input.Length
      requires index == |m| - Whole(|m|) && buffer[..index] == m[Whole(|m|)..]
      requires state == Fold(transform, INITIAL, m[..Whole(|m|)])
      modifies this`state, buffer
      ensures 0 < i <= inputlen && inputlen - i < 64 && (|m| + i) % 64 == 0
      ensures state == Fold(transform, INITIAL, (m + input[..inputlen])[..|m| + i])
    {
      hide Fold;
      ghost var w, all := Whole(|m|), m + input[..inputlen];
      var partlen := 64 - index;
      Fill(index, input, 0, partlen);
      ghost var block := m[w..] + input[..partlen];
      assert buffer[..] == buffer[..64] == buffer[..index + partlen];
      assert input[0..0 + partlen] == input[..partlen];
      state := transform(state, buffer[..]);
      FoldBlock(transform, INITIAL, m[..w], block);
      assert m[..w] + block == all[..w + 64];
      i := partlen;
      while i + 64 <= inputlen
        invariant partlen <= i <= inputlen && (|m| + i) % 64 == 0
        invariant state == Fold(transform, INITIAL, all[..|m| + i])
      {
        NextBlock(transform, m, input[..inputlen], i);
        assert input[i..i + 64] == input[..inputlen][i..i + 64];
        state := transform(state, input[i..i + 64]);
        i := i + 64;
      }
    }

    /** Pads, appends the length and writes the digest: the hash of the whole message. */
    method Final(digest: array<byte>, ghost m: seq<byte>)
      requires Holds(m) && digest != buffer && digest.Length >= 16
      modifies this`count0, this`count1, this`state, buffer, digest
      ensures digest[..16] == Hash(transform, m)
    {
      hide Count, Fold, Padded, Encode64;
      Pad(m);
      PaddedIsWhole(m);
      WholeIs(|Padded(m)|, |Padded(m)|);
      assert Padded(m)[..|Padded(m)|] == Padded(m);
      Md5Encode(digest, [state.a, state.b, state.c, state.d], 16);
      FourWords(state);
    }

    /** The two updates of MD5Final: the padding and the length counted before it. */
    method Pad(ghost m: seq<byte>)
      requires Holds(m)
      modifies this`count0, this`count1, this`state, buffer
      ensures Holds(Padded(m))
    {
      hide *;
      HoldsCounter(this, m);
      PadLengthIs(|m|);
      var index := count0 / 8 % 64;
      var padlen := if index < 56 then 56 - index else 120 - index;
      var bits := new byte[8];
      CounterIsLength(count0, count1, |m|);
      Md5Encode(bits, [count0, count1], 8);
      ghost var length := bits[..8];
      var padding := new byte[64](_ => 0);
      padding[0] := 0x80;
      PaddingIs(padding[..], padlen);
      assert padding[..][..padlen] == padding[..padlen];
      Update(padding, padlen, m);
      Update(bits, 8, m + Padding(padlen));
      PaddedIs(m, length);
    }
  }

  lemma HoldsCounter(c: MD5_CTX, m: seq<byte>)
    requires c.Holds(m)
    ensures Count(c.count0, c.count1) == 8 * |m| % 0x1_0000_0000_0000_0000 && c.count0 / 8 % 64 == |m| % 64
  {
    IndexOf(c.count0, c.count1, |m|);
  }

  /** MD5Encode: the words, least significant byte first. */
  method Md5Encode(output: array<byte>, input: seq<Word>, len: nat)
    requires len == 4 * |input| <= output.Length
    modifies output
    ensures output[..len] == EncodeWords(input)
    ensures forall i | 0 <= i < |input| :: LittleEndian(output[4 * i..4 * i + 4]) == input[i]
  {
    var i, j := 0, 0;
    assert input[..0] == [];
    while j < len
      invariant 0 <= i <= |input| && j == 4 * i && output[..j] == EncodeWords(input[..i])
    {
      output[j] := input[i] % 0x100;
      output[j + 1] := input[i] / 0x100 % 0x100;
      output[j + 2] := input[i] / 0x10000 % 0x100;
      output[j + 3] := input[i] / 0x100_0000 % 0x100;
      assert input[..i + 1][..i] == input[..i];
      assert output[..j + 4] == output[..j] + EncodeWord(input[i]);
      i := i + 1;
      j := j + 4;
    }
    assert input[..|input|] == input;
    EncodedWords(input, output[..]);
  }

  lemma {:induction false} EncodedAt(ws: seq<Word>, i: nat)
    requires i < |ws|
    ensures EncodeWords(ws)[4 * i..4 * i + 4] == EncodeWord(ws[i])
  {
    var n := |ws| - 1;
    if i < n {
      EncodedAt(ws[..n], i);
      assert EncodeWords(ws)[4 * i..4 * i + 4] == EncodeWords(ws[..n])[4 * i..4 * i + 4];
    }
  }

  lemma EncodedWords(ws: seq<Word>, out: seq<byte>)
    requires 4 * |ws| <= |out| && out[..4 * |ws|] == EncodeWords(ws)
    ensures forall i | 0 <= i < |ws| :: LittleEndian(out[4 * i..4 * i + 4]) == ws[i]
  {
    hide LittleEndian, EncodeWord, EncodeWords;
    forall i | 0 <= i < |ws| ensures LittleEndian(out[4 * i..4 * i + 4]) == ws[i] {
      EncodedAt(ws, i);
      WordIsLittleEndian(ws[i]);
      assert out[4 * i..4 * i + 4] == out[..4 * |ws|][4 * i..4 * i + 4];
    }
  }

  function EncodeWords(ws: seq<Word>): (s: seq<byte>)
    ensures |s| == 4 * |ws|
  {
    if ws == [] then [] else EncodeWords(ws[..|ws| - 1]) + EncodeWord(ws[|ws| - 1])
  }

  lemma EncodeTwo(a: Word, b: Word)
    ensures EncodeWords([a, b]) == EncodeWord(a) + EncodeWord(b)
  {
    assert [a, b][..1] == [a] && [a][..0] == [] && EncodeWords([a]) == EncodeWords([]) + EncodeWord(a);
  }

  lemma FourWords(s: Chaining)
    ensures EncodeWords([s.a, s.b, s.c, s.d]) == EncodeChaining(s)
  {
    EncodeTwo(s.a, s.b);
    assert [s.a, s.b, s.c, s.d][..3] == [s.a, s.b, s.c] && [s.a, s.b, s.c][..2] == [s.a, s.b];
    assert EncodeWords([s.a, s.b, s.c]) == EncodeWords([s.a, s.b]) + EncodeWord(s.c);
  }

  lemma CounterIsLength(c0: Word, c1: Word, n: nat)
    requires Count(c0, c1) == 8 * n % 0x1_0000_0000_0000_0000
    ensures EncodeWords([c0, c1]) == Encode64(8 * n)
  {
    hide EncodeWord;
    EncodeTwo(c0, c1);
    var q := 8 * n / 0x1_0000_0000_0000_0000;
    assert 8 * n == (q * 0x1_0000_0000 + c1) * 0x1_0000_0000 + c0;
    DivOfSum(8 * n, q * 0x1_0000_0000 + c1, c0, 0x1_0000_0000);
    DivOfSum(q * 0x1_0000_0000 + c1, q, c1, 0x1_0000_0000);
  }

  lemma PadLengthIs(n: nat)
    ensures var index := n % 64; PadLength(n) == if index < 56 then 56 - index else 120 - index
  {
  }

  lemma PaddingIs(p: seq<byte>, k: nat)
    requires |p| == 64 && p[0] == 0x80 && (forall i | 0 < i < 64 :: p[i] == 0) && 1 <= k <= 64
    ensures p[..k] == Padding(k)
  {
  }

  lemma PaddedIs(m: seq<byte>, length: seq<byte>)
    requires length == Encode64(8 * |m|)
    ensures Padded(m) == m + Padding(PadLength(|m|)) + length
  {
  }

  /** The context depends on the message alone, not on how it was split into updates. */
  lemma SplitIndependence(c: MD5_CTX, d: MD5_CTX, m: seq<byte>)
    requires c.Holds(m) && d.Holds(m) && c.transform == d.transform
    ensures c.count0 == d.count0 && c.count1 == d.count1 && c.state == d.state
    ensures c.buffer[..|m| % 64] == d.buffer[..|m| % 64]
  {
    CountInjective(c.count0, c.count1, d.count0, d.count1);
  }

  lemma CountInjective(c0: Word, c1: Word, d0: Word, d1: Word)
    requires Count(c0, c1) == Count(d0, d1)
    ensures c0 == d0 && c1 == d1
  {
  }

  lemma NextBlock(f: Compression, m: seq<byte>, input: seq<byte>, i: nat)
    requires i + 64 <= |input| && (|m| + i) % 64 == 0
    ensures var all := m + input;
      && Fold(f, INITIAL, all[..|m| + i + 64]) == f(Fold(f, INITIAL, all[..|m| + i]), input[i..i + 64])
      && (|m| + i + 64) % 64 == 0
  {
    hide Fold;
    var all := m + input;
    FoldBlock(f, INITIAL, all[..|m| + i], input[i..i + 64]);
    assert all[..|m| + i] + input[i..i + 64] == all[..|m| + i + 64];
  }

  /** What is left for the buffer. */
  lemma Remainder(m: seq<byte>, input: seq<byte>, i: nat, start: seq<byte>)
    requires i <= |input|
    requires if i == 0 then start == m[Whole(|m|)..] && |m| - Whole(|m|) + |input| < 64
             else start == [] && |input| - i < 64 && (|m| + i) % 64 == 0
    ensures var all := m + input;
      && Whole(|all|) == (if i == 0 then Whole(|m|) else |m| + i)
      && start + input[i..] == all[Whole(|all|)..]
      && all[..Whole(|all|)] == (if i == 0 then m[..Whole(|m|)] else all[..|m| + i])
  {
    WholeIs(|m + input|, if i == 0 then Whole(|m|) else |m| + i);
  }

  lemma CarryThenHigh(c: Word, carry: nat, high: nat)
    requires carry <= 1
    ensures ((c + carry) % 0x1_0000_0000 + high) % 0x1_0000_0000 == (c + carry + high) % 0x1_0000_0000
    ensures (c + high) % 0x1_0000_0000 == (c % 0x1_0000_0000 + high) % 0x1_0000_0000
  {
  }

  /** The length of the whole blocks. */
  function Whole(n: nat): (w: nat)
    ensures w <= n < w + 64 && w % 64 == 0 && n - w == n % 64
  {
    n - n % 64
  }

  lemma WholeIs(n: nat, w: nat)
    requires w <= n < w + 64 && w % 64 == 0
    ensures Whole(n) == w
  {
  }
}
