/**
 Multi-word integers: the least significant word comes first, a number occupies the first
 `n` words of an array, and every word operation wraps modulo 2^32 as `uint32_t` does.
 Results may be written over an operand wherever the code allows it.
 */
module Vli {
  import opened Arith
  import opened Bits

  const BASE: nat := 0x1_0000_0000
  const WORD_BITS: nat := 32
  const HIGH_BIT: nat := 0x8000_0000

  type Word = w: int | 0 <= w < 0x1_0000_0000

  /** The weight of word `i`. */
  function W(i: nat): (p: nat)
    ensures p > 0
  {
    if i == 0 then 1 else BASE * W(i - 1)
  }

  /** The number held in the first `n` words of `s`. */
  function Value(s: seq<Word>, n: nat): nat
    requires n <= |s|
  {
    if n == 0 then 0 else Value(s, n - 1) + s[n - 1] * W(n - 1)
  }

  function Val(a: array<Word>, n: nat): nat
    requires n <= a.Length
    reads a
  {
    Value(a[..], n)
  }

  lemma {:induction false} WAsPow2(i: nat)
    ensures W(i) == Pow2(32 * i)
  {
    if i > 0 {
      WAsPow2(i - 1);
      Pow2Add(32, 32 * (i - 1));
      Pow2Small();
    }
  }

  lemma {:induction false} WAdd(a: nat, b: nat)
    ensures W(a + b) == W(a) * W(b)
  {
    WAsPow2(a + b);
    WAsPow2(a);
    WAsPow2(b);
    Pow2Add(32 * a, 32 * b);
  }

  lemma {:induction false} ValueBound(s: seq<Word>, n: nat)
    requires n <= |s|
    ensures Value(s, n) < W(n)
  {
    if n > 0 {
      ValueBound(s, n - 1);
      MulMono(s[n - 1], BASE - 1, W(n - 1));
    }
  }

  lemma {:induction false} ValuePrefix(s: seq<Word>, t: seq<Word>, n: nat)
    requires n <= |s| && n <= |t|
    requires forall i | 0 <= i < n :: s[i] == t[i]
    ensures Value(s, n) == Value(t, n)
  {
    if n > 0 {
      ValuePrefix(s, t, n - 1);
    }
  }

  /** Splitting a number at word `m`: low part plus shifted high part. */
  lemma {:induction false} ValueSplit(s: seq<Word>, m: nat, n: nat)
    requires m <= n <= |s|
    ensures Value(s, n) == Value(s, m) + Value(s[m..], n - m) * W(m)
  {
    hide W;
    if n > m {
      ValueSplit(s, m, n - 1);
      WAdd(m, n - 1 - m);
      var v, d, w := Value(s[m..], n - 1 - m), s[n - 1], W(n - 1 - m);
      assert s[m..][n - 1 - m] == d;
      Distrib(v, d * w, W(m));
      Assoc(d, w, W(m));
    } else {
      assert Value(s[m..], 0) == 0;
    }
  }

  lemma ValueTop(s: seq<Word>, n: nat)
    requires 0 < n <= |s|
    ensures Value(s, n) == Value(s, n - 1) + s[n - 1] * W(n - 1) && W(n) == BASE * W(n - 1)
  {
  }

  lemma {:induction false} ValueZeroIff(s: seq<Word>, n: nat)
    requires n <= |s|
    ensures Value(s, n) == 0 <==> forall i | 0 <= i < n :: s[i] == 0
  {
    if n > 0 {
      ValueZeroIff(s, n - 1);
      assert s[n - 1] > 0 ==> s[n - 1] * W(n - 1) > 0;
    }
  }

  /** Equal numbers have equal words. */
  lemma {:induction false} ValueInjective(s: seq<Word>, t: seq<Word>, n: nat)
    requires n <= |s| && n <= |t|
    requires Value(s, n) == Value(t, n)
    ensures forall i | 0 <= i < n :: s[i] == t[i]
  {
    if n > 0 {
      if s[n - 1] < t[n - 1] {
        TopWordDecides(s, t, n);
      } else if s[n - 1] > t[n - 1] {
        TopWordDecides(t, s, n);
      }
      ValueInjective(s, t, n - 1);
    }
  }

  lemma TopWordDecides(s: seq<Word>, t: seq<Word>, n: nat)
    requires 0 < n <= |s| && n <= |t|
    requires s[n - 1] < t[n - 1]
    ensures Value(s, n) < Value(t, n)
  {
    ValueBound(s, n - 1);
    MulMono(s[n - 1] + 1, t[n - 1], W(n - 1));
    Distrib(s[n - 1], 1, W(n - 1));
  }

  lemma {:induction false} ValueParity(s: seq<Word>, n: nat)
    requires 0 < n <= |s|
    ensures Value(s, n) % 2 == s[0] % 2
  {
    if n == 1 {
      assert W(0) == 1;
    } else {
      ValueParity(s, n - 1);
      EvenWeight(s[n - 1], W(n - 2));
      ModPlusMultiple(Value(s, n - 1), s[n - 1] * W(n - 2) * 0x8000_0000, 2);
    }
  }

  lemma EvenWeight(d: nat, w: nat)
    ensures d * (BASE * w) == d * w * 0x8000_0000 * 2
  {
    Assoc(d, w, BASE);
  }

  /** Agreement above word `m` lifts agreement of the low parts. */
  lemma {:induction false} ValueSameTop(s: seq<Word>, t: seq<Word>, m: nat, n: nat)
    requires m <= n <= |s| && n <= |t|
    requires forall i | m <= i < n :: s[i] == t[i]
    ensures Value(s, n) - Value(t, n) == Value(s, m) - Value(t, m)
  {
    if m < n {
      ValueSameTop(s, t, m, n - 1);
    }
  }

  // ---- Clearing, copying, testing ----

  method Clear(vli: array<Word>, n: nat)
    requires n <= vli.Length
    modifies vli
    ensures Val(vli, n) == 0
    ensures forall i | 0 <= i < n :: vli[i] == 0
    ensures forall i | n <= i < vli.Length :: vli[i] == old(vli[i])
  {
    for i := 0 to n
      invariant forall j | 0 <= j < i :: vli[j] == 0
      invariant forall j | n <= j < vli.Length :: vli[j] == old(vli[j])
    {
      vli[i] := 0;
    }
    ValueZeroIff(vli[..], n);
  }

  method Set(dest: array<Word>, src: array<Word>, n: nat)
    requires n <= dest.Length && n <= src.Length
    modifies dest
    ensures Val(dest, n) == old(Val(src, n))
    ensures forall i | 0 <= i < n :: dest[i] == old(src[i])
    ensures forall i | n <= i < dest.Length :: dest[i] == old(dest[i])
  {
    for i := 0 to n
      invariant forall j | 0 <= j < i :: dest[j] == old(src[j])
      invariant forall j | i <= j < n :: src[j] == old(src[j])
      invariant forall j | n <= j < dest.Length :: dest[j] == old(dest[j])
    {
      dest[i] := src[i];
    }
    ValuePrefix(dest[..], old(src[..]), n);
  }

  method IsZero(vli: array<Word>, n: nat) returns (zero: bool)
    requires n <= vli.Length
    ensures zero <==> Val(vli, n) == 0
  {
    var bits: nat := 0;
    for i := 0 to n
      invariant bits == 0 <==> forall j | 0 <= j < i :: vli[j] == 0
    {
      BitOrZeroIff(bits, vli[i]);
      bits := BitOr(bits, vli[i]);
    }
    ValueZeroIff(vli[..], n);
    zero := bits == 0;
  }

  /** Bit `bit` of the number `v`. */
  predicate BitOf(v: nat, bit: nat) {
    v / Pow2(bit) % 2 == 1
  }

  lemma WordOfValue(s: seq<Word>, n: nat, k: nat)
    requires k < n <= |s|
    ensures Value(s, n) / W(k) % BASE == s[k]
  {
    ValueSplit(s, k, n);
    ValueBound(s, k);
    var t := s[k..];
    DivOfSum(Value(s, n), Value(t, n - k), Value(s, k), W(k));
    LowestWord(t, n - k);
  }

  lemma LowestWord(t: seq<Word>, n: nat)
    requires 0 < n <= |t|
    ensures Value(t, n) % BASE == t[0]
  {
    ValueSplit(t, 1, n);
    OneWord(t);
    DivOfSum(Value(t, n), Value(t[1..], n - 1), t[0], BASE);
  }

  lemma ModDivBitOf(x: nat, h: nat, m: nat)
    requires m > 0 && 2 * (h * m) == BASE
    ensures x % BASE / m % 2 == x / m % 2
  {
    var q, r := x / BASE, x % BASE;
    var y := r / m;
    Assoc(q * 2, h, m);
    Distrib(q * 2 * h, y, m);
    DivOfSum(x, q * 2 * h + y, r % m, m);
    ModPlusMultiple(y, q * h, 2);
  }

  lemma TestBitValue(s: seq<Word>, n: nat, k: nat, e: nat)
    requires k < n <= |s| && e < 32
    ensures s[k] / Pow2(e) % 2 == Value(s, n) / Pow2(32 * k + e) % 2
  {
    WordOfValue(s, n, k);
    WAsPow2(k);
    Pow2Add(32 * k, e);
    Pow2Add(31 - e, e);
    Pow2Small();
    BitOfWord(Value(s, n), W(k), Pow2(31 - e), Pow2(e));
  }

  lemma BitOfWord(v: nat, w: nat, h: nat, m: nat)
    requires w > 0 && m > 0 && 2 * (h * m) == BASE
    ensures v / w % BASE / m % 2 == v / (w * m) % 2
  {
    DivDiv(v, w, m);
    ModDivBitOf(v / w, h, m);
  }

  /** `vli[bit >> 5] & (1 << (bit & 31))` is nonzero. */
  method TestBit(vli: array<Word>, bit: nat, ghost n: nat) returns (set_: bool)
    requires n <= vli.Length && bit < 32 * n
    ensures set_ <==> BitOf(Val(vli, n), bit)
  {
    var k, e := bit / WORD_BITS, bit % WORD_BITS;
    set_ := vli[k] / Pow2(e) % 2 == 1;
    TestBitValue(vli[..], n, k, e);
  }

  /** `b` is the length in bits of `v`. */
  predicate IsBitLength(v: nat, b: nat) {
    v < Pow2(b) && (b > 0 ==> Pow2(b - 1) <= v)
  }

  method NumDigits(vli: array<Word>, max: nat) returns (digits: nat)
    requires max <= vli.Length
    ensures digits <= max
    ensures digits > 0 ==> vli[digits - 1] != 0
    ensures forall i | digits <= i < max :: vli[i] == 0
  {
    var i := max - 1;
    while i >= 0 && vli[i] == 0
      invariant -1 <= i < max
      invariant forall j | i < j < max :: vli[j] == 0
    {
      i := i - 1;
    }
    digits := i + 1;
  }

  lemma {:induction false} HighZeros(s: seq<Word>, d: nat, n: nat)
    requires d <= n <= |s|
    requires forall i | d <= i < n :: s[i] == 0
    ensures Value(s, n) == Value(s, d)
  {
    if d < n {
      HighZeros(s, d, n - 1);
    }
  }

  method NumBits(vli: array<Word>, max: nat) returns (bits: nat)
    requires max <= vli.Length
    ensures IsBitLength(Val(vli, max), bits)
    ensures bits <= 32 * max
    ensures max > 0 && vli[max - 1] != 0 ==> bits > 32 * (max - 1)
  {
    var digits := NumDigits(vli, max);
    HighZeros(vli[..], digits, max);
    if digits == 0 {
      return 0;
    }
    var top := vli[digits - 1];
    var i: nat := 0;
    var digit: nat := top;
    while digit != 0
      invariant digit * Pow2(i) <= top < (digit + 1) * Pow2(i)
      invariant i > 0 ==> top >= Pow2(i - 1)
      invariant digit == 0 ==> i > 0
      decreases digit
    {
      var next := digit / 2;
      Assoc(next, 2, Pow2(i));
      MulMono(2 * next, digit, Pow2(i));
      Assoc(next + 1, 2, Pow2(i));
      MulMono(digit + 1, 2 * (next + 1), Pow2(i));
      MulMono(1, digit, Pow2(i));
      digit, i := next, i + 1;
    }
    bits := (digits - 1) * WORD_BITS + i;
    TopBits(vli[..], digits, i);
  }

  lemma TopBits(s: seq<Word>, d: nat, i: nat)
    requires 0 < d <= |s| && IsBitLength(s[d - 1], i) && i > 0
    ensures i <= 32 && IsBitLength(Value(s, d), (d - 1) * 32 + i)
  {
    var k := d - 1;
    var top := s[k];
    if i > 32 {
      Pow2Monotone(32, i - 1);
      Pow2Small();
    }
    ValueBound(s, k);
    WAsPow2(k);
    Pow2Add(i, 32 * k);
    Pow2Add(i - 1, 32 * k);
    TopBitsOf(top, Value(s, k), W(k), Pow2(i), Pow2(i - 1));
  }

  lemma TopBitsOf(top: nat, v: nat, w: nat, hi: nat, lo: nat)
    requires v < w && lo <= top < hi
    ensures lo * w <= v + top * w < hi * w
  {
    MulMono(top + 1, hi, w);
    Distrib(top, 1, w);
    MulMono(lo, top, w);
  }

  // ---- Comparison ----

  function Sign(d: int): int {
    if d > 0 then 1 else if d < 0 then -1 else 0
  }

  method CmpUnsafe(left: array<Word>, right: array<Word>, n: nat) returns (c: int)
    requires n <= left.Length && n <= right.Length
    ensures c == Sign(Val(left, n) - Val(right, n))
  {
    var i := n - 1;
    while i >= 0
      invariant -1 <= i < n
      invariant forall j | i < j < n :: left[j] == right[j]
    {
      if left[i] != right[i] {
        ValueSameTop(left[..], right[..], i + 1, n);
      }
      if left[i] > right[i] {
        TopWordDecides(right[..], left[..], i + 1);
        return 1;
      } else if left[i] < right[i] {
        TopWordDecides(left[..], right[..], i + 1);
        return -1;
      }
      i := i - 1;
    }
    ValuePrefix(left[..], right[..], n);
    c := 0;
  }

  /** The accumulated difference `diff |= left[i] ^ right[i]` is zero only for equal words. */
  method Equal(left: array<Word>, right: array<Word>, n: nat) returns (equal: bool)
    requires n <= left.Length && n <= right.Length
    ensures equal <==> Val(left, n) == Val(right, n)
  {
    var diff: nat := 0;
    var i := n - 1;
    while i >= 0
      invariant -1 <= i < n
      invariant diff == 0 <==> forall j | i < j < n :: left[j] == right[j]
    {
      BitOrZeroIff(diff, BitXor(left[i], right[i]));
      BitXorZeroIff(left[i], right[i]);
      diff := BitOr(diff, BitXor(left[i], right[i]));
      i := i - 1;
    }
    equal := diff == 0;
    if Val(left, n) == Val(right, n) {
      ValueInjective(left[..], right[..], n);
    } else if equal {
      ValuePrefix(left[..], right[..], n);
    }
  }

  method Cmp(left: array<Word>, right: array<Word>, n: nat) returns (c: int)
    requires n <= left.Length && n <= right.Length
    ensures c == Sign(Val(left, n) - Val(right, n))
  {
    var tmp := new Word[n];
    var borrow := Sub(tmp, left, right, n);
    var neg := if borrow != 0 then 1 else 0;
    var equal := IsZero(tmp, n);
    ValueBound(tmp[..], n);
    ValueBound(left[..], n);
    ValueBound(right[..], n);
    c := (if equal then 0 else 1) - 2 * neg;
  }

  // ---- Addition, subtraction, halving ----

  /** Comparing the wrapped sum with one operand tells the carry, unless they are equal. */
  lemma CarryTest(x: Word, y: Word, c: Word)
    requires c <= 1
    ensures var sum := (x as int + y + c) % BASE;
      x as int + y + c == sum + (if sum == x then c else if sum < x then 1 else 0) * BASE
  {
    var t: int := x as int + y + c;
    if t < BASE {
      ModSmall(t, BASE);
    } else {
      DivOfSum(t, 1, t - BASE, BASE);
    }
  }

  lemma BorrowTest(x: Word, y: Word, b: Word)
    requires b <= 1
    ensures var diff := (x as int - y - b) % BASE;
      x as int - y - b == diff - (if diff == x then b else if diff > x then 1 else 0) * BASE
  {
    var t: int := x as int - y - b;
    if t >= 0 {
      ModSmall(t, BASE);
    } else {
      DivOfSum(t, -1, t + BASE, BASE);
    }
  }

  lemma ValueNext(s: seq<Word>, i: nat)
    requires i < |s|
    ensures Value(s, i + 1) == Value(s, i) + s[i] * W(i)
  {
  }

  lemma NoWords(s: seq<Word>, t: seq<Word>, u: seq<Word>)
    ensures Value(s, 0) == 0 && Value(t, 0) == 0 && Value(u, 0) == 0
  {
  }

  method Add(result: array<Word>, left: array<Word>, right: array<Word>, n: nat) returns (carry: Word)
    requires n <= result.Length && n <= left.Length && n <= right.Length
    modifies result
    ensures carry <= 1
    ensures Val(result, n) + carry * W(n) == old(Val(left, n)) + old(Val(right, n))
    ensures forall i | n <= i < result.Length :: result[i] == old(result[i])
  {
    hide Value, W;
    NoWords(result[..], left[..], right[..]);
    carry := 0;
    ghost var l, r := left[..], right[..];
    for i := 0 to n
      invariant carry <= 1
      invariant forall j | i <= j < n :: left[j] == l[j] && right[j] == r[j]
      invariant forall j | n <= j < result.Length :: result[j] == old(result[j])
      invariant Val(result, i) + carry * W(i) == Value(l, i) + Value(r, i)
    {
      ghost var before, carryIn := result[..], carry;
      CarryTest(left[i], right[i], carry);
      var sum := (left[i] + right[i] + carry) % BASE;
      if sum != left[i] {
        carry := if sum < left[i] then 1 else 0;
      }
      result[i] := sum;
      ValuePrefix(before, result[..], i);
      ValueNext(result[..], i);
      ValueNext(l, i);
      ValueNext(r, i);
      ghost var x: int, y: int, c: int, d: int := l[i], r[i], carryIn, carry;
      CarryStep(x + y + c, sum, d, i);
      Distrib(x + y, c, W(i));
      Distrib(x, y, W(i));
    }
  }

  lemma CarryStep(total: int, digit: int, carry: int, i: nat)
    requires total == digit + carry * BASE
    ensures total * W(i) == digit * W(i) + carry * W(i + 1)
  {
    Distrib(digit, carry * BASE, W(i));
    Assoc(carry, BASE, W(i));
  }

  method Sub(result: array<Word>, left: array<Word>, right: array<Word>, n: nat) returns (borrow: Word)
    requires n <= result.Length && n <= left.Length && n <= right.Length
    modifies result
    ensures borrow <= 1
    ensures Val(result, n) - borrow * W(n) == old(Val(left, n)) - old(Val(right, n))
    ensures forall i | n <= i < result.Length :: result[i] == old(result[i])
  {
    hide Value, W;
    NoWords(result[..], left[..], right[..]);
    borrow := 0;
    ghost var l, r := left[..], right[..];
    for i := 0 to n
      invariant borrow <= 1
      invariant forall j | i <= j < n :: left[j] == l[j] && right[j] == r[j]
      invariant forall j | n <= j < result.Length :: result[j] == old(result[j])
      invariant Val(result, i) - borrow * W(i) == Value(l, i) - Value(r, i)
    {
      ghost var before, borrowIn := result[..], borrow;
      BorrowTest(left[i], right[i], borrow);
      var diff := (left[i] - right[i] - borrow) % BASE;
      if diff != left[i] {
        borrow := if diff > left[i] then 1 else 0;
      }
      result[i] := diff;
      ValuePrefix(before, result[..], i);
      ValueNext(result[..], i);
      ValueNext(l, i);
      ValueNext(r, i);
      ghost var x: int, y: int, c: int := l[i], r[i], borrowIn;
      ghost var b: int := borrow;
      CarryStep(x - y - c, diff, -b, i);
      Distrib(x - y, c, W(i));
      Distrib(x, y, W(i));
    }
  }

  /** `vli = vli >> 1`, on the `n` words that start at word `off`. */
  method RShift1(vli: array<Word>, off: nat, n: nat)
    requires off + n <= vli.Length
    modifies vli
    ensures Value(vli[off..], n) == old(Value(vli[off..], n)) / 2
    ensures forall i | 0 <= i < off || off + n <= i < vli.Length :: vli[i] == old(vli[i])
  {
    hide BitOr, W, Value;
    NoWords(vli[off + n..], vli[off + n..], vli[off + n..]);
    var carry: Word := 0;
    ghost var s, h, start := vli[off..], vli[off + n..], vli[..];
    var i := n;
    // The words from i up, with the bit shifted out below them, make up the words from i up.
    while i > 0
      invariant 0 <= i <= n
      invariant carry == 0 || carry == HIGH_BIT
      invariant forall j | 0 <= j < off + i || off + n <= j < vli.Length :: vli[j] == start[j]
      invariant h == vli[off + i..]
      invariant 2 * Value(h, n - i) + carry / HIGH_BIT == Value(s[i..], n - i)
    {
      i := i - 1;
      ghost var carryIn, above := carry, h;
      var temp := vli[off + i];
      ShiftIn(temp, carry);
      vli[off + i] := BitOr(temp / 2, carry);
      carry := temp * HIGH_BIT % BASE;
      h := [vli[off + i]] + above;
      HalveStep(h, above, s, i, n - i, carryIn, carry);
    }
    assert s[0..] == s;
    HalfOf(Value(h, n), carry / HIGH_BIT, Value(s, n));
  }

  lemma ShiftIn(temp: Word, carry: Word)
    requires carry == 0 || carry == HIGH_BIT
    ensures BitOr(temp / 2, carry) == temp / 2 + carry < BASE
  {
    Pow2Small();
    BitOrDisjoint(temp / 2, carry / HIGH_BIT, 31);
  }

  lemma HalfOf(h: nat, c: nat, v: nat)
    requires 2 * h + c == v && c <= 1
    ensures h == v / 2
  {
  }

  /** One word joins the halved part; `len` words of `s` from word i on are then accounted for. */
  lemma HalveStep(h: seq<Word>, above: seq<Word>, s: seq<Word>, i: nat, len: nat, carryIn: Word, carry: Word)
    requires 0 < len <= |h| && i + len <= |s|
    requires carryIn == 0 || carryIn == HIGH_BIT
    requires h == [s[i] / 2 + carryIn] + above && carry == s[i] * HIGH_BIT % BASE
    requires 2 * Value(above, len - 1) + carryIn / HIGH_BIT == Value(s[i + 1..], len - 1)
    ensures carry == 0 || carry == HIGH_BIT
    ensures 2 * Value(h, len) + carry / HIGH_BIT == Value(s[i..], len)
  {
    hide Value, W;
    var t := s[i..];
    assert h[1..] == above && t[1..] == s[i + 1..];
    ValueSplit(h, 1, len);
    ValueSplit(t, 1, len);
    OneWord(h);
    OneWord(t);
    var q, b := t[0] / 2, t[0] % 2;
    DivOfSum(t[0] * HIGH_BIT, q, b * HIGH_BIT, BASE);
  }

  lemma OneWord(s: seq<Word>)
    requires |s| > 0
    ensures Value(s, 1) == s[0] && W(1) == BASE
  {
    assert Value(s, 0) == 0 && W(0) == 1;
    assert Value(s, 1) == Value(s, 0) + s[0] * W(0);
    assert W(1) == BASE * W(0);
  }

  /** `vli = vli >> 1` on a whole number. */
  method Halve(vli: array<Word>, n: nat)
    requires n <= vli.Length
    modifies vli
    ensures Val(vli, n) == old(Val(vli, n)) / 2
    ensures forall i | n <= i < vli.Length :: vli[i] == old(vli[i])
  {
    assert vli[0..] == vli[..];
    RShift1(vli, 0, n);
    assert vli[0..] == vli[..];
  }
}
