/** Modular arithmetic on multi-word integers. */
module VliMod {
  import opened Arith
  import opened Bits
  import opened Congruence
  import opened Vli
  import opened VliMult

  // ---- Sum and difference ----

  /** The outcome of one trial subtraction. */
  function Reduced(x: nat, mm: nat): nat {
    if x >= mm then x - mm else x
  }

  /** Only `right` has to be below the modulus for the result to be exact up to one subtraction. */
  method ModAdd(result: array<Word>, left: array<Word>, right: array<Word>, mod: array<Word>, n: nat)
    requires n <= result.Length && n <= left.Length && n <= right.Length && n <= mod.Length
    requires result != mod
    requires Val(right, n) < Val(mod, n)
    modifies result
    ensures Val(result, n) == old(Reduced(Val(left, n) + Val(right, n), Val(mod, n)))
    ensures old(Val(left, n)) < old(Val(mod, n)) ==>
      Val(result, n) == old(Val(left, n) + Val(right, n)) % Val(mod, n)
  {
    ghost var m := Val(mod, n);
    ghost var total := Val(left, n) + Val(right, n);
    ValueBound(left[..], n);
    ValueBound(mod[..], n);
    var carry := Add(result, left, right, n);
    ValueBound(result[..], n);
    var c := CmpUnsafe(mod, result, n);
    ghost var low: nat := Val(result, n);
    if carry != 0 || c != 1 {
      var borrow := Sub(result, result, mod, n);
      ValueBound(result[..], n);
      CancelledCarry(Val(result, n), total - m, carry, borrow, W(n));
    }
    if total < 2 * m {
      ReducedIsMod(total, m);
    }
  }

  lemma ReducedIsMod(x: nat, m: nat)
    requires x < 2 * m
    ensures Reduced(x, m) == x % m
  {
    if x >= m {
      DivOfSum(x, 1, x - m, m);
    } else {
      ModSmall(x, m);
    }
  }

  /** A carry out of one step and a borrow out of the next are the same lost unit. */
  lemma CancelledCarry(v: nat, exact: int, carry: nat, borrow: nat, w: nat)
    requires carry <= 1 && borrow <= 1
    requires 0 <= exact < w && v < w
    requires v == exact - carry * w + borrow * w
    ensures v == exact
  {
  }

  method ModSub(result: array<Word>, left: array<Word>, right: array<Word>, mod: array<Word>, n: nat)
    requires n <= result.Length && n <= left.Length && n <= right.Length && n <= mod.Length
    requires result != mod
    requires Val(left, n) < Val(mod, n) && Val(right, n) < Val(mod, n)
    modifies result
    ensures Val(result, n) == old(Val(left, n) - Val(right, n)) % Val(mod, n)
  {
    ghost var m := Val(mod, n);
    ghost var diff := Val(left, n) - Val(right, n);
    var borrow := Sub(result, left, right, n);
    ValueBound(result[..], n);
    if borrow != 0 {
      var carry := Add(result, result, mod, n);
      ValueBound(result[..], n);
      ValueBound(mod[..], n);
      CancelledCarry(Val(result, n), diff + m, carry, borrow, W(n));
      DivOfSum(diff, -1, diff + m, m);
    } else {
      ModSmall(diff, m);
    }
  }

  // ---- Remainder by shift and subtract ----

  lemma ShiftedWord(d: Word, carry: Word, b: nat)
    requires 0 < b < 32 && carry < Pow2(b)
    ensures BitOr(d * Pow2(b) % BASE, carry) < BASE
    ensures 0 <= d / Pow2(32 - b) < Pow2(b) <= BASE
    ensures BitOr(d * Pow2(b) % BASE, carry) + d / Pow2(32 - b) * BASE == d * Pow2(b) + carry
  {
    hide BitOr, Pow2;
    var h, p := Pow2(32 - b), Pow2(b);
    PowersOfWord(b);
    ShiftedParts(d, h, p);
    BitOrDisjoint(carry, d % h, b);
  }

  lemma PowersOfWord(b: nat)
    requires b <= 32
    ensures Pow2(32 - b) * Pow2(b) == BASE && Pow2(b) <= BASE
  {
    Pow2Small();
    Pow2Add(32 - b, b);
    Pow2Monotone(b, 32);
  }

  lemma ShiftedParts(d: nat, h: nat, p: nat)
    requires h > 0 && p > 0 && h * p == BASE && d < BASE
    ensures d * p % BASE == (d % h) * p && d * p == (d % h) * p + d / h * BASE
    ensures 0 <= d / h < p && (d % h) * p <= BASE - p
  {
    var lo, hi := d % h, d / h;
    Distrib(hi * h, lo, p);
    Assoc(hi, h, p);
    MulMono(lo, h - 1, p);
    Distrib(h, 1, p);
    MulMono(0, lo, p);
    DivOfSum(d * p, hi, lo * p, BASE);
    if hi >= p {
      MulMono(p, hi, h);
      assert false;
    }
  }

  /** Fills words n to 2n-1 of `multiple` with `mod << bits`, for 0 < bits < 32. */
  method ShiftInto(multiple: array<Word>, mod: array<Word>, n: nat, bits: nat) returns (carry: Word)
    requires n <= mod.Length && 2 * n <= multiple.Length && multiple != mod
    requires 0 < bits < 32
    requires Val(multiple, n) == 0
    modifies multiple
    ensures Val(multiple, 2 * n) + carry * W(2 * n) == Val(mod, n) * Pow2(bits) * W(n)
  {
    carry := 0;
    ghost var m := mod[..];
    for index := 0 to n
      invariant carry < Pow2(bits)
      invariant Val(multiple, n + index) + carry * W(n + index) == Value(m, index) * Pow2(bits) * W(n)
    {
      ghost var before, carryIn := multiple[..], carry;
      var d := mod[index];
      ShiftedWord(d, carry, bits);
      multiple[n + index] := BitOr(d * Pow2(bits) % BASE, carry);
      carry := d / Pow2(32 - bits);
      ShiftLoop(before, multiple[..], m, index, n, bits, carryIn, carry);
    }
  }

  lemma ShiftLoop(before: seq<Word>, after: seq<Word>, m: seq<Word>, index: nat, n: nat, bits: nat,
                  carryIn: Word, carry: Word)
    requires index < n <= |m| && 2 * n <= |before| == |after|
    requires forall i | 0 <= i < n + index :: before[i] == after[i]
    requires after[n + index] + carry * BASE == m[index] * Pow2(bits) + carryIn
    requires Value(before, n + index) + carryIn * W(n + index) == Value(m, index) * Pow2(bits) * W(n)
    ensures Value(after, n + index + 1) + carry * W(n + index + 1)
         == Value(m, index + 1) * Pow2(bits) * W(n)
  {
    ValuePrefix(before, after, n + index);
    var d: int, c: int, e: int := m[index], carryIn, carry;
    CarryStep(d * Pow2(bits) + c, after[n + index], e, n + index);
    WAdd(index, n);
    ShiftStep(Value(m, index), d, W(index), Pow2(bits), W(n), c);
  }

  lemma ShiftStep(v: nat, d: nat, wi: nat, p: nat, wn: nat, c: nat)
    ensures (v + d * wi) * p * wn == v * p * wn + (d * p + c) * (wi * wn) - c * (wi * wn)
  {
    Distrib(v, d * wi, p);
    Distrib(v * p, (d * wi) * p, wn);
    Assoc(d, wi, p);
    Assoc(d, p, wi);
    Assoc(d * p, wi, wn);
    Distrib(d * p, c, wi * wn);
  }

  /** `multiple >> 1`, one half at a time, carrying one bit across word n. */
  method HalveMultiple(multiple: array<Word>, n: nat)
    requires 0 < n && 2 * n <= multiple.Length
    modifies multiple
    ensures Val(multiple, 2 * n) == old(Val(multiple, 2 * n)) / 2
  {
    ghost var s0 := multiple[..];
    Halve(multiple, n);
    ghost var s1 := multiple[..];
    HalvedTopWord(s0, s1, n);
    ShiftedInBit(multiple[n - 1], multiple[n]);
    multiple[n - 1] := BitOr(multiple[n - 1], multiple[n] * HIGH_BIT % BASE);
    ghost var s2 := multiple[..];
    RShift1(multiple, n, n);
    ghost var s3 := multiple[..];
    HalvedTogether(s0, s1, s2, s3, n);
  }

  lemma HalvedTopWord(s0: seq<Word>, s1: seq<Word>, n: nat)
    requires 0 < n <= |s0| && n <= |s1|
    requires Value(s1, n) == Value(s0, n) / 2
    ensures s1[n - 1] < HIGH_BIT
  {
    if s1[n - 1] >= HIGH_BIT {
      ValueBound(s0, n);
      MulMono(HIGH_BIT, s1[n - 1], W(n - 1));
      assert false;
    }
  }

  lemma ShiftedInBit(low: Word, high: Word)
    requires low < HIGH_BIT
    ensures BitOr(low, high * HIGH_BIT % BASE) == low + high % 2 * HIGH_BIT < BASE
  {
    Pow2Small();
    DivOfSum(high * HIGH_BIT, high / 2, high % 2 * HIGH_BIT, BASE);
    BitOrDisjoint(low, high % 2, 31);
  }

  lemma HalvedTogether(s0: seq<Word>, s1: seq<Word>, s2: seq<Word>, s3: seq<Word>, n: nat)
    requires 0 < n && 2 * n <= |s0| == |s1| == |s2| == |s3|
    requires Value(s1, n) == Value(s0, n) / 2
    requires forall i | n <= i < |s0| :: s1[i] == s0[i]
    requires s1[n - 1] + s1[n] % 2 * HIGH_BIT == s2[n - 1]
    requires forall i | 0 <= i < |s0| && i != n - 1 :: s2[i] == s1[i]
    requires Value(s3[n..], n) == Value(s2[n..], n) / 2
    requires forall i | 0 <= i < n :: s3[i] == s2[i]
    ensures Value(s3, 2 * n) == Value(s0, 2 * n) / 2
  {
    hide Value, W;
    ValueSplit(s0, n, 2 * n);
    ValueSplit(s3, n, 2 * n);
    ValuePrefix(s3, s2, n);
    ValuePrefix(s2, s1, n - 1);
    ValueTop(s1, n);
    ValueTop(s2, n);
    assert s2[n..] == s0[n..];
    ValueParity(s0[n..], n);
    var lo, hi, w := Value(s0, n), Value(s0[n..], n), W(n - 1);
    var b, d, e := s0[n] % 2, s1[n - 1], Value(s1, n - 1);
    HalvedLow(e, d, b, w, lo / 2);
    HalvedAll(Value(s0, 2 * n), Value(s3, 2 * n), lo, hi, W(n), w, Value(s3, n));
  }

  lemma HalvedAll(v0: nat, v3: nat, lo: nat, hi: nat, ww: nat, w: nat, low3: nat)
    requires ww == BASE * w && v0 == lo + hi * ww && v3 == low3 + hi / 2 * ww
    requires low3 == lo / 2 + hi % 2 * (HIGH_BIT * w)
    ensures v3 == v0 / 2
  {
    TwiceHigh(w);
    HalvedSum(lo, hi, HIGH_BIT * w);
  }

  lemma HalvedLow(e: int, d: int, b: int, w: int, half: int)
    requires e + d * w == half
    ensures e + (d + b * HIGH_BIT) * w == half + b * (HIGH_BIT * w)
  {
    Distrib(d, b * HIGH_BIT, w);
    Assoc(b, HIGH_BIT, w);
  }

  lemma TwiceHigh(w: int)
    ensures 2 * (HIGH_BIT * w) == BASE * w
  {
  }

  lemma HalvedSum(lo: nat, hi: nat, h: nat)
    ensures (lo + hi * (2 * h)) / 2 == lo / 2 + hi % 2 * h + hi / 2 * (2 * h)
  {
    Distrib(hi / 2 * 2, hi % 2, h);
    Assoc(hi / 2, 2, h);
    Assoc(2, hi, h);
    assert lo + hi * (2 * h) == lo + 2 * (hi * h);
  }

  /** Shifting by 64n - bits brings the top bit of `m` to the top of 2n words. */
  lemma TopAligned(mm: nat, m: nat, carry: Word, n: nat, bits: nat)
    requires IsBitLength(m, bits) && 0 < bits <= 32 * n
    requires mm < W(2 * n)
    requires mm + carry * W(2 * n) == m * Pow2(32 * n - bits) * W(n)
    ensures mm == m * Pow2(64 * n - bits)
    ensures W(2 * n) <= 2 * mm
  {
    hide Pow2, W;
    var b := 32 * n - bits;
    AlignedPowers(n, bits);
    TopAlignedOf(mm, m, carry, Pow2(b), Pow2(bits), Pow2(bits - 1), W(n));
  }

  lemma AlignedPowers(n: nat, bits: nat)
    requires 0 < bits <= 32 * n
    ensures var p, w := Pow2(32 * n - bits), W(n);
      && p * Pow2(bits) == w && 2 * (p * Pow2(bits - 1)) == w
      && W(2 * n) == w * w && Pow2(64 * n - bits) == p * w
  {
    assert Pow2(32 * n) == 2 * Pow2(32 * n - 1);
    hide Pow2, W;
    var b := 32 * n - bits;
    WAsPow2(n);
    WAdd(n, n);
    Pow2Add(b, bits);
    Pow2Add(b, 32 * n);
    Pow2Add(b, bits - 1);
  }

  lemma TopAlignedOf(mm: nat, m: nat, carry: nat, p: nat, hi: nat, lo: nat, w: nat)
    requires p > 0 && w > 0 && lo <= m < hi && p * hi == w && 2 * (p * lo) == w
    requires mm < w * w && mm + carry * (w * w) == m * p * w
    ensures mm == m * (p * w) && w * w <= 2 * mm
  {
    MulMono(m + 1, hi, p);
    Distrib(m, 1, p);
    MulMono(m * p, w - 1, w);
    MulMono(lo, m, p);
    MulMono(p * lo, m * p, w);
    Assoc(2, p * lo, w);
    Assoc(m, p, w);
    if carry >= 1 {
      MulMono(1, carry, w * w);
      Distrib(w, 1, w);
      assert false;
    }
  }

  lemma Truncates(s: seq<Word>, mod: seq<Word>, n: nat)
    requires 2 * n <= |s| && n <= |mod|
    requires Value(s, 2 * n) < Value(mod, n)
    ensures Value(s, n) == Value(s, 2 * n)
  {
    hide Value, W;
    ValueSplit(s, n, 2 * n);
    ValueBound(mod, n);
    NoHighPart(Value(s, n), Value(s[n..], n), W(n), Value(s, 2 * n));
  }

  lemma NoHighPart(lo: nat, hi: nat, w: nat, v: nat)
    requires v == lo + hi * w && v < w
    ensures v == lo
  {
    if hi >= 1 {
      MulMono(1, hi, w);
      assert false;
    }
  }

  /** The modulus shifted up so that its highest bit is the highest of 2n words. */
  method AlignModulus(mod: array<Word>, n: nat) returns (multiple: array<Word>, shift: nat)
    requires 0 < n <= mod.Length && mod[n - 1] != 0
    ensures fresh(multiple) && 2 * n <= multiple.Length
    ensures Val(multiple, 2 * n) == Val(mod, n) * Pow2(shift)
    ensures W(2 * n) <= 2 * Val(multiple, 2 * n)
  {
    multiple := new Word[2 * n];
    var bits := NumBits(mod, n);
    shift := n * 2 * 32 - bits;
    var bitShift := shift % 32;
    assert shift / 32 == n && bitShift == 32 * n - bits;
    Clear(multiple, n);
    var carry: Word := 0;
    if bitShift > 0 {
      carry := ShiftInto(multiple, mod, n, bitShift);
    } else {
      CopyHigh(multiple, mod, n);
    }
    ValueBound(multiple[..], 2 * n);
    TopAligned(Val(multiple, 2 * n), Val(mod, n), carry, n, bits);
  }

  method CopyHigh(multiple: array<Word>, mod: array<Word>, n: nat)
    requires n <= mod.Length && 2 * n <= multiple.Length && multiple != mod
    requires Val(multiple, n) == 0
    modifies multiple
    ensures Val(multiple, 2 * n) == Val(mod, n) * W(n)
  {
    ghost var s := multiple[..];
    for i := 0 to n
      invariant forall j | 0 <= j < n :: multiple[j] == s[j]
      invariant forall j | 0 <= j < i :: multiple[n + j] == mod[j]
    {
      multiple[n + i] := mod[i];
    }
    ValuePrefix(multiple[..], s, n);
    ValueSplit(multiple[..], n, 2 * n);
    ValuePrefix(multiple[..][n..], mod[..], n);
  }

  /** What one round of the division knows about the value `x` still to be reduced. */
  ghost predicate Reducing(x: nat, x0: nat, m: nat, shift: int)
    requires m > 0
  {
    x % m == x0 % m && x < (if shift >= 0 then 2 * (m * Pow2(shift)) else m)
  }

  method MMod(result: array<Word>, product: array<Word>, mod: array<Word>, n: nat)
    requires 0 < n <= result.Length && 2 * n <= product.Length && n <= mod.Length
    requires product != mod
    requires mod[n - 1] != 0
    modifies result, product
    ensures old(Val(mod, n)) > 0
    ensures Val(result, n) == old(Val(product, 2 * n)) % old(Val(mod, n))
  {
    var multiple, shift: int := AlignModulus(mod, n);
    ghost var m, x0, modWords := Val(mod, n), Val(product, 2 * n), mod[..];
    ValueZeroIff(mod[..], n);
    ValueBound(product[..], 2 * n);
    var tmp := new Word[2 * n];
    var v := [tmp, product];
    var index := 1;
    while shift >= 0
      invariant -1 <= shift && 0 <= index <= 1
      invariant mod[..] == modWords
      invariant shift >= 0 ==> Val(multiple, 2 * n) == m * Pow2(shift)
      invariant Reducing(Val(v[index], 2 * n), x0, m, shift)
    {
      ReduceStep(Val(v[index], 2 * n), x0, m, shift);
      index := SubtractIfLess(v, index, multiple, n);
      HalveMultiple(multiple, n);
      shift := shift - 1;
    }
    ModSmall(Val(v[index], 2 * n), m);
    Truncates(v[index][..], modWords, n);
    Set(result, v[index], n);
  }

  /** One trial subtraction into the other buffer; the index follows it unless it borrowed. */
  method SubtractIfLess(v: seq<array<Word>>, index: int, multiple: array<Word>, n: nat) returns (next: int)
    requires |v| == 2 && 0 <= index <= 1 && v[0] != v[1] && multiple !in v
    requires 2 * n <= v[0].Length && 2 * n <= v[1].Length && 2 * n <= multiple.Length
    modifies v[1 - index]
    ensures 0 <= next <= 1
    ensures Val(v[next], 2 * n) == Reduced(old(Val(v[index], 2 * n)), Val(multiple, 2 * n))
  {
    ghost var x: nat := Val(v[index], 2 * n);
    var borrow := Sub(v[1 - index], v[index], multiple, 2 * n);
    ValueBound(v[1 - index][..], 2 * n);
    next := if borrow == 0 then 1 - index else index;
  }

  /** Subtracting a multiple when it fits keeps the remainder and halves the range. */
  lemma ReduceStep(y: nat, x0: nat, m: nat, shift: nat)
    requires m > 0 && Reducing(y, x0, m, shift)
    ensures Reducing(Reduced(y, m * Pow2(shift)), x0, m, shift - 1)
    ensures shift > 0 ==> m * Pow2(shift) / 2 == m * Pow2(shift - 1)
  {
    DropMultiple(y, Pow2(shift), m);
    if shift > 0 {
      HalfPower(m, shift);
    }
  }

  lemma DropMultiple(y: nat, q: nat, m: nat)
    requires m > 0
    ensures Reduced(y, m * q) % m == y % m
  {
    var j: int := q;
    ModPlusMultiple(y, -j, m);
    NegatedProduct(j, m);
  }

  lemma NegatedProduct(j: int, m: int)
    ensures -j * m == -(m * j)
  {
  }

  lemma HalfPower(m: nat, shift: nat)
    requires shift > 0
    ensures m * Pow2(shift) / 2 == m * Pow2(shift - 1)
    ensures 2 * (m * Pow2(shift - 1)) == m * Pow2(shift)
  {
    Assoc(2, m, Pow2(shift - 1));
  }

  method ModMult(result: array<Word>, left: array<Word>, right: array<Word>, mod: array<Word>, n: nat)
    requires 0 < n < BASE
    requires n <= result.Length && n <= left.Length && n <= right.Length && n <= mod.Length
    requires mod[n - 1] != 0
    modifies result
    ensures old(Val(mod, n)) > 0
    ensures Val(result, n) == old(Val(left, n) * Val(right, n)) % old(Val(mod, n))
  {
    var product := new Word[2 * n];
    Mult(product, left, right, n);
    MMod(result, product, mod, n);
  }

  // ---- Inverse ----

  method IsEven(vli: array<Word>, ghost n: nat) returns (even: bool)
    requires 0 < n <= vli.Length
    ensures even <==> Val(vli, n) % 2 == 0
  {
    even := vli[0] % 2 == 0;
    ValueParity(vli[..], n);
  }

  /** Half of `uv`, or half of `uv + mod` when `uv` is odd; the carry becomes the top bit. */
  method ModInvUpdate(uv: array<Word>, mod: array<Word>, n: nat)
    requires 0 < n <= uv.Length && n <= mod.Length && uv != mod
    requires Val(mod, n) % 2 == 1
    modifies uv
    ensures 2 * Val(uv, n) == old(Val(uv, n)) + (if old(Val(uv, n)) % 2 == 1 then Val(mod, n) else 0)
  {
    hide Value, W, BitOr;
    var carry: Word := 0;
    var even := IsEven(uv, n);
    if !even {
      carry := Add(uv, uv, mod, n);
    }
    ghost var full, s := Val(uv, n), uv[..];
    Halve(uv, n);
    HalvedTopWord(s, uv[..], n);
    if carry != 0 {
      SetTopBit(uv, n);
    }
    ValueTop(s, n);
    EvenWord(full, carry, W(n - 1), old(Val(uv, n)), Val(mod, n));
  }

  /** uv[n - 1] |= HIGH_BIT_SET, on a word that does not have it. */
  method SetTopBit(uv: array<Word>, n: nat)
    requires 0 < n <= uv.Length && 2 * uv[n - 1] < BASE
    modifies uv
    ensures Val(uv, n) == old(Val(uv, n)) + HIGH_BIT * W(n - 1)
  {
    hide Value, W, BitOr;
    ghost var before := uv[..];
    ShiftIn(2 * uv[n - 1], HIGH_BIT);
    uv[n - 1] := BitOr(uv[n - 1], HIGH_BIT);
    ValuePrefix(before, uv[..], n - 1);
    ValueTop(before, n);
    ValueTop(uv[..], n);
    Distrib(before[n - 1], HIGH_BIT, W(n - 1));
  }

  lemma EvenWord(full: nat, carry: nat, w: nat, x: nat, m: nat)
    requires m % 2 == 1 && carry <= 1
    requires full + carry * (BASE * w) == x + (if x % 2 == 1 then m else 0)
    ensures full % 2 == 0
  {
    assert carry * (BASE * w) == 2 * (carry * (HIGH_BIT * w)) by {
      Assoc(2, HIGH_BIT, w);
    }
  }

  /** u := u - v modulo mod; a carry dropped by the addition is the borrow dropped after it. */
  method ModInvSubtract(u: array<Word>, v: array<Word>, mod: array<Word>, n: nat)
    requires n <= u.Length && n <= v.Length && n <= mod.Length && u != mod && u != v
    requires Val(u, n) < Val(mod, n) && Val(v, n) < Val(mod, n)
    modifies u
    ensures Val(u, n) == old(Val(u, n)) - Val(v, n) + (if old(Val(u, n)) < Val(v, n) then Val(mod, n) else 0)
  {
    ghost var exact := Val(u, n) - Val(v, n) + (if Val(u, n) < Val(v, n) then Val(mod, n) else 0);
    ValueBound(u[..], n);
    ValueBound(mod[..], n);
    var c := CmpUnsafe(u, v, n);
    var carry: Word := 0;
    if c < 0 {
      carry := Add(u, u, mod, n);
    }
    var borrow := Sub(u, u, v, n);
    ValueBound(u[..], n);
    CancelledCarry(Val(u, n), exact, carry, borrow, W(n));
  }

  /** u·x is a, and a has with b the same common divisors as x with m. */
  ghost predicate InvState(a: nat, b: nat, u: nat, v: nat, x: nat, m: nat) {
    && 0 < m && 0 < a && 0 < b && u < m && v < m
    && (a % 2 == 1 || b % 2 == 1)
    && Cong(u * x, a, m) && Cong(v * x, b, m)
    && SameDivisors(a, b, x, m)
  }

  ghost predicate SameDivisors(a: nat, b: nat, x: nat, m: nat) {
    forall d: nat | d > 0 :: Divides(d, a) && Divides(d, b) <==> Divides(d, x) && Divides(d, m)
  }

  lemma InvStart(x: nat, m: nat)
    requires x > 0 && m > 1 && m % 2 == 1
    ensures InvState(x, m, 1, 0, x, m)
  {
    ModSmall(0, m);
    DivOfSum(m, 1, 0, m);
  }

  lemma InvSwap(a: nat, b: nat, u: nat, v: nat, x: nat, m: nat)
    ensures InvState(a, b, u, v, x, m) <==> InvState(b, a, v, u, x, m)
  {
  }

  lemma HalveDivisors(a: nat, b: nat, x: nat, m: nat)
    requires a % 2 == 0 && b % 2 == 1 && SameDivisors(a, b, x, m)
    ensures SameDivisors(a / 2, b, x, m)
  {
    forall d: nat | d > 0
      ensures Divides(d, a / 2) && Divides(d, b) <==> Divides(d, a) && Divides(d, b)
    {
      if Divides(d, b) {
        DivisorOfOddIsOdd(d, b);
        if Divides(d, a) {
          OddDividesHalf(d, a / 2);
        } else if Divides(d, a / 2) {
          DividesMultiple(d, a / 2, 2);
        }
      }
    }
  }

  lemma SubtractDivisors(a: nat, b: nat, x: nat, m: nat)
    requires a > b && SameDivisors(a, b, x, m)
    ensures SameDivisors(a - b, b, x, m)
  {
    forall d: nat | d > 0
      ensures Divides(d, a - b) && Divides(d, b) <==> Divides(d, a) && Divides(d, b)
    {
      if Divides(d, b) {
        if Divides(d, a) {
          DividesSum(d, a, b);
        } else if Divides(d, a - b) {
          DividesSum(d, a - b, b);
        }
      }
    }
  }

  /** Halving an even `a` and updating `u` keeps the state. */
  lemma InvHalve(a: nat, b: nat, u: nat, v: nat, x: nat, m: nat, u': nat)
    requires InvState(a, b, u, v, x, m) && a % 2 == 0 && m % 2 == 1
    requires 2 * u' == u + (if u % 2 == 1 then m else 0)
    ensures InvState(a / 2, b, u', v, x, m)
  {
    HalveDivisors(a, b, x, m);
    Distrib(u, m, x);
    Assoc(2, u', x);
    if u % 2 == 1 {
      CongOf((u + m) * x, u * x, x, m);
    }
    HalveCong(u' * x, a / 2, m);
  }

  lemma InvSubtract(a: nat, b: nat, u: nat, v: nat, x: nat, m: nat, u': nat)
    requires InvState(a, b, u, v, x, m) && a > b && a % 2 == 1 && b % 2 == 1
    requires u' == u - v + (if u < v then m else 0)
    ensures InvState(a - b, b, u', v, x, m)
  {
    SubtractDivisors(a, b, x, m);
    CongAdd(u * x, a, v * x, b, m);
    Distrib(u, v, x);
    if u < v {
      Distrib(u - v, m, x);
      CongOf((u - v + m) * x, (u - v) * x, x, m);
    }
  }

  lemma InvSubtractHalve(a: nat, b: nat, u: nat, v: nat, x: nat, m: nat, u1: nat, u2: nat)
    requires InvState(a, b, u, v, x, m) && a > b && a % 2 == 1 && b % 2 == 1 && m % 2 == 1
    requires u1 == u - v + (if u < v then m else 0)
    requires 2 * u2 == u1 + (if u1 % 2 == 1 then m else 0)
    ensures (a - b) / 2 < a && InvState((a - b) / 2, b, u2, v, x, m)
  {
    InvSubtract(a, b, u, v, x, m, u1);
    OddDifference(a, b);
    InvHalve(a - b, b, u1, v, x, m, u2);
  }

  lemma OddDifference(a: nat, b: nat)
    requires a % 2 == 1 && b % 2 == 1 && a > b
    ensures (a - b) % 2 == 0 && (a - b) / 2 < a
  {
  }

  lemma InvEnd(a: nat, u: nat, v: nat, x: nat, m: nat)
    requires InvState(a, a, u, v, x, m)
    ensures IsGcd(a, x, m) && Cong(u * x, a, m)
  {
    DivOfSum(a, 1, 0, a);
  }

  /** One branch of the loop, on (a, u) against (b, v), when `a` is even. */
  method InvHalveStep(a: array<Word>, u: array<Word>, mod: array<Word>, n: nat,
                      ghost b: nat, ghost v: nat, ghost x: nat)
    requires 0 < n <= a.Length && n <= u.Length && n <= mod.Length
    requires a != u && a != mod && u != mod && Val(mod, n) % 2 == 1
    requires InvState(Val(a, n), b, Val(u, n), v, x, Val(mod, n))
    requires Val(a, n) % 2 == 0
    modifies a, u
    ensures InvState(Val(a, n), b, Val(u, n), v, x, Val(mod, n))
    ensures Val(a, n) < old(Val(a, n))
  {
    Halve(a, n);
    ModInvUpdate(u, mod, n);
    InvHalve(old(Val(a, n)), b, old(Val(u, n)), v, x, Val(mod, n), Val(u, n));
  }

  /** The other branch, when both are odd and a > b. */
  method InvSubtractStep(a: array<Word>, b: array<Word>, u: array<Word>, v: array<Word>,
                         mod: array<Word>, n: nat, ghost x: nat)
    requires 0 < n <= a.Length && n <= b.Length && n <= u.Length && n <= v.Length && n <= mod.Length
    requires a != b && a != u && a != v && a != mod && b != u && u != v && u != mod
    requires Val(mod, n) % 2 == 1
    requires InvState(Val(a, n), Val(b, n), Val(u, n), Val(v, n), x, Val(mod, n))
    requires Val(a, n) % 2 == 1 && Val(b, n) % 2 == 1 && Val(a, n) > Val(b, n)
    modifies a, u
    ensures InvState(Val(a, n), Val(b, n), Val(u, n), Val(v, n), x, Val(mod, n))
    ensures Val(a, n) < old(Val(a, n))
  {
    ghost var a0, b0, u0, v0, m := Val(a, n), Val(b, n), Val(u, n), Val(v, n), Val(mod, n);
    var borrow := Sub(a, a, b, n);
    ValueBound(a[..], n);
    Halve(a, n);
    ModInvSubtract(u, v, mod, n);
    ghost var u1 := Val(u, n);
    ModInvUpdate(u, mod, n);
    InvSubtractHalve(a0, b0, u0, v0, x, m, u1, Val(u, n));
  }

  /** The body of the loop: one of four reductions, each of which lowers a + b. */
  method InvRound(a: array<Word>, b: array<Word>, u: array<Word>, v: array<Word>,
                  mod: array<Word>, n: nat, c: int, ghost x: nat)
    requires 0 < n <= a.Length && n <= b.Length && n <= u.Length && n <= v.Length && n <= mod.Length
    requires a != b && a != u && a != v && b != u && b != v && u != v
    requires mod != a && mod != b && mod != u && mod != v
    requires Val(mod, n) % 2 == 1 && Val(a, n) != Val(b, n)
    requires c == Sign(Val(a, n) - Val(b, n))
    requires InvState(Val(a, n), Val(b, n), Val(u, n), Val(v, n), x, Val(mod, n))
    modifies a, b, u, v
    ensures InvState(Val(a, n), Val(b, n), Val(u, n), Val(v, n), x, Val(mod, n))
    ensures Val(a, n) + Val(b, n) < old(Val(a, n) + Val(b, n))
  {
    InvSwap(Val(a, n), Val(b, n), Val(u, n), Val(v, n), x, Val(mod, n));
    var evenA := IsEven(a, n);
    var evenB := IsEven(b, n);
    if evenA {
      InvHalveStep(a, u, mod, n, Val(b, n), Val(v, n), x);
    } else if evenB {
      InvHalveStep(b, v, mod, n, Val(a, n), Val(u, n), x);
    } else if c > 0 {
      InvSubtractStep(a, b, u, v, mod, n, x);
    } else {
      InvSubtractStep(b, a, v, u, mod, n, x);
    }
    InvSwap(Val(a, n), Val(b, n), Val(u, n), Val(v, n), x, Val(mod, n));
  }

  /**
   For an odd modulus: result·input is congruent to the greatest common divisor of input and
   mod, so it is an inverse exactly when the two are coprime; an input of zero gives zero.
   */
  method ModInv(result: array<Word>, input: array<Word>, mod: array<Word>, n: nat) returns (ghost g: nat)
    requires 0 < n <= result.Length && n <= input.Length && n <= mod.Length
    requires Val(mod, n) > 1 && Val(mod, n) % 2 == 1
    modifies result
    ensures Val(result, n) < old(Val(mod, n))
    ensures old(Val(input, n)) == 0 ==> Val(result, n) == 0
    ensures old(Val(input, n)) > 0 ==>
      && IsGcd(g, old(Val(input, n)), old(Val(mod, n)))
      && Cong(Val(result, n) * old(Val(input, n)), g, old(Val(mod, n)))
  {
    ghost var x := Val(input, n);
    var zero := IsZero(input, n);
    if zero {
      Clear(result, n);
      return 0;
    }
    var a, b, u, v := InvOperands(input, mod, n);
    ghost var m := Val(mod, n);
    InvStart(x, m);
    var c := CmpUnsafe(a, b, n);
    while c != 0
      invariant c == Sign(Val(a, n) - Val(b, n))
      invariant Val(mod, n) == m
      invariant InvState(Val(a, n), Val(b, n), Val(u, n), Val(v, n), x, m)
      decreases Val(a, n) + Val(b, n)
    {
      InvRound(a, b, u, v, mod, n, c, x);
      c := CmpUnsafe(a, b, n);
    }
    InvEnd(Val(a, n), Val(u, n), Val(v, n), x, m);
    g := Val(a, n);
    Set(result, u, n);
  }

  /** The four working numbers: a = input, b = mod, u = 1, v = 0. */
  method InvOperands(input: array<Word>, mod: array<Word>, n: nat)
    returns (a: array<Word>, b: array<Word>, u: array<Word>, v: array<Word>)
    requires 0 < n <= input.Length && n <= mod.Length
    ensures fresh(a) && fresh(b) && fresh(u) && fresh(v)
    ensures a != b && a != u && a != v && b != u && b != v && u != v
    ensures n == a.Length == b.Length == u.Length == v.Length
    ensures Val(a, n) == Val(input, n) && Val(b, n) == Val(mod, n)
    ensures Val(u, n) == 1 && Val(v, n) == 0
  {
    a, b := new Word[n], new Word[n];
    u, v := new Word[n], new Word[n];
    Set(a, input, n);
    Set(b, mod, n);
    Clear(u, n);
    u[0] := 1;
    SmallValue(u[..], n, 1);
    Clear(v, n);
  }

  /** A number whose only nonzero word is the first. */
  lemma {:induction false} SmallValue(s: seq<Word>, n: nat, d: Word)
    requires 0 < n <= |s| && s[0] == d && forall i | 0 < i < n :: s[i] == 0
    ensures Value(s, n) == d
  {
    if n == 1 {
      OneWord(s);
    } else {
      SmallValue(s, n - 1, d);
    }
  }
}
