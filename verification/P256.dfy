/** The word-folding reduction modulo the secp256r1 prime (section D.2.3 of FIPS 186-4). */
module P256 {
  import opened Arith
  import opened Vli

  const P: nat := 0xffffffff00000001000000000000000000000000ffffffffffffffffffffffff
  const W1: nat := 0x100000000
  const W2: nat := 0x10000000000000000
  const W3: nat := 0x1000000000000000000000000
  const W4: nat := 0x100000000000000000000000000000000
  const W5: nat := 0x10000000000000000000000000000000000000000
  const W6: nat := 0x1000000000000000000000000000000000000000000000000
  const W7: nat := 0x100000000000000000000000000000000000000000000000000000000
  const W8: nat := 0x10000000000000000000000000000000000000000000000000000000000000000

  lemma Weights()
    ensures W(0) == 1
    ensures W(1) == W1
    ensures W(2) == W2
    ensures W(3) == W3
    ensures W(4) == W4
    ensures W(5) == W5
    ensures W(6) == W6
    ensures W(7) == W7
    ensures W(8) == W8
  {
    assert W(0) == 1;
    assert W(1) == BASE * W(0);
    assert W(2) == BASE * W(1);
    assert W(3) == BASE * W(2);
    assert W(4) == BASE * W(3);
    assert W(5) == BASE * W(4);
    assert W(6) == BASE * W(5);
    assert W(7) == BASE * W(6);
    assert W(8) == BASE * W(7);
  }

  /** Eight words at their weights. */
  function Sum8(w0: int, w1: int, w2: int, w3: int, w4: int, w5: int, w6: int, w7: int): int {
    w0 + w1 * W1 + w2 * W2 + w3 * W3 + w4 * W4 + w5 * W5 + w6 * W6 + w7 * W7
  }

  lemma ValueOf8(s: seq<Word>)
    requires |s| >= 8
    ensures Value(s, 8) == Sum8(s[0], s[1], s[2], s[3], s[4], s[5], s[6], s[7])
  {
    Weights();
    assert Value(s, 0) == 0;
    assert Value(s, 1) == Value(s, 0) + s[0] * W(0);
    assert Value(s, 2) == Value(s, 1) + s[1] * W(1);
    assert Value(s, 3) == Value(s, 2) + s[2] * W(2);
    assert Value(s, 4) == Value(s, 3) + s[3] * W(3);
    assert Value(s, 5) == Value(s, 4) + s[4] * W(4);
    assert Value(s, 6) == Value(s, 5) + s[5] * W(5);
    assert Value(s, 7) == Value(s, 6) + s[6] * W(6);
    assert Value(s, 8) == Value(s, 7) + s[7] * W(7);
  }

  /** 2S1 + 2S2 + S3 + S4 - D1 - D2 - D3 - D4, what the upper eight words fold into. */
  function HighFolded(c8: int, c9: int, c10: int, c11: int, c12: int, c13: int, c14: int, c15: int): int {
    2 * Sum8(0, 0, 0, c11, c12, c13, c14, c15)
    + 2 * Sum8(0, 0, 0, c12, c13, c14, c15, 0)
    + Sum8(c8, c9, c10, 0, 0, 0, c14, c15)
    + Sum8(c9, c10, c11, c13, c14, c15, c13, c8)
    - Sum8(c11, c12, c13, 0, 0, 0, c8, c10)
    - Sum8(c12, c13, c14, c15, 0, 0, c9, c11)
    - Sum8(c13, c14, c15, c8, c9, c10, 0, c12)
    - Sum8(c14, c15, 0, c9, c10, c11, 0, c13)
  }

  /** How often P is taken out of the upper eight words. */
  function FoldQuotient(c8: int, c9: int, c10: int, c11: int, c12: int, c13: int, c14: int, c15: int): int {
    c8 * 0x1
    + c9 * 0x100000001
    + c10 * 0x10000000100000000
    + c11 * 0x100000000ffffffffffffffff
    + c12 * 0x100000000fffffffffffffffeffffffff
    + c13 * 0x100000000fffffffffffffffefffffffeffffffff
    + c14 * 0x100000000fffffffffffffffefffffffefffffffeffffffff
    + c15 * 0x100000000fffffffffffffffefffffffefffffffeffffffff00000000
  }

  /** Every power of 2^32 above the eighth is replaced by its residue modulo P. */
  lemma HighFoldedIsCongruent(c8: int, c9: int, c10: int, c11: int, c12: int, c13: int, c14: int, c15: int)
    ensures Sum8(c8, c9, c10, c11, c12, c13, c14, c15) * W8
         == HighFolded(c8, c9, c10, c11, c12, c13, c14, c15)
          + FoldQuotient(c8, c9, c10, c11, c12, c13, c14, c15) * P
  {
  }

  lemma ValueOf16(c: seq<Word>)
    requires |c| >= 16
    ensures Value(c, 16)
         == Value(c, 8) + Sum8(c[8], c[9], c[10], c[11], c[12], c[13], c[14], c[15]) * W8
  {
    ValueSplit(c, 8, 16);
    ValueOf8(c[8..]);
    Weights();
  }

  /** What the additions contribute. */
  function Ups(c: seq<Word>): int
    requires |c| >= 16
  {
    2 * Sum8(0, 0, 0, c[11], c[12], c[13], c[14], c[15])
    + 2 * Sum8(0, 0, 0, c[12], c[13], c[14], c[15], 0)
    + Sum8(c[8], c[9], c[10], 0, 0, 0, c[14], c[15])
    + Sum8(c[9], c[10], c[11], c[13], c[14], c[15], c[13], c[8])
  }

  /** What the subtractions take away. */
  function Downs(c: seq<Word>): int
    requires |c| >= 16
  {
    Sum8(c[11], c[12], c[13], 0, 0, 0, c[8], c[10])
    + Sum8(c[12], c[13], c[14], c[15], 0, 0, c[9], c[11])
    + Sum8(c[13], c[14], c[15], c[8], c[9], c[10], 0, c[12])
    + Sum8(c[14], c[15], 0, c[9], c[10], c[11], 0, c[13])
  }

  lemma FoldedIsCongruent(c: seq<Word>, up: int, down: int) returns (q: int)
    requires |c| >= 16 && up == Ups(c) && down == Downs(c)
    ensures Value(c, 16) == Value(c, 8) + up - down + q * P
  {
    q := FoldQuotient(c[8], c[9], c[10], c[11], c[12], c[13], c[14], c[15]);
    ValueOf16(c);
    HighFoldedIsCongruent(c[8], c[9], c[10], c[11], c[12], c[13], c[14], c[15]);
  }

  // ---- The reduction ----

  /** Assigns the eight words of `tmp`. */
  method Load(tmp: array<Word>, w0: Word, w1: Word, w2: Word, w3: Word, w4: Word, w5: Word, w6: Word, w7: Word)
    requires tmp.Length >= 8
    modifies tmp
    ensures Val(tmp, 8) == Sum8(w0, w1, w2, w3, w4, w5, w6, w7)
  {
    tmp[0], tmp[1], tmp[2], tmp[3] := w0, w1, w2, w3;
    tmp[4], tmp[5], tmp[6], tmp[7] := w4, w5, w6, w7;
    ValueOf8(tmp[..]);
  }

  /** Assigns words 3 to 7 only, over a `tmp` whose value is a multiple of 2^96. */
  method LoadHigh(tmp: array<Word>, w3: Word, w4: Word, w5: Word, w6: Word, w7: Word, ghost k: int)
    requires tmp.Length >= 8 && Val(tmp, 8) == k * W3
    modifies tmp
    ensures Val(tmp, 8) == Sum8(0, 0, 0, w3, w4, w5, w6, w7)
  {
    LowWordsZero(tmp[..], k);
    tmp[3], tmp[4], tmp[5], tmp[6], tmp[7] := w3, w4, w5, w6, w7;
    ValueOf8(tmp[..]);
  }

  lemma LowWordsZero(s: seq<Word>, k: int)
    requires |s| >= 8 && Value(s, 8) == k * W3
    ensures s[0] == 0 && s[1] == 0 && s[2] == 0
  {
    ValueSplit(s, 3, 8);
    ValueBound(s, 3);
    Weights();
    DivOfSum(Value(s, 8), Value(s[3..], 5), Value(s, 3), W3);
    DivOfSum(Value(s, 8), k, 0, W3);
    ValueZeroIff(s, 3);
  }

  /** tmp := 2 tmp and result := result + tmp, with both carries counted. */
  method AddDoubled(result: array<Word>, tmp: array<Word>, carry: int) returns (total: int)
    requires result != tmp && result.Length >= 8 && tmp.Length >= 8
    modifies result, tmp
    ensures Val(result, 8) + total * W8 == old(Val(result, 8)) + carry * W8 + 2 * old(Val(tmp, 8))
    ensures exists c: nat :: Val(tmp, 8) == 2 * old(Val(tmp, 8)) - c * W8
  {
    Weights();
    var c := Add(tmp, tmp, tmp, 8);
    total := carry + c;
    var d := Add(result, result, tmp, 8);
    total := total + d;
  }

  method AddOnce(result: array<Word>, tmp: array<Word>, carry: int) returns (total: int)
    requires result != tmp && result.Length >= 8 && tmp.Length >= 8
    modifies result
    ensures Val(result, 8) + total * W8 == old(Val(result, 8)) + carry * W8 + Val(tmp, 8)
  {
    Weights();
    var d := Add(result, result, tmp, 8);
    total := carry + d;
  }

  method SubOnce(result: array<Word>, tmp: array<Word>, carry: int) returns (total: int)
    requires result != tmp && result.Length >= 8 && tmp.Length >= 8
    modifies result
    ensures Val(result, 8) + total * W8 == old(Val(result, 8)) + carry * W8 - Val(tmp, 8)
  {
    Weights();
    var d := Sub(result, result, tmp, 8);
    total := carry - d;
  }

  /** T + 2S1 + 2S2 + S3 + S4, with the carries counted. */
  method FoldUp(result: array<Word>, tmp: array<Word>, product: array<Word>)
    returns (carry: int, ghost up: int)
    requires result.Length >= 8 && tmp.Length >= 8 && product.Length >= 16
    requires result != product && tmp != product && result != tmp
    modifies result, tmp
    ensures up == Ups(product[..])
    ensures Val(result, 8) + carry * W8 == Val(product, 8) + up
  {
    var c := product[..];
    Set(result, product, 8);
    Load(tmp, 0, 0, 0, c[11], c[12], c[13], c[14], c[15]);
    ghost var t := Val(tmp, 8);
    carry := AddDoubled(result, tmp, 0);
    ghost var lost: nat :| Val(tmp, 8) == 2 * t - lost * W8;
    ghost var k := DoubledMultiple(c[11], c[12], c[13], c[14], c[15], lost);
    LoadHigh(tmp, c[12], c[13], c[14], c[15], 0, k);
    carry := AddDoubled(result, tmp, carry);
    Load(tmp, c[8], c[9], c[10], 0, 0, 0, c[14], c[15]);
    carry := AddOnce(result, tmp, carry);
    Load(tmp, c[9], c[10], c[11], c[13], c[14], c[15], c[13], c[8]);
    carry := AddOnce(result, tmp, carry);
    up := Ups(c);
  }

  /** The doubled S1 is still a multiple of 2^96 after its carry is lost. */
  lemma DoubledMultiple(c11: Word, c12: Word, c13: Word, c14: Word, c15: Word, lost: nat) returns (k: int)
    ensures 2 * Sum8(0, 0, 0, c11, c12, c13, c14, c15) - lost * W8 == k * W3
  {
    k := 2 * Sum8(c11, c12, c13, c14, c15, 0, 0, 0) - lost * W5;
  }

  /** - D1 - D2 - D3 - D4, with the borrows counted. */
  method FoldDown(result: array<Word>, tmp: array<Word>, product: array<Word>, carry0: int)
    returns (carry: int, ghost down: int)
    requires result.Length >= 8 && tmp.Length >= 8 && product.Length >= 16
    requires result != product && tmp != product && result != tmp
    modifies result, tmp
    ensures down == Downs(product[..])
    ensures Val(result, 8) + carry * W8 == old(Val(result, 8)) + carry0 * W8 - down
  {
    var c := product[..];
    Load(tmp, c[11], c[12], c[13], 0, 0, 0, c[8], c[10]);
    carry := SubOnce(result, tmp, carry0);
    Load(tmp, c[12], c[13], c[14], c[15], 0, 0, c[9], c[11]);
    carry := SubOnce(result, tmp, carry);
    Load(tmp, c[13], c[14], c[15], c[8], c[9], c[10], 0, c[12]);
    carry := SubOnce(result, tmp, carry);
    Load(tmp, c[14], c[15], 0, c[9], c[10], c[11], 0, c[13]);
    carry := SubOnce(result, tmp, carry);
    down := Downs(c);
  }

  /** Adds or takes away P until the signed carry is gone and the value is below P. */
  method Normalize(result: array<Word>, p: array<Word>, carry0: int, ghost x: nat, ghost q0: int)
    requires result.Length >= 8 && p.Length >= 8 && p != result && Val(p, 8) == P
    requires x == Val(result, 8) + carry0 * W8 + q0 * P
    modifies result
    ensures Val(result, 8) == x % P
  {
    var carry := carry0;
    ghost var v, q := Val(result, 8) + carry * W8, q0;
    ValueBound(result[..], 8);
    Weights();
    if carry < 0 {
      while carry < 0
        invariant Val(p, 8) == P
        invariant 0 <= Val(result, 8) < W8
        invariant v == Val(result, 8) + carry * W8 && x == v + q * P
        invariant carry <= 0 && (carry == 0 ==> v < P)
        decreases -v
      {
        var c := Add(result, result, p, 8);
        carry := carry + c;
        ValueBound(result[..], 8);
        v, q := v + P, q - 1;
      }
    } else {
      var c := CmpUnsafe(p, result, 8);
      while carry != 0 || c != 1
        invariant Val(p, 8) == P
        invariant 0 <= Val(result, 8) < W8 && carry >= 0
        invariant c == Sign(P - Val(result, 8))
        invariant v == Val(result, 8) + carry * W8 && x == v + q * P
        decreases v
      {
        var b := Sub(result, result, p, 8);
        carry := carry - b;
        ValueBound(result[..], 8);
        v, q := v - P, q + 1;
        c := CmpUnsafe(p, result, 8);
      }
    }
    DivOfSum(x, q, v, P);
  }

  method MModFast(result: array<Word>, product: array<Word>, p: array<Word>)
    requires result.Length >= 8 && product.Length >= 16 && result != product
    requires p.Length >= 8 && p != result && Val(p, 8) == P
    modifies result
    ensures Val(result, 8) == old(Value(product[..], 16)) % P
  {
    var tmp := new Word[8];
    var carry, up := FoldUp(result, tmp, product);
    ghost var down;
    carry, down := FoldDown(result, tmp, product, carry);
    ghost var q := FoldedIsCongruent(product[..], up, down);
    Normalize(result, p, carry, Value(product[..], 16), q);
  }
}
