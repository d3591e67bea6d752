/** The integer signed for a hash, bit by bit (section 4.1.3 of SEC 1), and that bits2int gives it modulo n. */
module HashBits {
  import opened Arith
  import opened Bits
  import opened Congruence
  import opened VliMod
  import opened Bytes

  /** Bit i of a string of octets, counted from the left. */
  function BitAt(s: seq<byte>, i: nat): (b: nat)
    requires i < 8 * |s|
  {
    s[i / 8] / Pow2(7 - i % 8) % 2
  }

  /** The number written by the first k bits. */
  function FirstBits(s: seq<byte>, k: nat): nat
    requires k <= 8 * |s|
  {
    if k == 0 then 0 else 2 * FirstBits(s, k - 1) + BitAt(s, k - 1)
  }

  /** The leftmost `bits` bits of the hash, or all of a shorter one, as an integer. */
  function HashInteger(hash: seq<byte>, bits: nat): nat {
    FirstBits(hash, if 8 * |hash| > bits then bits else 8 * |hash|)
  }

  lemma {:induction false} FirstBitsWithin(s: seq<byte>, m: nat, k: nat)
    requires m <= |s| && k <= 8 * m
    ensures FirstBits(s[..m], k) == FirstBits(s, k)
  {
    if k > 0 {
      FirstBitsWithin(s, m, k - 1);
      assert s[..m][(k - 1) / 8] == s[(k - 1) / 8];
    }
  }

  /** Fewer bits are what is left of more bits by a shift. */
  lemma {:induction false} FewerBits(s: seq<byte>, a: nat, b: nat)
    requires a <= b <= 8 * |s|
    ensures FirstBits(s, a) == FirstBits(s, b) / Pow2(b - a)
    decreases b - a
  {
    hide BitAt;
    if a < b {
      FewerBits(s, a, b - 1);
      HalfAgain(FirstBits(s, b - 1), BitAt(s, b - 1), Pow2(b - 1 - a)) by {
        BitSmall(s, b - 1);
      }
    } else {
      assert Pow2(0) == 1;
    }
  }

  lemma BitSmall(s: seq<byte>, i: nat)
    requires i < 8 * |s|
    ensures BitAt(s, i) < 2
  {
  }

  lemma HalfAgain(x: nat, bit: nat, p: nat)
    requires bit < 2 && p > 0
    ensures (2 * x + bit) / (2 * p) == x / p
  {
    DivDiv(2 * x + bit, 2, p);
  }

  /** The bits of one more octet. */
  lemma {:induction false} OctetBits(s: seq<byte>, j: nat)
    requires s != [] && j <= 8
    ensures FirstBits(s, 8 * (|s| - 1) + j) == FirstBits(s, 8 * (|s| - 1)) * Pow2(j) + s[|s| - 1] / Pow2(8 - j)
  {
    var m, d := |s| - 1, s[|s| - 1];
    if j == 0 {
      NoBits(FirstBits(s, 8 * m), d);
    } else {
      assert FirstBits(s, 8 * m + j) == 2 * FirstBits(s, 8 * m + j - 1) + BitAt(s, 8 * m + j - 1);
      hide *;
      OctetBits(s, j - 1);
      OctetBit(s, j);
      NextBit(FirstBits(s, 8 * m), d, j);
    }
  }

  lemma NoBits(x: nat, d: byte)
    ensures x == x * Pow2(0) + d / Pow2(8)
  {
    Pow2Small();
    assert Pow2(0) == 1;
  }

  lemma OctetBit(s: seq<byte>, j: nat)
    requires s != [] && 0 < j <= 8
    ensures BitAt(s, 8 * (|s| - 1) + j - 1) == s[|s| - 1] / Pow2(8 - j) % 2
  {
    var i := 8 * (|s| - 1) + j - 1;
    assert i / 8 == |s| - 1 && i % 8 == j - 1;
  }

  lemma NextBit(x: nat, d: nat, j: nat)
    requires 0 < j <= 8
    ensures 2 * (x * Pow2(j - 1) + d / Pow2(8 - (j - 1))) + d / Pow2(8 - j) % 2 == x * Pow2(j) + d / Pow2(8 - j)
  {
    assert Pow2(8 - (j - 1)) == 2 * Pow2(8 - j) && Pow2(j) == 2 * Pow2(j - 1);
    hide Pow2;
    DivDiv(d, Pow2(8 - j), 2);
    Assoc(x, Pow2(j - 1), 2);
  }

  lemma {:induction false} AllBits(s: seq<byte>)
    ensures FirstBits(s, 8 * |s|) == BigEndian(s)
  {
    if s != [] {
      var m := |s| - 1;
      AllBits(s[..m]);
      FirstBitsWithin(s, m, 8 * m);
      OctetBits(s, 8);
      Pow2Small();
      assert Pow2(0) == 1;
    }
  }

  /** The bits taken as a quotient of the whole hash. */
  lemma HashIntegerIs(hash: seq<byte>, bits: nat)
    ensures HashInteger(hash, bits)
         == if 8 * |hash| > bits then BigEndian(hash) / Pow2(8 * |hash| - bits) else BigEndian(hash)
  {
    AllBits(hash);
    if 8 * |hash| > bits {
      FewerBits(hash, bits, 8 * |hash|);
    }
  }

  /**
   bits2int gives the leftmost bits of the hash, and takes the order away at most once, and only from a hash that was
   cut inside an octet.
   */
  lemma Bits2IntIs(hash: seq<byte>, bits: nat, n: nat)
    ensures var e := HashInteger(hash, bits);
      Bits2Int(hash, bits, n) == if 8 * |hash| <= bits || bits % 8 == 0 then e else Reduced(e, n)
  {
    hide BigEndian, FirstBits, Pow2, Reduced;
    var numBytes := (bits + 7) / 8;
    var size := if |hash| > numBytes then numBytes else |hash|;
    AllBits(hash[..size]);
    FirstBitsWithin(hash, size, 8 * size);
    OctetsKept(|hash|, bits);
    if size * 8 > bits {
      FewerBits(hash[..size], bits, 8 * size);
      FirstBitsWithin(hash, size, bits);
      assert Shifted(BigEndian(hash[..size]), size * 8 - bits) == FirstBits(hash, bits);
    }
  }

  /** As many octets as hold the bits; nothing is cut off when they end with an octet. */
  lemma OctetsKept(octets: nat, bits: nat)
    ensures var numBytes := (bits + 7) / 8;
      var size := if octets > numBytes then numBytes else octets;
      && (8 * size <= bits <==> 8 * octets <= bits || bits % 8 == 0)
      && (8 * size <= bits ==> 8 * size == if 8 * octets > bits then bits else 8 * octets)
      && (8 * size > bits ==> 8 * octets > bits)
  {
  }

  /** So it is the integer to be signed modulo the order. */
  lemma Bits2IntCongruent(hash: seq<byte>, bits: nat, n: nat)
    requires n > 0
    ensures Cong(Bits2Int(hash, bits, n), HashInteger(hash, bits), n)
  {
    hide Bits2Int, HashInteger;
    var e := HashInteger(hash, bits);
    Bits2IntIs(hash, bits, n);
    if e >= n {
      CongOf(e, e - n, 1, n);
    }
  }
}
