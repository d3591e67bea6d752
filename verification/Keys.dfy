/** Regularised scalars and public keys. */
module Keys {
  import opened Arith
  import opened Bits
  import opened Congruence
  import opened Vli
  import opened CoZ
  import opened CurveMath
  import opened Group
  import opened Ladder
  import opened LadderMath

  /** A curve with its base point G and the order n of that point. */
  datatype Domain = Domain(field: Curve, numNBits: nat, n: array<Word>, gx: array<Word>, gy: array<Word>) {
    function NumNWords(): nat {
      (numNBits + 31) / 32
    }

    ghost function N(): nat
      requires NumNWords() <= n.Length
      reads n
    {
      Val(n, NumNWords())
    }

    ghost function G(): Point
      requires field.numWords <= gx.Length && field.numWords <= gy.Length
      reads gx, gy
    {
      Affine(Val(gx, field.numWords), Val(gy, field.numWords))
    }

    /** Not one of the curve's own constants. */
    predicate Apart(a: array<Word>) {
      a != field.p && a != n && a != gx && a != gy
    }

    /** The order is odd and exactly numNBits long, and G is a point of that order. */
    ghost predicate Valid(b: int)
      reads field.p, n, gx, gy
    {
      && field.Valid() && NumNWords() <= n.Length && 3 <= numNBits < 0x8000
      && Pow2(numNBits - 1) <= N() < Pow2(numNBits) && 5 <= N()
      && field.Holds(gx) && field.Holds(gy)
      && n != field.p && n != gx && n != gy
      && OddOrder(N(), G(), b, field.P())
    }
  }

  // ---- regularize_k ----

  /** The multiplier regularize_k chooses: the one of k + n and k + 2n that is one bit longer than n. */
  function Regularized(k: nat, n: nat, bits: nat): nat {
    if k + n >= Pow2(bits) then k + n else k + 2 * n
  }

  lemma NWordsHoldBits(bits: nat)
    requires bits >= 1
    ensures var w := (bits + 31) / 32;
      && w >= 1 && bits <= 32 * w && Pow2(bits) <= W(w)
      && (bits < 32 * w ==> Pow2(bits + 1) <= W(w)) && (bits == 32 * w ==> Pow2(bits) == W(w))
  {
    var w := (bits + 31) / 32;
    WAsPow2(w);
    Pow2Monotone(bits, 32 * w);
    if bits < 32 * w {
      Pow2Monotone(bits + 1, 32 * w);
    }
  }

  lemma TopBitAsComparison(v: nat, bits: nat)
    requires v < Pow2(bits + 1)
    ensures BitOf(v, bits) <==> v >= Pow2(bits)
  {
    if v >= Pow2(bits) {
      DivOfSum(v, 1, v - Pow2(bits), Pow2(bits));
    } else {
      DivOfSum(v, 0, v, Pow2(bits));
    }
  }

  method RegularizeK(k: array<Word>, k0: array<Word>, k1: array<Word>, dom: Domain, ghost b: int) returns (carry: bool)
    requires dom.Valid(b)
    requires dom.NumNWords() <= k.Length && dom.NumNWords() <= k0.Length && dom.NumNWords() <= k1.Length
    requires k0 != dom.n && k1 != dom.n && k1 != k0
    requires Val(k, dom.NumNWords()) < dom.N()
    modifies k0, k1
    ensures carry <==> old(Val(k, dom.NumNWords())) + dom.N() >= Pow2(dom.numNBits)
    ensures Val(if carry then k0 else k1, dom.NumNWords())
         == Regularized(old(Val(k, dom.NumNWords())), dom.N(), dom.numNBits) % W(dom.NumNWords())
  {
    hide Pow2, W;
    ghost var kv, n, bits := Val(k, dom.NumNWords()), dom.N(), dom.numNBits;
    var w := dom.NumNWords();
    NWordsHoldBits(dom.numNBits);
    Pow2Next(dom.numNBits);
    var c := Add(k0, k, dom.n, w);
    ghost var k0v := Val(k0, w);
    ValueBound(k0[..], w);
    carry := c != 0;
    if !carry && dom.numNBits < w * 32 {
      carry := TestBit(k0, dom.numNBits, w);
      TopBitAsComparison(k0v, dom.numNBits);
    }
    LowWords(kv + n, k0v, c, W(w));
    var d := Add(k1, k0, dom.n, w);
    ValueBound(k1[..], w);
    LowWords(k0v + n, Val(k1, w), d, W(w));
  }

  lemma Pow2Next(bits: nat)
    requires bits >= 1
    ensures Pow2(bits + 1) == 2 * Pow2(bits) && Pow2(bits) == 2 * Pow2(bits - 1)
  {
  }

  lemma LowWords(total: nat, low: nat, carry: nat, w: nat)
    requires low < w && low + carry * w == total
    ensures total % w == low
  {
    DivOfSum(total, carry, low, w);
  }

  lemma {:induction false} BitOfLow(x: nat, m: nat, t: nat)
    requires t < m
    ensures BitAt(x % Pow2(m), t) == BitAt(x, t)
  {
    hide Pow2;
    Pow2Next(m - t);
    Pow2Add(m - t, t);
    var h, pt, pm := Pow2(m - t - 1), Pow2(t), Pow2(m);
    QuotientBounds(x, pm);
    LowBitOf(x, x / pm, x % pm, h, pt, pm);
  }

  lemma LowBitOf(x: nat, q: nat, r: nat, h: nat, pt: nat, pm: nat)
    requires pt > 0 && pm == 2 * h * pt && x == q * pm + r
    ensures (r / pt) % 2 == (x / pt) % 2
  {
    var y := r / pt;
    Assoc(q, 2 * h, pt);
    Distrib(q * (2 * h), y, pt);
    assert r == y * pt + r % pt;
    DivOfSum(x, q * (2 * h) + y, r % pt, pt);
    Assoc(2, q, h);
    assert q * (2 * h) == 2 * (q * h);
    ModPlusMultiple(y, q * h, 2);
  }

  /** The chosen multiplier is k modulo n, has its leading bit above the order, and its low bits in the words. */
  lemma RegularizedIsRegular(k: nat, n: nat, bits: nat)
    requires 5 <= n && n % 2 == 1 && 0 < k < n && 3 <= bits && Pow2(bits - 1) <= n < Pow2(bits)
    ensures var r := Regularized(k, n, bits);
      Regular(r, r % W((bits + 31) / 32), bits, n) && r % n == k
  {
    var r := Regularized(k, n, bits);
    Pow2Next(bits);
    Pow2Next(bits - 1);
    var w := (bits + 31) / 32;
    WAsPow2(w);
    forall t | 0 <= t < bits ensures BitAt(r % W(w), t) == BitAt(r, t) {
      BitOfLow(r, 32 * w, t);
    }
    if r == k + n {
      DivOfSum(r, 1, k, n);
    } else {
      DivOfSum(r, 2, k, n);
    }
  }

  /** The multipliers for which the ladder meets two opposite registers. */
  predicate Unlucky(k: nat, n: nat, bits: nat) {
    k == n - 1 || k == n - 2 || (k == 1 && n + 1 < Pow2(bits))
  }

  lemma UnluckyMeaning(k: nat, n: nat, bits: nat)
    requires 5 <= n && n % 2 == 1 && 0 < k < n && 3 <= bits && Pow2(bits - 1) <= n < Pow2(bits)
    ensures Exceptional(Regularized(k, n, bits), n) <==> Unlucky(k, n, bits)
  {
    Pow2Next(bits);
    Pow2Next(bits - 1);
  }

  /**
   For every scalar 0 < k < n the regularised ladder returns k·G exactly when G has a nonzero
   abscissa and k is none of n - 1, n - 2 and (unless n = 2^bits - 1) 1; otherwise it returns (0, 0).
   */
  lemma RegularMultCorrect(g: Point, z: nat, k: nat, bits: nat, n: nat, b: int, p: nat)
    requires OddOrder(n, g, b, p) && g.Affine? && z < p && z % p != 0
    requires 5 <= n && 0 < k < n && 3 <= bits && Pow2(bits - 1) <= n < Pow2(bits)
    ensures var f := MultOf(g.x, g.y, Regularized(k, n, bits) % W((bits + 31) / 32), z, bits + 1, p);
      && Times(k, g, b, p).Affine? && Times(k, g, b, p).y != 0
      && f == if g.x == 0 || Unlucky(k, n, bits) then Pair(0, 0)
              else Pair(Times(k, g, b, p).x, Times(k, g, b, p).y)
  {
    assert n % 2 == 1 && Prime(p);
    hide OddOrder, Times, Regular, Exceptional, MultOf, Unlucky, Pow2, W, Prime;
    var r := Regularized(k, n, bits);
    RegularizedIsRegular(k, n, bits);
    UnluckyMeaning(k, n, bits);
    MultCorrect(g, z, r, r % W((bits + 31) / 32), bits, n, b, p);
    ModSmall(k, n);
    TimesCong(r, k, n, g, b, p);
    NonzeroOrdinate(k, n, g, b, p);
  }

  /** The multiplier 1 gives (0, 0), although 1·G is G, for every order but 2^bits - 1. */
  lemma MultiplierOneFails(g: Point, bits: nat, n: nat, b: int, p: nat)
    requires OddOrder(n, g, b, p) && g.Affine?
    requires 5 <= n && 3 <= bits && Pow2(bits - 1) <= n && n + 1 < Pow2(bits)
    ensures p > 1 && MultOf(g.x, g.y, Regularized(1, n, bits) % W((bits + 31) / 32), 1, bits + 1, p) == Pair(0, 0)
    ensures GroupLaw(b, p) && OnCurve(g, b, p) && Times(1, g, b, p) == g && g != Affine(0, 0)
  {
    assert Prime(p) && p > 3 by { OrderFacts(n, g, b, p); }
    assert GroupLaw(b, p) && OnCurve(g, b, p);
    hide OddOrder, Times, MultOf, Pow2, W, Prime, GroupLaw, OnCurve;
    ModSmall(1, p);
    RegularMultCorrect(g, 1, 1, bits, n, b, p);
    TimesOne(g, b, p);
  }

  const SECP256R1_ORDER: nat := 0xFFFFFFFF00000000FFFFFFFFFFFFFFFFBCE6FAADA7179E84F3B9CAC2FC632551

  /** The order of secp256r1 is one of them. */
  lemma Secp256r1OrderFits(bits: nat)
    requires bits == 256
    ensures 5 <= SECP256R1_ORDER && Pow2(bits - 1) <= SECP256R1_ORDER && SECP256R1_ORDER + 1 < Pow2(bits)
    ensures Unlucky(1, SECP256R1_ORDER, bits) && Unlucky(SECP256R1_ORDER - 2, SECP256R1_ORDER, bits)
  {
    Pow2Small();
    hide Pow2;
    Pow2Add(32, 32);
    Pow2Add(64, 64);
    Pow2Add(128, 128);
    Pow2Next(bits);
  }

  // ---- Public keys ----

  method EccPointComputePublicKey(resultX: array<Word>, resultY: array<Word>, private_: array<Word>,
                                  dom: Domain, ghost b: int) returns (ok: bool)
    requires dom.Valid(b)
    requires dom.field.Room(resultX) && dom.field.Room(resultY) && resultX != resultY
    requires dom.NumNWords() <= private_.Length && 0 < Val(private_, dom.NumNWords()) < dom.N()
    modifies resultX, resultY
    ensures var d := old(Val(private_, dom.NumNWords()));
      var q := old(Times(d, dom.G(), b, dom.field.P()));
      && (ok <==> old(dom.G().x != 0 && !Unlucky(d, dom.N(), dom.numNBits)))
      && (ok ==> q == Affine(Val(resultX, dom.field.numWords), Val(resultY, dom.field.numWords)))
  {
    hide Pow2, W, MultOf, OddOrder, Times, Unlucky;
    ghost var d, p := Val(private_, dom.NumNWords()), dom.field.P();
    var tmp1 := new Word[dom.NumNWords()];
    var tmp2 := new Word[dom.NumNWords()];
    var carry := RegularizeK(private_, tmp1, tmp2, dom, b);
    assert Prime(p) && p > 3 by { OrderFacts(dom.N(), dom.G(), b, p); }
    ModSmall(1, p);
    RegularMultCorrect(dom.G(), 1, d, dom.numNBits, dom.N(), b, p);
    NWordsHoldBits(dom.numNBits);
    EccPointMult(resultX, resultY, dom.gx, dom.gy, if carry then tmp1 else tmp2, null,
                 dom.numNBits + 1, dom.field, dom.NumNWords());
    var zeroX := IsZero(resultX, dom.field.numWords);
    var zeroY := IsZero(resultY, dom.field.numWords);
    ok := !(zeroX && zeroY);
  }

  lemma OrderFacts(n: nat, g: Point, b: int, p: nat)
    requires OddOrder(n, g, b, p)
    ensures Prime(p) && p > 3 && p % 2 == 1 && n % 2 == 1
  {
  }
}
