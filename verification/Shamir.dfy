/** The simultaneous multiplication u1·G + u2·Q of uECC_verify, on numbers modulo p. */
module Shamir {
  import opened Arith
  import opened Congruence
  import opened Vli
  import opened CoZ
  import opened CurveMath
  import opened Jacobian
  import opened Group
  import opened Ladder
  import opened LadderMath

  /** The three precomputed points: G, Q and G + Q. */
  datatype Table = Table(g: Pair, q: Pair, sum: Pair) {
    /** The entry for bits (b1, b2), not both zero. */
    function At(b1: int, b2: int): Pair {
      if b1 == 1 then (if b2 == 1 then sum else g) else q
    }
  }

  /** sum = G + Q: XYcZ_add on the two affine points, then 1/(x2 - x1) applied. */
  ghost function TableOf(g: Pair, q: Pair, p: nat): Table
    requires Prime(p)
  {
    var a := CoZAdd(Pairs(g.x, g.y, q.x, q.y), p);
    Table(g, q, ApplyZOf(a.x2, a.y2, InvOf(FSub(q.x, g.x, p), p), p))
  }

  /** One table point added to the running Jacobian point. */
  function AddEntry(t: Triple, e: Pair, p: nat): Triple
    requires p > 0
  {
    var s := ApplyZOf(e.x, e.y, t.z, p);
    var a := CoZAdd(Pairs(s.x, s.y, t.x, t.y), p);
    Triple(a.x2, a.y2, FMul(t.z, FSub(t.x, s.x, p), p))
  }

  function ShamirStep(t: Triple, table: Table, b1: int, b2: int, p: nat): Triple
    requires p > 0
  {
    var d := DoubleOf(t, p);
    if b1 == 0 && b2 == 0 then d else AddEntry(d, table.At(b1, b2), p)
  }

  /** The running point after bits top-1 down to i; the first one only selects a table entry. */
  function ShamirRun(table: Table, u1: nat, u2: nat, top: nat, i: nat, p: nat): Triple
    requires p > 0 && i < top
    decreases top - i
  {
    if i == top - 1 then
      var e := table.At(BitAt(u1, i), BitAt(u2, i));
      Triple(e.x, e.y, 1)
    else
      ShamirStep(ShamirRun(table, u1, u2, top, i + 1, p), table, BitAt(u1, i), BitAt(u2, i), p)
  }

  /** The affine abscissa at the end. */
  ghost function ShamirX(table: Table, u1: nat, u2: nat, top: nat, p: nat): nat
    requires Prime(p) && top > 0
  {
    var t := ShamirRun(table, u1, u2, top, 0, p);
    ApplyZOf(t.x, t.y, InvOf(t.z, p), p).x
  }

  // ---- What it means ----

  /** The key is neither infinity nor G nor -G, so that the entry for G + Q is sound. */
  predicate KeyApart(d: nat, n: nat)
    requires n > 0
  {
    d % n != 0 && d % n != 1 && (d + 1) % n != 0
  }

  /** No bit is set in both scalars, so that the entry for G + Q is not used. */
  ghost predicate NoCommonBit(u1: nat, u2: nat) {
    forall i: nat :: !(BitOf(u1, i) && BitOf(u2, i))
  }

  /** All entries that are used are sound. */
  ghost predicate KeyServes(u1: nat, u2: nat, d: nat, n: nat)
    requires n > 0
  {
    d % n != 0 && (KeyApart(d, n) || NoCommonBit(u1, u2))
  }

  /** The table holds g and d·g, and (1 + d)·g unless d·g is g or its mirror image. */
  ghost predicate TableAt(t: Table, d: nat, n: nat, g: Point, b: int, p: nat)
    requires GroupLaw(b, p) && OnCurve(g, b, p) && n > 0
  {
    && Affine(t.g.x, t.g.y) == Times(1, g, b, p)
    && Affine(t.q.x, t.q.y) == Times(d, g, b, p)
    && (KeyApart(d, n) ==> Affine(t.sum.x, t.sum.y) == Times(1 + d, g, b, p))
  }

  lemma InvOfInverts(z: nat, p: nat)
    requires Prime(p) && z % p != 0
    ensures InvOf(z, p) < p && Cong(InvOf(z, p) * z, 1, p)
  {
  }

  lemma TableMeaning(g: Point, d: nat, n: nat, b: int, p: nat)
    requires OddOrder(n, g, b, p) && n > 2 && d % n != 0
    ensures g.Affine? && Times(d, g, b, p).Affine?
    ensures var q := Times(d, g, b, p);
      TableAt(TableOf(Pair(g.x, g.y), Pair(q.x, q.y), p), d, n, g, b, p)
  {
    assert p > 1 && Prime(p);
    hide OnCurve, Times, Plus, Prime, CoZAdd, GroupLaw, InvOf, ApplyZOf;
    ModSmall(1, n);
    TimesOne(g, b, p);
    TimesMod(1, n, g, b, p);
    TimesMod(d, n, g, b, p);
    if KeyApart(d, n) {
      SumMeaning(g, d, n, b, p);
    }
  }

  /** The third entry is G + Q. */
  lemma SumMeaning(g: Point, d: nat, n: nat, b: int, p: nat)
    requires OddOrder(n, g, b, p) && n > 2 && KeyApart(d, n)
    ensures g.Affine? && Times(d, g, b, p).Affine?
    ensures var q := Times(d, g, b, p);
      var sum := TableOf(Pair(g.x, g.y), Pair(q.x, q.y), p).sum;
      Affine(sum.x, sum.y) == Times(1 + d, g, b, p)
  {
    assert p > 1 && Prime(p);
    hide OnCurve, Times, Plus, Prime, CoZAdd, GroupLaw, InvOf;
    ModSmall(1, n);
    TimesOne(g, b, p);
    DistinctAbscissas(1, d, n, g, b, p);
    var q := Times(d, g, b, p);
    InField(g, b, p);
    InField(q, b, p);
    AtOne(g, p);
    AtOne(q, p);
    var r := Pairs(g.x, g.y, q.x, q.y);
    CoZAddMeaning(r, 1, g, q, p);
    TimesAdd(1, d, g, b, p);
    var w := CoZDenominator(r, 1, p);
    DenominatorAtOne(q.x, g.x, p);
    InvOfInverts(w, p);
    var a := CoZAdd(r, p);
    MadeAffine(a.x2, a.y2, w, InvOf(w, p), Times(1 + d, g, b, p), p);
  }

  lemma InField(q: Point, b: int, p: nat)
    requires p > 0 && OnCurve(q, b, p) && q.Affine?
    ensures q.x < p && q.y < p
  {
  }

  lemma DenominatorAtOne(x: nat, y: nat, p: nat)
    requires p > 0
    ensures FMul(1, FSub(x, y, p), p) == FSub(x, y, p)
  {
    ModSmall(FSub(x, y, p), p);
  }

  /** The multiple of g reached after the bits from i up. */
  function Multiple(u1: nat, u2: nat, d: nat, i: nat): nat {
    Prefix(u1, i) + Prefix(u2, i) * d
  }

  /** The multiple of g in the table entry. */
  function EntryMultiple(b1: int, b2: int, d: nat): nat
    requires 0 <= b1 <= 1 && 0 <= b2 <= 1
  {
    b1 + (if b2 == 1 then d else 0)
  }

  /** Doubling to `a` and then adding `c` meets neither infinity nor equal nor opposite points. */
  predicate AddsApart(a: nat, c: nat, n: nat)
    requires n > 0
  {
    c % n != 0 && a % n != 0 && a % n != c % n && (a + c) % n != 0
  }

  /** Step i of the run is free of collisions. */
  predicate StepApart(u1: nat, u2: nat, d: nat, i: nat, n: nat)
    requires n > 0
  {
    (BitOf(u1, i) || BitOf(u2, i)) ==>
      AddsApart(2 * Multiple(u1, u2, d, i + 1), EntryMultiple(BitAt(u1, i), BitAt(u2, i), d), n)
  }

  /** No step of the run down to bit `from` adds equal or opposite points. */
  predicate StepsApart(u1: nat, u2: nat, d: nat, from: nat, top: nat, n: nat)
    requires n > 0
  {
    forall i | from <= i < top - 1 :: StepApart(u1, u2, d, i, n)
  }

  lemma MultipleStep(u1: nat, u2: nat, d: nat, i: nat)
    ensures 0 <= BitAt(u1, i) <= 1 && 0 <= BitAt(u2, i) <= 1
    ensures Multiple(u1, u2, d, i)
         == 2 * Multiple(u1, u2, d, i + 1) + EntryMultiple(BitAt(u1, i), BitAt(u2, i), d)
  {
    PrefixStep(u1, i);
    PrefixStep(u2, i);
    hide Prefix;
    Distrib(2 * Prefix(u2, i + 1), BitAt(u2, i), d);
    Assoc(2, Prefix(u2, i + 1), d);
  }

  lemma EntryMeaning(t: Table, d: nat, b1: int, b2: int, n: nat, g: Point, b: int, p: nat)
    requires GroupLaw(b, p) && OnCurve(g, b, p) && n > 0 && (b1 == 1 && b2 == 1 ==> KeyApart(d, n)) && TableAt(t, d, n, g, b, p)
    requires 0 <= b1 <= 1 && 0 <= b2 <= 1 && (b1 == 1 || b2 == 1)
    ensures var e := t.At(b1, b2);
      Affine(e.x, e.y) == Times(EntryMultiple(b1, b2, d), g, b, p)
  {
    hide Times, GroupLaw, OnCurve;
  }

  /** The running point stands for m·g. */
  ghost predicate RunAt(t: Triple, m: nat, g: Point, b: int, p: nat)
    requires GroupLaw(b, p) && OnCurve(g, b, p)
  {
    Represents(t.x, t.y, t.z, Times(m, g, b, p), p)
  }

  lemma DoubledMultiple(t: Triple, m: nat, n: nat, g: Point, b: int, p: nat)
    requires OddOrder(n, g, b, p) && m % n != 0 && RunAt(t, m, g, b, p)
    ensures RunAt(DoubleOf(t, p), 2 * m, g, b, p)
  {
    hide Times, Plus, OnCurve, Prime, DoubleOf, Represents;
    NonzeroOrdinate(m, n, g, b, p);
    DoubleMeaning(t, Times(m, g, b, p), p);
    TimesAdd(m, m, g, b, p);
  }

  lemma AddedMultiple(t: Triple, e: Pair, a: nat, c: nat, n: nat, g: Point, b: int, p: nat)
    requires OddOrder(n, g, b, p) && RunAt(t, a, g, b, p) && AddsApart(a, c, n)
    requires Affine(e.x, e.y) == Times(c, g, b, p)
    ensures RunAt(AddEntry(t, e, p), a + c, g, b, p)
  {
    assert p > 1 && Prime(p);
    hide Times, Plus, Prime, CoZAdd, ApplyZOf;
    var A, C := Times(a, g, b, p), Times(c, g, b, p);
    DistinctAbscissas(a, c, n, g, b, p);
    AtOne(C, p);
    ApplyZMeaning(e.x, e.y, 1, t.z, C, p);
    DenominatorOne(t.z, p);
    var s := ApplyZOf(e.x, e.y, t.z, p);
    CoZAddMeaning(Pairs(s.x, s.y, t.x, t.y), t.z, C, A, p);
    TimesAdd(c, a, g, b, p);
  }

  lemma DenominatorOne(z: nat, p: nat)
    requires p > 0 && z < p
    ensures FMul(1, z, p) == z
  {
    ModSmall(z, p);
  }

  /** A collision-free run keeps the running point at its multiple, which is never a multiple of n. */
  lemma {:induction false} ShamirMeaning(t: Table, u1: nat, u2: nat, d: nat, top: nat, i: nat,
                                         n: nat, g: Point, b: int, p: nat)
    requires OddOrder(n, g, b, p) && n > 2 && i < top && TableAt(t, d, n, g, b, p)
    requires KeyServes(u1, u2, d, n) && StepsApart(u1, u2, d, i, top, n)
    requires Prefix(u1, top) == 0 && Prefix(u2, top) == 0 && (BitOf(u1, top - 1) || BitOf(u2, top - 1))
    ensures RunAt(ShamirRun(t, u1, u2, top, i, p), Multiple(u1, u2, d, i), g, b, p)
    ensures Multiple(u1, u2, d, i) % n != 0
    decreases top - i
  {
    assert p > 1 && Prime(p) && (0 as int) * d == 0;
    hide Times, Plus, Prime, OnCurve, GroupLaw, Prefix, BitOf, ShamirStep, Represents, TableAt, RunAt, Multiple;
    MultipleStep(u1, u2, d, i);
    var b1, b2 := BitAt(u1, i), BitAt(u2, i);
    if i == top - 1 {
      LastMultiple(u1, u2, d, top);
      EntryMeaning(t, d, b1, b2, n, g, b, p);
      EntryNotZero(b1, b2, d, n);
      StartsAtEntry(t.At(b1, b2), EntryMultiple(b1, b2, d), n, g, b, p);
    } else {
      ShamirMeaning(t, u1, u2, d, top, i + 1, n, g, b, p);
      assert StepApart(u1, u2, d, i, n);
      ShamirStepMeaning(ShamirRun(t, u1, u2, top, i + 1, p), t, Multiple(u1, u2, d, i + 1), d, b1, b2, n, g, b, p);
    }
  }

  lemma LastMultiple(u1: nat, u2: nat, d: nat, top: nat)
    requires Prefix(u1, top) == 0 && Prefix(u2, top) == 0
    ensures Multiple(u1, u2, d, top) == 0
  {
  }

  lemma ShamirStepMeaning(r: Triple, t: Table, m: nat, d: nat, b1: int, b2: int, n: nat, g: Point, b: int, p: nat)
    requires OddOrder(n, g, b, p) && TableAt(t, d, n, g, b, p) && RunAt(r, m, g, b, p) && m % n != 0
    requires 0 <= b1 <= 1 && 0 <= b2 <= 1
    requires b1 == 1 || b2 == 1 ==> AddsApart(2 * m, EntryMultiple(b1, b2, d), n)
    requires b1 == 1 && b2 == 1 ==> KeyApart(d, n)
    ensures RunAt(ShamirStep(r, t, b1, b2, p), 2 * m + EntryMultiple(b1, b2, d), g, b, p)
    ensures (2 * m + EntryMultiple(b1, b2, d)) % n != 0
  {
    assert p > 0;
    hide Times, Plus, Prime, OnCurve, GroupLaw, DoubleOf, AddEntry, Represents, TableAt, RunAt;
    DoubledMultiple(r, m, n, g, b, p);
    if b1 == 0 && b2 == 0 {
      if 2 * m % n == 0 {
        OddDividesHalf(n, m);
      }
    } else {
      EntryMeaning(t, d, b1, b2, n, g, b, p);
      AddedMultiple(DoubleOf(r, p), t.At(b1, b2), 2 * m, EntryMultiple(b1, b2, d), n, g, b, p);
    }
  }

  lemma EntryNotZero(b1: int, b2: int, d: nat, n: nat)
    requires n > 1 && d % n != 0 && (b1 == 1 && b2 == 1 ==> KeyApart(d, n))
    requires 0 <= b1 <= 1 && 0 <= b2 <= 1 && (b1 == 1 || b2 == 1)
    ensures EntryMultiple(b1, b2, d) % n != 0
  {
    ModSmall(1, n);
  }

  lemma StartsAtEntry(e: Pair, c: nat, n: nat, g: Point, b: int, p: nat)
    requires OddOrder(n, g, b, p) && Affine(e.x, e.y) == Times(c, g, b, p)
    ensures RunAt(Triple(e.x, e.y, 1), c, g, b, p)
  {
    hide Times, Plus, Prime;
    AtOne(Affine(e.x, e.y), p);
  }

  /** u1 + u2 d, the multiple of g that u1·G + u2·Q is. */
  function Combined(u1: nat, u2: nat, d: nat): nat {
    u1 + u2 * d
  }

  /** Without collisions the result is the abscissa of (u1 + u2 d)·g. */
  lemma ShamirXMeaning(t: Table, u1: nat, u2: nat, d: nat, top: nat, n: nat, g: Point, b: int, p: nat)
    requires OddOrder(n, g, b, p) && n > 2 && top > 0 && TableAt(t, d, n, g, b, p)
    requires KeyServes(u1, u2, d, n) && StepsApart(u1, u2, d, 0, top, n)
    requires Prefix(u1, top) == 0 && Prefix(u2, top) == 0 && (BitOf(u1, top - 1) || BitOf(u2, top - 1))
    ensures Combined(u1, u2, d) % n != 0
    ensures Times(Combined(u1, u2, d), g, b, p).Affine?
    ensures ShamirX(t, u1, u2, top, p) == Times(Combined(u1, u2, d), g, b, p).x
  {
    assert Prime(p);
    LowPrefixes(u1);
    LowPrefixes(u2);
    hide Times, Plus, Prime, OnCurve, GroupLaw, Prefix, BitOf, ShamirRun, KeyServes, StepsApart, InvOf, ApplyZOf;
    ShamirMeaning(t, u1, u2, d, top, 0, n, g, b, p);
    var r := ShamirRun(t, u1, u2, top, 0, p);
    InvOfInverts(r.z, p);
    MadeAffine(r.x, r.y, r.z, InvOf(r.z, p), Times(Combined(u1, u2, d), g, b, p), p);
  }

  // ---- Collisions ----

  /** Adding an entry that equals the running point or its mirror image leaves no denominator. */
  lemma CollidingAdd(t: Triple, e: Pair, a: nat, c: nat, n: nat, g: Point, b: int, p: nat)
    requires OddOrder(n, g, b, p) && RunAt(t, a, g, b, p) && Affine(e.x, e.y) == Times(c, g, b, p)
    requires a % n == c % n || (a + c) % n == 0
    ensures AddEntry(t, e, p).z == 0
  {
    assert p > 1 && Prime(p);
    hide Times, Plus, Prime, CoZAdd, OnCurve, GroupLaw;
    SameOrMirrored(a, c, n, g, b, p);
    var z2 := FMul(t.z, t.z, p);
    MulIs(t.z, t.z, t.z, t.z, p);
    MulIs(e.x, z2, e.x, t.z * t.z, p);
    var s := ApplyZOf(e.x, e.y, t.z, p);
    CongSmall(s.x, t.x, p);
    ModSmall(0, p);
    NothingTimes(t.z, p);
  }

  lemma SameOrMirrored(a: nat, c: nat, n: nat, g: Point, b: int, p: nat)
    requires OddOrder(n, g, b, p) && Times(a, g, b, p).Affine? && Times(c, g, b, p).Affine?
    requires a % n == c % n || (a + c) % n == 0
    ensures Times(a, g, b, p).x == Times(c, g, b, p).x
  {
    hide Times, Plus, Prime, OnCurve, GroupLaw;
    if a % n == c % n {
      TimesCong(a, c, n, g, b, p);
    } else {
      NegTimes(a, c, n, g, b, p);
    }
  }

  lemma NothingTimes(z: nat, p: nat)
    requires p > 0
    ensures FMul(z, 0, p) == 0 && FMul(0, z, p) == 0
  {
    assert z * 0 == 0 && 0 * z == 0;
  }

  /** A lost denominator stays lost. */
  lemma StepKeepsZero(t: Triple, table: Table, b1: int, b2: int, p: nat)
    requires p > 0 && t.z == 0
    ensures ShamirStep(t, table, b1, b2, p).z == 0
  {
    NothingTimes(FSub(t.x, ApplyZOf(table.At(b1, b2).x, table.At(b1, b2).y, 0, p).x, p), p);
  }

  lemma CollidingStep(r: Triple, t: Table, m: nat, d: nat, b1: int, b2: int, n: nat, g: Point, b: int, p: nat)
    requires OddOrder(n, g, b, p) && TableAt(t, d, n, g, b, p) && RunAt(r, m, g, b, p) && m % n != 0
    requires 0 <= b1 <= 1 && 0 <= b2 <= 1 && (b1 == 1 || b2 == 1) && n > 1 && d % n != 0
    requires b1 == 1 && b2 == 1 ==> KeyApart(d, n)
    requires !AddsApart(2 * m, EntryMultiple(b1, b2, d), n)
    ensures p > 0 && ShamirStep(r, t, b1, b2, p).z == 0
  {
    assert p > 0;
    hide Times, Plus, Prime, OnCurve, GroupLaw, DoubleOf, AddEntry, Represents, TableAt, RunAt;
    DoubledMultiple(r, m, n, g, b, p);
    EntryMeaning(t, d, b1, b2, n, g, b, p);
    EntryNotZero(b1, b2, d, n);
    if 2 * m % n == 0 {
      OddDividesHalf(n, m);
    }
    CollidingAdd(DoubleOf(r, p), t.At(b1, b2), 2 * m, EntryMultiple(b1, b2, d), n, g, b, p);
  }

  /** From the first colliding step on the denominator is zero. */
  lemma {:induction false} CollidingRun(t: Table, u1: nat, u2: nat, d: nat, top: nat, i: nat,
                                        n: nat, g: Point, b: int, p: nat)
    requires OddOrder(n, g, b, p) && n > 2 && i < top && TableAt(t, d, n, g, b, p)
    requires KeyServes(u1, u2, d, n) && !StepsApart(u1, u2, d, i, top, n)
    requires Prefix(u1, top) == 0 && Prefix(u2, top) == 0 && (BitOf(u1, top - 1) || BitOf(u2, top - 1))
    ensures p > 0 && ShamirRun(t, u1, u2, top, i, p).z == 0
    decreases top - i
  {
    assert p > 1 && Prime(p);
    hide Times, Plus, Prime, OnCurve, GroupLaw, Prefix, ShamirStep, Represents, TableAt, RunAt, Multiple, AddsApart;
    var b1, b2 := BitAt(u1, i), BitAt(u2, i);
    assert i < top - 1;
    var r := ShamirRun(t, u1, u2, top, i + 1, p);
    if StepsApart(u1, u2, d, i + 1, top, n) {
      ShamirMeaning(t, u1, u2, d, top, i + 1, n, g, b, p);
      assert !StepApart(u1, u2, d, i, n);
      CollidingStep(r, t, Multiple(u1, u2, d, i + 1), d, b1, b2, n, g, b, p);
    } else {
      CollidingRun(t, u1, u2, d, top, i + 1, n, g, b, p);
      StepKeepsZero(r, t, b1, b2, p);
    }
  }

  /** A collision anywhere makes the abscissa zero. */
  lemma CollidingX(t: Table, u1: nat, u2: nat, d: nat, top: nat, n: nat, g: Point, b: int, p: nat)
    requires OddOrder(n, g, b, p) && n > 2 && top > 0 && TableAt(t, d, n, g, b, p)
    requires KeyServes(u1, u2, d, n) && !StepsApart(u1, u2, d, 0, top, n)
    requires Prefix(u1, top) == 0 && Prefix(u2, top) == 0 && (BitOf(u1, top - 1) || BitOf(u2, top - 1))
    ensures Prime(p) && ShamirX(t, u1, u2, top, p) == 0
  {
    assert Prime(p) && p > 1;
    hide Times, Plus, Prime, OnCurve, GroupLaw, Prefix, BitOf, ShamirRun, KeyServes, StepsApart;
    CollidingRun(t, u1, u2, d, top, 0, n, g, b, p);
    var r := ShamirRun(t, u1, u2, top, 0, p);
    ModSmall(0, p);
    NothingTimes(0, p);
    NothingTimes(r.x, p);
  }
}
