/** EccPoint_mult and regularize_k on word arrays, against the same ladder on numbers modulo p. */
module Ladder {
  import opened Arith
  import opened Congruence
  import opened Vli
  import opened VliMod
  import opened CoZ
  import opened CurveMath
  import opened Jacobian

  // ---- The ladder on numbers ----

  /** The two registers (Rx[0], Ry[0]) and (Rx[1], Ry[1]), seen with register `first` first. */
  function Oriented(r: Pairs, first: int): Pairs {
    if first == 0 then r else Pairs(r.x2, r.y2, r.x1, r.y1)
  }

  /** XYcZ_addC(R[bit], R[1 - bit]). */
  function AddCStep(r: Pairs, bit: int, p: nat): Pairs
    requires p > 0
  {
    Oriented(CoZAddC(Oriented(r, bit), p), bit)
  }

  /** XYcZ_add(R[1 - bit], R[bit]). */
  function AddStep(r: Pairs, bit: int, p: nat): Pairs
    requires p > 0
  {
    Oriented(CoZAdd(Oriented(r, 1 - bit), p), 1 - bit)
  }

  function BitAt(s: nat, i: nat): int {
    if BitOf(s, i) then 1 else 0
  }

  /** The registers after bits top-1 down to i. */
  function Run(r: Pairs, s: nat, top: nat, i: nat, p: nat): Pairs
    requires p > 0
    decreases top - i
  {
    if i >= top then r
    else AddStep(AddCStep(Run(r, s, top, i + 1, p), BitAt(s, i), p), BitAt(s, i), p)
  }

  /** What uECC_vli_modInv computes modulo a prime. */
  ghost function InvOf(x: nat, p: nat): nat
    requires Prime(p)
  {
    if x % p == 0 then 0 else FInv(x, p)
  }

  /** The final 1/Z: Xb yP / (xP Yb (X1 - X0)). */
  ghost function FinalZ(r: Pairs, bit: int, px: nat, py: nat, p: nat): nat
    requires Prime(p)
  {
    var b := Oriented(r, bit);
    var d := FMul(FMul(FSub(r.x2, r.x1, p), b.y1, p), px, p);
    FMul(FMul(InvOf(d, p), py, p), b.x1, p)
  }

  function StartOf(px: nat, py: nat, z: nat, p: nat): Pairs
    requires p > 0
  {
    Oriented(InitialDoubleOf(px, py, z, p), 1)
  }

  /** The last bit, the common denominator's inverse, and register 0 made affine. */
  ghost function FinishOf(r: Pairs, bit: int, px: nat, py: nat, p: nat): Pair
    requires Prime(p)
  {
    var c := AddCStep(r, bit, p);
    var a := AddStep(c, bit, p);
    ApplyZOf(a.x1, a.y1, FinalZ(c, bit, px, py, p), p)
  }

  ghost function MultOf(px: nat, py: nat, s: nat, z: nat, numBits: nat, p: nat): Pair
    requires Prime(p) && numBits >= 2
  {
    FinishOf(Run(StartOf(px, py, z, p), s, numBits - 1, 1, p), BitAt(s, 0), px, py, p)
  }

  // ---- The ladder on arrays ----

  /** The four register arrays. */
  datatype Registers = Registers(rx: seq<array<Word>>, ry: seq<array<Word>>) {
    predicate Apart(a: array<Word>) {
      a !in rx && a !in ry
    }

    ghost predicate Good(curve: Curve)
      requires curve.numWords <= curve.p.Length
      reads rx, ry, curve.p
    {
      |rx| == 2 && |ry| == 2 && FourHold(rx[0], ry[0], rx[1], ry[1], curve)
    }

    ghost function Value(n: nat): Pairs
      requires |rx| == 2 && |ry| == 2
      requires n <= rx[0].Length && n <= rx[1].Length && n <= ry[0].Length && n <= ry[1].Length
      reads rx, ry
    {
      PairsOf(rx[0], ry[0], rx[1], ry[1], n)
    }
  }

  method StepC(r: Registers, nb: int, curve: Curve)
    requires curve.Valid() && r.Good(curve) && 0 <= nb <= 1
    modifies r.rx, r.ry
    ensures r.Good(curve)
    ensures r.Value(curve.numWords) == AddCStep(old(r.Value(curve.numWords)), 1 - nb, curve.P())
  {
    hide CoZAddC;
    XYcZAddC(r.rx[1 - nb], r.ry[1 - nb], r.rx[nb], r.ry[nb], curve);
  }

  method StepAdd(r: Registers, nb: int, curve: Curve)
    requires curve.Valid() && r.Good(curve) && 0 <= nb <= 1
    modifies r.rx, r.ry
    ensures r.Good(curve)
    ensures r.Value(curve.numWords) == AddStep(old(r.Value(curve.numWords)), 1 - nb, curve.P())
  {
    hide CoZAdd;
    XYcZAdd(r.rx[nb], r.ry[nb], r.rx[1 - nb], r.ry[1 - nb], curve);
  }

  method ModInvField(result: array<Word>, input: array<Word>, curve: Curve)
    requires curve.Valid() && curve.Room(result) && curve.Holds(input) && Prime(curve.P())
    modifies result
    ensures curve.Holds(result)
    ensures Val(result, curve.numWords) == InvOf(old(Val(input, curve.numWords)), curve.P())
  {
    ghost var x, p := Val(input, curve.numWords), curve.P();
    ghost var g := ModInv(result, input, curve.p, curve.numWords);
    InverseOf(x, Val(result, curve.numWords), g, p);
  }

  lemma InverseOf(x: nat, r: nat, g: nat, p: nat)
    requires Prime(p) && x < p && r < p
    requires x == 0 ==> r == 0
    requires x > 0 ==> IsGcd(g, x, p) && Cong(r * x, g, p)
    ensures r == InvOf(x, p)
  {
    ModSmall(x, p);
    if x > 0 {
      GcdWithPrime(g, x, p);
      CancelCong(r, FInv(x, p), x, p);
      CongSmall(r, FInv(x, p), p);
    }
  }

  method ComputeZ(z: array<Word>, r: Registers, nb: int, px: array<Word>, py: array<Word>, curve: Curve)
    requires curve.Valid() && Prime(curve.P()) && r.Good(curve) && 0 <= nb <= 1
    requires curve.Room(z) && curve.Holds(px) && curve.Holds(py)
    requires r.Apart(z) && z != px && z != py
    modifies z
    ensures curve.Holds(z)
    ensures Val(z, curve.numWords)
         == FinalZ(r.Value(curve.numWords), 1 - nb, Val(px, curve.numWords), Val(py, curve.numWords), curve.P())
  {
    hide Prime, InvOf, FSub, FMul;
    Difference(z, r.rx[1], r.rx[0], curve);
    ModMultFast(z, z, r.ry[1 - nb], curve);
    ModMultFast(z, z, px, curve);
    ModInvField(z, z, curve);
    ModMultFast(z, z, py, curve);
    ModMultFast(z, z, r.rx[1 - nb], curve);
  }

  method EccPointMult(resultX: array<Word>, resultY: array<Word>, px: array<Word>, py: array<Word>,
                      scalar: array<Word>, initialZ: array?<Word>, numBits: nat, curve: Curve, ghost sn: nat)
    requires curve.Valid() && Prime(curve.P())
    requires curve.Room(resultX) && curve.Room(resultY) && resultX != resultY
    requires curve.Holds(px) && curve.Holds(py)
    requires initialZ != null ==> curve.Holds(initialZ)
    requires sn <= scalar.Length && 2 <= numBits <= 32 * sn + 1
    modifies resultX, resultY
    ensures Pair(Val(resultX, curve.numWords), Val(resultY, curve.numWords))
         == old(MultOf(Val(px, curve.numWords), Val(py, curve.numWords), Val(scalar, sn),
                if initialZ != null then Val(initialZ, curve.numWords) else 1, numBits, curve.P()))
    ensures Val(resultX, curve.numWords) < old(curve.P()) && Val(resultY, curve.numWords) < old(curve.P())
  {
    hide Prime, Run, FinishOf, StartOf, BitOf, Val;
    ghost var n, p, s := curve.numWords, curve.P(), Val(scalar, sn);
    ghost var zv := if initialZ != null then Val(initialZ, n) else 1;
    var r := NewRegisters(px, py, initialZ, curve);
    ghost var start := StartOf(Val(px, n), Val(py, n), zv, p);
    RunBits(r, scalar, numBits, curve, sn, start);
    Finish(resultX, resultY, r, scalar, px, py, curve, sn);
  }

  method NewRegisters(px: array<Word>, py: array<Word>, initialZ: array?<Word>, curve: Curve) returns (r: Registers)
    requires curve.Valid() && curve.Holds(px) && curve.Holds(py)
    requires initialZ != null ==> curve.Holds(initialZ)
    ensures |r.rx| == 2 && |r.ry| == 2
    ensures fresh(r.rx[0]) && fresh(r.rx[1]) && fresh(r.ry[0]) && fresh(r.ry[1])
    ensures r.Good(curve)
    ensures r.Value(curve.numWords) == StartOf(Val(px, curve.numWords), Val(py, curve.numWords),
              if initialZ != null then Val(initialZ, curve.numWords) else 1, curve.P())
  {
    hide InitialDoubleOf;
    var x0, y0 := new Word[curve.numWords], new Word[curve.numWords];
    var x1, y1 := new Word[curve.numWords], new Word[curve.numWords];
    r := Registers([x0, x1], [y0, y1]);
    Set(x1, px, curve.numWords);
    Set(y1, py, curve.numWords);
    XYcZInitialDouble(x1, y1, x0, y0, initialZ, curve);
  }

  method RunBits(r: Registers, scalar: array<Word>, numBits: nat, curve: Curve, ghost sn: nat, ghost start: Pairs)
    requires curve.Valid() && r.Good(curve)
    requires r.Apart(scalar)
    requires sn <= scalar.Length && 2 <= numBits <= 32 * sn + 1
    requires r.Value(curve.numWords) == start
    modifies r.rx, r.ry
    ensures r.Good(curve)
    ensures r.Value(curve.numWords) == Run(start, Val(scalar, sn), numBits - 1, 1, curve.P())
  {
    hide AddCStep, AddStep, BitOf, Value, W;
    var i: int := numBits - 2;
    while i > 0
      invariant 0 <= i <= numBits - 2
      invariant curve.Valid() && curve.P() == old(curve.P())
      invariant r.Good(curve)
      invariant Val(scalar, sn) == old(Val(scalar, sn))
      invariant r.Value(curve.numWords) == Run(start, Val(scalar, sn), numBits - 1, i + 1, curve.P())
    {
      var bit := TestBit(scalar, i, sn);
      OneBit(r, if bit then 0 else 1, curve);
      i := i - 1;
    }
  }

  /** Both additions for one bit. */
  method OneBit(r: Registers, nb: int, curve: Curve)
    requires curve.Valid() && r.Good(curve) && 0 <= nb <= 1
    modifies r.rx, r.ry
    ensures r.Good(curve)
    ensures r.Value(curve.numWords)
         == AddStep(AddCStep(old(r.Value(curve.numWords)), 1 - nb, curve.P()), 1 - nb, curve.P())
  {
    hide AddCStep, AddStep, Value, W;
    StepC(r, nb, curve);
    StepAdd(r, nb, curve);
  }

  method Finish(resultX: array<Word>, resultY: array<Word>, r: Registers, scalar: array<Word>,
                px: array<Word>, py: array<Word>, curve: Curve, ghost sn: nat)
    requires curve.Valid() && Prime(curve.P()) && r.Good(curve)
    requires curve.Room(resultX) && curve.Room(resultY) && resultX != resultY
    requires curve.Holds(px) && curve.Holds(py)
    requires 0 < sn <= scalar.Length
    requires r.Apart(resultX) && r.Apart(resultY) && r.Apart(px) && r.Apart(py) && r.Apart(scalar)
    modifies resultX, resultY, r.rx, r.ry
    ensures Pair(Val(resultX, curve.numWords), Val(resultY, curve.numWords))
         == old(FinishOf(r.Value(curve.numWords), BitAt(Val(scalar, sn), 0),
                         Val(px, curve.numWords), Val(py, curve.numWords), curve.P()))
    ensures Val(resultX, curve.numWords) < old(curve.P()) && Val(resultY, curve.numWords) < old(curve.P())
  {
    hide AddCStep, AddStep, BitOf, FinalZ, ApplyZOf, Prime, Val;
    var z := new Word[curve.numWords];
    var bit := TestBit(scalar, 0, sn);
    LastBit(z, r, if bit then 0 else 1, px, py, curve);
    ApplyZ(r.rx[0], r.ry[0], z, curve);
    Set(resultX, r.rx[0], curve.numWords);
    Set(resultY, r.ry[0], curve.numWords);
  }

  /** Bit 0: addC, then the inverse of the denominator to come, then add. */
  method LastBit(z: array<Word>, r: Registers, nb: int, px: array<Word>, py: array<Word>, curve: Curve)
    requires curve.Valid() && Prime(curve.P()) && r.Good(curve) && 0 <= nb <= 1
    requires curve.Room(z) && curve.Holds(px) && curve.Holds(py)
    requires r.Apart(px) && r.Apart(py) && r.Apart(z) && z != px && z != py
    modifies z, r.rx, r.ry
    ensures r.Good(curve) && curve.Holds(z)
    ensures var c := AddCStep(old(r.Value(curve.numWords)), 1 - nb, curve.P());
      && r.Value(curve.numWords) == AddStep(c, 1 - nb, curve.P())
      && Val(z, curve.numWords)
         == FinalZ(c, 1 - nb, Val(px, curve.numWords), Val(py, curve.numWords), curve.P())
  {
    hide AddCStep, AddStep, BitOf, FinalZ, Prime, Val;
    StepC(r, nb, curve);
    ComputeZ(z, r, nb, px, py, curve);
    StepAdd(r, nb, curve);
  }
}
