/** The checksums as remainders of polynomials over the field of two elements. */
module CrcPoly {
  import opened Crc

  // ---- Polynomials ----

  /** A polynomial, as the set of the exponents of its terms. */
  type Poly = set<nat>

  function Add(a: Poly, b: Poly): Poly {
    (a - b) + (b - a)
  }

  function TimesX(a: Poly): Poly {
    set i | i in a :: i + 1
  }

  function Shift(a: Poly, n: nat): Poly {
    if n == 0 then a else TimesX(Shift(a, n - 1))
  }

  function Term(b: bool, g: Poly): Poly {
    if b then g else {}
  }

  /** The product of g with the polynomial whose coefficients are listed, highest first. */
  function Times(q: seq<bool>, g: Poly): Poly {
    if q == [] then {} else Add(TimesX(Times(q[..|q| - 1], g)), Term(q[|q| - 1], g))
  }

  predicate Below(a: Poly, d: nat) {
    forall i | i in a :: i < d
  }

  /** r is what is left of a when a multiple of g is taken away, and is of lower degree than g. */
  ghost predicate IsRemainder(a: Poly, g: Poly, d: nat, r: Poly) {
    Below(r, d) && exists q :: Add(a, r) == Times(q, g)
  }

  // ---- Their laws ----

  lemma AddIs(a: Poly, b: Poly, i: nat)
    ensures i in Add(a, b) <==> (i in a) != (i in b)
  {
  }

  lemma AddComm(a: Poly, b: Poly)
    ensures Add(a, b) == Add(b, a)
  {
  }

  lemma AddAssoc(a: Poly, b: Poly, c: Poly)
    ensures Add(Add(a, b), c) == Add(a, Add(b, c))
  {
    forall i: nat ensures i in Add(Add(a, b), c) <==> i in Add(a, Add(b, c)) {
      AddIs(Add(a, b), c, i);
      AddIs(a, b, i);
      AddIs(a, Add(b, c), i);
      AddIs(b, c, i);
    }
  }

  lemma AddSelf(a: Poly)
    ensures Add(a, a) == {} && Add(a, {}) == a && Add({}, a) == a
  {
  }

  /** Sums in another order. */
  lemma AddSwap(a: Poly, b: Poly, c: Poly, d: Poly)
    ensures Add(Add(a, b), Add(c, d)) == Add(Add(a, c), Add(b, d))
  {
    hide Add;
    AddAssoc(a, b, Add(c, d));
    AddAssoc(b, c, d);
    AddComm(b, c);
    AddAssoc(c, b, d);
    AddAssoc(a, c, Add(b, d));
  }

  lemma TimesXIs(a: Poly, i: nat)
    ensures i in TimesX(a) <==> i > 0 && i - 1 in a
  {
    if i > 0 && i - 1 in a {
      assert (i - 1) + 1 == i;
    }
  }

  lemma TimesXLinear(a: Poly, b: Poly)
    ensures TimesX(Add(a, b)) == Add(TimesX(a), TimesX(b)) && TimesX({}) == {}
  {
    forall i: nat ensures i in TimesX(Add(a, b)) <==> i in Add(TimesX(a), TimesX(b)) {
      TimesXIs(Add(a, b), i);
      TimesXIs(a, i);
      TimesXIs(b, i);
      AddIs(TimesX(a), TimesX(b), i);
      if i > 0 {
        AddIs(a, b, i - 1);
      }
    }
  }

  lemma {:induction false} ShiftLinear(a: Poly, b: Poly, n: nat)
    ensures Shift(Add(a, b), n) == Add(Shift(a, n), Shift(b, n))
  {
    hide Add, TimesX;
    if n > 0 {
      ShiftLinear(a, b, n - 1);
      TimesXLinear(Shift(a, n - 1), Shift(b, n - 1));
    }
  }

  lemma {:induction false} ShiftTwice(a: Poly, m: nat, n: nat)
    ensures Shift(Shift(a, m), n) == Shift(a, m + n)
  {
    if n > 0 {
      ShiftTwice(a, m, n - 1);
    }
  }

  lemma TimesNext(q: seq<bool>, b: bool, g: Poly)
    ensures Times(q + [b], g) == Add(TimesX(Times(q, g)), Term(b, g))
  {
    assert (q + [b])[..|q|] == q;
  }

  /** Multiples of g are closed under addition; the shorter factor is filled up with zeros. */
  function Aligned(q: seq<bool>, n: nat): (r: seq<bool>)
    ensures |r| == |q| + n
  {
    seq(n, _ => false) + q
  }

  lemma {:induction false} AlignedTimes(q: seq<bool>, n: nat, g: Poly)
    ensures Times(Aligned(q, n), g) == Times(q, g)
    decreases |q| + n
  {
    hide Add, TimesX, Term;
    var r := Aligned(q, n);
    if q != [] {
      assert r[..|r| - 1] == Aligned(q[..|q| - 1], n);
      AlignedTimes(q[..|q| - 1], n, g);
    } else if n > 0 {
      assert r[..|r| - 1] == Aligned([], n - 1);
      AlignedTimes([], n - 1, g);
      NothingAdded(g);
    }
  }

  lemma NothingAdded(g: Poly)
    ensures Add(TimesX({}), Term(false, g)) == {}
  {
  }

  function XorBits(p: seq<bool>, q: seq<bool>): (r: seq<bool>)
    requires |p| == |q|
    ensures |r| == |p|
  {
    seq(|p|, i requires 0 <= i < |p| => p[i] != q[i])
  }

  lemma {:induction false} TimesAdds(p: seq<bool>, q: seq<bool>, g: Poly)
    requires |p| == |q|
    ensures Times(XorBits(p, q), g) == Add(Times(p, g), Times(q, g))
    decreases |p|
  {
    hide Add, TimesX, Term;
    if p == [] {
      AddSelf({});
    } else {
      var n := |p| - 1;
      assert XorBits(p, q)[..n] == XorBits(p[..n], q[..n]);
      TimesAdds(p[..n], q[..n], g);
      TimesXLinear(Times(p[..n], g), Times(q[..n], g));
      TermsAdd(p[n], q[n], g);
      AddSwap(TimesX(Times(p[..n], g)), TimesX(Times(q[..n], g)), Term(p[n], g), Term(q[n], g));
    }
  }

  lemma TermsAdd(a: bool, b: bool, g: Poly)
    ensures Term(a != b, g) == Add(Term(a, g), Term(b, g))
  {
    AddSelf(g);
  }

  lemma SumOfMultiples(p: seq<bool>, q: seq<bool>, g: Poly) returns (r: seq<bool>)
    ensures Times(r, g) == Add(Times(p, g), Times(q, g))
  {
    var m, n := if |p| < |q| then |q| - |p| else 0, if |q| < |p| then |p| - |q| else 0;
    AlignedTimes(p, m, g);
    AlignedTimes(q, n, g);
    r := XorBits(Aligned(p, m), Aligned(q, n));
    TimesAdds(Aligned(p, m), Aligned(q, n), g);
  }

  /** A multiple of g that is not zero has a term at least of the degree of g. */
  lemma {:induction false} MultipleIsLarge(q: seq<bool>, g: Poly, d: nat) returns (i: nat)
    requires d in g && Below(g, d + 1) && Times(q, g) != {}
    ensures i in Times(q, g) && i >= d
    decreases |q|
  {
    var n := |q| - 1;
    var a := Times(q[..n], g);
    if a == {} {
      i := d;
    } else {
      var j := MultipleIsLarge(q[..n], g, d);
      i := j + 1;
      TimesXIs(a, i);
      AddIs(TimesX(a), Term(q[n], g), i);
    }
  }

  /** There is only one remainder. */
  lemma RemainderUnique(a: Poly, g: Poly, d: nat, r: Poly, s: Poly)
    requires d in g && Below(g, d + 1) && IsRemainder(a, g, d, r) && IsRemainder(a, g, d, s)
    ensures r == s
  {
    var p :| Add(a, r) == Times(p, g);
    var q :| Add(a, s) == Times(q, g);
    var t := SumOfMultiples(p, q, g);
    AddSwap(a, r, a, s);
    AddSelf(a);
    AddSelf(Add(r, s));
    assert Times(t, g) == Add(r, s);
    if Add(r, s) != {} {
      var i := MultipleIsLarge(t, g, d);
      AddIs(r, s, i);
      assert false;
    }
    forall i: nat ensures i in r <==> i in s {
      AddIs(r, s, i);
    }
  }

  // ---- One more byte ----

  lemma {:induction false} ShiftedMultiple(q: seq<bool>, g: Poly, n: nat) returns (t: seq<bool>)
    ensures Times(t, g) == Shift(Times(q, g), n)
  {
    hide Add, TimesX, Times;
    if n == 0 {
      t := q;
    } else {
      var u := ShiftedMultiple(q, g, n - 1);
      t := u + [false];
      TimesNext(u, false, g);
      AddSelf(TimesX(Times(u, g)));
    }
  }

  /** The register r with b added at its top is divided further. */
  lemma NextByte(a: Poly, r: Poly, b: Poly, r': Poly, q: seq<bool>, q': seq<bool>, g: Poly, d: nat) returns (t: seq<bool>)
    requires d >= 8 && Add(a, r) == Times(q, g)
    requires Add(Shift(Add(r, Shift(b, d - 8)), 8), r') == Times(q', g)
    ensures Add(Add(Shift(a, 8), Shift(b, d)), r') == Times(t, g)
  {
    hide Add, TimesX, Times, Shift;
    var x, y, z := Shift(a, 8), Shift(r, 8), Shift(b, d);
    ShiftLinear(r, Shift(b, d - 8), 8);
    ShiftTwice(b, d - 8, 8);
    ShiftLinear(a, r, 8);
    var u := ShiftedMultiple(q, g, 8);
    t := SumOfMultiples(u, q', g);
    AddAssoc(y, z, r');
    AddAssoc(x, y, Add(y, Add(z, r')));
    AddAssoc(y, y, Add(z, r'));
    AddSelf(y);
    AddSelf(Add(z, r'));
    AddAssoc(x, z, r');
  }

  /** One step of a register: the term shifted out selects whether g is taken away. */
  lemma NextStep(a: Poly, r: Poly, out: bool, q: seq<bool>, g: Poly)
    requires Add(a, r) == Times(q, g)
    ensures Add(TimesX(a), Add(TimesX(r), Term(out, g))) == Times(q + [out], g)
  {
    hide Add, TimesX, Times, Term;
    TimesXLinear(a, r);
    AddAssoc(TimesX(a), TimesX(r), Term(out, g));
    TimesNext(q, out, g);
  }

  // ---- CRC-8, least significant bit first ----

  /** x^8 + x^5 + x^4 + 1. */
  const G8: Poly := {8, 5, 4, 0}

  /** Bit j of a byte. */
  predicate Bit8(c: bv8, j: nat)
    requires j < 8
  {
    match j
    case 0 => c & 0x01 != 0
    case 1 => c & 0x02 != 0
    case 2 => c & 0x04 != 0
    case 3 => c & 0x08 != 0
    case 4 => c & 0x10 != 0
    case 5 => c & 0x20 != 0
    case 6 => c & 0x40 != 0
    case 7 => c & 0x80 != 0
  }

  /** The bits of a byte as coefficients; the least significant one is that of x^7. */
  function Reversed8(c: bv8): Poly {
    set i: nat | i < 8 && Coefficient8(c, i)
  }

  predicate Coefficient8(c: bv8, i: nat)
    requires i < 8
  {
    Bit8(c, 7 - i)
  }

  /** The bits of a message in the order they are sent, the last one the coefficient of 1. */
  function Message8(s: seq<bv8>): Poly {
    if s == [] then {} else Add(Shift(Message8(s[..|s| - 1]), 8), Reversed8(s[|s| - 1]))
  }

  lemma HalfBit(c: bv8, j: nat)
    requires j < 8
    ensures Bit8(Half8(c), j) <==> j < 7 && Bit8(c, j + 1)
  {
    match j { case 0 => case 1 => case 2 => case 3 => case 4 => case 5 => case 6 => case 7 => }
  }

  lemma XorBit(a: bv8, b: bv8, j: nat)
    requires j < 8
    ensures Bit8(Xor8(a, b), j) <==> Bit8(a, j) != Bit8(b, j)
  {
    match j { case 0 => case 1 => case 2 => case 3 => case 4 => case 5 => case 6 => case 7 => }
  }

  lemma PolyBit(j: nat)
    requires j < 8
    ensures Bit8(POLY8, j) <==> j == 7 || j == 3 || j == 2
  {
    match j { case 0 => case 1 => case 2 => case 3 => case 4 => case 5 => case 6 => case 7 => }
  }

  lemma LowestBit(c: bv8)
    ensures Bit8(c, 0) <==> Odd8(c)
  {
  }

  lemma Reversed8Adds(a: bv8, b: bv8)
    ensures Reversed8(Xor8(a, b)) == Add(Reversed8(a), Reversed8(b))
  {
    hide Xor8, Bit8;
    forall i: nat ensures i in Reversed8(Xor8(a, b)) <==> i in Add(Reversed8(a), Reversed8(b)) {
      AddIs(Reversed8(a), Reversed8(b), i);
      if i < 8 {
        XorBit(a, b, 7 - i);
      }
    }
  }

  /** One shift of the register is one step of the division. */
  lemma Shift8Divides(c: bv8)
    ensures Reversed8(Shift8(c)) == Add(TimesX(Reversed8(c)), Term(Odd8(c), G8))
  {
    hide Xor8, Bit8, Half8, Odd8, Add, TimesX;
    forall i: nat ensures i in Reversed8(Shift8(c)) <==> i in Add(TimesX(Reversed8(c)), Term(Odd8(c), G8)) {
      Shift8Bit(c, i);
    }
  }

  lemma Shift8Bit(c: bv8, i: nat)
    ensures i in Reversed8(Shift8(c)) <==> i in Add(TimesX(Reversed8(c)), Term(Odd8(c), G8))
  {
    hide Xor8, Bit8, Half8, Odd8, Add, TimesX;
    AddIs(TimesX(Reversed8(c)), Term(Odd8(c), G8), i);
    TimesXIs(Reversed8(c), i);
    LowestBit(c);
    if i < 8 {
      HalfBit(c, 7 - i);
      XorBit(Half8(c), POLY8, 7 - i);
      PolyBit(7 - i);
    }
  }

  lemma {:induction false} Shifts8Divide(c: bv8, n: nat) returns (q: seq<bool>)
    ensures Add(Shift(Reversed8(c), n), Reversed8(Shifts8(c, n))) == Times(q, G8)
  {
    hide Shift8, Reversed8, Add, TimesX, Odd8;
    if n == 0 {
      q := [];
      AddSelf(Reversed8(c));
    } else {
      var p := Shifts8Divide(c, n - 1);
      var d := Shifts8(c, n - 1);
      Shift8Divides(d);
      NextStep(Shift(Reversed8(c), n - 1), Reversed8(d), Odd8(d), p, G8);
      q := p + [Odd8(d)];
    }
  }

  lemma {:induction false} Crc8Divides(s: seq<bv8>) returns (q: seq<bool>)
    ensures Add(Shift(Message8(s), 8), Reversed8(Crc8(s))) == Times(q, G8)
  {
    if s == [] {
      q := [];
      NoRegister();
    } else {
      hide Reversed8, Add, TimesX, Times, Shift, Shifts8, Xor8;
      var init, b := s[..|s| - 1], s[|s| - 1];
      var c := Crc8(init);
      var p := Crc8Divides(init);
      var p' := Shifts8Divide(Xor8(c, b), 8);
      Reversed8Adds(c, b);
      ShiftNone(Reversed8(b));
      q := NextByte(Shift(Message8(init), 8), Reversed8(c), Reversed8(b), Reversed8(Crc8(s)), p, p', G8, 8);
      ShiftLinear(Shift(Message8(init), 8), Reversed8(b), 8);
    }
  }

  lemma NoRegister()
    ensures Add(Shift({}, 8), Reversed8(0)) == {}
  {
    ShiftNothing(8);
    forall i: nat ensures i !in Reversed8(0) {
      if i < 8 {
        match i { case 0 => case 1 => case 2 => case 3 => case 4 => case 5 => case 6 => case 7 => }
      }
    }
  }

  lemma {:induction false} ShiftNothing(n: nat)
    ensures Shift({}, n) == {}
  {
    if n > 0 {
      ShiftNothing(n - 1);
    }
  }

  lemma ShiftNone(a: Poly)
    ensures Shift(a, 0) == a
  {
  }

  /** The checksum is the remainder of the message times x^8, divided by x^8 + x^5 + x^4 + 1, and nothing else is. */
  lemma Crc8IsRemainder(s: seq<bv8>, c: bv8)
    ensures c == Crc8(s) <==> IsRemainder(Shift(Message8(s), 8), G8, 8, Reversed8(c))
  {
    hide Crc8, Message8, Shift, Add, Times, Bit8;
    var q := Crc8Divides(s);
    assert IsRemainder(Shift(Message8(s), 8), G8, 8, Reversed8(Crc8(s)));
    if IsRemainder(Shift(Message8(s), 8), G8, 8, Reversed8(c)) {
      RemainderUnique(Shift(Message8(s), 8), G8, 8, Reversed8(c), Reversed8(Crc8(s)));
      SameBits(c, Crc8(s));
    }
  }

  lemma SameBits(c: bv8, d: bv8)
    requires Reversed8(c) == Reversed8(d)
    ensures c == d
  {
    forall j: nat | j < 8 ensures Bit8(c, j) <==> Bit8(d, j) {
      assert Coefficient8(c, 7 - j) <==> 7 - j in Reversed8(c);
      assert Coefficient8(d, 7 - j) <==> 7 - j in Reversed8(d);
    }
    BitsDetermine(c, d);
  }

  lemma BitsDetermine(c: bv8, d: bv8)
    requires forall j: nat | j < 8 :: Bit8(c, j) <==> Bit8(d, j)
    ensures c == d
  {
    assert Bit8(c, 0) == Bit8(d, 0) && Bit8(c, 1) == Bit8(d, 1) && Bit8(c, 2) == Bit8(d, 2) && Bit8(c, 3) == Bit8(d, 3);
    assert Bit8(c, 4) == Bit8(d, 4) && Bit8(c, 5) == Bit8(d, 5) && Bit8(c, 6) == Bit8(d, 6) && Bit8(c, 7) == Bit8(d, 7);
  }

  // ---- CRC-16, most significant bit first ----

  /** x^16 + x^12 + x^5 + 1. */
  const G16: Poly := {16, 12, 5, 0}

  /** Bit j of a 16-bit register. */
  predicate Bit16(c: bv16, j: nat)
    requires j < 16
  {
    match j
    case 0 => c & 0x0001 != 0
    case 1 => c & 0x0002 != 0
    case 2 => c & 0x0004 != 0
    case 3 => c & 0x0008 != 0
    case 4 => c & 0x0010 != 0
    case 5 => c & 0x0020 != 0
    case 6 => c & 0x0040 != 0
    case 7 => c & 0x0080 != 0
    case 8 => c & 0x0100 != 0
    case 9 => c & 0x0200 != 0
    case 10 => c & 0x0400 != 0
    case 11 => c & 0x0800 != 0
    case 12 => c & 0x1000 != 0
    case 13 => c & 0x2000 != 0
    case 14 => c & 0x4000 != 0
    case 15 => c & 0x8000 != 0
  }

  function Bits16(c: bv16): Poly {
    set i: nat | i < 16 && Bit16(c, i)
  }

  function Bits8(c: bv8): Poly {
    set i: nat | i < 8 && Bit8(c, i)
  }

  /** x^15 + ... + 1, what the register holds before the first byte. */
  function Ones16(): Poly {
    {0, 1, 2, 3, 4, 5, 6, 7, 8, 9, 10, 11, 12, 13, 14, 15}
  }

  /** The bits of the message behind sixteen ones, all of it times x^16. */
  function Message16(s: seq<bv8>): Poly {
    if s == [] then Ones16() else Add(Shift(Message16(s[..|s| - 1]), 8), Shift(Bits8(s[|s| - 1]), 16))
  }

  function Double16(c: bv16): bv16 { c << 1 }

  function Xor16(a: bv16, b: bv16): bv16 { a ^ b }

  lemma DoubleBit(c: bv16, j: nat)
    requires j < 16
    ensures Bit16(Double16(c), j) <==> j > 0 && Bit16(c, j - 1)
  {
    match j {
      case 0 => case 1 => case 2 => case 3 => case 4 => case 5 => case 6 => case 7 =>
      case 8 => case 9 => case 10 => case 11 => case 12 => case 13 => case 14 => case 15 =>
    }
  }

  lemma XorBit16(a: bv16, b: bv16, j: nat)
    requires j < 16
    ensures Bit16(Xor16(a, b), j) <==> Bit16(a, j) != Bit16(b, j)
  {
    match j {
      case 0 => case 1 => case 2 => case 3 => case 4 => case 5 => case 6 => case 7 =>
      case 8 => case 9 => case 10 => case 11 => case 12 => case 13 => case 14 => case 15 =>
    }
  }

  lemma PolyBit16(j: nat)
    requires j < 16
    ensures Bit16(0x1021, j) <==> j == 12 || j == 5 || j == 0
  {
    match j {
      case 0 => case 1 => case 2 => case 3 => case 4 => case 5 => case 6 => case 7 =>
      case 8 => case 9 => case 10 => case 11 => case 12 => case 13 => case 14 => case 15 =>
    }
  }

  lemma HighBit(b: bv8, j: nat)
    requires j < 16
    ensures Bit16(High16(b), j) <==> j >= 8 && Bit8(b, j - 8)
  {
    match j {
      case 0 => case 1 => case 2 => case 3 => case 4 => case 5 => case 6 => case 7 =>
      case 8 => case 9 => case 10 => case 11 => case 12 => case 13 => case 14 => case 15 =>
    }
  }

  lemma Shift16Is(c: bv16)
    ensures Shift16(c) == if Bit16(c, 15) then Xor16(Double16(c), 0x1021) else Double16(c)
  {
  }

  lemma AddHighIs(c: bv16, b: bv8)
    ensures AddHigh(c, b) == Xor16(c, High16(b))
  {
    hide High16;
  }

  lemma Bits16Adds(a: bv16, b: bv16)
    ensures Bits16(Xor16(a, b)) == Add(Bits16(a), Bits16(b))
  {
    hide Xor16, Bit16;
    forall i: nat ensures i in Bits16(Xor16(a, b)) <==> i in Add(Bits16(a), Bits16(b)) {
      AddIs(Bits16(a), Bits16(b), i);
      if i < 16 {
        XorBit16(a, b, i);
      }
    }
  }

  lemma HighBits(b: bv8)
    ensures Bits16(High16(b)) == Shift(Bits8(b), 8)
  {
    hide High16, Bit16, Bit8, Shift;
    forall i: nat ensures i in Bits16(High16(b)) <==> i in Shift(Bits8(b), 8) {
      ShiftIs(Bits8(b), 8, i);
      if i < 16 {
        HighBit(b, i);
      }
    }
  }

  lemma {:induction false} ShiftIs(a: Poly, n: nat, i: nat)
    ensures i in Shift(a, n) <==> i >= n && i - n in a
  {
    hide TimesX;
    if n > 0 {
      TimesXIs(Shift(a, n - 1), i);
      if i > 0 {
        ShiftIs(a, n - 1, i - 1);
      }
    }
  }

  lemma Shift16Bit(c: bv16, i: nat)
    ensures i in Bits16(Shift16(c)) <==> i in Add(TimesX(Bits16(c)), Term(Bit16(c, 15), G16))
  {
    hide Xor16, Bit16, Double16, Shift16, Add, TimesX;
    AddIs(TimesX(Bits16(c)), Term(Bit16(c, 15), G16), i);
    TimesXIs(Bits16(c), i);
    Shift16Is(c);
    if i < 16 {
      DoubleBit(c, i);
      XorBit16(Double16(c), 0x1021, i);
      PolyBit16(i);
    }
  }

  lemma Shift16Divides(c: bv16)
    ensures Bits16(Shift16(c)) == Add(TimesX(Bits16(c)), Term(Bit16(c, 15), G16))
  {
    hide Bit16, Shift16, Add, TimesX;
    forall i: nat ensures i in Bits16(Shift16(c)) <==> i in Add(TimesX(Bits16(c)), Term(Bit16(c, 15), G16)) {
      Shift16Bit(c, i);
    }
  }

  lemma {:induction false} Shifts16Divide(c: bv16, n: nat) returns (q: seq<bool>)
    ensures Add(Shift(Bits16(c), n), Bits16(Shifts16(c, n))) == Times(q, G16)
  {
    hide Shift16, Bits16, Add, TimesX, Bit16;
    if n == 0 {
      q := [];
      AddSelf(Bits16(c));
    } else {
      var p := Shifts16Divide(c, n - 1);
      var d := Shifts16(c, n - 1);
      Shift16Divides(d);
      NextStep(Shift(Bits16(c), n - 1), Bits16(d), Bit16(d, 15), p, G16);
      q := p + [Bit16(d, 15)];
    }
  }

  lemma FullRegister()
    ensures Bits16(0xFFFF) == Ones16()
  {
    forall i: nat | i < 16 ensures Bit16(0xFFFF, i) {
      match i {
        case 0 => case 1 => case 2 => case 3 => case 4 => case 5 => case 6 => case 7 =>
        case 8 => case 9 => case 10 => case 11 => case 12 => case 13 => case 14 => case 15 =>
      }
    }
  }

  lemma {:induction false} Crc16Divides(s: seq<bv8>) returns (q: seq<bool>)
    ensures Add(Message16(s), Bits16(Crc16(s))) == Times(q, G16)
  {
    if s == [] {
      q := [];
      FullRegister();
      AddSelf(Ones16());
    } else {
      hide Bits16, Bits8, Add, TimesX, Times, Shift, Shifts16, AddHigh, Xor16, High16;
      var init, b := s[..|s| - 1], s[|s| - 1];
      var c := Crc16(init);
      var p := Crc16Divides(init);
      var p' := Shifts16Divide(AddHigh(c, b), 8);
      AddHighIs(c, b);
      Bits16Adds(c, High16(b));
      HighBits(b);
      q := NextByte(Message16(init), Bits16(c), Bits8(b), Bits16(Crc16(s)), p, p', G16, 16);
    }
  }

  /** The checksum is the remainder of the message behind sixteen ones, times x^16, by x^16 + x^12 + x^5 + 1. */
  lemma Crc16IsRemainder(s: seq<bv8>, c: bv16)
    ensures c == Crc16(s) <==> IsRemainder(Message16(s), G16, 16, Bits16(c))
  {
    hide Crc16, Message16, Add, Times, Bit16;
    var q := Crc16Divides(s);
    assert IsRemainder(Message16(s), G16, 16, Bits16(Crc16(s)));
    if IsRemainder(Message16(s), G16, 16, Bits16(c)) {
      RemainderUnique(Message16(s), G16, 16, Bits16(c), Bits16(Crc16(s)));
      SameBits16(c, Crc16(s));
    }
  }

  lemma SameBits16(c: bv16, d: bv16)
    requires Bits16(c) == Bits16(d)
    ensures c == d
  {
    forall j: nat | j < 16 ensures Bit16(c, j) <==> Bit16(d, j) {
      assert Bit16(c, j) <==> j in Bits16(c);
      assert Bit16(d, j) <==> j in Bits16(d);
    }
    Bits16Determine(c, d);
  }

  lemma LowBits(c: bv16, d: bv16)
    requires Bit16(c, 0) == Bit16(d, 0) && Bit16(c, 1) == Bit16(d, 1) && Bit16(c, 2) == Bit16(d, 2) && Bit16(c, 3) == Bit16(d, 3)
    requires Bit16(c, 4) == Bit16(d, 4) && Bit16(c, 5) == Bit16(d, 5) && Bit16(c, 6) == Bit16(d, 6) && Bit16(c, 7) == Bit16(d, 7)
    ensures (c ^ d) & 0x00FF == 0
  {
  }

  lemma HighestBits(c: bv16, d: bv16)
    requires Bit16(c, 8) == Bit16(d, 8) && Bit16(c, 9) == Bit16(d, 9) && Bit16(c, 10) == Bit16(d, 10)
      && Bit16(c, 11) == Bit16(d, 11)
    requires Bit16(c, 12) == Bit16(d, 12) && Bit16(c, 13) == Bit16(d, 13)
      && Bit16(c, 14) == Bit16(d, 14) && Bit16(c, 15) == Bit16(d, 15)
    ensures (c ^ d) & 0xFF00 == 0
  {
  }

  lemma NoBits(c: bv16, d: bv16)
    requires (c ^ d) & 0x00FF == 0 && (c ^ d) & 0xFF00 == 0
    ensures c == d
  {
  }

  lemma Bits16Determine(c: bv16, d: bv16)
    requires forall j: nat | j < 16 :: Bit16(c, j) <==> Bit16(d, j)
    ensures c == d
  {
    hide Bit16;
    LowBits(c, d);
    HighestBits(c, d);
    NoBits(c, d);
  }
}
