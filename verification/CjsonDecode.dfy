/** The two loops of parse_string: when what the second one decodes fits in what the first one measured. */
module CjsonDecode {
  import opened CjsonParse
  import opened Unicode

  // ---- The measuring loop ----

  predicate Stops(s: string, p: nat) {
    CharAt(s, p) == '\"' || CharAt(s, p) == '\0'
  }

  /** What the first loop of parse_string counts. */
  function Measure(s: string, p: nat): nat
    decreases |s| - p
  {
    if Stops(s, p) then 0
    else if s[p] == '\\' then 1 + Measure(s, p + 2)
    else 1 + Measure(s, p + 1)
  }

  /** Where the first loop stops. */
  function MeasureEnd(s: string, p: nat): (e: nat)
    ensures p <= e && Stops(s, e)
    decreases |s| - p
  {
    if Stops(s, p) then p
    else if s[p] == '\\' then MeasureEnd(s, p + 2)
    else MeasureEnd(s, p + 1)
  }

  // ---- The decoding loop ----

  /** Where the second loop goes on after the character or escape at p. */
  function Next(s: string, p: nat): (q: nat)
    ensures p < q
  {
    if CharAt(s, p) != '\\' then p + 1
    else if CharAt(s, p + 1) == 'u' then UnicodeAt(s, p + 1).1
    else p + 2
  }

  /** What it decodes there. */
  function UnitAt(s: string, p: nat): string {
    if CharAt(s, p) != '\\' then [CharAt(s, p)]
    else if CharAt(s, p + 1) == 'u' then UnicodeAt(s, p + 1).0
    else [Unescape(CharAt(s, p + 1))]
  }

  lemma BodyNext(s: string, p: nat)
    ensures Stops(s, p) ==> BodyAt(s, p) == ("", p)
    ensures !Stops(s, p) ==>
      BodyAt(s, p) == (UnitAt(s, p) + BodyAt(s, Next(s, p)).0, BodyAt(s, Next(s, p)).1)
  {
    hide UnicodeAt, Unescape;
  }

  /** From p on no character or escape of the second loop steps over e. */
  predicate Within(s: string, p: nat, e: nat)
    decreases e - p
  {
    p <= e && (Stops(s, p) || (Next(s, p) <= e && Within(s, Next(s, p), e)))
  }

  /** The first loop stays in the text, and the second one does not step over the place where it stops. */
  predicate Decodable(s: string, p: nat) {
    MeasureEnd(s, p) < |s| && Within(s, p, MeasureEnd(s, p))
  }

  // ---- It fits ----

  lemma Utf8Length(c: nat)
    requires c < 0x110000
    ensures |Utf8(c)| <= 4 && (c < 0x10000 ==> |Utf8(c)| <= 3)
  {
  }

  /** Four hexadecimal digits count as four characters. */
  lemma HexMeasured(s: string, p: nat)
    requires Hex4At(s, p) != 0
    ensures Measure(s, p) == 4 + Measure(s, p + 4) && MeasureEnd(s, p) == MeasureEnd(s, p + 4)
  {
    HexPlain(s, p);
    assert Measure(s, p) == 1 + Measure(s, p + 1) && MeasureEnd(s, p) == MeasureEnd(s, p + 1);
    assert Measure(s, p + 1) == 1 + Measure(s, p + 2) && MeasureEnd(s, p + 1) == MeasureEnd(s, p + 2);
    assert Measure(s, p + 2) == 1 + Measure(s, p + 3) && MeasureEnd(s, p + 2) == MeasureEnd(s, p + 3);
    assert Measure(s, p + 3) == 1 + Measure(s, p + 4) && MeasureEnd(s, p + 3) == MeasureEnd(s, p + 4);
  }

  lemma HexPlain(s: string, p: nat)
    requires Hex4At(s, p) != 0
    ensures forall k | p <= k < p + 4 :: !Stops(s, k) && CharAt(s, k) != '\\'
  {
  }

  /** What an escape decodes to, and how much of it was measured when it decodes to something. */
  lemma UnicodeMeasured(s: string, p: nat)
    ensures var u := UnicodeAt(s, p);
      && p + 5 <= u.1 && |u.0| <= 4
      && (u.0 != "" ==> 4 <= Measure(s, p + 1) - Measure(s, u.1) && MeasureEnd(s, p + 1) == MeasureEnd(s, u.1))
  {
    hide Utf8, Hex4At, Measure, MeasureEnd;
    var u, uc := UnicodeAt(s, p), Hex4At(s, p + 1);
    if u.0 != "" {
      HexMeasured(s, p + 1);
      Utf8Length(uc);
      if u.1 != p + 5 {
        EscapeMeasured(s, p + 5);
        HexMeasured(s, p + 7);
        Utf8Length(0x10000 + (uc % 0x400) * 0x400 + Hex4At(s, p + 7) % 0x400);
      }
    }
  }

  lemma EscapeMeasured(s: string, p: nat)
    requires CharAt(s, p) == '\\'
    ensures Measure(s, p) == 1 + Measure(s, p + 2) && MeasureEnd(s, p) == MeasureEnd(s, p + 2)
  {
  }

  lemma PlainMeasured(s: string, p: nat)
    requires !Stops(s, p) && CharAt(s, p) != '\\'
    ensures Measure(s, p) == 1 + Measure(s, p + 1) && MeasureEnd(s, p) == MeasureEnd(s, p + 1)
  {
  }

  /** A place between a, where the first loop comes by, and its end: it comes by there too, or one character later. */
  lemma {:induction false} ComesBy(s: string, a: nat, y: nat)
    requires a <= y <= MeasureEnd(s, a)
    ensures
      || (MeasureEnd(s, y) == MeasureEnd(s, a) && Measure(s, y) <= Measure(s, a))
      || (MeasureEnd(s, y + 1) == MeasureEnd(s, a) && 1 + Measure(s, y + 1) <= Measure(s, a))
    decreases y - a
  {
    if a < y {
      if CharAt(s, a) != '\\' {
        PlainMeasured(s, a);
        ComesBy(s, a + 1, y);
      } else {
        EscapeMeasured(s, a);
        if a + 2 <= y {
          ComesBy(s, a + 2, y);
        }
      }
    }
  }

  /** From any place in the measured part, the second loop decodes no more than was measured behind it. */
  lemma {:induction false} LandedFits(s: string, a: nat, y: nat)
    requires var e := MeasureEnd(s, a); a <= y <= e < |s| && Within(s, y, e)
    ensures |BodyAt(s, y).0| <= Measure(s, a) && BodyAt(s, y).1 <= MeasureEnd(s, a)
    decreases |s| - y, 2
  {
    hide Within, Measure, MeasureEnd, BodyAt;
    ComesBy(s, a, y);
    if MeasureEnd(s, y) == MeasureEnd(s, a) && Measure(s, y) <= Measure(s, a) {
      AlignedFits(s, y);
    } else {
      ShiftedFits(s, y);
    }
  }

  /** The second loop stands where the first one comes by. */
  lemma {:induction false} AlignedFits(s: string, y: nat)
    requires Decodable(s, y)
    ensures |BodyAt(s, y).0| <= Measure(s, y) && BodyAt(s, y).1 <= MeasureEnd(s, y)
    decreases |s| - y, 1
  {
    hide Measure, MeasureEnd, BodyAt, UnicodeAt, Unescape;
    BodyNext(s, y);
    if !Stops(s, y) {
      if CharAt(s, y) != '\\' {
        PlainMeasured(s, y);
        LandedFits(s, y + 1, y + 1);
      } else {
        EscapeMeasured(s, y);
        if CharAt(s, y + 1) == 'u' {
          EscapeFits(s, y);
        } else {
          LandedFits(s, y + 2, y + 2);
        }
      }
    }
  }

  /** A \u escape whose digits the first loop takes one by one. */
  lemma {:induction false} EscapeFits(s: string, y: nat)
    requires CharAt(s, y) == '\\' && CharAt(s, y + 1) == 'u'
    requires var e := MeasureEnd(s, y + 2); y + 2 <= e < |s| && Within(s, y, e)
    ensures |BodyAt(s, y).0| <= Measure(s, y + 2) && BodyAt(s, y).1 <= MeasureEnd(s, y + 2)
    decreases |s| - y, 0
  {
    hide Measure, MeasureEnd, BodyAt, UnicodeAt;
    BodyNext(s, y);
    UnicodeMeasured(s, y + 1);
    var u := UnicodeAt(s, y + 1);
    if u.0 == "" {
      LandedFits(s, y + 2, u.1);
    } else {
      LandedFits(s, u.1, u.1);
    }
  }

  /** The second loop stands on the second character of an escape of the first one. */
  lemma {:induction false} ShiftedFits(s: string, y: nat)
    requires var e := MeasureEnd(s, y + 1); y + 1 <= e < |s| && Within(s, y, e)
    ensures |BodyAt(s, y).0| <= 1 + Measure(s, y + 1) && BodyAt(s, y).1 <= MeasureEnd(s, y + 1)
    decreases |s| - y, 1
  {
    hide Measure, MeasureEnd, BodyAt, UnicodeAt, Unescape;
    BodyNext(s, y);
    if !Stops(s, y) {
      if CharAt(s, y) != '\\' {
        LandedFits(s, y + 1, y + 1);
      } else if CharAt(s, y + 1) == 'u' {
        PlainMeasured(s, y + 1);
        EscapeFits(s, y);
      } else {
        LandedFits(s, y + 1, y + 2);
      }
    }
  }

  /** The decoded string fits in the measured buffer. */
  lemma BodyFits(s: string, p: nat)
    requires Decodable(s, p)
    ensures |BodyAt(s, p).0| <= Measure(s, p) && BodyAt(s, p).1 <= MeasureEnd(s, p)
  {
    AlignedFits(s, p);
  }

  // ---- When it does not fit ----

  /** The first character or escape of the second loop that steps over e. */
  function Over(s: string, p: nat, e: nat): (q: nat)
    requires p <= e && !Within(s, p, e)
    ensures p <= q <= e < Next(s, q) && !Stops(s, q)
    decreases e - p
  {
    if Next(s, p) > e then p else Over(s, Next(s, p), e)
  }

  /** What the second loop decodes on the way from p to q. */
  function DecodedTo(s: string, p: nat, q: nat): string
    decreases q - p
  {
    if p >= q || Stops(s, p) then "" else UnitAt(s, p) + DecodedTo(s, Next(s, p), q)
  }

  lemma {:induction false} DecodedParts(s: string, p: nat, e: nat)
    requires p <= e && !Within(s, p, e)
    ensures var q := Over(s, p, e);
      |BodyAt(s, p).0| == |DecodedTo(s, p, q)| + |UnitAt(s, q)| + |BodyAt(s, Next(s, q)).0|
    decreases e - p
  {
    hide BodyAt, UnitAt;
    BodyNext(s, p);
    if Next(s, p) <= e {
      DecodedParts(s, Next(s, p), e);
    }
  }

  /** A \u escape that steps over the place where the first loop stops decodes to nothing. */
  lemma CutOff(s: string, q: nat, e: nat)
    requires q < e < Next(s, q) && Stops(s, e) && CharAt(s, q) == '\\' && CharAt(s, q + 1) == 'u'
    ensures UnitAt(s, q) == "" && (Next(s, q) == q + 6 || Next(s, q) == q + 12)
  {
    hide Hex4At, Utf8;
    var uc := Hex4At(s, q + 2);
    if uc != 0 {
      HexPlain(s, q + 2);
    }
    if Hex4At(s, q + 8) != 0 {
      HexPlain(s, q + 8);
    }
  }

  /**
   Exactly when a string fits: always when the second loop does not step over the place where the first one stops;
   otherwise, when what it decoded before and what it goes on to decode behind that place are together short enough.
   */
  lemma FitsExactly(s: string, p: nat)
    requires MeasureEnd(s, p) < |s|
    ensures var e := MeasureEnd(s, p);
      |BodyAt(s, p).0| <= Measure(s, p) <==>
        || Within(s, p, e)
        || var q := Over(s, p, e);
           |DecodedTo(s, p, q)| + |UnitAt(s, q)| + |BodyAt(s, Next(s, q)).0| <= Measure(s, p)
    ensures var e := MeasureEnd(s, p);
      !Within(s, p, e) ==>
        var q := Over(s, p, e);
        CharAt(s, q) == '\\' && (CharAt(s, q + 1) == 'u' ==> UnitAt(s, q) == "")
  {
    hide BodyAt, UnitAt, Measure, MeasureEnd, Next;
    var e := MeasureEnd(s, p);
    if Within(s, p, e) {
      BodyFits(s, p);
    } else {
      DecodedParts(s, p, e);
      OnlyEscapes(s, Over(s, p, e), e);
    }
  }

  lemma OnlyEscapes(s: string, q: nat, e: nat)
    requires q <= e < Next(s, q) && Stops(s, e) && !Stops(s, q)
    ensures CharAt(s, q) == '\\' && (CharAt(s, q + 1) == 'u' ==> UnitAt(s, q) == "")
  {
    if CharAt(s, q) == '\\' && CharAt(s, q + 1) == 'u' {
      CutOff(s, q, e);
    }
  }

  // ---- Strings that do not fit ----

  function Letters(n: nat): (t: string)
    ensures |t| == n
  {
    seq(n, _ => 'A')
  }

  lemma {:induction false} LettersRead(s: string, p: nat, n: nat)
    requires p + n < |s| && s[p + n] == '\"' && forall k | p <= k < p + n :: s[k] == 'A'
    ensures BodyAt(s, p) == (s[p..p + n], p + n)
    decreases n
  {
    if n > 0 {
      LettersRead(s, p + 1, n - 1);
      assert s[p..p + n] == [s[p]] + s[p + 1..p + n];
    }
  }

  lemma NoDigits(s: string, p: nat, k: nat)
    requires p < k < p + 5 && HexValue(CharAt(s, k)) < 0
    ensures UnicodeAt(s, p) == ("", p + 5)
  {
    assert Hex4At(s, p + 1) == 0;
    hide Hex4At, Utf8;
  }

  /** A \u escape cut off by the closing quote: one character is measured, and any number more may be decoded. */
  lemma CutOffDoesNotFit(n: nat)
    ensures var s := "\\u\"AAA" + Letters(n) + "\"\0";
      && MeasureEnd(s, 0) == 2 && Measure(s, 0) == 1
      && BodyAt(s, 0) == (Letters(n), 6 + n)
  {
    var s := "\\u\"AAA" + Letters(n) + "\"\0";
    assert s[0] == '\\' && s[1] == 'u' && s[2] == '\"' && s[6 + n] == '\"';
    assert Stops(s, 2);
    hide UnicodeAt;
    NoDigits(s, 1, 2);
    LettersRead(s, 6, n);
    assert s[6..6 + n] == Letters(n);
    assert "" + Letters(n) == Letters(n);
  }

  /** The closing quote may also be taken for the second character of an escape. */
  lemma SteppedOverDoesNotFit(n: nat)
    ensures var s := "\\uabc\\\\\"" + Letters(n) + "\"\0";
      && MeasureEnd(s, 0) == 7 && Measure(s, 0) == 5
      && BodyAt(s, 0) == ("\"" + Letters(n), 8 + n)
  {
    var s := "\\uabc\\\\\"" + Letters(n) + "\"\0";
    assert s[0] == '\\' && s[1] == 'u' && s[2] == 'a' && s[3] == 'b' && s[4] == 'c' && s[5] == '\\' && s[6] == '\\';
    assert s[7] == '\"' && s[8 + n] == '\"';
    SteppedMeasure(s);
    LettersRead(s, 8, n);
    assert s[8..8 + n] == Letters(n);
    SteppedDecode(s);
  }

  lemma SteppedMeasure(s: string)
    requires |s| > 7 && s[0] == '\\' == s[5] == s[6] && s[1] == 'u' && s[7] == '\"'
    requires s[2] == 'a' && s[3] == 'b' && s[4] == 'c'
    ensures MeasureEnd(s, 0) == 7 && Measure(s, 0) == 5
  {
    assert Stops(s, 7) && MeasureEnd(s, 7) == 7 && Measure(s, 7) == 0;
    hide Measure, MeasureEnd;
    EscapeMeasured(s, 5);
    PlainMeasured(s, 4);
    PlainMeasured(s, 3);
    PlainMeasured(s, 2);
    EscapeMeasured(s, 0);
  }

  lemma SteppedDecode(s: string)
    requires |s| > 8 && s[0] == '\\' == s[5] == s[6] && s[1] == 'u' && s[7] == '\"'
    ensures BodyAt(s, 0) == ("\"" + BodyAt(s, 8).0, BodyAt(s, 8).1)
  {
    hide BodyAt, UnicodeAt;
    NoDigits(s, 1, 5);
    BodyNext(s, 0);
    BodyNext(s, 6);
    assert "" + ("\"" + BodyAt(s, 8).0) == "\"" + BodyAt(s, 8).0;
  }

  /** The string of the seven letters after an escape without digits: one character measured, four decoded. */
  lemma FourInsteadOfOne()
    ensures var s := "\\u\"AAAAAAA\"\0";
      MeasureEnd(s, 0) == 2 && Measure(s, 0) == 1 && BodyAt(s, 0) == ("AAAA", 10)
  {
    assert Letters(4) == "AAAA";
    assert "\\u\"AAAAAAA\"\0" == "\\u\"AAA" + Letters(4) + "\"\0";
    CutOffDoesNotFit(4);
  }
}
