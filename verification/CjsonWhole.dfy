/** Printed text is what the in-place minifier and the parser's loops demand, so both can be run on it. */
module CjsonWhole {
  import opened Cjson
  import opened CjsonParse
  import opened Unicode
  import opened CjsonSteps
  import opened Rfc8259
  import opened CjsonGrammar
  import opened CjsonRoundTrip
  import opened CjsonMinify
  import opened CjsonBuffers
  import opened CjsonPrint
  import opened CjsonScan
  import opened CjsonDecode

  // ---- Complete escapes ----

  /** Four characters that end neither the string nor the text. */
  predicate Units(s: string, p: nat) {
    p + 4 <= |s| && forall k | p <= k < p + 4 :: s[k] != '\"' && s[k] != '\\' && s[k] != '\0'
  }

  /** From `p` on the string body stays inside the text, and a \u escape has its four characters. */
  predicate BodyComplete(s: string, p: nat)
    decreases |s| - p
  {
    p < |s| &&
    (s[p] == '\"' || s[p] == '\0' ||
     if s[p] != '\\' then BodyComplete(s, p + 1)
     else
       p + 1 < |s| && s[p + 1] != '\0' &&
       (if s[p + 1] == 'u' then Units(s, p + 2) && BodyComplete(s, p + 6) else BodyComplete(s, p + 2)))
  }

  /** Then neither loop of parse_string goes astray. */
  lemma {:induction false} CompleteIsDecodable(s: string, p: nat)
    requires BodyComplete(s, p)
    ensures Decodable(s, p)
    decreases |s| - p
  {
    if !Stops(s, p) {
      if s[p] != '\\' {
        PlainMeasured(s, p);
        CompleteIsDecodable(s, p + 1);
      } else if s[p + 1] == 'u' {
        UnicodeComplete(s, p);
        CompleteIsDecodable(s, UnicodeAt(s, p + 1).1);
      } else {
        EscapeMeasured(s, p);
        CompleteIsDecodable(s, p + 2);
      }
    }
  }

  /** A complete \u escape is taken whole by both loops. */
  lemma UnicodeComplete(s: string, p: nat)
    requires BodyComplete(s, p) && CharAt(s, p) == '\\' && CharAt(s, p + 1) == 'u'
    ensures var q := UnicodeAt(s, p + 1).1; BodyComplete(s, q) && MeasureEnd(s, q) == MeasureEnd(s, p)
  {
    hide Utf8, Hex4At, MeasureEnd, Measure;
    UnitsMeasured(s, p);
    var q := UnicodeAt(s, p + 1).1;
    if q != p + 6 {
      UnitsMeasured(s, p + 6);
    }
  }

  lemma UnitsMeasured(s: string, p: nat)
    requires CharAt(s, p) == '\\' && Units(s, p + 2)
    ensures MeasureEnd(s, p) == MeasureEnd(s, p + 6)
  {
    EscapeMeasured(s, p);
    PlainMeasured(s, p + 2);
    PlainMeasured(s, p + 3);
    PlainMeasured(s, p + 4);
    PlainMeasured(s, p + 5);
  }

  // ---- Pieces that a scan passes ----

  /** Behind every quote from i up to j a string scan stays inside the text. */
  predicate Quotes(s: string, i: nat, j: nat) {
    forall p | i <= p < j && p < |s| && s[p] == '\"' :: BodyComplete(s, p + 1)
  }

  /** The piece t of the text at i: whatever scan gets through what follows it gets through it as well. */
  predicate SoundAt(s: string, i: nat, t: string) {
    && (Closed(s, i + |t|) ==> Closed(s, i))
    && (BodyComplete(s, i + |t|) ==> BodyComplete(s, i) && Quotes(s, i, i + |t|))
  }

  /** The same of a piece inside a string. */
  predicate SoundInside(s: string, i: nat, t: string) {
    && (ClosedString(s, i + |t|) ==> ClosedString(s, i))
    && (BodyComplete(s, i + |t|) ==> BodyComplete(s, i) && Quotes(s, i, i + |t|))
  }

  ghost predicate Sound(t: string) {
    forall s: string, i: nat | StartsWith(s, i, t) :: SoundAt(s, i, t)
  }

  ghost predicate SoundBody(t: string) {
    forall s: string, i: nat | StartsWith(s, i, t) :: SoundInside(s, i, t)
  }

  lemma SoundAppend(a: string, b: string)
    requires Sound(a) && Sound(b)
    ensures Sound(a + b)
  {
    hide Closed, BodyComplete, StartsWith;
    forall s: string, i: nat | StartsWith(s, i, a + b) ensures SoundAt(s, i, a + b) {
      Parts(s, i, a, b);
      assert SoundAt(s, i, a) && SoundAt(s, i + |a|, b);
    }
  }

  lemma BodyAppend(a: string, b: string)
    requires SoundBody(a) && SoundBody(b)
    ensures SoundBody(a + b)
  {
    hide ClosedString, BodyComplete, StartsWith;
    forall s: string, i: nat | StartsWith(s, i, a + b) ensures SoundInside(s, i, a + b) {
      Parts(s, i, a, b);
      assert SoundInside(s, i, a) && SoundInside(s, i + |a|, b);
    }
  }

  /** Characters that mean nothing to either scan. */
  predicate Quiet(t: string) {
    forall k | 0 <= k < |t| :: t[k] != '\0' && t[k] != '/' && t[k] != '\"' && t[k] != '\\'
  }

  lemma CharSound(c: char)
    requires Quiet([c])
    ensures Sound([c])
  {
    assert [c][0] == c;
    forall s: string, i: nat | StartsWith(s, i, [c]) ensures SoundAt(s, i, [c]) {
      First(s, i, [c]);
    }
  }

  lemma EmptySound()
    ensures Sound("") && SoundBody("")
  {
    hide Closed, BodyComplete, ClosedString;
  }

  lemma {:induction false} QuietSound(t: string)
    requires Quiet(t)
    ensures Sound(t)
    decreases |t|
  {
    hide Sound;
    if t == "" {
      EmptySound();
    } else {
      assert [t[0]] + t[1..] == t;
      CharSound(t[0]);
      QuietSound(t[1..]);
      SoundAppend([t[0]], t[1..]);
    }
  }

  // ---- Strings ----

  lemma PieceSound(p: Piece)
    requires GoodPiece(p)
    ensures SoundBody(PieceText(p))
  {
    var e := PieceText(p);
    forall s: string, i: nat | StartsWith(s, i, e) ensures SoundInside(s, i, e) {
      First(s, i, e);
      match p
      case Raw(_) =>
      case Short(k) => ShortInside(s, i, k);
      case Unit(_, _, _, _) => UnitInside(s, i, p);
    }
  }

  lemma ShortInside(s: string, i: nat, k: Letter)
    requires StartsWith(s, i, ['\\', LETTERS[k]])
    ensures SoundInside(s, i, ['\\', LETTERS[k]])
  {
    Second(s, i, ['\\', LETTERS[k]], 0);
    Second(s, i, ['\\', LETTERS[k]], 1);
    match k { case 0 => case 1 => case 2 => case 3 => case 4 => case 5 => case 6 => case 7 => }
  }

  lemma UnitInside(s: string, i: nat, p: Piece)
    requires p.Unit? && StartsWith(s, i, PieceText(p))
    ensures SoundInside(s, i, PieceText(p))
  {
    var e := PieceText(p);
    hide HexChar;
    HexRead(p.a);
    HexRead(p.b);
    HexRead(p.c);
    HexRead(p.d);
    Second(s, i, e, 0);
    Second(s, i, e, 1);
    Second(s, i, e, 2);
    Second(s, i, e, 3);
    Second(s, i, e, 4);
    Second(s, i, e, 5);
    assert ClosedString(s, i + 6) ==> ClosedString(s, i + 5);
    assert ClosedString(s, i + 5) ==> ClosedString(s, i + 4);
    assert ClosedString(s, i + 4) ==> ClosedString(s, i + 3);
    assert ClosedString(s, i + 3) ==> ClosedString(s, i + 2);
    assert Units(s, i + 2);
  }

  lemma {:induction false} BodySound(ps: seq<Piece>)
    requires GoodBody(ps)
    ensures SoundBody(BodyText(ps))
  {
    hide SoundBody, PieceText, GoodPiece;
    if ps == [] {
      EmptySound();
    } else {
      PieceSound(ps[0]);
      BodySound(ps[1..]);
      BodyAppend(PieceText(ps[0]), BodyText(ps[1..]));
    }
  }

  lemma QuotedSound(ps: seq<Piece>)
    requires GoodBody(ps)
    ensures Sound(QuotedText(ps))
  {
    hide BodyText, GoodBody;
    BodySound(ps);
    var e := BodyText(ps);
    forall s: string, i: nat | StartsWith(s, i, QuotedText(ps)) ensures SoundAt(s, i, QuotedText(ps)) {
      Parts(s, i, "\"", e + "\"");
      First(s, i, "\"");
      Parts(s, i + 1, e, "\"");
      First(s, i + 1 + |e|, "\"");
      assert SoundInside(s, i + 1, e);
    }
  }

  // ---- Values ----

  lemma WhiteQuiet(w: string)
    requires White(w)
    ensures Quiet(w)
  {
    forall k | 0 <= k < |w| ensures w[k] != '\0' && w[k] != '/' && w[k] != '\"' && w[k] != '\\' {
      assert w[k] in WHITE;
    }
  }

  lemma WhiteSound(w: string)
    requires White(w)
    ensures Sound(w)
  {
    hide Sound, Quiet, White;
    WhiteQuiet(w);
    QuietSound(w);
  }

  /** Characters outside strings that a text is made of are quiet. */
  lemma MarksSound(t: string)
    requires Marks(t) && forall k | 0 <= k < |t| :: t[k] != '\\'
    ensures Sound(t)
  {
    hide Sound;
    assert Quiet(t);
    QuietSound(t);
  }

  lemma DigitsPlain(ds: seq<Decimal>)
    ensures forall k | 0 <= k < |ds| :: DigitsText(ds)[k] != '\\'
  {
    forall k | 0 <= k < |ds| ensures DigitsText(ds)[k] != '\\' {
      DigitRead(ds[k]);
    }
  }

  lemma NumeralSound(minus: bool, digits: seq<Decimal>, frac: seq<Decimal>, exp: Exponent)
    ensures Sound(NumeralText(minus, digits, frac, exp))
  {
    hide Sound, DigitsText, Marks;
    NumeralMarks(minus, digits, frac, exp);
    DigitsPlain(digits);
    DigitsPlain(frac);
    if exp.Exponent? {
      DigitsPlain(exp.digits);
    }
    MarksSound(NumeralText(minus, digits, frac, exp));
  }

  lemma NameSound(n: Name, named: bool)
    requires GoodName(n, named)
    ensures Sound(NameText(n))
  {
    hide Sound, QuotedText, White;
    if n.Named? {
      QuotedSound(n.ps);
      WhiteSound(n.left);
      WhiteSound(n.right);
      QuietSound(":");
      SoundAppend(":", n.right);
      SoundAppend(n.left, ":" + n.right);
      SoundAppend(QuotedText(n.ps), n.left + (":" + n.right));
    } else {
      EmptySound();
    }
  }

  lemma {:induction false} TextSound(t: Tree)
    requires Good(t)
    ensures Sound(TreeText(t))
    decreases t, 0
  {
    hide Sound, QuotedText, NumeralText, White, GoodBody, GoodNumber;
    match t
    case Plain(k) =>
      QuietSound(WORDS[k]) by {
        match k { case 0 => case 1 => case 2 => }
      }
    case Numeral(minus, digits, frac, exp) => NumeralSound(minus, digits, frac, exp);
    case Quoted(ps) => QuotedSound(ps);
    case List(items, gap) => BracketedSound(items, gap, "[", "]", false);
    case Dict(items, gap) => BracketedSound(items, gap, "{", "}", true);
  }

  lemma {:induction false} BracketedSound(items: Items, gap: string, open: string, close: string, named: bool)
    requires White(gap) && GoodItems(items, named) && Quiet(open) && Quiet(close)
    ensures Sound(open + (if items.NoItems? then gap + close else ItemsText(items, close)))
    decreases items, 1
  {
    hide Sound, White, ItemsText, Quiet, GoodItems;
    QuietSound(open);
    if items.NoItems? {
      WhiteSound(gap);
      QuietSound(close);
      SoundAppend(gap, close);
      SoundAppend(open, gap + close);
    } else {
      ItemsSound(items, close, named);
      SoundAppend(open, ItemsText(items, close));
    }
  }

  lemma {:induction false} ItemsSound(items: Items, close: string, named: bool)
    requires items.Item? && GoodItems(items, named) && Quiet(close)
    ensures Sound(ItemsText(items, close))
    decreases items, 0
  {
    hide Sound, White, NameText, TreeText, Good, GoodName;
    var Item(before, name, value, after, rest) := items;
    var t := if rest.NoItems? then close else "," + ItemsText(rest, close);
    if rest.NoItems? {
      QuietSound(close);
    } else {
      QuietSound(",");
      ItemsSound(rest, close, named);
      SoundAppend(",", ItemsText(rest, close));
    }
    WhiteSound(before);
    WhiteSound(after);
    NameSound(name, named);
    TextSound(value);
    var v := TreeText(value);
    SoundAppend(after, t);
    SoundAppend(v, after + t);
    SoundAppend(NameText(name), v + (after + t));
    SoundAppend(before, NameText(name) + (v + (after + t)));
  }

  /** A JSON text, terminated, is closed and complete, so that neither the minifier nor the parser's loops leave it. */
  lemma TextIsWhole(before: string, t: Tree, after: string, rest: string)
    requires White(before) && White(after) && Good(t)
    ensures Closed(before + (TreeText(t) + after) + "\0" + rest, 0)
    ensures Complete(before + (TreeText(t) + after) + "\0")
  {
    hide TreeText, White, Sound;
    TextSound(t);
    WhiteSound(before);
    WhiteSound(after);
    SoundAppend(TreeText(t), after);
    SoundAppend(before, TreeText(t) + after);
    SoundIsWhole(before + (TreeText(t) + after), rest);
  }

  lemma SoundIsWhole(t: string, rest: string)
    requires Sound(t)
    ensures Closed(t + "\0" + rest, 0) && Complete(t + "\0")
  {
    var s := t + "\0" + rest;
    assert s[0..|t|] == t && s[|t|] == '\0';
    assert SoundAt(s, 0, t);
    var u := t + "\0";
    assert u[0..|t|] == t && u[|t|] == '\0';
    assert SoundAt(u, 0, t);
    forall p | 0 <= p < |u| && u[p] == '\"' ensures Decodable(u, p + 1) {
      CompleteIsDecodable(u, p + 1);
    }
  }

  /** So the parser's loops read a JSON text as the tree it denotes. */
  lemma LoopsReadText(before: string, t: Tree, after: string)
    requires White(before) && White(after) && Good(t) && Simple(t)
    ensures var s := before + (TreeText(t) + after) + "\0";
      ValueSafe(s, Skip(s, 0)) && ValueAt(s, Skip(s, 0)) == Read(Meaning(t), |before| + |TreeText(t)|)
  {
    hide TreeText, White, Meaning, Good, Simple, Complete, ValueSafe, ValueAt, Skip;
    var s := before + (TreeText(t) + after) + "\0";
    TextIsWhole(before, t, after, "");
    CompleteIsSafe(s, Skip(s, 0));
    TextIsParsed(before, t, after, "\0");
    assert before + (TreeText(t) + (after + "\0")) == s;
  }

  /** Printed text, terminated, is closed and complete. */
  lemma PrintedIsWhole(v: Json, fmt: bool, rest: string)
    requires Cjson.Legal(v)
    ensures Closed(PrintValue(v, 0, fmt) + "\0" + rest, 0)
    ensures Complete(PrintValue(v, 0, fmt) + "\0")
  {
    hide PrintValue, TreeOf, TreeText, Good;
    PrintedIsText(v, 0, fmt);
    TextSound(TreeOf(v, 0, fmt));
    SoundIsWhole(PrintValue(v, 0, fmt), rest);
  }

  // ---- On buffers ----

  /** cJSON_Minify of what cJSON_Print returns leaves the unformatted print and its terminator. */
  method PrintMinified(v: Json) returns (out: array<char>)
    requires Legal(v)
    ensures fresh(out) && Text(out, PrintUnformatted(v))
  {
    hide PrintValue, Closed, Minified, Legal;
    out := PrintValueText(v, 0, true);
    ghost var t, s := Print(v), out[..];
    ghost var rest := s[|t| + 1..];
    assert s == t + "\0" + rest;
    PrintedIsWhole(v, true, rest);
    assert s[0..|t|] == t;
    ValueShrinks(s, 0, v, 0);
    EndIsEmpty(s, |t|);
    assert PrintUnformatted(v) + "" == PrintUnformatted(v);
    Minify(out);
    assert out[..] == PrintUnformatted(v) + "\0" + s[|PrintUnformatted(v)| + 1..];
  }

  lemma EndIsEmpty(s: string, i: nat)
    requires CharAt(s, i) == '\0'
    ensures Minified(s, i) == ""
  {
  }

  /** cJSON_Parse of what cJSON_Print or cJSON_PrintUnformatted returns gives the tree back. */
  method PrintThenParse(v: Json, fmt: bool) returns (r: Result<Json>)
    requires Legal(v)
    ensures r == Read(v, |PrintValue(v, 0, fmt)|)
  {
    hide PrintValue, Complete, Legal, ValueAt;
    var out := PrintValueText(v, 0, fmt);
    ghost var t := PrintValue(v, 0, fmt);
    ValueNoNul(v, 0, fmt);
    var n := StrLen(out, t);
    var s := out[..n + 1];
    assert s == t + "\0";
    PrintedIsWhole(v, fmt, "");
    assert s[0..|t|] == t && CharAt(s, |t|) == '\0';
    ValueStart(v, 0, fmt);
    First(s, 0, t);
    NoBlank(s, 0);
    ValueRoundTrip(s, 0, v, 0, fmt);
    CompleteIsSafe(s, Skip(s, 0));
    r := ParseValue(s, Skip(s, 0));
  }
}
