/** cJSON_Minify: what it keeps of a text with white space and comments, and of what was printed. */
module CjsonMinify {
  import opened Cjson
  import opened CjsonParse
  import opened CjsonSteps
  import opened Rfc8259
  import opened CjsonGrammar
  import opened CjsonRoundTrip

  predicate Space(c: char) {
    c == ' ' || c == '\t' || c == '\r' || c == '\n'
  }

  /** The newline or the end after a double-slash comment. */
  function LineEnd(s: string, i: nat): (j: nat)
    ensures i <= j && (CharAt(s, i) == '/' ==> i < j)
    decreases |s| - i
  {
    if CharAt(s, i) == '\0' || s[i] == '\n' then i else LineEnd(s, i + 1)
  }

  /** The closing star of a comment, or the end. */
  function CommentEnd(s: string, i: nat): (j: nat)
    ensures i <= j
    decreases |s| - i
  {
    if CharAt(s, i) == '\0' || (s[i] == '*' && CharAt(s, i + 1) == '/') then i else CommentEnd(s, i + 1)
  }

  /** What is kept of the text from `i` on. */
  function Minified(s: string, i: nat): string
    decreases |s| - i, 0
  {
    var c := CharAt(s, i);
    if c == '\0' then ""
    else if Space(c) then Minified(s, i + 1)
    else if c == '/' && CharAt(s, i + 1) == '/' then Minified(s, LineEnd(s, i))
    else if c == '/' && CharAt(s, i + 1) == '*' then Minified(s, CommentEnd(s, i) + 2)
    else if c == '\"' then [c] + MinifiedString(s, i + 1)
    else [c] + Minified(s, i + 1)
  }

  /** The same inside a string literal, which is kept whole. */
  function MinifiedString(s: string, i: nat): string
    decreases |s| - i, 1
  {
    var c := CharAt(s, i);
    if c == '\0' then ""
    else if c == '\"' then [c] + Minified(s, i + 1)
    else if c == '\\' then [c, CharAt(s, i + 1)] + MinifiedString(s, i + 2)
    else [c] + MinifiedString(s, i + 1)
  }

  // ---- A text in pieces ----

  /** A character outside strings, a string, white space, and the two kinds of comments. */
  datatype Lexeme = Mark(c: char) | Literal(body: string) | Blank(c: char) | Line(text: string) | Block(text: string)

  function LexText(l: Lexeme): (s: string)
    ensures |s| > 0
  {
    match l
    case Mark(c) => [c]
    case Literal(body) => "\"" + (body + "\"")
    case Blank(c) => [c]
    case Line(text) => "//" + text
    case Block(text) => "/*" + (text + "*/")
  }

  /** The text of the lexemes. */
  function Written(ls: seq<Lexeme>): string {
    if ls == [] then "" else LexText(ls[0]) + Written(ls[1..])
  }

  /** The text without white space and comments. */
  function Kept(ls: seq<Lexeme>): string {
    if ls == [] then "" else (if ls[0].Mark? || ls[0].Literal? then LexText(ls[0]) else "") + Kept(ls[1..])
  }

  /** No quote but behind a backslash. */
  predicate Shut(body: string) {
    body == "" ||
    if body[0] == '\\' then |body| >= 2 && body[1] != '\0' && Shut(body[2..])
    else body[0] != '\"' && body[0] != '\0' && Shut(body[1..])
  }

  /** Behind the character `last` nothing in the text ends a block comment. */
  predicate Open(last: char, text: string)
    decreases |text|
  {
    text == "" || (text[0] != '\0' && !(last == '*' && text[0] == '/') && Open(text[0], text[1..]))
  }

  predicate GoodLexeme(l: Lexeme) {
    match l
    case Mark(c) => c != '\0' && c != '/' && c != '\"' && c !in WHITE
    case Literal(body) => Shut(body)
    case Blank(c) => c in WHITE
    case Line(text) => forall k | 0 <= k < |text| :: text[k] != '\0' && text[k] != '\n'
    case Block(text) => Open('*', text)
  }

  /** A line comment ends before a newline, which is white space, or with the text. */
  predicate GoodLexemes(ls: seq<Lexeme>) {
    forall k | 0 <= k < |ls| :: GoodLexeme(ls[k]) && (ls[k].Line? && k + 1 < |ls| ==> ls[k + 1] == Blank('\n'))
  }

  // ---- One piece ----

  lemma SpaceIsWhite(c: char)
    ensures Space(c) <==> c in WHITE
  {
  }

  lemma {:induction false} ShutIsCopied(s: string, i: nat, body: string)
    requires Shut(body) && StartsWith(s, i, body + "\"")
    ensures MinifiedString(s, i) == (body + "\"") + Minified(s, i + |body| + 1)
    decreases |body|
  {
    hide Minified;
    if body == "" {
      assert body + "\"" == "\"";
      First(s, i, "\"");
    } else {
      First(s, i, body + "\"");
      var n := if body[0] == '\\' then 2 else 1;
      var a, b := body[..n], body[n..];
      assert body == a + b;
      Regroup(a, b, "\"");
      Parts(s, i, a, b + "\"");
      Second(s, i, a, n - 1);
      assert CharAt(s, i) == a[0] && CharAt(s, i + n - 1) == a[n - 1];
      ShutIsCopied(s, i + n, b);
      Regroup(a, b + "\"", Minified(s, i + |body| + 1));
      assert MinifiedString(s, i) == a + MinifiedString(s, i + n);
    }
  }

  lemma {:induction false} LineIsPassed(s: string, i: nat, text: string)
    requires forall k | 0 <= k < |text| :: text[k] != '\0' && text[k] != '\n'
    requires StartsWith(s, i, text)
    ensures LineEnd(s, i) == LineEnd(s, i + |text|)
    decreases |text|
  {
    if text != "" {
      First(s, i, text);
      assert text == text[..1] + text[1..];
      Parts(s, i, text[..1], text[1..]);
      LineIsPassed(s, i + 1, text[1..]);
    }
  }

  /** The scan for the end of a comment passes a character that does not end it. */
  lemma {:induction false} BlockIsPassed(s: string, i: nat, last: char, text: string)
    requires StartsWith(s, i, [last] + (text + "*/")) && last != '\0' && Open(last, text)
    ensures CommentEnd(s, i) == i + 1 + |text|
    decreases |text|
  {
    var t := text + "*/";
    Parts(s, i, [last], t);
    First(s, i, [last]);
    First(s, i + 1, t);
    Second(s, i + 1, t, 1);
    if text == "" {
      assert CommentEnd(s, i + 1) == i + 1;
    } else {
      assert t == [text[0]] + (text[1..] + "*/") && CharAt(s, i + 1) == text[0];
      BlockIsPassed(s, i + 1, text[0], text[1..]);
    }
  }

  /** One lexeme: it is kept or dropped. */
  lemma LexemeShrinks(s: string, i: nat, l: Lexeme)
    requires GoodLexeme(l) && StartsWith(s, i, LexText(l))
    requires l.Line? ==> CharAt(s, i + |LexText(l)|) == '\0' || CharAt(s, i + |LexText(l)|) == '\n'
    ensures Minified(s, i) == (if l.Mark? || l.Literal? then LexText(l) else "") + Minified(s, i + |LexText(l)|)
  {
    hide Minified, StartsWith, Shut, CommentEnd;
    match l
    case Mark(c) => CharShrinks(s, i, c);
    case Blank(c) => CharShrinks(s, i, c);
    case Literal(body) => LiteralShrinks(s, i, body);
    case Line(text) => LineShrinks(s, i, text);
    case Block(text) =>
      BlockShrinks(s, i, text);
      CommentShrinks(s, i, text + "*/", '*');
  }

  lemma LiteralShrinks(s: string, i: nat, body: string)
    requires Shut(body) && StartsWith(s, i, "\"" + (body + "\""))
    ensures Minified(s, i) == ("\"" + (body + "\"")) + Minified(s, i + 2 + |body|)
  {
    hide Shut, MinifiedString;
    Parts(s, i, "\"", body + "\"");
    First(s, i, "\"");
    ShutIsCopied(s, i + 1, body);
    Regroup("\"", body + "\"", Minified(s, i + 2 + |body|));
  }

  lemma CharShrinks(s: string, i: nat, c: char)
    requires StartsWith(s, i, [c]) && c != '\0' && c != '/' && c != '\"'
    ensures Minified(s, i) == (if c in WHITE then "" else [c]) + Minified(s, i + 1)
  {
    First(s, i, [c]);
    SpaceIsWhite(c);
    assert "" + Minified(s, i + 1) == Minified(s, i + 1);
  }

  lemma CommentShrinks(s: string, i: nat, t: string, second: char)
    requires (second == '/' || second == '*') && StartsWith(s, i, ['/', second] + t)
    ensures Minified(s, i) == "" + Minified(s, if second == '/' then LineEnd(s, i) else CommentEnd(s, i) + 2)
  {
    hide LineEnd, CommentEnd;
    First(s, i, ['/', second] + t);
    Second(s, i, ['/', second] + t, 1);
  }

  lemma LineShrinks(s: string, i: nat, text: string)
    requires forall k | 0 <= k < |text| :: text[k] != '\0' && text[k] != '\n'
    requires StartsWith(s, i, "//" + text)
    requires CharAt(s, i + 2 + |text|) == '\0' || CharAt(s, i + 2 + |text|) == '\n'
    ensures Minified(s, i) == "" + Minified(s, i + 2 + |text|)
  {
    var t := "//" + text;
    forall k | 0 <= k < |t| ensures t[k] != '\0' && t[k] != '\n' {
      assert k >= 2 ==> t[k] == text[k - 2];
    }
    LineIsPassed(s, i, t);
    assert LineEnd(s, i + |t|) == i + |t|;
    CommentShrinks(s, i, text, '/');
  }

  lemma BlockShrinks(s: string, i: nat, text: string)
    requires Open('*', text) && StartsWith(s, i, "/*" + (text + "*/"))
    ensures CommentEnd(s, i) == i + 2 + |text|
  {
    assert "/*" + (text + "*/") == ['/'] + (['*'] + (text + "*/"));
    Parts(s, i, ['/'], ['*'] + (text + "*/"));
    First(s, i, "/*" + (text + "*/"));
    Second(s, i, "/*" + (text + "*/"), 1);
    BlockIsPassed(s, i + 1, '*', text);
  }

  /** Minifying drops the white space and the comments, and nothing else. */
  lemma {:induction false} WrittenShrinks(s: string, i: nat, ls: seq<Lexeme>)
    requires GoodLexemes(ls) && StartsWith(s, i, Written(ls))
    requires var c := CharAt(s, i + |Written(ls)|); ls != [] && ls[|ls| - 1].Line? ==> c == '\0' || c == '\n'
    ensures Minified(s, i) == Kept(ls) + Minified(s, i + |Written(ls)|)
    decreases |ls|
  {
    hide Minified, LexText, StartsWith, CharAt, GoodLexeme;
    if ls == [] {
      assert "" + Minified(s, i) == Minified(s, i);
    } else {
      var x, t := LexText(ls[0]), Written(ls[1..]);
      Parts(s, i, x, t);
      if ls[0].Line? {
        AfterLine(s, i + |x|, ls[1..], t);
      }
      LexemeShrinks(s, i, ls[0]);
      WrittenShrinks(s, i + |x|, ls[1..]);
      Regroup(if ls[0].Mark? || ls[0].Literal? then x else "", Kept(ls[1..]), Minified(s, i + |x| + |t|));
    }
  }

  lemma AfterLine(s: string, j: nat, rest: seq<Lexeme>, t: string)
    requires t == Written(rest) && StartsWith(s, j, t)
    requires rest != [] ==> rest[0] == Blank('\n')
    requires rest == [] ==> CharAt(s, j) == '\0' || CharAt(s, j) == '\n'
    ensures CharAt(s, j) == '\0' || CharAt(s, j) == '\n'
  {
    if rest != [] {
      First(s, j, t);
    }
  }

  /** The star that opens a block comment may also close it. */
  lemma ShortComment()
    ensures Minified("/*/1", 0) == "1" && !Open('*', "/1")
  {
    var s := "/*/1";
    assert CommentEnd(s, 1) == 1 && CommentEnd(s, 0) == 1;
    assert Minified(s, 4) == "";
    assert Minified(s, 3) == "1";
  }

  // ---- JSON texts ----

  /** The text of a value without the white space. */
  function Compact(t: Tree): Tree {
    match t
    case List(items, _) => List(CompactItems(items), "")
    case Dict(items, _) => Dict(CompactItems(items), "")
    case _ => t
  }

  function CompactItems(items: Items): Items {
    match items
    case NoItems => NoItems
    case Item(_, name, value, _, rest) =>
      Item("", if name.Named? then Named(name.ps, "", "") else Unnamed, Compact(value), "", CompactItems(rest))
  }

  /** A text in lexemes, and what is left of it. */
  ghost predicate Shrinks(text: string, kept: string) {
    exists ls :: LooseLexemes(ls) && Written(ls) == text && Kept(ls) == kept
  }

  /** Without comments lexemes may follow each other in any order. */
  predicate LooseLexemes(ls: seq<Lexeme>) {
    forall k | 0 <= k < |ls| :: GoodLexeme(ls[k]) && !ls[k].Line?
  }

  lemma {:induction false} WrittenParts(a: seq<Lexeme>, b: seq<Lexeme>)
    ensures Written(a + b) == Written(a) + Written(b) && Kept(a + b) == Kept(a) + Kept(b)
    decreases |a|
  {
    hide LexText;
    if a == [] {
      assert a + b == b;
    } else {
      WrittenParts(a[1..], b);
      assert (a + b)[1..] == a[1..] + b;
      Regroup(LexText(a[0]), Written(a[1..]), Written(b));
      Regroup(if a[0].Mark? || a[0].Literal? then LexText(a[0]) else "", Kept(a[1..]), Kept(b));
    }
  }

  lemma ShrinksAppend(a: string, b: string, x: string, y: string)
    requires Shrinks(a, x) && Shrinks(b, y)
    ensures Shrinks(a + b, x + y)
  {
    hide Written, Kept, GoodLexeme;
    var p :| LooseLexemes(p) && Written(p) == a && Kept(p) == x;
    var q :| LooseLexemes(q) && Written(q) == b && Kept(q) == y;
    WrittenParts(p, q);
    assert LooseLexemes(p + q);
  }

  lemma OneLexeme(l: Lexeme)
    requires GoodLexeme(l) && !l.Line?
    ensures Shrinks(LexText(l), if l.Mark? || l.Literal? then LexText(l) else "")
  {
    hide LexText, GoodLexeme;
    var t, k := LexText(l), if l.Mark? || l.Literal? then LexText(l) else "";
    assert [l][1..] == [] && t + "" == t && k + "" == k;
    assert Written([]) == "" && Kept([]) == "";
    assert Written([l]) == t;
    assert Kept([l]) == k;
    assert LooseLexemes([l]);
  }

  lemma Nothing()
    ensures Shrinks("", "")
  {
    assert LooseLexemes([]) && Written([]) == "" && Kept([]) == "";
  }

  lemma {:induction false} WhiteShrinks(w: string)
    requires White(w)
    ensures Shrinks(w, "")
    decreases |w|
  {
    hide Shrinks;
    if w == "" {
      Nothing();
    } else {
      OneLexeme(Blank(w[0]));
      WhiteShrinks(w[1..]);
      ShrinksAppend([w[0]], w[1..], "", "");
      assert w == [w[0]] + w[1..] && "" + "" == "";
    }
  }

  predicate Marks(t: string) {
    forall k | 0 <= k < |t| :: GoodLexeme(Mark(t[k]))
  }

  lemma {:induction false} MarksKept(t: string)
    requires Marks(t)
    ensures Shrinks(t, t)
    decreases |t|
  {
    hide Shrinks, GoodLexeme;
    if t == "" {
      Nothing();
    } else {
      OneLexeme(Mark(t[0]));
      MarksKept(t[1..]);
      ShrinksAppend([t[0]], t[1..], [t[0]], t[1..]);
      assert t == [t[0]] + t[1..];
    }
  }

  lemma ShutParts(a: string, b: string)
    requires Shut(a) && Shut(b)
    ensures Shut(a + b)
    decreases |a|
  {
    if a == "" {
      assert a + b == b;
    } else {
      var n := if a[0] == '\\' then 2 else 1;
      ShutParts(a[n..], b);
      assert (a + b)[n..] == a[n..] + b;
    }
  }

  lemma PieceShut(p: Piece)
    requires GoodPiece(p)
    ensures Shut(PieceText(p))
  {
    var t := PieceText(p);
    match p
    case Raw(c) => assert t[1..] == "";
    case Short(k) =>
      match k { case 0 => case 1 => case 2 => case 3 => case 4 => case 5 => case 6 => case 7 => }
      LetterShut(LETTERS[k]);
    case Unit(a, b, c, d) =>
      HexRead(a);
      HexRead(b);
      HexRead(c);
      HexRead(d);
      var u := [HexChar(a), HexChar(b), HexChar(c), HexChar(d)];
      hide HexChar, Shut;
      PlainShut(u);
      LetterShut('u');
      ShutParts(['\\', 'u'], u);
      assert t == ['\\', 'u'] + u;
  }

  lemma {:induction false} PlainShut(t: string)
    requires forall k | 0 <= k < |t| :: t[k] != '\0' && t[k] != '\"' && t[k] != '\\'
    ensures Shut(t)
    decreases |t|
  {
    if t != "" {
      PlainShut(t[1..]);
    }
  }

  lemma LetterShut(c: char)
    requires c != '\0'
    ensures Shut(['\\', c])
  {
    assert ['\\', c][2..] == "";
  }

  lemma {:induction false} BodyShut(ps: seq<Piece>)
    requires GoodBody(ps)
    ensures Shut(BodyText(ps))
  {
    assert Shut("");
    hide Shut, PieceText, GoodPiece;
    if ps != [] {
      PieceShut(ps[0]);
      BodyShut(ps[1..]);
      ShutParts(PieceText(ps[0]), BodyText(ps[1..]));
    }
  }

  lemma QuotedShrinks(ps: seq<Piece>)
    requires GoodBody(ps)
    ensures Shrinks(QuotedText(ps), QuotedText(ps))
  {
    hide Shut, Shrinks;
    BodyShut(ps);
    OneLexeme(Literal(BodyText(ps)));
  }

  lemma DigitMark(d: Decimal)
    ensures GoodLexeme(Mark(DIGITS[d]))
  {
    match d { case 0 => case 1 => case 2 => case 3 => case 4 => case 5 => case 6 => case 7 => case 8 => case 9 => }
  }

  lemma DigitsMarks(ds: seq<Decimal>)
    ensures Marks(DigitsText(ds))
  {
    hide GoodLexeme;
    forall k | 0 <= k < |ds| ensures GoodLexeme(Mark(DigitsText(ds)[k])) {
      DigitMark(ds[k]);
    }
  }

  lemma MarksJoin(a: string, b: string)
    requires Marks(a) && Marks(b)
    ensures Marks(a + b)
  {
    hide GoodLexeme;
  }

  lemma SignMarks()
    ensures Marks("") && Marks("-") && Marks("+") && Marks(".") && Marks("e") && Marks("E")
    ensures Marks("[") && Marks("]") && Marks("{") && Marks("}") && Marks(",") && Marks(":")
    ensures Marks("null") && Marks("false") && Marks("true")
  {
  }

  lemma ExponentMarks(e: Exponent)
    ensures Marks(ExponentText(e))
  {
    hide Marks;
    SignMarks();
    if e.Exponent? {
      DigitsMarks(e.digits);
      var a, b := if e.upper then "E" else "e", match e.sign case Unsigned => "" case Plus => "+" case Minus => "-";
      MarksJoin(a, b);
      MarksJoin(a + b, DigitsText(e.digits));
    }
  }

  lemma NumeralMarks(minus: bool, digits: seq<Decimal>, frac: seq<Decimal>, exp: Exponent)
    ensures Marks(NumeralText(minus, digits, frac, exp))
  {
    hide Marks, ExponentText, DigitsText;
    SignMarks();
    DigitsMarks(digits);
    DigitsMarks(frac);
    ExponentMarks(exp);
    MarksJoin(".", DigitsText(frac));
    var f, e := if frac == [] then "" else "." + DigitsText(frac), ExponentText(exp);
    MarksJoin(f, e);
    MarksJoin(DigitsText(digits), f + e);
    MarksJoin(if minus then "-" else "", DigitsText(digits) + (f + e));
  }

  lemma NameShrinks(n: Name, named: bool)
    requires GoodName(n, named)
    ensures Shrinks(NameText(n), NameText(if n.Named? then Named(n.ps, "", "") else Unnamed))
  {
    hide Shrinks, QuotedText, White, Marks;
    if n.Named? {
      var q := QuotedText(n.ps);
      QuotedShrinks(n.ps);
      WhiteShrinks(n.left);
      WhiteShrinks(n.right);
      SignMarks();
      MarksKept(":");
      ShrinksAppend(":", n.right, ":", "");
      ShrinksAppend(n.left, ":" + n.right, "", ":" + "");
      ShrinksAppend(q, n.left + (":" + n.right), q, "" + (":" + ""));
    } else {
      Nothing();
    }
  }

  /** The lexemes of a value are those of its compact form and white space. */
  lemma {:induction false} TextShrinks(t: Tree)
    requires Good(t)
    ensures Shrinks(TreeText(t), TreeText(Compact(t)))
    decreases t, 0
  {
    hide Shrinks, QuotedText, NumeralText, Marks, White, GoodBody, GoodNumber;
    SignMarks();
    match t
    case Plain(k) => MarksKept(WORDS[k]);
    case Numeral(minus, digits, frac, exp) =>
      NumeralMarks(minus, digits, frac, exp);
      MarksKept(NumeralText(minus, digits, frac, exp));
    case Quoted(ps) => QuotedShrinks(ps);
    case List(items, gap) => BracketedShrinks(items, gap, "[", "]", false);
    case Dict(items, gap) => BracketedShrinks(items, gap, "{", "}", true);
  }

  lemma {:induction false} BracketedShrinks(items: Items, gap: string, open: string, close: string, named: bool)
    requires White(gap) && GoodItems(items, named) && Marks(open) && Marks(close)
    ensures Shrinks(open + (if items.NoItems? then gap + close else ItemsText(items, close)),
                    open + (if items.NoItems? then "" + close else ItemsText(CompactItems(items), close)))
    decreases items, 1
  {
    hide Shrinks, Marks, White, ItemsText, CompactItems, GoodItems;
    MarksKept(open);
    if items.NoItems? {
      WhiteShrinks(gap);
      MarksKept(close);
      ShrinksAppend(gap, close, "", close);
      ShrinksAppend(open, gap + close, open, "" + close);
    } else {
      ItemsShrink(items, close, named);
      ShrinksAppend(open, ItemsText(items, close), open, ItemsText(CompactItems(items), close));
    }
  }

  lemma {:induction false} ItemsShrink(items: Items, close: string, named: bool)
    requires items.Item? && GoodItems(items, named) && Marks(close)
    ensures Shrinks(ItemsText(items, close), ItemsText(CompactItems(items), close))
    decreases items, 0
  {
    hide Shrinks, Marks, White, NameText, TreeText, Compact, Good, GoodName;
    var Item(before, name, value, after, rest) := items;
    var short := if name.Named? then Named(name.ps, "", "") else Unnamed;
    var t, u := if rest.NoItems? then close else "," + ItemsText(rest, close),
                if rest.NoItems? then close else "," + ItemsText(CompactItems(rest), close);
    if rest.NoItems? {
      MarksKept(close);
    } else {
      SignMarks();
      MarksKept(",");
      ItemsShrink(rest, close, named);
      ShrinksAppend(",", ItemsText(rest, close), ",", ItemsText(CompactItems(rest), close));
    }
    assert ItemsText(CompactItems(items), close) == "" + (NameText(short) + (TreeText(Compact(value)) + ("" + u)));
    WhiteShrinks(before);
    WhiteShrinks(after);
    NameShrinks(name, named);
    TextShrinks(value);
    hide *;
    var v, w := TreeText(value), TreeText(Compact(value));
    ShrinksAppend(after, t, "", u);
    ShrinksAppend(v, after + t, w, "" + u);
    ShrinksAppend(NameText(name), v + (after + t), NameText(short), w + ("" + u));
    ShrinksAppend(before, NameText(name) + (v + (after + t)), "", NameText(short) + (w + ("" + u)));
  }

  /** cJSON_Minify leaves a JSON text, wherever it stands, without its white space. */
  lemma TextMinified(s: string, i: nat, t: Tree)
    requires Good(t) && StartsWith(s, i, TreeText(t))
    ensures Minified(s, i) == TreeText(Compact(t)) + Minified(s, i + |TreeText(t)|)
  {
    hide TreeText, Compact, Good, Minified, Written, Kept, GoodLexeme;
    TextShrinks(t);
    var ls :| LooseLexemes(ls) && Written(ls) == TreeText(t) && Kept(ls) == TreeText(Compact(t));
    WrittenShrinks(s, i, ls);
  }

  // ---- Minifying printed text ----

  /** Without white space it does not matter at what depth a tree is printed. */
  lemma {:induction false} PrintedCompact(v: Json, depth: nat, other: nat)
    ensures Compact(TreeOf(v, depth, true)) == TreeOf(v, other, false)
    decreases v, 0
  {
    match v
    case Array(child) => ItemsCompact(child, "", depth + 1, other + 1);
    case Object(child) => MembersCompact(child, depth + 1, other + 1);
    case _ =>
  }

  lemma {:induction false} ItemsCompact(c: Chain, before: string, depth: nat, other: nat)
    ensures CompactItems(ItemsOf(c, before, depth, true)) == ItemsOf(c, "", other, false)
    decreases c, 1
  {
    if c.Link? {
      PrintedCompact(c.item, depth, other);
      ItemsCompact(c.next, " ", depth, other);
    }
  }

  lemma {:induction false} MembersCompact(c: Chain, depth: nat, other: nat)
    ensures CompactItems(MembersOf(c, depth, true)) == MembersOf(c, other, false)
    decreases c, 1
  {
    if c.Link? {
      PrintedCompact(c.item, depth, other);
      MembersCompact(c.next, depth, other);
      assert "" + "" == "";
    }
  }

  /** The formatted text of a value shrinks to its unformatted text. */
  lemma ValueShrinks(s: string, i: nat, v: Json, depth: nat)
    requires Cjson.Legal(v) && StartsWith(s, i, PrintValue(v, depth, true))
    ensures Minified(s, i) == PrintValue(v, depth, false) + Minified(s, i + |PrintValue(v, depth, true)|)
  {
    hide PrintValue, TreeOf, TreeText, Compact, Good, Minified;
    PrintedIsText(v, depth, true);
    PrintedIsText(v, depth, false);
    PrintedCompact(v, depth, depth);
    TextMinified(s, i, TreeOf(v, depth, true));
  }

  /** cJSON_Minify turns the formatted print of a tree into its unformatted print. */
  lemma MinifyOfPrint(v: Json)
    requires Cjson.Legal(v)
    ensures Minified(Print(v), 0) == PrintUnformatted(v)
  {
    hide PrintValue;
    var s := Print(v);
    assert s[0..|s|] == s;
    ValueShrinks(s, 0, v, 0);
    assert Minified(s, |s|) == "";
  }
}
