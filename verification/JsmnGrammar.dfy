/** jsmn_parse takes every JSON text of RFC 8259 that is an object or an array, with one token for each value and name. */
module JsmnGrammar {
  import opened Jsmn
  import opened JsmnText
  import opened Rfc8259
  import R = JsmnRender
  import CjsonRoundTrip

  // ---- Characters ----

  lemma SeparatorIs(c: char)
    ensures Separator(c) <==> c in WHITE || c in ":,"
    ensures EndsPrimitive(c) <==> c in WHITE || c in ",]}"
    ensures Printable(c) <==> 0x20 <= c as int <= 0x7E
  {
  }

  lemma PrimitiveStartIs(c: char)
    ensures StartsPrimitive(c) <==> c == '-' || c in DIGITS || c == WORDS[0][0] || c == WORDS[1][0] || c == WORDS[2][0]
  {
  }

  /** The letters that make a two-character escape are those of section 7. */
  lemma SimpleEscapeIs(c: char)
    ensures SimpleEscape(c) <==> c in LETTERS
  {
  }

  lemma HexDigitIs(c: char)
    ensures HexDigit(c) <==> c in LOWER || c in UPPER
  {
  }

  // ---- Strings ----

  /** Any character but NUL, quote and backslash may stand unescaped, more than section 7 admits. */
  predicate LoosePiece(p: Piece) {
    p.Raw? ==> p.octet != '\0' && p.octet != '\"' && p.octet != '\\'
  }

  predicate LooseBody(ps: seq<Piece>) {
    forall k | 0 <= k < |ps| :: LoosePiece(ps[k])
  }

  lemma HexCharIsDigit(h: Hex)
    ensures HexDigit(HexChar(h))
  {
    match h.value { case 0 => case 1 => case 2 => case 3 => case 4 => case 5 => case 6 => case 7 => case 8 => case 9 =>
      case 10 => case 11 => case 12 => case 13 => case 14 => case 15 => }
  }

  lemma LetterIsEscape(k: Letter)
    ensures SimpleEscape(LETTERS[k])
  {
    match k { case 0 => case 1 => case 2 => case 3 => case 4 => case 5 => case 6 => case 7 => }
  }

  lemma PieceTaken(p: Piece, rest: string)
    requires LoosePiece(p) && StringBody(rest)
    ensures StringBody(PieceText(p) + rest)
  {
    var s := PieceText(p) + rest;
    match p
    case Raw(c) => assert s[1..] == rest;
    case Short(k) =>
      LetterIsEscape(k);
      assert s[2..] == rest;
    case Unit(a, b, c, d) =>
      hide HexChar;
      HexCharIsDigit(a);
      HexCharIsDigit(b);
      HexCharIsDigit(c);
      HexCharIsDigit(d);
      assert s[6..] == rest && s[2..6] == [HexChar(a), HexChar(b), HexChar(c), HexChar(d)];
  }

  lemma {:induction false} BodyTaken(ps: seq<Piece>)
    requires LooseBody(ps)
    ensures StringBody(BodyText(ps))
  {
    hide LoosePiece, PieceText;
    if ps != [] {
      BodyTaken(ps[1..]);
      PieceTaken(ps[0], BodyText(ps[1..]));
    }
  }

  function HexOf(c: char): Hex
    requires HexDigit(c)
  {
    if '0' <= c <= '9' then Hex(c as int - '0' as int, false)
    else if 'a' <= c <= 'f' then Hex(c as int - 'a' as int + 10, false)
    else Hex(c as int - 'A' as int + 10, true)
  }

  lemma HexOfIs(c: char)
    requires HexDigit(c)
    ensures HexChar(HexOf(c)) == c
  {
    match HexOf(c).value { case 0 => case 1 => case 2 => case 3 => case 4 => case 5 => case 6 => case 7 => case 8 => case 9 =>
      case 10 => case 11 => case 12 => case 13 => case 14 => case 15 => }
  }

  lemma FirstPiece(s: string) returns (p: Piece, rest: string)
    requires StringBody(s) && s != ""
    ensures LoosePiece(p) && StringBody(rest) && s == PieceText(p) + rest && |rest| < |s|
  {
    if JsmnText.Plain(s[0]) {
      p, rest := Raw(s[0]), s[1..];
    } else if SimpleEscape(s[1]) {
      SimpleEscapeIs(s[1]);
      var k: Letter :| LETTERS[k] == s[1];
      p, rest := Short(k), s[2..];
    } else {
      var u := s[2..6];
      assert u[0] == s[2] && u[1] == s[3] && u[2] == s[4] && u[3] == s[5];
      p, rest := Unit(HexOf(u[0]), HexOf(u[1]), HexOf(u[2]), HexOf(u[3])), s[6..];
      hide HexChar, HexOf;
      HexOfIs(u[0]);
      HexOfIs(u[1]);
      HexOfIs(u[2]);
      HexOfIs(u[3]);
      assert s[..6] == PieceText(p);
    }
  }

  lemma {:induction false} BodyInPieces(s: string) returns (ps: seq<Piece>)
    requires StringBody(s)
    ensures LooseBody(ps) && BodyText(ps) == s
    decreases |s|
  {
    hide LoosePiece, PieceText, StringBody;
    if s == "" {
      ps := [];
    } else {
      var p, rest := FirstPiece(s);
      var more := BodyInPieces(rest);
      ps := [p] + more;
      assert ps[1..] == more;
    }
  }

  /** What may stand between quotes is what can be written with the characters and escapes of RFC 8259. */
  lemma StringBodyIs(s: string)
    ensures StringBody(s) <==> exists ps :: LooseBody(ps) && BodyText(ps) == s
  {
    if StringBody(s) {
      var ps := BodyInPieces(s);
    }
    if exists ps :: LooseBody(ps) && BodyText(ps) == s {
      var ps :| LooseBody(ps) && BodyText(ps) == s;
      BodyTaken(ps);
    }
  }

  // ---- Values ----

  /** The value as the tokeniser sees it: names are items like values, and commas and colons are white space. */
  function ValueOf(t: Tree): R.Value {
    match t
    case Plain(_) => R.Scalar(Primitive, TreeText(t))
    case Numeral(_, _, _, _) => R.Scalar(Primitive, TreeText(t))
    case Quoted(ps) => R.Scalar(String, BodyText(ps))
    case List(items, gap) => R.Group(Array, ItemsOf(items, ""), if items.NoItems? then gap else LastGap(items))
    case Dict(items, gap) => R.Group(Object, ItemsOf(items, ""), if items.NoItems? then gap else LastGap(items))
  }

  /** The items, with `gap` before the first one. */
  function ItemsOf(items: Items, gap: string): R.Items {
    match items
    case NoItems => R.Empty
    case Item(before, name, value, after, rest) =>
      match name
      case Unnamed => R.Item(gap + before, ValueOf(value), ItemsOf(rest, after + ","))
      case Named(ps, left, right) =>
        R.Item(gap + before, R.Scalar(String, BodyText(ps)),
               R.Item(left + (":" + right), ValueOf(value), ItemsOf(rest, after + ",")))
  }

  function LastGap(items: Items): string
    requires items.Item?
  {
    if items.rest.NoItems? then items.after else LastGap(items.rest)
  }

  lemma Join(a: string, b: string, c: string)
    ensures (a + b) + c == a + (b + c) && "" + a == a
  {
  }

  lemma {:induction false} RenderIsText(t: Tree)
    ensures R.Render(ValueOf(t)) == TreeText(t)
    decreases t, 1
  {
    hide NumeralText;
    match t
    case Plain(_) =>
    case Numeral(_, _, _, _) =>
    case Quoted(ps) => Join("\"", BodyText(ps), "\"");
    case List(items, gap) => GroupIsText(items, gap, "]");
    case Dict(items, gap) => GroupIsText(items, gap, "}");
  }

  lemma {:induction false} GroupIsText(items: Items, gap: string, close: string)
    ensures R.RenderThen(ItemsOf(items, ""), (if items.NoItems? then gap else LastGap(items)) + close)
         == if items.NoItems? then gap + close else ItemsText(items, close)
    decreases items, 1
  {
    if items.Item? {
      ItemsAreText(items, "", close);
      Join(ItemsText(items, close), "", "");
    }
  }

  lemma {:induction false} ItemsAreText(items: Items, gap: string, close: string)
    requires items.Item?
    ensures R.RenderThen(ItemsOf(items, gap), LastGap(items) + close) == gap + ItemsText(items, close)
    decreases items, 0
  {
    var Item(before, name, value, after, rest) := items;
    var v := TreeText(value);
    var tail := if rest.NoItems? then after + close else after + ("," + ItemsText(rest, close));
    RenderIsText(value);
    assert R.RenderThen(ItemsOf(rest, after + ","), LastGap(items) + close) == tail by {
      if rest.Item? {
        ItemsAreText(rest, after + ",", close);
        Join(after, ",", ItemsText(rest, close));
      }
    }
    ItemIsText(items, gap, close, tail);
  }

  lemma ItemIsText(items: Items, gap: string, close: string, tail: string)
    requires items.Item? && R.Render(ValueOf(items.value)) == TreeText(items.value)
    requires R.RenderThen(ItemsOf(items.rest, items.after + ","), LastGap(items) + close) == tail
    requires tail == if items.rest.NoItems? then items.after + close else items.after + ("," + ItemsText(items.rest, close))
    ensures R.RenderThen(ItemsOf(items, gap), LastGap(items) + close) == gap + ItemsText(items, close)
  {
    hide ValueOf, TreeText, LastGap;
    var Item(before, name, value, after, rest) := items;
    var v := TreeText(value);
    ItemTextIs(items, close, tail);
    match name {
      case Unnamed => Join(gap, before, v + tail);
      case Named(ps, left, right) =>
        var q, m := QuotedText(ps), left + (":" + right);
        Join("\"", BodyText(ps), "\"");
        Join(gap, before, (q + m) + (v + tail));
        Join(q, m, v + tail);
    }
  }

  lemma ItemTextIs(items: Items, close: string, tail: string)
    requires items.Item?
    requires tail == if items.rest.NoItems? then items.after + close else items.after + ("," + ItemsText(items.rest, close))
    ensures ItemsText(items, close) == items.before + (match items.name
      case Unnamed => TreeText(items.value) + tail
      case Named(ps, left, right) => (QuotedText(ps) + (left + (":" + right))) + (TreeText(items.value) + tail))
  {
    hide TreeText, QuotedText;
    Join(TreeText(items.value) + tail, "", "");
  }

  // ---- Every such text is legal for the tokeniser ----

  lemma WhiteIsGap(w: string)
    requires White(w)
    ensures R.IsGap(w)
  {
    forall k | 0 <= k < |w| ensures Separator(w[k]) {
      SeparatorIs(w[k]);
    }
  }

  lemma GapsJoin(a: string, b: string)
    requires R.IsGap(a) && R.IsGap(b)
    ensures R.IsGap(a + b)
  {
  }

  lemma MarksAreGaps()
    ensures R.IsGap("") && R.IsGap(",") && R.IsGap(":")
  {
  }

  lemma DigitInPrimitive(d: Decimal)
    ensures var c := DIGITS[d]; Printable(c) && !EndsPrimitive(c) && StartsPrimitive(c)
  {
    match d { case 0 => case 1 => case 2 => case 3 => case 4 => case 5 => case 6 => case 7 => case 8 => case 9 => }
  }

  lemma DigitsInPrimitive(ds: seq<Decimal>)
    ensures PrimitiveBody(DigitsText(ds)) && (ds != [] ==> StartsPrimitive(DigitsText(ds)[0]))
  {
    forall k | 0 <= k < |ds| ensures Printable(DigitsText(ds)[k]) && !EndsPrimitive(DigitsText(ds)[k]) {
      DigitInPrimitive(ds[k]);
    }
    if ds != [] {
      DigitInPrimitive(ds[0]);
    }
  }

  lemma PrimitiveJoin(a: string, b: string)
    requires PrimitiveBody(a) && PrimitiveBody(b)
    ensures PrimitiveBody(a + b)
  {
  }

  lemma SignsInPrimitive()
    ensures PrimitiveBody("") && PrimitiveBody("-") && PrimitiveBody("+")
    ensures PrimitiveBody(".") && PrimitiveBody("e") && PrimitiveBody("E")
    ensures PrimitiveBody("null") && PrimitiveBody("false") && PrimitiveBody("true")
  {
  }

  lemma ExponentInPrimitive(e: Exponent)
    ensures PrimitiveBody(ExponentText(e))
  {
    hide PrimitiveBody;
    SignsInPrimitive();
    if e.Exponent? {
      DigitsInPrimitive(e.digits);
      var a, b := if e.upper then "E" else "e", match e.sign case Unsigned => "" case Plus => "+" case Minus => "-";
      PrimitiveJoin(a, b);
      PrimitiveJoin(a + b, DigitsText(e.digits));
    }
  }

  lemma NumeralIsPrimitive(minus: bool, digits: seq<Decimal>, frac: seq<Decimal>, exp: Exponent)
    requires digits != []
    ensures var t := NumeralText(minus, digits, frac, exp);
      t != "" && StartsPrimitive(t[0]) && PrimitiveBody(t)
  {
    hide PrimitiveBody, ExponentText, DigitsText, StartsPrimitive;
    SignsInPrimitive();
    DigitsInPrimitive(digits);
    DigitsInPrimitive(frac);
    ExponentInPrimitive(exp);
    PrimitiveJoin(".", DigitsText(frac));
    var f, e, d := if frac == [] then "" else "." + DigitsText(frac), ExponentText(exp), DigitsText(digits);
    PrimitiveJoin(f, e);
    PrimitiveJoin(d, f + e);
    PrimitiveJoin(if minus then "-" else "", d + (f + e));
    PrimitiveStartIs('-');
    assert (d + (f + e))[0] == d[0];
  }

  lemma GoodIsLoose(ps: seq<Piece>)
    requires GoodBody(ps)
    ensures LooseBody(ps)
  {
  }

  /** What follows a value delimits a primitive. */
  lemma Delimits(after: string, t: string)
    requires White(after) && t != "" && EndsPrimitive(t[0])
    ensures after + t != "" && EndsPrimitive((after + t)[0])
  {
    if after != "" {
      SeparatorIs(after[0]);
    }
  }

  lemma {:induction false} TextIsLegal(t: Tree)
    requires Good(t)
    ensures R.Legal(ValueOf(t))
    decreases t, 1
  {
    hide StringBody, PrimitiveBody, NumeralText, StartsPrimitive, White, R.IsGap;
    match t
    case Plain(k) =>
      SignsInPrimitive();
      PrimitiveStartIs(WORDS[k][0]);
    case Numeral(minus, digits, frac, exp) => NumeralIsPrimitive(minus, digits, frac, exp);
    case Quoted(ps) =>
      GoodIsLoose(ps);
      BodyTaken(ps);
    case List(items, gap) => GroupIsLegal(items, gap, "]", false);
    case Dict(items, gap) => GroupIsLegal(items, gap, "}", true);
  }

  lemma {:induction false} GroupIsLegal(items: Items, gap: string, close: string, named: bool)
    requires White(gap) && GoodItems(items, named) && close != "" && EndsPrimitive(close[0])
    ensures var last := if items.NoItems? then gap else LastGap(items);
      R.IsGap(last) && R.LegalItems(ItemsOf(items, ""), last + close)
    decreases items, 1
  {
    hide White, R.IsGap, EndsPrimitive;
    WhiteIsGap(gap);
    if items.Item? {
      LastIsGap(items, named);
      MarksAreGaps();
      ItemsAreLegal(items, "", close, named);
    }
  }

  lemma {:induction false} LastIsGap(items: Items, named: bool)
    requires items.Item? && GoodItems(items, named)
    ensures White(LastGap(items)) && R.IsGap(LastGap(items))
  {
    hide White, R.IsGap;
    if items.rest.NoItems? {
      WhiteIsGap(items.after);
    } else {
      LastIsGap(items.rest, named);
    }
  }

  lemma {:induction false} ItemsAreLegal(items: Items, gap: string, close: string, named: bool)
    requires items.Item? && GoodItems(items, named) && R.IsGap(gap) && close != "" && EndsPrimitive(close[0])
    ensures R.LegalItems(ItemsOf(items, gap), LastGap(items) + close)
    decreases items, 0
  {
    hide White, R.IsGap, EndsPrimitive, TreeText, ValueOf, R.Legal, R.Render, StringBody;
    var Item(before, name, value, after, rest) := items;
    var last := LastGap(items) + close;
    MarksAreGaps();
    WhiteIsGap(before);
    WhiteIsGap(after);
    GapsJoin(gap, before);
    GapsJoin(after, ",");
    TextIsLegal(value);
    SeparatorIs(',');
    if rest.Item? {
      ItemsAreLegal(rest, after + ",", close, named);
      ItemsAreText(rest, after + ",", close);
      Join(after, ",", ItemsText(rest, close));
      Delimits(after, "," + ItemsText(rest, close));
    } else {
      Delimits(after, close);
    }
    assert R.Followed(ValueOf(value), R.RenderThen(ItemsOf(rest, after + ","), last));
    if name.Named? {
      WhiteIsGap(name.left);
      WhiteIsGap(name.right);
      GapsJoin(":", name.right);
      GapsJoin(name.left, ":" + name.right);
      NamedLegal(gap + before, name.ps, name.left + (":" + name.right), ValueOf(value), ItemsOf(rest, after + ","), last);
    }
  }

  lemma NamedLegal(gap: string, ps: seq<Piece>, colon: string, v: R.Value, rest: R.Items, tail: string)
    requires R.IsGap(gap) && GoodBody(ps) && R.IsGap(colon) && R.Legal(v)
    requires R.Followed(v, R.RenderThen(rest, tail)) && R.LegalItems(rest, tail)
    ensures R.LegalItems(R.Item(gap, R.Scalar(String, BodyText(ps)), R.Item(colon, v, rest)), tail)
  {
    hide R.IsGap, StringBody;
    NameIsLegal(ps);
  }

  lemma NameIsLegal(ps: seq<Piece>)
    requires GoodBody(ps)
    ensures R.Legal(R.Scalar(String, BodyText(ps)))
  {
    hide StringBody;
    GoodIsLoose(ps);
    BodyTaken(ps);
  }

  // ---- Tokens ----

  /** A token for each value and each name. */
  function TokenCount(t: Tree): nat {
    match t
    case List(items, _) => 1 + ItemTokens(items)
    case Dict(items, _) => 1 + ItemTokens(items)
    case _ => 1
  }

  function ItemTokens(items: Items): nat {
    match items
    case NoItems => 0
    case Item(_, name, value, _, rest) => (if name.Named? then 1 else 0) + TokenCount(value) + ItemTokens(rest)
  }

  lemma {:induction false} TokensCounted(t: Tree, pos: nat, parent: int, at: nat)
    ensures |R.Flatten(ValueOf(t), pos, parent, at)| == TokenCount(t)
    decreases t, 1
  {
    match t
    case List(items, _) => ItemsCounted(items, "", pos + 1, at, at + 1);
    case Dict(items, _) => ItemsCounted(items, "", pos + 1, at, at + 1);
    case _ =>
  }

  /** One more item. */
  lemma OneMore(gap: string, v: R.Value, rest: R.Items, pos: nat, parent: int, at: nat, n: nat, m: nat)
    requires |R.Flatten(v, pos + |gap|, parent, at)| == n
    requires |R.FlattenItems(rest, pos + |gap| + |R.Render(v)|, parent, at + n)| == m
    ensures |R.FlattenItems(R.Item(gap, v, rest), pos, parent, at)| == n + m
  {
    hide R.Flatten, R.Render;
  }

  lemma {:induction false} ItemsCounted(items: Items, gap: string, pos: nat, parent: int, at: nat)
    ensures |R.FlattenItems(ItemsOf(items, gap), pos, parent, at)| == ItemTokens(items)
    decreases items, 0
  {
    hide R.Flatten, R.FlattenItems, R.Render, ValueOf, TokenCount;
    match items
    case NoItems => NoneCounted(pos, parent, at);
    case Item(before, name, value, after, rest) =>
      var g, n, v, r := pos + |gap + before|, TokenCount(value), ValueOf(value), ItemsOf(rest, after + ",");
      match name {
        case Unnamed =>
          TokensCounted(value, g, parent, at);
          ItemsCounted(rest, after + ",", g + |R.Render(v)|, parent, at + n);
          OneMore(gap + before, v, r, pos, parent, at, n, ItemTokens(rest));
        case Named(ps, left, right) =>
          var q, colon := R.Scalar(String, BodyText(ps)), left + (":" + right);
          var h := g + |R.Render(q)|;
          TokensCounted(value, h + |colon|, parent, at + 1);
          ItemsCounted(rest, after + ",", h + |colon| + |R.Render(v)|, parent, at + 1 + n);
          OneMore(colon, v, r, h, parent, at + 1, n, ItemTokens(rest));
          NameCounted(q, g, parent, at);
          OneMore(gap + before, q, R.Item(colon, v, r), pos, parent, at, 1, n + ItemTokens(rest));
      }
  }

  lemma NoneCounted(pos: nat, parent: int, at: nat)
    ensures |R.FlattenItems(R.Empty, pos, parent, at)| == 0
  {
  }

  lemma NameCounted(q: R.Value, pos: nat, parent: int, at: nat)
    requires q.Scalar?
    ensures |R.Flatten(q, pos, parent, at)| == 1
  {
  }

  // ---- Whole texts ----

  /** A text that is one object or array, with white space around it, is accepted, and its tokens are the tree in preorder. */
  lemma TextIsAccepted(before: string, t: Tree, after: string, room: nat)
    requires White(before) && White(after) && Good(t) && (t.List? || t.Dict?)
    requires |before + (TreeText(t) + after)| < 0x8000 && TokenCount(t) <= room
    ensures var js, len := before + (TreeText(t) + after) + "\0", |before + (TreeText(t) + after)|;
      && Terminated(js, len) && Stacked(Forest([], []))
      && Run(js, len, room, Forest([], []), 0) == Halt(Forest(R.Flatten(ValueOf(t), |before|, -1, 0), []), len, 0)
      && |R.Flatten(ValueOf(t), |before|, -1, 0)| == TokenCount(t)
  {
    hide White, R.IsGap, TreeText, Good, ValueOf, R.Legal, R.Render, R.Holds, R.Reaches, TokenCount;
    var v, f := TreeText(t), Forest([], []);
    var js, len := before + (v + after) + "\0", |before + (v + after)|;
    TextIsLegal(t);
    RenderIsText(t);
    TokensCounted(t, |before|, -1, 0);
    WhiteIsGap(before);
    WhiteIsGap(after);
    WholeHeld(js, before + (v + after));
    R.HoldsParts(js, len, 0, before, v + after);
    R.HoldsParts(js, len, |before|, v, after);
    R.GapRuns(js, len, room, f, 0, before);
    NoPrimitive(t);
    R.ValueRuns(js, len, room, f, |before|, ValueOf(t), after);
    var g := R.After(f, ValueOf(t), |before|);
    assert g.open == [];
    R.GapRuns(js, len, room, g, |before| + |v|, after);
    RunsThrough(js, len, room, f, |before|, g, |before| + |v|);
    assert [] + R.Flatten(ValueOf(t), |before|, -1, 0) == R.Flatten(ValueOf(t), |before|, -1, 0);
  }

  lemma WholeHeld(js: string, s: string)
    requires js == s + "\0"
    ensures R.Holds(js, |s|, 0, s)
  {
    assert js[0..|s|] == s;
  }

  lemma NoPrimitive(t: Tree)
    requires t.List? || t.Dict?
    ensures forall follow :: R.Followed(ValueOf(t), follow)
  {
  }

  /** White space, a value and white space, one after the other. */
  lemma RunsThrough(js: string, len: nat, room: nat, f: Forest, a: nat, g: Forest, b: nat)
    requires Terminated(js, len) && R.Reaches(js, len, room, f, 0, f, a) && R.Reaches(js, len, room, f, a, g, b)
    requires R.Reaches(js, len, room, g, b, g, len)
    ensures Run(js, len, room, f, 0) == Halt(g, len, 0)
  {
  }

  // ---- What cJSON prints ----

  /** The values and names of a tree. */
  function Nodes(v: Cjson.Json): nat {
    match v
    case Array(child) => 1 + ChainNodes(child, 0)
    case Object(child) => 1 + ChainNodes(child, 1)
    case _ => 1
  }

  function ChainNodes(c: Cjson.Chain, names: nat): nat {
    match c
    case Nil => 0
    case Link(_, item, next) => names + Nodes(item) + ChainNodes(next, names)
  }

  lemma {:induction false} NodesCounted(v: Cjson.Json, depth: nat, fmt: bool)
    ensures TokenCount(CjsonRoundTrip.TreeOf(v, depth, fmt)) == Nodes(v)
    decreases v, 1
  {
    match v
    case Array(child) => ItemNodes(child, "", depth + 1, fmt);
    case Object(child) => MemberNodes(child, depth + 1, fmt);
    case _ =>
  }

  lemma {:induction false} ItemNodes(c: Cjson.Chain, before: string, depth: nat, fmt: bool)
    ensures ItemTokens(CjsonRoundTrip.ItemsOf(c, before, depth, fmt)) == ChainNodes(c, 0)
    decreases c, 0
  {
    if c.Link? {
      NodesCounted(c.item, depth, fmt);
      ItemNodes(c.next, Cjson.If(fmt, " "), depth, fmt);
    }
  }

  lemma {:induction false} MemberNodes(c: Cjson.Chain, depth: nat, fmt: bool)
    ensures ItemTokens(CjsonRoundTrip.MembersOf(c, depth, fmt)) == ChainNodes(c, 1)
    decreases c, 0
  {
    if c.Link? {
      NodesCounted(c.item, depth, fmt);
      MemberNodes(c.next, depth, fmt);
    }
  }

  /** What cJSON prints for an object or array is accepted, with a token for each value and name. */
  lemma PrintedIsAccepted(v: Cjson.Json, fmt: bool, room: nat)
    requires Cjson.Legal(v) && (v.Array? || v.Object?)
    requires |Cjson.PrintValue(v, 0, fmt)| < 0x8000 && Nodes(v) <= room
    ensures var s := Cjson.PrintValue(v, 0, fmt);
      var js := s + "\0";
      && Terminated(js, |s|) && Stacked(Forest([], []))
      && var h := Run(js, |s|, room, Forest([], []), 0);
         h.error == 0 && h.pos == |s| && h.forest.open == [] && |h.forest.tokens| == Nodes(v)
  {
    hide Cjson.PrintValue, TreeText, Good, TokenCount, Nodes, R.Flatten, ValueOf, Run;
    var s, t := Cjson.PrintValue(v, 0, fmt), CjsonRoundTrip.TreeOf(v, 0, fmt);
    CjsonRoundTrip.PrintedIsText(v, 0, fmt);
    NodesCounted(v, 0, fmt);
    assert "" + (s + "") == s;
    TextIsAccepted("", t, "", room);
  }
}
