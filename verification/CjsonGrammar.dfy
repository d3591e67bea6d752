/** The parser of cJSON.c reads what a text of RFC 8259 denotes, however it is written. */
module CjsonGrammar {
  import opened Cjson
  import opened Unicode
  import opened CjsonParse
  import opened CjsonSteps
  import opened Rfc8259

  // ---- Strings ----

  lemma HexRead(h: Hex)
    ensures HexValue(HexChar(h)) == h.value
    ensures var c := HexChar(h); c != '\0' && c != '\"' && c != '\\'
  {
    match h.value { case 0 => case 1 => case 2 => case 3 => case 4 => case 5 => case 6 => case 7 => case 8 => case 9 =>
      case 10 => case 11 => case 12 => case 13 => case 14 => case 15 => }
  }

  lemma ShortRead(k: Letter)
    ensures LETTERS[k] != 'u' && Unescape(LETTERS[k]) == MEANT[k]
  {
    match k { case 0 => case 1 => case 2 => case 3 => case 4 => case 5 => case 6 => case 7 => }
  }

  /** parse_hex4 reads the four digits of an escape whose backslash is at p. */
  lemma UnitRead(s: string, p: nat, u: Piece)
    requires u.Unit? && StartsWith(s, p, PieceText(u))
    ensures CharAt(s, p) == '\\' && CharAt(s, p + 1) == 'u'
    ensures UnitValue(u) != 0 ==> Hex4At(s, p + 2) == UnitValue(u)
  {
    hide HexChar, HexValue;
    var t := PieceText(u);
    Second(s, p, t, 0);
    Second(s, p, t, 1);
    Second(s, p, t, 2);
    Second(s, p, t, 3);
    Second(s, p, t, 4);
    Second(s, p, t, 5);
    HexRead(u.a);
    HexRead(u.b);
    HexRead(u.c);
    HexRead(u.d);
  }

  /** A character or escape that stands alone is read as what it denotes. */
  lemma PieceRead(s: string, p: nat, x: Piece)
    requires StartsWith(s, p, PieceText(x)) && GoodPiece(x) && !High(x) && !Low(x) && (x.Unit? ==> UnitValue(x) != 0)
    ensures var t := match x { case Raw(c) => [c] case Short(k) => [MEANT[k]] case Unit(_, _, _, _) => Utf8(UnitValue(x)) };
      var rest := BodyAt(s, p + |PieceText(x)|);
      BodyAt(s, p) == (t + rest.0, rest.1)
  {
    hide Utf8, UnitValue, Hex4At, HexChar;
    First(s, p, PieceText(x));
    match x
    case Raw(c) =>
    case Short(k) =>
      Second(s, p, PieceText(x), 1);
      ShortRead(k);
    case Unit(_, _, _, _) =>
      UnitRead(s, p, x);
  }

  /** A pair of surrogates is read as one code point. */
  lemma PairRead(s: string, p: nat, x: Piece, y: Piece)
    requires High(x) && Low(y) && StartsWith(s, p, PieceText(x)) && StartsWith(s, p + 6, PieceText(y))
    ensures var t := Utf8(0x10000 + (UnitValue(x) - 0xD800) * 0x400 + (UnitValue(y) - 0xDC00));
      var rest := BodyAt(s, p + 12);
      BodyAt(s, p) == (t + rest.0, rest.1)
  {
    hide Utf8, Hex4At, PieceText;
    UnitRead(s, p, x);
    UnitRead(s, p + 6, y);
    var hi, lo := UnitValue(x), UnitValue(y);
    hide UnitValue;
    assert hi % 0x400 == hi - 0xD800 && lo % 0x400 == lo - 0xDC00;
  }

  lemma {:induction false} BodyRead(s: string, p: nat, ps: seq<Piece>)
    requires GoodBody(ps) && Paired(ps) && StartsWith(s, p, BodyText(ps) + "\"")
    ensures BodyAt(s, p) == (BodyMeaning(ps), p + |BodyText(ps)|)
    decreases |ps|
  {
    hide StartsWith, PieceText, UnitValue, BodyAt, Utf8;
    if ps == [] {
      assert BodyText(ps) + "\"" == "\"";
      First(s, p, "\"");
      EmptyBody(s, p);
    } else {
      var x, t := PieceText(ps[0]), BodyText(ps[1..]);
      Regroup(x, t, "\"");
      Parts(s, p, x, t + "\"");
      if High(ps[0]) {
        assert ps[1..][0] == ps[1] && ps[1..][1..] == ps[2..];
        var y, u := PieceText(ps[1]), BodyText(ps[2..]);
        assert t == y + u;
        Regroup(y, u, "\"");
        Parts(s, p + |x|, y, u + "\"");
        UnitLength(ps[0]);
        UnitLength(ps[1]);
        BodyRead(s, p + 12, ps[2..]);
        PairRead(s, p, ps[0], ps[1]);
      } else {
        BodyRead(s, p + |x|, ps[1..]);
        PieceRead(s, p, ps[0]);
      }
    }
  }

  /** Every escape of a code point below 0x10000 but 0 and the surrogates is decoded to UTF-8 of that code point. */
  lemma UnitDecodes(u: Piece)
    requires u.Unit? && !High(u) && !Low(u) && UnitValue(u) != 0
    ensures var r := BodyAt(PieceText(u) + "\"", 0);
      r.1 == 6 && Decode(r.0) == UnitValue(u)
  {
    hide PieceText, BodyAt, UnitValue, Utf8, Decode;
    var s := PieceText(u) + "\"";
    UnitLength(u);
    assert s[0..6] == PieceText(u);
    PieceRead(s, 0, u);
    EmptyBody(s, 6);
    Utf8Exactly(Utf8(UnitValue(u)), UnitValue(u));
    assert Utf8(UnitValue(u)) + "" == Utf8(UnitValue(u));
  }

  /** Every pair of surrogates is decoded to UTF-8 of the code point above 0xFFFF it stands for. */
  lemma PairDecodes(x: Piece, y: Piece)
    requires High(x) && Low(y)
    ensures var r := BodyAt(PieceText(x) + (PieceText(y) + "\""), 0);
      r.1 == 12 && Decode(r.0) == 0x10000 + (UnitValue(x) - 0xD800) * 0x400 + (UnitValue(y) - 0xDC00)
  {
    hide PieceText, BodyAt, UnitValue, Utf8, Decode;
    var s := PieceText(x) + (PieceText(y) + "\"");
    UnitLength(x);
    UnitLength(y);
    assert s[0..6] == PieceText(x) && s[6..12] == PieceText(y);
    PairRead(s, 0, x, y);
    EmptyBody(s, 12);
    var c := 0x10000 + (UnitValue(x) - 0xD800) * 0x400 + (UnitValue(y) - 0xDC00);
    Utf8Exactly(Utf8(c), c);
    assert Utf8(c) + "" == Utf8(c);
  }

  lemma UnitLength(p: Piece)
    requires p.Unit?
    ensures |PieceText(p)| == 6
  {
  }

  lemma QuotedRead(s: string, i: nat, ps: seq<Piece>)
    requires GoodBody(ps) && Paired(ps) && StartsWith(s, i, QuotedText(ps))
    ensures StringAt(s, i) == Read(BodyMeaning(ps), i + |QuotedText(ps)|) && CharAt(s, i) == '\"'
  {
    hide BodyAt, BodyText, BodyMeaning, StartsWith;
    var t := BodyText(ps);
    Parts(s, i, "\"", t + "\"");
    First(s, i, "\"");
    Parts(s, i + 1, t, "\"");
    First(s, i + 1 + |t|, "\"");
    BodyRead(s, i + 1, ps);
  }

  // ---- Numbers ----

  lemma DigitRead(d: Decimal)
    ensures var c := DIGITS[d]; IsDigit(c) && c as int - '0' as int == d
  {
    match d { case 0 => case 1 => case 2 => case 3 => case 4 => case 5 => case 6 => case 7 => case 8 => case 9 => }
  }

  lemma {:induction false} DigitsContinued(ds: seq<Decimal>)
    ensures AllDigits(DigitsText(ds)) && Continued(0, DigitsText(ds)) == DecimalValue(ds)
  {
    var t := DigitsText(ds);
    forall k | 0 <= k < |t| ensures IsDigit(t[k]) {
      DigitRead(ds[k]);
    }
    if ds != [] {
      var n := |ds| - 1;
      DigitsContinued(ds[..n]);
      DigitRead(ds[n]);
      assert t[..n] == DigitsText(ds[..n]);
    }
  }

  lemma NumeralRead(s: string, i: nat, minus: bool, digits: seq<Decimal>)
    requires GoodNumber(digits, NoExponent)
    requires var t := NumeralText(minus, digits, [], NoExponent); StartsWith(s, i, t) && EndsNumber(CharAt(s, i + |t|))
    ensures NumberAt(s, i) == Read(Number(Signed(minus, DecimalValue(digits))), i + |NumeralText(minus, digits, [], NoExponent)|)
    ensures CharAt(s, i) == '-' || IsDigit(CharAt(s, i))
  {
    NumeralParts(s, i, minus, digits);
    var j := if minus then i + 1 else i;
    hide StartsWith, DecimalValue, DigitsText, DigitsAt, NumeralText;
    FirstDigit(digits);
    First(s, j, DigitsText(digits));
    DigitsPart(s, j, digits);
  }

  lemma NumeralParts(s: string, i: nat, minus: bool, digits: seq<Decimal>)
    requires StartsWith(s, i, NumeralText(minus, digits, [], NoExponent))
    ensures |NumeralText(minus, digits, [], NoExponent)| == (if minus then 1 else 0) + |digits|
    ensures minus ==> CharAt(s, i) == '-' && StartsWith(s, i + 1, DigitsText(digits))
    ensures !minus ==> StartsWith(s, i, DigitsText(digits))
  {
    var t := DigitsText(digits);
    assert NumeralText(minus, digits, [], NoExponent) == (if minus then "-" else "") + t;
    if minus {
      Parts(s, i, "-", t);
      First(s, i, "-");
    }
  }

  /** The digits, also when there is only a zero. */
  lemma DigitsPart(s: string, j: nat, digits: seq<Decimal>)
    requires GoodNumber(digits, NoExponent) && StartsWith(s, j, DigitsText(digits)) && !IsDigit(CharAt(s, j + |digits|))
    ensures var k := if CharAt(s, j) == '0' then j + 1 else j;
      (if '1' <= CharAt(s, k) <= '9' then DigitsAt(s, k, 0) else (0, k)) == (DecimalValue(digits), j + |digits|)
  {
    hide Continued, DecimalValue, DigitsText, DigitsAt;
    var t := DigitsText(digits);
    First(s, j, t);
    DigitsContinued(digits);
    FirstDigit(digits);
    if digits[0] != 0 {
      DigitsRead(s, j, 0, t);
    } else {
      OneZero(digits);
    }
  }

  lemma FirstDigit(ds: seq<Decimal>)
    requires ds != []
    ensures DigitsText(ds)[0] == DIGITS[ds[0]] && IsDigit(DIGITS[ds[0]])
    ensures ds[0] == 0 <==> DIGITS[ds[0]] == '0'
  {
    DigitRead(ds[0]);
  }

  lemma OneZero(ds: seq<Decimal>)
    requires |ds| == 1 && ds[0] == 0
    ensures DecimalValue(ds) == 0
  {
    assert ds[..0] == [];
  }

  // ---- Values ----

  lemma WhiteIsBlank(w: string)
    requires White(w)
    ensures Blank(w)
  {
    forall k | 0 <= k < |w| ensures '\0' < w[k] && w[k] as int <= 32 {
      assert w[k] in WHITE;
    }
  }

  lemma TextStart(t: Tree)
    requires Good(t)
    ensures TreeText(t) != "" && StartsValue(TreeText(t)[0])
  {
    if t.Numeral? {
      FirstDigit(t.digits);
      var rest := (if t.frac == [] then "" else "." + DigitsText(t.frac)) + ExponentText(t.exp);
      assert TreeText(t) == (if t.minus then "-" else "") + (DigitsText(t.digits) + rest);
    } else if t.Plain? {
      match t.k { case 0 => case 1 => case 2 => }
    }
  }

  /** What follows the white space behind an item. */
  function Tail(rest: Items, close: string): string {
    if rest.NoItems? then close else "," + ItemsText(rest, close)
  }

  /** White space, and then a character that is none and cannot continue a number. */
  lemma BlankBefore(s: string, i: nat, w: string, t: string)
    requires White(w) && t != "" && t[0] as int > 32 && StartsWith(s, i, w + t)
    ensures Skip(s, i) == i + |w| && StartsWith(s, i + |w|, t) && CharAt(s, i + |w|) == t[0]
    ensures EndsNumber(t[0]) ==> EndsNumber(CharAt(s, i))
  {
    hide StartsWith, Skip, CharAt;
    WhiteIsBlank(w);
    Parts(s, i, w, t);
    First(s, i + |w|, t);
    SkipBlank(s, i, w);
    if w != "" {
      First(s, i, w);
    }
  }

  lemma TailStart(rest: Items, close: string)
    requires close == "]" || close == "}"
    ensures var t := Tail(rest, close); t != "" && t[0] as int > 32 && EndsNumber(t[0])
    ensures Tail(rest, close)[0] == if rest.NoItems? then close[0] else ','
    ensures rest.NoItems? ==> |Tail(rest, close)| == 1
  {
  }

  lemma {:induction false} ItemsRead(s: string, i: nat, items: Items)
    requires items.Item? && GoodItems(items, false) && SimpleItems(items) && StartsWith(s, i, ItemsText(items, "]"))
    ensures ItemsAt(s, i) == Read(ItemsMeaning(items), i + |ItemsText(items, "]")|)
    ensures CharAt(s, Skip(s, i)) != ']'
    decreases items, 0
  {
    hide *;
    GoodItem(items, false);
    var Item(before, name, value, after, rest) := items;
    var v, t := TreeText(value), Tail(rest, "]");
    ItemText(items, "]");
    var a := i + |before|;
    var k := a + |v|;
    TextStart(value);
    StartsNoBracket(v[0]);
    StartsHigh(v[0]);
    TailStart(rest, "]");
    BlankBefore(s, i, before, v + (after + t));
    Parts(s, a, v, after + t);
    BlankBefore(s, k, after, t);
    ValueRead(s, a, value);
    ItemsAtIs(s, i);
    var m := k + |after|;
    if rest.Item? {
      MoreItems(rest, "]");
      Parts(s, m, ",", ItemsText(rest, "]"));
      ItemsRead(s, m + 1, rest);
    }
    ItemMeaning(items);
  }

  /** The text of an item that has no name. */
  lemma ItemText(items: Items, close: string)
    requires items.Item? && GoodItems(items, false)
    ensures ItemsText(items, close) == items.before + (TreeText(items.value) + (items.after + Tail(items.rest, close)))
  {
    assert forall u: string :: "" + u == u;
  }

  lemma GoodItem(items: Items, named: bool)
    requires items.Item? && GoodItems(items, named) && SimpleItems(items)
    ensures White(items.before) && White(items.after) && Good(items.value) && Simple(items.value)
    ensures GoodItems(items.rest, named) && SimpleItems(items.rest)
    ensures named ==>
      items.name.Named? && GoodBody(items.name.ps) && Paired(items.name.ps) && White(items.name.left) && White(items.name.right)
    ensures !named ==> items.name.Unnamed?
  {
  }

  lemma StartsHigh(c: char)
    requires StartsValue(c)
    ensures c as int > 32
  {
  }

  lemma MoreItems(rest: Items, close: string)
    requires rest.Item?
    ensures Tail(rest, close) == "," + ItemsText(rest, close)
  {
  }

  lemma ItemMeaning(items: Items)
    requires items.Item? && SimpleItems(items)
    ensures ItemsMeaning(items)
         == Link(if items.name.Named? then BodyMeaning(items.name.ps) else "", Meaning(items.value), ItemsMeaning(items.rest))
    ensures items.rest.NoItems? ==> ItemsMeaning(items.rest) == Nil
  {
  }

  lemma {:induction false} MembersRead(s: string, i: nat, items: Items)
    requires items.Item? && GoodItems(items, true) && SimpleItems(items) && StartsWith(s, i, ItemsText(items, "}"))
    ensures MembersAt(s, i) == Read(ItemsMeaning(items), i + |ItemsText(items, "}")|)
    ensures CharAt(s, Skip(s, i)) != '}'
    decreases items, 0
  {
    hide *;
    GoodItem(items, true);
    var Item(before, name, value, after, rest) := items;
    var q, v, t := QuotedText(name.ps), TreeText(value), Tail(rest, "}");
    MemberText(items, "}");
    var a := i + |before|;
    var b := a + |q|;
    var c := b + |name.left|;
    var d := c + 1 + |name.right|;
    var k := d + |v|;
    TextStart(value);
    StartsHigh(v[0]);
    TailStart(rest, "}");
    QuoteFirst(name.ps);
    MemberPlaces(s, i, before, q, name.left, name.right, v, after, t);
    QuotedRead(s, a, name.ps);
    ValueRead(s, d, value);
    MembersAtIs(s, i);
    var m := k + |after|;
    if rest.Item? {
      MoreItems(rest, "}");
      Parts(s, m, ",", ItemsText(rest, "}"));
      MembersRead(s, m + 1, rest);
    }
    ItemMeaning(items);
  }

  /** Where the pieces of a member begin. */
  lemma MemberPlaces(s: string, i: nat, before: string, q: string, left: string, right: string, v: string, after: string, t: string)
    requires StartsWith(s, i, before + (q + (left + (":" + (right + (v + (after + t)))))))
    requires White(before) && White(left) && White(right) && White(after)
    requires q != "" && q[0] == '\"' && v != "" && v[0] as int > 32 && t != "" && t[0] as int > 32 && EndsNumber(t[0])
    ensures var a := i + |before|;
      var b := a + |q|;
      var c := b + |left|;
      var d := c + 1 + |right|;
      var k := d + |v|;
      && Skip(s, i) == a && StartsWith(s, a, q) && CharAt(s, a) == '\"'
      && Skip(s, b) == c && CharAt(s, c) == ':'
      && Skip(s, c + 1) == d && StartsWith(s, d, v)
      && EndsNumber(CharAt(s, k)) && Skip(s, k) == k + |after| && StartsWith(s, k + |after|, t) && CharAt(s, k + |after|) == t[0]
  {
    hide StartsWith, Skip, CharAt, White, EndsNumber;
    var u := after + t;
    var a := i + |before|;
    var b := a + |q|;
    var c := b + |left|;
    var d := c + 1 + |right|;
    BlankBefore(s, i, before, q + (left + (":" + (right + (v + u)))));
    Parts(s, a, q, left + (":" + (right + (v + u))));
    BlankBefore(s, b, left, ":" + (right + (v + u)));
    Parts(s, c, ":", right + (v + u));
    BlankBefore(s, c + 1, right, v + u);
    Parts(s, d, v, u);
    BlankBefore(s, d + |v|, after, t);
  }

  lemma QuoteFirst(ps: seq<Piece>)
    ensures QuotedText(ps) != "" && QuotedText(ps)[0] == '\"'
  {
  }

  lemma MemberText(items: Items, close: string)
    requires items.Item? && GoodItems(items, true)
    ensures var q, left, right := QuotedText(items.name.ps), items.name.left, items.name.right;
      ItemsText(items, close)
      == items.before + (q + (left + (":" + (right + (TreeText(items.value) + (items.after + Tail(items.rest, close)))))))
  {
    hide TreeText, QuotedText;
    var q, left, right := QuotedText(items.name.ps), items.name.left, items.name.right;
    var u := TreeText(items.value) + (items.after + Tail(items.rest, close));
    Regroup(q, left + (":" + right), u);
    Regroup(left, ":" + right, u);
    Regroup(":", right, u);
  }

  /** A text of RFC 8259 is read as what it denotes, if what follows it cannot continue a number. */
  lemma {:induction false} ValueRead(s: string, i: nat, t: Tree)
    requires Good(t) && Simple(t) && StartsWith(s, i, TreeText(t)) && EndsNumber(CharAt(s, i + |TreeText(t)|))
    ensures ValueAt(s, i) == Read(Meaning(t), i + |TreeText(t)|)
    decreases t, 1
  {
    match t
    case Plain(k) =>
      match k { case 0 => case 1 => Words(s, i); case 2 => Words(s, i); }
    case Numeral(minus, digits, _, _) =>
      NumeralRead(s, i, minus, digits);
      NotWord(s, i);
    case Quoted(ps) =>
      QuotedRead(s, i, ps);
      NotWord(s, i);
    case List(items, gap) => ListRead(s, i, items, gap);
    case Dict(items, gap) => DictRead(s, i, items, gap);
  }

  lemma {:induction false} ListRead(s: string, i: nat, items: Items, gap: string)
    requires White(gap) && GoodItems(items, false) && SimpleItems(items) && StartsWith(s, i, TreeText(List(items, gap)))
    ensures ValueAt(s, i) == Read(Array(ItemsMeaning(items)), i + |TreeText(List(items, gap))|)
    decreases items, 1
  {
    hide *;
    var u := if items.NoItems? then gap + "]" else ItemsText(items, "]");
    ListText(items, gap);
    Parts(s, i, "[", u);
    First(s, i, "[");
    ArrayAt(s, i);
    if items.NoItems? {
      BlankBefore(s, i + 1, gap, "]");
    } else {
      ItemsRead(s, i + 1, items);
      SkipTwice(s, i + 1);
      ItemsAtSkipped(s, Skip(s, i + 1), i + 1);
    }
  }

  lemma ListText(items: Items, gap: string)
    ensures TreeText(List(items, gap)) == "[" + if items.NoItems? then gap + "]" else ItemsText(items, "]")
    ensures TreeText(Dict(items, gap)) == "{" + if items.NoItems? then gap + "}" else ItemsText(items, "}")
    ensures SimpleItems(NoItems) && ItemsMeaning(NoItems) == Nil
  {
  }

  lemma {:induction false} DictRead(s: string, i: nat, items: Items, gap: string)
    requires White(gap) && GoodItems(items, true) && SimpleItems(items) && StartsWith(s, i, TreeText(Dict(items, gap)))
    ensures ValueAt(s, i) == Read(Object(ItemsMeaning(items)), i + |TreeText(Dict(items, gap))|)
    decreases items, 1
  {
    hide *;
    var u := if items.NoItems? then gap + "}" else ItemsText(items, "}");
    ListText(items, gap);
    Parts(s, i, "{", u);
    First(s, i, "{");
    ObjectAt(s, i);
    if items.NoItems? {
      BlankBefore(s, i + 1, gap, "}");
    } else {
      MembersRead(s, i + 1, items);
      SkipTwice(s, i + 1);
      MembersAtSkipped(s, Skip(s, i + 1), i + 1);
    }
  }

  /** cJSON_Parse of a JSON text, with white space around the value, gives the tree it denotes, whatever follows its NUL. */
  lemma TextIsParsed(before: string, t: Tree, after: string, rest: string)
    requires White(before) && White(after) && Good(t) && Simple(t) && (rest == "" || rest[0] == '\0')
    ensures Parse(before + (TreeText(t) + (after + rest))) == Read(Meaning(t), |before| + |TreeText(t)|)
  {
    hide TreeText, Meaning, Good, Simple, ValueAt, White;
    var u := TreeText(t);
    var s := before + (u + (after + rest));
    TextStart(t);
    StartsHigh(u[0]);
    assert s[0..|s|] == s;
    BlankBefore(s, 0, before, u + (after + rest));
    Parts(s, |before|, u, after + rest);
    TextEnds(s, |before| + |u|, after, rest);
    ValueRead(s, |before|, t);
  }

  lemma TextEnds(s: string, k: nat, after: string, rest: string)
    requires White(after) && (rest == "" || rest[0] == '\0') && StartsWith(s, k, after + rest)
    requires k + |after + rest| == |s|
    ensures EndsNumber(CharAt(s, k))
  {
    WhiteIsBlank(after);
    if after + rest != "" {
      First(s, k, after + rest);
    }
  }
}
