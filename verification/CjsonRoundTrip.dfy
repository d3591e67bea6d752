/** The printer of cJSON.c writes a text of RFC 8259 that denotes the tree, and the parser gives the tree back. */
module CjsonRoundTrip {
  import opened Cjson
  import opened Unicode
  import opened CjsonParse
  import opened CjsonSteps
  import opened Rfc8259
  import opened CjsonGrammar

  // ---- Strings ----

  /** How print_string_ptr writes a character. */
  function PieceOf(c: char): Piece {
    if Cjson.Plain(c) then Raw(c)
    else if c == '\"' then Short(0)
    else if c == '\\' then Short(1)
    else if c as int == 0x08 then Short(3)
    else if c as int == 0x0C then Short(4)
    else if c as int == 0x0A then Short(5)
    else if c as int == 0x0D then Short(6)
    else if c as int == 0x09 then Short(7)
    else Unit(Hex(0, false), Hex(0, false), Hex(c as int / 16 % 16, false), Hex(c as int % 16, false))
  }

  function PiecesOf(s: string): (ps: seq<Piece>)
    ensures |ps| == |s|
  {
    seq(|s|, i requires 0 <= i < |s| => PieceOf(s[i]))
  }

  lemma HexCharIs(d: Nibble)
    ensures HexChar(Hex(d, false)) == Cjson.HexDigit(d)
  {
    match d { case 0 => case 1 => case 2 => case 3 => case 4 => case 5 => case 6 => case 7 => case 8 => case 9 =>
      case 10 => case 11 => case 12 => case 13 => case 14 => case 15 => }
  }

  /** An escaped character is one piece, and denotes the character. */
  lemma PieceWritten(c: char)
    requires '\0' < c && c as int < 256
    ensures var p := PieceOf(c);
      && PieceText(p) == EscapeChar(c) && GoodPiece(p) && !High(p) && !Low(p) && (p.Unit? ==> UnitValue(p) != 0)
      && match p { case Raw(d) => d == c case Short(k) => MEANT[k] == c case Unit(_, _, _, _) => Utf8(UnitValue(p)) == [c] }
  {
    hide HexChar;
    HexCharIs(0);
    HexCharIs(c as int / 16 % 16);
    HexCharIs(c as int % 16);
  }

  lemma {:induction false} BodyWritten(s: string)
    requires ByteString(s)
    ensures var ps := PiecesOf(s);
      BodyText(ps) == Escape(s) && GoodBody(ps) && Paired(ps) && BodyMeaning(ps) == s
  {
    hide PieceOf, EscapeChar, PieceText, UnitValue, GoodPiece, Utf8;
    var ps := PiecesOf(s);
    if s != "" {
      PieceWritten(s[0]);
      BodyWritten(s[1..]);
      assert ps[1..] == PiecesOf(s[1..]);
      assert s == [s[0]] + s[1..];
      forall k | 0 <= k < |ps| ensures GoodPiece(ps[k]) {
        assert k > 0 ==> ps[k] == ps[1..][k - 1];
      }
    }
  }

  lemma StringWritten(s: string)
    requires ByteString(s)
    ensures var ps := PiecesOf(s);
      QuotedText(ps) == PrintString(s) && GoodBody(ps) && Paired(ps) && BodyMeaning(ps) == s
  {
    BodyWritten(s);
  }

  // ---- Numbers ----

  function DigitsOf(n: nat): (ds: seq<Decimal>)
    ensures ds != []
  {
    if n < 10 then [n] else DigitsOf(n / 10) + [n % 10]
  }

  lemma DigitIs(d: Decimal)
    ensures DIGITS[d] == Digit(d)
  {
    DigitRead(d);
  }

  lemma {:induction false} DigitsWritten(n: nat)
    ensures DigitsText(DigitsOf(n)) == Digits(n) && DecimalValue(DigitsOf(n)) == n
    ensures n > 0 ==> DigitsOf(n)[0] != 0
    ensures n == 0 ==> |DigitsOf(n)| == 1
  {
    var ds := DigitsOf(n);
    DigitIs(n % 10);
    if n < 10 {
      assert ds[..0] == [];
    } else {
      DigitsWritten(n / 10);
      assert ds[..|ds| - 1] == DigitsOf(n / 10);
      assert DigitsText(ds) == DigitsText(DigitsOf(n / 10)) + [DIGITS[n % 10]];
    }
  }

  function Magnitude(n: int): nat {
    if n < 0 then -n else n
  }

  lemma NumberWritten(n: int)
    ensures var ds := DigitsOf(Magnitude(n));
      && NumeralText(n < 0, ds, [], NoExponent) == PrintNumber(n) && GoodNumber(ds, NoExponent)
      && Signed(n < 0, DecimalValue(ds)) == n
  {
    hide DigitsOf, Digits, DecimalValue;
    var ds := DigitsOf(Magnitude(n));
    DigitsWritten(Magnitude(n));
    assert DigitsText(ds) + ("" + "") == DigitsText(ds);
    assert "" + DigitsText(ds) == DigitsText(ds);
    if |ds| > 1 {
      OneDigit(Magnitude(n));
    }
  }

  lemma OneDigit(n: nat)
    requires |DigitsOf(n)| > 1
    ensures n > 0
  {
  }

  // ---- Values ----

  /** How cJSON_Print and cJSON_PrintUnformatted write a tree. */
  function TreeOf(v: Json, depth: nat, fmt: bool): Tree
    decreases v
  {
    match v
    case Null => Rfc8259.Plain(0)
    case False => Rfc8259.Plain(1)
    case True => Rfc8259.Plain(2)
    case Number(n) => Numeral(n < 0, DigitsOf(Magnitude(n)), [], NoExponent)
    case Str(s) => Quoted(PiecesOf(s))
    case Array(child) => List(ItemsOf(child, "", depth + 1, fmt), "")
    case Object(child) => Dict(MembersOf(child, depth + 1, fmt), If(fmt, "\n" + Tabs(depth - 1)))
  }

  function ItemsOf(c: Chain, before: string, depth: nat, fmt: bool): Items
    decreases c
  {
    match c
    case Nil => NoItems
    case Link(_, item, next) => Item(before, Unnamed, TreeOf(item, depth, fmt), "", ItemsOf(next, If(fmt, " "), depth, fmt))
  }

  function MembersOf(c: Chain, depth: nat, fmt: bool): Items
    decreases c
  {
    match c
    case Nil => NoItems
    case Link(name, item, next) =>
      Item(If(fmt, "\n") + If(fmt, Tabs(depth)), Named(PiecesOf(name), "", If(fmt, "\t")), TreeOf(item, depth, fmt),
           if next.Nil? then If(fmt, "\n") + If(fmt, Tabs(depth - 1)) else "", MembersOf(next, depth, fmt))
  }

  lemma {:induction false} TabsWhite(n: int)
    ensures White(Tabs(n))
    decreases if n > 0 then n else 0
  {
    if n > 0 {
      TabsWhite(n - 1);
    }
  }

  lemma GapsWhite(depth: nat, fmt: bool)
    ensures White("") && White(If(fmt, " ")) && White(If(fmt, "\t")) && White(If(fmt, "\n" + Tabs(depth - 1)))
    ensures White(If(fmt, "\n") + If(fmt, Tabs(depth))) && White(If(fmt, "\n") + If(fmt, Tabs(depth - 1)))
  {
    TabsWhite(depth);
    TabsWhite(depth - 1);
  }

  /** What is printed is a JSON text that denotes the tree. */
  lemma {:induction false} PrintedIsText(v: Json, depth: nat, fmt: bool)
    requires Cjson.Legal(v)
    ensures var t := TreeOf(v, depth, fmt);
      TreeText(t) == PrintValue(v, depth, fmt) && Good(t) && Simple(t) && Meaning(t) == v
    decreases v, 0
  {
    hide PiecesOf, DigitsOf, PrintString, PrintNumber, QuotedText, NumeralText, Paired, BodyMeaning, GoodBody, White;
    LegalIs(v);
    match v
    case Null =>
    case False =>
    case True =>
    case Number(n) => NumberWritten(n);
    case Str(s) => StringWritten(s);
    case Array(child) =>
      ItemsAreText(child, "", depth + 1, fmt) by {
        GapsWhite(depth, fmt);
      }
      ArrayIsText(child, depth, fmt);
    case Object(child) =>
      MembersAreText(child, depth + 1, fmt);
      ObjectIsText(child, depth, fmt);
  }

  lemma ArrayIsText(child: Chain, depth: nat, fmt: bool)
    requires var t := ItemsOf(child, "", depth + 1, fmt);
      && (child.Link? ==> ItemsText(t, "]") == "" + PrintItems(child, depth + 1, fmt))
      && GoodItems(t, false) && SimpleItems(t) && ItemsMeaning(t) == child
    ensures var t := TreeOf(Array(child), depth, fmt);
      TreeText(t) == PrintValue(Array(child), depth, fmt) && Good(t) && Simple(t) && Meaning(t) == Array(child)
  {
    hide ItemsText, PrintItems, GoodItems, SimpleItems, ItemsMeaning;
    Joined("", if child.Nil? then "]" else PrintItems(child, depth + 1, fmt));
  }

  lemma ObjectIsText(child: Chain, depth: nat, fmt: bool)
    requires var t := MembersOf(child, depth + 1, fmt);
      && (child.Link? ==> ItemsText(t, "}") == If(fmt, "\n") + PrintMembers(child, depth + 1, fmt))
      && GoodItems(t, true) && SimpleItems(t) && ItemsMeaning(t) == child
    ensures var t := TreeOf(Object(child), depth, fmt);
      TreeText(t) == PrintValue(Object(child), depth, fmt) && Good(t) && Simple(t) && Meaning(t) == Object(child)
  {
    hide ItemsText, PrintMembers, GoodItems, SimpleItems, ItemsMeaning, White, If;
    GapsWhite(depth, fmt);
  }

  lemma {:induction false} ItemsAreText(c: Chain, before: string, depth: nat, fmt: bool)
    requires LegalChain(c, false) && White(before)
    ensures var t := ItemsOf(c, before, depth, fmt);
      && (c.Link? ==> ItemsText(t, "]") == before + PrintItems(c, depth, fmt))
      && GoodItems(t, false) && SimpleItems(t) && ItemsMeaning(t) == c
    decreases c, 1
  {
    hide White;
    if c.Link? {
      LegalChainIs(c, false);
      GapsWhite(depth, fmt);
      PrintedIsText(c.item, depth, fmt);
      ItemsAreText(c.next, If(fmt, " "), depth, fmt);
      ItemIsText(c, before, depth, fmt);
    }
  }

  lemma ItemIsText(c: Chain, before: string, depth: nat, fmt: bool)
    requires c.Link? && TreeText(TreeOf(c.item, depth, fmt)) == PrintValue(c.item, depth, fmt)
    requires c.next.Link? ==>
      ItemsText(ItemsOf(c.next, If(fmt, " "), depth, fmt), "]") == If(fmt, " ") + PrintItems(c.next, depth, fmt)
    ensures ItemsText(ItemsOf(c, before, depth, fmt), "]") == before + PrintItems(c, depth, fmt)
  {
    ItemShape(c, before, depth, fmt);
    PrintedItems(c, depth, fmt);
    hide *;
    var t := if c.next.Nil? then "]" else "," + ItemsText(ItemsOf(c.next, If(fmt, " "), depth, fmt), "]");
    Joined("", t);
    Joined("", PrintValue(c.item, depth, fmt) + t);
  }

  lemma ItemShape(c: Chain, before: string, depth: nat, fmt: bool)
    requires c.Link?
    ensures ItemsText(ItemsOf(c, before, depth, fmt), "]") ==
      before + ("" + (TreeText(TreeOf(c.item, depth, fmt)) + ("" +
        (if c.next.Nil? then "]" else "," + ItemsText(ItemsOf(c.next, If(fmt, " "), depth, fmt), "]")))))
  {
    hide TreeText, TreeOf;
  }

  lemma PrintedItems(c: Chain, depth: nat, fmt: bool)
    requires c.Link?
    ensures PrintItems(c, depth, fmt) ==
      PrintValue(c.item, depth, fmt) + (if c.next.Nil? then "]" else "," + (If(fmt, " ") + PrintItems(c.next, depth, fmt)))
  {
    hide PrintValue;
  }

  lemma {:induction false} MembersAreText(c: Chain, depth: nat, fmt: bool)
    requires LegalChain(c, true) && depth > 0
    ensures var t := MembersOf(c, depth, fmt);
      && (c.Link? ==> ItemsText(t, "}") == If(fmt, "\n") + PrintMembers(c, depth, fmt))
      && GoodItems(t, true) && SimpleItems(t) && ItemsMeaning(t) == c
    decreases c, 1
  {
    hide White, PiecesOf, Paired, BodyMeaning, GoodBody, QuotedText, PrintString;
    if c.Link? {
      LegalChainIs(c, true);
      GapsWhite(depth, fmt);
      StringWritten(c.name);
      PrintedIsText(c.item, depth, fmt);
      MembersAreText(c.next, depth, fmt);
      MemberIsText(c, depth, fmt);
    }
  }

  lemma MemberIsText(c: Chain, depth: nat, fmt: bool)
    requires c.Link? && depth > 0
    requires QuotedText(PiecesOf(c.name)) == PrintString(c.name)
    requires TreeText(TreeOf(c.item, depth, fmt)) == PrintValue(c.item, depth, fmt)
    requires c.next.Link? ==> ItemsText(MembersOf(c.next, depth, fmt), "}") == If(fmt, "\n") + PrintMembers(c.next, depth, fmt)
    ensures ItemsText(MembersOf(c, depth, fmt), "}") == If(fmt, "\n") + PrintMembers(c, depth, fmt)
  {
    MemberShape(c, depth, fmt);
    PrintedMembers(c, depth, fmt);
    hide *;
    var nl, tabs, tab, end := If(fmt, "\n"), If(fmt, Tabs(depth)), If(fmt, "\t"), If(fmt, Tabs(depth - 1));
    var q, v := PrintString(c.name), PrintValue(c.item, depth, fmt);
    var more := if c.next.Nil? then nl + (end + "}") else "," + (nl + PrintMembers(c.next, depth, fmt));
    Joined(nl, end + "}");
    Joined(nl, PrintMembers(c.next, depth, fmt));
    Joined(":", tab);
    Regroup(nl, end, "}");
    Regroup(q, ":" + tab, v + more);
    Regroup(":", tab, v + more);
    Regroup(nl, tabs, q + (":" + (tab + (v + more))));
    if c.next.Nil? {
      LastMember(depth, fmt);
    } else {
      Joined("", "," + (nl + PrintMembers(c.next, depth, fmt)));
    }
  }

  lemma MemberShape(c: Chain, depth: nat, fmt: bool)
    requires c.Link? && depth > 0
    ensures ItemsText(MembersOf(c, depth, fmt), "}") ==
      (If(fmt, "\n") + If(fmt, Tabs(depth)))
      + ((QuotedText(PiecesOf(c.name)) + ("" + (":" + If(fmt, "\t"))))
         + (TreeText(TreeOf(c.item, depth, fmt))
            + (if c.next.Nil? then (If(fmt, "\n") + If(fmt, Tabs(depth - 1))) + "}"
               else "" + ("," + ItemsText(MembersOf(c.next, depth, fmt), "}")))))
  {
    hide TreeText, TreeOf, QuotedText, PiecesOf, If;
  }

  lemma PrintedMembers(c: Chain, depth: nat, fmt: bool)
    requires c.Link?
    ensures PrintMembers(c, depth, fmt) ==
      If(fmt, Tabs(depth)) + (PrintString(c.name) + (":" + (If(fmt, "\t") + (PrintValue(c.item, depth, fmt)
        + ((if c.next.Nil? then "" else ",") + (If(fmt, "\n") + PrintMembers(c.next, depth, fmt)))))))
  {
    hide PrintValue, PrintString, If;
  }

  lemma LastMember(depth: nat, fmt: bool)
    requires depth > 0
    ensures PrintMembers(Nil, depth, fmt) == If(fmt, Tabs(depth - 1)) + "}"
  {
  }

  lemma Joined(a: string, b: string)
    ensures "" + (a + b) == a + b && "" + b == b && "" + a == a
  {
  }

  // ---- Round trips ----

  lemma NumberRoundTrip(s: string, i: nat, n: int)
    requires StartsWith(s, i, PrintNumber(n)) && EndsNumber(CharAt(s, i + |PrintNumber(n)|))
    ensures NumberAt(s, i) == Read(Number(n), i + |PrintNumber(n)|)
  {
    hide NumeralText, PrintNumber, DigitsOf, NumberAt;
    NumberWritten(n);
    NumeralRead(s, i, n < 0, DigitsOf(Magnitude(n)));
  }

  lemma StringRoundTrip(s: string, i: nat, t: string)
    requires ByteString(t) && StartsWith(s, i, PrintString(t))
    ensures StringAt(s, i) == Read(t, i + |PrintString(t)|) && CharAt(s, i) == '\"'
  {
    hide PiecesOf, PrintString, QuotedText, StringAt;
    StringWritten(t);
    QuotedRead(s, i, PiecesOf(t));
  }

  /** A value is read back wherever it stands, if what follows it cannot continue a number. */
  lemma ValueRoundTrip(s: string, i: nat, v: Json, depth: nat, fmt: bool)
    requires Cjson.Legal(v) && StartsWith(s, i, PrintValue(v, depth, fmt))
    requires EndsNumber(CharAt(s, i + |PrintValue(v, depth, fmt)|))
    ensures ValueAt(s, i) == Read(v, i + |PrintValue(v, depth, fmt)|)
  {
    hide PrintValue, TreeOf, TreeText, Meaning, Good, Simple, ValueAt;
    PrintedIsText(v, depth, fmt);
    ValueRead(s, i, TreeOf(v, depth, fmt));
  }

  lemma ValueStart(v: Json, depth: nat, fmt: bool)
    requires Cjson.Legal(v)
    ensures PrintValue(v, depth, fmt) != "" && StartsValue(PrintValue(v, depth, fmt)[0])
  {
    hide PrintValue, TreeOf, TreeText, Good;
    PrintedIsText(v, depth, fmt);
    TextStart(TreeOf(v, depth, fmt));
  }

  /** cJSON_Parse undoes cJSON_Print and cJSON_PrintUnformatted, and consumes all of the text. */
  lemma ParseUndoesPrint(v: Json)
    requires Cjson.Legal(v)
    ensures Parse(Print(v)) == Read(v, |Print(v)|)
    ensures Parse(PrintUnformatted(v)) == Read(v, |PrintUnformatted(v)|)
  {
    hide PrintValue, TreeOf, TreeText, Meaning, Good, Simple, Parse;
    forall fmt: bool ensures Parse(PrintValue(v, 0, fmt)) == Read(v, |PrintValue(v, 0, fmt)|) {
      PrintedIsText(v, 0, fmt);
      TextIsParsed("", TreeOf(v, 0, fmt), "", "");
      assert "" + (PrintValue(v, 0, fmt) + ("" + "")) == PrintValue(v, 0, fmt);
    }
  }
}
