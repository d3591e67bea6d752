/** JSON texts as RFC 8259 writes them, and what they denote, with character tables of their own. */
module Rfc8259 {
  import Cjson
  import opened Unicode

  // ---- Characters ----

  const WHITE := " \t\n\r"
  const DIGITS := "0123456789"
  const LOWER := "0123456789abcdef"
  const UPPER := "0123456789ABCDEF"

  /** The letters of the two-character escapes, and the characters they stand for (section 7). */
  const LETTERS := "\"\\/bfnrt"
  const MEANT: seq<char> := [0x22 as char, 0x5C as char, 0x2F as char, 0x08 as char,
                             0x0C as char, 0x0A as char, 0x0D as char, 0x09 as char]

  const WORDS := ["null", "false", "true"]

  predicate White(s: string) {
    forall k | 0 <= k < |s| :: s[k] in WHITE
  }

  type Decimal = n: nat | n < 10
  type Nibble = n: nat | n < 16
  type Letter = n: nat | n < 8
  type Word = n: nat | n < 3

  // ---- Strings (section 7) ----

  datatype Hex = Hex(value: Nibble, upper: bool)

  /** An unescaped octet, a two-character escape, or a \u escape. */
  datatype Piece = Raw(octet: char) | Short(k: Letter) | Unit(a: Hex, b: Hex, c: Hex, d: Hex)

  function HexChar(h: Hex): char {
    if h.upper then UPPER[h.value] else LOWER[h.value]
  }

  function PieceText(p: Piece): (s: string)
    ensures |s| > 0
  {
    match p
    case Raw(c) => [c]
    case Short(k) => ['\\', LETTERS[k]]
    case Unit(a, b, c, d) => ['\\', 'u', HexChar(a), HexChar(b), HexChar(c), HexChar(d)]
  }

  function BodyText(ps: seq<Piece>): string {
    if ps == [] then "" else PieceText(ps[0]) + BodyText(ps[1..])
  }

  predicate GoodPiece(p: Piece) {
    p.Raw? ==> 0x20 <= p.octet as int < 0x100 && p.octet != '\"' && p.octet != '\\'
  }

  predicate GoodBody(ps: seq<Piece>) {
    forall k | 0 <= k < |ps| :: GoodPiece(ps[k])
  }

  function UnitValue(p: Piece): (n: nat)
    requires p.Unit?
    ensures n < 0x10000
  {
    0x1000 * p.a.value + 0x100 * p.b.value + 0x10 * p.c.value + p.d.value
  }

  predicate High(p: Piece) {
    p.Unit? && 0xD800 <= UnitValue(p) < 0xDC00
  }

  predicate Low(p: Piece) {
    p.Unit? && 0xDC00 <= UnitValue(p) < 0xE000
  }

  /** Surrogates stand in pairs, and no escape denotes the NUL. */
  predicate Paired(ps: seq<Piece>) {
    ps == [] ||
    if High(ps[0]) then |ps| >= 2 && Low(ps[1]) && Paired(ps[2..])
    else !Low(ps[0]) && (ps[0].Unit? ==> UnitValue(ps[0]) != 0) && Paired(ps[1..])
  }

  /** The octets the string denotes. */
  function BodyMeaning(ps: seq<Piece>): string
    requires Paired(ps)
  {
    if ps == [] then ""
    else if High(ps[0]) then
      Utf8(0x10000 + (UnitValue(ps[0]) - 0xD800) * 0x400 + (UnitValue(ps[1]) - 0xDC00)) + BodyMeaning(ps[2..])
    else
      (match ps[0]
       case Raw(c) => [c]
       case Short(k) => [MEANT[k]]
       case Unit(_, _, _, _) => Utf8(UnitValue(ps[0]))) + BodyMeaning(ps[1..])
  }

  // ---- Numbers (section 6) ----

  datatype Sign = Unsigned | Plus | Minus
  datatype Exponent = NoExponent | Exponent(upper: bool, sign: Sign, digits: seq<Decimal>)

  function DigitsText(ds: seq<Decimal>): (s: string)
    ensures |s| == |ds|
  {
    seq(|ds|, i requires 0 <= i < |ds| => DIGITS[ds[i]])
  }

  function ExponentText(e: Exponent): string {
    match e
    case NoExponent => ""
    case Exponent(upper, sign, digits) =>
      (if upper then "E" else "e") + (match sign case Unsigned => "" case Plus => "+" case Minus => "-") + DigitsText(digits)
  }

  predicate GoodNumber(digits: seq<Decimal>, exp: Exponent) {
    digits != [] && (|digits| > 1 ==> digits[0] != 0) && (exp.Exponent? ==> exp.digits != [])
  }

  /** The value of decimal digits. */
  function DecimalValue(ds: seq<Decimal>): nat {
    if ds == [] then 0 else DecimalValue(ds[..|ds| - 1]) * 10 + ds[|ds| - 1]
  }

  // ---- Values (sections 3 to 5) ----

  /** How a value is written; `gap` is the white space of an empty array or object. */
  datatype Tree =
    | Plain(k: Word)
    | Numeral(minus: bool, digits: seq<Decimal>, frac: seq<Decimal>, exp: Exponent)
    | Quoted(ps: seq<Piece>)
    | List(items: Items, gap: string)
    | Dict(items: Items, gap: string)

  /** Values with the white space around them; in an object each has a name and white space around the colon. */
  datatype Items = NoItems | Item(before: string, name: Name, value: Tree, after: string, rest: Items)
  datatype Name = Unnamed | Named(ps: seq<Piece>, left: string, right: string)

  function QuotedText(ps: seq<Piece>): string {
    "\"" + (BodyText(ps) + "\"")
  }

  function NumeralText(minus: bool, digits: seq<Decimal>, frac: seq<Decimal>, exp: Exponent): string {
    (if minus then "-" else "") + (DigitsText(digits) + ((if frac == [] then "" else "." + DigitsText(frac)) + ExponentText(exp)))
  }

  function NameText(n: Name): string {
    match n
    case Unnamed => ""
    case Named(ps, left, right) => QuotedText(ps) + (left + (":" + right))
  }

  function TreeText(t: Tree): string {
    match t
    case Plain(k) => WORDS[k]
    case Numeral(minus, digits, frac, exp) => NumeralText(minus, digits, frac, exp)
    case Quoted(ps) => QuotedText(ps)
    case List(items, gap) => "[" + (if items.NoItems? then gap + "]" else ItemsText(items, "]"))
    case Dict(items, gap) => "{" + (if items.NoItems? then gap + "}" else ItemsText(items, "}"))
  }

  /** The items and the closing bracket. */
  function ItemsText(items: Items, close: string): string {
    match items
    case NoItems => close
    case Item(before, name, value, after, rest) =>
      before + (NameText(name) + (TreeText(value) + (after + if rest.NoItems? then close else "," + ItemsText(rest, close))))
  }

  predicate GoodName(n: Name, named: bool) {
    if named then n.Named? && GoodBody(n.ps) && White(n.left) && White(n.right) else n.Unnamed?
  }

  /** The text is one of RFC 8259. */
  predicate Good(t: Tree) {
    match t
    case Plain(_) => true
    case Numeral(_, digits, _, exp) => GoodNumber(digits, exp)
    case Quoted(ps) => GoodBody(ps)
    case List(items, gap) => White(gap) && GoodItems(items, false)
    case Dict(items, gap) => White(gap) && GoodItems(items, true)
  }

  predicate GoodItems(items: Items, named: bool) {
    match items
    case NoItems => true
    case Item(before, name, value, after, rest) =>
      White(before) && GoodName(name, named) && Good(value) && White(after) && GoodItems(rest, named)
  }

  // ---- What a text denotes ----

  /** Integers, and strings that denote octets other than NUL. */
  predicate Simple(t: Tree) {
    match t
    case Plain(_) => true
    case Numeral(_, _, frac, exp) => frac == [] && exp.NoExponent?
    case Quoted(ps) => Paired(ps)
    case List(items, _) => SimpleItems(items)
    case Dict(items, _) => SimpleItems(items)
  }

  predicate SimpleItems(items: Items) {
    match items
    case NoItems => true
    case Item(_, name, value, _, rest) => (name.Named? ==> Paired(name.ps)) && Simple(value) && SimpleItems(rest)
  }

  function Signed(minus: bool, n: nat): int {
    var m: int := n;
    if minus then -m else m
  }

  function Meaning(t: Tree): Cjson.Json
    requires Simple(t)
  {
    match t
    case Plain(k) => if k == 0 then Cjson.Null else if k == 1 then Cjson.False else Cjson.True
    case Numeral(minus, digits, _, _) => Cjson.Number(Signed(minus, DecimalValue(digits)))
    case Quoted(ps) => Cjson.Str(BodyMeaning(ps))
    case List(items, _) => Cjson.Array(ItemsMeaning(items))
    case Dict(items, _) => Cjson.Object(ItemsMeaning(items))
  }

  function ItemsMeaning(items: Items): Cjson.Chain
    requires SimpleItems(items)
  {
    match items
    case NoItems => Cjson.Nil
    case Item(_, name, value, _, rest) =>
      Cjson.Link(if name.Named? then BodyMeaning(name.ps) else "", Meaning(value), ItemsMeaning(rest))
  }
}
