/** Trees of cJSON nodes and the text cJSON_Print and cJSON_PrintUnformatted write for them. */
module Cjson {

  /**
   A node without its links. The children of an array or object form a chain; each link carries the
   child's name, which is empty in an array.
   */
  datatype Json = Null | False | True | Number(n: int) | Str(s: string) | Array(child: Chain) | Object(child: Chain)
  datatype Chain = Nil | Link(name: string, item: Json, next: Chain)

  /** A C string of bytes. */
  predicate ByteString(s: string) {
    forall k | 0 <= k < |s| :: '\0' < s[k] && s[k] as int < 256
  }

  /** Integers of the C type int, C strings, and names only in objects. */
  predicate Legal(v: Json) {
    match v
    case Number(n) => -0x8000_0000 <= n < 0x8000_0000
    case Str(s) => ByteString(s)
    case Array(child) => LegalChain(child, false)
    case Object(child) => LegalChain(child, true)
    case _ => true
  }

  predicate LegalChain(c: Chain, named: bool) {
    match c
    case Nil => true
    case Link(name, item, next) => (if named then ByteString(name) else name == "") && Legal(item) && LegalChain(next, named)
  }

  lemma LegalIs(v: Json)
    requires Legal(v)
    ensures match v
      case Number(n) => -0x8000_0000 <= n < 0x8000_0000
      case Str(s) => ByteString(s)
      case Array(child) => LegalChain(child, false)
      case Object(child) => LegalChain(child, true)
      case _ => true
  {
  }

  lemma LegalChainIs(c: Chain, named: bool)
    requires c.Link? && LegalChain(c, named)
    ensures (if named then ByteString(c.name) else c.name == "") && Legal(c.item) && LegalChain(c.next, named)
  {
  }

  // ---- Numbers ----

  function Digit(d: nat): char
    requires d < 10
  {
    '0' + d as char
  }

  function Digits(n: nat): (s: string)
    ensures |s| > 0
  {
    if n < 10 then [Digit(n)] else Digits(n / 10) + [Digit(n % 10)]
  }

  /** "%d". */
  function PrintNumber(n: int): string {
    if n < 0 then "-" + Digits(-n) else Digits(n)
  }

  // ---- Strings ----

  function HexDigit(d: nat): char
    requires d < 16
  {
    if d < 10 then '0' + d as char else 'a' + (d - 10) as char
  }

  /** A character that print_string_ptr copies unchanged. */
  predicate Plain(c: char) {
    c as int > 31 && c != '\"' && c != '\\'
  }

  /** The letter of a two-character escape, or NUL when there is none. */
  function EscapeLetter(c: char): char {
    if c == '\\' then '\\'
    else if c == '\"' then '\"'
    else if c == 8 as char then 'b'
    else if c == 12 as char then 'f'
    else if c == '\n' then 'n'
    else if c == '\r' then 'r'
    else if c == '\t' then 't'
    else '\0'
  }

  function EscapeChar(c: char): string {
    if Plain(c) then [c]
    else if EscapeLetter(c) != '\0' then ['\\', EscapeLetter(c)]
    else ['\\', 'u', '0', '0', HexDigit(c as int / 16 % 16), HexDigit(c as int % 16)]
  }

  function Escape(s: string): string {
    if s == "" then "" else EscapeChar(s[0]) + Escape(s[1..])
  }

  function PrintString(s: string): string {
    "\"" + (Escape(s) + "\"")
  }

  // ---- Values ----

  function Tabs(n: int): string {
    if n <= 0 then "" else "\t" + Tabs(n - 1)
  }

  function If(fmt: bool, s: string): string {
    if fmt then s else ""
  }

  function PrintValue(v: Json, depth: nat, fmt: bool): string
    decreases v
  {
    match v
    case Null => "null"
    case False => "false"
    case True => "true"
    case Number(n) => PrintNumber(n)
    case Str(s) => PrintString(s)
    case Array(child) => if child.Nil? then "[]" else "[" + PrintItems(child, depth + 1, fmt)
    case Object(child) =>
      if child.Nil? then "{" + (If(fmt, "\n" + Tabs(depth - 1)) + "}")
      else "{" + (If(fmt, "\n") + PrintMembers(child, depth + 1, fmt))
  }

  /** The items of a nonempty array, and its closing bracket. */
  function PrintItems(c: Chain, depth: nat, fmt: bool): string
    decreases c
  {
    match c
    case Nil => "]"
    case Link(_, item, next) =>
      PrintValue(item, depth, fmt) + (if next.Nil? then "]" else "," + (If(fmt, " ") + PrintItems(next, depth, fmt)))
  }

  /** The members of a nonempty object at their depth, and its closing brace. */
  function PrintMembers(c: Chain, depth: nat, fmt: bool): string
    decreases c
  {
    match c
    case Nil => If(fmt, Tabs(depth - 1)) + "}"
    case Link(name, item, next) =>
      If(fmt, Tabs(depth)) + (PrintString(name) + (":" + (If(fmt, "\t") + (PrintValue(item, depth, fmt)
        + ((if next.Nil? then "" else ",") + (If(fmt, "\n") + PrintMembers(next, depth, fmt)))))))
  }

  function Print(v: Json): string { PrintValue(v, 0, true) }
  function PrintUnformatted(v: Json): string { PrintValue(v, 0, false) }
}
