/** The JSON tokeniser of jsmn.c, built with JSMN_STRICT and JSMN_PARENT_LINKS. */
module Jsmn {

  datatype Kind = Primitive | Object | Array | String

  /** A token; `size` is an 8-bit counter, the other numbers are 16-bit. */
  datatype Token = Token(kind: Kind, size: nat, start: int, end: int, parent: int)

  const NOMEM := -1
  const INVAL := -2
  const PART := -3

  /** A C string: `len` characters to be parsed, inside a buffer that ends in a NUL. */
  predicate Terminated(js: string, len: nat) {
    len < |js| <= 0x8000 && js[|js| - 1] == '\0'
  }

  // ---- Characters ----

  predicate Separator(c: char) {
    c == '\t' || c == '\r' || c == '\n' || c == ':' || c == ',' || c == ' '
  }

  predicate EndsPrimitive(c: char) {
    c == '\t' || c == '\r' || c == '\n' || c == ' ' || c == ',' || c == ']' || c == '}'
  }

  predicate Printable(c: char) {
    ' ' <= c < 0x7f as char
  }

  predicate StartsPrimitive(c: char) {
    c == '-' || '0' <= c <= '9' || c == 't' || c == 'f' || c == 'n'
  }

  predicate SimpleEscape(c: char) {
    c == '\"' || c == '/' || c == '\\' || c == 'b' || c == 'f' || c == 'r' || c == 'n' || c == 't'
  }

  predicate HexDigit(c: char) {
    '0' <= c <= '9' || 'A' <= c <= 'F' || 'a' <= c <= 'f'
  }

  function Bracket(c: char): Kind {
    if c == '{' || c == '}' then Object else Array
  }

  // ---- Where a primitive or a string ends ----

  datatype Scan = Found(at: nat) | Bad | Unfinished

  function PrimitiveScan(js: string, len: nat, p: nat): Scan
    requires len <= |js|
    decreases len - p
  {
    if p >= len || js[p] == '\0' then Unfinished
    else if EndsPrimitive(js[p]) then Found(p)
    else if !Printable(js[p]) then Bad
    else PrimitiveScan(js, len, p + 1)
  }

  /** Up to `n` hexadecimal digits, fewer only before a NUL. */
  function HexScan(js: string, p: nat, n: nat): (r: Scan)
    requires |js| > 0 && js[|js| - 1] == '\0' && p < |js|
    ensures r.Found? ==> p <= r.at < |js|
    decreases n
  {
    if n == 0 || js[p] == '\0' then Found(p)
    else if !HexDigit(js[p]) then Bad
    else HexScan(js, p + 1, n - 1)
  }

  function StringScan(js: string, len: nat, p: nat): Scan
    requires Terminated(js, len)
    decreases |js| - p
  {
    if p >= len || js[p] == '\0' then Unfinished
    else if js[p] == '\"' then Found(p)
    else if js[p] != '\\' then StringScan(js, len, p + 1)
    else if SimpleEscape(js[p + 1]) then StringScan(js, len, p + 2)
    else if js[p + 1] != 'u' then Bad
    else
      match HexScan(js, p + 2, 4)
      case Found(q) => StringScan(js, len, q)
      case _ => Bad
  }

  // ---- The tokens so far, and the stack of open containers ----

  /** The tokens in order, and the indices of the containers still open, innermost last. */
  datatype Forest = Forest(tokens: seq<Token>, open: seq<nat>)

  function Super(f: Forest): int {
    if f.open == [] then -1 else f.open[|f.open| - 1]
  }

  predicate Stacked(f: Forest) {
    forall k | 0 <= k < |f.open| :: f.open[k] < |f.tokens|
  }

  /** One more child for token `i`, counted in eight bits. */
  function Bump(tokens: seq<Token>, i: int): (r: seq<Token>)
    requires i < |tokens|
    ensures |r| == |tokens|
  {
    if i < 0 then tokens else tokens[i := tokens[i].(size := (tokens[i].size + 1) % 256)]
  }

  function LeafAt(f: Forest, kind: Kind, start: int, end: int): Forest
    requires Stacked(f)
  {
    Forest(Bump(f.tokens, Super(f)) + [Token(kind, 0, start, end, Super(f))], f.open)
  }

  function OpenAt(f: Forest, kind: Kind, pos: int): Forest
    requires Stacked(f)
  {
    Forest(LeafAt(f, kind, pos, -1).tokens, f.open + [|f.tokens|])
  }

  /** A closing bracket must match the innermost open container; with none open it is ignored. */
  predicate Closes(f: Forest, kind: Kind)
    requires Stacked(f)
  {
    f.tokens != [] && (f.open == [] || f.tokens[Super(f)].kind == kind)
  }

  function CloseAt(f: Forest, pos: int): Forest
    requires Stacked(f)
  {
    if f.open == [] then f
    else Forest(f.tokens[Super(f) := f.tokens[Super(f)].(end := pos + 1)], f.open[..|f.open| - 1])
  }

  lemma {:induction false} PrimitiveBounds(js: string, len: nat, p: nat)
    requires len <= |js|
    ensures var r := PrimitiveScan(js, len, p); r.Found? ==> p <= r.at < len
    decreases len - p
  {
    if p < len && js[p] != '\0' && !EndsPrimitive(js[p]) && Printable(js[p]) {
      PrimitiveBounds(js, len, p + 1);
    }
  }

  lemma {:induction false} StringBounds(js: string, len: nat, p: nat)
    requires Terminated(js, len)
    ensures var r := StringScan(js, len, p); r.Found? ==> p <= r.at < len && js[r.at] == '\"'
    decreases |js| - p
  {
    if p < len && js[p] != '\0' && js[p] != '\"' {
      if js[p] != '\\' {
        StringBounds(js, len, p + 1);
      } else if SimpleEscape(js[p + 1]) {
        StringBounds(js, len, p + 2);
      } else if js[p + 1] == 'u' && HexScan(js, p + 2, 4).Found? {
        StringBounds(js, len, HexScan(js, p + 2, 4).at);
      }
    }
  }

  lemma ScanBounds(js: string, len: nat, p: nat)
    requires Terminated(js, len)
    ensures var r := StringScan(js, len, p); r.Found? ==> p <= r.at < len && js[r.at] == '\"'
    ensures var r := PrimitiveScan(js, len, p); r.Found? ==> p <= r.at < len
    ensures p < len && StartsPrimitive(js[p]) && PrimitiveScan(js, len, p).Found? ==> p < PrimitiveScan(js, len, p).at
  {
    StringBounds(js, len, p);
    PrimitiveBounds(js, len, p);
    if p < len {
      PrimitiveBounds(js, len, p + 1);
    }
  }

  // ---- Runs ----

  /** One lexeme: the new forest and position, or an error, which leaves both as they were. */
  datatype Step = Going(forest: Forest, pos: nat) | Stopped(error: int)

  /** A string or a primitive starting at `pos`. */
  function LeafStep(js: string, len: nat, room: nat, f: Forest, pos: nat, kind: Kind): Step
    requires Terminated(js, len) && Stacked(f)
  {
    var start := if kind == String then pos + 1 else pos;
    match if kind == String then StringScan(js, len, start) else PrimitiveScan(js, len, start)
    case Bad => Stopped(INVAL)
    case Unfinished => Stopped(PART)
    case Found(q) =>
      if |f.tokens| >= room then Stopped(NOMEM)
      else Going(LeafAt(f, kind, start, q), if kind == String then q + 1 else q)
  }

  function Advance(js: string, len: nat, room: nat, f: Forest, pos: nat): Step
    requires Terminated(js, len) && Stacked(f) && pos < len
  {
    var c := js[pos];
    if c == '{' || c == '[' then
      if |f.tokens| >= room then Stopped(NOMEM) else Going(OpenAt(f, Bracket(c), pos), pos + 1)
    else if c == '}' || c == ']' then
      if Closes(f, Bracket(c)) then Going(CloseAt(f, pos), pos + 1) else Stopped(INVAL)
    else if c == '\"' then LeafStep(js, len, room, f, pos, String)
    else if Separator(c) then Going(f, pos + 1)
    else if StartsPrimitive(c) then LeafStep(js, len, room, f, pos, Primitive)
    else Stopped(INVAL)
  }

  lemma AdvanceProgress(js: string, len: nat, room: nat, f: Forest, pos: nat)
    requires Terminated(js, len) && Stacked(f) && pos < len
    ensures var s := Advance(js, len, room, f, pos);
      match s
      case Going(g, next) => pos < next <= len && Stacked(g) && |f.tokens| <= |g.tokens| <= |f.tokens| + 1
      case Stopped(error) => error == NOMEM || error == INVAL || error == PART
  {
    ScanBounds(js, len, pos);
    ScanBounds(js, len, pos + 1);
  }

  /** Where a run stops: at the end of the text (error 0) or at an error. */
  datatype Halt = Halt(forest: Forest, pos: nat, error: int)

  /** The tokeniser over an explicit stack. */
  function Run(js: string, len: nat, room: nat, f: Forest, pos: nat): Halt
    requires Terminated(js, len) && Stacked(f)
    decreases |js| - pos
  {
    if pos >= len || js[pos] == '\0' then Halt(f, pos, 0)
    else
      AdvanceProgress(js, len, room, f, pos);
      match Advance(js, len, room, f, pos)
      case Stopped(error) => Halt(f, pos, error)
      case Going(g, next) => Run(js, len, room, g, next)
  }
}
