/** What cJSON_Parse reads from a text. */
module CjsonParse {
  import opened Cjson
  import opened Unicode

  /** A NUL-terminated text, read as NULs from its end on. */
  function CharAt(s: string, i: nat): char {
    if i < |s| then s[i] else '\0'
  }

  /** The text at `i` begins with `t` (strncmp). */
  predicate StartsWith(s: string, i: nat, t: string) {
    i + |t| <= |s| && s[i..i + |t|] == t
  }

  /** The value read and the position after it. */
  datatype Result<T> = Read(value: T, next: nat) | Malformed

  /** Past white space and control characters. */
  function Skip(s: string, i: nat): (j: nat)
    ensures i <= j
    decreases |s| - i
  {
    if i < |s| && s[i] != '\0' && s[i] as int <= 32 then Skip(s, i + 1) else i
  }

  // ---- Numbers ----

  predicate IsDigit(c: char) {
    '0' <= c <= '9'
  }

  function DigitsAt(s: string, i: nat, n: nat): (r: (nat, nat))
    ensures i <= r.1 && (i < |s| && IsDigit(s[i]) ==> i < r.1)
    decreases |s| - i
  {
    if i < |s| && IsDigit(s[i]) then DigitsAt(s, i + 1, n * 10 + (s[i] as int - '0' as int)) else (n, i)
  }

  /** An integer; a fraction or an exponent is not part of the model. */
  function NumberAt(s: string, i: nat): (r: Result<Json>)
    ensures r.Read? && (CharAt(s, i) == '-' || IsDigit(CharAt(s, i))) ==> i < r.next
  {
    var neg := CharAt(s, i) == '-';
    var j := if neg then i + 1 else i;
    var k := if CharAt(s, j) == '0' then j + 1 else j;
    var (n: int, e) := if '1' <= CharAt(s, k) <= '9' then DigitsAt(s, k, 0) else (0, k);
    if (CharAt(s, e) == '.' && IsDigit(CharAt(s, e + 1))) || CharAt(s, e) == 'e' || CharAt(s, e) == 'E' then Malformed
    else Read(Number(if neg then -n else n), e)
  }

  // ---- Strings ----

  /** The value of a hexadecimal digit, or -1. */
  function HexValue(c: char): int {
    if '0' <= c <= '9' then c as int - '0' as int
    else if 'A' <= c <= 'F' then 10 + (c as int - 'A' as int)
    else if 'a' <= c <= 'f' then 10 + (c as int - 'a' as int)
    else -1
  }

  /** parse_hex4: 0 unless four hexadecimal digits follow. */
  function Hex4At(s: string, i: nat): (h: nat)
    ensures h < 0x10000
  {
    var a, b, c, d := HexValue(CharAt(s, i)), HexValue(CharAt(s, i + 1)), HexValue(CharAt(s, i + 2)), HexValue(CharAt(s, i + 3));
    if a < 0 || b < 0 || c < 0 || d < 0 then 0 else ((a * 16 + b) * 16 + c) * 16 + d
  }

  /** A \u escape whose `u` is at `p`: its bytes, none when it is invalid, and the position after it. */
  function UnicodeAt(s: string, p: nat): (r: (string, nat))
    ensures p < r.1
  {
    var uc := Hex4At(s, p + 1);
    var q := p + 4;
    if 0xDC00 <= uc <= 0xDFFF || uc == 0 then ("", q + 1)
    else if 0xD800 <= uc <= 0xDBFF then
      if CharAt(s, q + 1) != '\\' || CharAt(s, q + 2) != 'u' then ("", q + 1)
      else
        var uc2 := Hex4At(s, q + 3);
        if uc2 < 0xDC00 || uc2 > 0xDFFF then ("", q + 7)
        else (Utf8(0x10000 + (uc % 0x400) * 0x400 + uc2 % 0x400), q + 7)
    else (Utf8(uc), q + 1)
  }

  /** The character a one-letter escape stands for. */
  function Unescape(c: char): char {
    if c == 'b' then 8 as char
    else if c == 'f' then 12 as char
    else if c == 'n' then '\n'
    else if c == 'r' then '\r'
    else if c == 't' then '\t'
    else c
  }

  /** The characters from `p` to the closing quote or the end, and that position. */
  function BodyAt(s: string, p: nat): (r: (string, nat))
    ensures p <= r.1
    decreases |s| - p
  {
    var c := CharAt(s, p);
    if c == '\"' || c == '\0' then ("", p)
    else if c != '\\' then
      var rest := BodyAt(s, p + 1);
      ([c] + rest.0, rest.1)
    else if CharAt(s, p + 1) == 'u' then
      var u := UnicodeAt(s, p + 1);
      var rest := BodyAt(s, u.1);
      (u.0 + rest.0, rest.1)
    else
      var rest := BodyAt(s, p + 2);
      ([Unescape(CharAt(s, p + 1))] + rest.0, rest.1)
  }

  function StringAt(s: string, i: nat): (r: Result<string>)
    ensures r.Read? ==> i < r.next
  {
    if CharAt(s, i) != '\"' then Malformed
    else
      var body := BodyAt(s, i + 1);
      Read(body.0, if CharAt(s, body.1) == '\"' then body.1 + 1 else body.1)
  }

  // ---- Values ----

  function ValueAt(s: string, i: nat): (r: Result<Json>)
    ensures r.Read? ==> i < r.next
    decreases |s| - i, 2
  {
    if StartsWith(s, i, "null") then Read(Null, i + 4)
    else if StartsWith(s, i, "false") then Read(False, i + 5)
    else if StartsWith(s, i, "true") then Read(True, i + 4)
    else if CharAt(s, i) == '\"' then
      match StringAt(s, i) case Malformed => Malformed case Read(t, j) => Read(Str(t), j)
    else if CharAt(s, i) == '-' || IsDigit(CharAt(s, i)) then NumberAt(s, i)
    else if CharAt(s, i) == '[' then
      var j := Skip(s, i + 1);
      if CharAt(s, j) == ']' then Read(Array(Nil), j + 1)
      else match ItemsAt(s, j) case Malformed => Malformed case Read(c, k) => Read(Array(c), k)
    else if CharAt(s, i) == '{' then
      var j := Skip(s, i + 1);
      if CharAt(s, j) == '}' then Read(Object(Nil), j + 1)
      else match MembersAt(s, j) case Malformed => Malformed case Read(c, k) => Read(Object(c), k)
    else Malformed
  }

  /** The items of an array from the first one at or after `i`, up to and with the closing bracket. */
  function ItemsAt(s: string, i: nat): (r: Result<Chain>)
    ensures r.Read? ==> i < r.next
    decreases |s| - i, 3
  {
    match ValueAt(s, Skip(s, i))
    case Malformed => Malformed
    case Read(v, k) =>
      var j := Skip(s, k);
      if CharAt(s, j) == ',' then
        match ItemsAt(s, j + 1) case Malformed => Malformed case Read(c, e) => Read(Link("", v, c), e)
      else if CharAt(s, j) == ']' then Read(Link("", v, Nil), j + 1)
      else Malformed
  }

  /** The members of an object likewise. */
  function MembersAt(s: string, i: nat): (r: Result<Chain>)
    ensures r.Read? ==> i < r.next
    decreases |s| - i, 3
  {
    match StringAt(s, Skip(s, i))
    case Malformed => Malformed
    case Read(name, k) =>
      var j := Skip(s, k);
      if CharAt(s, j) != ':' then Malformed
      else
        match ValueAt(s, Skip(s, j + 1))
        case Malformed => Malformed
        case Read(v, m) =>
          var e := Skip(s, m);
          if CharAt(s, e) == ',' then
            match MembersAt(s, e + 1) case Malformed => Malformed case Read(c, f) => Read(Link(name, v, c), f)
          else if CharAt(s, e) == '}' then Read(Link(name, v, Nil), e + 1)
          else Malformed
  }

  /** cJSON_Parse: the value after leading white space. */
  function Parse(s: string): Result<Json> {
    ValueAt(s, Skip(s, 0))
  }
}
