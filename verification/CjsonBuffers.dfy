/** The character buffers of cJSON.c: text minified in place, and text written into buffers of computed length. */
module CjsonBuffers {
  import opened Cjson
  import opened CjsonParse
  import opened CjsonSteps
  import opened CjsonRoundTrip
  import opened CjsonMinify
  import opened CStrings

  // ---- cJSON_Minify ----

  /** The scan from `i` meets the terminator and never steps over it: strings and comments are closed. */
  predicate Closed(s: string, i: nat)
    decreases |s| - i, 0
  {
    i < |s| &&
    (s[i] == '\0' ||
     if s[i] == '/' && CharAt(s, i + 1) == '/' then Closed(s, LineEnd(s, i))
     else if s[i] == '/' && CharAt(s, i + 1) == '*' then Closed(s, CommentEnd(s, i) + 2)
     else if s[i] == '\"' then ClosedString(s, i + 1)
     else Closed(s, i + 1))
  }

  predicate ClosedString(s: string, i: nat)
    decreases |s| - i, 1
  {
    i < |s| && s[i] != '\0' &&
    (if s[i] == '\"' then Closed(s, i + 1)
     else if s[i] == '\\' then ClosedString(s, i + 2)
     else ClosedString(s, i + 1))
  }

  /** Where the reading cursor is behind a string literal whose body begins at i: it is moved once more in any case. */
  function AfterLiteral(s: string, i: nat): (j: nat)
    ensures i < j
    decreases |s| - i
  {
    if CharAt(s, i) == '\0' || CharAt(s, i) == '\"' then i + 1
    else if CharAt(s, i) == '\\' then AfterLiteral(s, i + 2)
    else AfterLiteral(s, i + 1)
  }

  /** In a text whose only NUL is its last character, the cursor stays inside exactly when a quote ended the literal. */
  lemma {:induction false} LiteralStaysInside(s: string, i: nat)
    requires s != "" && s[|s| - 1] == '\0' && forall k | 0 <= k < |s| - 1 :: s[k] != '\0'
    ensures var j := AfterLiteral(s, i);
      j < |s| <==> CharAt(s, j - 1) == '\"'
    decreases |s| - i
  {
    if CharAt(s, i) != '\0' && CharAt(s, i) != '\"' {
      LiteralStaysInside(s, if CharAt(s, i) == '\\' then i + 2 else i + 1);
    }
  }

  /** A quote that is never closed, and a comment that is not: the cursor steps over the terminator. */
  lemma UnclosedStepsOver()
    ensures AfterLiteral("\"\0", 1) == |"\"\0"| && !Closed("\"\0", 0)
    ensures CommentEnd("/*\0", 0) + 2 > |"/*\0"| && !Closed("/*\0", 0)
  {
    assert CommentEnd("/*\0", 2) == 2;
    assert CommentEnd("/*\0", 1) == 2;
  }

  /** Where a closed scan may step. */
  lemma ClosedStep(s: string, i: nat)
    requires Closed(s, i)
    ensures i < |s|
    ensures s[i] != '\0' ==>
      && i + 1 < |s|
      && (if s[i] == '/' && s[i + 1] == '/' then Closed(s, LineEnd(s, i))
          else if s[i] == '/' && s[i + 1] == '*' then Closed(s, CommentEnd(s, i) + 2)
          else if s[i] == '\"' then ClosedString(s, i + 1)
          else Closed(s, i + 1))
  {
  }

  lemma ClosedStringStep(s: string, i: nat)
    requires ClosedString(s, i)
    ensures i + 1 < |s| && s[i] != '\0'
    ensures if s[i] == '\"' then Closed(s, i + 1)
            else if s[i] == '\\' then i + 2 < |s| && ClosedString(s, i + 2)
            else ClosedString(s, i + 1)
  {
  }

  lemma MinifiedStep(s: string, i: nat)
    requires i < |s|
    ensures Minified(s, i) ==
      if s[i] == '\0' then ""
      else if Space(s[i]) then Minified(s, i + 1)
      else if s[i] == '/' && CharAt(s, i + 1) == '/' then Minified(s, LineEnd(s, i))
      else if s[i] == '/' && CharAt(s, i + 1) == '*' then Minified(s, CommentEnd(s, i) + 2)
      else if s[i] == '\"' then [s[i]] + MinifiedString(s, i + 1)
      else [s[i]] + Minified(s, i + 1)
  {
  }

  lemma MinifiedStringStep(s: string, i: nat)
    requires i < |s| && s[i] != '\0'
    ensures MinifiedString(s, i) ==
      if s[i] == '\"' then [s[i]] + Minified(s, i + 1)
      else if s[i] == '\\' then [s[i]] + ([CharAt(s, i + 1)] + MinifiedString(s, i + 2))
      else [s[i]] + MinifiedString(s, i + 1)
  {
  }

  /** The buffer read at `from` still holds the original text there. */
  ghost predicate Unread(json: array<char>, from: nat, s: string)
    reads json
  {
    |s| == json.Length && from <= |s| && json[from..] == s[from..]
  }

  lemma Ahead(json: array<char>, from: nat, k: nat, s: string)
    requires Unread(json, from, s) && from <= k < |s|
    ensures json[k] == s[k]
  {
    assert json[k] == json[from..][k - from];
  }

  method SkipLine(json: array<char>, start: nat, ghost s: string) returns (from: nat)
    requires Unread(json, start, s) && Closed(s, LineEnd(s, start))
    ensures from == LineEnd(s, start) && from < |s|
  {
    hide Closed;
    ClosedStep(s, LineEnd(s, start));
    from := start;
    while from < json.Length && json[from] != '\0' && json[from] != '\n'
      invariant start <= from <= |s| && LineEnd(s, from) == LineEnd(s, start)
    {
      Ahead(json, start, from, s);
      from := from + 1;
    }
    if from < json.Length {
      Ahead(json, start, from, s);
    }
  }

  method SkipComment(json: array<char>, start: nat, ghost s: string) returns (from: nat)
    requires Unread(json, start, s) && Closed(s, CommentEnd(s, start) + 2)
    ensures from == CommentEnd(s, start) && from + 2 < |s|
  {
    hide Closed;
    ClosedStep(s, CommentEnd(s, start) + 2);
    from := start;
    while json[from] != '\0' && !(json[from] == '*' && json[from + 1] == '/')
      invariant start <= from < |s| - 2 && CommentEnd(s, from) == CommentEnd(s, start)
      decreases |s| - from
    {
      Ahead(json, start, from, s);
      Ahead(json, start, from + 1, s);
      from := from + 1;
    }
    Ahead(json, start, from, s);
    Ahead(json, start, from + 1, s);
  }

  /** One character copied: the text kept so far grows, and the text ahead is untouched. */
  method Copy(json: array<char>, into: nat, from: nat, ghost s: string, ghost rest: string)
    requires into <= from < json.Length && Unread(json, into, s)
    modifies json
    ensures Unread(json, into + 1, s)
    ensures json[..into + 1] + rest == old(json[..into]) + ([s[from]] + rest)
  {
    Ahead(json, into, from, s);
    json[into] := json[from];
    assert json[..into + 1] == old(json[..into]) + [s[from]];
    Regroup(old(json[..into]), [s[from]], rest);
    assert json[into + 1..] == old(json[into + 1..]) && s[into + 1..] == s[into..][1..];
  }

  /** A character or an escape inside a string literal. */
  method CopyUnit(json: array<char>, into0: nat, from0: nat, ghost s: string) returns (into: nat, from: nat)
    requires into0 <= from0 < |s| == json.Length && Unread(json, into0, s) && ClosedString(s, from0)
    requires json[from0] == s[from0] && s[from0] != '\"'
    modifies json
    ensures into <= from && from0 < from && Unread(json, into, s) && ClosedString(s, from)
    ensures json[..into] + MinifiedString(s, from) == old(json[..into0]) + MinifiedString(s, from0)
  {
    hide *;
    ClosedStringStep(s, from0);
    MinifiedStringStep(s, from0);
    into, from := into0, from0;
    if json[from] == '\\' {
      CharAtIs(s, from + 1);
      Copy(json, into, from, s, [s[from + 1]] + MinifiedString(s, from + 2));
      into, from := into + 1, from + 1;
    }
    Copy(json, into, from, s, MinifiedString(s, from + 1));
    into, from := into + 1, from + 1;
  }

  lemma CharAtIs(s: string, i: nat)
    requires i < |s|
    ensures CharAt(s, i) == s[i]
  {
  }

  method CopyString(json: array<char>, into0: nat, from0: nat, ghost s: string) returns (into: nat, from: nat)
    requires into0 <= from0 < |s| == json.Length && Unread(json, into0, s) && s[from0] == '\"' && ClosedString(s, from0 + 1)
    modifies json
    ensures into <= from && from0 < from && Unread(json, into, s) && Closed(s, from)
    ensures json[..into] + Minified(s, from) == old(json[..into0]) + ([s[from0]] + MinifiedString(s, from0 + 1))
  {
    hide *;
    ghost var goal := json[..into0] + ([s[from0]] + MinifiedString(s, from0 + 1));
    Copy(json, into0, from0, s, MinifiedString(s, from0 + 1));
    into, from := into0 + 1, from0 + 1;
    ClosedStringStep(s, from);
    Ahead(json, into, from, s);
    while json[from] != '\0' && json[from] != '\"'
      invariant into <= from < |s| == json.Length && from0 < from && Unread(json, into, s) && ClosedString(s, from)
      invariant json[..into] + MinifiedString(s, from) == goal && json[from] == s[from]
      decreases |s| - from
    {
      into, from := CopyUnit(json, into, from, s);
      ClosedStringStep(s, from);
      Ahead(json, into, from, s);
    }
    ClosedStringStep(s, from);
    MinifiedStringStep(s, from);
    Copy(json, into, from, s, Minified(s, from + 1));
    into, from := into + 1, from + 1;
  }

  /** One pass with two cursors; the writing one never overtakes the reading one. */
  method Minify(json: array<char>)
    requires Closed(json[..], 0)
    modifies json
    ensures var m := Minified(old(json[..]), 0);
      |m| < json.Length && json[..] == m + "\0" + old(json[..])[|m| + 1..]
  {
    hide Closed, Minified, ClosedString, MinifiedString, CommentEnd, LineEnd, Unread;
    ghost var s := json[..];
    var into, from := 0, 0;
    AllUnread(json, s);
    ClosedStep(s, 0);
    assert json[..0] + Minified(s, 0) == Minified(s, 0);
    while json[from] != '\0'
      invariant 0 <= into <= from < |s| == json.Length && Unread(json, into, s) && Closed(s, from) && json[from] == s[from]
      invariant json[..into] + Minified(s, from) == Minified(s, 0)
      decreases json.Length - from
    {
      ClosedStep(s, from);
      MinifiedStep(s, from);
      Ahead(json, into, from + 1, s);
      if Space(json[from]) {
        from := from + 1;
      } else if json[from] == '/' && json[from + 1] == '/' {
        LineEndAfter(s, from);
        UnreadLater(json, into, from, s);
        from := SkipLine(json, from, s);
      } else if json[from] == '/' && json[from + 1] == '*' {
        UnreadLater(json, into, from, s);
        from := SkipComment(json, from, s);
        from := from + 2;
      } else if json[from] == '\"' {
        into, from := CopyString(json, into, from, s);
      } else {
        Copy(json, into, from, s, Minified(s, from + 1));
        into, from := into + 1, from + 1;
      }
      ClosedStep(s, from);
      Ahead(json, into, from, s);
    }
    MinifiedStep(s, from);
    assert json[..into] == Minified(s, 0);
    Terminate(json, into, s);
  }

  lemma AllUnread(json: array<char>, s: string)
    requires s == json[..]
    ensures Unread(json, 0, s)
  {
  }

  lemma UnreadLater(json: array<char>, into: nat, from: nat, s: string)
    requires Unread(json, into, s) && into <= from <= |s|
    ensures Unread(json, from, s)
  {
    assert json[from..] == json[into..][from - into..] && s[from..] == s[into..][from - into..];
  }

  lemma LineEndAfter(s: string, i: nat)
    requires CharAt(s, i) == '/'
    ensures LineEnd(s, i) > i
  {
  }

  method Terminate(json: array<char>, into: nat, ghost s: string)
    requires into < json.Length && Unread(json, into, s)
    modifies json
    ensures json[..] == old(json[..into]) + "\0" + s[into + 1..]
  {
    json[into] := '\0';
    assert json[into + 1..] == old(json[into..])[1..] == s[into + 1..];
    assert json[..] == json[..into] + [json[into]] + json[into + 1..];
  }

  // ---- print_string_ptr ----

  lemma {:induction false} EscapeAppend(a: string, b: string)
    ensures Escape(a + b) == Escape(a) + Escape(b)
  {
    hide *;
    EmptyEscape();
    if a == "" {
      assert a + b == b;
    } else {
      EscapeAppend(a[1..], b);
      assert (a + b)[1..] == a[1..] + b;
      EscapeFirst(a);
      EscapeFirst(a + b);
      Regroup(EscapeChar(a[0]), Escape(a[1..]), Escape(b));
    }
  }

  lemma EmptyEscape()
    ensures Escape("") == ""
  {
  }

  lemma EscapeFirst(s: string)
    requires s != ""
    ensures Escape(s) == EscapeChar(s[0]) + Escape(s[1..])
  {
  }

  /** The next character's escape, and that it fits. */
  lemma EscapeNext(s: string, k: nat)
    requires k < |s|
    ensures Escape(s[..k + 1]) == Escape(s[..k]) + EscapeChar(s[k])
    ensures |Escape(s[..k])| + |EscapeChar(s[k])| <= |Escape(s)|
  {
    assert s[..k + 1] == s[..k] + [s[k]] && s == s[..k + 1] + s[k + 1..];
    EscapeAppend(s[..k], [s[k]]);
    EscapeAppend(s[..k + 1], s[k + 1..]);
    assert Escape([s[k]]) == EscapeChar(s[k]) + Escape([s[k]][1..]);
    assert Escape([s[k]][1..]) == "";
  }

  /** The length counted first is the length written. */
  method EscapedLength(str: string) returns (len: nat)
    requires ByteString(str)
    ensures len == |Escape(str)|
  {
    hide Escape;
    len := 0;
    EmptyEscape();
    assert str[..0] == "";
    for ptr := 0 to |str|
      invariant len == |Escape(str[..ptr])|
    {
      EscapeNext(str, ptr);
      var token := str[ptr];
      len := len + 1;
      if token == '\"' || token == '\\' || EscapeLetter(token) != '\0' {
        len := len + 1;
      } else if token as int < 32 {
        len := len + 5;
      }
    }
    assert str[..|str|] == str;
  }

  /** The buffer begins with the text and a NUL. */
  ghost predicate Text(out: array<char>, t: string)
    reads out
  {
    |t| < out.Length && out[..|t|] == t && out[|t|] == '\0'
  }

  method Put(out: array<char>, p: nat, c: char)
    requires p < out.Length
    modifies out
    ensures out[..p + 1] == old(out[..p]) + [c]
  {
    out[p] := c;
  }

  /** sprintf(ptr, "u%04x", token). */
  method PutHex(out: array<char>, p: nat, token: char)
    requires p + 5 < out.Length && token as int < 32
    modifies out
    ensures out[..p + 5] == old(out[..p]) + ['u', '0', '0', HexDigit(token as int / 16 % 16), HexDigit(token as int % 16)]
  {
    out[p], out[p + 1], out[p + 2] := 'u', '0', '0';
    out[p + 3], out[p + 4] := HexDigit(token as int / 16 % 16), HexDigit(token as int % 16);
    out[p + 5] := '\0';
  }

  /** One character of the string, written at `p`. */
  method PutEscaped(out: array<char>, p: nat, token: char) returns (q: nat)
    requires '\0' < token && token as int < 256 && p + |EscapeChar(token)| < out.Length
    modifies out
    ensures q == p + |EscapeChar(token)| && out[..q] == old(out[..p]) + EscapeChar(token)
  {
    if token as int > 31 && token != '\"' && token != '\\' {
      Put(out, p, token);
      return p + 1;
    }
    Put(out, p, '\\');
    if EscapeLetter(token) != '\0' {
      Put(out, p + 1, EscapeLetter(token));
      q := p + 2;
    } else {
      PutHex(out, p + 1, token);
      q := p + 6;
    }
    assert out[..q] == old(out[..p]) + EscapeChar(token);
  }

  /** The buffer is exactly as long as what is written into it. */
  method PrintStringPtr(str: string) returns (out: array<char>)
    requires ByteString(str)
    ensures fresh(out) && out.Length == |PrintString(str)| + 1 && Text(out, PrintString(str))
  {
    hide Escape, EscapeChar;
    var len := EscapedLength(str);
    out := new char[len + 3];
    var ptr2 := 1;
    out[0] := '\"';
    EmptyEscape();
    assert str[..0] == "" && out[..1] == "\"" + "";
    for ptr := 0 to |str|
      invariant ptr2 == 1 + |Escape(str[..ptr])| <= 1 + len && out[..ptr2] == "\"" + Escape(str[..ptr])
    {
      EscapeNext(str, ptr);
      Regroup("\"", Escape(str[..ptr]), EscapeChar(str[ptr]));
      ptr2 := PutEscaped(out, ptr2, str[ptr]);
    }
    assert str[..|str|] == str;
    Put(out, ptr2, '\"');
    Regroup("\"", Escape(str), "\"");
    Put(out, ptr2 + 1, '\0');
    assert out[..ptr2 + 1] == PrintString(str);
  }

  // ---- print_value, print_array, print_object ----

  method StrLen(a: array<char>, ghost t: string) returns (n: nat)
    requires Text(a, t) && NoNul(t)
    ensures n == |t|
  {
    n := 0;
    assert forall k | 0 <= k < |t| :: a[k] == a[..|t|][k] == t[k];
    while a[n] != '\0'
      invariant n <= |t|
      decreases |t| - n
    {
      n := n + 1;
    }
  }

  /** strcpy. */
  method StrCpy(out: array<char>, p: nat, t: string) returns (q: nat)
    requires p + |t| < out.Length
    modifies out
    ensures q == p + |t| && out[..q] == old(out[..p]) + t && out[q] == '\0'
  {
    var i := 0;
    while i < |t|
      invariant 0 <= i <= |t| && out[..p + i] == old(out[..p]) + t[..i]
    {
      out[p + i] := t[i];
      i := i + 1;
    }
    assert t[..|t|] == t;
    out[p + |t|] := '\0';
    q := p + |t|;
  }

  method PutTabs(out: array<char>, p: nat, n: int) returns (q: nat)
    requires p + |Tabs(n)| < out.Length
    modifies out
    ensures q == p + |Tabs(n)| && out[..q] == old(out[..p]) + Tabs(n)
  {
    hide *;
    q := p;
    var i := 0;
    TabsLength(n);
    while i < n
      invariant 0 <= i && (n >= 0 ==> i <= n) && (n < 0 ==> i == 0) && q == p + i
      invariant out[..q] + Tabs(n - i) == old(out[..p]) + Tabs(n)
    {
      TabsLength(n - i);
      Regroup(out[..q], "\t", Tabs(n - i - 1));
      Put(out, q, '\t');
      q := q + 1;
      i := i + 1;
    }
    TabsLength(n - i);
    assert out[..q] + "" == out[..q];
  }

  lemma {:induction false} TabsLength(n: int)
    ensures |Tabs(n)| == if n > 0 then n else 0
    ensures n > 0 ==> Tabs(n) == "\t" + Tabs(n - 1)
    decreases if n > 0 then n else 0
  {
    if n > 0 {
      TabsLength(n - 1);
    }
  }

  function Concat(pieces: seq<string>): string {
    if pieces == [] then "" else Concat(pieces[..|pieces| - 1]) + pieces[|pieces| - 1]
  }

  lemma ConcatNext(pieces: seq<string>, k: nat)
    requires k < |pieces|
    ensures Concat(pieces[..k + 1]) == Concat(pieces[..k]) + pieces[k]
  {
    assert pieces[..k + 1][..k] == pieces[..k];
  }

  lemma {:induction false} ConcatGrows(pieces: seq<string>, k: nat, n: nat)
    requires k <= n <= |pieces|
    ensures |Concat(pieces[..k])| <= |Concat(pieces[..n])|
    decreases n
  {
    if k < n {
      ConcatNext(pieces, n - 1);
      ConcatGrows(pieces, k, n - 1);
    }
  }

  lemma {:induction false} ConcatFront(a: string, pieces: seq<string>)
    ensures Concat([a] + pieces) == a + Concat(pieces)
  {
    if pieces == [] {
      assert [a] + pieces == [a] && [a][..0] == [] && a + "" == a;
      assert Concat([a]) == Concat([a][..0]) + a;
    } else {
      var n := |pieces| - 1;
      ConcatFront(a, pieces[..n]);
      assert ([a] + pieces)[..n + 1] == [a] + pieces[..n];
      Regroup(a, Concat(pieces[..n]), pieces[n]);
    }
  }

  function ItemText(entry: string, last: bool, fmt: bool): string {
    entry + (if last then "" else "," + If(fmt, " "))
  }

  function ItemPieces(c: Chain, depth: nat, fmt: bool): seq<string> {
    match c
    case Nil => []
    case Link(_, item, next) => [ItemText(PrintValue(item, depth, fmt), next.Nil?, fmt)] + ItemPieces(next, depth, fmt)
  }

  lemma {:induction false} ItemsAreConcat(c: Chain, depth: nat, fmt: bool)
    requires c.Link?
    ensures PrintItems(c, depth, fmt) == Concat(ItemPieces(c, depth, fmt)) + "]"
  {
    hide *;
    var e := PrintValue(c.item, depth, fmt);
    PrintedItems(c, depth, fmt);
    FirstItemPiece(c, depth, fmt);
    ConcatFront(ItemText(e, c.next.Nil?, fmt), ItemPieces(c.next, depth, fmt));
    if c.next.Link? {
      ItemsAreConcat(c.next, depth, fmt);
      var sep, r := If(fmt, " "), Concat(ItemPieces(c.next, depth, fmt));
      Regroup(e + ("," + sep), r, "]");
      Regroup(e, "," + sep, r + "]");
      Regroup(",", sep, r + "]");
    } else {
      NoPieces(depth, fmt);
      assert e + "" + "" == e;
    }
  }

  lemma FirstItemPiece(c: Chain, depth: nat, fmt: bool)
    requires c.Link?
    ensures var e := PrintValue(c.item, depth, fmt);
      && ItemPieces(c, depth, fmt) == [ItemText(e, c.next.Nil?, fmt)] + ItemPieces(c.next, depth, fmt)
      && ItemText(e, c.next.Nil?, fmt) == e + (if c.next.Nil? then "" else "," + If(fmt, " "))
  {
  }

  lemma NoPieces(depth: nat, fmt: bool)
    ensures ItemPieces(Nil, depth, fmt) == [] && Concat([]) == "" && MemberPieces(Nil, depth, fmt) == []
  {
  }

  function MemberText(name: string, entry: string, last: bool, depth: nat, fmt: bool): string {
    If(fmt, Tabs(depth)) + (name + (":" + (If(fmt, "\t") + (entry + ((if last then "" else ",") + If(fmt, "\n"))))))
  }

  function MemberPieces(c: Chain, depth: nat, fmt: bool): seq<string> {
    match c
    case Nil => []
    case Link(name, item, next) =>
      [MemberText(PrintString(name), PrintValue(item, depth, fmt), next.Nil?, depth, fmt)] + MemberPieces(next, depth, fmt)
  }

  lemma FirstMemberPiece(c: Chain, depth: nat, fmt: bool)
    requires c.Link?
    ensures MemberPieces(c, depth, fmt)
         == [MemberText(PrintString(c.name), PrintValue(c.item, depth, fmt), c.next.Nil?, depth, fmt)]
            + MemberPieces(c.next, depth, fmt)
  {
  }

  /** A member's text and then the rest, as printed. */
  lemma MemberThen(name: string, entry: string, last: bool, depth: nat, fmt: bool, rest: string)
    ensures MemberText(name, entry, last, depth, fmt) + rest ==
      If(fmt, Tabs(depth)) + (name + (":" + (If(fmt, "\t") + (entry
        + ((if last then "" else ",") + (If(fmt, "\n") + rest))))))
  {
    var a, c, d, e := If(fmt, Tabs(depth)), If(fmt, "\t"), if last then "" else ",", If(fmt, "\n");
    assert MemberText(name, entry, last, depth, fmt) == a + (name + (":" + (c + (entry + (d + e)))));
    hide *;
    Regroup(d, e, rest);
    Regroup(entry, d + e, rest);
    Regroup(c, entry + (d + e), rest);
    Regroup(":", c + (entry + (d + e)), rest);
    Regroup(name, ":" + (c + (entry + (d + e))), rest);
    Regroup(a, name + (":" + (c + (entry + (d + e)))), rest);
  }

  lemma {:induction false} MembersAreConcat(c: Chain, depth: nat, fmt: bool)
    requires depth > 0
    ensures PrintMembers(c, depth, fmt) == Concat(MemberPieces(c, depth, fmt)) + (If(fmt, Tabs(depth - 1)) + "}")
  {
    hide *;
    var end := If(fmt, Tabs(depth - 1)) + "}";
    if c.Nil? {
      NoPieces(depth, fmt);
      LastMembers(depth, fmt);
      assert "" + end == end;
    } else {
      var name, e, r := PrintString(c.name), PrintValue(c.item, depth, fmt), Concat(MemberPieces(c.next, depth, fmt));
      FirstMemberPiece(c, depth, fmt);
      ConcatFront(MemberText(name, e, c.next.Nil?, depth, fmt), MemberPieces(c.next, depth, fmt));
      MembersAreConcat(c.next, depth, fmt);
      Regroup(MemberText(name, e, c.next.Nil?, depth, fmt), r, end);
      MemberThen(name, e, c.next.Nil?, depth, fmt, r + end);
      PrintedMembers(c, depth, fmt);
    }
  }

  lemma LastMembers(depth: nat, fmt: bool)
    requires depth > 0
    ensures PrintMembers(Nil, depth, fmt) == If(fmt, Tabs(depth - 1)) + "}"
  {
  }
}
