/** print_value with its buffers: every length computed beforehand covers what is written. */
module CjsonPrint {
  import opened Cjson
  import opened CjsonSteps
  import opened CjsonRoundTrip
  import opened CjsonBuffers
  import opened CStrings

  // ---- No NUL in printed text ----

  lemma {:induction false} DigitsNoNul(n: nat)
    ensures NoNul(Digits(n))
  {
    if n >= 10 {
      DigitsNoNul(n / 10);
    }
  }

  lemma {:induction false} EscapeNoNul(s: string)
    requires ByteString(s)
    ensures NoNul(Escape(s))
  {
    if s != "" {
      EscapeNoNul(s[1..]);
    }
  }

  lemma {:induction false} TabsNoNul(n: int)
    ensures NoNul(Tabs(n))
    decreases if n > 0 then n else 0
  {
    if n > 0 {
      TabsNoNul(n - 1);
    }
  }

  lemma {:induction false} ValueNoNul(v: Json, depth: nat, fmt: bool)
    requires Legal(v)
    ensures NoNul(PrintValue(v, depth, fmt))
    decreases v, 1
  {
    match v
    case Number(n) => DigitsNoNul(if n < 0 then -n else n);
    case Str(s) => EscapeNoNul(s);
    case Array(child) =>
      if child.Link? {
        ItemsNoNul(child, depth + 1, fmt);
      }
    case Object(child) =>
      TabsNoNul(depth - 1);
      if child.Link? {
        MembersNoNul(child, depth + 1, fmt);
      }
    case _ =>
  }

  lemma {:induction false} ItemsNoNul(c: Chain, depth: nat, fmt: bool)
    requires LegalChain(c, false)
    ensures NoNul(PrintItems(c, depth, fmt))
    decreases c, 0
  {
    if c.Link? {
      ValueNoNul(c.item, depth, fmt);
      ItemsNoNul(c.next, depth, fmt);
    }
  }

  lemma {:induction false} MembersNoNul(c: Chain, depth: nat, fmt: bool)
    requires LegalChain(c, true)
    ensures NoNul(PrintMembers(c, depth, fmt))
    decreases c, 0
  {
    if c.Nil? {
      TabsNoNul(depth - 1);
    } else {
      ValueNoNul(c.item, depth, fmt);
      EscapeNoNul(c.name);
      MembersNoNul(c.next, depth, fmt);
      MemberNoNul(c, depth, fmt);
    }
  }

  lemma NoNulJoin(a: string, b: string)
    requires NoNul(a) && NoNul(b)
    ensures NoNul(a + b)
  {
  }

  lemma MemberNoNul(c: Chain, depth: nat, fmt: bool)
    requires c.Link? && NoNul(PrintValue(c.item, depth, fmt)) && NoNul(Escape(c.name))
    requires NoNul(PrintMembers(c.next, depth, fmt))
    ensures NoNul(PrintMembers(c, depth, fmt))
  {
    hide *;
    var tabs, name, tab, e, t := If(fmt, Tabs(depth)), PrintString(c.name), If(fmt, "\t"), PrintValue(c.item, depth, fmt),
                             (if c.next.Nil? then "" else ",") + (If(fmt, "\n") + PrintMembers(c.next, depth, fmt));
    ShortNoNul(c, depth, fmt);
    PrintedMembers(c, depth, fmt);
    NoNulJoin(If(fmt, "\n"), PrintMembers(c.next, depth, fmt));
    NoNulJoin(if c.next.Nil? then "" else ",", If(fmt, "\n") + PrintMembers(c.next, depth, fmt));
    NoNulJoin(e, t);
    NoNulJoin(tab, e + t);
    NoNulJoin(":", tab + (e + t));
    NoNulJoin(name, ":" + (tab + (e + t)));
    NoNulJoin(tabs, name + (":" + (tab + (e + t))));
  }

  lemma ShortNoNul(c: Chain, depth: nat, fmt: bool)
    requires c.Link? && NoNul(Escape(c.name))
    ensures NoNul(PrintString(c.name)) && NoNul(If(fmt, Tabs(depth)))
    ensures NoNul(":") && NoNul("") && NoNul(",") && NoNul(If(fmt, "\n")) && NoNul(If(fmt, "\t"))
  {
    TabsNoNul(depth);
  }

  // ---- Numbers ----

  lemma {:induction false} DigitsShort(n: nat, k: nat, p: nat)
    requires k >= 1 && p == Power10(k) && n < p
    ensures |Digits(n)| <= k
    decreases k
  {
    if n >= 10 {
      DigitsShort(n / 10, k - 1, p / 10);
    }
  }

  function Power10(k: nat): nat {
    if k == 0 then 1 else 10 * Power10(k - 1)
  }

  method PrintNumberText(n: int) returns (out: array<char>)
    requires Legal(Number(n))
    ensures fresh(out) && Text(out, PrintNumber(n))
  {
    assert Power10(10) == 10_000_000_000 by {
      assert Power10(5) == 100_000;
    }
    DigitsShort(if n < 0 then -n else n, 10, Power10(10));
    out := new char[21];
    var q := StrCpy(out, 0, PrintNumber(n));
    assert out[..0] == "";
  }

  method StrDup(t: string) returns (out: array<char>)
    ensures fresh(out) && Text(out, t)
  {
    out := new char[|t| + 1];
    var q := StrCpy(out, 0, t);
    assert out[..0] == "";
  }

  // ---- Arrays ----

  /** The printed items of a chain. */
  function Entries(c: Chain, depth: nat, fmt: bool): seq<string> {
    match c
    case Nil => []
    case Link(_, item, next) => [PrintValue(item, depth, fmt)] + Entries(next, depth, fmt)
  }

  lemma {:induction false} PiecesAreItems(c: Chain, depth: nat, fmt: bool, i: nat)
    requires i < |Entries(c, depth, fmt)|
    ensures |ItemPieces(c, depth, fmt)| == |Entries(c, depth, fmt)|
    ensures ItemPieces(c, depth, fmt)[i] == ItemText(Entries(c, depth, fmt)[i], i == |Entries(c, depth, fmt)| - 1, fmt)
  {
    hide PrintValue, ItemText;
    if i > 0 {
      PiecesAreItems(c.next, depth, fmt, i - 1);
    } else if c.next.Link? {
      PiecesAreItems(c.next, depth, fmt, 0);
    }
  }

  /** The length counted for a list of entries. */
  function ItemRoom(entries: seq<string>, fmt: bool): nat {
    if entries == [] then 5
    else ItemRoom(entries[..|entries| - 1], fmt) + |entries[|entries| - 1]| + 2 + (if fmt then 1 else 0)
  }

  lemma {:induction false} RoomCovers(entries: seq<string>, pieces: seq<string>, fmt: bool)
    requires |pieces| == |entries|
    requires forall i | 0 <= i < |pieces| :: |pieces[i]| <= |entries[i]| + 1 + (if fmt then 1 else 0)
    ensures |Concat(pieces)| + 5 <= ItemRoom(entries, fmt)
  {
    if entries != [] {
      RoomCovers(entries[..|entries| - 1], pieces[..|entries| - 1], fmt);
    }
  }

  method PutItem(out: array<char>, p: nat, entry: string, last: bool, fmt: bool) returns (q: nat)
    requires p + |ItemText(entry, last, fmt)| < out.Length
    modifies out
    ensures q == p + |ItemText(entry, last, fmt)| && out[..q] == old(out[..p]) + ItemText(entry, last, fmt)
  {
    q := StrCpy(out, p, entry);
    if !last {
      Put(out, q, ',');
      q := q + 1;
      if fmt {
        Put(out, q, ' ');
        q := q + 1;
      }
      out[q] := '\0';
    }
    assert out[..q] == old(out[..p]) + ItemText(entry, last, fmt);
  }

  /** The final loop of print_array: the entries joined inside brackets, in a buffer of the counted length. */
  method ComposeArray(c: Chain, entries: seq<string>, len: nat, ghost depth: nat, fmt: bool) returns (out: array<char>)
    requires c.Link? && entries == Entries(c, depth, fmt) && len == ItemRoom(entries, fmt)
    ensures fresh(out) && Text(out, "[" + PrintItems(c, depth, fmt))
  {
    hide *;
    ghost var pieces := ItemPieces(c, depth, fmt);
    PieceBounds(c, depth, fmt);
    RoomCovers(entries, pieces, fmt);
    ItemsAreConcat(c, depth, fmt);
    out := new char[len];
    Put(out, 0, '[');
    out[1] := '\0';
    var ptr := 1;
    EmptyConcat(pieces);
    assert out[..0] == "" && out[..1] == "[" + "";
    for i := 0 to |entries|
      invariant |pieces| == |entries| && ptr == 1 + |Concat(pieces[..i])| && ptr <= len && out.Length == len
      invariant out[..ptr] == "[" + Concat(pieces[..i])
    {
      ConcatNext(pieces, i);
      ConcatGrows(pieces, i + 1, |pieces|);
      assert pieces[..|pieces|] == pieces;
      PiecesAreItems(c, depth, fmt, i);
      Regroup("[", Concat(pieces[..i]), pieces[i]);
      ptr := PutItem(out, ptr, entries[i], i == |entries| - 1, fmt);
    }
    assert pieces[..|pieces|] == pieces;
    Put(out, ptr, ']');
    Regroup("[", Concat(pieces), "]");
    Put(out, ptr + 1, '\0');
    Written(out, "[" + PrintItems(c, depth, fmt));
  }

  lemma EmptyConcat(pieces: seq<string>)
    ensures Concat(pieces[..0]) == ""
  {
  }

  lemma Written(out: array<char>, t: string)
    requires |t| < out.Length && out[..|t| + 1] == t + "\0"
    ensures Text(out, t)
  {
    assert out[..|t|] == out[..|t| + 1][..|t|];
    assert out[|t|] == out[..|t| + 1][|t|];
  }

  lemma PieceBounds(c: Chain, depth: nat, fmt: bool)
    ensures var pieces, entries := ItemPieces(c, depth, fmt), Entries(c, depth, fmt);
      && |pieces| == |entries|
      && forall i | 0 <= i < |pieces| :: |pieces[i]| <= |entries[i]| + 1 + (if fmt then 1 else 0)
  {
    hide PrintValue;
    PieceCount(c, depth, fmt);
    hide ItemPieces, Entries;
    forall i | 0 <= i < |Entries(c, depth, fmt)|
      ensures |ItemPieces(c, depth, fmt)[i]| <= |Entries(c, depth, fmt)[i]| + 1 + (if fmt then 1 else 0)
    {
      PiecesAreItems(c, depth, fmt, i);
    }
  }

  lemma {:induction false} PieceCount(c: Chain, depth: nat, fmt: bool)
    ensures |ItemPieces(c, depth, fmt)| == |Entries(c, depth, fmt)|
  {
    if c.Link? {
      PieceCount(c.next, depth, fmt);
    }
  }

  // ---- Objects ----

  function Names(c: Chain): seq<string> {
    match c
    case Nil => []
    case Link(name, _, next) => [PrintString(name)] + Names(next)
  }

  lemma {:induction false} PiecesAreMembers(c: Chain, depth: nat, fmt: bool, i: nat)
    requires i < |Entries(c, depth, fmt)|
    ensures |MemberPieces(c, depth, fmt)| == |Entries(c, depth, fmt)| == |Names(c)|
    ensures MemberPieces(c, depth, fmt)[i]
         == MemberText(Names(c)[i], Entries(c, depth, fmt)[i], i == |Names(c)| - 1, depth, fmt)
  {
    hide PrintValue, MemberText, PrintString;
    if i > 0 {
      PiecesAreMembers(c.next, depth, fmt, i - 1);
    } else if c.next.Link? {
      PiecesAreMembers(c.next, depth, fmt, 0);
    }
  }

  lemma {:induction false} MemberCount(c: Chain, depth: nat, fmt: bool)
    ensures |MemberPieces(c, depth, fmt)| == |Entries(c, depth, fmt)| == |Names(c)|
  {
    hide PrintValue, MemberText, PrintString;
    if c.Link? {
      MemberCount(c.next, depth, fmt);
    }
  }

  /** The length counted for names and entries at this depth. */
  function MemberRoom(names: seq<string>, entries: seq<string>, depth: nat, fmt: bool): nat
    requires |names| == |entries|
  {
    if entries == [] then 7 + (if fmt then depth else 0)
    else
      var n := |entries| - 1;
      MemberRoom(names[..n], entries[..n], depth, fmt) + |entries[n]| + |names[n]| + 2 + (if fmt then 2 + depth else 0)
  }

  lemma {:induction false} MemberRoomCovers(names: seq<string>, entries: seq<string>, pieces: seq<string>, depth: nat, fmt: bool)
    requires |pieces| == |entries| == |names|
    requires forall i | 0 <= i < |pieces| ::
      |pieces[i]| <= |entries[i]| + |names[i]| + 2 + (if fmt then 2 + depth else 0)
    ensures |Concat(pieces)| + 7 + (if fmt then depth else 0) <= MemberRoom(names, entries, depth, fmt)
  {
    if entries != [] {
      var n := |entries| - 1;
      MemberRoomCovers(names[..n], entries[..n], pieces[..n], depth, fmt);
    }
  }

  lemma MemberLength(name: string, entry: string, last: bool, depth: nat, fmt: bool)
    ensures |MemberText(name, entry, last, depth, fmt)|
         <= |entry| + |name| + 2 + (if fmt then 2 + depth else 0)
  {
    TabsLength(depth);
  }

  lemma MemberBounds(c: Chain, depth: nat, fmt: bool)
    ensures var pieces, entries, names := MemberPieces(c, depth, fmt), Entries(c, depth, fmt), Names(c);
      && |pieces| == |entries| == |names|
      && forall i | 0 <= i < |pieces| :: |pieces[i]| <= |entries[i]| + |names[i]| + 2 + (if fmt then 2 + depth else 0)
  {
    MemberCount(c, depth, fmt);
    hide *;
    forall i | 0 <= i < |Entries(c, depth, fmt)|
      ensures |MemberPieces(c, depth, fmt)[i]|
           <= |Entries(c, depth, fmt)[i]| + |Names(c)[i]| + 2 + (if fmt then 2 + depth else 0)
    {
      PiecesAreMembers(c, depth, fmt, i);
      MemberLength(Names(c)[i], Entries(c, depth, fmt)[i], i == |Names(c)| - 1, depth, fmt);
    }
  }

  method PutMember(out: array<char>, p: nat, name: string, entry: string, last: bool, depth: nat, fmt: bool)
    returns (q: nat)
    requires p + |MemberText(name, entry, last, depth, fmt)| < out.Length
    modifies out
    ensures q == p + |MemberText(name, entry, last, depth, fmt)|
    ensures out[..q] == old(out[..p]) + MemberText(name, entry, last, depth, fmt)
  {
    hide Tabs;
    ghost var start := out[..p];
    q := p;
    if fmt {
      q := PutTabs(out, q, depth);
    }
    assert out[..q] == start + If(fmt, Tabs(depth));
    q := PutNameAndColon(out, q, name, fmt);
    q := StrCpy(out, q, entry);
    q := PutMemberEnd(out, q, last, fmt);
    MemberTextParts(start, name, entry, last, depth, fmt);
  }

  method PutNameAndColon(out: array<char>, p: nat, name: string, fmt: bool) returns (q: nat)
    requires p + |name| + 1 + |If(fmt, "\t")| < out.Length
    modifies out
    ensures q == p + |name| + 1 + |If(fmt, "\t")| && out[..q] == old(out[..p]) + name + ":" + If(fmt, "\t")
  {
    q := StrCpy(out, p, name);
    Put(out, q, ':');
    q := q + 1;
    if fmt {
      Put(out, q, '\t');
      q := q + 1;
    }
  }

  method PutMemberEnd(out: array<char>, p: nat, last: bool, fmt: bool) returns (q: nat)
    requires p + (if last then 0 else 1) + |If(fmt, "\n")| < out.Length
    modifies out
    ensures q == p + (if last then 0 else 1) + |If(fmt, "\n")|
    ensures out[..q] == old(out[..p]) + (if last then "" else ",") + If(fmt, "\n")
  {
    q := p;
    if !last {
      Put(out, q, ',');
      q := q + 1;
    }
    if fmt {
      Put(out, q, '\n');
      q := q + 1;
    }
    out[q] := '\0';
  }

  lemma MemberTextParts(start: string, name: string, entry: string, last: bool, depth: nat, fmt: bool)
    ensures start + If(fmt, Tabs(depth)) + name + ":" + If(fmt, "\t") + entry + (if last then "" else ",") + If(fmt, "\n")
         == start + MemberText(name, entry, last, depth, fmt)
  {
    hide Tabs, If;
  }

  /** The final part of print_object, in a buffer of the counted length. */
  method ComposeObject(c: Chain, names: seq<string>, entries: seq<string>, len: nat, depth: nat, fmt: bool)
    returns (out: array<char>)
    requires c.Link? && depth > 0 && names == Names(c) && entries == Entries(c, depth, fmt) && |names| == |entries|
    requires len == MemberRoom(names, entries, depth, fmt)
    ensures fresh(out) && Text(out, "{" + (If(fmt, "\n") + PrintMembers(c, depth, fmt)))
  {
    hide *;
    ghost var pieces := MemberPieces(c, depth, fmt);
    MemberBounds(c, depth, fmt);
    MemberRoomCovers(names, entries, pieces, depth, fmt);
    MembersAreConcat(c, depth, fmt);
    IfLength(fmt, depth);
    out := new char[len];
    var ptr := OpenObject(out, fmt);
    ghost var start := out[..ptr];
    EmptyConcat(pieces);
    assert start + "" == start;
    for i := 0 to |entries|
      invariant |pieces| == |entries| && ptr == |start| + |Concat(pieces[..i])| <= len == out.Length
      invariant out[..ptr] == start + Concat(pieces[..i])
    {
      ConcatNext(pieces, i);
      ConcatGrows(pieces, i + 1, |pieces|);
      assert pieces[..|pieces|] == pieces;
      PiecesAreMembers(c, depth, fmt, i);
      Regroup(start, Concat(pieces[..i]), pieces[i]);
      ptr := PutMember(out, ptr, names[i], entries[i], i == |entries| - 1, depth, fmt);
    }
    assert pieces[..|pieces|] == pieces;
    CloseObject(out, ptr, depth, fmt);
    Regroup(start, Concat(pieces), If(fmt, Tabs(depth - 1)) + "}");
    Regroup("{", If(fmt, "\n"), PrintMembers(c, depth, fmt));
  }

  lemma IfLength(fmt: bool, depth: nat)
    requires depth > 0
    ensures |If(fmt, "\n")| == (if fmt then 1 else 0) && |If(fmt, Tabs(depth - 1))| == (if fmt then depth - 1 else 0)
  {
    TabsLength(depth - 1);
  }

  method OpenObject(out: array<char>, fmt: bool) returns (p: nat)
    requires out.Length > 2
    modifies out
    ensures p == 1 + |If(fmt, "\n")| && out[..p] == "{" + If(fmt, "\n")
  {
    Put(out, 0, '{');
    p := 1;
    if fmt {
      Put(out, 1, '\n');
      p := 2;
    }
    out[p] := '\0';
    assert out[..p] == "{" + If(fmt, "\n");
  }

  method CloseObject(out: array<char>, p: nat, depth: nat, fmt: bool)
    requires depth > 0 && p + |If(fmt, Tabs(depth - 1))| + 1 < out.Length
    modifies out
    ensures Text(out, old(out[..p]) + (If(fmt, Tabs(depth - 1)) + "}"))
  {
    ghost var start := out[..p];
    var q := p;
    if fmt {
      q := PutTabs(out, q, depth - 1);
    }
    Put(out, q, '}');
    Put(out, q + 1, '\0');
    assert out[..q + 2] == start + (If(fmt, Tabs(depth - 1)) + "}") + "\0";
    Written(out, start + (If(fmt, Tabs(depth - 1)) + "}"));
  }

  method PrintEmptyObject(depth: nat, fmt: bool) returns (out: array<char>)
    ensures fresh(out) && Text(out, PrintValue(Object(Nil), depth, fmt))
  {
    TabsLength(depth - 1);
    out := new char[if fmt then depth + 4 else 3];
    Put(out, 0, '{');
    var ptr := 1;
    if fmt {
      Put(out, 1, '\n');
      ptr := PutTabs(out, 2, depth - 1);
    }
    assert out[..ptr] == "{" + If(fmt, "\n" + Tabs(depth - 1));
    Put(out, ptr, '}');
    Put(out, ptr + 1, '\0');
    assert out[..ptr + 2] == PrintValue(Object(Nil), depth, fmt) + "\0";
    Written(out, PrintValue(Object(Nil), depth, fmt));
  }

  // ---- The recursion ----

  /** print_value: the buffer returned holds exactly the printed text. */
  method PrintValueText(v: Json, depth: nat, fmt: bool) returns (out: array<char>)
    requires Legal(v)
    ensures fresh(out) && Text(out, PrintValue(v, depth, fmt))
    decreases v, 1
  {
    match v
    case Null => out := StrDup("null");
    case False => out := StrDup("false");
    case True => out := StrDup("true");
    case Number(n) => out := PrintNumberText(n);
    case Str(s) => out := PrintStringPtr(s);
    case Array(child) => out := PrintArray(child, depth, fmt);
    case Object(child) => out := PrintObject(child, depth, fmt);
  }

  lemma {:induction false} EntriesAppend(done: seq<string>, c: Chain, depth: nat, fmt: bool)
    requires c.Link?
    ensures done + Entries(c, depth, fmt) == done + [PrintValue(c.item, depth, fmt)] + Entries(c.next, depth, fmt)
  {
    hide PrintValue;
  }

  lemma NamesAppend(done: seq<string>, c: Chain)
    requires c.Link?
    ensures done + Names(c) == done + [PrintString(c.name)] + Names(c.next)
  {
    hide PrintString;
  }

  lemma ArrayIs(child: Chain, depth: nat, fmt: bool)
    ensures PrintValue(Array(child), depth, fmt) == "[" + if child.Nil? then "]" else PrintItems(child, depth + 1, fmt)
  {
  }

  lemma ObjectIs(child: Chain, depth: nat, fmt: bool)
    requires child.Link?
    ensures PrintValue(Object(child), depth, fmt) == "{" + (If(fmt, "\n") + PrintMembers(child, depth + 1, fmt))
  {
  }

  method PrintArray(child: Chain, depth: nat, fmt: bool) returns (out: array<char>)
    requires LegalChain(child, false)
    ensures fresh(out) && Text(out, PrintValue(Array(child), depth, fmt))
    decreases child, 2
  {
    hide PrintValue, Entries, ItemRoom, Text, NoNul, PrintItems;
    ArrayIs(child, depth, fmt);
    if child.Nil? {
      assert "[" + "]" == "[]";
      out := StrDup("[]");
      return;
    }
    var entries: seq<string>, len := [], 5;
    var c := child;
    EmptyRoom(fmt);
    assert [] + Entries(child, depth + 1, fmt) == Entries(child, depth + 1, fmt);
    while c.Link?
      invariant LegalChain(c, false) && (c == child || c < child)
      invariant entries + Entries(c, depth + 1, fmt) == Entries(child, depth + 1, fmt)
      invariant len == ItemRoom(entries, fmt)
      decreases c
    {
      EntriesAppend(entries, c, depth + 1, fmt);
      ValueNoNul(c.item, depth + 1, fmt);
      var ret := PrintValueText(c.item, depth + 1, fmt);
      var entry := TextOf(ret, PrintValue(c.item, depth + 1, fmt));
      RoomNext(entries, entry, fmt);
      entries := entries + [entry];
      len := len + |entry| + 2 + (if fmt then 1 else 0);
      c := c.next;
    }
    NoEntries(depth + 1, fmt);
    assert entries + [] == entries;
    out := ComposeArray(child, entries, len, depth + 1, fmt);
  }

  /** The text a buffer holds, by strlen. */
  method TextOf(a: array<char>, ghost t: string) returns (s: string)
    requires Text(a, t) && NoNul(t)
    ensures s == t
  {
    var n := StrLen(a, t);
    s := a[..n];
  }

  lemma EmptyRoom(fmt: bool)
    ensures ItemRoom([], fmt) == 5
  {
  }

  lemma RoomNext(entries: seq<string>, entry: string, fmt: bool)
    ensures ItemRoom(entries + [entry], fmt) == ItemRoom(entries, fmt) + |entry| + 2 + (if fmt then 1 else 0)
  {
    assert (entries + [entry])[..|entries|] == entries;
  }

  lemma NoEntries(depth: nat, fmt: bool)
    ensures Entries(Nil, depth, fmt) == [] && Names(Nil) == []
  {
  }

  method PrintObject(child: Chain, depth: nat, fmt: bool) returns (out: array<char>)
    requires LegalChain(child, true)
    ensures fresh(out) && Text(out, PrintValue(Object(child), depth, fmt))
    decreases child, 2
  {
    hide PrintValue, Entries, MemberRoom, Text, NoNul, PrintMembers, Names, PrintString;
    if child.Nil? {
      out := PrintEmptyObject(depth, fmt);
      return;
    }
    ObjectIs(child, depth, fmt);
    var names: seq<string>, entries: seq<string>, len := [], [], 7 + (if fmt then depth + 1 else 0);
    var c := child;
    EmptyMemberRoom(depth + 1, fmt);
    assert [] + Entries(child, depth + 1, fmt) == Entries(child, depth + 1, fmt) && [] + Names(child) == Names(child);
    while c.Link?
      invariant LegalChain(c, true) && (c == child || c < child) && |names| == |entries|
      invariant entries + Entries(c, depth + 1, fmt) == Entries(child, depth + 1, fmt)
      invariant names + Names(c) == Names(child)
      invariant len == MemberRoom(names, entries, depth + 1, fmt)
      decreases c
    {
      EntriesAppend(entries, c, depth + 1, fmt);
      NamesAppend(names, c);
      ValueNoNul(c.item, depth + 1, fmt);
      ValueNoNul(Str(c.name), 0, fmt);
      StrIs(c.name, fmt);
      var str := PrintStringPtr(c.name);
      var name := TextOf(str, PrintString(c.name));
      var ret := PrintValueText(c.item, depth + 1, fmt);
      var entry := TextOf(ret, PrintValue(c.item, depth + 1, fmt));
      MemberRoomNext(names, entries, name, entry, depth + 1, fmt);
      names, entries := names + [name], entries + [entry];
      len := len + |entry| + |name| + 2 + (if fmt then 2 + (depth + 1) else 0);
      c := c.next;
    }
    NoEntries(depth + 1, fmt);
    assert entries + [] == entries && names + [] == names;
    out := ComposeObject(child, names, entries, len, depth + 1, fmt);
  }

  lemma StrIs(s: string, fmt: bool)
    ensures PrintValue(Str(s), 0, fmt) == PrintString(s)
  {
  }

  lemma EmptyMemberRoom(depth: nat, fmt: bool)
    ensures MemberRoom([], [], depth, fmt) == 7 + (if fmt then depth else 0)
  {
  }

  lemma MemberRoomNext(names: seq<string>, entries: seq<string>, name: string, entry: string, depth: nat, fmt: bool)
    requires |names| == |entries|
    ensures MemberRoom(names + [name], entries + [entry], depth, fmt)
         == MemberRoom(names, entries, depth, fmt) + |entry| + |name| + 2 + (if fmt then 2 + depth else 0)
  {
    assert (entries + [entry])[..|entries|] == entries && (names + [name])[..|names|] == names;
  }
}
