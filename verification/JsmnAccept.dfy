/** Exactly which texts the tokeniser accepts, and with which tokens. */
module JsmnAccept {
  import opened Jsmn
  import opened JsmnText
  import opened JsmnRender

  /** A whole text: separators, values, and closing brackets that match nothing. */
  datatype Document = End | Gap(c: char, rest: Document) | Top(value: Value, rest: Document) | Stray(c: char, rest: Document)

  function RenderAll(d: Document): string {
    match d
    case End => ""
    case Gap(c, rest) => [c] + RenderAll(rest)
    case Top(value, rest) => Render(value) + RenderAll(rest)
    case Stray(c, rest) => [c] + RenderAll(rest)
  }

  predicate ClosingBracket(c: char) {
    c == '}' || c == ']'
  }

  /** A stray bracket may only come after some value. */
  predicate LegalAll(d: Document, started: bool) {
    match d
    case End => true
    case Gap(c, rest) => Separator(c) && LegalAll(rest, started)
    case Top(value, rest) => JsmnRender.Legal(value) && Followed(value, RenderAll(rest)) && LegalAll(rest, true)
    case Stray(c, rest) => ClosingBracket(c) && started && LegalAll(rest, started)
  }

  function FlattenAll(d: Document, pos: nat, at: nat): seq<Token> {
    match d
    case End => []
    case Gap(_, rest) => FlattenAll(rest, pos + 1, at)
    case Top(value, rest) =>
      var first := Flatten(value, pos, -1, at);
      first + FlattenAll(rest, pos + |Render(value)|, at + |first|)
    case Stray(_, rest) => FlattenAll(rest, pos + 1, at)
  }

  // ---- Closing brackets with nothing open ----

  /** With nothing open, a closing bracket stops the run if and only if there is no token yet. */
  lemma StrayBracket(js: string, len: nat, room: nat, tokens: seq<Token>, pos: nat)
    requires Terminated(js, len) && pos < len && ClosingBracket(js[pos])
    ensures var f := Forest(tokens, []);
      && Stacked(f)
      && Advance(js, len, room, f, pos) == if tokens == [] then Stopped(INVAL) else Going(f, pos + 1)
  {
  }

  /** An object and a bracket that closes nothing: accepted, with one token. */
  lemma StrayBracketAccepted()
    ensures Terminated("{}]\0", 3) && Stacked(Forest([], []))
    ensures Run("{}]\0", 3, 1, Forest([], []), 0) == Halt(Forest([Token(Object, 0, 0, 2, -1)], []), 3, 0)
  {
    var d := Top(Group(Object, Empty, ""), Stray(']', End));
    assert RenderAll(d) == "{}]";
    assert FlattenAll(d, 0, 0) == [Token(Object, 0, 0, 2, -1)];
    assert "{}]\0"[0..3] == "{}]";
    DocumentRuns("{}]\0", 3, 1, [], 0, d);
    assert [] + FlattenAll(d, 0, 0) == FlattenAll(d, 0, 0);
  }

  // ---- A legal text is accepted ----

  /** The run over a whole text adds its tokens. */
  lemma {:induction false} DocumentRuns(js: string, len: nat, room: nat, tokens: seq<Token>, pos: nat, d: Document)
    requires Terminated(js, len) && LegalAll(d, tokens != []) && Holds(js, len, pos, RenderAll(d))
    requires |tokens| + |FlattenAll(d, pos, |tokens|)| <= room
    ensures Reaches(js, len, room, Forest(tokens, []), pos,
                    Forest(tokens + FlattenAll(d, pos, |tokens|), []), pos + |RenderAll(d)|)
    decreases d
  {
    hide Run, Advance, Render, Flatten, Followed, JsmnRender.Legal, Holds, Reaches;
    var f := Forest(tokens, []);
    match d
    case End =>
      assert tokens + [] == tokens;
      ReachesItself(js, len, room, f, pos);
    case Gap(c, rest) =>
      HoldsParts(js, len, pos, [c], RenderAll(rest));
      GapRuns(js, len, room, f, pos, [c]);
      DocumentRuns(js, len, room, tokens, pos + 1, rest);
      ReachesTrans(js, len, room, f, pos, f, pos + 1, Forest(tokens + FlattenAll(d, pos, |tokens|), []), pos + |RenderAll(d)|);
    case Stray(c, rest) =>
      HoldsParts(js, len, pos, [c], RenderAll(rest));
      HoldsFirst(js, len, pos, [c]);
      StrayBracket(js, len, room, tokens, pos);
      OneStep(js, len, room, f, pos);
      DocumentRuns(js, len, room, tokens, pos + 1, rest);
      ReachesTrans(js, len, room, f, pos, f, pos + 1, Forest(tokens + FlattenAll(d, pos, |tokens|), []), pos + |RenderAll(d)|);
    case Top(value, rest) =>
      var first := Flatten(value, pos, -1, |tokens|);
      var q := pos + |Render(value)|;
      TopRuns(js, len, room, tokens, pos, value, RenderAll(rest));
      DocumentRuns(js, len, room, tokens + first, q, rest);
      JsmnRender.Regroup(tokens, first, FlattenAll(rest, q, |tokens| + |first|));
      ReachesTrans(js, len, room, f, pos, Forest(tokens + first, []), q,
                   Forest(tokens + FlattenAll(d, pos, |tokens|), []), pos + |RenderAll(d)|);
  }

  lemma TopRuns(js: string, len: nat, room: nat, tokens: seq<Token>, pos: nat, v: Value, follow: string)
    requires Terminated(js, len) && JsmnRender.Legal(v) && Followed(v, follow) && Holds(js, len, pos, Render(v) + follow)
    requires |tokens| + |Flatten(v, pos, -1, |tokens|)| <= room
    ensures Holds(js, len, pos + |Render(v)|, follow) && tokens + Flatten(v, pos, -1, |tokens|) != []
    ensures Reaches(js, len, room, Forest(tokens, []), pos,
                    Forest(tokens + Flatten(v, pos, -1, |tokens|), []), pos + |Render(v)|)
  {
    hide Run, Advance, Render, Flatten, Followed, JsmnRender.Legal, Reaches;
    var f := Forest(tokens, []);
    HoldsParts(js, len, pos, Render(v), follow);
    FlattenNotEmpty(v, pos, -1, |tokens|);
    ValueRuns(js, len, room, f, pos, v, follow);
    assert After(f, v, pos) == Forest(tokens + Flatten(v, pos, -1, |tokens|), []);
  }

  lemma FlattenNotEmpty(v: Value, pos: nat, parent: int, at: nat)
    ensures Flatten(v, pos, parent, at) != []
  {
  }

  // ---- An accepted text is legal ----

  /** The run from here ends without error and with nothing open. */
  predicate Finishes(js: string, len: nat, room: nat, f: Forest, pos: nat)
    requires Terminated(js, len) && Stacked(f)
  {
    var h := Run(js, len, room, f, pos);
    h.error == 0 && h.forest.open == []
  }

  lemma FinishesAfter(js: string, len: nat, room: nat, f: Forest, pos: nat, g: Forest, next: nat)
    requires Terminated(js, len) && Reaches(js, len, room, f, pos, g, next) && Finishes(js, len, room, f, pos)
    ensures Finishes(js, len, room, g, next)
  {
  }

  /** The lexeme at `pos` was no error, and what follows finishes. */
  lemma FinishesNext(js: string, len: nat, room: nat, f: Forest, pos: nat)
    requires Terminated(js, len) && Stacked(f) && Finishes(js, len, room, f, pos) && pos < len && js[pos] != '\0'
    ensures var s := Advance(js, len, room, f, pos);
      s.Going? && pos < s.pos <= len && Stacked(s.forest) && Finishes(js, len, room, s.forest, s.pos)
      && Reaches(js, len, room, f, pos, s.forest, s.pos)
  {
    AdvanceProgress(js, len, room, f, pos);
    hide Advance;
  }

  /** The text from `pos` on is the rest of a container: items, a gap, and its closing bracket. */
  predicate RestIs(js: string, len: nat, room: nat, base: seq<Token>, kind: Kind, inner: seq<Token>, pos: nat,
                   items: Items, gap: string) {
    && IsGap(gap) && LegalItems(items, gap + Right(kind))
    && Holds(js, len, pos, RenderThen(items, gap + Right(kind)))
    && |base| + 1 + |Filled(inner, items, pos, |base|)| <= room
  }

  lemma HoldsJoin(js: string, len: nat, pos: nat, a: string, b: string)
    requires Holds(js, len, pos, a) && Holds(js, len, pos + |a|, b)
    ensures Holds(js, len, pos, a + b)
  {
    assert js[pos..pos + |a + b|] == js[pos..pos + |a|] + js[pos + |a|..pos + |a| + |b|];
  }

  lemma HoldsOne(js: string, len: nat, pos: nat)
    requires pos < len <= |js|
    ensures Holds(js, len, pos, [js[pos]])
  {
  }

  /** A separator in front of the rest belongs to its first gap. */
  lemma SeparatorBefore(js: string, len: nat, room: nat, base: seq<Token>, kind: Kind, inner: seq<Token>, pos: nat,
                        items: Items, gap: string) returns (items': Items, gap': string)
    requires pos < len <= |js| && Separator(js[pos]) && RestIs(js, len, room, base, kind, inner, pos + 1, items, gap)
    ensures RestIs(js, len, room, base, kind, inner, pos, items', gap')
  {
    hide JsmnRender.Legal, Followed, Grown, Render;
    var c := [js[pos]];
    HoldsOne(js, len, pos);
    HoldsJoin(js, len, pos, c, RenderThen(items, gap + Right(kind)));
    match items
    case Empty =>
      items', gap' := Empty, c + gap;
      assert c + (gap + Right(kind)) == c + gap + Right(kind);
    case Item(g, v, more) =>
      items', gap' := Item(c + g, v, more), gap;
      var text := Render(v) + RenderThen(more, gap + Right(kind));
      assert c + (g + text) == c + g + text;
  }

  /** So does a value in front of it. */
  lemma ValueBefore(js: string, len: nat, room: nat, base: seq<Token>, kind: Kind, inner: seq<Token>, pos: nat, v: Value,
                    items: Items, gap: string)
    requires Holds(js, len, pos, Render(v)) && JsmnRender.Legal(v)
    requires RestIs(js, len, room, base, kind, Grown(inner, v, pos, |base|), pos + |Render(v)|, items, gap)
    requires IsPrimitive(v) ==> pos + |Render(v)| < len && EndsPrimitive(js[pos + |Render(v)|])
    ensures RestIs(js, len, room, base, kind, inner, pos, Item("", v, items), gap)
  {
    hide JsmnRender.Legal, Grown, Render, Holds;
    var tail := gap + Right(kind);
    var follow := RenderThen(items, tail);
    RenderNotEmpty(items, tail);
    HoldsFirst(js, len, pos + |Render(v)|, follow);
    HoldsJoin(js, len, pos, Render(v), follow);
    assert "" + (Render(v) + follow) == Render(v) + follow && pos + |""| == pos;
  }

  lemma RenderNotEmpty(items: Items, tail: string)
    requires tail != ""
    ensures RenderThen(items, tail) != ""
  {
    match items
    case Empty =>
    case Item(_, _, rest) => RenderNotEmpty(rest, tail);
  }

  lemma StringRead(js: string, len: nat, f: Forest, pos: nat, q: nat) returns (v: Value)
    requires Terminated(js, len) && Stacked(f) && pos < len && js[pos] == '\"' && StringScan(js, len, pos + 1) == Found(q)
    ensures v.Scalar? && v.kind == String && JsmnRender.Legal(v) && Holds(js, len, pos, Render(v))
    ensures q + 1 == pos + |Render(v)| && LeafAt(f, String, pos + 1, q) == After(f, v, pos)
  {
    hide StringScan, StringBody, Bump, Terminated;
    StringScanIs(js, len, pos + 1, q);
    LenWithin(js, len);
    v := Scalar(String, js[pos + 1..q]);
    Quoted(js, len, pos, q);
  }

  lemma LenWithin(js: string, len: nat)
    requires Terminated(js, len)
    ensures len < |js|
  {
  }

  lemma Quoted(js: string, len: nat, pos: nat, q: nat)
    requires pos < q < len <= |js| && js[pos] == '\"' == js[q]
    ensures Holds(js, len, pos, "\"" + js[pos + 1..q] + "\"")
  {
    assert js[pos..q + 1] == "\"" + js[pos + 1..q] + "\"";
  }

  lemma PrimitiveRead(js: string, len: nat, f: Forest, pos: nat, q: nat) returns (v: Value)
    requires Terminated(js, len) && Stacked(f) && pos < len && StartsPrimitive(js[pos])
    requires PrimitiveScan(js, len, pos) == Found(q) && pos < q
    ensures v.Scalar? && v.kind == Primitive && JsmnRender.Legal(v) && Holds(js, len, pos, Render(v))
    ensures q == pos + |Render(v)| && q < len && EndsPrimitive(js[q]) && LeafAt(f, Primitive, pos, q) == After(f, v, pos)
  {
    PrimitiveScanIs(js, len, pos, q);
    v := Scalar(Primitive, js[pos..q]);
    hide PrimitiveScan, PrimitiveBody, Bump;
  }

  /** The string or primitive a lexeme read. */
  lemma LeafRead(js: string, len: nat, room: nat, f: Forest, pos: nat) returns (v: Value)
    requires Terminated(js, len) && Stacked(f) && pos < len && Advance(js, len, room, f, pos).Going?
    requires js[pos] == '\"' || StartsPrimitive(js[pos])
    ensures v.Scalar? && JsmnRender.Legal(v) && Holds(js, len, pos, Render(v)) && |f.tokens| < room
    ensures var s := Advance(js, len, room, f, pos);
      && s.forest == After(f, v, pos) && s.pos == pos + |Render(v)|
      && (IsPrimitive(v) ==> s.pos < len && EndsPrimitive(js[s.pos]))
  {
    hide JsmnRender.Legal, Holds, Render, After, LeafAt, StringScan, PrimitiveScan, OpenAt, CloseAt, Closes;
    ScanBounds(js, len, pos);
    if js[pos] == '\"' {
      v := StringRead(js, len, f, pos, StringScan(js, len, pos + 1).at);
    } else {
      v := PrimitiveRead(js, len, f, pos, PrimitiveScan(js, len, pos).at);
    }
  }

  /** A container whose rest is known: the value it is, and the run over it. */
  lemma ContainerRead(js: string, len: nat, room: nat, f: Forest, pos: nat, items: Items, gap: string) returns (v: Value)
    requires Terminated(js, len) && Stacked(f) && pos < len && (js[pos] == '{' || js[pos] == '[')
    requires RestIs(js, len, room, Bump(f.tokens, Super(f)), Bracket(js[pos]), [], pos + 1, items, gap)
    ensures v.Group? && JsmnRender.Legal(v) && Holds(js, len, pos, Render(v))
    ensures Reaches(js, len, room, f, pos, After(f, v, pos), pos + |Render(v)|)
    ensures |f.tokens| + |Flatten(v, pos, Super(f), |f.tokens|)| <= room
  {
    var kind := Bracket(js[pos]);
    v := Group(kind, items, gap);
    hide LegalItems, IsGap, RenderThen, Flatten, Filled, After, Reaches;
    HoldsOne(js, len, pos);
    assert [js[pos]] == Left(kind);
    HoldsJoin(js, len, pos, Left(kind), RenderThen(items, gap + Right(kind)));
    GroupTokens(f, v, pos);
    GroupRuns(js, len, room, f, pos, v);
  }

  /** Inside an open container that is closed in the end, the text goes on with items and the bracket. */
  lemma {:induction false} RestOfContainer(js: string, len: nat, room: nat, base: seq<Token>, open: seq<nat>, kind: Kind,
                                           start: nat, parent: int, n: nat, inner: seq<Token>, pos: nat)
    returns (items: Items, gap: string)
    requires Terminated(js, len) && Under(open, |base|) && (kind == Object || kind == Array)
    requires |base| + 1 + |inner| <= room && pos <= len
    requires Stacked(Opened(base, open, kind, start, parent, n, inner))
    requires Finishes(js, len, room, Opened(base, open, kind, start, parent, n, inner), pos)
    ensures RestIs(js, len, room, base, kind, inner, pos, items, gap)
    decreases |js| - pos
  {
    var f := Opened(base, open, kind, start, parent, n, inner);
    OpenedIs(base, open, kind, start, parent, n, inner);
    NotFinished(js, len, room, f, pos);
    var c := js[pos];
    FinishesNext(js, len, room, f, pos);
    var s := Advance(js, len, room, f, pos);
    hide Run, RestIs, Finishes, Render, Flatten, Filled, Reaches, JsmnRender.Legal, LegalItems, Bump, After, Grown;
    if c == '}' || c == ']' {
      items, gap := Empty, "";
      NothingLeft(js, len, room, base, kind, inner, pos);
    } else if c == '{' || c == '[' {
      var b := Bump(f.tokens, Super(f));
      StackIsUnder(f);
      assert OpenAt(f, Bracket(c), pos) == Opened(b, f.open, Bracket(c), pos, Super(f), 0, []);
      var inside, g := RestOfContainer(js, len, room, b, f.open, Bracket(c), pos, Super(f), 0, [], pos + 1);
      var v := ContainerRead(js, len, room, f, pos, inside, g);
      items, gap := RestAfter(js, len, room, base, open, kind, start, parent, n, inner, pos, v);
    } else if Separator(c) {
      var more, g := RestOfContainer(js, len, room, base, open, kind, start, parent, n, inner, pos + 1);
      items, gap := SeparatorBefore(js, len, room, base, kind, inner, pos, more, g);
    } else {
      var v := LeafRead(js, len, room, f, pos);
      items, gap := RestAfter(js, len, room, base, open, kind, start, parent, n, inner, pos, v);
    }
  }

  /** What follows a value inside the container, and the value in front of it. */
  lemma {:induction false} RestAfter(js: string, len: nat, room: nat, base: seq<Token>, open: seq<nat>, kind: Kind,
                                     start: nat, parent: int, n: nat, inner: seq<Token>, pos: nat, v: Value)
    returns (items: Items, gap: string)
    requires Terminated(js, len) && Under(open, |base|) && (kind == Object || kind == Array)
    requires Stacked(Opened(base, open, kind, start, parent, n, inner))
    requires JsmnRender.Legal(v) && Holds(js, len, pos, Render(v)) && Render(v) != ""
    requires IsPrimitive(v) ==> pos + |Render(v)| < len && EndsPrimitive(js[pos + |Render(v)|])
    requires var f := Opened(base, open, kind, start, parent, n, inner);
      && Finishes(js, len, room, f, pos)
      && Reaches(js, len, room, f, pos, After(f, v, pos), pos + |Render(v)|)
      && |f.tokens| + |Flatten(v, pos, |base|, |f.tokens|)| <= room
    ensures RestIs(js, len, room, base, kind, inner, pos, items, gap)
    decreases |js| - pos, 0
  {
    hide Run, RestIs, Finishes, Render, Flatten, Filled, JsmnRender.Legal, LegalItems, Bump, After, Grown;
    var f := Opened(base, open, kind, start, parent, n, inner);
    var q := pos + |Render(v)|;
    FinishesAfter(js, len, room, f, pos, After(f, v, pos), q);
    OpenedNext(base, open, kind, start, parent, n, inner, v, pos);
    GrownIs(inner, v, pos, |base|);
    OpenedIs(base, open, kind, start, parent, n + 1, Grown(inner, v, pos, |base|));
    var more, g := RestOfContainer(js, len, room, base, open, kind, start, parent, n + 1, Grown(inner, v, pos, |base|), q);
    ValueBefore(js, len, room, base, kind, inner, pos, v, more, g);
    items, gap := Item("", v, more), g;
  }

  lemma NotFinished(js: string, len: nat, room: nat, f: Forest, pos: nat)
    requires Terminated(js, len) && Stacked(f) && Finishes(js, len, room, f, pos) && f.open != []
    ensures pos < len && js[pos] != '\0'
  {
  }

  lemma NothingLeft(js: string, len: nat, room: nat, base: seq<Token>, kind: Kind, inner: seq<Token>, pos: nat)
    requires pos < len <= |js| && (kind == Object || kind == Array) && js[pos] == Right(kind)[0]
    requires |base| + 1 + |inner| <= room
    ensures RestIs(js, len, room, base, kind, inner, pos, Empty, "")
  {
    HoldsOne(js, len, pos);
    assert "" + Right(kind) == [js[pos]];
  }

  // ---- Whole texts ----

  /** The characters to be parsed end at q. */
  predicate EndsAt(js: string, len: nat, q: nat) {
    q >= len || (q < |js| && js[q] == '\0')
  }

  /** The text from `pos` on is d, and its tokens fit. */
  predicate DocumentIs(js: string, len: nat, room: nat, tokens: seq<Token>, pos: nat, d: Document) {
    && LegalAll(d, tokens != []) && Holds(js, len, pos, RenderAll(d))
    && EndsAt(js, len, pos + |RenderAll(d)|)
    && |tokens| + |FlattenAll(d, pos, |tokens|)| <= room
  }

  lemma CharBefore(js: string, len: nat, room: nat, tokens: seq<Token>, pos: nat, rest: Document)
    requires pos < len <= |js| && DocumentIs(js, len, room, tokens, pos + 1, rest)
    ensures Separator(js[pos]) ==> DocumentIs(js, len, room, tokens, pos, Gap(js[pos], rest))
    ensures ClosingBracket(js[pos]) && tokens != [] ==> DocumentIs(js, len, room, tokens, pos, Stray(js[pos], rest))
  {
    HoldsOne(js, len, pos);
    HoldsJoin(js, len, pos, [js[pos]], RenderAll(rest));
  }

  lemma TopBefore(js: string, len: nat, room: nat, tokens: seq<Token>, pos: nat, v: Value, rest: Document)
    requires Holds(js, len, pos, Render(v)) && JsmnRender.Legal(v)
    requires IsPrimitive(v) ==> pos + |Render(v)| < len && EndsPrimitive(js[pos + |Render(v)|])
    requires DocumentIs(js, len, room, tokens + Flatten(v, pos, -1, |tokens|), pos + |Render(v)|, rest)
    ensures DocumentIs(js, len, room, tokens, pos, Top(v, rest))
  {
    hide JsmnRender.Legal, Render, Flatten, Holds;
    var q := pos + |Render(v)|;
    FlattenNotEmpty(v, pos, -1, |tokens|);
    HoldsJoin(js, len, pos, Render(v), RenderAll(rest));
    HoldsWithin(js, len, q, RenderAll(rest));
    if RenderAll(rest) != "" {
      HoldsFirst(js, len, q, RenderAll(rest));
    }
  }

  lemma HoldsWithin(js: string, len: nat, pos: nat, s: string)
    requires Holds(js, len, pos, s)
    ensures pos + |s| <= len <= |js|
  {
  }

  /** The value at `pos` with nothing open. */
  lemma TopRead(js: string, len: nat, room: nat, tokens: seq<Token>, pos: nat) returns (v: Value)
    requires Terminated(js, len) && pos < len && |tokens| <= room && js[pos] != '\0' && Stacked(Forest(tokens, []))
    requires Finishes(js, len, room, Forest(tokens, []), pos) && !ClosingBracket(js[pos]) && !Separator(js[pos])
    ensures JsmnRender.Legal(v) && Holds(js, len, pos, Render(v)) && Render(v) != ""
    ensures |tokens| + |Flatten(v, pos, -1, |tokens|)| <= room
    ensures IsPrimitive(v) ==> pos + |Render(v)| < len && EndsPrimitive(js[pos + |Render(v)|])
    ensures Finishes(js, len, room, Forest(tokens + Flatten(v, pos, -1, |tokens|), []), pos + |Render(v)|)
  {
    hide Run, Finishes, Reaches, Advance, JsmnRender.Legal, Render, Flatten, Holds, After, RestIs, Opened, Bump, Stacked, Super;
    hide ClosingBracket, Separator, StartsPrimitive, EndsPrimitive, Bracket, Under;
    var f := Forest(tokens, []);
    if js[pos] == '{' || js[pos] == '[' {
      var kind := Bracket(js[pos]);
      ContainerStarts(js, len, room, tokens, pos);
      var inside, g := RestOfContainer(js, len, room, tokens, [], kind, pos, -1, 0, [], pos + 1);
      TopBase(tokens);
      v := ContainerRead(js, len, room, f, pos, inside, g);
    } else {
      LeafStarts(js, len, room, tokens, pos);
      v := LeafRead(js, len, room, f, pos);
      LeafSize(v, pos, |tokens|);
    }
    LegalNotEmpty(v);
    TopAfter(tokens, v, pos);
    FinishesAfter(js, len, room, f, pos, After(f, v, pos), pos + |Render(v)|);
  }

  lemma ContainerStarts(js: string, len: nat, room: nat, tokens: seq<Token>, pos: nat)
    requires Terminated(js, len) && pos < len && Stacked(Forest(tokens, [])) && (js[pos] == '{' || js[pos] == '[')
    requires Finishes(js, len, room, Forest(tokens, []), pos)
    ensures var f := Opened(tokens, [], Bracket(js[pos]), pos, -1, 0, []);
      Stacked(f) && |tokens| + 1 <= room && Finishes(js, len, room, f, pos + 1)
    ensures Under([], |tokens|) && (Bracket(js[pos]) == Object || Bracket(js[pos]) == Array)
  {
    var f, kind := Forest(tokens, []), Bracket(js[pos]);
    FinishesNext(js, len, room, f, pos);
    assert OpenAt(f, kind, pos) == Opened(tokens, [], kind, pos, -1, 0, []);
  }

  lemma LeafStarts(js: string, len: nat, room: nat, tokens: seq<Token>, pos: nat)
    requires Terminated(js, len) && pos < len && js[pos] != '\0' && Stacked(Forest(tokens, []))
    requires js[pos] != '{' && js[pos] != '[' && !ClosingBracket(js[pos]) && !Separator(js[pos])
    requires Finishes(js, len, room, Forest(tokens, []), pos)
    ensures js[pos] == '\"' || StartsPrimitive(js[pos])
    ensures var s := Advance(js, len, room, Forest(tokens, []), pos);
      s.Going? && Reaches(js, len, room, Forest(tokens, []), pos, s.forest, s.pos)
  {
    FinishesNext(js, len, room, Forest(tokens, []), pos);
  }

  lemma TopBase(tokens: seq<Token>)
    ensures var f := Forest(tokens, []);
      Stacked(f) && Super(f) == -1 && Bump(f.tokens, Super(f)) == tokens
  {
  }

  lemma TopAfter(tokens: seq<Token>, v: Value, pos: nat)
    ensures var f := Forest(tokens, []);
      Stacked(f) && Super(f) == -1 && After(f, v, pos) == Forest(tokens + Flatten(v, pos, -1, |tokens|), [])
  {
    hide Flatten;
  }

  lemma LeafSize(v: Value, pos: nat, at: nat)
    requires v.Scalar?
    ensures |Flatten(v, pos, -1, at)| == 1
  {
  }

  lemma LegalNotEmpty(v: Value)
    requires JsmnRender.Legal(v)
    ensures Render(v) != ""
  {
  }

  /** A stray bracket or a separator, after which the run goes on with the same tokens. */
  lemma CharRead(js: string, len: nat, room: nat, tokens: seq<Token>, pos: nat)
    requires Terminated(js, len) && pos < len && js[pos] != '\0' && Stacked(Forest(tokens, []))
    requires Finishes(js, len, room, Forest(tokens, []), pos) && (ClosingBracket(js[pos]) || Separator(js[pos]))
    ensures Finishes(js, len, room, Forest(tokens, []), pos + 1) && (ClosingBracket(js[pos]) ==> tokens != [])
  {
    hide Run, Reaches, Finishes;
    FinishesNext(js, len, room, Forest(tokens, []), pos);
    if ClosingBracket(js[pos]) {
      StrayBracket(js, len, room, tokens, pos);
    }
  }

  /** The text from a stray bracket on. */
  lemma {:induction false} StrayRest(js: string, len: nat, room: nat, tokens: seq<Token>, pos: nat) returns (d: Document)
    requires Terminated(js, len) && pos < len && |tokens| <= room && js[pos] != '\0' && Stacked(Forest(tokens, []))
    requires Finishes(js, len, room, Forest(tokens, []), pos) && ClosingBracket(js[pos])
    ensures DocumentIs(js, len, room, tokens, pos, d)
    decreases len - pos, 0
  {
    hide Run, Finishes, DocumentIs, Advance, Stacked, ClosingBracket, Separator;
    CharRead(js, len, room, tokens, pos);
    var rest := RestOfDocument(js, len, room, tokens, pos + 1);
    CharBefore(js, len, room, tokens, pos, rest);
    d := Stray(js[pos], rest);
  }

  /** The text from a separator on. */
  lemma {:induction false} GapRest(js: string, len: nat, room: nat, tokens: seq<Token>, pos: nat) returns (d: Document)
    requires Terminated(js, len) && pos < len && |tokens| <= room && js[pos] != '\0' && Stacked(Forest(tokens, []))
    requires Finishes(js, len, room, Forest(tokens, []), pos) && Separator(js[pos])
    ensures DocumentIs(js, len, room, tokens, pos, d)
    decreases len - pos, 0
  {
    hide Run, Finishes, DocumentIs, Advance, Stacked, ClosingBracket, Separator;
    CharRead(js, len, room, tokens, pos);
    var rest := RestOfDocument(js, len, room, tokens, pos + 1);
    CharBefore(js, len, room, tokens, pos, rest);
    d := Gap(js[pos], rest);
  }

  /** The text from a value on. */
  lemma {:induction false} TopRest(js: string, len: nat, room: nat, tokens: seq<Token>, pos: nat) returns (d: Document)
    requires Terminated(js, len) && pos < len && |tokens| <= room && js[pos] != '\0' && Stacked(Forest(tokens, []))
    requires Finishes(js, len, room, Forest(tokens, []), pos) && !ClosingBracket(js[pos]) && !Separator(js[pos])
    ensures DocumentIs(js, len, room, tokens, pos, d)
    decreases len - pos, 0
  {
    hide Run, Finishes, DocumentIs, Advance, Stacked, ClosingBracket, Separator, Render, Flatten, JsmnRender.Legal, Holds;
    var v := TopRead(js, len, room, tokens, pos);
    HoldsWithin(js, len, pos, Render(v));
    NoneOpen(tokens + Flatten(v, pos, -1, |tokens|));
    var rest := RestOfDocument(js, len, room, tokens + Flatten(v, pos, -1, |tokens|), pos + |Render(v)|);
    TopBefore(js, len, room, tokens, pos, v, rest);
    d := Top(v, rest);
  }

  lemma NoneOpen(tokens: seq<Token>)
    ensures Stacked(Forest(tokens, []))
  {
  }

  lemma EndIs(js: string, len: nat, room: nat, tokens: seq<Token>, pos: nat)
    requires EndsAt(js, len, pos) && pos <= len <= |js| && |tokens| <= room
    ensures DocumentIs(js, len, room, tokens, pos, End)
  {
  }

  /** With nothing open, a text that is accepted goes on with separators, values and stray brackets to its end. */
  lemma {:induction false} RestOfDocument(js: string, len: nat, room: nat, tokens: seq<Token>, pos: nat)
    returns (d: Document)
    requires Terminated(js, len) && pos <= len && |tokens| <= room && Stacked(Forest(tokens, []))
    requires Finishes(js, len, room, Forest(tokens, []), pos)
    ensures DocumentIs(js, len, room, tokens, pos, d)
    decreases len - pos, 1
  {
    hide Run, Finishes, DocumentIs, Stacked, ClosingBracket, Separator;
    if EndsAt(js, len, pos) {
      d := End;
      EndIs(js, len, room, tokens, pos);
    } else if ClosingBracket(js[pos]) {
      d := StrayRest(js, len, room, tokens, pos);
    } else if Separator(js[pos]) {
      d := GapRest(js, len, room, tokens, pos);
    } else {
      d := TopRest(js, len, room, tokens, pos);
    }
  }

  /**
   The tokeniser accepts a text if and only if it is a sequence of separators, values and closing brackets behind the
   first value, with room for its tokens; and then it adds exactly those tokens.
   */
  lemma AcceptedExactly(js: string, len: nat, room: nat)
    requires Terminated(js, len)
    ensures Stacked(Forest([], []))
    ensures Finishes(js, len, room, Forest([], []), 0) <==> exists d :: DocumentIs(js, len, room, [], 0, d)
    ensures forall d | DocumentIs(js, len, room, [], 0, d) ::
      Run(js, len, room, Forest([], []), 0) == Halt(Forest(FlattenAll(d, 0, 0), []), |RenderAll(d)|, 0)
  {
    hide Run, FlattenAll;
    var f := Forest([], []);
    if Finishes(js, len, room, f, 0) {
      var d := RestOfDocument(js, len, room, [], 0);
    }
    forall d | DocumentIs(js, len, room, [], 0, d)
      ensures Run(js, len, room, f, 0) == Halt(Forest(FlattenAll(d, 0, 0), []), |RenderAll(d)|, 0)
    {
      DocumentRuns(js, len, room, [], 0, d);
      assert [] + FlattenAll(d, 0, 0) == FlattenAll(d, 0, 0);
      RunEnds(js, len, room, Forest(FlattenAll(d, 0, 0), []), |RenderAll(d)|);
    }
  }

  lemma RunEnds(js: string, len: nat, room: nat, f: Forest, q: nat)
    requires Terminated(js, len) && Stacked(f) && EndsAt(js, len, q)
    ensures Run(js, len, room, f, q) == Halt(f, q, 0)
  {
  }
}
