/** Writing a tree as JSON text and tokenising the text gives the tree in preorder. */
module JsmnRender {
  import opened Jsmn
  import opened JsmnText

  /** A value; a gap is white space, commas and colons before an item or before the closing bracket. */
  datatype Value = Scalar(kind: Kind, text: string) | Group(kind: Kind, items: Items, gap: string)
  datatype Items = Empty | Item(gap: string, value: Value, rest: Items)

  function Left(kind: Kind): (s: string) ensures |s| == 1 { if kind == Object then "{" else "[" }
  function Right(kind: Kind): (s: string) ensures |s| == 1 { if kind == Object then "}" else "]" }

  function Render(v: Value): string {
    match v
    case Scalar(kind, text) => if kind == String then "\"" + text + "\"" else text
    case Group(kind, items, gap) => Left(kind) + RenderThen(items, gap + Right(kind))
  }

  /** The items, and then `tail`. */
  function RenderThen(items: Items, tail: string): string {
    match items
    case Empty => tail
    case Item(gap, value, rest) => gap + (Render(value) + RenderThen(rest, tail))
  }

  /** Where the items end when they start at `pos`. */
  function EndOf(items: Items, pos: nat): nat {
    match items
    case Empty => pos
    case Item(gap, value, rest) => EndOf(rest, pos + |gap| + |Render(value)|)
  }

  lemma {:induction false} EndOfIs(items: Items, tail: string, pos: nat)
    ensures EndOf(items, pos) + |tail| == pos + |RenderThen(items, tail)|
  {
    match items
    case Empty =>
    case Item(gap, value, rest) => EndOfIs(rest, tail, pos + |gap| + |Render(value)|);
  }

  predicate IsGap(s: string) {
    forall k | 0 <= k < |s| :: Separator(s[k])
  }

  predicate IsPrimitive(v: Value) {
    v.Scalar? && v.kind == Primitive
  }

  /** `follow` may come after the value: a primitive needs a delimiter. */
  predicate Followed(v: Value, follow: string) {
    IsPrimitive(v) ==> follow != "" && EndsPrimitive(follow[0])
  }

  predicate Legal(v: Value) {
    match v
    case Scalar(kind, text) =>
      (kind == String && StringBody(text))
      || (kind == Primitive && text != "" && StartsPrimitive(text[0]) && PrimitiveBody(text))
    case Group(kind, items, gap) =>
      (kind == Object || kind == Array) && IsGap(gap) && LegalItems(items, gap + Right(kind))
  }

  predicate LegalItems(items: Items, tail: string) {
    match items
    case Empty => true
    case Item(gap, value, rest) =>
      IsGap(gap) && Legal(value) && Followed(value, RenderThen(rest, tail)) && LegalItems(rest, tail)
  }

  // ---- The tokens of a value ----

  function Count(items: Items): nat {
    match items case Empty => 0 case Item(_, _, rest) => 1 + Count(rest)
  }

  /** The tokens of `v` written at `pos`, the first of them at index `at`, in preorder. */
  function Flatten(v: Value, pos: nat, parent: int, at: nat): seq<Token> {
    match v
    case Scalar(kind, text) =>
      var start := if kind == String then pos + 1 else pos;
      [Token(kind, 0, start, start + |text|, parent)]
    case Group(kind, items, gap) =>
      [Token(kind, Count(items) % 256, pos, pos + |Render(v)|, parent)] + FlattenItems(items, pos + 1, at, at + 1)
  }

  function FlattenItems(items: Items, pos: nat, parent: int, at: nat): seq<Token> {
    match items
    case Empty => []
    case Item(gap, value, rest) =>
      var first := Flatten(value, pos + |gap|, parent, at);
      first + FlattenItems(rest, pos + |gap| + |Render(value)|, parent, at + |first|)
  }

  // ---- Running over a text ----

  predicate Holds(js: string, len: nat, pos: nat, s: string) {
    pos + |s| <= len <= |js| && js[pos..pos + |s|] == s
  }

  lemma HoldsParts(js: string, len: nat, pos: nat, a: string, b: string)
    requires Holds(js, len, pos, a + b)
    ensures Holds(js, len, pos, a) && Holds(js, len, pos + |a|, b)
  {
    var s := js[pos..pos + |a + b|];
    assert s[..|a|] == a && s[|a|..] == b;
    assert js[pos..pos + |a|] == s[..|a|] && js[pos + |a|..pos + |a| + |b|] == s[|a|..];
  }

  lemma HoldsFirst(js: string, len: nat, pos: nat, s: string)
    requires Holds(js, len, pos, s) && s != ""
    ensures pos < len && js[pos] == s[0]
  {
    assert js[pos] == js[pos..pos + |s|][0];
  }

  /** Two points of a run. */
  predicate Reaches(js: string, len: nat, room: nat, f: Forest, pos: nat, g: Forest, next: nat)
    requires Terminated(js, len)
  {
    Stacked(f) && Stacked(g) && Run(js, len, room, f, pos) == Run(js, len, room, g, next)
  }

  lemma OneStep(js: string, len: nat, room: nat, f: Forest, pos: nat)
    requires Terminated(js, len) && Stacked(f) && pos < len && js[pos] != '\0'
    requires Advance(js, len, room, f, pos).Going?
    ensures var s := Advance(js, len, room, f, pos); Reaches(js, len, room, f, pos, s.forest, s.pos)
  {
    AdvanceProgress(js, len, room, f, pos);
  }

  lemma {:induction false} GapRuns(js: string, len: nat, room: nat, f: Forest, pos: nat, gap: string)
    requires Terminated(js, len) && Stacked(f) && IsGap(gap) && Holds(js, len, pos, gap)
    ensures Reaches(js, len, room, f, pos, f, pos + |gap|)
    decreases |gap|
  {
    if gap != "" {
      HoldsFirst(js, len, pos, gap);
      assert gap == gap[..1] + gap[1..];
      HoldsParts(js, len, pos, gap[..1], gap[1..]);
      GapRuns(js, len, room, f, pos + 1, gap[1..]);
      OneStep(js, len, room, f, pos);
    }
  }

  /** The forest after a value below the current container. */
  function After(f: Forest, v: Value, pos: nat): Forest
    requires Stacked(f)
  {
    Forest(Bump(f.tokens, Super(f)) + Flatten(v, pos, Super(f), |f.tokens|), f.open)
  }

  lemma StringScanned(js: string, len: nat, pos: nat, text: string)
    requires Terminated(js, len) && StringBody(text) && Holds(js, len, pos, "\"" + text + "\"")
    ensures js[pos] == '\"' && StringScan(js, len, pos + 1) == Found(pos + 1 + |text|)
  {
    assert "\"" + text + "\"" == "\"" + (text + "\"");
    HoldsParts(js, len, pos, "\"", text + "\"");
    HoldsParts(js, len, pos + 1, text, "\"");
    var q := pos + 1 + |text|;
    HoldsFirst(js, len, pos, "\"");
    HoldsFirst(js, len, q, "\"");
    hide StringBody;
    StringScanIs(js, len, pos + 1, q);
  }

  lemma PrimitiveScanned(js: string, len: nat, pos: nat, text: string, follow: string)
    requires Terminated(js, len) && text != "" && StartsPrimitive(text[0]) && PrimitiveBody(text)
    requires follow != "" && EndsPrimitive(follow[0]) && Holds(js, len, pos, text + follow)
    ensures StartsPrimitive(js[pos]) && PrimitiveScan(js, len, pos) == Found(pos + |text|)
  {
    HoldsParts(js, len, pos, text, follow);
    HoldsFirst(js, len, pos, text);
    HoldsFirst(js, len, pos + |text|, follow);
    PrimitiveScanIs(js, len, pos, pos + |text|);
  }

  lemma ScalarRuns(js: string, len: nat, room: nat, f: Forest, pos: nat, v: Value, follow: string)
    requires Terminated(js, len) && Stacked(f) && v.Scalar? && Legal(v) && Followed(v, follow)
    requires Holds(js, len, pos, Render(v) + follow) && |f.tokens| < room
    ensures Reaches(js, len, room, f, pos, After(f, v, pos), pos + |Render(v)|)
  {
    hide StringScan, PrimitiveScan, StringBody, PrimitiveBody, Holds, Run, Reaches;
    HoldsParts(js, len, pos, Render(v), follow);
    HoldsFirst(js, len, pos, Render(v));
    if v.kind == String {
      StringScanned(js, len, pos, v.text);
    } else {
      PrimitiveScanned(js, len, pos, v.text, follow);
    }
    OneStep(js, len, room, f, pos);
    assert After(f, v, pos) == LeafAt(f, v.kind, if v.kind == String then pos + 1 else pos,
                                      (if v.kind == String then pos + 1 else pos) + |v.text|);
  }

  // ---- Containers ----

  /** A container opened at `start` on top of `base`, with `n` children and their tokens so far. */
  function Opened(base: seq<Token>, open: seq<nat>, kind: Kind, start: nat, parent: int, n: nat, inner: seq<Token>): Forest {
    Forest(base + [Token(kind, n % 256, start, -1, parent)] + inner, open + [|base|])
  }

  predicate Under(open: seq<nat>, n: nat) {
    forall k | 0 <= k < |open| :: open[k] < n
  }

  /** One more value inside the container at index `at`. */
  function Grown(inner: seq<Token>, v: Value, pos: nat, at: nat): seq<Token> {
    inner + Flatten(v, pos, at, at + 1 + |inner|)
  }

  lemma GrownIs(inner: seq<Token>, v: Value, pos: nat, at: nat)
    ensures |Grown(inner, v, pos, at)| == |inner| + |Flatten(v, pos, at, at + 1 + |inner|)|
  {
  }

  /** Further items appended to the tokens inside the container at index `at`. */
  function Filled(inner: seq<Token>, items: Items, pos: nat, at: nat): seq<Token>
    decreases items
  {
    match items
    case Empty => inner
    case Item(gap, value, rest) =>
      Filled(Grown(inner, value, pos + |gap|, at), rest, pos + |gap| + |Render(value)|, at)
  }

  lemma Regroup(a: seq<Token>, b: seq<Token>, c: seq<Token>)
    ensures a + b + c == a + (b + c)
  {
  }

  lemma {:induction false} FilledIs(inner: seq<Token>, items: Items, pos: nat, at: nat)
    ensures Filled(inner, items, pos, at) == inner + FlattenItems(items, pos, at, at + 1 + |inner|)
    decreases items
  {
    match items
    case Empty =>
    case Item(gap, value, rest) =>
      var first := Flatten(value, pos + |gap|, at, at + 1 + |inner|);
      FilledIs(inner + first, rest, pos + |gap| + |Render(value)|, at);
      var more := FlattenItems(rest, pos + |gap| + |Render(value)|, at, at + 1 + |inner| + |first|);
      Regroup(inner, first, more);
  }

  lemma OpenedIs(base: seq<Token>, open: seq<nat>, kind: Kind, start: nat, parent: int, n: nat, inner: seq<Token>)
    requires Under(open, |base|)
    ensures var f := Opened(base, open, kind, start, parent, n, inner);
      Stacked(f) && Super(f) == |base| && |f.tokens| == |base| + 1 + |inner| && f.tokens[|base|].kind == kind
  {
  }

  lemma OpenedNext(base: seq<Token>, open: seq<nat>, kind: Kind, start: nat, parent: int, n: nat, inner: seq<Token>,
                   v: Value, pos: nat)
    requires Stacked(Opened(base, open, kind, start, parent, n, inner))
    ensures var f := Opened(base, open, kind, start, parent, n, inner);
      After(f, v, pos) == Opened(base, open, kind, start, parent, n + 1, Grown(inner, v, pos, |base|))
  {
    var f := Opened(base, open, kind, start, parent, n, inner);
    assert Super(f) == |base|;
    assert (n % 256 + 1) % 256 == (n + 1) % 256;
    hide Flatten;
    var more := Flatten(v, pos, |base|, |base| + 1 + |inner|);
    assert Bump(f.tokens, |base|) == base + [Token(kind, (n + 1) % 256, start, -1, parent)] + inner;
    assert base + [Token(kind, (n + 1) % 256, start, -1, parent)] + inner + more
        == base + [Token(kind, (n + 1) % 256, start, -1, parent)] + (inner + more);
  }

  lemma ReachesItself(js: string, len: nat, room: nat, f: Forest, p: nat)
    requires Terminated(js, len) && Stacked(f)
    ensures Reaches(js, len, room, f, p, f, p)
  {
  }

  lemma ReachesTrans(js: string, len: nat, room: nat, f: Forest, p: nat, g: Forest, q: nat, h: Forest, r: nat)
    requires Terminated(js, len) && Reaches(js, len, room, f, p, g, q) && Reaches(js, len, room, g, q, h, r)
    ensures Reaches(js, len, room, f, p, h, r)
  {
  }

  lemma {:induction false} FilledGrows(inner: seq<Token>, items: Items, pos: nat, at: nat)
    ensures |inner| <= |Filled(inner, items, pos, at)|
  {
    FilledIs(inner, items, pos, at);
  }

  lemma {:induction false} ItemsRun(js: string, len: nat, room: nat, base: seq<Token>, open: seq<nat>, kind: Kind,
                                    start: nat, parent: int, n: nat, inner: seq<Token>, pos: nat, items: Items, tail: string)
    requires Terminated(js, len) && Under(open, |base|)
    requires LegalItems(items, tail) && Holds(js, len, pos, RenderThen(items, tail))
    requires |base| + 1 + |Filled(inner, items, pos, |base|)| <= room
    ensures Reaches(js, len, room, Opened(base, open, kind, start, parent, n, inner), pos,
                    Opened(base, open, kind, start, parent, n + Count(items), Filled(inner, items, pos, |base|)),
                    EndOf(items, pos))
    ensures Holds(js, len, EndOf(items, pos), tail)
    decreases items, 0
  {
    hide Opened, Stacked, Holds, Reaches, Render, Grown, IsGap, Legal, Followed, Terminated, Under, Super;
    OpenedIs(base, open, kind, start, parent, n, inner);
    var f := Opened(base, open, kind, start, parent, n, inner);
    match items
    case Empty =>
      ReachesItself(js, len, room, f, pos);
    case Item(gap, v, rest) =>
      var p := pos + |gap|;
      var q := p + |Render(v)|;
      var next := Grown(inner, v, p, |base|);
      FilledGrows(next, rest, q, |base|);
      ItemRuns(js, len, room, base, open, kind, start, parent, n, inner, pos, gap, v, RenderThen(rest, tail));
      ItemsRun(js, len, room, base, open, kind, start, parent, n + 1, next, q, rest, tail);
      ReachesTrans(js, len, room, f, pos, Opened(base, open, kind, start, parent, n + 1, next), q,
                   Opened(base, open, kind, start, parent, n + Count(items), Filled(inner, items, pos, |base|)),
                   EndOf(items, pos));
  }

  lemma {:induction false} ItemRuns(js: string, len: nat, room: nat, base: seq<Token>, open: seq<nat>, kind: Kind,
                                    start: nat, parent: int, n: nat, inner: seq<Token>,
                                    pos: nat, gap: string, v: Value, follow: string)
    requires Terminated(js, len) && Under(open, |base|)
    requires IsGap(gap) && Legal(v) && Followed(v, follow) && Holds(js, len, pos, gap + (Render(v) + follow))
    requires |base| + 1 + |Grown(inner, v, pos + |gap|, |base|)| <= room
    ensures var p := pos + |gap|;
      && Holds(js, len, p + |Render(v)|, follow)
      && Reaches(js, len, room, Opened(base, open, kind, start, parent, n, inner), pos,
                 Opened(base, open, kind, start, parent, n + 1, Grown(inner, v, p, |base|)),
                 p + |Render(v)|)
    decreases v, 2
  {
    hide *;
    OpenedIs(base, open, kind, start, parent, n, inner);
    GrownIs(inner, v, pos + |gap|, |base|);
    var f := Opened(base, open, kind, start, parent, n, inner);
    var p := pos + |gap|;
    HoldsParts(js, len, pos, gap, Render(v) + follow);
    HoldsParts(js, len, p, Render(v), follow);
    GapRuns(js, len, room, f, pos, gap);
    ValueRuns(js, len, room, f, p, v, follow);
    OpenedNext(base, open, kind, start, parent, n, inner, v, p);
    ReachesTrans(js, len, room, f, pos, f, p, After(f, v, p), p + |Render(v)|);
  }

  /** The run over a written value adds exactly the value's tokens. */
  lemma {:induction false} ValueRuns(js: string, len: nat, room: nat, f: Forest, pos: nat, v: Value, follow: string)
    requires Terminated(js, len) && Stacked(f) && Legal(v) && Followed(v, follow)
    requires Holds(js, len, pos, Render(v) + follow)
    requires |f.tokens| + |Flatten(v, pos, Super(f), |f.tokens|)| <= room
    ensures Reaches(js, len, room, f, pos, After(f, v, pos), pos + |Render(v)|)
    decreases v, 1
  {
    if v.Scalar? {
      ScalarRuns(js, len, room, f, pos, v, follow);
    } else {
      HoldsParts(js, len, pos, Render(v), follow);
      GroupRuns(js, len, room, f, pos, v);
    }
  }

  lemma {:induction false} GroupRuns(js: string, len: nat, room: nat, f: Forest, pos: nat, v: Value)
    requires Terminated(js, len) && Stacked(f) && Legal(v) && v.Group?
    requires Holds(js, len, pos, Render(v))
    requires |f.tokens| + |Flatten(v, pos, Super(f), |f.tokens|)| <= room
    ensures Reaches(js, len, room, f, pos, After(f, v, pos), pos + |Render(v)|)
    decreases v, 0
  {
    hide *;
    var Group(kind, items, gap) := v;
    StackIsUnder(f);
    var base, n, parent := Bump(f.tokens, Super(f)), Count(items), Super(f);
    var tail := gap + Right(kind);
    LegalParts(v);
    RenderedParts(js, len, pos, v);
    var inner := Filled([], items, pos + 1, |base|);
    GroupTokens(f, v, pos);
    var p := EndOf(items, pos + 1);
    var g0, g1 := Opened(base, f.open, kind, pos, parent, 0, []), Opened(base, f.open, kind, pos, parent, n, inner);
    OpenRuns(js, len, room, f, pos, kind);
    ItemsRun(js, len, room, base, f.open, kind, pos, parent, 0, [], pos + 1, items, tail);
    HoldsParts(js, len, p, gap, Right(kind));
    RightHeld(js, len, p + |gap|, kind);
    OpenedIs(base, f.open, kind, pos, parent, n, inner);
    GapRuns(js, len, room, g1, p, gap);
    CloseRuns(js, len, room, base, f.open, kind, pos, parent, n, inner, p + |gap|);
    var h := After(f, v, pos);
    ReachesTrans(js, len, room, f, pos, g0, pos + 1, g1, p);
    ReachesTrans(js, len, room, f, pos, g1, p, g1, p + |gap|);
    ReachesTrans(js, len, room, f, pos, g1, p + |gap|, h, pos + |Render(v)|);
  }

  lemma LegalParts(v: Value)
    requires Legal(v) && v.Group?
    ensures (v.kind == Object || v.kind == Array) && IsGap(v.gap) && LegalItems(v.items, v.gap + Right(v.kind))
  {
  }

  lemma RenderedParts(js: string, len: nat, pos: nat, v: Value)
    requires v.Group? && Holds(js, len, pos, Render(v))
    ensures pos < len <= |js| && js[pos] == Left(v.kind)[0]
    ensures Holds(js, len, pos + 1, RenderThen(v.items, v.gap + Right(v.kind)))
  {
    HoldsParts(js, len, pos, Left(v.kind), RenderThen(v.items, v.gap + Right(v.kind)));
    HoldsFirst(js, len, pos, Left(v.kind));
  }

  lemma RightHeld(js: string, len: nat, pos: nat, kind: Kind)
    requires Holds(js, len, pos, Right(kind))
    ensures pos < len <= |js| && js[pos] == Right(kind)[0]
  {
    HoldsFirst(js, len, pos, Right(kind));
  }

  lemma StackIsUnder(f: Forest)
    requires Stacked(f)
    ensures Super(f) < |f.tokens| && Under(f.open, |f.tokens|) && |Bump(f.tokens, Super(f))| == |f.tokens|
  {
  }

  /** A container's tokens, and where its text ends. */
  lemma GroupTokens(f: Forest, v: Value, pos: nat)
    requires Stacked(f) && v.Group?
    ensures var base, inner := Bump(f.tokens, Super(f)), Filled([], v.items, pos + 1, |f.tokens|);
      var end := EndOf(v.items, pos + 1) + |v.gap| + 1;
      && end == pos + |Render(v)| && |Flatten(v, pos, Super(f), |f.tokens|)| == 1 + |inner|
      && After(f, v, pos) == Forest(base + [Token(v.kind, Count(v.items) % 256, pos, end, Super(f))] + inner, f.open)
  {
    hide EndOf, RenderThen, Filled, Flatten, FlattenItems, Bump, Super, Stacked, Count, Render;
    StackIsUnder(f);
    GroupEnd(v, pos);
    FilledIs([], v.items, pos + 1, |f.tokens|);
    var inner := FlattenItems(v.items, pos + 1, |f.tokens|, |f.tokens| + 1);
    assert [] + inner == inner;
    GroupFlattened(v, pos, Super(f), |f.tokens|);
    var base, t := Bump(f.tokens, Super(f)), Token(v.kind, Count(v.items) % 256, pos, pos + |Render(v)|, Super(f));
    Regroup(base, [t], inner);
  }

  lemma GroupEnd(v: Value, pos: nat)
    requires v.Group?
    ensures EndOf(v.items, pos + 1) + |v.gap| + 1 == pos + |Render(v)|
  {
    EndOfIs(v.items, v.gap + Right(v.kind), pos + 1);
  }

  lemma GroupFlattened(v: Value, pos: nat, parent: int, at: nat)
    requires v.Group?
    ensures Flatten(v, pos, parent, at)
         == [Token(v.kind, Count(v.items) % 256, pos, pos + |Render(v)|, parent)] + FlattenItems(v.items, pos + 1, at, at + 1)
  {
  }

  lemma OpenRuns(js: string, len: nat, room: nat, f: Forest, pos: nat, kind: Kind)
    requires Terminated(js, len) && Stacked(f) && pos < len && (kind == Object || kind == Array)
    requires js[pos] == Left(kind)[0] && |f.tokens| < room
    ensures Reaches(js, len, room, f, pos, Opened(Bump(f.tokens, Super(f)), f.open, kind, pos, Super(f), 0, []), pos + 1)
  {
    hide Run, Reaches;
    OneStep(js, len, room, f, pos);
    assert OpenAt(f, kind, pos) == Opened(Bump(f.tokens, Super(f)), f.open, kind, pos, Super(f), 0, []);
  }

  lemma CloseRuns(js: string, len: nat, room: nat, base: seq<Token>, open: seq<nat>, kind: Kind, start: nat, parent: int,
                  n: nat, inner: seq<Token>, pos: nat)
    requires Terminated(js, len) && Stacked(Opened(base, open, kind, start, parent, n, inner))
    requires pos < len && (kind == Object || kind == Array) && js[pos] == Right(kind)[0]
    ensures Reaches(js, len, room, Opened(base, open, kind, start, parent, n, inner), pos,
                    Forest(base + [Token(kind, n % 256, start, pos + 1, parent)] + inner, open), pos + 1)
  {
    hide Run, Reaches;
    var f := Opened(base, open, kind, start, parent, n, inner);
    assert Super(f) == |base| && f.tokens[|base|].kind == kind;
    OneStep(js, len, room, f, pos);
    assert f.open[..|f.open| - 1] == open;
    assert CloseAt(f, pos) == Forest(base + [Token(kind, n % 256, start, pos + 1, parent)] + inner, open);
  }

  /** A text that is one written object or array is tokenised into its tree, in preorder. */
  lemma RenderedIsParsed(v: Value, room: nat)
    requires Legal(v) && v.Group? && |Render(v)| < 0x8000 && |Flatten(v, 0, -1, 0)| <= room
    ensures var js := Render(v) + "\0";
      Terminated(js, |Render(v)|) && Stacked(Forest([], []))
      && Run(js, |Render(v)|, room, Forest([], []), 0) == Halt(Forest(Flatten(v, 0, -1, 0), []), |Render(v)|, 0)
  {
    var js, len, f := Render(v) + "\0", |Render(v)|, Forest([], []);
    assert js[0..len] == Render(v) + "";
    ValueRuns(js, len, room, f, 0, v, "");
    assert [] + Flatten(v, 0, -1, 0) == Flatten(v, 0, -1, 0);
  }
}
