/** The tokens of a run form a preorder forest whose spans nest like their parents. */
module JsmnForest {
  import opened Jsmn
  import opened JsmnText

  // ---- Parent links ----

  predicate Container(t: Token) {
    t.kind == Object || t.kind == Array
  }

  predicate IsOpen(t: Token) {
    t.end == -1
  }

  /** `first`, at index i, precedes `second`: it lies below second's parent, or is it, or comes before it. */
  predicate Nests(i: int, first: Token, second: Token) {
    && (second.parent < i ==> first.parent >= second.parent)
    && (second.parent == i ==> Container(first))
  }

  /** Every parent comes earlier, and everything between a parent and its child lies below the parent. */
  predicate Preorder(tokens: seq<Token>) {
    && (forall i | 0 <= i < |tokens| :: -1 <= tokens[i].parent < i)
    && (forall i, j | 0 <= i < j < |tokens| :: Nests(i, tokens[i], tokens[j]))
  }

  predicate Rising(open: seq<nat>) {
    forall k, l | 0 <= k < l < |open| :: open[k] < open[l]
  }

  /** The entry below entry `k` of the stack. */
  function Below(open: seq<nat>, k: nat): int
    requires k < |open|
  {
    if k == 0 then -1 else open[k - 1]
  }

  /** Each open container's parent is the one opened before it. */
  predicate Linked(f: Forest)
    requires Stacked(f)
  {
    forall k: nat {:trigger Below(f.open, k)} | k < |f.open| :: f.tokens[f.open[k]].parent == Below(f.open, k)
  }

  /** The open tokens are those on the stack, and they are containers. */
  predicate OpenOnStack(f: Forest) {
    forall i | 0 <= i < |f.tokens| ::
      (IsOpen(f.tokens[i]) <==> i in f.open) && (IsOpen(f.tokens[i]) ==> Container(f.tokens[i]))
  }

  predicate AboveTop(f: Forest) {
    forall i | Super(f) < i < |f.tokens| && 0 <= i :: f.tokens[i].parent >= Super(f)
  }

  /** The stack is the chain of open containers, and everything above its top lies below the top. */
  predicate Chain(f: Forest) {
    Stacked(f) && Rising(f.open) && Linked(f) && OpenOnStack(f) && AboveTop(f)
  }

  /** A new token under the innermost open container; it is open itself when its end is -1. */
  function Add(f: Forest, t: Token): Forest
    requires Stacked(f)
  {
    Forest(Bump(f.tokens, Super(f)) + [t], if IsOpen(t) then f.open + [|f.tokens|] else f.open)
  }

  predicate Fits(f: Forest, t: Token) {
    t.parent == Super(f) && t.size == 0 && (IsOpen(t) ==> Container(t))
  }

  lemma SuperBound(f: Forest)
    requires Stacked(f)
    ensures -1 <= Super(f) < |f.tokens|
  {
  }

  /** The tokens already there only have their size changed. */
  lemma AddKeeps(f: Forest, t: Token)
    requires Stacked(f)
    ensures var g := Add(f, t);
      && |g.tokens| == |f.tokens| + 1 && g.tokens[|f.tokens|] == t && Stacked(g) && -1 <= Super(f) < |f.tokens|
      && forall i {:trigger f.tokens[i]} {:trigger g.tokens[i]} | 0 <= i < |f.tokens| ::
           g.tokens[i] == f.tokens[i].(size := g.tokens[i].size)
  {
  }

  lemma TopIsOpen(f: Forest)
    requires Chain(f)
    ensures Super(f) >= 0 ==> IsOpen(f.tokens[Super(f)]) && Container(f.tokens[Super(f)])
  {
    if f.open != [] {
      assert f.open[|f.open| - 1] in f.open;
    }
  }

  lemma AddPreorder(f: Forest, t: Token)
    requires Chain(f) && Preorder(f.tokens) && Fits(f, t)
    ensures Preorder(Add(f, t).tokens)
  {
    AddKeeps(f, t);
    TopIsOpen(f);
    var g, n := Add(f, t), |f.tokens|;
    hide Add, IsOpen, Rising, Linked, OpenOnStack, Super;
    forall i, j | 0 <= i < j < |g.tokens| ensures Nests(i, g.tokens[i], g.tokens[j]) {
      if j < n {
        assert Nests(i, f.tokens[i], f.tokens[j]);
      }
    }
  }

  lemma AddRising(f: Forest, t: Token)
    requires Stacked(f) && Rising(f.open)
    ensures Rising(Add(f, t).open)
  {
  }

  lemma AddLinked(f: Forest, t: Token)
    requires Stacked(f) && Linked(f) && Fits(f, t)
    ensures Stacked(Add(f, t)) && Linked(Add(f, t))
  {
    AddKeeps(f, t);
    hide Bump, IsOpen;
    var g := Add(f, t);
    forall k: nat | k < |g.open|
      ensures g.tokens[g.open[k]].parent == Below(g.open, k)
    {
      if k < |f.open| {
        assert Below(g.open, k) == Below(f.open, k) && g.tokens[f.open[k]].parent == f.tokens[f.open[k]].parent;
      }
    }
  }

  lemma AddOpenOnStack(f: Forest, t: Token)
    requires Stacked(f) && OpenOnStack(f) && Fits(f, t)
    ensures OpenOnStack(Add(f, t))
  {
    AddKeeps(f, t);
    hide Bump;
    var g, n := Add(f, t), |f.tokens|;
    forall i | 0 <= i < |g.tokens|
      ensures (IsOpen(g.tokens[i]) <==> i in g.open) && (IsOpen(g.tokens[i]) ==> Container(g.tokens[i]))
    {
      if i < n {
        assert i in g.open <==> i in f.open;
      }
    }
  }

  lemma AddAboveTop(f: Forest, t: Token)
    requires Stacked(f) && AboveTop(f) && Fits(f, t)
    ensures AboveTop(Add(f, t))
  {
    AddKeeps(f, t);
    hide Bump;
  }

  lemma AddChain(f: Forest, t: Token)
    requires Chain(f) && Fits(f, t)
    ensures Chain(Add(f, t))
  {
    AddRising(f, t);
    AddLinked(f, t);
    AddOpenOnStack(f, t);
    AddAboveTop(f, t);
    hide Rising, Linked, OpenOnStack, AboveTop, Bump, Fits;
  }

  lemma ClosePreorder(f: Forest, pos: nat)
    requires Chain(f) && Preorder(f.tokens)
    ensures Preorder(CloseAt(f, pos).tokens)
  {
    var g := CloseAt(f, pos);
    forall i, j | 0 <= i < j < |g.tokens| ensures Nests(i, g.tokens[i], g.tokens[j]) {
      assert Nests(i, f.tokens[i], f.tokens[j]);
    }
  }

  /** The container below the top is its parent. */
  lemma SuperAfterClose(f: Forest, pos: nat)
    requires Chain(f) && f.open != []
    ensures Super(CloseAt(f, pos)) == f.tokens[Super(f)].parent < Super(f) && Stacked(CloseAt(f, pos))
  {
    var last := |f.open| - 1;
    assert f.tokens[f.open[last]].parent == Below(f.open, last);
  }

  lemma CloseOpenOnStack(f: Forest, pos: nat)
    requires Chain(f) && f.open != []
    ensures OpenOnStack(CloseAt(f, pos))
  {
    var g, s, last := CloseAt(f, pos), Super(f), |f.open| - 1;
    forall i | 0 <= i < |g.tokens|
      ensures (IsOpen(g.tokens[i]) <==> i in g.open) && (IsOpen(g.tokens[i]) ==> Container(g.tokens[i]))
    {
      if i in f.open && i != s {
        var k :| 0 <= k < |f.open| && f.open[k] == i;
        assert g.open[k] == i;
      }
    }
  }

  lemma CloseAboveTop(f: Forest, pos: nat)
    requires Chain(f) && Preorder(f.tokens) && f.open != []
    ensures AboveTop(CloseAt(f, pos))
  {
    SuperAfterClose(f, pos);
    hide Rising, Linked, OpenOnStack;
  }

  lemma CloseLinked(f: Forest, pos: nat)
    requires Chain(f) && f.open != []
    ensures Linked(CloseAt(f, pos)) && Rising(CloseAt(f, pos).open)
  {
    hide OpenOnStack, AboveTop;
    var g := CloseAt(f, pos);
    forall k: nat | k < |g.open|
      ensures g.tokens[g.open[k]].parent == Below(g.open, k)
    {
      assert Below(g.open, k) == Below(f.open, k) && g.tokens[f.open[k]].parent == f.tokens[f.open[k]].parent;
    }
  }

  lemma CloseChain(f: Forest, pos: nat)
    requires Chain(f) && Preorder(f.tokens)
    ensures Chain(CloseAt(f, pos))
  {
    if f.open != [] {
      SuperAfterClose(f, pos);
      CloseOpenOnStack(f, pos);
      CloseAboveTop(f, pos);
      CloseLinked(f, pos);
    }
  }

  // ---- Spans ----

  predicate InText(t: Token, pos: int) {
    0 <= t.start < pos && (!IsOpen(t) ==> t.start <= t.end <= pos)
  }

  /** A child of a closed container is closed and ends before it. */
  predicate Inside(child: Token, parent: Token) {
    !IsOpen(parent) ==> !IsOpen(child) && child.end < parent.end
  }

  /** Starts increase; of two children of the same parent the first is closed and ends before the second starts. */
  predicate Before(first: Token, second: Token) {
    && first.start < second.start
    && (first.parent == second.parent ==> !IsOpen(first) && first.end <= second.start)
  }

  /** Children lie inside their parents, siblings are disjoint and in order. */
  predicate Spans(tokens: seq<Token>, pos: int) {
    && (forall i | 0 <= i < |tokens| :: InText(tokens[i], pos))
    && (forall i, j | 0 <= i < j < |tokens| ::
          Before(tokens[i], tokens[j]) && (tokens[j].parent == i ==> Inside(tokens[j], tokens[i])))
  }

  lemma AboveTopClosed(f: Forest, i: nat)
    requires Chain(f) && Super(f) < i < |f.tokens|
    ensures !IsOpen(f.tokens[i])
  {
    forall k | 0 <= k < |f.open| ensures f.open[k] != i {
    }
  }

  lemma AddSpans(f: Forest, t: Token, pos: nat, next: nat)
    requires Chain(f) && Preorder(f.tokens) && Fits(f, t) && Spans(f.tokens, pos)
    requires pos <= t.start < next && (IsOpen(t) || t.start <= t.end <= next)
    ensures Spans(Add(f, t).tokens, next)
  {
    AddKeeps(f, t);
    TopIsOpen(f);
    var g, n := Add(f, t), |f.tokens|;
    forall i | 0 <= i < n && f.tokens[i].parent == Super(f) ensures !IsOpen(f.tokens[i]) {
      AboveTopClosed(f, i);
    }
    hide Add, Chain, Super, Stacked, Preorder;
    forall i | 0 <= i < |g.tokens| ensures InText(g.tokens[i], next) {
      assert i < n ==> InText(f.tokens[i], pos);
    }
    forall i, j | 0 <= i < j < |g.tokens|
      ensures Before(g.tokens[i], g.tokens[j]) && (g.tokens[j].parent == i ==> Inside(g.tokens[j], g.tokens[i]))
    {
      assert InText(f.tokens[i], pos);
      if j < n {
        assert Before(f.tokens[i], f.tokens[j]);
      }
    }
  }

  lemma CloseSpans(f: Forest, pos: nat)
    requires Chain(f) && Preorder(f.tokens) && Spans(f.tokens, pos)
    ensures Spans(CloseAt(f, pos).tokens, pos + 1)
  {
    if f.open != [] {
      var g, s := CloseAt(f, pos), Super(f);
      TopIsOpen(f);
      forall i | s < i < |f.tokens| ensures !IsOpen(f.tokens[i]) {
        AboveTopClosed(f, i);
      }
      assert g.tokens == f.tokens[s := f.tokens[s].(end := pos + 1)];
      hide Chain, Super, Stacked, CloseAt, Preorder;
      forall i | 0 <= i < |g.tokens| ensures InText(g.tokens[i], pos + 1) {
        assert InText(f.tokens[i], pos);
      }
      forall i, j | 0 <= i < j < |g.tokens|
        ensures Before(g.tokens[i], g.tokens[j]) && (g.tokens[j].parent == i ==> Inside(g.tokens[j], g.tokens[i]))
      {
        assert Before(f.tokens[i], f.tokens[j]) && InText(f.tokens[j], pos);
      }
    } else {
      assert forall i | 0 <= i < |f.tokens| :: InText(f.tokens[i], pos) ==> InText(f.tokens[i], pos + 1);
    }
  }

  // ---- Sizes ----

  /** How many of the tokens name `i` as their parent. */
  function Kids(tokens: seq<Token>, i: int): nat {
    if tokens == [] then 0
    else Kids(tokens[..|tokens| - 1], i) + (if tokens[|tokens| - 1].parent == i then 1 else 0)
  }

  /** Every size is the number of children, in eight bits. */
  predicate Sizes(tokens: seq<Token>) {
    forall i | 0 <= i < |tokens| :: tokens[i].size == Kids(tokens, i) % 256
  }

  lemma {:induction false} KidsSameParents(s: seq<Token>, t: seq<Token>, i: int)
    requires |s| == |t| && forall k | 0 <= k < |s| :: s[k].parent == t[k].parent
    ensures Kids(s, i) == Kids(t, i)
  {
    if s != [] {
      KidsSameParents(s[..|s| - 1], t[..|t| - 1], i);
    }
  }

  lemma {:induction false} NoKids(s: seq<Token>, i: int)
    requires forall k | 0 <= k < |s| :: s[k].parent != i
    ensures Kids(s, i) == 0
  {
    if s != [] {
      NoKids(s[..|s| - 1], i);
    }
  }

  lemma KidsOfNext(s: seq<Token>, t: Token, i: int)
    ensures Kids(s + [t], i) == Kids(s, i) + (if t.parent == i then 1 else 0)
  {
    assert (s + [t])[..|s|] == s;
  }

  lemma AddSizes(f: Forest, t: Token)
    requires Chain(f) && Preorder(f.tokens) && Fits(f, t) && Sizes(f.tokens)
    ensures Sizes(Add(f, t).tokens)
  {
    AddKeeps(f, t);
    var b, n := Bump(f.tokens, Super(f)), |f.tokens|;
    assert Add(f, t).tokens == b + [t];
    forall i: nat | i < n ensures b[i].size == (f.tokens[i].size + if i == t.parent then 1 else 0) % 256 {
      assert f.tokens[i].size == Kids(f.tokens, i) % 256;
    }
    assert forall i | 0 <= i < n :: b[i].parent == f.tokens[i].parent < n;
    hide Kids, Chain, Preorder, Fits, Bump;
    forall i: nat | i <= n ensures (b + [t])[i].size == Kids(b + [t], i) % 256 {
      SizeOfNext(f.tokens, b, t, i);
    }
  }

  lemma SizeOfNext(old_: seq<Token>, b: seq<Token>, t: Token, i: nat)
    requires |b| == |old_| && forall k | 0 <= k < |b| :: b[k].parent == old_[k].parent < |b|
    requires i <= |b| && t.size == 0 && t.parent < |b|
    requires i < |b| ==> old_[i].size == Kids(old_, i) % 256
    requires i < |b| ==> b[i].size == (old_[i].size + if i == t.parent then 1 else 0) % 256
    ensures (b + [t])[i].size == Kids(b + [t], i) % 256
  {
    hide Kids;
    KidsOfNext(b, t, i);
    KidsSameParents(b, old_, i);
    if i == |b| {
      NoKids(old_, i);
    } else {
      CountOneMore(Kids(old_, i), if i == t.parent then 1 else 0);
    }
  }

  lemma CountOneMore(x: nat, d: nat)
    ensures (x % 256 + d) % 256 == (x + d) % 256
  {
  }

  lemma CloseSizes(f: Forest, pos: nat)
    requires Chain(f) && Sizes(f.tokens)
    ensures Sizes(CloseAt(f, pos).tokens)
  {
    hide Kids;
    forall i | 0 <= i < |f.tokens| ensures CloseAt(f, pos).tokens[i].size == Kids(CloseAt(f, pos).tokens, i) % 256 {
      KidsSameParents(CloseAt(f, pos).tokens, f.tokens, i);
    }
  }

  // ---- Whole runs ----

  /** What every step of the tokeniser keeps, at position `pos` of the text. */
  predicate Invariant(js: string, f: Forest, pos: int) {
    && Chain(f) && Preorder(f.tokens) && Spans(f.tokens, pos) && Sizes(f.tokens)
    && forall i | 0 <= i < |f.tokens| :: Delimited(js, f.tokens[i])
  }

  lemma InvariantStacked(js: string, f: Forest, pos: int)
    requires Invariant(js, f, pos)
    ensures Stacked(f)
  {
  }

  lemma StartHolds(js: string)
    ensures Invariant(js, Forest([], []), 0)
  {
  }

  lemma AddKeepsInvariant(js: string, f: Forest, t: Token, pos: nat, next: nat)
    requires Invariant(js, f, pos) && Fits(f, t) && Delimited(js, t)
    requires pos <= t.start < next && (IsOpen(t) || t.start <= t.end <= next)
    ensures Invariant(js, Add(f, t), next)
  {
    AddPreorder(f, t);
    AddChain(f, t);
    AddSpans(f, t, pos, next);
    AddSizes(f, t);
    AddKeeps(f, t);
    hide Chain, Preorder, Spans, Sizes, Fits, Add, StringBody, PrimitiveBody;
    forall i | 0 <= i < |Add(f, t).tokens| ensures Delimited(js, Add(f, t).tokens[i]) {
      if i < |f.tokens| {
        assert Delimited(js, f.tokens[i]);
      }
    }
  }

  lemma CloseKeepsInvariant(js: string, f: Forest, kind: Kind, pos: nat)
    requires Invariant(js, f, pos) && pos < |js| && (js[pos] == '}' || js[pos] == ']')
    requires kind == Bracket(js[pos]) && Closes(f, kind)
    ensures Invariant(js, CloseAt(f, pos), pos + 1)
  {
    ClosePreorder(f, pos);
    CloseChain(f, pos);
    CloseSpans(f, pos);
    CloseSizes(f, pos);
    SuperBound(f);
    var s := Super(f);
    if s >= 0 {
      assert InText(f.tokens[s], pos) && Delimited(js, f.tokens[s]);
    }
  }

  lemma SkipKeepsInvariant(js: string, f: Forest, pos: nat)
    requires Invariant(js, f, pos)
    ensures Invariant(js, f, pos + 1)
  {
    forall i | 0 <= i < |f.tokens| ensures InText(f.tokens[i], pos + 1) {
      assert InText(f.tokens[i], pos);
    }
  }

  lemma LeafStepKeepsInvariant(js: string, len: nat, room: nat, f: Forest, pos: nat, kind: Kind)
    requires Terminated(js, len) && Invariant(js, f, pos) && pos < len
    requires if kind == String then js[pos] == '\"' else kind == Primitive && StartsPrimitive(js[pos])
    ensures Stacked(f)
    ensures var s := LeafStep(js, len, room, f, pos, kind);
      s.Going? ==> Invariant(js, s.forest, s.pos) && |s.forest.tokens| <= room
  {
    InvariantStacked(js, f, pos);
    hide Chain, Preorder, Spans, Sizes, Delimited, Invariant, Add, LeafAt, StringScan, PrimitiveScan, Stacked, Super;
    var start := if kind == String then pos + 1 else pos;
    var r := if kind == String then StringScan(js, len, start) else PrimitiveScan(js, len, start);
    if r.Found? {
      LeafIsAdd(js, len, f, kind, pos, r.at);
    }
  }

  /** One lexeme keeps the invariant. */
  lemma AdvanceKeepsInvariant(js: string, len: nat, room: nat, f: Forest, pos: nat)
    requires Terminated(js, len) && Invariant(js, f, pos) && pos < len
    ensures Stacked(f)
    ensures var s := Advance(js, len, room, f, pos);
      s.Going? ==> Invariant(js, s.forest, s.pos) && (|s.forest.tokens| <= |f.tokens| || |s.forest.tokens| <= room)
  {
    InvariantStacked(js, f, pos);
    hide Chain, Preorder, Spans, Sizes, Delimited, Invariant, Add, OpenAt, LeafAt, CloseAt, Closes, LeafStep, Stacked, Super;
    var c := js[pos];
    if c == '{' || c == '[' {
      OpenIsAdd(js, f, Bracket(c), pos);
    } else if c == '}' || c == ']' {
      if Closes(f, Bracket(c)) {
        CloseKeepsInvariant(js, f, Bracket(c), pos);
        CloseKeepsCount(f, pos);
      }
    } else if c == '\"' {
      LeafStepKeepsInvariant(js, len, room, f, pos, String);
    } else if Separator(c) {
      SkipKeepsInvariant(js, f, pos);
    } else if StartsPrimitive(c) {
      LeafStepKeepsInvariant(js, len, room, f, pos, Primitive);
    }
  }

  /** The invariant holds wherever a run stops, whether at the end of the text or at an error. */
  lemma {:induction false} RunKeepsInvariant(js: string, len: nat, room: nat, f: Forest, pos: nat)
    requires Terminated(js, len) && Invariant(js, f, pos) && |f.tokens| <= room && pos <= len
    ensures Stacked(f)
    ensures var h := Run(js, len, room, f, pos);
      && Invariant(js, h.forest, h.pos) && pos <= h.pos <= len
      && |f.tokens| <= |h.forest.tokens| <= room
      && (h.error == 0 || h.error == NOMEM || h.error == INVAL || h.error == PART)
    decreases |js| - pos
  {
    InvariantStacked(js, f, pos);
    hide Invariant, Advance;
    if pos < len && js[pos] != '\0' {
      AdvanceProgress(js, len, room, f, pos);
      AdvanceKeepsInvariant(js, len, room, f, pos);
      var s := Advance(js, len, room, f, pos);
      if s.Going? {
        RunKeepsInvariant(js, len, room, s.forest, s.pos);
      }
    }
  }

  lemma OpenIsAdd(js: string, f: Forest, kind: Kind, pos: nat)
    requires Invariant(js, f, pos) && pos < |js| && (js[pos] == '{' || js[pos] == '[') && kind == Bracket(js[pos])
    ensures Stacked(f) && Stacked(OpenAt(f, kind, pos)) && |OpenAt(f, kind, pos).tokens| == |f.tokens| + 1
    ensures Invariant(js, OpenAt(f, kind, pos), pos + 1)
  {
    hide Preorder, Spans, Sizes;
    var t := Token(kind, 0, pos, -1, Super(f));
    AddKeepsInvariant(js, f, t, pos, pos + 1);
    assert OpenAt(f, kind, pos) == Add(f, t);
  }

  lemma LeafIsAdd(js: string, len: nat, f: Forest, kind: Kind, pos: nat, q: nat)
    requires Terminated(js, len) && Invariant(js, f, pos) && pos < len
    requires if kind == String then js[pos] == '\"' && StringScan(js, len, pos + 1) == Found(q)
             else kind == Primitive && StartsPrimitive(js[pos]) && PrimitiveScan(js, len, pos) == Found(q)
    ensures var start := if kind == String then pos + 1 else pos;
      && Stacked(f) && Stacked(LeafAt(f, kind, start, q)) && |LeafAt(f, kind, start, q).tokens| == |f.tokens| + 1
      && Invariant(js, LeafAt(f, kind, start, q), if kind == String then q + 1 else q)
  {
    hide Preorder, Spans, Sizes, StringScan, PrimitiveScan;
    var start := if kind == String then pos + 1 else pos;
    ScanBounds(js, len, start);
    if kind == String {
      StringDelimited(js, len, pos, q, Super(f));
    } else {
      PrimitiveDelimited(js, len, pos, q, Super(f));
    }
    hide Delimited;
    var t := Token(kind, 0, start, q, Super(f));
    AddKeepsInvariant(js, f, t, pos, if kind == String then q + 1 else q);
    assert LeafAt(f, kind, start, q) == Add(f, t);
  }

  lemma CloseKeepsCount(f: Forest, pos: nat)
    requires Stacked(f)
    ensures |CloseAt(f, pos).tokens| == |f.tokens| && Stacked(CloseAt(f, pos))
  {
  }

  // ---- The result ----

  /** A preorder forest of closed tokens, nested as their spans are, with sizes that count children. */
  predicate WellFormed(js: string, tokens: seq<Token>) {
    && Preorder(tokens) && Spans(tokens, |js|) && Sizes(tokens)
    && forall i | 0 <= i < |tokens| :: !IsOpen(tokens[i]) && Delimited(js, tokens[i])
  }

  lemma {:induction false} StartsGrow(tokens: seq<Token>, pos: int, i: nat)
    requires Spans(tokens, pos) && i < |tokens|
    ensures i <= tokens[i].start
  {
    assert InText(tokens[i], pos);
    if i > 0 {
      StartsGrow(tokens, pos, i - 1);
      assert Before(tokens[i - 1], tokens[i]);
    }
  }

  /** With an empty stack the tokens form a well-formed forest, and all their numbers fit in 16 bits. */
  lemma FinishedIsWellFormed(js: string, f: Forest, pos: nat)
    requires Invariant(js, f, pos) && f.open == [] && pos <= |js| <= 0x8000
    ensures WellFormed(js, f.tokens)
    ensures |f.tokens| <= pos && Spans(f.tokens, pos)
  {
    forall i | 0 <= i < |f.tokens| ensures InText(f.tokens[i], |js|) && !IsOpen(f.tokens[i]) {
      assert InText(f.tokens[i], pos);
    }
    if f.tokens != [] {
      StartsGrow(f.tokens, pos, |f.tokens| - 1);
      assert InText(f.tokens[|f.tokens| - 1], pos);
    }
  }
}
