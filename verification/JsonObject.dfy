/** The parser object of json_wrappers.c: a text, its tokens, and the object or array searches are limited to. */
module JsonObject {
  import opened Jsmn
  import opened JsmnText
  import opened JsmnForest
  import opened JsmnTree
  import opened JsmnParser
  import opened JsonWrappers
  import opened CStrings

  datatype State = KEY | FOUND | SKIP

  /** The answer of json_init for a first token of this kind and size. */
  function RootCode(t: Token): int {
    if (t.kind == Object && t.size % 2 == 0) || t.kind == Array then SUCCESS else E_INVALID_JOBJ
  }

  function ErrorCode(r: int): int {
    if r == NOMEM then E_NOMEM else if r == INVAL then E_INVAL else E_INCOMPLETE
  }

  function CompositeCode(tokens: seq<Token>, v: nat): int
    requires v < |tokens|
  {
    if tokens[v].kind != Object then E_INVALID_TYPE
    else if Kids(tokens, v) % 2 != 0 then E_INVALID_JOBJ
    else SUCCESS
  }

  class JsonParser {
    const js: array<char>
    const tokens: array<Token>
    var numTokens: nat
    /** The index of the current object or array. */
    var cur: nat

    ghost function Tokens(): seq<Token>
      requires numTokens <= tokens.Length
      reads this, tokens
    {
      tokens[..numTokens]
    }

    ghost predicate Valid()
      reads this, js, tokens
    {
      numTokens <= tokens.Length && cur < numTokens && Tree(js[..], Tokens())
    }

    /** json_obj_init. */
    constructor (js: array<char>, tokens: array<Token>)
      ensures this.js == js && this.tokens == tokens && numTokens == tokens.Length && cur == 0
    {
      this.js := js;
      this.tokens := tokens;
      numTokens, cur := tokens.Length, 0;
    }

    /**
     json_init. A text that parses is accepted when its first token is an array or an object with an even
     number of children; an empty text has no token, and then the caller's old tokens[0] is looked at.
     */
    method Init(len: nat) returns (code: int)
      requires Terminated(js[..], len) && 0 < tokens.Length == numTokens
      modifies this, tokens
      ensures numTokens <= tokens.Length && Stacked(Forest([], []))
      ensures var h := Run(js[..], len, tokens.Length, Forest([], []), 0);
        if h.error != 0 then code == ErrorCode(h.error)
        else if h.forest.open != [] then code == E_INCOMPLETE
        else Tokens() == h.forest.tokens && WellFormed(js[..], Tokens()) && cur == 0 && code == RootCode(tokens[0])
      ensures code == SUCCESS && numTokens > 0 && Counted(Tokens()) ==> Valid()
    {
      hide Run, Preorder, Sizes, Spans, Delimited, Counted, Invariant, Super;
      var parser := new Parser();
      assert parser.State(tokens) == Forest([], []);
      var parsed := parser.Parse(js, len, tokens);
      if parsed < 0 {
        return ErrorCode(parsed);
      }
      numTokens, cur := parsed, 0;
      assert parser.State(tokens).tokens == tokens[..parser.toknext];
      return RootCode(tokens[0]);
    }

    // ---- Objects ----

    /** json_get_value. */
    method GetValue(key: string) returns (r: Lookup)
      requires Valid() && NoNul(key)
      ensures r == ValueOf(js[..], Tokens(), cur, key)
      ensures if r.At? then r.index < numTokens && Tokens()[r.index].parent == cur else r.code < 0
    {
      hide Preorder, Sizes, Spans, Delimited, Kids, Children, SubtreeEnd, TokenStreq, Counted, FirstMatch, AfterChildren;
      ghost var ts, text, i := Tokens(), js[..], cur;
      TreeIsPreorder(text, ts);
      SizeIsKids(text, ts, i);
      ChildrenWithin(text, ts, i);
      ValueIsChild(text, ts, i, key);
      ghost var cs := Children(ts, i);
      var t := cur;
      var numChildren := tokens[t].size;
      if numChildren == 0 || numChildren % 2 != 0 {
        return Missing(E_FAIL);
      }
      if tokens[t].kind != Object {
        return Missing(E_INVALID_JOBJ);
      }
      ghost var m := 0;
      ghost var k := 0;
      AfterNone(ts, i);
      var state := KEY;
      while numChildren > 0
        invariant 0 <= numChildren && k + numChildren == |cs| && cur <= t < numTokens && t + 1 == AfterChildren(ts, i, k)
        invariant k == if state == KEY then 2 * m else 2 * m + 1
        invariant FirstMatch(text, ts, cs, key, 0) == FirstMatch(text, ts, cs, key, m)
        invariant state != KEY ==> IsKey(ts, cs, m) && (state == FOUND <==> KeyIs(text, ts, cs, m, key))
      {
        numChildren := numChildren - 1;
        AfterIsNext(ts, i, k);
        t := t + 1;
        assert ts[t] == tokens[t] && IsChild(ts, i, t);
        ChildEndsInside(text, ts, i, t);
        if tokens[t].end > tokens[cur].end {
          assert false; // the check of the source never fires on parsed text
        }
        match state {
        case KEY =>
          FirstMatchStep(text, ts, cs, key, m);
          if tokens[t].kind != String {
            return Missing(E_FAIL);
          }
          TokenStreqIs(text, tokens[t], key);
          LeafHasNoKids(text, ts, t);
          if TokenStreq(js[..], tokens[t], key) {
            state := FOUND;
          } else {
            state := SKIP;
          }
        case SKIP =>
          FirstMatchStep(text, ts, cs, key, m);
          if tokens[t].kind == Array || tokens[t].kind == Object {
            t := SkipToLast(tokens, t, numTokens, text);
          } else {
            LeafHasNoKids(text, ts, t);
          }
          state := KEY;
          m := m + 1;
        case FOUND =>
          FirstMatchStep(text, ts, cs, key, m);
          return At(t);
        }
        k := k + 1;
      }
      FirstMatchStep(text, ts, cs, key, m);
      return Missing(E_NOT_FOUND);
    }

    /** json_get_composite_object: limits later searches to the object found. */
    method GetCompositeObject(key: string) returns (code: int)
      requires Valid() && NoNul(key)
      modifies this`cur
      ensures Valid()
      ensures match old(ValueOf(js[..], Tokens(), cur, key))
        case Missing(e) => code == e
        case At(v) => v < numTokens && code == CompositeCode(Tokens(), v)
      ensures if code == SUCCESS then
          old(ValueOf(js[..], Tokens(), cur, key)) == At(cur) && Tokens()[cur].parent == old(cur)
        else cur == old(cur)
    {
      hide WellFormed, Counted, ValueOf;
      var r := GetValue(key);
      if r.Missing? {
        return r.code;
      }
      SizeIsKids(js[..], Tokens(), r.index);
      if tokens[r.index].kind != Object {
        return E_INVALID_TYPE;
      }
      if tokens[r.index].size % 2 != 0 {
        return E_INVALID_JOBJ;
      }
      cur := r.index;
      return SUCCESS;
    }

    /** json_get_array_object. */
    method GetArrayObject(key: string) returns (code: int, numElements: nat)
      requires Valid() && NoNul(key)
      modifies this`cur
      ensures Valid()
      ensures match old(ValueOf(js[..], Tokens(), cur, key))
        case Missing(e) => code == e
        case At(v) => v < numTokens && code == if Tokens()[v].kind != Array then E_INVALID_TYPE else SUCCESS
      ensures if code == SUCCESS then
          && old(ValueOf(js[..], Tokens(), cur, key)) == At(cur) && Tokens()[cur].parent == old(cur)
          && numElements == |Children(Tokens(), cur)|
        else cur == old(cur)
    {
      hide WellFormed, Counted, ValueOf;
      numElements := 0;
      var r := GetValue(key);
      if r.Missing? {
        return r.code, 0;
      }
      if tokens[r.index].kind != Array {
        return E_INVALID_TYPE, 0;
      }
      SizeIsKids(js[..], Tokens(), r.index);
      ChildrenAre(Tokens(), r.index);
      cur := r.index;
      return SUCCESS, tokens[r.index].size;
    }

    /** json_release_composite_object and json_release_array_object: back to the parent, which undoes a get. */
    method Release() returns (code: int)
      requires Valid()
      modifies this`cur
      ensures Valid()
      ensures var p := old(Tokens()[cur].parent);
        if p < 0 then code == E_FAIL && cur == old(cur) else code == SUCCESS && cur == p
    {
      hide Sizes, Spans, Delimited, Counted, Kids;
      TreeIsPreorder(js[..], Tokens());
      assert -1 <= Tokens()[cur].parent < cur;
      if tokens[cur].parent < 0 {
        return E_FAIL;
      }
      cur := tokens[cur].parent;
      return SUCCESS;
    }

    // ---- Arrays ----

    /** json_get_array_index: the element at `index`. */
    method GetArrayIndex(index: nat) returns (r: Lookup)
      requires Valid()
      ensures r ==
        if Tokens()[cur].kind != Array then Missing(E_INVALID_JARRAY)
        else if index >= |Children(Tokens(), cur)| then Missing(E_INVALID_INDEX)
        else At(Children(Tokens(), cur)[index])
    {
      hide Preorder, Sizes, Spans, Delimited, Kids, Children, SubtreeEnd, Counted, AfterChildren;
      ghost var ts, text := Tokens(), js[..];
      TreeIsPreorder(text, ts);
      SizeIsKids(text, ts, cur);
      ChildrenWithin(text, ts, cur);
      if tokens[cur].kind != Array {
        return Missing(E_INVALID_JARRAY);
      }
      if index >= tokens[cur].size {
        return Missing(E_INVALID_INDEX);
      }
      var t := cur;
      AfterNone(ts, cur);
      AfterIsNext(ts, cur, 0);
      t := t + 1;
      var left := index;
      while left > 0
        invariant 0 <= left <= index && cur < t < numTokens
        invariant t == Children(ts, cur)[index - left]
      {
        AfterIsNext(ts, cur, index - left);
        AfterIsNext(ts, cur, index - left + 1);
        left := left - 1;
        assert ts[t] == tokens[t];
        ChildEndsInside(text, ts, cur, t);
        if tokens[t].end > tokens[cur].end {
          assert false; // the check of the source never fires on parsed text
        }
        if tokens[t].kind == Array || tokens[t].kind == Object {
          t := SkipToLast(tokens, t, numTokens, text);
        } else {
          LeafHasNoKids(text, ts, t);
        }
        t := t + 1;
      }
      return At(t);
    }
  }

  lemma AfterNone(tokens: seq<Token>, i: nat)
    requires i < |tokens|
    ensures AfterChildren(tokens, i, 0) == i + 1
  {
  }

  lemma ChildEndsInside(js: string, tokens: seq<Token>, i: nat, c: nat)
    requires WellFormed(js, tokens) && i < |tokens| && IsChild(tokens, i, c)
    ensures 0 <= tokens[c].start <= tokens[c].end < tokens[i].end && tokens[c].end <= |js|
  {
    assert InText(tokens[c], |js|) && Before(tokens[i], tokens[c]);
  }

  lemma LeafHasNoKids(js: string, tokens: seq<Token>, t: nat)
    requires WellFormed(js, tokens) && t < |tokens| && !Container(tokens[t])
    ensures SubtreeEnd(tokens, t) == t + 1
  {
    forall j | 0 <= j < |tokens| ensures tokens[j].parent != t {
      assert j > t ==> Nests(t, tokens[t], tokens[j]);
    }
    NoKids(tokens, t);
    LeafEnd(tokens, t);
  }

  lemma FirstMatchStep(js: string, tokens: seq<Token>, cs: seq<nat>, key: string, m: nat)
    requires Within(js, tokens, cs) && |cs| % 2 == 0
    ensures FirstMatch(js, tokens, cs, key, m) ==
      if 2 * m >= |cs| then Missing(E_NOT_FOUND)
      else if !IsKey(tokens, cs, m) then Missing(E_FAIL)
      else if KeyIs(js, tokens, cs, m, key) then At(cs[2 * m + 1])
      else FirstMatch(js, tokens, cs, key, m + 1)
  {
  }
}
