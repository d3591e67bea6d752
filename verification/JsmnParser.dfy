/** The tokeniser itself: a parser that fills an array of tokens in place, finding open containers by parent links. */
module JsmnParser {
  import opened Jsmn
  import opened JsmnText
  import opened JsmnForest

  class Parser {
    var pos: nat
    var toknext: nat
    var toksuper: int
    /** The stack of open containers, which the parent links replace. */
    ghost var open: seq<nat>

    ghost function State(tokens: array<Token>): Forest
      requires toknext <= tokens.Length
      reads this, tokens
    {
      Forest(tokens[..toknext], open)
    }

    ghost predicate Valid(js: string, tokens: array<Token>)
      reads this, tokens
    {
      toknext <= tokens.Length && Invariant(js, State(tokens), pos) && toksuper == Super(State(tokens))
    }

    /** jsmn_init. */
    constructor ()
      ensures pos == 0 && toknext == 0 && toksuper == -1 && open == []
      ensures forall js: string, tokens: array<Token> :: Valid(js, tokens)
    {
      pos, toknext, toksuper := 0, 0, -1;
      open := [];
      new;
      forall js: string {
        StartHolds(js);
      }
      assert forall tokens: array<Token> :: State(tokens) == Forest([], []);
    }

    method AllocToken(tokens: array<Token>) returns (ok: bool)
      modifies this`toknext, tokens
      ensures ok <==> old(toknext) < tokens.Length
      ensures toknext == old(toknext) + if ok then 1 else 0
      ensures !ok ==> tokens[..] == old(tokens[..])
      ensures ok ==>
        tokens[..] == old(tokens[..])[old(toknext) := Token(old(tokens[toknext]).kind, 0, -1, -1, -1)]
    {
      if toknext >= tokens.Length {
        return false;
      }
      tokens[toknext] := tokens[toknext].(start := -1, end := -1, size := 0, parent := -1);
      toknext := toknext + 1;
      return true;
    }

    /** The next token filled with a leaf under the current container, or NOMEM with the position restored. */
    method AllocLeaf(tokens: array<Token>, kind: Kind, start: nat, restore: nat) returns (r: int)
      modifies this`toknext, this`pos, tokens
      ensures r == if old(toknext) < tokens.Length then 0 else NOMEM
      ensures r != 0 ==> tokens[..] == old(tokens[..]) && toknext == old(toknext) && pos == restore
      ensures r == 0 ==>
        && toknext == old(toknext) + 1 && pos == old(pos)
        && tokens[..] == old(tokens[..])[old(toknext) := Token(kind, 0, start, pos, toksuper)]
    {
      var i := toknext;
      var ok := AllocToken(tokens);
      if !ok {
        pos := restore;
        return NOMEM;
      }
      tokens[i] := tokens[i].(kind := kind, start := start, end := pos, size := 0);
      tokens[i] := tokens[i].(parent := toksuper);
      return 0;
    }

    /** On success the position is left on the primitive's last character. */
    method ParsePrimitive(js: array<char>, len: nat, tokens: array<Token>) returns (r: int)
      requires Terminated(js[..], len) && pos < len && StartsPrimitive(js[pos])
      modifies this`toknext, this`pos, tokens
      ensures match PrimitiveScan(js[..], len, old(pos))
        case Bad => r == INVAL && Untouched(tokens, old(tokens[..]), old(pos), old(toknext))
        case Unfinished => r == PART && Untouched(tokens, old(tokens[..]), old(pos), old(toknext))
        case Found(q) =>
          if old(toknext) >= tokens.Length then r == NOMEM && Untouched(tokens, old(tokens[..]), old(pos), old(toknext))
          else
            && r == 0 && q > 0 && pos == q - 1
            && Filled(tokens, old(tokens[..]), old(toknext), Token(Primitive, 0, old(pos), q, toksuper))
    {
      var start := pos;
      ScanBounds(js[..], len, start);
      var found := false;
      while pos < len && js[pos] != '\0'
        invariant start <= pos <= len && tokens[..] == old(tokens[..]) && toknext == old(toknext) && !found
        invariant PrimitiveScan(js[..], len, pos) == PrimitiveScan(js[..], len, start)
      {
        if EndsPrimitive(js[pos]) {
          found := true;
          break;
        }
        if !Printable(js[pos]) {
          pos := start;
          return INVAL;
        }
        pos := pos + 1;
      }
      if !found {
        pos := start;
        return PART;
      }
      r := AllocLeaf(tokens, Primitive, start, start);
      if r == 0 {
        pos := pos - 1;
      }
    }

    ghost predicate Untouched(tokens: array<Token>, was: seq<Token>, wasPos: nat, wasNext: nat)
      reads this, tokens
    {
      tokens[..] == was && pos == wasPos && toknext == wasNext
    }

    ghost predicate Filled(tokens: array<Token>, was: seq<Token>, wasNext: nat, t: Token)
      reads this, tokens
    {
      wasNext < |was| && toknext == wasNext + 1 && tokens[..] == was[wasNext := t]
    }

    /** On success the position is left on the closing quote. */
    method ParseString(js: array<char>, len: nat, tokens: array<Token>) returns (r: int)
      requires Terminated(js[..], len) && pos < len
      modifies this`toknext, this`pos, tokens
      ensures match StringScan(js[..], len, old(pos) + 1)
        case Bad => r == INVAL && Untouched(tokens, old(tokens[..]), old(pos), old(toknext))
        case Unfinished => r == PART && Untouched(tokens, old(tokens[..]), old(pos), old(toknext))
        case Found(q) =>
          if old(toknext) >= tokens.Length then r == NOMEM && Untouched(tokens, old(tokens[..]), old(pos), old(toknext))
          else
            && r == 0 && pos == q
            && Filled(tokens, old(tokens[..]), old(toknext), Token(String, 0, old(pos) + 1, q, toksuper))
    {
      var start := pos;
      pos := pos + 1;
      while pos < len && js[pos] != '\0'
        invariant start < pos < js.Length && toknext == old(toknext) && tokens[..] == old(tokens[..])
        invariant StringScan(js[..], len, pos) == StringScan(js[..], len, start + 1)
        decreases js.Length - pos
      {
        var c := js[pos];
        if c == '\"' {
          r := AllocLeaf(tokens, String, start + 1, start);
          return;
        }
        if c == '\\' {
          var ok := SkipEscape(js, len);
          if !ok {
            pos := start;
            return INVAL;
          }
        }
        pos := pos + 1;
      }
      pos := start;
      return PART;
    }

    /** From the backslash to the last character of its escape. */
    method SkipEscape(js: array<char>, ghost len: nat) returns (ok: bool)
      requires Terminated(js[..], len) && pos < len && js[pos] == '\\'
      modifies this`pos
      ensures ok ==> old(pos) < pos && pos + 1 < js.Length
      ensures ok ==> StringScan(js[..], len, pos + 1) == StringScan(js[..], len, old(pos))
      ensures !ok ==> StringScan(js[..], len, old(pos)) == Bad
    {
      pos := pos + 1;
      if js[pos] == 'u' {
        pos := pos + 1;
        ok := SkipHex(js);
        if !ok {
          return;
        }
        pos := pos - 1;
      } else {
        ok := SimpleEscape(js[pos]);
      }
    }

    /** The loop over the digits of a \u escape. */
    method SkipHex(js: array<char>) returns (ok: bool)
      requires 0 < js.Length && js[js.Length - 1] == '\0' && pos < js.Length
      modifies this`pos
      ensures ok ==> HexScan(js[..], old(pos), 4) == Found(pos)
      ensures !ok ==> HexScan(js[..], old(pos), 4) == Bad
    {
      var i := 0;
      while i < 4 && js[pos] != '\0'
        invariant 0 <= i <= 4 && pos < js.Length
        invariant HexScan(js[..], pos, 4 - i) == HexScan(js[..], old(pos), 4)
      {
        if !HexDigit(js[pos]) {
          return false;
        }
        pos := pos + 1;
        i := i + 1;
      }
      ok := true;
    }
  
    // ---- The main loop ----

    /** One more child for the current container. */
    method CountChild(tokens: array<Token>)
      requires -1 <= toksuper < tokens.Length
      modifies tokens
      ensures tokens[..] == Bump(old(tokens[..]), toksuper)
    {
      if toksuper != -1 {
        tokens[toksuper] := tokens[toksuper].(size := (tokens[toksuper].size + 1) % 256);
      }
    }
  
    method OpenContainer(tokens: array<Token>, c: char) returns (r: int)
      requires toknext <= tokens.Length && Stacked(State(tokens)) && toksuper == Super(State(tokens))
      requires c == '{' || c == '['
      modifies this`toknext, this`toksuper, this`open, tokens
      ensures toknext <= tokens.Length
      ensures r == if old(toknext) < tokens.Length then 0 else NOMEM
      ensures r != 0 ==> State(tokens) == old(State(tokens)) && toksuper == old(toksuper)
      ensures r == 0 ==>
        && toknext == old(toknext) + 1
        && State(tokens) == OpenAt(old(State(tokens)), Bracket(c), pos) && toksuper == Super(State(tokens))
    {
      ghost var f := State(tokens);
      SuperBound(f);
      var i := toknext;
      var ok := AllocToken(tokens);
      if !ok {
        return NOMEM;
      }
      CountChild(tokens);
      if toksuper != -1 {
        tokens[i] := tokens[i].(parent := toksuper);
      }
      tokens[i] := tokens[i].(kind := if c == '{' then Object else Array, start := pos);
      toksuper := toknext - 1;
      open := open + [i];
      assert tokens[..i] == Bump(f.tokens, Super(f));
      assert tokens[i] == Token(Bracket(c), 0, pos, -1, Super(f));
      assert tokens[..toknext] == tokens[..i] + [tokens[i]];
      return 0;
    }

    /** Walks from the last token up the parent links to the innermost open container. */
    method CloseContainer(tokens: array<Token>, c: char, ghost js: string) returns (r: int)
      requires Valid(js, tokens) && (c == '}' || c == ']')
      modifies this`toksuper, this`open, tokens
      ensures toknext <= tokens.Length && Stacked(old(State(tokens)))
      ensures r == if Closes(old(State(tokens)), Bracket(c)) then 0 else INVAL
      ensures State(tokens) == if r == 0 then CloseAt(old(State(tokens)), pos) else old(State(tokens))
      ensures toksuper == Super(State(tokens))
    {
      hide Sizes, Delimited, Kids;
      ghost var f := State(tokens);
      var kind := if c == '}' then Object else Array;
      if toknext < 1 {
        return INVAL;
      }
      SuperBound(f);
      TopIsOpen(f);
      assert f.tokens == tokens[..toknext] && AboveTop(f);
      var t := toknext - 1;
      while true
        invariant 0 <= t < toknext && Super(f) <= t && State(tokens) == f && toksuper == Super(f)
        decreases t
      {
        assert f.tokens[t] == tokens[t] && InText(f.tokens[t], pos);
        if t > Super(f) {
          AboveTopClosed(f, t);
        }
        if tokens[t].start != -1 && tokens[t].end == -1 {
          if tokens[t].kind != kind {
            return INVAL;
          }
          tokens[t] := tokens[t].(end := pos + 1);
          SuperAfterClose(f, pos);
          toksuper := tokens[t].parent;
          open := open[..|open| - 1];
          assert tokens[..toknext] == f.tokens[t := f.tokens[t].(end := pos + 1)];
          return 0;
        }
        if tokens[t].parent == -1 {
          break;
        }
        t := tokens[t].parent;
      }
      return 0;
    }
  
    /** A leaf just allocated, counted under the current container. */
    method CountLeaf(tokens: array<Token>, ghost f: Forest, ghost t: Token)
      requires Stacked(f) && f.open == open && toknext == |f.tokens| + 1 <= tokens.Length
      requires toksuper == Super(f) && t.parent == Super(f) && t.size == 0 && !IsOpen(t)
      requires tokens[..|f.tokens|] == f.tokens && tokens[|f.tokens|] == t
      modifies tokens
      ensures State(tokens) == LeafAt(f, t.kind, t.start, t.end) && toksuper == Super(State(tokens))
    {
      SuperBound(f);
      CountChild(tokens);
      ghost var n := |f.tokens|;
      assert tokens[..n] == Bump(f.tokens, Super(f));
      assert tokens[n] == Token(t.kind, 0, t.start, t.end, Super(f));
      assert tokens[..toknext] == tokens[..n] + [tokens[n]];
    }

    /** One character of the main loop; on success the position is that of the lexeme's last character. */
    method Lexeme(js: array<char>, len: nat, tokens: array<Token>) returns (r: int, found: nat)
      requires Terminated(js[..], len) && Valid(js[..], tokens) && pos < len && js[pos] != '\0'
      modifies this, tokens
      ensures toknext <= tokens.Length && Stacked(old(State(tokens))) && Stacked(State(tokens))
      ensures toksuper == Super(State(tokens))
      ensures match Advance(js[..], len, tokens.Length, old(State(tokens)), old(pos))
        case Stopped(e) => r == e && State(tokens) == old(State(tokens)) && pos == old(pos)
        case Going(g, next) => r == 0 && State(tokens) == g && next == pos + 1 && found == toknext - old(toknext)
    {
      hide Invariant, StringScan, PrimitiveScan, StringBody, PrimitiveBody;
      ghost var f := State(tokens);
      InvariantStacked(js[..], f, pos);
      SuperBound(f);
      AdvanceProgress(js[..], len, tokens.Length, f, pos);
      var c := js[pos];
      found := 0;
      if c == '{' || c == '[' {
        found := 1;
        r := OpenContainer(tokens, c);
      } else if c == '}' || c == ']' {
        r := CloseContainer(tokens, c, js[..]);
      } else if c == '\"' {
        r := ParseString(js, len, tokens);
        if r >= 0 {
          found := 1;
          CountLeaf(tokens, f, tokens[|f.tokens|]);
        }
      } else if Separator(c) {
        r := 0;
      } else if StartsPrimitive(c) {
        r := ParsePrimitive(js, len, tokens);
        if r >= 0 {
          found := 1;
          CountLeaf(tokens, f, tokens[|f.tokens|]);
        }
      } else {
        r := INVAL;
      }
    }
  
    /** Whether some token is still open. */
    method AnyOpen(tokens: array<Token>, ghost js: string) returns (b: bool)
      requires Valid(js, tokens)
      ensures b <==> open != []
    {
      ghost var f := State(tokens);
      assert f.tokens == tokens[..toknext];
      assert open != [] ==> open[0] in f.open && IsOpen(f.tokens[open[0]]);
      var i := toknext - 1;
      while i >= 0
        invariant -1 <= i < toknext && forall k | i < k < toknext :: !IsOpen(f.tokens[k])
      {
        assert InText(f.tokens[i], pos) && tokens[i] == f.tokens[i];
        if tokens[i].start != -1 && tokens[i].end == -1 {
          return true;
        }
        i := i - 1;
      }
      return false;
    }

    /**
     Runs to the end of the text or to an error. The result is the number of tokens added, unless a container
     is still open; then all tokens form a well-formed forest.
     */
    method Parse(js: array<char>, len: nat, tokens: array<Token>) returns (r: int)
      requires Terminated(js[..], len) && Valid(js[..], tokens) && pos <= len
      modifies this, tokens
      ensures Stacked(old(State(tokens))) && Valid(js[..], tokens)
      ensures var h := Run(js[..], len, tokens.Length, old(State(tokens)), old(pos));
        && State(tokens) == h.forest && pos == h.pos
        && r == (if h.error != 0 then h.error else if h.forest.open != [] then PART
                 else |h.forest.tokens| - old(toknext))
        && (r < 0 <==> h.error != 0 || h.forest.open != [])
      ensures r >= 0 ==> WellFormed(js[..], tokens[..toknext]) && toknext <= pos
    {
      hide Invariant, Advance, WellFormed, Super;
      ghost var f, p0 := State(tokens), pos;
      InvariantStacked(js[..], f, pos);
      RunKeepsInvariant(js[..], len, tokens.Length, f, pos);
      var count := 0;
      while pos < len && js[pos] != '\0'
        invariant pos <= len && toknext <= tokens.Length && toksuper == Super(State(tokens))
        invariant Invariant(js[..], State(tokens), pos) && Stacked(State(tokens))
        invariant Run(js[..], len, tokens.Length, f, p0) == Run(js[..], len, tokens.Length, State(tokens), pos)
        invariant count == toknext - |f.tokens|
        decreases len - pos
      {
        AdvanceKeepsInvariant(js[..], len, tokens.Length, State(tokens), pos);
        AdvanceProgress(js[..], len, tokens.Length, State(tokens), pos);
        var found;
        r, found := Lexeme(js, len, tokens);
        if r < 0 {
          return;
        }
        count := count + found;
        pos := pos + 1;
      }
      var unclosed := AnyOpen(tokens, js[..]);
      if unclosed {
        return PART;
      }
      FinishedIsWellFormed(js[..], State(tokens), pos);
      return count;
    }
  }
}
