/** How the reader of cJSON.c goes on at a place of a text. */
module CjsonSteps {
  import opened Cjson
  import opened CjsonParse

  lemma Parts(s: string, i: nat, a: string, b: string)
    requires StartsWith(s, i, a + b)
    ensures StartsWith(s, i, a) && StartsWith(s, i + |a|, b)
  {
    var t := s[i..i + |a + b|];
    assert t[..|a|] == a && t[|a|..] == b;
    assert s[i..i + |a|] == t[..|a|] && s[i + |a|..i + |a| + |b|] == t[|a|..];
  }

  lemma First(s: string, i: nat, a: string)
    requires StartsWith(s, i, a) && a != ""
    ensures i < |s| && CharAt(s, i) == s[i] == a[0]
  {
    assert s[i] == s[i..i + |a|][0];
  }

  lemma Second(s: string, i: nat, a: string, k: nat)
    requires StartsWith(s, i, a) && k < |a|
    ensures i + k < |s| && CharAt(s, i + k) == a[k]
  {
    assert s[i + k] == s[i..i + |a|][k];
  }

  lemma Regroup(a: string, b: string, c: string)
    ensures a + b + c == a + (b + c) && |a + b| == |a| + |b|
  {
  }

  predicate Blank(w: string) {
    forall k | 0 <= k < |w| :: '\0' < w[k] && w[k] as int <= 32
  }

  lemma {:induction false} SkipBlank(s: string, i: nat, w: string)
    requires Blank(w) && StartsWith(s, i, w) && CharAt(s, i + |w|) as int > 32
    ensures Skip(s, i) == i + |w|
    decreases |w|
  {
    if w != "" {
      First(s, i, w);
      assert w == w[..1] + w[1..];
      Parts(s, i, w[..1], w[1..]);
      SkipBlank(s, i + 1, w[1..]);
    }
  }

  lemma NoBlank(s: string, i: nat)
    requires CharAt(s, i) as int > 32
    ensures Skip(s, i) == i
  {
  }

  lemma {:induction false} SkipTwice(s: string, i: nat)
    ensures Skip(s, Skip(s, i)) == Skip(s, i)
    decreases |s| - i
  {
    if i < |s| && s[i] != '\0' && s[i] as int <= 32 {
      SkipTwice(s, i + 1);
    }
  }

  predicate AllDigits(t: string) {
    forall k | 0 <= k < |t| :: IsDigit(t[k])
  }

  /** The number `n` continued by the digits of `t`. */
  function Continued(n: nat, t: string): nat
    requires AllDigits(t)
  {
    if t == "" then n else Continued(n, t[..|t| - 1]) * 10 + (t[|t| - 1] as int - '0' as int)
  }

  lemma {:induction false} ContinuedFront(n: nat, t: string)
    requires AllDigits(t) && t != ""
    ensures Continued(n, t) == Continued(n * 10 + (t[0] as int - '0' as int), t[1..])
  {
    if |t| > 1 {
      ContinuedFront(n, t[..|t| - 1]);
      assert t[..|t| - 1][1..] == t[1..][..|t| - 2];
    }
  }

  lemma {:induction false} DigitsRead(s: string, i: nat, n: nat, t: string)
    requires AllDigits(t) && StartsWith(s, i, t) && !IsDigit(CharAt(s, i + |t|))
    ensures DigitsAt(s, i, n) == (Continued(n, t), i + |t|)
    decreases |t|
  {
    if t != "" {
      First(s, i, t);
      assert t == t[..1] + t[1..];
      Parts(s, i, t[..1], t[1..]);
      ContinuedFront(n, t);
      DigitsRead(s, i + 1, n * 10 + (t[0] as int - '0' as int), t[1..]);
    }
  }

  /** A character after which a number cannot go on. */
  predicate EndsNumber(c: char) {
    !IsDigit(c) && c != '.' && c != 'e' && c != 'E'
  }

  lemma EmptyBody(s: string, p: nat)
    requires CharAt(s, p) == '\"'
    ensures BodyAt(s, p) == ("", p)
  {
  }

  /** What starts a printed value. */
  predicate StartsValue(c: char) {
    c == 'n' || c == 'f' || c == 't' || c == '\"' || c == '-' || IsDigit(c) || c == '[' || c == '{'
  }

  lemma StartsNoBracket(c: char)
    requires StartsValue(c)
    ensures c != ']'
  {
  }

  lemma Words(s: string, i: nat)
    ensures StartsWith(s, i, "false") ==> !StartsWith(s, i, "null")
    ensures StartsWith(s, i, "true") ==> !StartsWith(s, i, "null") && !StartsWith(s, i, "false")
  {
    if StartsWith(s, i, "false") {
      First(s, i, "false");
    }
    if StartsWith(s, i, "true") {
      First(s, i, "true");
    }
    if StartsWith(s, i, "null") {
      First(s, i, "null");
    }
  }

  lemma NotWord(s: string, i: nat)
    requires var c := CharAt(s, i); c != 'n' && c != 'f' && c != 't'
    ensures !StartsWith(s, i, "null") && !StartsWith(s, i, "false") && !StartsWith(s, i, "true")
  {
    if StartsWith(s, i, "null") {
      First(s, i, "null");
    }
    if StartsWith(s, i, "false") {
      First(s, i, "false");
    }
    if StartsWith(s, i, "true") {
      First(s, i, "true");
    }
  }

  lemma ItemsAtIs(s: string, i: nat)
    ensures ItemsAt(s, i) ==
      match ValueAt(s, Skip(s, i))
      case Malformed => Malformed
      case Read(v, k) =>
        if CharAt(s, Skip(s, k)) == ',' then
          (match ItemsAt(s, Skip(s, k) + 1) case Malformed => Malformed case Read(c, e) => Read(Link("", v, c), e))
        else if CharAt(s, Skip(s, k)) == ']' then Read(Link("", v, Nil), Skip(s, k) + 1)
        else Malformed
  {
  }

  lemma ItemsAtSkipped(s: string, i: nat, j: nat)
    requires Skip(s, i) == Skip(s, j)
    ensures ItemsAt(s, i) == ItemsAt(s, j)
  {
    hide *;
    ItemsAtIs(s, i);
    ItemsAtIs(s, j);
  }

  lemma MembersAtIs(s: string, i: nat)
    ensures MembersAt(s, i) ==
      match StringAt(s, Skip(s, i))
      case Malformed => Malformed
      case Read(name, k) =>
        if CharAt(s, Skip(s, k)) != ':' then Malformed
        else
          match ValueAt(s, Skip(s, Skip(s, k) + 1))
          case Malformed => Malformed
          case Read(v, m) =>
            if CharAt(s, Skip(s, m)) == ',' then
              (match MembersAt(s, Skip(s, m) + 1) case Malformed => Malformed case Read(c, f) => Read(Link(name, v, c), f))
            else if CharAt(s, Skip(s, m)) == '}' then Read(Link(name, v, Nil), Skip(s, m) + 1)
            else Malformed
  {
  }

  lemma MembersAtSkipped(s: string, i: nat, j: nat)
    requires Skip(s, i) == Skip(s, j)
    ensures MembersAt(s, i) == MembersAt(s, j)
  {
    hide *;
    MembersAtIs(s, i);
    MembersAtIs(s, j);
  }

  lemma ArrayAt(s: string, i: nat)
    requires CharAt(s, i) == '['
    ensures var j := Skip(s, i + 1);
      ValueAt(s, i) == if CharAt(s, j) == ']' then Read(Array(Nil), j + 1)
                       else match ItemsAt(s, j) case Malformed => Malformed case Read(c, k) => Read(Array(c), k)
  {
    hide ItemsAt, Skip;
    NotWord(s, i);
  }

  lemma ObjectAt(s: string, i: nat)
    requires CharAt(s, i) == '{'
    ensures var j := Skip(s, i + 1);
      ValueAt(s, i) == if CharAt(s, j) == '}' then Read(Object(Nil), j + 1)
                       else match MembersAt(s, j) case Malformed => Malformed case Read(c, k) => Read(Object(c), k)
  {
    hide MembersAt, Skip;
    NotWord(s, i);
  }
}
