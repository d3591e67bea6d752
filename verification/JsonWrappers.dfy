/** Lookups by key and by index in the flat token array of json_wrappers.c. */
module JsonWrappers {
  import opened Jsmn
  import opened JsmnText
  import opened JsmnForest
  import opened JsmnTree
  import opened CStrings

  const SUCCESS := 0
  const E_FAIL := -1001
  const E_NOMEM := -1002
  const E_INVAL := -1003
  const E_INCOMPLETE := -1004
  const E_INVALID_JOBJ := -1005
  const E_NOT_FOUND := -1006
  const E_INVALID_TYPE := -1007
  const E_INVALID_INDEX := -1008
  const E_INVALID_JARRAY := -1009

  /** No token has more children than its 8-bit size can count. */
  predicate Counted(tokens: seq<Token>) {
    forall i | 0 <= i < |tokens| :: Kids(tokens, i) < 256
  }

  predicate Tree(js: string, tokens: seq<Token>) {
    WellFormed(js, tokens) && Counted(tokens)
  }

  lemma SizeIsKids(js: string, tokens: seq<Token>, i: nat)
    requires Tree(js, tokens) && i < |tokens|
    ensures tokens[i].size == Kids(tokens, i)
  {
  }

  // ---- skip_to_last ----

  /** The last descendant of `e`, or `e` itself. */
  method SkipToLast(tokens: array<Token>, e: nat, n: nat, ghost js: string) returns (t: nat)
    requires e < n <= tokens.Length && Tree(js, tokens[..n])
    ensures t + 1 == SubtreeEnd(tokens[..n], e) && t < n
    ensures forall j: nat | j < n :: IsBelow(tokens[..n], e, j) <==> e <= j <= t
    decreases n - e
  {
    hide WellFormed, Tree, Sizes, Spans, Counted, Kids, Children, SubtreeEnd, IsBelow, Delimited, Preorder;
    ghost var ts := tokens[..n];
    TreeIsPreorder(js, ts);
    forall j: nat | j < n ensures IsBelow(ts, e, j) <==> e <= j < SubtreeEnd(ts, e) {
      SubtreeIsInterval(ts, e, j);
    }
    SizeIsKids(js, ts, e);
    t := e;
    if tokens[t].size == 0 {
      LeafEnd(ts, e);
      return;
    }
    var cnt := tokens[t].size;
    while cnt > 0
      invariant 0 <= cnt <= ts[e].size && e <= t < n
      invariant t + 1 == AfterChildren(ts, e, ts[e].size - cnt)
      invariant cnt == 0 ==> t + 1 == SubtreeEnd(ts, e)
    {
      cnt := cnt - 1;
      ghost var k := ts[e].size - cnt - 1;
      AfterIsNext(ts, e, k);
      t := t + 1;
      SizeIsKids(js, ts, t);
      if tokens[t].size != 0 {
        t := SkipToLast(tokens, t, n, js);
      } else {
        LeafEnd(ts, t);
      }
    }
  }

  lemma TreeIsPreorder(js: string, tokens: seq<Token>)
    requires Tree(js, tokens)
    ensures Preorder(tokens)
  {
  }

  /** The index after the first `k` children of `i` and their descendants. */
  function AfterChildren(tokens: seq<Token>, i: nat, k: nat): nat
    requires i < |tokens|
  {
    if k == 0 then i + 1
    else if k <= |Children(tokens, i)| && Children(tokens, i)[k - 1] < |tokens| then
      SubtreeEnd(tokens, Children(tokens, i)[k - 1])
    else 0
  }

  lemma AfterIsNext(tokens: seq<Token>, i: nat, k: nat)
    requires Preorder(tokens) && i < |tokens| && k < Kids(tokens, i)
    ensures k < |Children(tokens, i)| == Kids(tokens, i) && i < Children(tokens, i)[k] < |tokens|
    ensures IsChild(tokens, i, Children(tokens, i)[k])
    ensures AfterChildren(tokens, i, k) == Children(tokens, i)[k]
    ensures AfterChildren(tokens, i, k + 1) == SubtreeEnd(tokens, Children(tokens, i)[k])
    ensures k + 1 == Kids(tokens, i) ==> AfterChildren(tokens, i, k + 1) == SubtreeEnd(tokens, i)
  {
    hide SubtreeEnd, Kids, Children;
    FirstChild(tokens, i);
    NextChild(tokens, i, k);
    if k > 0 {
      NextChild(tokens, i, k - 1);
    }
  }

  // ---- Keys ----

  /** strncmp(a + i, s + j, n) == 0, for a NUL-terminated `s`. */
  predicate StrncmpEqual(a: string, i: nat, s: string, j: nat, n: nat)
    decreases n
  {
    n == 0 ||
    (i < |a| &&
     var c := if j < |s| then s[j] else '\0';
     a[i] == c && (c == '\0' || StrncmpEqual(a, i + 1, s, j + 1, n - 1)))
  }

  /** json_token_streq. */
  predicate TokenStreq(js: string, t: Token, s: string)
    requires 0 <= t.start <= t.end
  {
    StrncmpEqual(js, t.start, s, 0, t.end - t.start) && |s| == t.end - t.start
  }

  lemma {:induction false} StrncmpIs(a: string, i: nat, s: string, j: nat)
    requires NoNul(s) && j <= |s| && i + (|s| - j) <= |a|
    ensures StrncmpEqual(a, i, s, j, |s| - j) <==> a[i..i + (|s| - j)] == s[j..]
    decreases |s| - j
  {
    if j < |s| {
      StrncmpIs(a, i + 1, s, j + 1);
      var n := |s| - j;
      assert a[i..i + n] == [a[i]] + a[i + 1..i + n];
      assert s[j..] == [s[j]] + s[j + 1..];
      assert a[i + 1..i + n] == a[i..i + n][1..] && s[j + 1..] == s[j..][1..];
    }
  }

  /** The comparison holds exactly when the token's text is the key. */
  lemma TokenStreqIs(js: string, t: Token, s: string)
    requires 0 <= t.start <= t.end <= |js| && NoNul(s)
    ensures TokenStreq(js, t, s) <==> js[t.start..t.end] == s
  {
    if |s| == t.end - t.start {
      StrncmpIs(js, t.start, s, 0);
    }
  }

  // ---- Lookup in the tree ----

  datatype Lookup = At(index: nat) | Missing(code: int)

  predicate Within(js: string, tokens: seq<Token>, cs: seq<nat>) {
    forall k | 0 <= k < |cs| :: cs[k] < |tokens| && 0 <= tokens[cs[k]].start <= tokens[cs[k]].end <= |js|
  }

  /** Child 2m of an object, a key, is a string. */
  predicate IsKey(tokens: seq<Token>, cs: seq<nat>, m: nat)
    requires 2 * m < |cs| && cs[2 * m] < |tokens|
  {
    tokens[cs[2 * m]].kind == String
  }

  /** Its text is `key`. */
  predicate KeyIs(js: string, tokens: seq<Token>, cs: seq<nat>, m: nat, key: string)
    requires 2 * m < |cs| && Within(js, tokens, cs)
  {
    IsKey(tokens, cs, m) && js[tokens[cs[2 * m]].start..tokens[cs[2 * m]].end] == key
  }

  /** The first member from m on whose key is not a string or is `key`. */
  function FirstMatch(js: string, tokens: seq<Token>, cs: seq<nat>, key: string, m: nat): Lookup
    requires Within(js, tokens, cs) && |cs| % 2 == 0
    decreases |cs| - 2 * m
  {
    if 2 * m >= |cs| then Missing(E_NOT_FOUND)
    else if !IsKey(tokens, cs, m) then Missing(E_FAIL)
    else if KeyIs(js, tokens, cs, m, key) then At(cs[2 * m + 1])
    else FirstMatch(js, tokens, cs, key, m + 1)
  }

  lemma ChildrenWithin(js: string, tokens: seq<Token>, i: int)
    requires WellFormed(js, tokens)
    ensures Within(js, tokens, Children(tokens, i)) && |Children(tokens, i)| == Kids(tokens, i)
  {
    ChildrenAre(tokens, i);
    var cs := Children(tokens, i);
    forall k | 0 <= k < |cs| ensures cs[k] < |tokens| && 0 <= tokens[cs[k]].start <= tokens[cs[k]].end <= |js| {
      assert cs[k] in cs && IsChild(tokens, i, cs[k]);
      assert InText(tokens[cs[k]], |js|);
    }
  }

  /** The value of `key` among the members of token `i`. */
  function ValueOf(js: string, tokens: seq<Token>, i: nat, key: string): Lookup
    requires WellFormed(js, tokens) && i < |tokens|
  {
    ChildrenWithin(js, tokens, i);
    var n := Kids(tokens, i);
    if n == 0 || n % 2 != 0 then Missing(E_FAIL)
    else if tokens[i].kind != Object then Missing(E_INVALID_JOBJ)
    else FirstMatch(js, tokens, Children(tokens, i), key, 0)
  }

  lemma {:induction false} FirstMatchIs(js: string, tokens: seq<Token>, cs: seq<nat>, key: string, m: nat, l: nat)
    requires Within(js, tokens, cs) && |cs| % 2 == 0 && m <= l <= |cs| / 2
    requires forall k: nat | m <= k < l :: IsKey(tokens, cs, k) && !KeyIs(js, tokens, cs, k, key)
    ensures FirstMatch(js, tokens, cs, key, m) == FirstMatch(js, tokens, cs, key, l)
    decreases l - m
  {
    if m < l {
      FirstMatchIs(js, tokens, cs, key, m + 1, l);
    }
  }

  /** All members before m have keys that are strings other than `key`. */
  ghost predicate Reached(js: string, tokens: seq<Token>, cs: seq<nat>, key: string, m: nat)
    requires Within(js, tokens, cs) && |cs| % 2 == 0
  {
    2 * m <= |cs| && forall k: nat | k < m :: IsKey(tokens, cs, k) && !KeyIs(js, tokens, cs, k, key)
  }

  /**
   `r` is the value of the first member with the key; it is FAIL when a member whose key is not a string comes first,
   and NOT_FOUND when neither is there.
   */
  ghost predicate IsFirstValue(js: string, tokens: seq<Token>, cs: seq<nat>, key: string, r: Lookup)
    requires Within(js, tokens, cs) && |cs| % 2 == 0
  {
    && (r == Missing(E_NOT_FOUND) <==> Reached(js, tokens, cs, key, |cs| / 2))
    && (forall m: nat | 2 * m < |cs| && Reached(js, tokens, cs, key, m) ::
          && (KeyIs(js, tokens, cs, m, key) ==> r == At(cs[2 * m + 1]))
          && (!IsKey(tokens, cs, m) ==> r == Missing(E_FAIL)))
  }

  /**
   In an object the lookup gives the value of the first member with that key unless a key that is not a string comes
   before it, and it gives NOT_FOUND exactly when there is neither.
   */
  lemma ValueOfMeaning(js: string, tokens: seq<Token>, i: nat, key: string)
    requires WellFormed(js, tokens) && i < |tokens| && tokens[i].kind == Object
    requires Kids(tokens, i) > 0 && Kids(tokens, i) % 2 == 0
    ensures Within(js, tokens, Children(tokens, i)) && |Children(tokens, i)| == Kids(tokens, i)
    ensures IsFirstValue(js, tokens, Children(tokens, i), key, ValueOf(js, tokens, i, key))
  {
    hide WellFormed, Children, Kids, Within, IsFirstValue, FirstMatch;
    ChildrenWithin(js, tokens, i);
    FirstMatchMeaning(js, tokens, Children(tokens, i), key);
  }

  lemma FirstMatchMeaning(js: string, tokens: seq<Token>, cs: seq<nat>, key: string)
    requires Within(js, tokens, cs) && |cs| % 2 == 0
    ensures IsFirstValue(js, tokens, cs, key, FirstMatch(js, tokens, cs, key, 0))
  {
    var r := FirstMatch(js, tokens, cs, key, 0);
    forall m: nat | 2 * m < |cs| && Reached(js, tokens, cs, key, m)
      ensures KeyIs(js, tokens, cs, m, key) ==> r == At(cs[2 * m + 1])
      ensures !IsKey(tokens, cs, m) ==> r == Missing(E_FAIL)
    {
      FirstMatchIs(js, tokens, cs, key, 0, m);
    }
    NotFoundIs(js, tokens, cs, key, 0);
    assert forall k: nat :: k < |cs| / 2 <==> 0 <= k && 2 * k < |cs|;
  }

  lemma {:induction false} NotFoundIs(js: string, tokens: seq<Token>, cs: seq<nat>, key: string, m: nat)
    requires Within(js, tokens, cs) && |cs| % 2 == 0
    ensures FirstMatch(js, tokens, cs, key, m) == Missing(E_NOT_FOUND)
       <==> forall k: nat | m <= k && 2 * k < |cs| :: IsKey(tokens, cs, k) && !KeyIs(js, tokens, cs, k, key)
    decreases |cs| - 2 * m
  {
    hide IsKey, KeyIs;
    if 2 * m < |cs| {
      NotFoundIs(js, tokens, cs, key, m + 1);
    }
  }

  /** What is found is a child of the object, so releasing it leads back. */
  lemma {:induction false} FoundIsChild(js: string, tokens: seq<Token>, cs: seq<nat>, i: int, key: string, m: nat)
    requires Within(js, tokens, cs) && |cs| % 2 == 0 && forall k | 0 <= k < |cs| :: IsChild(tokens, i, cs[k])
    ensures var r := FirstMatch(js, tokens, cs, key, m); if r.At? then IsChild(tokens, i, r.index) else r.code < 0
    decreases |cs| - 2 * m
  {
    if 2 * m < |cs| && IsKey(tokens, cs, m) && !KeyIs(js, tokens, cs, m, key) {
      FoundIsChild(js, tokens, cs, i, key, m + 1);
    }
  }

  lemma ValueIsChild(js: string, tokens: seq<Token>, i: nat, key: string)
    requires WellFormed(js, tokens) && i < |tokens|
    ensures var r := ValueOf(js, tokens, i, key); if r.At? then r.index < |tokens| && tokens[r.index].parent == i else r.code < 0
  {
    ChildrenWithin(js, tokens, i);
    ChildrenAre(tokens, i);
    if Kids(tokens, i) % 2 == 0 {
      assert forall k | 0 <= k < |Children(tokens, i)| :: Children(tokens, i)[k] in Children(tokens, i);
      FoundIsChild(js, tokens, Children(tokens, i), i, key, 0);
    }
  }
}
