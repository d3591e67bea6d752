/** The tree that a preorder forest of tokens stands for: subtrees are intervals, children follow one another. */
module JsmnTree {
  import opened Jsmn
  import opened JsmnForest

  /** Token `j` is `i` or a descendant of `i`. */
  predicate IsBelow(tokens: seq<Token>, i: nat, j: nat)
    requires i < |tokens| && j < |tokens| && Preorder(tokens)
    decreases j
  {
    j == i || (j > i && tokens[j].parent >= 0 && IsBelow(tokens, i, tokens[j].parent))
  }

  function EndFrom(tokens: seq<Token>, i: nat, j: nat): (e: nat)
    requires i < j <= |tokens|
    ensures j <= e <= |tokens|
    decreases |tokens| - j
  {
    if j == |tokens| || tokens[j].parent < i then j else EndFrom(tokens, i, j + 1)
  }

  /** The index after the last descendant of `i`. */
  function SubtreeEnd(tokens: seq<Token>, i: nat): (e: nat)
    requires i < |tokens|
    ensures i < e <= |tokens|
  {
    EndFrom(tokens, i, i + 1)
  }

  lemma {:induction false} EndFromIs(tokens: seq<Token>, i: nat, j: nat)
    requires i < j <= |tokens|
    ensures var e := EndFrom(tokens, i, j);
      && (forall k | j <= k < e :: tokens[k].parent >= i)
      && (e < |tokens| ==> tokens[e].parent < i)
    decreases |tokens| - j
  {
    if j < |tokens| && tokens[j].parent >= i {
      EndFromIs(tokens, i, j + 1);
    }
  }

  lemma SubtreeEndIs(tokens: seq<Token>, i: nat)
    requires i < |tokens|
    ensures var e := SubtreeEnd(tokens, i);
      && (forall k | i < k < e :: tokens[k].parent >= i)
      && (e < |tokens| ==> tokens[e].parent < i)
  {
    EndFromIs(tokens, i, i + 1);
  }

  /** In preorder the descendants of a token are an interval. */
  lemma {:induction false} SubtreeIsInterval(tokens: seq<Token>, i: nat, j: nat)
    requires Preorder(tokens) && i < |tokens| && j < |tokens|
    ensures IsBelow(tokens, i, j) <==> i <= j < SubtreeEnd(tokens, i)
    decreases j
  {
    SubtreeEndIs(tokens, i);
    var e := SubtreeEnd(tokens, i);
    if i < j {
      var p := tokens[j].parent;
      if p >= 0 {
        SubtreeIsInterval(tokens, i, p);
      }
      if e < j {
        assert Nests(e, tokens[e], tokens[j]);
      }
    }
  }

  // ---- Children ----

  /** The children of `i` in order (its members one after the other). */
  function Children(tokens: seq<Token>, i: int): seq<nat> {
    if tokens == [] then []
    else Children(tokens[..|tokens| - 1], i) + (if tokens[|tokens| - 1].parent == i then [|tokens| - 1] else [])
  }

  predicate IsChild(tokens: seq<Token>, i: int, c: int) {
    0 <= c < |tokens| && tokens[c].parent == i
  }

  lemma {:induction false} ChildrenAre(tokens: seq<Token>, i: int)
    ensures var cs := Children(tokens, i);
      && |cs| == Kids(tokens, i)
      && (forall c :: c in cs <==> IsChild(tokens, i, c))
      && (forall k, l | 0 <= k < l < |cs| :: cs[k] < cs[l])
  {
    if tokens != [] {
      var n := |tokens| - 1;
      var init := tokens[..n];
      ChildrenAre(init, i);
      var cs := Children(init, i);
      assert forall k | 0 <= k < |cs| :: cs[k] in cs && IsChild(init, i, cs[k]);
      assert Children(tokens, i) == cs + (if tokens[n].parent == i then [n] else []);
      assert Kids(tokens, i) == Kids(init, i) + (if tokens[n].parent == i then 1 else 0);
      hide Children, Kids;
      forall c ensures c in cs + (if tokens[n].parent == i then [n] else []) <==> IsChild(tokens, i, c) {
        assert c in cs <==> IsChild(init, i, c);
        assert IsChild(init, i, c) <==> IsChild(tokens, i, c) && c < n;
      }
    }
  }

  /** Of the children, `c` is the one after position k - 1 when no child lies between. */
  lemma NextInOrder(tokens: seq<Token>, i: int, k: nat, c: nat)
    requires k < Kids(tokens, i) && IsChild(tokens, i, c)
    requires |Children(tokens, i)| == Kids(tokens, i)
    requires k > 0 ==> Children(tokens, i)[k - 1] < c
    requires forall b | IsChild(tokens, i, b) && b < c :: k > 0 && b <= Children(tokens, i)[k - 1]
    ensures Children(tokens, i)[k] == c
  {
    ChildrenAre(tokens, i);
    var cs := Children(tokens, i);
    hide Children, Kids;
    var l :| 0 <= l < |cs| && cs[l] == c;
    assert cs[k] in cs && IsChild(tokens, i, cs[k]);
  }

  /** The first child comes right after its parent. */
  lemma FirstChild(tokens: seq<Token>, i: nat)
    requires Preorder(tokens) && i < |tokens| && Kids(tokens, i) > 0
    ensures |Children(tokens, i)| == Kids(tokens, i) && Children(tokens, i)[0] == i + 1
  {
    ChildrenAre(tokens, i);
    var c := Children(tokens, i)[0];
    hide Children, Kids;
    assert IsChild(tokens, i, c);
    if i + 1 < c {
      assert Nests(i + 1, tokens[i + 1], tokens[c]);
    }
    forall b | IsChild(tokens, i, b) && b < i + 1 ensures false {
    }
    NextInOrder(tokens, i, 0, i + 1);
  }

  /** After a child's subtree comes the next child, or, after the last, the end of the parent's subtree. */
  lemma NextChild(tokens: seq<Token>, i: nat, k: nat)
    requires Preorder(tokens) && i < |tokens| && k < Kids(tokens, i)
    ensures |Children(tokens, i)| == Kids(tokens, i) && IsChild(tokens, i, Children(tokens, i)[k])
    ensures var e := SubtreeEnd(tokens, Children(tokens, i)[k]);
      e == if k + 1 < Kids(tokens, i) then Children(tokens, i)[k + 1] else SubtreeEnd(tokens, i)
  {
    ChildrenAre(tokens, i);
    var cs := Children(tokens, i);
    var c := cs[k];
    assert c in cs;
    SubtreeEndIs(tokens, c);
    SubtreeEndIs(tokens, i);
    var e := SubtreeEnd(tokens, c);
    hide Children, Kids, SubtreeEnd, Preorder;
    if k + 1 < |cs| {
      var d := cs[k + 1];
      assert d in cs;
      AfterSubtree(tokens, i, c, d, e);
      NextInOrder(tokens, i, k + 1, e);
    } else {
      LastChild(tokens, i, c, e, SubtreeEnd(tokens, i));
    }
  }

  /** Right after the subtree of child `c` comes a child, when there is a later one. */
  lemma AfterSubtree(tokens: seq<Token>, i: nat, c: nat, d: nat, e: nat)
    requires Preorder(tokens) && i < |tokens| && IsChild(tokens, i, c) && IsChild(tokens, i, d) && c < d
    requires c < e <= |tokens|
    requires (forall k | c < k < e :: tokens[k].parent >= c) && (e < |tokens| ==> tokens[e].parent < c)
    ensures IsChild(tokens, i, e) && forall b | IsChild(tokens, i, b) && b < e :: b <= c
  {
    assert tokens[d].parent == i < c;
    if e < d {
      assert Nests(e, tokens[e], tokens[d]);
    }
    assert Nests(c, tokens[c], tokens[e]);
  }

  lemma LastChild(tokens: seq<Token>, i: nat, c: nat, e: nat, f: nat)
    requires Preorder(tokens) && i < c < e <= |tokens| && i < f <= |tokens| && IsChild(tokens, i, c)
    requires forall b | IsChild(tokens, i, b) :: b <= c
    requires (forall k | c < k < e :: tokens[k].parent >= c) && (e < |tokens| ==> tokens[e].parent < c)
    requires (forall k | i < k < f :: tokens[k].parent >= i) && (f < |tokens| ==> tokens[f].parent < i)
    ensures e == f
  {
    if e < f {
      assert Nests(c, tokens[c], tokens[e]);
      assert IsChild(tokens, i, e);
    } else if f < c {
      assert Nests(f, tokens[f], tokens[c]);
    }
  }

  lemma LeafEnd(tokens: seq<Token>, i: nat)
    requires Preorder(tokens) && i < |tokens| && Kids(tokens, i) == 0
    ensures SubtreeEnd(tokens, i) == i + 1
  {
    ChildrenAre(tokens, i);
    if i + 1 < |tokens| && tokens[i + 1].parent >= i {
      assert IsChild(tokens, i, i + 1);
    }
  }
}
