/** The child lists of cJSON nodes: doubly linked through next and prev, headed by the parent's child pointer. */
module CjsonList {

  /** The links of a node; its type, value and name play no part in the list operations. */
  class Node {
    var next: Node?
    var prev: Node?
    var child: Node?

    constructor ()
      ensures next == null && prev == null && child == null
    {
      next, prev, child := null, null, null;
    }
  }

  function At(items: seq<Node>, i: int): Node? {
    if 0 <= i < |items| then items[i] else null
  }

  predicate Linked(items: seq<Node>, i: nat)
    requires i < |items|
    reads items[i]
  {
    items[i].next == At(items, i + 1) && items[i].prev == At(items, i - 1)
  }

  /** The children of `parent` are exactly these nodes, in this order. */
  ghost predicate Children(parent: Node, items: seq<Node>)
    reads parent, items
  {
    && parent.child == At(items, 0) && parent !in items
    && (forall i, j | 0 <= i < j < |items| :: items[i] != items[j])
    && (forall i: nat | i < |items| :: Linked(items, i))
  }

  function Without(items: seq<Node>, k: nat): (r: seq<Node>)
    requires k < |items|
    ensures |r| == |items| - 1
  {
    items[..k] + items[k + 1..]
  }

  /** Where the list functions go for an index: a negative one counts as 0. */
  function Index(which: int): nat {
    if which < 0 then 0 else which
  }

  /** cJSON_GetArraySize. */
  method GetArraySize(parent: Node, ghost items: seq<Node>) returns (n: nat)
    requires Children(parent, items)
    ensures n == |items|
  {
    var c := parent.child;
    n := 0;
    while c != null
      invariant n <= |items| && c == At(items, n)
      decreases |items| - n
    {
      assert Linked(items, n);
      c := c.next;
      n := n + 1;
    }
  }

  /** cJSON_GetArrayItem. */
  method GetArrayItem(parent: Node, item: int, ghost items: seq<Node>) returns (c: Node?)
    requires Children(parent, items)
    ensures c == At(items, Index(item))
  {
    c := parent.child;
    var left := item;
    ghost var k := 0;
    while c != null && left > 0
      invariant 0 <= k && c == At(items, k) && (if item <= 0 then left == item && k == 0 else k + left == item && left >= 0)
      decreases left
    {
      assert Linked(items, k);
      c := c.next;
      left := left - 1;
      k := k + 1;
    }
    if c == null {
      assert k >= |items|;
    }
  }

  /** cJSON_AddItemToArray: the new node becomes the last child. */
  method AddItemToArray(parent: Node, item: Node?, ghost items: seq<Node>)
    requires Children(parent, items)
    requires item != null ==> item !in items && item != parent && item.next == null && item.prev == null
    modifies parent, items, item
    ensures Children(parent, if item == null then items else items + [item])
    ensures item != null ==> item.child == old(item.child)
    ensures forall i: nat | i < |items| :: items[i].child == old(items[i].child)
  {
    if item == null {
      return;
    }
    var c := parent.child;
    if c == null {
      parent.child := item;
    } else {
      ghost var k := 0;
      assert Linked(items, 0);
      while c.next != null
        invariant 0 <= k < |items| && c == items[k]
        invariant Children(parent, items)
        decreases |items| - k
      {
        assert Linked(items, k);
        c := c.next;
        k := k + 1;
      }
      assert Linked(items, k);
      // suffix_object
      c.next := item;
      item.prev := c;
    }
    ghost var more := items + [item];
    forall i: nat | i < |more| ensures Linked(more, i) {
      assert i < |items| ==> old(Linked(items, i));
    }
  }

  /** cJSON_DetachItemFromArray: the node at the index leaves the list, and its links are cleared. */
  method DetachItemFromArray(parent: Node, which: int, ghost items: seq<Node>) returns (c: Node?)
    requires Children(parent, items)
    modifies parent, items
    ensures c == At(items, Index(which))
    ensures Children(parent, if c == null then items else Without(items, Index(which)))
    ensures c != null ==> c.next == null && c.prev == null
    ensures forall i: nat | i < |items| :: items[i].child == old(items[i].child)
  {
    c := GetArrayItem(parent, which, items);
    if c == null {
      return;
    }
    ghost var k := Index(which);
    assert Linked(items, k);
    if c.prev != null {
      c.prev.next := c.next;
    }
    if c.next != null {
      c.next.prev := c.prev;
    }
    if c == parent.child {
      parent.child := c.next;
    }
    c.prev, c.next := null, null;
    ghost var r := Without(items, k);
    forall i: nat | i < |r| ensures Linked(r, i) {
      ghost var j := if i < k then i else i + 1;
      assert r[i] == items[j] && old(Linked(items, j));
    }
    WithoutIs(items, k);
  }

  lemma WithoutIs(items: seq<Node>, k: nat)
    requires k < |items| && forall i, j | 0 <= i < j < |items| :: items[i] != items[j]
    ensures var r := Without(items, k);
      && (forall i, j | 0 <= i < j < |r| :: r[i] != r[j])
      && (forall x | x in r :: x in items)
      && At(r, 0) == At(items, if k == 0 then 1 else 0)
  {
    var r := Without(items, k);
    forall i, j | 0 <= i < j < |r| ensures r[i] != r[j] {
      assert r[i] == items[if i < k then i else i + 1] && r[j] == items[if j < k then j else j + 1];
    }
  }

  /** cJSON_ReplaceItemInArray: the new node takes the old one's place; the old one is given up. */
  method ReplaceItemInArray(parent: Node, which: int, newitem: Node, ghost items: seq<Node>)
    requires Children(parent, items) && newitem !in items && newitem != parent
    modifies parent, items, newitem
    ensures Children(parent, if Index(which) < |items| then items[Index(which) := newitem] else items)
    ensures newitem.child == old(newitem.child)
  {
    var c := GetArrayItem(parent, which, items);
    if c == null {
      return;
    }
    ghost var k := Index(which);
    assert Linked(items, k);
    newitem.next := c.next;
    newitem.prev := c.prev;
    if newitem.next != null {
      newitem.next.prev := newitem;
    }
    if c == parent.child {
      parent.child := newitem;
    } else {
      newitem.prev.next := newitem;
    }
    c.next, c.prev := null, null;
    ghost var r := items[k := newitem];
    forall i: nat | i < |r| ensures Linked(r, i) {
      assert old(Linked(items, i));
    }
  }

  // ---- Lists keep their nodes ----

  /** Appending a node and detaching the last one gives the list back. */
  lemma DetachUndoesAdd(items: seq<Node>, item: Node)
    ensures At(items + [item], |items|) == item && Without(items + [item], |items|) == items
  {
  }

  /** Detaching keeps every other node, once. */
  lemma WithoutKeeps(items: seq<Node>, k: nat)
    requires k < |items|
    ensures multiset(Without(items, k)) == multiset(items) - multiset{items[k]}
  {
    assert items == items[..k] + [items[k]] + items[k + 1..];
  }
}
