/** The child lists of arrays and objects: items linked both ways and edited in place. */
module JsonList {
  import opened Octets

  class Item {
    var next: Item?
    var prev: Item?
    var child: Item?
    var kind: nat
    var valueString: seq<Byte>
    var valueInt: int
    var name: seq<Byte>
    /** The items of the child list, in order. */
    ghost var children: seq<Item>

    /** A new item: nothing is linked, and every field is zero. */
    constructor ()
      ensures next == null && prev == null && child == null && children == []
      ensures kind == 0 && valueString == [] && valueInt == 0 && name == []
    {
      next, prev, child, children := null, null, null, [];
      kind, valueString, valueInt, name := 0, [], 0, [];
    }

    /** The child list starts at `child`, ends, and `prev` undoes `next` all along it. */
    ghost predicate Valid()
      reads `child, `children, children`next, children`prev
    {
      child == First(children, null) && Linked(children, null, null)
    }
  }

  function First(items: seq<Item>, after: Item?): Item? {
    if items == [] then after else items[0]
  }

  function Last(before: Item?, items: seq<Item>): Item? {
    if items == [] then before else items[|items| - 1]
  }

  ghost predicate LinkedAt(items: seq<Item>, i: nat, before: Item?, after: Item?)
    requires i < |items|
    reads items`next, items`prev
  {
    && items[i].prev == (if i == 0 then before else items[i - 1])
    && items[i].next == (if i == |items| - 1 then after else items[i + 1])
  }

  /** A stretch of a chain, and the items before and after it. */
  ghost predicate Linked(items: seq<Item>, before: Item?, after: Item?)
    reads items`next, items`prev
  {
    forall i :: 0 <= i < |items| ==> LinkedAt(items, i, before, after)
  }

  lemma LinkedInTwo(a: seq<Item>, b: seq<Item>, before: Item?, after: Item?)
    ensures Linked(a + b, before, after) <==> Linked(a, before, First(b, after)) && Linked(b, Last(before, a), after)
  {
    forall i | 0 <= i < |a|
      ensures LinkedAt(a + b, i, before, after) <==> LinkedAt(a, i, before, First(b, after))
    {
    }
    forall i | 0 <= i < |b|
      ensures LinkedAt(a + b, |a| + i, before, after) <==> LinkedAt(b, i, Last(before, a), after)
    {
    }
    if Linked(a, before, First(b, after)) && Linked(b, Last(before, a), after) {
      forall i | 0 <= i < |a + b| ensures LinkedAt(a + b, i, before, after) {
        assert i >= |a| ==> LinkedAt(b, i - |a|, Last(before, a), after);
      }
    }
  }

  /** No item is twice in a chain that ends, so walking it ends. */
  lemma {:induction false} ChainIsAcyclic(items: seq<Item>, before: Item?, i: nat, j: nat)
    requires Linked(items, before, null) && i < j < |items|
    ensures items[i] != items[j]
    decreases |items| - j
  {
    assert LinkedAt(items, i, before, null) && LinkedAt(items, j, before, null);
    if j + 1 < |items| {
      ChainIsAcyclic(items, before, i + 1, j + 1);
    }
  }

  predicate Distinct(items: seq<Item>) {
    forall i, j :: 0 <= i < j < |items| ==> items[i] != items[j]
  }

  lemma ChildrenDistinct(list: Item)
    requires list.Valid()
    ensures Distinct(list.children)
  {
    forall i, j | 0 <= i < j < |list.children| ensures list.children[i] != list.children[j] {
      ChainIsAcyclic(list.children, null, i, j);
    }
  }

  // ----- the edits, on sequences

  /** Positions before the first item are the first one. */
  function Position(which: int): nat {
    if which < 0 then 0 else which
  }

  function Inserted<T>(s: seq<T>, which: int, x: T): seq<T> {
    if Position(which) >= |s| then s + [x] else s[..Position(which)] + ([x] + s[Position(which)..])
  }

  function Replaced<T>(s: seq<T>, which: int, x: T): seq<T> {
    if Position(which) >= |s| then s else s[Position(which) := x]
  }

  function Removed<T>(s: seq<T>, which: int): seq<T> {
    if Position(which) >= |s| then s else s[..Position(which)] + s[Position(which) + 1..]
  }

  /** Positions count from zero: the front stays, the item comes, goes or changes there, and the rest moves. */
  lemma PlacesChanged<T>(s: seq<T>, which: int, x: T)
    requires 0 <= which < |s|
    ensures var front, rest := s[..which], s[which + 1..];
      && s == front + ([s[which]] + rest)
      && Inserted(s, which, x) == front + ([x] + ([s[which]] + rest))
      && Removed(s, which) == front + rest
      && Replaced(s, which, x) == front + ([x] + rest)
  {
  }

  /** A position before the first item is the first, and past the last one there is none. */
  lemma PlacesOutside<T>(s: seq<T>, which: int, x: T)
    ensures which < 0 && s != [] ==>
      && Inserted(s, which, x) == [x] + s && Removed(s, which) == s[1..] && Replaced(s, which, x) == [x] + s[1..]
    ensures which >= |s| ==>
      Inserted(s, which, x) == s + [x] && Removed(s, which) == Replaced(s, which, x) == s
  {
  }

  /** Detaching undoes inserting, unless the position was past the end. */
  lemma InsertThenDetach<T>(s: seq<T>, which: int, x: T)
    ensures Removed(Inserted(s, which, x), which) == s <==> Position(which) <= |s|
  {
    if Position(which) > |s| {
      assert |Inserted(s, which, x)| == |s| + 1;
    }
  }

  lemma ReplaceIsDetachThenInsert<T>(s: seq<T>, which: int, x: T)
    requires Position(which) < |s|
    ensures Replaced(s, which, x) == Inserted(Removed(s, which), which, x)
  {
    var k := Position(which);
    var a, b := s[..k], s[k + 1..];
    ReplacedInParts(s, k, x, a, b);
    assert (a + b)[..k] == a && (a + b)[k..] == b;
    assert b == [] ==> a + ([x] + b) == (a + b) + [x];
  }

  lemma ReplacedInParts<T>(s: seq<T>, k: nat, x: T, a: seq<T>, b: seq<T>)
    requires k < |s| && a == s[..k] && b == s[k + 1..]
    ensures s[k := x] == a + ([x] + b)
  {
  }

  // ----- the edits, on chains

  /** The item at a position, or null past the end. */
  method Walk(list: Item, which: int) returns (c: Item?)
    requires list.Valid()
    ensures c == if Position(which) < |list.children| then list.children[Position(which)] else null
  {
    ghost var items := list.children;
    c := list.child;
    var left := which;
    ghost var i: nat := 0;
    while c != null && left > 0
      invariant i <= |items| && c == (if i < |items| then items[i] else null)
      invariant left == which - i && (i > 0 ==> left >= 0)
      decreases |items| - i
    {
      assert LinkedAt(items, i, null, null);
      c := c.next;
      left := left - 1;
      i := i + 1;
    }
  }

  /** An item that is the end of one stretch only. */
  predicate OnlyAtEnd(x: Item, items: seq<Item>) {
    items != [] && x == items[|items| - 1] && x !in items[..|items| - 1]
  }

  predicate OnlyAtStart(x: Item, items: seq<Item>) {
    items != [] && x == items[0] && x !in items[1..]
  }

  /** Writes the `next` of the last item of a stretch. */
  method LinkAfter(last: Item, after: Item?, ghost items: seq<Item>, ghost before: Item?, ghost was: Item?)
    requires Linked(items, before, was) && OnlyAtEnd(last, items)
    modifies last`next
    ensures Linked(items, before, after)
  {
    last.next := after;
    forall i | 0 <= i < |items| ensures LinkedAt(items, i, before, after) {
      assert old(LinkedAt(items, i, before, was));
      assert i < |items| - 1 ==> items[i] in items[..|items| - 1];
    }
  }

  /** Writes the `prev` of the first item of a stretch. */
  method LinkBefore(first: Item, before: Item?, ghost items: seq<Item>, ghost was: Item?, ghost after: Item?)
    requires Linked(items, was, after) && OnlyAtStart(first, items)
    modifies first`prev
    ensures Linked(items, before, after)
  {
    first.prev := before;
    forall i | 0 <= i < |items| ensures LinkedAt(items, i, before, after) {
      assert old(LinkedAt(items, i, was, after));
      assert i > 0 ==> items[i] == items[1..][i - 1];
    }
  }

  method AddItemToArray(list: Item, item: Item)
    requires list.Valid() && item !in list.children
    requires item.next == null && (list.children == [] ==> item.prev == null)
    modifies list`child, list`children, item`prev, list.children`next
    ensures list.Valid() && list.children == old(list.children) + [item]
  {
    ghost var items := list.children;
    CutAt(list, |items|, items, []);
    var c := list.child;
    if c == null {
      list.child := item;
    } else {
      ghost var i: nat := 0;
      while c.next != null
        invariant i < |items| && c == items[i]
        decreases |items| - i
      {
        assert LinkedAt(items, i, null, null);
        c := c.next;
        i := i + 1;
      }
      assert LinkedAt(items, i, null, null);
      LinkAfter(c, item, items, null, null);
      item.prev := c;
    }
    assert LinkedAt([item], 0, Last(null, items), null);
    LinkedInTwo(items, [item], null, null);
    list.children := items + [item];
  }

  /** A list cut in two. */
  lemma CutAt(list: Item, k: nat, a: seq<Item>, b: seq<Item>)
    requires list.Valid() && k <= |list.children| && a == list.children[..k] && b == list.children[k..]
    ensures list.children == a + b && Linked(a, null, First(b, null)) && Linked(b, Last(null, a), null)
    ensures a != [] ==> OnlyAtEnd(a[|a| - 1], a) && a[|a| - 1] !in b
    ensures b != [] ==> OnlyAtStart(b[0], b) && b[0] !in a && b[0].prev == Last(null, a)
  {
    ChildrenDistinct(list);
    assert list.children == a + b;
    LinkedInTwo(a, b, null, null);
    assert b != [] ==> LinkedAt(b, 0, Last(null, a), null);
  }

  /** The stretches on both sides of one item of a chain. */
  ghost predicate Between(a: seq<Item>, c: Item, b: seq<Item>)
    reads a`next, a`prev, c`next, c`prev, b`next, b`prev
  {
    && c !in a && c !in b && c.prev == Last(null, a) && c.next == First(b, null)
    && Linked(a, null, c) && Linked(b, c, null)
    && (a != [] ==> OnlyAtEnd(a[|a| - 1], a) && a[|a| - 1] !in b)
    && (b != [] ==> OnlyAtStart(b[0], b) && b[0] !in a)
  }

  /** The items around one item of a list. */
  lemma Around(list: Item, k: nat, a: seq<Item>, b: seq<Item>)
    requires list.Valid() && k < |list.children| && a == list.children[..k] && b == list.children[k + 1..]
    ensures Between(a, list.children[k], b) && list.child == First(a, list.children[k])
  {
    var items := list.children;
    ChildrenDistinct(list);
    assert items == a + ([items[k]] + b);
    LinkedInTwo(a, [items[k]] + b, null, null);
    LinkedInTwo([items[k]], b, Last(null, a), null);
    assert LinkedAt(items, k, null, null);
  }

  /** An item between two stretches that lead to it. */
  lemma Joined(a: seq<Item>, x: Item, b: seq<Item>)
    requires Linked(a, null, x) && x.prev == Last(null, a) && x.next == First(b, null) && Linked(b, x, null)
    ensures Linked(a + ([x] + b), null, null)
  {
    assert LinkedAt([x], 0, Last(null, a), First(b, null));
    LinkedInTwo([x], b, Last(null, a), null);
    LinkedInTwo(a, [x] + b, null, null);
  }

  /** Links the neighbours of an item to each other. */
  method Unlink(list: Item, c: Item, ghost a: seq<Item>, ghost b: seq<Item>)
    requires Between(a, c, b) && list.child == First(a, c)
    modifies list`child, c`next, c`prev, a`next, b`prev
    ensures Linked(a + b, null, null) && list.child == First(a + b, null) && c.next == null && c.prev == null
  {
    if c.prev != null {
      LinkAfter(c.prev, c.next, a, null, c);
    }
    if c.next != null {
      LinkBefore(c.next, c.prev, b, c, null);
    }
    if c == list.child {
      list.child := c.next;
    }
    c.prev, c.next := null, null;
    LinkedInTwo(a, b, null, null);
  }

  method DetachItemFromArray(list: Item, which: int) returns (c: Item?)
    requires list.Valid()
    modifies list`child, list`children, list.children`next, list.children`prev
    ensures list.Valid() && list.children == Removed(old(list.children), which)
    ensures Position(which) >= |old(list.children)| ==> c == null
    ensures Position(which) < |old(list.children)| ==>
      c == old(list.children)[Position(which)] && c !in list.children && c.next == null && c.prev == null
  {
    c := Walk(list, which);
    if c != null {
      ghost var k := Position(which);
      ghost var a, b := list.children[..k], list.children[k + 1..];
      Around(list, k, a, b);
      Unlink(list, c, a, b);
      list.children := a + b;
    }
  }

  /** Links an item in before another one, or appends it when there is none at that position. */
  method InsertItemInArray(list: Item, which: int, newitem: Item)
    requires list.Valid() && newitem !in list.children
    requires Position(which) >= |list.children| ==>
      newitem.next == null && (list.children == [] ==> newitem.prev == null)
    modifies list`child, list`children, newitem`next, newitem`prev, list.children`next, list.children`prev
    ensures list.Valid() && list.children == Inserted(old(list.children), which, newitem)
  {
    var c := Walk(list, which);
    if c == null {
      AddItemToArray(list, newitem);
      return;
    }
    ghost var k := Position(which);
    ghost var a, b := list.children[..k], list.children[k..];
    CutAt(list, k, a, b);
    LinkIn(list, c, newitem, a, b);
    list.children := a + ([newitem] + b);
  }

  method LinkIn(list: Item, c: Item, newitem: Item, ghost a: seq<Item>, ghost b: seq<Item>)
    requires Linked(a, null, c) && Linked(b, Last(null, a), null) && c.prev == Last(null, a)
    requires OnlyAtStart(c, b) && c !in a && (a != [] ==> OnlyAtEnd(a[|a| - 1], a) && a[|a| - 1] !in b)
    requires list.child == First(a, c) && newitem !in a && newitem !in b
    modifies list`child, newitem`next, newitem`prev, a`next, c`prev
    ensures Linked(a + ([newitem] + b), null, null) && list.child == First(a, newitem)
  {
    newitem.next := c;
    newitem.prev := c.prev;
    LinkBefore(c, newitem, b, Last(null, a), null);
    if c == list.child {
      list.child := newitem;
    } else {
      LinkAfter(newitem.prev, newitem, a, null, c);
    }
    Joined(a, newitem, b);
  }

  /** Links the neighbours of an item to another one in its place. */
  method Substitute(list: Item, c: Item, newitem: Item, ghost a: seq<Item>, ghost b: seq<Item>)
    requires Between(a, c, b) && list.child == First(a, c) && newitem !in a && newitem !in b && newitem != c
    modifies list`child, c`next, c`prev, newitem`next, newitem`prev, a`next, b`prev
    ensures Linked(a + ([newitem] + b), null, null) && list.child == First(a, newitem)
    ensures c.next == null && c.prev == null
  {
    newitem.next := c.next;
    newitem.prev := c.prev;
    if newitem.next != null {
      LinkBefore(newitem.next, newitem, b, c, null);
    }
    if c == list.child {
      list.child := newitem;
    } else {
      LinkAfter(newitem.prev, newitem, a, null, c);
    }
    c.next, c.prev := null, null;
    Joined(a, newitem, b);
  }

  method ReplaceItemInArray(list: Item, which: int, newitem: Item)
    requires list.Valid() && newitem !in list.children
    modifies list`child, list`children, newitem`next, newitem`prev, list.children`next, list.children`prev
    ensures list.Valid() && list.children == Replaced(old(list.children), which, newitem)
    ensures Position(which) < |old(list.children)| ==>
      var c := old(list.children)[Position(which)]; c !in list.children && c.next == null && c.prev == null
  {
    var c := Walk(list, which);
    if c != null {
      ghost var k := Position(which);
      ghost var a, b := list.children[..k], list.children[k + 1..];
      Around(list, k, a, b);
      Substitute(list, c, newitem, a, b);
      ReplacedInParts(list.children, k, newitem, a, b);
      list.children := a + ([newitem] + b);
    }
  }
}
