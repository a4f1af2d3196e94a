/** Trees of linked items, and the values that they stand for. */
module JsonTree {
  import opened Json
  import opened JsonList

  const CJSON_FALSE: nat := 0
  const CJSON_TRUE: nat := 1
  const CJSON_NULL: nat := 2
  const CJSON_NUMBER: nat := 3
  const CJSON_STRING: nat := 4
  const CJSON_ARRAY: nat := 5
  const CJSON_OBJECT: nat := 6

  /** An item, and the trees under the items of its child list. */
  datatype Tree = Tree(item: Item, kids: seq<Tree>)

  function Roots(kids: seq<Tree>): (r: seq<Item>)
    ensures |r| == |kids| && forall i :: 0 <= i < |kids| ==> r[i] == kids[i].item
  {
    if kids == [] then [] else Roots(kids[..|kids| - 1]) + [kids[|kids| - 1].item]
  }

  function Items(t: Tree): set<Item>
    decreases t, 1
  {
    {t.item} + ItemsOf(t.kids)
  }

  function ItemsOf(kids: seq<Tree>): (s: set<Item>)
    ensures forall i :: 0 <= i < |kids| ==> kids[i].item in s
    decreases kids, 0
  {
    if kids == [] then {} else ItemsOf(kids[..|kids| - 1]) + Items(kids[|kids| - 1])
  }

  /** The items of these trees but their roots. */
  function Below(kids: seq<Tree>): (s: set<Item>)
    ensures s <= ItemsOf(kids)
    decreases kids
  {
    if kids == [] then {} else Below(kids[..|kids| - 1]) + ItemsOf(kids[|kids| - 1].kids)
  }

  /** The values of the members of an object. */
  function ValuesOf(members: seq<Member>): (vs: seq<Value>)
    ensures |vs| == |members| && forall i :: 0 <= i < |vs| ==> vs[i] == members[i].value
  {
    seq(|members|, i requires 0 <= i < |members| => members[i].value)
  }

  /** The roots of the trees under an item are its child list, linked both ways, and they stand for its parts. */
  ghost predicate Stands(t: Tree, v: Value)
    reads Items(t)`kind, Items(t)`valueString, Items(t)`valueInt, Items(t)`child, Items(t)`children
    reads ItemsOf(t.kids)`name, ItemsOf(t.kids)`next, ItemsOf(t.kids)`prev
    decreases t, 1
  {
    && t.item !in ItemsOf(t.kids)
    && t.item.children == Roots(t.kids) && t.item.child == First(Roots(t.kids), null)
    && Linked(Roots(t.kids), null, null)
    && match v
       case Null => t.item.kind == CJSON_NULL && t.kids == []
       case False => t.item.kind == CJSON_FALSE && t.kids == []
       case True => t.item.kind == CJSON_TRUE && t.item.valueInt == 1 && t.kids == []
       case Number(n) => t.item.kind == CJSON_NUMBER && t.item.valueInt == n && t.kids == []
       case String(s) => t.item.kind == CJSON_STRING && t.item.valueString == s && t.kids == []
       case Array(items) => t.item.kind == CJSON_ARRAY && AllStand(t.kids, items)
       case Object(members) =>
         && t.item.kind == CJSON_OBJECT && AllStand(t.kids, ValuesOf(members)) && Named(t.kids, members)
  }

  /** The kind of an item by its number. */
  lemma KindNumbers(t: Tree, v: Value)
    requires Stands(t, v)
    ensures t.item.kind == match v
                           case False => 0
                           case True => 1
                           case Null => 2
                           case Number(_) => 3
                           case String(_) => 4
                           case Array(_) => 5
                           case Object(_) => 6
  {
  }

  /** Trees without a common item, one for each value. */
  ghost predicate AllStand(kids: seq<Tree>, vs: seq<Value>)
    reads ItemsOf(kids)`kind, ItemsOf(kids)`valueString, ItemsOf(kids)`valueInt
    reads ItemsOf(kids)`child, ItemsOf(kids)`children
    reads Below(kids)`name, Below(kids)`next, Below(kids)`prev
    decreases kids, 0
  {
    if kids == [] then vs == []
    else
      var front, last := kids[..|kids| - 1], kids[|kids| - 1];
      && |vs| == |kids| && AllStand(front, vs[..|front|]) && Stands(last, vs[|front|])
      && Items(last) !! ItemsOf(front)
  }

  ghost predicate Named(kids: seq<Tree>, members: seq<Member>)
    reads ItemsOf(kids)`name
  {
    if kids == [] then members == []
    else
      var n := |kids| - 1;
      |members| == |kids| && Named(kids[..n], members[..n]) && kids[n].item.name == members[n].name
  }

  /** What the editing methods ask of a list. */
  lemma StandsIsValid(t: Tree, v: Value)
    requires Stands(t, v)
    ensures t.item.Valid() && t.item.children == Roots(t.kids)
  {
  }

  /** A tree stands for one value only. */
  lemma {:induction false} StandsForOne(t: Tree, v: Value, w: Value)
    requires Stands(t, v) && Stands(t, w)
    ensures v == w
    decreases t, 1
  {
    match v
    case Array(items) =>
      AllStandForOne(t.kids, items, w.items);
    case Object(members) =>
      AllStandForOne(t.kids, ValuesOf(members), ValuesOf(w.members));
      NamesAndValues(t.kids, members, w.members);
    case _ =>
  }

  lemma {:induction false} AllStandForOne(kids: seq<Tree>, vs: seq<Value>, ws: seq<Value>)
    requires AllStand(kids, vs) && AllStand(kids, ws)
    ensures vs == ws
    decreases kids, 0
  {
    if kids != [] {
      var n := |kids| - 1;
      AllStandForOne(kids[..n], vs[..n], ws[..n]);
      StandsForOne(kids[n], vs[n], ws[n]);
      assert vs == vs[..n] + [vs[n]] && ws == ws[..n] + [ws[n]];
    }
  }

  lemma {:induction false} NamesAndValues(kids: seq<Tree>, a: seq<Member>, b: seq<Member>)
    requires Named(kids, a) && Named(kids, b) && ValuesOf(a) == ValuesOf(b)
    ensures a == b
    decreases kids
  {
    if kids != [] {
      var n := |kids| - 1;
      assert ValuesOf(a[..n]) == ValuesOf(a)[..n] && ValuesOf(b[..n]) == ValuesOf(b)[..n];
      NamesAndValues(kids[..n], a[..n], b[..n]);
      assert a[n].value == ValuesOf(a)[n] && b[n].value == ValuesOf(b)[n];
      assert a == a[..n] + [a[n]] && b == b[..n] + [b[n]];
    }
  }

  lemma OneMoreTree(kids: seq<Tree>, t: Tree)
    ensures Roots(kids + [t]) == Roots(kids) + [t.item]
    ensures ItemsOf(kids + [t]) == ItemsOf(kids) + Items(t)
    ensures Below(kids + [t]) == Below(kids) + ItemsOf(t.kids)
  {
    assert (kids + [t])[..|kids|] == kids;
  }

  lemma {:induction false} OneMoreStands(kids: seq<Tree>, vs: seq<Value>, t: Tree, v: Value)
    requires AllStand(kids, vs) && Stands(t, v) && Items(t) !! ItemsOf(kids)
    ensures AllStand(kids + [t], vs + [v])
  {
    AsMany(kids, vs);
    assert (kids + [t])[..|kids|] == kids && (vs + [v])[..|vs|] == vs;
  }

  lemma AsMany(kids: seq<Tree>, vs: seq<Value>)
    requires AllStand(kids, vs)
    ensures |kids| == |vs|
  {
  }

  /** The items of a tree exist, so what is new is none of them, and what touches none of them leaves it standing. */
  lemma {:induction false} TreeExists(t: Tree)
    ensures allocated(Items(t)) && ItemsOf(t.kids) <= Items(t)
    decreases t, 1
  {
    ForestExists(t.kids);
  }

  lemma {:induction false} ForestExists(kids: seq<Tree>)
    ensures allocated(ItemsOf(kids)) && Below(kids) <= ItemsOf(kids)
    decreases kids, 0
  {
    if kids != [] {
      ForestExists(kids[..|kids| - 1]);
      TreeExists(kids[|kids| - 1]);
    }
  }

  /** No root of a forest lies under another. */
  lemma {:induction false} RootsAreApart(kids: seq<Tree>, vs: seq<Value>)
    requires AllStand(kids, vs)
    ensures forall i :: 0 <= i < |kids| ==> kids[i].item !in Below(kids)
    decreases kids
  {
    if kids != [] {
      var n := |kids| - 1;
      RootsAreApart(kids[..n], vs[..n]);
      assert forall i :: 0 <= i < n ==> kids[..n][i] == kids[i];
    }
  }

  /** A new item before anything is parsed into it. */
  ghost predicate Blank(item: Item)
    reads item`child, item`children
  {
    item.child == null && item.children == []
  }

  lemma LeafStands(item: Item, v: Value)
    requires Blank(item)
    requires match v
             case Null => item.kind == CJSON_NULL
             case False => item.kind == CJSON_FALSE
             case True => item.kind == CJSON_TRUE && item.valueInt == 1
             case Number(n) => item.kind == CJSON_NUMBER && item.valueInt == n
             case String(s) => item.kind == CJSON_STRING && item.valueString == s
             case Array(items) => item.kind == CJSON_ARRAY && items == []
             case Object(members) => item.kind == CJSON_OBJECT && members == []
    ensures Stands(Tree(item, []), v) && Items(Tree(item, [])) == {item}
  {
    assert Roots([]) == [];
  }

  /** A child list under construction: finished trees, and a new item linked in after them. */
  ghost predicate Growing(list: Item, kids: seq<Tree>, vs: seq<Value>, child: Item)
    reads list`child, child`child, child`children, child`next, child`prev
    reads ItemsOf(kids)`kind, ItemsOf(kids)`valueString, ItemsOf(kids)`valueInt
    reads ItemsOf(kids)`child, ItemsOf(kids)`children, ItemsOf(kids)`next, ItemsOf(kids)`prev
    reads Below(kids)`name
  {
    && AllStand(kids, vs) && child !in ItemsOf(kids) && Blank(child)
    && list.child == First(Roots(kids), child) && Linked(Roots(kids) + [child], null, null)
  }

  /** A child list that is finished. */
  ghost predicate Complete(list: Item, kids: seq<Tree>, vs: seq<Value>)
    reads list`child
    reads ItemsOf(kids)`kind, ItemsOf(kids)`valueString, ItemsOf(kids)`valueInt
    reads ItemsOf(kids)`child, ItemsOf(kids)`children, ItemsOf(kids)`next, ItemsOf(kids)`prev
    reads Below(kids)`name
  {
    AllStand(kids, vs) && list.child == First(Roots(kids), null) && Linked(Roots(kids), null, null)
  }

  lemma ArrayStands(item: Item, kids: seq<Tree>, vs: seq<Value>)
    requires Complete(item, kids, vs) && item !in ItemsOf(kids)
    requires item.kind == CJSON_ARRAY && item.children == Roots(kids)
    ensures Stands(Tree(item, kids), Array(vs))
  {
  }

  lemma ObjectStands(item: Item, kids: seq<Tree>, members: seq<Member>)
    requires Complete(item, kids, ValuesOf(members)) && Named(kids, members) && item !in ItemsOf(kids)
    requires item.kind == CJSON_OBJECT && item.children == Roots(kids)
    ensures Stands(Tree(item, kids), Object(members))
  {
  }

  /** What is built under a new item is apart from the trees before it. */
  lemma Apart(t: Tree, kids: seq<Tree>, others: set<Item>)
    requires t.item !in ItemsOf(kids) && ItemsOf(t.kids) !! others + ItemsOf(kids) + {t.item}
    ensures Items(t) !! ItemsOf(kids) && ItemsOf(t.kids) !! others
  {
  }

  /** A finished tree whose root is linked in after the others of a list. */
  ghost predicate Follows(list: Item, kids: seq<Tree>, vs: seq<Value>, t: Tree, v: Value)
    reads list`child
    reads ItemsOf(kids)`kind, ItemsOf(kids)`valueString, ItemsOf(kids)`valueInt
    reads ItemsOf(kids)`child, ItemsOf(kids)`children, ItemsOf(kids)`next, ItemsOf(kids)`prev
    reads Items(t)`kind, Items(t)`valueString, Items(t)`valueInt, Items(t)`child, Items(t)`children
    reads Items(t)`next, Items(t)`prev, ItemsOf(t.kids)`name, Below(kids)`name
  {
    && AllStand(kids, vs) && Stands(t, v) && Items(t) !! ItemsOf(kids)
    && list.child == First(Roots(kids), t.item) && Linked(Roots(kids) + [t.item], null, null)
  }

  /** The new item at the end has become a tree. */
  lemma {:induction false} Finished(list: Item, kids: seq<Tree>, vs: seq<Value>, t: Tree, v: Value)
    requires Follows(list, kids, vs, t, v)
    ensures Complete(list, kids + [t], vs + [v])
  {
    OneMoreTree(kids, t);
    OneMoreStands(kids, vs, t, v);
  }

  lemma {:induction false} OneMoreMember(kids: seq<Tree>, members: seq<Member>, t: Tree, m: Member)
    requires Named(kids, members) && t.item.name == m.name
    ensures ValuesOf(members + [m]) == ValuesOf(members) + [m.value] && Named(kids + [t], members + [m])
  {
    AsManyNames(kids, members);
    assert (kids + [t])[..|kids|] == kids && (members + [m])[..|members|] == members;
    assert ValuesOf(members + [m]) == ValuesOf(members) + [m.value];
  }

  lemma AsManyNames(kids: seq<Tree>, members: seq<Member>)
    requires Named(kids, members)
    ensures |kids| == |members|
  {
  }

  lemma {:induction false} FinishedMember(list: Item, kids: seq<Tree>, members: seq<Member>, t: Tree, m: Member)
    requires Follows(list, kids, ValuesOf(members), t, m.value)
    requires Named(kids, members) && t.item.name == m.name
    ensures Complete(list, kids + [t], ValuesOf(members + [m])) && Named(kids + [t], members + [m])
  {
    Finished(list, kids, ValuesOf(members), t, m.value);
    OneMoreMember(kids, members, t, m);
  }

  /** The first item of a list. */
  method StartList(list: Item) returns (child: Item)
    modifies list`child
    ensures fresh(child) && Growing(list, [], [], child)
  {
    child := new Item();
    list.child := child;
    assert Roots([]) + [child] == [child];
    assert LinkedAt([child], 0, null, null);
  }

  /** The next item, after the last one, which is finished. */
  method NextInList(list: Item, child: Item, ghost kids: seq<Tree>, ghost vs: seq<Value>) returns (newItem: Item)
    requires kids != [] && child == kids[|kids| - 1].item && Complete(list, kids, vs)
    modifies child`next
    ensures fresh(newItem) && Growing(list, kids, vs, newItem)
  {
    ForestExists(kids);
    newItem := new Item();
    LinkNew(list, child, newItem, kids, vs);
  }

  /** Links a new item after the last one, which is finished now. */
  method LinkNew(list: Item, child: Item, newItem: Item, ghost kids: seq<Tree>, ghost vs: seq<Value>)
    requires kids != [] && child == kids[|kids| - 1].item && newItem != child && newItem !in ItemsOf(kids)
    requires Complete(list, kids, vs) && Blank(newItem) && newItem.next == null
    modifies child`next, newItem`prev
    ensures Growing(list, kids, vs, newItem)
  {
    ghost var items := Roots(kids);
    RootsAreApart(kids, vs);
    forall i, j | 0 <= i < j < |items| ensures items[i] != items[j] {
      ChainIsAcyclic(items, null, i, j);
    }
    child.next := newItem;
    newItem.prev := child;
    forall i | 0 <= i < |items| ensures LinkedAt(items, i, null, newItem) {
      assert old(LinkedAt(items, i, null, null));
    }
    assert LinkedAt([newItem], 0, Last(null, items), null);
    LinkedInTwo(items, [newItem], null, null);
  }
}
