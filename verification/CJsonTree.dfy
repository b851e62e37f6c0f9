/** Trees of linked items, and the values that they stand for. */
module CJsonTree {
  import opened ModArith
  import opened CJson
  import opened CJsonList

  /** The items of a tree, by position: an item, and the shapes of its children in order. */
  datatype Shape = Shape(item: Item, kids: seq<Shape>)

  function Roots(kids: seq<Shape>): (s: seq<Item>)
    ensures |s| == |kids|
  {
    seq(|kids|, i requires 0 <= i < |kids| => kids[i].item)
  }

  /** All items of a tree but its root. */
  ghost function Inner(sh: Shape): set<Item>
    decreases sh, 0
  {
    set k, x | 0 <= k < |sh.kids| && x in All(sh.kids[k]) :: x
  }

  ghost function All(sh: Shape): set<Item>
    decreases sh, 1
  {
    {sh.item} + Inner(sh)
  }

  ghost function Inners(kids: seq<Shape>): set<Item> {
    set k, x | 0 <= k < |kids| && x in Inner(kids[k]) :: x
  }

  /** No item is shared. */
  ghost predicate Apart(kids: seq<Shape>) {
    && (forall i, j :: 0 <= i < j < |kids| ==> All(kids[i]) !! All(kids[j]))
    && (forall i :: 0 <= i < |kids| ==> kids[i].item !in Inner(kids[i]))
  }

  ghost predicate Leaf(sh: Shape, kind: Kind)
    reads sh.item`child, sh.item`content
  {
    sh.kids == [] && sh.item.child == null && sh.item.content.kind == kind
  }

  lemma KidsInside(sh: Shape)
    ensures Items(Roots(sh.kids)) <= Inner(sh)
    ensures forall k :: 0 <= k < |sh.kids| ==> All(sh.kids[k]) <= Inner(sh)
  {
    forall x | x in Items(Roots(sh.kids))
      ensures x in Inner(sh)
    {
      var k :| 0 <= k < |sh.kids| && Roots(sh.kids)[k] == x;
      assert x in All(sh.kids[k]);
    }
  }

  /** The items carry the names of the members. */
  ghost predicate NamesAre(kids: seq<Shape>, members: seq<Member>)
    reads Items(Roots(kids))`content
  {
    |kids| == |members| && forall k :: 0 <= k < |members| ==> Roots(kids)[k].content.name == members[k].name
  }

  ghost predicate Named(sh: Shape, members: seq<Member>)
    reads sh.item`child, sh.item`content
    reads Inner(sh)`next, Inner(sh)`prev, Inner(sh)`child, Inner(sh)`content
  {
    KidsInside(sh);
    NamesAre(sh.kids, members)
  }

  /** The item has these children, linked in order and sharing nothing. */
  ghost predicate Linked(sh: Shape, kind: Kind)
    reads sh.item`child, sh.item`content
    reads Inner(sh)`next, Inner(sh)`prev, Inner(sh)`child, Inner(sh)`content
  {
    KidsInside(sh);
    sh.item.content.kind == kind && Children(sh.item, Roots(sh.kids)) && Apart(sh.kids)
  }

  /** The item and what hangs on it stand for the value; the links between its own siblings do not matter. */
  ghost predicate Tree(sh: Shape, j: Json)
    reads sh.item`child, sh.item`content
    reads Inner(sh)`next, Inner(sh)`prev, Inner(sh)`child, Inner(sh)`content
    decreases j, 1
  {
    match j
    case Null => Leaf(sh, NullKind)
    case True => Leaf(sh, TrueKind)
    case False => Leaf(sh, FalseKind)
    case Number(v) => Leaf(sh, NumberKind) && sh.item.content.number == v
    case String(t) => Leaf(sh, StringKind) && sh.item.content.text == t
    case Array(_) => ArrayTree(sh, j)
    case Object(_) => ObjectTree(sh, j)
  }

  /** The same for one of the children. */
  ghost predicate KidTree(sh: Shape, k: nat, j: Json)
    requires k < |sh.kids|
    reads sh.item`child, sh.item`content
    reads Inner(sh)`next, Inner(sh)`prev, Inner(sh)`child, Inner(sh)`content
    decreases j, 2
  {
    KidsInside(sh);
    Tree(sh.kids[k], j)
  }

  ghost predicate ArrayTree(sh: Shape, j: Json)
    requires j.Array?
    reads sh.item`child, sh.item`content
    reads Inner(sh)`next, Inner(sh)`prev, Inner(sh)`child, Inner(sh)`content
    decreases j, 0
  {
    && Linked(sh, ArrayKind) && |sh.kids| == |j.items|
    && forall k :: 0 <= k < |j.items| ==> KidTree(sh, k, j.items[k])
  }

  ghost predicate ObjectTree(sh: Shape, j: Json)
    requires j.Object?
    reads sh.item`child, sh.item`content
    reads Inner(sh)`next, Inner(sh)`prev, Inner(sh)`child, Inner(sh)`content
    decreases j, 0
  {
    && Linked(sh, ObjectKind) && |sh.kids| == |j.members| && Named(sh, j.members)
    && forall k :: 0 <= k < |j.members| ==> KidTree(sh, k, j.members[k].value)
  }

  /** The pointers determine the value: an item stands for at most one. */
  lemma {:induction false} TreeUnique(sh: Shape, th: Shape, j: Json, l: Json)
    requires sh.item == th.item && Tree(sh, j) && Tree(th, l)
    ensures j == l && sh == th
    decreases j
  {
    hide All, Apart, Children;
    match j {
      case Array(items) =>
        SameRoots(sh, th);
        forall k | 0 <= k < |items|
          ensures items[k] == l.items[k] && sh.kids[k] == th.kids[k]
        {
          assert KidTree(sh, k, items[k]) && KidTree(th, k, l.items[k]);
          TreeUnique(sh.kids[k], th.kids[k], items[k], l.items[k]);
        }
      case Object(members) =>
        SameRoots(sh, th);
        forall k | 0 <= k < |members|
          ensures members[k] == l.members[k] && sh.kids[k] == th.kids[k]
        {
          assert Roots(sh.kids)[k] == Roots(th.kids)[k];
          assert KidTree(sh, k, members[k].value) && KidTree(th, k, l.members[k].value);
          TreeUnique(sh.kids[k], th.kids[k], members[k].value, l.members[k].value);
        }
      case _ =>
    }
  }

  lemma SameRoots(sh: Shape, th: Shape)
    requires sh.item == th.item && Children(sh.item, Roots(sh.kids)) && Children(th.item, Roots(th.kids))
    ensures |sh.kids| == |th.kids| && forall k :: 0 <= k < |sh.kids| ==> sh.kids[k].item == th.kids[k].item
  {
    hide Children;
    ChildrenUnique(sh.item, Roots(sh.kids), Roots(th.kids));
    forall k | 0 <= k < |sh.kids|
      ensures sh.kids[k].item == th.kids[k].item
    {
      assert Roots(sh.kids)[k] == Roots(th.kids)[k];
    }
  }

  // ------------------------------------------------------- building a list of children

  /** Every item of several trees. */
  ghost function Owned(kids: seq<Shape>): set<Item> {
    Items(Roots(kids)) + Inners(kids)
  }

  lemma KidOwned(kids: seq<Shape>, k: nat)
    requires k < |kids|
    ensures All(kids[k]) <= Owned(kids) && kids[k].item in Items(Roots(kids)) && Inner(kids[k]) <= Inners(kids)
  {
    assert Roots(kids)[k] == kids[k].item;
    assert forall x :: x in Inner(kids[k]) ==> x in Inners(kids);
  }

  /** One tree among several; linking their roots does not touch it. */
  ghost predicate ForestTree(kids: seq<Shape>, k: nat, j: Json)
    requires k < |kids|
    reads Items(Roots(kids))`child, Items(Roots(kids))`content
    reads Inners(kids)`next, Inners(kids)`prev, Inners(kids)`child, Inners(kids)`content
  {
    KidOwned(kids, k);
    Tree(kids[k], j)
  }

  ghost predicate Forest(kids: seq<Shape>, values: seq<Json>)
    reads Items(Roots(kids))`child, Items(Roots(kids))`content
    reads Inners(kids)`next, Inners(kids)`prev, Inners(kids)`child, Inners(kids)`content
  {
    |kids| == |values| && forall k :: 0 <= k < |kids| ==> ForestTree(kids, k, values[k])
  }

  lemma ForestSnoc(kids: seq<Shape>, values: seq<Json>, sh: Shape, j: Json)
    requires Forest(kids, values) && Tree(sh, j)
    ensures Forest(kids + [sh], values + [j])
  {
    hide Tree;
    var more := kids + [sh];
    forall k | 0 <= k < |more|
      ensures ForestTree(more, k, (values + [j])[k])
    {
      if k < |kids| {
        assert ForestTree(kids, k, values[k]);
      }
    }
  }

  lemma ApartSnoc(kids: seq<Shape>, sh: Shape)
    requires Apart(kids) && All(sh) !! Owned(kids) && sh.item !in Inner(sh)
    ensures Apart(kids + [sh])
    ensures Owned(kids + [sh]) == Owned(kids) + All(sh) && Roots(kids + [sh]) == Roots(kids) + [sh.item]
  {
    hide Inner, All;
    var more := kids + [sh];
    forall i, j | 0 <= i < j < |more|
      ensures All(more[i]) !! All(more[j])
    {
      KidOwned(kids, i);
    }
    OwnedSnoc(kids, sh);
  }

  lemma OwnedSnoc(kids: seq<Shape>, sh: Shape)
    ensures Owned(kids + [sh]) == Owned(kids) + All(sh) && Roots(kids + [sh]) == Roots(kids) + [sh.item]
  {
    hide Inner;
    var more := kids + [sh];
    assert Roots(more) == Roots(kids) + [sh.item];
    forall x | x in Inners(more)
      ensures x in Inners(kids) + Inner(sh)
    {
      var k :| 0 <= k < |more| && x in Inner(more[k]);
      assert k < |kids| ==> x in Inner(kids[k]);
    }
    forall x | x in Inners(kids) + Inner(sh)
      ensures x in Inners(more)
    {
      if x in Inner(sh) {
        assert x in Inner(more[|kids|]);
      } else {
        var k :| 0 <= k < |kids| && x in Inner(kids[k]);
        assert x in Inner(more[k]);
      }
    }
    assert Inners(more) == Inners(kids) + Inner(sh);
    assert Items(Roots(more)) == Items(Roots(kids)) + {sh.item};
  }

  /** The list so far: linked in both directions, but the head does not yet point to the tail. */
  ghost predicate Chain(head: Item?, current: Item?, s: seq<Item>)
    reads Items(s)`next, Items(s)`prev
  {
    && (forall i, j :: 0 <= i < j < |s| ==> s[i] != s[j])
    && head == (if s == [] then null else s[0])
    && current == (if s == [] then null else s[|s| - 1])
    && (forall i {:trigger s[i].next} :: 0 <= i < |s| ==> s[i].next == After(s, i))
    && (forall i {:trigger s[i].prev} :: 0 < i < |s| ==> s[i].prev == s[i - 1])
  }

  /** The state of a loop that parses the children: finished trees that share nothing, linked up to the last. */
  ghost predicate Building(head: Item?, current: Item?, kids: seq<Shape>, values: seq<Json>)
    reads Owned(kids)`next, Owned(kids)`prev, Owned(kids)`child, Owned(kids)`content
  {
    Chain(head, current, Roots(kids)) && Forest(kids, values) && Apart(kids)
  }

  lemma RootsOutside(kids: seq<Shape>)
    requires Apart(kids)
    ensures Items(Roots(kids)) !! Inners(kids)
  {
    forall i, k | 0 <= i < |kids| && 0 <= k < |kids|
      ensures Roots(kids)[i] !in Inner(kids[k])
    {
      assert kids[i].item in All(kids[i]) && Inner(kids[k]) <= All(kids[k]);
    }
  }

  /** A new item behind the last one. */
  method Attach(head: Item?, current: Item?, ghost kids: seq<Shape>, ghost values: seq<Json>)
    returns (first: Item, item: Item)
    requires Building(head, current, kids, values)
    modifies Target(current)`next
    ensures fresh(item) && item.child == null && item.content == BLANK
    ensures Chain(first, item, Roots(kids) + [item]) && Forest(kids, values) && Apart(kids)
  {
    hide Forest, Apart, Inner, Inners, All;
    RootsOutside(kids);
    assert allocated(Inners(kids));
    item := new Item(BLANK);
    first := item;
    ghost var s := Roots(kids);
    if head != null {
      current.next := item;
      item.prev := current;
      first := head;
    }
    ghost var t := s + [item];
    forall i | 0 <= i < |t|
      ensures t[i].next == After(t, i) && (i > 0 ==> t[i].prev == t[i - 1])
    {
      assert i < |s| ==> t[i] == s[i];
    }
  }

  /** The list becomes that of the children of an item. */
  method Adopt(item: Item, kind: Kind, head: Item?, current: Item?, ghost kids: seq<Shape>, ghost values: seq<Json>)
    requires Chain(head, current, Roots(kids)) && Forest(kids, values) && Apart(kids) && item !in Owned(kids)
    modifies item`child, item`content, Target(head)`prev
    ensures item.content == old(item.content).(kind := kind)
    ensures Linked(Shape(item, kids), kind) && Forest(kids, values)
  {
    hide Forest, Tree;
    if head != null {
      head.prev := current;
    }
    item.content := item.content.(kind := kind);
    item.child := head;
  }

  /** A finished tree below an item, which is not part of what hangs on it. */
  ghost predicate Built(item: Item, sh: Shape, j: Json)
    reads item`child, item`content
    reads Inner(sh)`next, Inner(sh)`prev, Inner(sh)`child, Inner(sh)`content
  {
    sh.item == item && item !in Inner(sh) && Tree(sh, j)
  }

  lemma NothingYet(kids: seq<Shape>, values: seq<Json>, members: seq<Member>)
    requires kids == [] && values == [] && members == []
    ensures Building(null, null, kids, values) && Owned(kids) == {}
    ensures Building(null, null, kids, ValuesOf(members)) && NamesAre(kids, members)
  {}

  /** The ends of the list are among its items. */
  lemma InOwned(head: Item?, current: Item?, kids: seq<Shape>, values: seq<Json>)
    requires Building(head, current, kids, values)
    ensures head != null ==> head in Owned(kids)
    ensures current != null ==> current in Owned(kids)
  {}

  /** Another finished tree joins the others. */
  lemma KidBuilt(kids: seq<Shape>, values: seq<Json>, kid: Shape, j: Json)
    requires Forest(kids, values) && Apart(kids) && Built(kid.item, kid, j) && All(kid) !! Owned(kids)
    ensures Forest(kids + [kid], values + [j]) && Apart(kids + [kid])
    ensures Owned(kids + [kid]) == Owned(kids) + All(kid) && Roots(kids + [kid]) == Roots(kids) + [kid.item]
  {
    hide Forest, Apart, Owned, Tree, All, Inner;
    ForestSnoc(kids, values, kid, j);
    ApartSnoc(kids, kid);
  }

  lemma InnerIsOwned(item: Item, kids: seq<Shape>)
    ensures Inner(Shape(item, kids)) == Owned(kids)
  {
    var sh := Shape(item, kids);
    forall x | x in Inner(sh)
      ensures x in Owned(kids)
    {
      var k :| 0 <= k < |kids| && x in All(kids[k]);
      KidOwned(kids, k);
    }
    forall x | x in Owned(kids)
      ensures x in Inner(sh)
    {
      KidsInside(sh);
      if x in Inners(kids) {
        var k :| 0 <= k < |kids| && x in Inner(kids[k]);
        assert x in All(sh.kids[k]);
      }
    }
  }

  lemma ArrayBuilt(item: Item, kids: seq<Shape>, values: seq<Json>)
    requires Linked(Shape(item, kids), ArrayKind) && Forest(kids, values) && item !in Owned(kids)
    ensures Built(item, Shape(item, kids), Array(values)) && Inner(Shape(item, kids)) == Owned(kids)
  {
    hide Tree, Linked, Inner, Owned;
    InnerIsOwned(item, kids);
    var sh := Shape(item, kids);
    forall k | 0 <= k < |values|
      ensures KidTree(sh, k, values[k])
    {
      assert ForestTree(kids, k, values[k]);
    }
    ArrayIsTree(sh, Array(values));
  }

  lemma ArrayIsTree(sh: Shape, j: Json)
    requires j.Array? && ArrayTree(sh, j)
    ensures Tree(sh, j)
  {}

  function ValuesOf(members: seq<Member>): (values: seq<Json>)
    ensures |values| == |members|
  {
    seq(|members|, i requires 0 <= i < |members| => members[i].value)
  }

  lemma MemberNamed(kids: seq<Shape>, members: seq<Member>, kid: Shape, member: Member)
    requires NamesAre(kids, members) && kid.item.content.name == member.name
    ensures NamesAre(kids + [kid], members + [member])
    ensures ValuesOf(members + [member]) == ValuesOf(members) + [member.value]
  {
    var more, all := kids + [kid], members + [member];
    forall k | 0 <= k < |all|
      ensures Roots(more)[k].content.name == all[k].name
    {
      assert k < |kids| ==> Roots(kids)[k] == Roots(more)[k];
    }
  }

  lemma ObjectBuilt(item: Item, kids: seq<Shape>, members: seq<Member>)
    requires Linked(Shape(item, kids), ObjectKind) && Forest(kids, ValuesOf(members)) && item !in Owned(kids)
    requires NamesAre(kids, members)
    ensures Built(item, Shape(item, kids), Object(members)) && Inner(Shape(item, kids)) == Owned(kids)
  {
    hide Tree, Linked, Inner, Owned;
    InnerIsOwned(item, kids);
    var sh := Shape(item, kids);
    forall k | 0 <= k < |members|
      ensures KidTree(sh, k, members[k].value)
    {
      assert ForestTree(kids, k, ValuesOf(members)[k]);
    }
    ObjectIsTree(sh, Object(members));
  }

  lemma ObjectIsTree(sh: Shape, j: Json)
    requires j.Object? && ObjectTree(sh, j)
    ensures Tree(sh, j)
  {}

  method AdoptItems(item: Item, head: Item?, current: Item?, ghost kids: seq<Shape>, ghost values: seq<Json>)
    requires Building(head, current, kids, values) && item !in Owned(kids)
    modifies item`child, item`content, Target(head)`prev
    ensures item.content == old(item.content).(kind := ArrayKind)
    ensures Built(item, Shape(item, kids), Array(values)) && Inner(Shape(item, kids)) == Owned(kids)
  {
    hide Linked, Forest, Chain, Apart, Owned, Built, Inner;
    Adopt(item, ArrayKind, head, current, kids, values);
    ArrayBuilt(item, kids, values);
  }

  method AdoptMembers(item: Item, head: Item?, current: Item?, ghost kids: seq<Shape>, ghost members: seq<Member>)
    requires Building(head, current, kids, ValuesOf(members)) && NamesAre(kids, members) && item !in Owned(kids)
    modifies item`child, item`content, Target(head)`prev
    ensures item.content == old(item.content).(kind := ObjectKind)
    ensures Built(item, Shape(item, kids), Object(members)) && Inner(Shape(item, kids)) == Owned(kids)
  {
    hide Linked, Forest, Chain, Apart, Built, Inner, Inners;
    Adopt(item, ObjectKind, head, current, kids, ValuesOf(members));
    ObjectBuilt(item, kids, members);
  }
}
