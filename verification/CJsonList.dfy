/** The doubly linked child lists of cJSON items, edited in place. */
module CJsonList {
  import opened ModArith

  datatype Kind = Invalid | FalseKind | TrueKind | NullKind | NumberKind | StringKind | ArrayKind | ObjectKind

  /** The fields of an item that are not links: type, valuestring, valuedouble and string. */
  datatype Content = Content(kind: Kind, text: seq<uint8>, number: int, name: seq<uint8>)

  const BLANK: Content := Content(Invalid, [], 0, [])

  class Item {
    var next: Item?
    var prev: Item?
    var child: Item?
    var content: Content

    constructor (content: Content)
      ensures next == null && prev == null && child == null && this.content == content
    {
      next, prev, child, this.content := null, null, null, content;
    }
  }

  /**
   * s is the list of children of parent: the next pointers run through it and end, each prev pointer
   * goes back one item, and the prev pointer of the head is the tail.
   */
  ghost predicate Children(parent: Item, s: seq<Item>)
    reads parent`child, Items(s)`next, Items(s)`prev
  {
    && parent !in s
    && (forall i, j :: 0 <= i < j < |s| ==> s[i] != s[j])
    && parent.child == (if |s| == 0 then null else s[0])
    && (forall i {:trigger s[i].next} :: 0 <= i < |s| ==> s[i].next == After(s, i))
    && (forall i {:trigger s[i].prev} :: 0 <= i < |s| ==> s[i].prev == Before(s, i))
  }

  function After(s: seq<Item>, i: nat): Item?
    requires i < |s|
  {
    if i + 1 < |s| then s[i + 1] else null
  }

  function Before(s: seq<Item>, i: nat): Item
    requires i < |s|
  {
    if i > 0 then s[i - 1] else s[|s| - 1]
  }

  /** An item that no list refers to. */
  ghost predicate Detached(parent: Item, s: seq<Item>, item: Item)
    reads item`next
  {
    item != parent && item !in s && item.next == null
  }

  function RemoveAt<T>(s: seq<T>, i: nat): seq<T>
    requires i < |s|
  {
    s[..i] + s[i + 1..]
  }

  lemma RemovedItems(s: seq<Item>, i: nat)
    requires i < |s| && forall j, k :: 0 <= j < k < |s| ==> s[j] != s[k]
    ensures var t := RemoveAt(s, i);
      && |t| == |s| - 1
      && (forall k :: 0 <= k < i ==> t[k] == s[k])
      && (forall k :: i <= k < |t| ==> t[k] == s[k + 1])
      && (forall j, k :: 0 <= j < k < |t| ==> t[j] != t[k])
      && s[i] !in t && forall x :: x in t ==> x in s
  {}

  function InsertAt<T>(s: seq<T>, i: nat, x: T): seq<T>
    requires i <= |s|
  {
    s[..i] + [x] + s[i..]
  }

  /** A list has only one reading. */
  lemma ChildrenUnique(parent: Item, s: seq<Item>, t: seq<Item>)
    requires Children(parent, s) && Children(parent, t)
    ensures s == t
  {
    if |s| > 0 && |t| > 0 {
      var k := (if |s| <= |t| then |s| else |t|) - 1;
      SameItems(parent, s, t, k);
      assert s[k].next == After(s, k) && t[k].next == After(t, k);
    }
  }

  lemma {:induction false} SameItems(parent: Item, s: seq<Item>, t: seq<Item>, n: nat)
    requires Children(parent, s) && Children(parent, t) && n < |s| && n < |t|
    ensures s[n] == t[n] && forall k :: 0 <= k < n ==> s[k] == t[k]
  {
    if n > 0 {
      SameItems(parent, s, t, n - 1);
      assert s[n - 1].next == After(s, n - 1) && t[n - 1].next == After(t, n - 1);
    }
  }

  ghost function Items(s: seq<Item>): set<Item> {
    set x | x in s
  }

  /** The object a pointer refers to, if any. */
  function Target(item: Item?): set<Item> {
    if item == null then {} else {item}
  }

  /** get_array_item: the item at an index, or null past the end. */
  method GetArrayItem(parent: Item, index: nat, ghost s: seq<Item>) returns (item: Item?)
    requires Children(parent, s)
    ensures item == if index < |s| then s[index] else null
  {
    item := parent.child;
    var left: nat := index;
    ghost var k := 0;
    while item != null && left > 0
      invariant left + k == index && k <= |s|
      invariant item == if k < |s| then s[k] else null
      decreases left
    {
      left := left - 1;
      item := item.next;
      k := k + 1;
    }
  }

  method SuffixObject(prev: Item, item: Item)
    modifies prev`next, item`prev
    ensures prev.next == item && item.prev == prev
  {
    prev.next := item;
    item.prev := prev;
  }

  /** Appends at the end, which the head knows. */
  method AddItemToArray(parent: Item?, item: Item?, ghost s: seq<Item>) returns (ok: bool)
    requires parent != null ==> Children(parent, s)
    requires parent != null && item != null && item != parent ==> Detached(parent, s, item)
    modifies Target(parent)`child, Target(item)`next, Target(item)`prev, Items(s)`next, Items(s)`prev
    ensures ok <==> parent != null && item != null && item != parent
    ensures ok ==> Children(parent, s + [item])
    ensures !ok && parent != null ==> Children(parent, s)
  {
    if item == null || parent == null || parent == item {
      return false;
    }
    var child := parent.child;
    if child == null {
      parent.child := item;
      item.prev := item;
      item.next := null;
    } else {
      assert child == s[0] && child.prev == s[|s| - 1];
      if child.prev != null {
        SuffixObject(child.prev, item);
        parent.child.prev := item;
      }
    }
    ghost var t := s + [item];
    assert forall k :: 0 <= k < |s| ==> t[k] == s[k];
    ok := true;
  }

  /** Takes an item out of the list it is in. */
  method DetachItemViaPointer(parent: Item?, item: Item?, ghost s: seq<Item>, ghost i: nat) returns (r: Item?)
    requires parent != null ==> Children(parent, s)
    requires parent != null && item != null ==> i < |s| && s[i] == item
    modifies Target(parent)`child, Items(s)`next, Items(s)`prev
    ensures r == if parent == null then null else item
    ensures r != null ==> Children(parent, RemoveAt(s, i)) && Detached(parent, RemoveAt(s, i), item)
    ensures r != null ==> item.prev == null
    ensures r == null && parent != null ==> Children(parent, s)
  {
    hide RemoveAt;
    if parent == null || item == null {
      return null;
    }
    if item != parent.child {
      item.prev.next := item.next;
    }
    if item.next != null {
      item.next.prev := item.prev;
    }
    if item == parent.child {
      parent.child := item.next;
    } else if item.next == null {
      parent.child.prev := item.prev;
    }
    item.prev := null;
    item.next := null;
    ghost var t := RemoveAt(s, i);
    RemovedItems(s, i);
    forall k | 0 <= k < |t|
      ensures t[k].next == After(t, k) && t[k].prev == Before(t, k)
    {
      assert t[k] == s[if k < i then k else k + 1];
    }
    r := item;
  }

  method DetachItemFromArray(parent: Item, which: int, ghost s: seq<Item>) returns (r: Item?)
    requires Children(parent, s)
    modifies parent`child, Items(s)`next, Items(s)`prev
    ensures r == if 0 <= which < |s| then s[which] else null
    ensures r == null ==> Children(parent, s)
    ensures r != null ==> Children(parent, RemoveAt(s, which)) && Detached(parent, RemoveAt(s, which), r)
  {
    if which < 0 {
      return null;
    }
    var item := GetArrayItem(parent, which, s);
    if item == null {
      return null;
    }
    r := DetachItemViaPointer(parent, item, s, which);
  }

  lemma InsertedItems(s: seq<Item>, i: nat, x: Item)
    requires i <= |s| && x !in s && forall j, k :: 0 <= j < k < |s| ==> s[j] != s[k]
    ensures var t := InsertAt(s, i, x);
      && |t| == |s| + 1 && t[i] == x
      && (forall k :: 0 <= k < i ==> t[k] == s[k])
      && (forall k :: i < k < |t| ==> t[k] == s[k - 1])
      && (forall j, k :: 0 <= j < k < |t| ==> t[j] != t[k])
      && forall y :: y in t ==> y == x || y in s
  {}

  /** Inserts before the item at an index, or at the end when there is none. */
  method InsertItemInArray(parent: Item, which: int, newItem: Item?, ghost s: seq<Item>) returns (ok: bool)
    requires Children(parent, s)
    requires newItem != null && newItem != parent ==> Detached(parent, s, newItem)
    requires 0 <= which < |s| ==> newItem != null && newItem != parent
    modifies parent`child, Target(newItem)`next, Target(newItem)`prev, Items(s)`next, Items(s)`prev
    ensures ok <==> which >= 0 && newItem != null && newItem != parent
    ensures ok ==> Children(parent, InsertAt<Item>(s, if which < |s| then which else |s|, newItem))
    ensures !ok ==> Children(parent, s) && (newItem != null && newItem != parent ==> Detached(parent, s, newItem))
  {
    hide InsertAt;
    if which < 0 {
      return false;
    }
    var after := GetArrayItem(parent, which, s);
    if after == null {
      ok := AddItemToArray(parent, newItem, s);
      if ok {
        InsertAtEnd(s, newItem);
      }
      return;
    }
    InsertBefore(parent, after, newItem, s, which);
    ok := true;
  }

  method InsertBefore(parent: Item, after: Item, newItem: Item, ghost s: seq<Item>, ghost which: nat)
    requires Children(parent, s) && Detached(parent, s, newItem) && which < |s| && s[which] == after
    modifies parent`child, newItem`next, newItem`prev, Items(s)`next, Items(s)`prev
    ensures Children(parent, InsertAt(s, which, newItem))
  {
    hide InsertAt;
    InsertedItems(s, which, newItem);
    newItem.next := after;
    newItem.prev := after.prev;
    after.prev := newItem;
    if after == parent.child {
      parent.child := newItem;
    } else {
      newItem.prev.next := newItem;
    }
    ghost var t := InsertAt(s, which, newItem);
    forall k | 0 <= k < |t|
      ensures t[k].next == After(t, k) && t[k].prev == Before(t, k)
    {
      assert k != which ==> t[k] == s[if k < which then k else k - 1];
    }
  }

  lemma InsertAtEnd(s: seq<Item>, x: Item)
    ensures InsertAt(s, |s|, x) == s + [x]
  {}

  /** Puts another item in the place of one in the list, which is then on its own. */
  method ReplaceItemViaPointer(parent: Item?, item: Item?, replacement: Item?, ghost s: seq<Item>, ghost i: nat)
    returns (ok: bool)
    requires parent != null ==> Children(parent, s)
    requires parent != null && item != null ==> i < |s| && s[i] == item
    requires parent != null && replacement != null && replacement != item ==> Detached(parent, s, replacement)
    modifies Target(parent)`child, Target(replacement)`next, Target(replacement)`prev, Items(s)`next, Items(s)`prev
    ensures ok <==> parent != null && item != null && replacement != null
    ensures ok ==> Children(parent, s[i := replacement])
    ensures ok && replacement != item ==> Detached(parent, s[i := replacement], item)
    ensures !ok && parent != null ==> Children(parent, s)
    ensures !ok && parent != null && replacement != null && replacement != item ==> Detached(parent, s, replacement)
  {
    if parent == null || replacement == null || item == null {
      return false;
    }
    if replacement == item {
      return true;
    }
    replacement.next := item.next;
    replacement.prev := item.prev;
    if replacement.next != null {
      replacement.next.prev := replacement;
    }
    if parent.child == item {
      if parent.child.prev == parent.child {
        replacement.prev := replacement;
      }
      parent.child := replacement;
    } else {
      if replacement.prev != null {
        replacement.prev.next := replacement;
      }
      if replacement.next == null {
        parent.child.prev := replacement;
      }
    }
    item.next := null;
    item.prev := null;
    ghost var t := s[i := replacement];
    forall k | 0 <= k < |t|
      ensures t[k].next == After(t, k) && t[k].prev == Before(t, k)
    {
      assert k != i ==> t[k] == s[k];
    }
    ok := true;
  }

  method ReplaceItemInArray(parent: Item, which: int, newItem: Item, ghost s: seq<Item>) returns (ok: bool)
    requires Children(parent, s) && Detached(parent, s, newItem)
    modifies parent`child, newItem`next, newItem`prev, Items(s)`next, Items(s)`prev
    ensures ok <==> 0 <= which < |s|
    ensures Children(parent, if ok then s[which := newItem] else s)
    ensures !ok ==> Detached(parent, s, newItem)
  {
    if which < 0 {
      return false;
    }
    var item := GetArrayItem(parent, which, s);
    ok := ReplaceItemViaPointer(parent, item, newItem, s, which);
  }

  // ----------------------------------------------------------------- whole runs

  /** The new item of an edit is one that the caller holds: created, or detached before. */
  datatype Operation =
    | Create(content: Content)
    | Append(item: nat)
    | Insert(which: int, item: nat)
    | Detach(which: int)
    | Replace(which: int, item: nat)

  /** The contents of the list, and of the items that the caller holds outside of it. */
  datatype State = State(list: seq<Content>, held: seq<Content>)

  /** What an operation does to the contents; a replaced item is deleted. */
  function Apply(st: State, op: Operation): State {
    var n := |st.list|;
    match op
    case Create(v) => st.(held := st.held + [v])
    case Append(j) =>
      if j < |st.held| then State(st.list + [st.held[j]], RemoveAt(st.held, j)) else st
    case Insert(i, j) =>
      if i >= 0 && j < |st.held| then
        State(InsertAt(st.list, if i < n then i else n, st.held[j]), RemoveAt(st.held, j))
      else st
    case Detach(i) =>
      if 0 <= i < n then State(RemoveAt(st.list, i), st.held + [st.list[i]]) else st
    case Replace(i, j) =>
      if 0 <= i < n && j < |st.held| then State(st.list[i := st.held[j]], RemoveAt(st.held, j)) else st
  }

  function ApplyAll(st: State, ops: seq<Operation>): State {
    if ops == [] then st else Apply(ApplyAll(st, ops[..|ops| - 1]), ops[|ops| - 1])
  }

  /** The items outside the list: each is there once and is not linked to anything. */
  ghost predicate Held(parent: Item, s: seq<Item>, held: seq<Item>)
    reads Items(held)`next
  {
    && (forall i, j :: 0 <= i < j < |held| ==> held[i] != held[j])
    && (forall i :: 0 <= i < |held| ==> Detached(parent, s, held[i]))
  }

  ghost function Contents(s: seq<Item>): (l: seq<Content>)
    reads Items(s)`content
    ensures |l| == |s| && forall i :: 0 <= i < |s| ==> l[i] == s[i].content
  {
    if s == [] then [] else Contents(s[..|s| - 1]) + [s[|s| - 1].content]
  }

  lemma ChildrenDistinct(parent: Item, s: seq<Item>)
    requires Children(parent, s)
    ensures forall j, k :: 0 <= j < k < |s| ==> s[j] != s[k]
  {}

  lemma InsertedAt<T>(s: seq<T>, i: nat, x: T, k: nat)
    requires i <= |s| && k <= |s|
    ensures InsertAt(s, i, x)[k] == if k < i then s[k] else if k == i then x else s[k - 1]
  {}

  lemma ContentsInsert(s: seq<Item>, i: nat, x: Item)
    requires i <= |s|
    ensures Contents(InsertAt(s, i, x)) == InsertAt(Contents(s), i, x.content)
  {
    hide Contents;
    var t, l := InsertAt(s, i, x), InsertAt(Contents(s), i, x.content);
    assert |t| == |l| == |s| + 1;
    forall k | 0 <= k < |l|
      ensures l[k] == t[k].content
    {
      hide InsertAt;
      InsertedAt(s, i, x, k);
      InsertedAt(Contents(s), i, x.content, k);
    }
    SameContents(t, l);
  }

  lemma ContentsAppend(s: seq<Item>, x: Item)
    ensures Contents(s + [x]) == Contents(s) + [x.content]
  {
    hide Contents;
    SameContents(s + [x], Contents(s) + [x.content]);
  }

  lemma ContentsRemove(s: seq<Item>, i: nat)
    requires i < |s|
    ensures Contents(RemoveAt(s, i)) == RemoveAt(Contents(s), i)
  {
    hide Contents;
    SameContents(RemoveAt(s, i), RemoveAt(Contents(s), i));
  }

  lemma SameContents(s: seq<Item>, l: seq<Content>)
    requires |l| == |s| && forall i :: 0 <= i < |s| ==> l[i] == s[i].content
    ensures Contents(s) == l
  {
    hide Contents;
  }

  lemma ContentsReplace(s: seq<Item>, i: nat, x: Item)
    requires i < |s|
    ensures Contents(s[i := x]) == Contents(s)[i := x.content]
  {
    hide Contents;
    SameContents(s[i := x], Contents(s)[i := x.content]);
  }

  lemma HeldWithout(parent: Item, s: seq<Item>, held: seq<Item>, j: nat)
    requires j < |held| && Held(parent, s, held)
    ensures Held(parent, s, RemoveAt(held, j)) && held[j] !in RemoveAt(held, j)
    ensures forall x :: x in RemoveAt(held, j) ==> x in held
  {
    RemovedItems(held, j);
  }

  /** Puts the item j that the caller holds at the end of the list, or before the item at an index. */
  method Put(parent: Item, which: int, atEnd: bool, ghost s: seq<Item>, held: seq<Item>, j: nat)
    returns (ghost t: seq<Item>, kept: seq<Item>)
    requires Children(parent, s) && Held(parent, s, held) && j < |held|
    modifies parent`child, Items(s)`next, Items(s)`prev, Items(held)`next, Items(held)`prev
    ensures if atEnd || which >= 0 then
        && t == InsertAt(s, if atEnd || which >= |s| then |s| else which, held[j])
        && kept == RemoveAt(held, j)
      else t == s && kept == held
    ensures Children(parent, t) && Held(parent, t, kept)
    ensures forall x :: x in t || x in kept ==> x in s || x in held
  {
    hide Children, RemoveAt, InsertAt;
    ChildrenDistinct(parent, s);
    HeldWithout(parent, s, held, j);
    ghost var at := if atEnd || which >= |s| then |s| else which;
    t, kept := s, held;
    var ok;
    if atEnd {
      ok := AddItemToArray(parent, held[j], s);
      InsertAtEnd(s, held[j]);
    } else {
      ok := InsertItemInArray(parent, which, held[j], s);
    }
    if ok {
      t, kept := InsertAt(s, at, held[j]), RemoveAt(held, j);
      InsertedItems(s, at, held[j]);
    }
    forall i | 0 <= i < |kept|
      ensures Detached(parent, t, kept[i])
    {
      assert kept[i] in kept && kept[i] !in s;
    }
  }

  /** Takes the item at an index out of the list; the caller holds it from then on. */
  method Take(parent: Item, which: int, ghost s: seq<Item>, held: seq<Item>)
    returns (ghost t: seq<Item>, kept: seq<Item>)
    requires Children(parent, s) && Held(parent, s, held)
    modifies parent`child, Items(s)`next, Items(s)`prev
    ensures if 0 <= which < |s| then t == RemoveAt(s, which) && kept == held + [s[which]] else t == s && kept == held
    ensures Children(parent, t) && Held(parent, t, kept)
    ensures forall x :: x in t || x in kept ==> x in s || x in held
  {
    hide Children, RemoveAt;
    t, kept := s, held;
    ChildrenDistinct(parent, s);
    var item := DetachItemFromArray(parent, which, s);
    if item != null {
      RemovedItems(s, which);
      t, kept := RemoveAt(s, which), held + [item];
    }
    forall i | 0 <= i < |held|
      ensures Detached(parent, t, kept[i]) && held[i] !in s
    {
      assert kept[i] == held[i];
    }
  }

  /** Puts the item j that the caller holds in the place of the one at an index, which is deleted. */
  method PutInstead(parent: Item, which: int, ghost s: seq<Item>, held: seq<Item>, j: nat)
    returns (ghost t: seq<Item>, kept: seq<Item>)
    requires Children(parent, s) && Held(parent, s, held) && j < |held|
    modifies parent`child, Items(s)`next, Items(s)`prev, Items(held)`next, Items(held)`prev
    ensures if 0 <= which < |s| then t == s[which := held[j]] && kept == RemoveAt(held, j) else t == s && kept == held
    ensures Children(parent, t) && Held(parent, t, kept)
    ensures forall x :: x in t || x in kept ==> x in s || x in held
  {
    hide Children, RemoveAt;
    t, kept := s, held;
    HeldWithout(parent, s, held, j);
    var ok := ReplaceItemInArray(parent, which, held[j], s);
    if ok {
      t, kept := s[which := held[j]], RemoveAt(held, j);
    }
    forall i | 0 <= i < |kept|
      ensures Detached(parent, t, kept[i])
    {
      assert kept[i] in kept && kept[i] !in s;
    }
  }

  lemma HeldSnoc(parent: Item, s: seq<Item>, held: seq<Item>, item: Item)
    requires Held(parent, s, held) && Detached(parent, s, item) && item !in held
    ensures Held(parent, s, held + [item])
  {}

  lemma ContentAt(s: seq<Item>, i: nat)
    requires i < |s|
    ensures Contents(s)[i] == s[i].content
  {}

  /** One operation on the linked list is the same operation on its contents. */
  method Perform(parent: Item, op: Operation, ghost s: seq<Item>, held: seq<Item>)
    returns (ghost t: seq<Item>, kept: seq<Item>)
    requires Children(parent, s) && Held(parent, s, held)
    modifies parent`child, Items(s)`next, Items(s)`prev, Items(held)`next, Items(held)`prev
    ensures Children(parent, t) && Held(parent, t, kept)
    ensures State(Contents(t), Contents(kept)) == Apply(old(State(Contents(s), Contents(held))), op)
    ensures forall x :: x in t || x in kept ==> x in s || x in held || fresh(x)
  {
    hide Children, Held, Contents, RemoveAt, InsertAt;
    t, kept := s, held;
    match op {
      case Create(v) =>
        var item := new Item(v);
        HeldSnoc(parent, s, held, item);
        kept := held + [item];
        ContentsAppend(held, item);
      case Append(j) =>
        if j < |held| {
          t, kept := Put(parent, 0, true, s, held, j);
          InsertAtEnd(s, held[j]);
          ContentsAppend(s, held[j]);
          ContentsRemove(held, j);
          ContentAt(held, j);
        }
      case Insert(i, j) =>
        if j < |held| {
          t, kept := Put(parent, i, false, s, held, j);
          if i >= 0 {
            ContentsInsert(s, if i < |s| then i else |s|, held[j]);
            ContentsRemove(held, j);
            ContentAt(held, j);
          }
        }
      case Detach(i) =>
        t, kept := Take(parent, i, s, held);
        if 0 <= i < |s| {
          ContentsRemove(s, i);
          ContentsAppend(held, s[i]);
          ContentAt(s, i);
        }
      case Replace(i, j) =>
        if j < |held| {
          t, kept := PutInstead(parent, i, s, held, j);
          if 0 <= i < |s| {
            ContentsReplace(s, i, held[j]);
            ContentsRemove(held, j);
            ContentAt(held, j);
          }
        }
    }
  }

  /**
   * Every run of operations, which may put back items that were detached, keeps the list well formed
   * and acts on the contents as on plain sequences.
   */
  method Run(parent: Item, ops: seq<Operation>, ghost s: seq<Item>, held: seq<Item>)
    returns (ghost t: seq<Item>, kept: seq<Item>)
    requires Children(parent, s) && Held(parent, s, held)
    modifies parent`child, Items(s)`next, Items(s)`prev, Items(held)`next, Items(held)`prev
    ensures Children(parent, t) && Held(parent, t, kept)
    ensures State(Contents(t), Contents(kept)) == ApplyAll(State(Contents(s), Contents(held)), ops)
  {
    hide Children, Held, Apply;
    t, kept := s, held;
    for k := 0 to |ops|
      invariant Children(parent, t) && Held(parent, t, kept)
      invariant State(Contents(t), Contents(kept)) == ApplyAll(State(Contents(s), Contents(held)), ops[..k])
      invariant forall x :: x in t || x in kept ==> x in s || x in held || fresh(x)
    {
      assert ops[..k + 1][..k] == ops[..k];
      t, kept := Perform(parent, ops[k], t, kept);
    }
    assert ops[..|ops|] == ops;
  }
}
