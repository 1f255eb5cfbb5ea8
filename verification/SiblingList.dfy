/** A node's children: a list linked both ways, whose first item also points back to its last. */
module SiblingList {
  import opened Bytes

  datatype Kind = NullKind | FalseKind | TrueKind | NumberKind | StringKind | ArrayKind | ObjectKind

  class Item {
    var next: Item?
    var prev: Item?
    var child: Item?
    var kind: Kind
    var valueint: Int32
    var valuestring: CString
    var name: CString
    /** The children in order, and every item of the tree from here down. */
    ghost var kids: seq<Item>
    ghost var Repr: set<Item>

    constructor ()
      ensures next == prev == child == null && kind == NullKind && valueint == 0 && valuestring == [] && name == []
      ensures kids == [] && Repr == {this}
    {
      next, prev, child, kind, valueint, valuestring, name := null, null, null, NullKind, 0, [], [];
      kids, Repr := [], {this};
    }
  }

  ghost predicate Distinct(items: seq<Item>) { forall i, j :: 0 <= i < j < |items| ==> items[i] != items[j] }

  /** What the item at `i` points forward to. */
  ghost function After(items: seq<Item>, i: nat): Item?
    requires i < |items|
  {
    if i + 1 < |items| then items[i + 1] else null
  }

  ghost function Before(items: seq<Item>, i: nat): Item
    requires i < |items|
  {
    if i == 0 then items[|items| - 1] else items[i - 1]
  }

  ghost function Head(items: seq<Item>): Item? { if items == [] then null else items[0] }

  /** The items are linked in this order, from `head` on. */
  ghost predicate Linked(head: Item?, items: seq<Item>)
    reads items
  {
    && Distinct(items) && head == Head(items)
    && forall i :: 0 <= i < |items| ==> items[i].next == After(items, i) && items[i].prev == Before(items, i)
  }

  function RemoveAt<T>(s: seq<T>, k: nat): seq<T>
    requires k < |s|
  {
    s[..k] + s[k + 1..]
  }

  function InsertAt<T>(s: seq<T>, k: nat, x: T): seq<T>
    requires k <= |s|
  {
    s[..k] + [x] + s[k..]
  }

  /** The item at an index, or none. */
  method GetArrayItem(parent: Item, index: nat, ghost items: seq<Item>) returns (r: Item?)
    requires Linked(parent.child, items)
    ensures r == if index < |items| then items[index] else null
  {
    r := parent.child;
    var left := index;
    ghost var k := 0;
    while r != null && left > 0
      invariant 0 <= left && left + k == index && k <= |items| && r == (if k < |items| then items[k] else null)
    {
      left := left - 1;
      r := r.next;
      k := k + 1;
    }
  }

  method SuffixObject(prev: Item, item: Item)
    requires prev != item
    modifies prev`next, item`prev
    ensures prev.next == item && item.prev == prev
  {
    prev.next := item;
    item.prev := prev;
  }

  /** Append an item that is not in the list. Its own `next` is not cleared, so the list is well formed
      after it exactly when that was null or the list was empty. */
  method AddItemToArray(parent: Item, item: Item, ghost items: seq<Item>) returns (ok: bool)
    requires Linked(parent.child, items) && parent !in items && item !in items
    modifies parent`child, item`next, item`prev, items`next, items`prev
    ensures ok == (parent != item)
    ensures ok ==> (Linked(parent.child, items + [item]) <==> items == [] || old(item.next) == null)
  {
    if parent == item {
      return false;
    }
    var child := parent.child;
    if child == null {
      parent.child := item;
      item.prev := item;
      item.next := null;
    } else {
      SuffixObject(child.prev, item);
      parent.child.prev := item;
      AppendLinked(parent.child, items, item);
    }
    return true;
  }

  /** What appending has done to the links makes the longer list, if the new item points to nothing. */
  lemma {:induction false} AppendLinked(head: Item?, items: seq<Item>, item: Item)
    requires items != [] && Distinct(items) && item !in items && head == items[0]
    requires forall j :: 0 <= j < |items| ==> items[j].next == (if j == |items| - 1 then item else After(items, j))
    requires forall j :: 0 <= j < |items| ==> items[j].prev == (if j == 0 then item else Before(items, j))
    requires item.prev == items[|items| - 1]
    ensures Linked(head, items + [item]) <==> item.next == null
  {
    var all := items + [item];
    assert all[|items|] == item && After(all, |items|) == null;
  }

  lemma {:induction false} LinksAt(items: seq<Item>, k: nat)
    requires k < |items|
    ensures After(items, k) == if k + 1 < |items| then items[k + 1] else null
    ensures Before(items, k) == if k > 0 then items[k - 1] else items[|items| - 1]
  {
  }

  /** The links of a list from which item `k` is being taken out: who already skips it. */
  ghost predicate Forward(items: seq<Item>, k: nat, skipped: bool)
    requires k < |items|
    reads items
  {
    forall j :: 0 <= j < |items| ==> items[j].next == After(items, if j + 1 == k && skipped then k else j)
  }

  ghost predicate Backward(items: seq<Item>, k: nat, next: bool, head: bool)
    requires k < |items|
    reads items
  {
    forall j :: 0 <= j < |items| ==>
      items[j].prev == Before(items, if (j == k + 1 && next) || (j == 0 && k == |items| - 1 && head) then k else j)
  }

  /** The item before, if there is one, skips the item. */
  method SkipForward(item: Item, first: bool, ghost items: seq<Item>, ghost k: nat)
    requires Distinct(items) && k < |items| && items[k] == item && first == (k == 0)
    requires Forward(items, k, false) && Backward(items, k, false, false)
    modifies items`next
    ensures Forward(items, k, true)
  {
    hide After;
    hide Before;
    LinksAt(items, k);
    assert item.prev == Before(items, k) && item.next == After(items, k);
    if !first {
      item.prev.next := item.next;
    }
  }

  /** The item after, if there is one, skips the item. */
  method SkipBackward(item: Item, ghost items: seq<Item>, ghost k: nat)
    requires Distinct(items) && k < |items| && items[k] == item
    requires Forward(items, k, true) && Backward(items, k, false, false)
    modifies items`prev
    ensures Backward(items, k, true, false)
  {
    hide After;
    hide Before;
    LinksAt(items, k);
    assert item.prev == Before(items, k) && item.next == After(items, k);
    if item.next != null {
      item.next.prev := item.prev;
    }
  }

  /** The list's head, or its pointer to its last item, skips the item. */
  method SkipAtEnds(parent: Item, item: Item, ghost items: seq<Item>, ghost k: nat)
    requires Distinct(items) && k < |items| && items[k] == item && parent !in items && parent.child == items[0]
    requires Forward(items, k, true) && Backward(items, k, true, false)
    modifies parent`child, items`prev
    ensures parent.child == if k == 0 then After(items, 0) else items[0]
    ensures forall j :: 0 <= j < |items| && j != k ==>
              items[j].prev == Before(items, if j == k + 1 || (j == 0 && k == |items| - 1) then k else j)
  {
    hide After;
    hide Before;
    LinksAt(items, k);
    assert item.prev == Before(items, k) && item.next == After(items, k);
    if item == parent.child {
      parent.child := item.next;
    } else if item.next == null {
      parent.child.prev := item.prev;
    }
  }

  /** Take an item out of the list; it points nowhere afterwards. */
  method DetachItemViaPointer(parent: Item, item: Item, ghost items: seq<Item>, ghost k: nat)
    requires Linked(parent.child, items) && parent !in items && k < |items| && items[k] == item
    modifies parent`child, items`next, items`prev
    ensures Linked(parent.child, RemoveAt(items, k)) && item.next == item.prev == null
  {
    hide After;
    hide Before;
    SkipForward(item, item == parent.child, items, k);
    SkipBackward(item, items, k);
    SkipAtEnds(parent, item, items, k);
    Unlink(parent, item, items, k);
  }

  method Unlink(parent: Item, item: Item, ghost items: seq<Item>, ghost k: nat)
    requires Distinct(items) && k < |items| && items[k] == item && parent !in items
    requires parent.child == if k == 0 then After(items, 0) else items[0]
    requires forall j :: 0 <= j < |items| && j != k ==> items[j].next == After(items, if j + 1 == k then k else j)
    requires forall j :: 0 <= j < |items| && j != k ==>
               items[j].prev == Before(items, if j == k + 1 || (j == 0 && k == |items| - 1) then k else j)
    modifies item`next, item`prev
    ensures Linked(parent.child, RemoveAt(items, k)) && item.next == item.prev == null
  {
    hide After;
    hide Before;
    hide Linked;
    item.prev := null;
    item.next := null;
    DetachLinked(parent.child, items, k);
  }

  lemma {:induction false} Removed(items: seq<Item>, k: nat)
    requires Distinct(items) && k < |items|
    ensures var z := RemoveAt(items, k);
            && Distinct(z) && |z| == |items| - 1 && forall i :: 0 <= i < |z| ==>
                z[i] == items[if i < k then i else i + 1]
  {
  }

  lemma {:induction false} DetachLinked(head: Item?, items: seq<Item>, k: nat)
    requires Distinct(items) && k < |items|
    requires head == if k == 0 then After(items, 0) else items[0]
    requires forall j :: 0 <= j < |items| && j != k ==> items[j].next == After(items, if j + 1 == k then k else j)
    requires forall j :: 0 <= j < |items| && j != k ==>
               items[j].prev == Before(items, if j == k + 1 || (j == 0 && k == |items| - 1) then k else j)
    ensures Linked(head, RemoveAt(items, k))
  {
    hide *;
    var z := RemoveAt(items, k);
    Removed(items, k);
    forall i | 0 <= i < |z| ensures z[i].next == After(z, i) && z[i].prev == Before(z, i) {
      NeighboursRemoved(items, k, i);
    }
    LinkedIs(head, items, k);
  }

  /** The neighbours of what is left are those of the list it is left from, but for the one removed. */
  lemma {:induction false} NeighboursRemoved(items: seq<Item>, k: nat, i: nat)
    requires k < |items| && i < |items| - 1
    ensures var z := RemoveAt(items, k);
            var j := if i < k then i else i + 1;
            && After(z, i) == After(items, if j + 1 == k then k else j)
            && Before(z, i) == Before(items, if j == k + 1 || (j == 0 && k == |items| - 1) then k else j)
  {
  }

  lemma {:induction false} LinkedIs(head: Item?, items: seq<Item>, k: nat)
    requires k < |items| && head == if k == 0 then After(items, 0) else items[0]
    requires var z := RemoveAt(items, k);
             Distinct(z) && forall i :: 0 <= i < |z| ==> z[i].next == After(z, i) && z[i].prev == Before(z, i)
    ensures Linked(head, RemoveAt(items, k))
  {
    hide Distinct;
  }

  /** Put a new item in at an index, or at the end if there are not so many: there its own `next` is not
      cleared. */
  method InsertItemInArray(parent: Item, which: int, newitem: Item, ghost items: seq<Item>) returns (ok: bool)
    requires Linked(parent.child, items) && parent !in items && newitem !in items && newitem != parent
    modifies parent`child, newitem`next, newitem`prev, items`next, items`prev
    ensures ok == (which >= 0)
    ensures which < 0 ==> Linked(parent.child, items)
    ensures 0 <= which < |items| ==> Linked(parent.child, InsertAt(items, which, newitem))
    ensures which >= |items| ==> (Linked(parent.child, items + [newitem]) <==> items == [] || old(newitem.next) == null)
  {
    if which < 0 {
      return false;
    }
    var afterInserted := GetArrayItem(parent, which, items);
    if afterInserted == null {
      ok := AddItemToArray(parent, newitem, items);
      return;
    }
    InsertBefore(parent, afterInserted, newitem, items, which);
    return true;
  }

  method InsertBefore(parent: Item, afterInserted: Item, newitem: Item, ghost items: seq<Item>, ghost k: nat)
    requires Linked(parent.child, items) && parent !in items && newitem !in items && newitem != parent
    requires k < |items| && items[k] == afterInserted
    modifies parent`child, newitem`next, newitem`prev, items`next, items`prev
    ensures Linked(parent.child, InsertAt(items, k, newitem))
  {
    newitem.next := afterInserted;
    newitem.prev := afterInserted.prev;
    afterInserted.prev := newitem;
    if afterInserted == parent.child {
      parent.child := newitem;
    } else {
      newitem.prev.next := newitem;
    }
    InsertLinked(parent.child, items, k, newitem);
  }

  lemma {:induction false} Inserted(items: seq<Item>, k: nat, item: Item)
    requires Distinct(items) && k <= |items| && item !in items
    ensures var z := InsertAt(items, k, item);
            && Distinct(z) && |z| == |items| + 1 && z[k] == item
            && (forall i :: 0 <= i < k ==> z[i] == items[i]) && forall i :: k < i < |z| ==> z[i] == items[i - 1]
  {
  }

  lemma {:induction false} InsertLinked(head: Item?, items: seq<Item>, k: nat, item: Item)
    requires Distinct(items) && k < |items| && item !in items
    requires head == if k == 0 then item else items[0]
    requires item.next == items[k] && item.prev == Before(items, k)
    requires forall j :: 0 <= j < |items| ==> items[j].next == if j + 1 == k then item else After(items, j)
    requires forall j :: 0 <= j < |items| ==> items[j].prev == if j == k then item else Before(items, j)
    ensures Linked(head, InsertAt(items, k, item))
  {
    hide InsertAt;
    hide Distinct;
    var z := InsertAt(items, k, item);
    Inserted(items, k, item);
    forall i | 0 <= i < |z| ensures z[i].next == After(z, i) && z[i].prev == Before(z, i) {
      assert z[i] == if i < k then items[i] else if i == k then item else items[i - 1];
    }
  }

  /** Put another item in an item's place. */
  method ReplaceItemViaPointer(parent: Item, item: Item, replacement: Item, ghost items: seq<Item>, ghost k: nat)
    requires Linked(parent.child, items) && parent !in items && k < |items| && items[k] == item
    requires replacement == item || (replacement !in items && replacement != parent)
    modifies parent`child, replacement`next, replacement`prev, items`next, items`prev
    ensures Linked(parent.child, items[k := replacement])
    ensures replacement != item ==> item.next == item.prev == null
  {
    hide After;
    hide Before;
    if replacement == item {
      assert items[k := replacement] == items;
      return;
    }
    PutInPlace(parent, item, replacement, items, k);
    item.next := null;
    item.prev := null;
    ReplaceLinked(parent.child, items, k, replacement);
  }

  method PutInPlace(parent: Item, item: Item, replacement: Item, ghost items: seq<Item>, ghost k: nat)
    requires Linked(parent.child, items) && parent !in items && k < |items| && items[k] == item
    requires replacement !in items && replacement != parent
    modifies parent`child, replacement`next, replacement`prev, items`next, items`prev
    ensures parent.child == if k == 0 then replacement else items[0]
    ensures replacement.next == After(items, k)
    ensures replacement.prev == if |items| == 1 then replacement else Before(items, k)
    ensures forall j :: 0 <= j < |items| && j != k ==>
            items[j].next == if j + 1 == k then replacement else After(items, j)
    ensures forall j :: 0 <= j < |items| && j != k ==>
              items[j].prev == if j == k + 1 || (j == 0 && k == |items| - 1) then replacement else Before(items, j)
  {
    hide After;
    hide Before;
    LinksAt(items, k);
    LinksAt(items, 0);
    replacement.next := item.next;
    replacement.prev := item.prev;
    if replacement.next != null {
      replacement.next.prev := replacement;
    }
    assert forall j :: 0 <= j < |items| ==> items[j].prev == if j == k + 1 then replacement else Before(items, j);
    if parent.child == item {
      if parent.child.prev == parent.child {
        replacement.prev := replacement;
      }
      parent.child := replacement;
    } else {
      if replacement.prev != null {
        replacement.prev.next := replacement;
      }
      if replacement.next == null {
        parent.child.prev := replacement;
      }
    }
  }

  lemma {:induction false} ReplaceLinked(head: Item?, items: seq<Item>, k: nat, item: Item)
    requires Distinct(items) && k < |items| && item !in items
    requires head == if k == 0 then item else items[0]
    requires item.next == After(items, k) && item.prev == if |items| == 1 then item else Before(items, k)
    requires forall j :: 0 <= j < |items| && j != k ==> items[j].next == if j + 1 == k then item else After(items, j)
    requires forall j :: 0 <= j < |items| && j != k ==>
               items[j].prev == if j == k + 1 || (j == 0 && k == |items| - 1) then item else Before(items, j)
    ensures Linked(head, items[k := item])
  {
    var z := items[k := item];
    forall i | 0 <= i < |z| ensures z[i].next == After(z, i) && z[i].prev == Before(z, i) {
      if i != k { assert z[i] == items[i]; }
    }
  }
}
