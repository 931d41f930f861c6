/**
 The chain of an item's children: `next` runs forward and ends in null, `prev` runs backward,
 and the first child's `prev` is the last child. Adding, inserting, detaching and replacing
 act on that chain as the like operations on a sequence.
 */
module Siblings {

  class Item {
    var next: Item?
    var prev: Item?
    var child: Item?

    constructor ()
      ensures next == null && prev == null && child == null
    {
      next, prev, child := null, null, null;
    }
  }

  /** The links of the `i`-th of a chain of siblings. */
  ghost predicate Linked(s: seq<Item>, i: nat)
    requires i < |s|
    reads s[i]
  {
    && s[i].prev == (if i == 0 then s[|s| - 1] else s[i - 1])
    && s[i].next == (if i + 1 < |s| then s[i + 1] else null)
  }

  ghost predicate Distinct(s: seq<Item>) {
    forall i, j :: 0 <= i < j < |s| ==> s[i] != s[j]
  }

  /** The children of `parent` are `s`, in that order. */
  ghost predicate Children(parent: Item, s: seq<Item>)
    reads parent, s
  {
    && parent !in s && Distinct(s)
    && parent.child == (if s == [] then null else s[0])
    && forall i :: 0 <= i < |s| ==> Linked(s, i)
  }

  /** The two ends of a chain, which adding an item writes to. */
  ghost function Ends(s: seq<Item>): set<Item> {
    if s == [] then {} else {s[0], s[|s| - 1]}
  }

  /** `add_item_to_array`: behind other items it takes over what the item has for a next one. */
  method AddItemToArray(parent: Item?, item: Item?, ghost s: seq<Item>) returns (ok: bool)
    requires parent != null ==> Children(parent, s)
    requires parent != null && item != null && parent != item ==> item !in s
    modifies parent, item, Ends(s)
    ensures ok <==> parent != null && item != null && parent != item
    ensures ok ==> (Children(parent, s + [item]) <==> s == [] || old(item.next) == null)
    ensures !ok && parent != null ==> Children(parent, s)
    ensures ok ==> item.child == old(item.child)
    ensures forall x :: x in s ==> x.child == old(x.child)
  {
    if item == null || parent == null || parent == item { return false; }
    ghost var t := s + [item];
    if s != [] {
      assert Linked(s, 0) && Linked(s, |s| - 1);
    }
    var child := parent.child;
    if child == null {
      parent.child := item;
      item.prev := item;
      item.next := null;
    } else if child.prev != null {
      child.prev.next := item;
      item.prev := child.prev;
      parent.child.prev := item;
    }
    forall i | 0 <= i < |t| && (i < |s| || s == [] || old(item.next) == null) ensures Linked(t, i) {
      if i < |s| { assert old(Linked(s, i)); }
    }
    assert t[|s|] == item && (Linked(t, |s|) ==> item.next == null);
    ok := true;
  }

  /** `get_array_item`: the item at `index`, or null behind the end. */
  method GetArrayItem(parent: Item, index: nat, ghost s: seq<Item>) returns (item: Item?)
    requires Children(parent, s)
    ensures item == if index < |s| then s[index] else null
  {
    var current, left := parent.child, index;
    while current != null && left > 0
      invariant 0 <= left <= index
      invariant if index - left < |s| then current == s[index - left] else current == null
      decreases left
    {
      assert Linked(s, index - left);
      left, current := left - 1, current.next;
    }
    item := current;
  }

  /** `cJSON_DetachItemViaPointer`, for the `k`-th child or an item that is detached already. */
  method DetachItem(parent: Item?, item: Item?, ghost s: seq<Item>, ghost k: nat) returns (detached: Item?)
    requires parent != null ==> Children(parent, s)
    requires parent != null && item != null ==> (k < |s| && item == s[k]) || (item !in s && item.prev == null)
    modifies parent, s
    ensures detached == if parent == null || item == null || item !in s then null else item
    ensures detached != null ==> k < |s| && Children(parent, s[..k] + s[k + 1..])
    ensures detached != null ==> detached.prev == null && detached.next == null
    ensures detached == null && parent != null ==> Children(parent, s)
    ensures forall x :: x in s ==> x.child == old(x.child)
  {
    if parent == null || item == null { return null; }
    assert k < |s| && item == s[k] ==> Linked(s, k);
    if item != parent.child && item.prev == null { return null; }
    ghost var t := s[..k] + s[k + 1..];
    assert Linked(s, k) && Linked(s, 0) && Linked(s, |s| - 1);
    if item != parent.child {
      item.prev.next := item.next;
    }
    if item.next != null {
      item.next.prev := item.prev;
    }
    if item == parent.child {
      parent.child := item.next;
    } else if item.next == null {
      parent.child.prev := item.prev;
    }
    item.prev := null;
    item.next := null;
    forall i | 0 <= i < |t| ensures Linked(t, i) {
      assert old(Linked(s, if i < k then i else i + 1));
    }
    detached := item;
  }

  /** `cJSON_InsertItemInArray`: before the item at `which`, or at the end. */
  method InsertItemInArray(parent: Item, which: int, newitem: Item?, ghost s: seq<Item>) returns (ok: bool)
    requires Children(parent, s)
    requires newitem != null ==> newitem !in s && newitem != parent
    modifies parent, newitem, s
    ensures ok <==> which >= 0 && newitem != null
    ensures ok ==>
              var k := if which < |s| then which else |s|;
              Children(parent, s[..k] + [newitem] + s[k..]) <==> k < |s| || s == [] || old(newitem.next) == null
    ensures !ok ==> Children(parent, s)
    ensures forall x :: x in s ==> x.child == old(x.child)
  {
    if which < 0 || newitem == null { return false; }
    var after := GetArrayItem(parent, which, s);
    if after == null {
      assert s[..|s|] + [newitem] + s[|s|..] == s + [newitem];
      ok := AddItemToArray(parent, newitem, s);
      return;
    }
    ghost var t := s[..which] + [newitem] + s[which..];
    assert Linked(s, which);
    newitem.next := after;
    newitem.prev := after.prev;
    after.prev := newitem;
    if after == parent.child {
      parent.child := newitem;
    } else {
      newitem.prev.next := newitem;
    }
    forall i | 0 <= i < |t| ensures Linked(t, i) {
      if i != which { assert old(Linked(s, if i < which then i else i - 1)); }
    }
    ok := true;
  }

  /** `cJSON_ReplaceItemViaPointer` for the `k`-th child, which is unlinked and handed to `cJSON_Delete`. */
  method ReplaceItem(parent: Item?, item: Item?, replacement: Item?, ghost s: seq<Item>, ghost k: nat)
    returns (ok: bool, deleted: Item?)
    requires parent != null ==> Children(parent, s)
    requires parent != null && item != null && s != [] ==> k < |s| && item == s[k]
    requires parent != null && replacement != null && replacement != item ==> replacement !in s && replacement != parent
    modifies parent, replacement, s
    ensures ok <==> parent != null && s != [] && item != null && replacement != null
    ensures deleted == if ok && replacement != item then item else null
    ensures ok ==> k < |s| && Children(parent, s[k := replacement])
    ensures deleted != null ==> deleted.prev == null && deleted.next == null
    ensures !ok && parent != null ==> Children(parent, s)
    ensures forall x :: x in s ==> x.child == old(x.child)
  {
    ok, deleted := false, null;
    if parent == null || parent.child == null || replacement == null || item == null { return; }
    if replacement == item {
      assert s[k := replacement] == s;
      return true, null;
    }
    ghost var t := s[k := replacement];
    assert Linked(s, k) && Linked(s, 0) && Linked(s, |s| - 1);
    replacement.next := item.next;
    replacement.prev := item.prev;
    if replacement.next != null {
      replacement.next.prev := replacement;
    }
    if parent.child == item {
      if parent.child.prev == parent.child {
        replacement.prev := replacement;
      }
      parent.child := replacement;
    } else {
      if replacement.prev != null {
        replacement.prev.next := replacement;
      }
      if replacement.next == null {
        parent.child.prev := replacement;
      }
    }
    item.next := null;
    item.prev := null;
    forall i | 0 <= i < |t| ensures Linked(t, i) {
      assert old(Linked(s, i));
    }
    ok, deleted := true, item;
  }

  /**
   How `parse_array`, `parse_object` and `cJSON_Duplicate_rec` link the children that they make
   one by one: each new item to the one before it, and last of all the first to the last.
   */
  method LinkChildren(parent: Item, items: seq<Item>)
    requires parent !in items && Distinct(items) && forall x :: x in items ==> x.next == null
    modifies parent, items
    ensures Children(parent, items)
    ensures forall x :: x in items ==> x.child == old(x.child)
  {
    var head: Item?, current: Item? := null, null;
    for i := 0 to |items|
      invariant forall k :: 0 <= k < |items| && k + 1 >= i ==> items[k].next == null
      invariant forall k :: 0 < k < i ==> items[k - 1].next == items[k] && items[k].prev == items[k - 1]
      invariant head == (if i == 0 then null else items[0]) && current == (if i == 0 then null else items[i - 1])
      invariant forall x :: x in items ==> x.child == old(x.child)
    {
      assert forall k :: 0 <= k < |items| && k != i ==> items[k] != items[i];
      assert i > 0 ==> forall k :: 0 <= k < |items| && k != i - 1 ==> items[k] != items[i - 1];
      head, current := LinkNext(head, current, items[i]);
    }
    if head != null { head.prev := current; }
    parent.child := head;
    assert forall i :: 0 <= i < |items| ==> Linked(items, i);
  }

  method LinkNext(head: Item?, current: Item?, item: Item) returns (head': Item, current': Item)
    requires head == null <==> current == null
    requires current != item
    modifies current, item
    ensures item.next == old(item.next) && item.child == old(item.child)
    ensures current != null ==> current.prev == old(current.prev) && current.child == old(current.child)
    ensures current' == item && head' == if head == null then item else head
    ensures head != null ==> current.next == item && item.prev == current
    ensures head == null ==> item.prev == old(item.prev)
  {
    if head == null { return item, item; }
    current.next := item;
    item.prev := current;
    return head, item;
  }
}
