/**
 Trees as they lie in memory: every item is a block, and so is every string it owns.
 The heap counts the blocks that are allocated and not yet freed.
 */
module Ownership {
  import opened Basics
  import opened JsonText

  type block = nat

  datatype Buffer = Buffer(at: block, text: cstring)

  /** The two flags are `cJSON_IsReference` and `cJSON_StringIsConst`. */
  datatype Cell = Cell(at: block, isReference: bool, keyIsConst: bool, key: Option<Buffer>, body: Body)

  type Scalar = v: Json | v.Null? || v.Bool? || v.Num? || v.Real? witness Null

  datatype Body =
    | Nothing               // as `cJSON_New_Item` leaves it
    | Leaf(v: Scalar)
    | Text(raw: bool, buffer: Buffer)
    | Children(isObject: bool, cells: Cells)

  datatype Cells = End | Link(cell: Cell, next: Cells)

  // ---------- what a tree owns ----------

  ghost function Owned(c: Cell): multiset<block>
    decreases c, 1
  {
    multiset{c.at} + OwnedKey(c) + OwnedContent(c)
  }

  ghost function OwnedContent(c: Cell): multiset<block>
    decreases c, 0
  {
    if c.isReference then multiset{} else OwnedBody(c.body)
  }

  ghost function OwnedKey(c: Cell): multiset<block> {
    if c.key.Some? && !c.keyIsConst then multiset{c.key.value.at} else multiset{}
  }

  ghost function OwnedBody(body: Body): multiset<block> {
    match body
    case Text(_, b) => multiset{b.at}
    case Children(_, cells) => OwnedCells(cells)
    case _ => multiset{}
  }

  ghost function OwnedCells(cells: Cells): multiset<block> {
    match cells
    case End => multiset{}
    case Link(c, next) => Owned(c) + OwnedCells(next)
  }

  // ---------- the tree without its blocks ----------

  function ToJson(body: Body): Json {
    match body
    case Nothing => Null
    case Leaf(v) => v
    case Text(raw, b) => if raw then Raw(b.text) else Str(b.text)
    case Children(isObject, cells) => if isObject then Obj(ToMembers(cells)) else Arr(ToItems(cells))
  }

  function ToItems(cells: Cells): Items {
    match cells
    case End => INil
    case Link(c, next) => ICons(ToJson(c.body), ToItems(next))
  }

  function KeyText(c: Cell): cstring { if c.key.Some? then c.key.value.text else [] }

  function ToMembers(cells: Cells): Members {
    match cells
    case End => MNil
    case Link(c, next) => MCons(KeyText(c), ToJson(c.body), ToMembers(next))
  }

  // ---------- appending a sibling ----------

  function Append(cells: Cells, c: Cell): Cells {
    match cells
    case End => Link(c, End)
    case Link(d, next) => Link(d, Append(next, c))
  }

  lemma {:induction false} OwnedAppend(cells: Cells, c: Cell)
    ensures OwnedCells(Append(cells, c)) == OwnedCells(cells) + Owned(c)
  {
    match cells
    case End =>
    case Link(d, next) => OwnedAppend(next, c);
  }

  lemma Cancel(x: multiset<block>, a: multiset<block>)
    ensures (x + a) - a == x && a <= x + a
  {
  }

  lemma Restore(x: multiset<block>, a: multiset<block>)
    requires a <= x
    ensures (x - a) + a == x
  {
  }

  lemma Regroup(x: multiset<block>, a: multiset<block>, b: multiset<block>, c: multiset<block>)
    ensures x + (a + b + c) == x + a + b + c
  {
  }

  lemma Parts(c: Cell)
    ensures Owned(c) == multiset{c.at} + OwnedKey(c) + OwnedContent(c)
    ensures OwnedContent(c) == if c.isReference then multiset{} else if c.body.Children? then OwnedCells(c.body.cells)
                               else if c.body.Text? then multiset{c.body.buffer.at} else multiset{}
  {
  }

  /** An item as the parser makes it. */
  lemma OwnedNew(at: block, key: Option<Buffer>, body: Body)
    ensures Owned(Cell(at, false, false, key, body))
         == multiset{at} + (if key.Some? then multiset{key.value.at} else multiset{}) + OwnedBody(body)
    ensures OwnedBody(Nothing) == multiset{} && OwnedCells(End) == multiset{}
  {
  }

  /** What is live is what was live before and the items of a list built since. */
  ghost predicate Holds(live: multiset<block>, before: multiset<block>, cells: Cells) {
    live == before + OwnedCells(cells)
  }

  lemma HoldsNone(live: multiset<block>)
    ensures Holds(live, live, End)
  {
  }

  lemma HeldList(live: multiset<block>, before: multiset<block>, cells: Cells)
    requires Holds(live, before, cells)
    ensures live == before + OwnedCells(cells)
  {
  }

  lemma HeldOne(c: Cell)
    ensures OwnedCells(Append(End, c)) == Owned(c)
  {
    assert OwnedCells(Link(c, End)) == Owned(c) + OwnedCells(End);
  }

  /** Allocating an item, filling it in if that succeeds, and appending it. */
  lemma AppendNew(live: multiset<block>, before: multiset<block>, head: Cells, at: block, filled: bool, body: Body)
    requires Holds(live, before, head)
    ensures var live' := live + multiset{at};
            Holds(if filled then live' + OwnedBody(body) else live', before,
                  Append(head, Cell(at, false, false, None, if filled then body else Nothing)))
  {
    hide OwnedCells, OwnedBody, Owned;
    var b := if filled then body else Nothing;
    OwnedAppend(head, Cell(at, false, false, None, b));
    OwnedNew(at, None, b);
  }

  /** The same for an item that was filled in step by step. */
  lemma AppendFilled(live: multiset<block>, live': multiset<block>, before: multiset<block>, head: Cells, c: Cell)
    requires Holds(live, before, head)
    requires live' + multiset{c.at} == live + multiset{c.at} + Owned(c)
    ensures Holds(live', before, Append(head, c))
  {
    hide OwnedCells, Owned;
    OwnedAppend(head, c);
    Cancel(live', multiset{c.at});
    Cancel(live + Owned(c), multiset{c.at});
    assert live + multiset{c.at} + Owned(c) == live + Owned(c) + multiset{c.at};
  }

  lemma OwnedChildren(isObject: bool, cells: Cells)
    ensures OwnedBody(Children(isObject, cells)) == OwnedCells(cells)
  {
  }

  lemma Take(live: multiset<block>, rest: multiset<block>, a: multiset<block>, b: multiset<block>)
    requires live == rest + (a + b)
    ensures a <= live && live - a == rest + b
  {
  }

  lemma NoMore(rest: multiset<block>)
    ensures rest + multiset{} == rest
  {
  }

  /** A reference owns nothing of what it refers to, nor a constant key: of such an item only itself is freed. */
  lemma WhatIsSpared(c: Cell)
    ensures c.isReference && (c.keyIsConst || c.key.None?) ==> Owned(c) == multiset{c.at}
    ensures c.isReference && !c.keyIsConst && c.key.Some? ==> Owned(c) == multiset{c.at} + multiset{c.key.value.at}
    ensures !c.isReference && (c.keyIsConst || c.key.None?) && c.body.Text? ==>
              Owned(c) == multiset{c.at} + multiset{c.body.buffer.at}
    ensures !c.isReference && (c.keyIsConst || c.key.None?) && c.body.Children? ==>
              Owned(c) == multiset{c.at} + OwnedCells(c.body.cells)
    ensures !c.isReference && !c.keyIsConst && c.key.Some? ==>
              Owned(c) == Owned(c.(key := None)) + multiset{c.key.value.at}
  {
    var bare := c.(key := None);
    Parts(c);
    Parts(bare);
    Swapped(multiset{c.at}, OwnedKey(c), OwnedContent(c));
    Swapped(multiset{c.at}, OwnedKey(bare), OwnedContent(bare));
    assert OwnedContent(c) == OwnedContent(bare);
  }

  lemma Swapped(x: multiset<block>, a: multiset<block>, b: multiset<block>)
    ensures x + a + b == x + b + a
    ensures a == multiset{} ==> x + a + b == x + b
    ensures b == multiset{} ==> x + a + b == x + a
  {
  }

  lemma OwnedParts(cells: Cells)
    ensures OwnedCells(cells) == if cells.Link? then Owned(cells.cell) + OwnedCells(cells.next) else multiset{}
  {
  }

  // ---------- the heap ----------

  class Heap {
    var live: multiset<block>
    var next: block
    ghost var failures: nat   // how often an allocation has failed so far

    ghost predicate Valid()
      reads this
    {
      forall b :: b in live ==> live[b] == 1 && b < next
    }

    constructor ()
      ensures Valid() && live == multiset{} && failures == 0
    {
      live, next, failures := multiset{}, 0, 0;
    }

    /** Fails whenever it likes. */
    method Allocate() returns (b: Option<block>)
      requires Valid()
      modifies this
      ensures Valid()
      ensures b.None? ==> live == old(live) && failures == old(failures) + 1
      ensures b.Some? ==>
                b.value !in old(live) && live == old(live) + multiset{b.value} && failures == old(failures)
    {
      if * {
        b, failures := None, failures + 1;
      } else {
        b, live, next := Some(next), live + multiset{next}, next + 1;
      }
    }

    /** Only what is live can be freed, so nothing is freed twice. */
    method Free(b: block)
      requires Valid() && b in live
      modifies this
      ensures Valid() && live == old(live) - multiset{b} && failures == old(failures)
    {
      live := live - multiset{b};
    }

    /** `cJSON_Delete`: the item and its siblings after it. */
    method Delete(cells: Cells)
      requires Valid() && OwnedCells(cells) <= live
      modifies this
      ensures Valid() && live == old(live) - OwnedCells(cells) && failures == old(failures)
      decreases cells
    {
      hide *;
      var item := cells;
      ghost var rest := live - OwnedCells(cells);
      Restore(live, OwnedCells(cells));
      while item.Link?
        invariant Valid() && live == rest + OwnedCells(item) && failures == old(failures)
        invariant item == cells || item < cells
        decreases item
      {
        OwnedParts(item);
        Take(live, rest, Owned(item.cell), OwnedCells(item.next));
        DeleteItem(item.cell);
        item := item.next;
      }
      OwnedParts(item);
      NoMore(rest);
    }

    /** Giving up a list that was built since `before`. */
    method DeleteList(cells: Cells, ghost before: multiset<block>)
      requires Valid() && Holds(live, before, cells)
      modifies this
      ensures Valid() && live == before && failures == old(failures)
    {
      Cancel(before, OwnedCells(cells));
      Delete(cells);
    }

    /** One round of its loop. */
    method DeleteItem(c: Cell)
      requires Valid() && Owned(c) <= live
      modifies this
      ensures Valid() && live == old(live) - Owned(c) && failures == old(failures)
      decreases c, 1
    {
      hide *;
      ghost var rest := live - Owned(c);
      Parts(c);
      Restore(live, Owned(c));
      assert live == rest + multiset{c.at} + OwnedKey(c) + OwnedContent(c) by {
        Regroup(rest, multiset{c.at}, OwnedKey(c), OwnedContent(c));
      }
      Cancel(rest + multiset{c.at} + OwnedKey(c), OwnedContent(c));
      DeleteContent(c);
      Cancel(rest + multiset{c.at}, OwnedKey(c));
      DeleteKey(c);
      Cancel(rest, multiset{c.at});
      Free(c.at);
    }

    method DeleteContent(c: Cell)
      requires Valid() && OwnedContent(c) <= live
      modifies this
      ensures Valid() && live == old(live) - OwnedContent(c) && failures == old(failures)
      decreases c, 0
    {
      if !c.isReference && c.body.Children? {
        Delete(c.body.cells);
      }
      if !c.isReference && c.body.Text? {
        Free(c.body.buffer.at);
      }
    }

    method DeleteKey(c: Cell)
      requires Valid() && OwnedKey(c) <= live
      modifies this
      ensures Valid() && live == old(live) - OwnedKey(c) && failures == old(failures)
    {
      if !c.keyIsConst && c.key.Some? {
        Free(c.key.value.at);
      }
    }
  }
}
