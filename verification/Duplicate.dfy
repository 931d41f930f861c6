/**
 `cJSON_Duplicate`: a deep copy in fresh blocks, refused exactly when items are nested more
 than 10000 deep, and without a trace if it fails.
 */
module Duplicate {
  import opened Basics
  import opened JsonText
  import opened Ownership
  import Compare

  const CIRCULAR_LIMIT: nat := 10000

  /** Generations of items below an item. */
  function Generations(body: Body): nat {
    match body
    case Children(_, cells) => if cells.End? then 0 else 1 + CellsGenerations(cells)
    case _ => 0
  }

  function CellsGenerations(cells: Cells): nat {
    match cells
    case End => 0
    case Link(c, next) => Max(Generations(c.body), CellsGenerations(next))
  }

  /** As many as the containers are nested, less one where the innermost are empty. */
  lemma {:induction false} GenerationsAreNesting(body: Body)
    ensures Generations(body) <= Depth(ToJson(body)) <= Generations(body) + 1
    ensures body.Children? && body.cells.Link? ==> Generations(body) >= 1
    decreases body
  {
    match body
    case Children(isObject, cells) =>
      CellsNesting(cells);
      if cells.End? { assert ToJson(body) == if isObject then Obj(MNil) else Arr(INil); }
    case _ =>
  }

  lemma {:induction false} CellsNesting(cells: Cells)
    ensures CellsGenerations(cells) <= ItemsDepth(ToItems(cells)) <= CellsGenerations(cells) + 1
    ensures CellsGenerations(cells) <= MembersDepth(ToMembers(cells)) <= CellsGenerations(cells) + 1
    ensures cells.End? ==> ItemsDepth(ToItems(cells)) == MembersDepth(ToMembers(cells)) == 0
    decreases cells
  {
    match cells
    case End =>
    case Link(c, next) =>
      GenerationsAreNesting(c.body);
      CellsNesting(next);
  }

  /** `d` is what `c` is, but for its blocks; it owns what it refers to, and a constant key is shared. */
  ghost predicate CopyOf(d: Cell, c: Cell) {
    && !d.isReference && d.keyIsConst == c.keyIsConst
    && (c.keyIsConst ==> d.key == c.key)
    && d.key.Some? == c.key.Some? && KeyText(d) == KeyText(c)
    && CopyOfBody(d.body, c.body)
  }

  ghost predicate CopyOfBody(d: Body, c: Body) {
    match (d, c)
    case (Nothing, Nothing) => true
    case (Leaf(v), Leaf(w)) => v == w
    case (Text(x, s), Text(y, t)) => x == y && s.text == t.text
    case (Children(x, ds), Children(y, cs)) => x == y && CopyOfCells(ds, cs)
    case _ => false
  }

  ghost predicate CopyOfCells(ds: Cells, cs: Cells) {
    match (ds, cs)
    case (End, End) => true
    case (Link(d, ds'), Link(c, cs')) => CopyOf(d, c) && CopyOfCells(ds', cs')
    case _ => false
  }

  /** A copy is the same JSON tree. */
  lemma {:induction false} CopyIsEqual(d: Body, c: Body)
    requires CopyOfBody(d, c)
    ensures ToJson(d) == ToJson(c)
    decreases c
  {
    match c
    case Children(_, cells) => CopiesAreEqual(d.cells, cells);
    case _ =>
  }

  /** So a copy compares equal to its source if and only if the source is consistent. */
  lemma CopyComparesEqual(d: Cell, c: Cell, caseSensitive: bool)
    requires CopyOf(d, c) && Compare.IntTree(ToJson(c.body))
    ensures Compare.CompareTrees(ToJson(d.body), ToJson(c.body), caseSensitive)
       <==> Compare.Consistent(ToJson(c.body), caseSensitive)
  {
    CopyIsEqual(d.body, c.body);
    Compare.CompareDecides(ToJson(c.body), ToJson(c.body), caseSensitive);
  }

  lemma {:induction false} CopiesAreEqual(ds: Cells, cs: Cells)
    requires CopyOfCells(ds, cs)
    ensures ToItems(ds) == ToItems(cs) && ToMembers(ds) == ToMembers(cs)
    decreases cs
  {
    match cs
    case End =>
    case Link(c, next) =>
      CopyIsEqual(ds.cell.body, c.body);
      CopiesAreEqual(ds.next, next);
  }

  lemma {:induction false} CopyAppend(ds: Cells, cs: Cells, d: Cell, c: Cell)
    requires CopyOfCells(ds, cs) && CopyOf(d, c)
    ensures CopyOfCells(Append(ds, d), Append(cs, c))
    decreases cs
  {
    match cs
    case End =>
    case Link(_, next) => CopyAppend(ds.next, next, d, c);
  }

  /** `cells` is `front` and then `back`. */
  function Join(front: Cells, back: Cells): Cells {
    match front
    case End => back
    case Link(c, next) => Link(c, Join(next, back))
  }

  lemma {:induction false} JoinMoves(front: Cells, c: Cell, back: Cells)
    ensures Join(Append(front, c), back) == Join(front, Link(c, back))
  {
    match front
    case End =>
    case Link(_, next) => JoinMoves(next, c, back);
  }

  lemma {:induction false} JoinNothing(front: Cells)
    ensures Join(front, End) == front
  {
    match front
    case End =>
    case Link(_, next) => JoinNothing(next);
  }

  /** An item of `c`'s type whose strings have been copied and whose children have not. */
  ghost predicate CopyWithoutChildren(d: Cell, c: Cell) {
    && !d.isReference && d.keyIsConst == c.keyIsConst
    && (c.keyIsConst ==> d.key == c.key)
    && d.key.Some? == c.key.Some? && KeyText(d) == KeyText(c)
    && (if c.body.Children? then d.body == Children(c.body.isObject, End) else CopyOfBody(d.body, c.body))
  }

  lemma OwnedWithChildren(d: Cell, cells: Cells)
    requires !d.isReference && d.body.Children? && d.body.cells.End?
    ensures Owned(d.(body := Children(d.body.isObject, cells))) == Owned(d) + OwnedCells(cells)
  {
    var e := d.(body := Children(d.body.isObject, cells));
    Parts(d);
    Parts(e);
  }

  /** `cJSON_Duplicate_rec` */
  method DuplicateRec(heap: Heap, c: Cell, depth: nat, recurse: bool) returns (copy: Option<Cell>)
    requires heap.Valid() && depth <= CIRCULAR_LIMIT
    modifies heap
    ensures heap.Valid() && heap.failures >= old(heap.failures)
    ensures copy.Some? ==> heap.failures == old(heap.failures)
    ensures copy.None? ==> heap.live == old(heap.live)
    ensures copy.Some? ==> heap.live == old(heap.live) + Owned(copy.value)
    ensures copy.Some? ==> if recurse then CopyOf(copy.value, c) else CopyWithoutChildren(copy.value, c)
    ensures copy.Some? && recurse ==> depth + Generations(c.body) <= CIRCULAR_LIMIT
    ensures copy.None? ==>
              heap.failures > old(heap.failures) || (recurse && depth + Generations(c.body) > CIRCULAR_LIMIT)
    decreases c, 2
  {
    hide Owned, OwnedCells, CopyOf, CopyOfBody, CellsGenerations, Heap.Valid;
    ghost var before := heap.live;
    var filled, d := CopyItem(heap, c);
    if d.None? { return None; }
    Cancel(before, Owned(d.value));
    if !filled {
      heap.DeleteItem(d.value);
      return None;
    }
    LeafCopied(d.value, c);
    if !recurse || !c.body.Children? || c.body.cells.End? { return d; }
    copy := DuplicateChildren(heap, d.value, c, depth, before);
  }

  lemma LeafCopied(d: Cell, c: Cell)
    requires CopyWithoutChildren(d, c)
    ensures !c.body.Children? || c.body.cells.End? ==> CopyOf(d, c) && Generations(c.body) == 0
  {
  }

  /** The new item with its own strings; what has been allocated when that fails halfway is in it too. */
  method CopyItem(heap: Heap, c: Cell) returns (filled: bool, d: Option<Cell>)
    requires heap.Valid()
    modifies heap
    ensures heap.Valid() && heap.failures >= old(heap.failures)
    ensures d.None? ==> heap.live == old(heap.live) && heap.failures > old(heap.failures)
    ensures d.Some? ==> heap.live == old(heap.live) + Owned(d.value)
    ensures d.Some? ==> (filled <==> heap.failures == old(heap.failures))
    ensures d.Some? && filled ==> CopyWithoutChildren(d.value, c)
  {
    hide Owned, OwnedBody, OwnedKey, Heap.Valid;
    filled := false;
    var at := heap.Allocate();
    if at.None? { return false, None; }
    d := Some(Cell(at.value, false, c.keyIsConst, None, Nothing));
    OwnedBare(at.value, c.keyIsConst);
    match c.body {
      case Text(raw, b) =>
        var copy := heap.Allocate();
        if copy.None? { return; }
        d := Some(d.value.(body := Text(raw, Buffer(copy.value, b.text))));
        OwnedText(at.value, c.keyIsConst, raw, Buffer(copy.value, b.text));
        Grouping(old(heap.live), multiset{at.value}, multiset{copy.value});
      case Children(isObject, _) =>
        d := Some(d.value.(body := Children(isObject, End)));
        OwnedEmpty(at.value, c.keyIsConst, isObject);
      case _ =>
        d := Some(d.value.(body := c.body));
        OwnedLeaf(at.value, c.keyIsConst, c.body);
    }
    filled, d := CopyKey(heap, c, d.value, old(heap.live));
  }

  method CopyKey(heap: Heap, c: Cell, bare: Cell, ghost before: multiset<block>) returns (filled: bool, d: Option<Cell>)
    requires heap.Valid() && heap.live == before + Owned(bare)
    requires bare.key.None? && bare.keyIsConst == c.keyIsConst && !bare.isReference
    modifies heap
    ensures heap.Valid() && heap.failures >= old(heap.failures)
    ensures if filled then heap.failures == old(heap.failures) else heap.failures > old(heap.failures)
    ensures d.Some? && heap.live == before + Owned(d.value) && d.value.body == bare.body && !d.value.isReference
    ensures filled ==> && d.value.keyIsConst == c.keyIsConst && (c.keyIsConst ==> d.value.key == c.key)
                       && d.value.key.Some? == c.key.Some? && KeyText(d.value) == KeyText(c)
  {
    hide Owned, OwnedBody, OwnedKey, Heap.Valid;
    d, filled := Some(bare), true;
    if c.key.Some? {
      if c.keyIsConst {
        OwnedSharedKey(bare, c.key.value);
        d := Some(bare.(key := c.key));
      } else {
        var copy := heap.Allocate();
        if copy.None? { return false, d; }
        OwnedOwnKey(bare, Buffer(copy.value, c.key.value.text));
        Grouping(before, Owned(bare), multiset{copy.value});
        d := Some(bare.(key := Some(Buffer(copy.value, c.key.value.text))));
      }
    }
  }

  lemma Grouping(x: multiset<block>, a: multiset<block>, b: multiset<block>)
    ensures x + (a + b) == x + a + b
  {
  }

  lemma OwnedBare(at: block, constant: bool)
    ensures Owned(Cell(at, false, constant, None, Nothing)) == multiset{at}
  {
    Parts(Cell(at, false, constant, None, Nothing));
  }

  lemma OwnedText(at: block, constant: bool, raw: bool, b: Buffer)
    ensures Owned(Cell(at, false, constant, None, Text(raw, b))) == multiset{at} + multiset{b.at}
  {
    Parts(Cell(at, false, constant, None, Text(raw, b)));
  }

  lemma OwnedEmpty(at: block, constant: bool, isObject: bool)
    ensures Owned(Cell(at, false, constant, None, Children(isObject, End))) == multiset{at}
  {
    Parts(Cell(at, false, constant, None, Children(isObject, End)));
  }

  lemma OwnedLeaf(at: block, constant: bool, body: Body)
    requires body.Nothing? || body.Leaf?
    ensures Owned(Cell(at, false, constant, None, body)) == multiset{at}
  {
    Parts(Cell(at, false, constant, None, body));
  }

  lemma OwnedSharedKey(d: Cell, key: Buffer)
    requires d.keyIsConst
    ensures Owned(d.(key := Some(key))) == Owned(d)
  {
  }

  lemma OwnedOwnKey(d: Cell, key: Buffer)
    requires !d.keyIsConst && d.key.None?
    ensures Owned(d.(key := Some(key))) == Owned(d) + multiset{key.at}
  {
  }

  /** The loop over the children. */
  method DuplicateChildren(heap: Heap, d: Cell, c: Cell, depth: nat, ghost before: multiset<block>)
    returns (copy: Option<Cell>)
    requires heap.Valid() && depth <= CIRCULAR_LIMIT
    requires CopyWithoutChildren(d, c) && c.body.Children? && c.body.cells.Link?
    requires heap.live == before + Owned(d)
    modifies heap
    ensures heap.Valid() && heap.failures >= old(heap.failures)
    ensures copy.Some? ==> heap.failures == old(heap.failures)
    ensures copy.None? ==> heap.live == before
    ensures copy.Some? ==> heap.live == before + Owned(copy.value) && CopyOf(copy.value, c)
    ensures copy.Some? ==> depth + Generations(c.body) <= CIRCULAR_LIMIT
    ensures copy.None? ==> heap.failures > old(heap.failures) || depth + Generations(c.body) > CIRCULAR_LIMIT
    decreases c, 1
  {
    hide Owned, OwnedCells, Holds, CopyOfCells, CellsGenerations, Append, Join, Heap.Valid;
    ghost var base := heap.live;
    var children, child := End, c.body.cells;
    ghost var done := End;
    HoldsNone(base);
    NothingDone(child);
    while child.Link?
      invariant heap.Valid() && heap.failures == old(heap.failures)
      invariant Holds(heap.live, base, children)
      invariant Join(done, child) == c.body.cells && CopyOfCells(children, done)
      invariant done.Link? ==> depth + 1 + CellsGenerations(done) <= CIRCULAR_LIMIT
      invariant done.End? ==> child == c.body.cells
      invariant child == c.body.cells || child < c.body.cells
      decreases child
    {
      ghost var live := heap.live;
      var newchild := None;
      if depth < CIRCULAR_LIMIT {
        newchild := DuplicateRec(heap, child.cell, depth + 1, true);
      }
      Deeper(done, child, c.body);
      if newchild.None? {
        WithChildren(heap.live, base, children, d, before);
        heap.DeleteItem(d.(body := Children(d.body.isObject, children)));
        return None;
      }
      OneMore(live, heap.live, base, children, newchild.value, done, child);
      CopyAppend(children, done, newchild.value, child.cell);
      children, done := Append(children, newchild.value), Append(done, child.cell);
      child := child.next;
    }
    AllDone(done, c.body);
    WithChildren(heap.live, base, children, d, before);
    copy := Some(d.(body := Children(d.body.isObject, children)));
  }

  lemma NothingDone(cells: Cells)
    ensures Join(End, cells) == cells && CopyOfCells(End, End)
  {
  }

  /** The item with the children it has so far. */
  lemma WithChildren(live: multiset<block>, base: multiset<block>, children: Cells, d: Cell, before: multiset<block>)
    requires Holds(live, base, children) && base == before + Owned(d)
    requires !d.isReference && d.body.Children? && d.body.cells.End?
    ensures var e := d.(body := Children(d.body.isObject, children));
            live == before + Owned(e) && live - Owned(e) == before && Owned(e) <= live
  {
    hide Owned, OwnedCells;
    OwnedWithChildren(d, children);
    Grouping(before, Owned(d), OwnedCells(children));
    Cancel(before, Owned(d.(body := Children(d.body.isObject, children))));
  }

  lemma OneMore(live: multiset<block>, live': multiset<block>, base: multiset<block>, children: Cells, d: Cell,
                done: Cells, child: Cells)
    requires Holds(live, base, children) && live' == live + Owned(d) && child.Link?
    ensures Holds(live', base, Append(children, d))
    ensures Join(Append(done, child.cell), child.next) == Join(done, child)
    ensures CellsGenerations(Append(done, child.cell)) == Max(CellsGenerations(done), Generations(child.cell.body))
    ensures Append(done, child.cell).Link?
    ensures CellsGenerations(End) == 0
  {
    hide Owned, OwnedCells;
    OwnedAppend(children, d);
    Grouping(base, OwnedCells(children), Owned(d));
    JoinMoves(done, child.cell, child.next);
    GenerationsAppend(done, child.cell);
  }

  lemma {:induction false} GenerationsAppend(cells: Cells, c: Cell)
    ensures CellsGenerations(Append(cells, c)) == Max(CellsGenerations(cells), Generations(c.body))
  {
    match cells
    case End =>
    case Link(_, next) => GenerationsAppend(next, c);
  }

  lemma {:induction false} GenerationsWithin(front: Cells, back: Cells)
    requires back.Link?
    ensures CellsGenerations(Join(front, back)) >= Generations(back.cell.body) && Join(front, back).Link?
  {
    match front
    case End =>
    case Link(_, next) => GenerationsWithin(next, back);
  }

  lemma Deeper(done: Cells, child: Cells, body: Body)
    requires child.Link? && body.Children? && Join(done, child) == body.cells
    ensures Generations(body) >= 1 + Generations(child.cell.body)
  {
    GenerationsWithin(done, child);
  }

  lemma AllDone(done: Cells, body: Body)
    requires body.Children? && body.cells.Link? && Join(done, End) == body.cells
    ensures done == body.cells && Generations(body) == 1 + CellsGenerations(done)
  {
    JoinNothing(done);
  }
}
