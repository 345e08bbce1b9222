/** The drag-reorder engine: the rendered list, the live reflow while an item
    is dragged over it, and the position updates sent when the drag ends. */
module Reorder {
  import opened Todos
  import opened Snapshot
  import opened DragTarget

  /** The first index of `x` in `s`, or `|s|` when `x` does not occur. */
  function IndexOf(s: seq<Id>, x: Id): (k: nat)
    ensures k <= |s|
    ensures k < |s| <==> x in s
    ensures k < |s| ==> s[k] == x
  {
    if s == [] then 0 else if s[0] == x then 0 else 1 + IndexOf(s[1..], x)
  }

  lemma {:induction false} WithoutAppend(a: seq<Id>, b: seq<Id>, x: Id)
    ensures Without(a + b, x) == Without(a, x) + Without(b, x)
  {
    if a == [] {
      assert a + b == b;
    } else {
      assert (a + b)[0] == a[0];
      assert (a + b)[1..] == a[1..] + b;
      WithoutAppend(a[1..], b, x);
    }
  }

  lemma {:induction false} WithoutAbsent(s: seq<Id>, x: Id)
    requires x !in s
    ensures Without(s, x) == s
  {
    if s != [] {
      WithoutAbsent(s[1..], x);
    }
  }

  lemma {:induction false} WithoutMultiset(s: seq<Id>, x: Id)
    ensures multiset(Without(s, x)) == multiset(s)[x := 0]
  {
    if s != [] {
      WithoutMultiset(s[1..], x);
      assert s == [s[0]] + s[1..];
    }
  }

  /** The list after the dragover handler moved the dragged item `d`:
      `appendChild(d)` when there is no target, `insertBefore(d, t)` when
      there is one. Both first take `d` out of its current place. */
  function Reflow(children: seq<Id>, d: Id, target: Option<Id>): (r: seq<Id>)
    ensures |r| == |Without(children, d)| + 1 && d in r
  {
    var rest := Without(children, d);
    match target
    case None => rest + [d]
    case Some(t) =>
      var k := IndexOf(rest, t);
      assert (rest[..k] + [d] + rest[k..])[k] == d;
      rest[..k] + [d] + rest[k..]
  }

  lemma WithoutSplice(a: seq<Id>, b: seq<Id>, d: Id)
    requires d !in a && d !in b
    ensures Without(a + [d] + b, d) == a + b
  {
    assert Without([d], d) == [] by {
      assert [d][1..] == [];
    }
    WithoutAppend(a, [d], d);
    WithoutAbsent(a, d);
    assert Without(a + [d], d) == a;
    WithoutAppend(a + [d], b, d);
    WithoutAbsent(b, d);
  }

  /** Every item other than the dragged one keeps its relative order. */
  lemma ReflowKeepsOthersInOrder(children: seq<Id>, d: Id, target: Option<Id>)
    ensures Without(Reflow(children, d, target), d) == Without(children, d)
  {
    var rest := Without(children, d);
    match target {
      case None =>
        WithoutMember(children, d, d);
        assert Reflow(children, d, target) == rest + [d] + [];
        WithoutSplice(rest, [], d);
      case Some(t) =>
        var k := IndexOf(rest, t);
        WithoutMember(children, d, d);
        assert rest == rest[..k] + rest[k..];
        assert d !in rest[..k] && d !in rest[k..] by {
          assert forall x :: x in rest[..k] || x in rest[k..] ==> x in rest;
        }
        WithoutSplice(rest[..k], rest[k..], d);
    }
  }

  /** Moving the dragged item rearranges the list and nothing else. */
  lemma ReflowPermutes(children: seq<Id>, d: Id, target: Option<Id>)
    requires Distinct(children) && d in children
    ensures multiset(Reflow(children, d, target)) == multiset(children)
    ensures Distinct(Reflow(children, d, target))
  {
    var rest := Without(children, d);
    WithoutMultiset(children, d);
    DistinctCount(children, d);
    assert multiset(rest) + multiset{d} == multiset(children);
    match target {
      case None =>
      case Some(t) =>
        var k := IndexOf(rest, t);
        assert rest == rest[..k] + rest[k..];
    }
    DistinctByMultiset(children, Reflow(children, d, target));
  }

  /** `d` is last when there is no target, and immediately in front of the
      target when there is one. */
  predicate PlacedAt(s: seq<Id>, d: Id, target: Option<Id>) {
    match target
    case None => |s| > 0 && s[|s| - 1] == d
    case Some(t) => exists k :: 0 <= k < |s| - 1 && s[k] == d && s[k + 1] == t
  }

  /** With no target the dragged item ends up last; with a target `t` (any
      other item of the list) it ends up immediately in front of `t`. */
  lemma ReflowPlacesDragged(children: seq<Id>, d: Id, target: Option<Id>)
    requires target.Some? ==> target.value in children && target.value != d
    ensures PlacedAt(Reflow(children, d, target), d, target)
  {
    match target
    case None =>
    case Some(t) =>
      var rest := Without(children, d);
      var k := IndexOf(rest, t);
      WithoutMember(children, d, t);
      var r := rest[..k] + [d] + rest[k..];
      assert Reflow(children, d, target) == r;
      assert r[k] == d && r[k + 1] == rest[k];
  }

  /** The three facts above together, for a dragged item of a valid list. */
  lemma ReflowFacts(children: seq<Id>, d: Id, target: Option<Id>)
    requires Distinct(children) && d in children
    requires target.Some? ==> target.value in children && target.value != d
    ensures multiset(Reflow(children, d, target)) == multiset(children)
    ensures Distinct(Reflow(children, d, target)) && d in Reflow(children, d, target)
    ensures Without(Reflow(children, d, target), d) == Without(children, d)
    ensures PlacedAt(Reflow(children, d, target), d, target)
  {
    ReflowPermutes(children, d, target);
    ReflowKeepsOthersInOrder(children, d, target);
    ReflowPlacesDragged(children, d, target);
    assert d in multiset(Reflow(children, d, target));
  }

  /** One `(id, position)` pair per list item, in list order, the position
      being the item's zero-based index (the `map` of `saveTodosOrder`). */
  datatype Placement = Placement(id: Id, position: int)

  function Placements(children: seq<Id>): (r: seq<Placement>)
    ensures |r| == |children|
    ensures forall i :: 0 <= i < |r| ==> r[i].id == children[i] && r[i].position == i
  {
    if children == [] then []
    else
      var n := |children| - 1;
      Placements(children[..n]) + [Placement(children[n], n)]
  }

  /** `sent` holds one position update per item of `order`, in that order,
      each setting the item's position to its index. */
  predicate AssignsIndices(sent: seq<Request>, order: seq<Id>) {
    |sent| == |order| && forall i :: 0 <= i < |sent| ==> sent[i] == PatchPosition(order[i], i)
  }

  /** `saveTodosOrder`: pairs every list item with its index and issues the
      position updates one at a time, strictly in list order. */
  method SaveTodosOrder(children: seq<Id>) returns (sent: seq<Request>)
    ensures AssignsIndices(sent, children)
  {
    var todos := Placements(children);
    sent := [];
    for k := 0 to |todos|
      invariant |sent| == k
      invariant forall i :: 0 <= i < k ==> sent[i] == PatchPosition(children[i], i)
    {
      sent := sent + [PatchPosition(todos[k].id, todos[k].position)];
    }
  }

  /** The position the last update for `id` in `log` asks for, if any. */
  function LastPosition(log: seq<Request>, id: Id): Option<int> {
    if log == [] then None
    else
      var last := log[|log| - 1];
      if last.PatchPosition? && last.id == id then Some(last.position)
      else LastPosition(log[..|log| - 1], id)
  }

  lemma {:induction false} LastPositionSkips(log: seq<Request>, tail: seq<Request>, id: Id)
    requires forall i :: 0 <= i < |tail| ==> !(tail[i].PatchPosition? && tail[i].id == id)
    ensures LastPosition(log + tail, id) == LastPosition(log, id)
    decreases |tail|
  {
    if tail == [] {
      assert log + tail == log;
    } else {
      var n := |tail| - 1;
      assert (log + tail)[..|log + tail| - 1] == log + tail[..n];
      LastPositionSkips(log, tail[..n], id);
    }
  }

  /** Whatever was sent before, once the updates of a drop have been sent
      the last update for every item asks for the item's index. */
  lemma PersistedPositions(before: seq<Request>, sent: seq<Request>, order: seq<Id>)
    requires AssignsIndices(sent, order) && Distinct(order)
    ensures forall i :: 0 <= i < |order| ==> LastPosition(before + sent, order[i]) == Some(i)
  {
    forall i | 0 <= i < |order| ensures LastPosition(before + sent, order[i]) == Some(i) {
      var head := before + sent[..i + 1];
      var tail := sent[i + 1..];
      assert before + sent == head + tail;
      assert head[|head| - 1] == PatchPosition(order[i], i);
      forall j | 0 <= j < |tail| ensures !(tail[j].PatchPosition? && tail[j].id == order[i]) {
        assert tail[j] == sent[i + 1 + j];
      }
      LastPositionSkips(head, tail, order[i]);
    }
  }

  /** The persistence contract of a reorder: once the store holds, for every
      record, the position its last update asked for, the next render lists
      the records exactly in the order the user dropped them in. */
  lemma DropRestoresOrder(before: seq<Request>, sent: seq<Request>, order: seq<Id>, data: seq<Todo>)
    requires AssignsIndices(sent, order) && Distinct(order)
    requires multiset(Ids(data)) == multiset(order)
    requires forall r :: r in data ==> LastPosition(before + sent, r.id) == Some(r.position)
    ensures Ids(FetchTodos(data)) == order
  {
    PersistedPositions(before, sent, order);
    forall r | r in data ensures 0 <= r.position < |order| && order[r.position] == r.id {
      var k :| 0 <= k < |data| && data[k] == r;
      assert Ids(data)[k] == r.id;
      assert r.id in multiset(order);
      var i := IndexOf(order, r.id);
      assert LastPosition(before + sent, order[i]) == Some(i);
    }
    RenderFollowsPositions(data, order);
  }

  /** The snapshot of two records stored at positions 0 and 1 lists them in
      that order. */
  lemma StoredExampleOrder()
    ensures Ids(FetchTodos([Todo("a", "first", false, 0), Todo("b", "second", false, 1)])) == ["a", "b"]
  {
    var a, b := Todo("a", "first", false, 0), Todo("b", "second", false, 1);
    assert [a, b][1..] == [b] && [b][1..] == [];
    assert FetchTodos([b]) == Insert(b, []) == [b];
    assert FetchTodos([a, b]) == Insert(a, [b]) == [a, b];
    IdsCons(a, [b]);
    assert Ids([b]) == ["b"];
  }

  /** Dragging the second of two items above the first swaps them. */
  lemma DroppedExampleOrder()
    ensures Reflow(["a", "b"], "b", Some("a")) == ["b", "a"]
  {
    assert ["a", "b"][1..] == ["b"] && ["b"][1..] == [];
    assert Without(["a", "b"], "b") == ["a"] + Without(["b"], "b") == ["a"];
    assert IndexOf(["a"], "a") == 0;
  }

  /** Two records at positions 0 and 1, with the second dragged above the
      first: while nothing is sent, the store keeps the old positions and the
      next render shows the old order again. */
  lemma DropAsWrittenRevertsOrder()
    ensures Ids(FetchTodos([Todo("a", "first", false, 0), Todo("b", "second", false, 1)])) == ["a", "b"]
    ensures Reflow(["a", "b"], "b", Some("a")) == ["b", "a"]
  {
    StoredExampleOrder();
    DroppedExampleOrder();
  }

  /** The rendered list: the ids of its items in document order, and the
      item marked as being dragged. */
  class TodoList {
    var children: seq<Id>
    var dragging: Option<Id>

    /** Items are distinct elements; the dragged one is one of them. */
    ghost predicate Valid()
      reads this
    {
      Distinct(children) && (dragging.Some? ==> dragging.value in children)
    }

    constructor ()
      ensures Valid() && children == [] && dragging == None
    {
      children := [];
      dragging := None;
    }

    /** `renderTodos`: clear the list and append one item per record of the
        sorted snapshot, in order. */
    method Render(data: seq<Todo>)
      requires Distinct(Ids(data))
      modifies this
      ensures Valid()
      ensures children == Ids(FetchTodos(data)) && dragging == None
    {
      var todos := FetchTodos(data);
      children := [];
      dragging := None;
      for k := 0 to |todos|
        invariant dragging == None
        invariant |children| == k && forall i :: 0 <= i < k ==> children[i] == todos[i].id
      {
        children := children + [todos[k].id];
      }
      assert children == Ids(todos);
      FetchTodosIds(data);
      DistinctByMultiset(Ids(data), children);
    }

    /** The `dragstart` handler: mark the item as being dragged. */
    method DragStart(id: Id)
      requires Valid() && id in children
      modifies this
      ensures Valid()
      ensures children == old(children) && dragging == Some(id)
    {
      dragging := Some(id);
    }

    /** The `dragover` handler: move the dragged item in front of the target
        `getDragAfterElement` picks, or to the end when it picks none. With
        no item being dragged the handler fails before changing the list. */
    method DragOver(y: int, boxOf: Id -> Box)
      requires Valid()
      modifies this
      ensures Valid() && dragging == old(dragging)
      ensures old(dragging).None? ==> children == old(children)
      ensures old(dragging).Some? ==>
                children == Reflow(old(children), old(dragging).value,
                                   GetDragAfterElement(old(children), old(dragging), boxOf, y))
      ensures multiset(children) == multiset(old(children))
      ensures old(dragging).Some? ==> Without(children, old(dragging).value) == Without(old(children), old(dragging).value)
      ensures old(dragging).Some? ==>
                PlacedAt(children, old(dragging).value, GetDragAfterElement(old(children), old(dragging), boxOf, y))
    {
      var items, dragged := children, dragging;
      var afterElement := GetDragAfterElement(items, dragged, boxOf, y);
      if dragged.Some? {
        var d := dragged.value;
        ReflowFacts(items, d, afterElement);
        var moved := Reflow(items, d, afterElement);
        children := moved;
      }
    }

    /** The `dragend` handler as it is meant to work: unmark the dragged item
        and persist the new order through `saveTodosOrder`. */
    method DragEnd() returns (sent: seq<Request>)
      requires Valid()
      modifies this
      ensures Valid()
      ensures children == old(children) && dragging == None
      ensures AssignsIndices(sent, children)
    {
      dragging := None;
      sent := SaveTodosOrder(children);
    }

    /** The `dragend` handler as written: after unmarking the dragged item it
        reads `classList` of the plain record, which fails, so the call to
        `saveTodosOrder` is never reached and nothing is sent. */
    method DragEndAsWritten() returns (sent: seq<Request>)
      requires Valid()
      modifies this
      ensures Valid()
      ensures children == old(children) && dragging == None
      ensures sent == []
    {
      dragging := None;
      sent := [];
    }
  }
}
