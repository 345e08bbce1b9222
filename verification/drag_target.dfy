/** `getDragAfterElement`: while an item is dragged over the list, pick the
    element the dragged item is to be placed in front of. The items other
    than the dragged one are folded left to right; an item qualifies when
    its vertical midpoint lies below the pointer, and the qualifying item
    whose midpoint is nearest to the pointer wins, the earliest on a tie.
    No qualifying item means "append at the end". */
module DragTarget {
  import opened Todos

  /** The part of an element's bounding box the rule reads (viewport
      coordinates; y grows downwards). */
  datatype Box = Box(top: int, height: int)

  /** The offset `y - top - height / 2` between the pointer and the
      element's midpoint, as the handler computes it. */
  function Offset(b: Box, y: int): real {
    (y - b.top) as real - b.height as real / 2.0
  }

  /** Twice `Offset`. Doubling keeps the sign and the order of offsets and
      avoids the division. */
  function TwiceOffset(b: Box, y: int): (r: int)
    ensures r as real == 2.0 * Offset(b, y)
    ensures r < 0 <==> 2 * y < 2 * b.top + b.height
  {
    2 * y - 2 * b.top - b.height
  }

  /** Comparing doubled offsets is comparing the offsets themselves. */
  lemma TwiceOffsetOrder(a: Box, b: Box, y: int)
    ensures TwiceOffset(a, y) < TwiceOffset(b, y) <==> Offset(a, y) < Offset(b, y)
    ensures TwiceOffset(a, y) < 0 <==> Offset(a, y) < 0.0
  {
  }

  /** The offset of the `i`-th candidate. */
  function OffsetAt(cands: seq<Id>, boxOf: Id -> Box, y: int, i: nat): int
    requires i < |cands|
  {
    TwiceOffset(boxOf(cands[i]), y)
  }

  /** The list items not marked as dragged, in list order (the selector
      `li:not(.dragging)`). */
  function Candidates(children: seq<Id>, dragging: Option<Id>): (r: seq<Id>)
    ensures forall x :: x in r <==> x in children && Some(x) != dragging
  {
    match dragging
    case None => children
    case Some(d) =>
      assert forall x :: x in Without(children, d) <==> x in children && x != d by {
        forall x ensures x in Without(children, d) <==> x in children && x != d {
          WithoutMember(children, d, x);
        }
      }
      Without(children, d)
  }

  /** No candidate's midpoint lies below the pointer. */
  ghost predicate NoneBelow(cands: seq<Id>, boxOf: Id -> Box, y: int) {
    forall i :: 0 <= i < |cands| ==> OffsetAt(cands, boxOf, y, i) >= 0
  }

  /** Candidate `k` has its midpoint below the pointer, no other such
      candidate is nearer, and every earlier such candidate is farther. */
  ghost predicate IsNearestBelow(cands: seq<Id>, boxOf: Id -> Box, y: int, k: nat) {
    && k < |cands|
    && OffsetAt(cands, boxOf, y, k) < 0
    && (forall i :: 0 <= i < |cands| && OffsetAt(cands, boxOf, y, i) < 0 ==>
          OffsetAt(cands, boxOf, y, i) <= OffsetAt(cands, boxOf, y, k))
    && (forall i :: 0 <= i < k && OffsetAt(cands, boxOf, y, i) < 0 ==>
          OffsetAt(cands, boxOf, y, i) < OffsetAt(cands, boxOf, y, k))
  }

  /** At most one candidate is the nearest one below the pointer. */
  lemma NearestBelowUnique(cands: seq<Id>, boxOf: Id -> Box, y: int, k1: nat, k2: nat)
    requires IsNearestBelow(cands, boxOf, y, k1) && IsNearestBelow(cands, boxOf, y, k2)
    ensures k1 == k2
  {
  }

  /** The accumulator of the fold: `Initial` is the seed `{offset: -Infinity}`
      (whose element is undefined); `Found` records the best offset so far
      and the index of its candidate. */
  datatype Closest = Initial | Found(offset: int, index: nat)

  /** One step of the fold: a candidate replaces the accumulator when its
      offset is negative and strictly greater than the best so far. */
  function Step(closest: Closest, offset: int, index: nat): (r: Closest)
    ensures r == closest || r == Found(offset, index)
    ensures offset < 0 ==> r.Found? && offset <= r.offset
    ensures closest.Found? ==> r.Found? && closest.offset <= r.offset
    ensures r != closest ==> offset < 0 && (closest.Initial? || closest.offset < offset)
  {
    if offset < 0 && (closest.Initial? || offset > closest.offset) then Found(offset, index) else closest
  }

  /** The fold over `cands`, from the first candidate to the last. */
  function Reduce(cands: seq<Id>, boxOf: Id -> Box, y: int): (r: Closest)
    ensures r.Found? ==> IsNearestBelow(cands, boxOf, y, r.index) && r.offset == OffsetAt(cands, boxOf, y, r.index)
    ensures r.Initial? <==> NoneBelow(cands, boxOf, y)
    decreases |cands|
  {
    if cands == [] then Initial
    else
      var n := |cands| - 1;
      var prefix := cands[..n];
      assert forall i :: 0 <= i < n ==> OffsetAt(prefix, boxOf, y, i) == OffsetAt(cands, boxOf, y, i);
      Step(Reduce(prefix, boxOf, y), OffsetAt(cands, boxOf, y, n), n)
  }

  /** `getDragAfterElement(todoList, y)`: the id of the element to insert the
      dragged one before, or `None` to append it. The result is never the
      dragged element; it is the candidate nearest below the pointer, the
      earliest on a tie; `None` exactly when no candidate lies below. */
  function GetDragAfterElement(children: seq<Id>, dragging: Option<Id>, boxOf: Id -> Box, y: int): (r: Option<Id>)
    ensures r.Some? ==> r.value in children && Some(r.value) != dragging && TwiceOffset(boxOf(r.value), y) < 0
    ensures r.Some? ==> forall x :: x in children && Some(x) != dragging && TwiceOffset(boxOf(x), y) < 0 ==>
                          TwiceOffset(boxOf(x), y) <= TwiceOffset(boxOf(r.value), y)
    ensures r.Some? ==> exists k: nat :: IsNearestBelow(Candidates(children, dragging), boxOf, y, k) &&
                          Candidates(children, dragging)[k] == r.value
    ensures r.None? <==> forall x :: x in children && Some(x) != dragging ==> TwiceOffset(boxOf(x), y) >= 0
  {
    var cands := Candidates(children, dragging);
    match Reduce(cands, boxOf, y)
    case Initial =>
      assert forall x :: x in cands ==> TwiceOffset(boxOf(x), y) >= 0 by {
        forall x | x in cands ensures TwiceOffset(boxOf(x), y) >= 0 {
          var i :| 0 <= i < |cands| && cands[i] == x;
          assert OffsetAt(cands, boxOf, y, i) >= 0;
        }
      }
      None
    case Found(_, k) =>
      assert forall x :: x in cands && TwiceOffset(boxOf(x), y) < 0 ==>
               TwiceOffset(boxOf(x), y) <= OffsetAt(cands, boxOf, y, k) by {
        forall x | x in cands && TwiceOffset(boxOf(x), y) < 0
          ensures TwiceOffset(boxOf(x), y) <= OffsetAt(cands, boxOf, y, k)
        {
          var i :| 0 <= i < |cands| && cands[i] == x;
          assert OffsetAt(cands, boxOf, y, i) < 0;
        }
      }
      Some(cands[k])
  }
}
