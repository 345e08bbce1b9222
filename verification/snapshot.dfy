/** The client's snapshot of the collection: `fetchTodos` returns the fetched
    records sorted by ascending `position`, using the engine's stable sort. */
module Snapshot {
  import opened Todos

  /** Ascending (non-decreasing) by position. */
  predicate SortedByPosition(s: seq<Todo>) {
    forall i, j :: 0 <= i < j < |s| ==> s[i].position <= s[j].position
  }

  /** The records of `s` whose position is `p`, in their order in `s`. Two
      sequences agree on every such subsequence exactly when one is a
      rearrangement of the other that keeps records of equal position in
      their original order. */
  function WithPosition(s: seq<Todo>, p: int): seq<Todo> {
    if s == [] then [] else (if s[0].position == p then [s[0]] else []) + WithPosition(s[1..], p)
  }

  lemma WithPositionCons(x: Todo, s: seq<Todo>, p: int)
    ensures WithPosition([x] + s, p) == (if x.position == p then [x] else []) + WithPosition(s, p)
  {
    assert ([x] + s)[1..] == s;
  }

  lemma {:induction false} WithPositionAppend(a: seq<Todo>, b: seq<Todo>, p: int)
    ensures WithPosition(a + b, p) == WithPosition(a, p) + WithPosition(b, p)
  {
    if a != [] {
      var head := if a[0].position == p then [a[0]] else [];
      assert (a + b)[0] == a[0];
      assert (a + b)[1..] == a[1..] + b;
      WithPositionAppend(a[1..], b, p);
      calc {
        WithPosition(a + b, p);
        head + WithPosition(a[1..] + b, p);
        head + (WithPosition(a[1..], p) + WithPosition(b, p));
        (head + WithPosition(a[1..], p)) + WithPosition(b, p);
      }
    } else {
      assert a + b == b;
    }
  }

  lemma {:induction false} WithPositionMember(s: seq<Todo>, p: int, x: Todo)
    requires x in WithPosition(s, p)
    ensures x in s && x.position == p
  {
    if !(s[0] == x && x.position == p) {
      WithPositionMember(s[1..], p, x);
    }
  }

  lemma SortedCons(x: Todo, s: seq<Todo>)
    requires SortedByPosition(s)
    requires forall y :: y in s ==> x.position <= y.position
    ensures SortedByPosition([x] + s)
  {
    var r := [x] + s;
    forall i, j | 0 <= i < j < |r| ensures r[i].position <= r[j].position {
      assert r[j] == s[j - 1];
      if i > 0 {
        assert r[i] == s[i - 1];
      }
    }
  }

  /** Inserts `x` in front of the first record whose position is not smaller. */
  function Insert(x: Todo, t: seq<Todo>): seq<Todo> {
    if t == [] || x.position <= t[0].position then [x] + t
    else [t[0]] + Insert(x, t[1..])
  }

  /** Inserting adds exactly the inserted record. */
  lemma {:induction false} InsertMultiset(x: Todo, t: seq<Todo>)
    ensures multiset(Insert(x, t)) == multiset(t) + multiset{x}
  {
    if !(t == [] || x.position <= t[0].position) {
      InsertMultiset(x, t[1..]);
      assert t == [t[0]] + t[1..];
    }
  }

  /** Inserting into a sorted sequence keeps it sorted. */
  lemma {:induction false} InsertSorted(x: Todo, t: seq<Todo>)
    requires SortedByPosition(t)
    ensures SortedByPosition(Insert(x, t))
  {
    if t == [] || x.position <= t[0].position {
      SortedCons(x, t);
    } else {
      var rest := Insert(x, t[1..]);
      assert t == [t[0]] + t[1..];
      InsertSorted(x, t[1..]);
      InsertMultiset(x, t[1..]);
      forall y | y in rest ensures t[0].position <= y.position {
        assert y in multiset(rest);
      }
      SortedCons(t[0], rest);
    }
  }

  /** Inserting in front of the records of equal position keeps the
      inserted record ahead of them, as it was in the input. */
  lemma {:induction false} InsertStable(x: Todo, t: seq<Todo>, p: int)
    ensures WithPosition(Insert(x, t), p) == WithPosition([x] + t, p)
  {
    if !(t == [] || x.position <= t[0].position) {
      InsertStable(x, t[1..], p);
      var hx := if x.position == p then [x] else [];
      var ht := if t[0].position == p then [t[0]] else [];
      assert hx == [] || ht == [];
      assert t == [t[0]] + t[1..];
      assert Insert(x, t) == [t[0]] + Insert(x, t[1..]);
      calc {
        WithPosition(Insert(x, t), p);
        { WithPositionCons(t[0], Insert(x, t[1..]), p); }
        ht + WithPosition(Insert(x, t[1..]), p);
        ht + WithPosition([x] + t[1..], p);
        { WithPositionCons(x, t[1..], p); }
        ht + (hx + WithPosition(t[1..], p));
        hx + (ht + WithPosition(t[1..], p));
        { WithPositionCons(t[0], t[1..], p); }
        hx + WithPosition(t, p);
        { WithPositionCons(x, t, p); }
        WithPosition([x] + t, p);
      }
    }
  }

  /** `fetchTodos`: the fetched records in ascending order of position; the
      result is sorted and is a permutation of the input. */
  function FetchTodos(data: seq<Todo>): (r: seq<Todo>)
    ensures multiset(r) == multiset(data)
    ensures SortedByPosition(r)
  {
    if data == [] then []
    else
      assert data == [data[0]] + data[1..];
      InsertSorted(data[0], FetchTodos(data[1..]));
      InsertMultiset(data[0], FetchTodos(data[1..]));
      Insert(data[0], FetchTodos(data[1..]))
  }

  lemma {:induction false} InsertIds(x: Todo, t: seq<Todo>)
    ensures multiset(Ids(Insert(x, t))) == multiset(Ids(t)) + multiset{x.id}
  {
    if !(t == [] || x.position <= t[0].position) {
      InsertIds(x, t[1..]);
      IdsCons(t[0], Insert(x, t[1..]));
      IdsCons(t[0], t[1..]);
      assert t == [t[0]] + t[1..];
    } else {
      IdsCons(x, t);
    }
  }

  /** Sorting rearranges the ids as it rearranges the records. */
  lemma {:induction false} FetchTodosIds(data: seq<Todo>)
    ensures multiset(Ids(FetchTodos(data))) == multiset(Ids(data))
  {
    if data != [] {
      var rest := FetchTodos(data[1..]);
      assert FetchTodos(data) == Insert(data[0], rest);
      InsertIds(data[0], rest);
      FetchTodosIds(data[1..]);
      assert data == [data[0]] + data[1..];
      IdsCons(data[0], data[1..]);
      calc {
        multiset(Ids(FetchTodos(data)));
        multiset(Ids(rest)) + multiset{data[0].id};
        multiset(Ids(data[1..])) + multiset{data[0].id};
        multiset([data[0].id] + Ids(data[1..]));
      }
    }
  }

  /** The sort is stable: records of equal position keep the order in which
      they were fetched. */
  lemma {:induction false} FetchTodosStable(data: seq<Todo>, p: int)
    ensures WithPosition(FetchTodos(data), p) == WithPosition(data, p)
  {
    if data != [] {
      InsertStable(data[0], FetchTodos(data[1..]), p);
      FetchTodosStable(data[1..], p);
      assert data == [data[0]] + data[1..];
    }
  }

  lemma HeadSelected(s: seq<Todo>)
    ensures s != [] ==> WithPosition(s, s[0].position) != []
  {
  }

  /** A sorted sequence is determined by its equal-position subsequences: so
      any stable ascending sort of the fetched records, the browser's
      included, returns exactly `FetchTodos`. */
  lemma {:induction false} StableSortUnique(a: seq<Todo>, b: seq<Todo>)
    requires SortedByPosition(a) && SortedByPosition(b)
    requires forall p :: WithPosition(a, p) == WithPosition(b, p)
    ensures a == b
    decreases |a|
  {
    if a == [] || b == [] {
      if a != [] {
        HeadSelected(a);
        assert false;
      }
      if b != [] {
        HeadSelected(b);
        assert false;
      }
      return;
    }
    var pa, pb := a[0].position, b[0].position;
    assert a[0] in WithPosition(b, pa) by {
      assert WithPosition(a, pa)[0] == a[0];
    }
    WithPositionMember(b, pa, a[0]);
    assert b[0] in WithPosition(a, pb) by {
      assert WithPosition(b, pb)[0] == b[0];
    }
    WithPositionMember(a, pb, b[0]);
    assert pa == pb;
    assert a[0] == b[0] by {
      assert WithPosition(a, pa)[0] == a[0];
      assert WithPosition(b, pa)[0] == b[0];
    }
    forall p ensures WithPosition(a[1..], p) == WithPosition(b[1..], p) {
      var h := if a[0].position == p then [a[0]] else [];
      assert WithPosition(a, p) == h + WithPosition(a[1..], p);
      assert WithPosition(b, p) == h + WithPosition(b[1..], p);
      assert WithPosition(a[1..], p) == WithPosition(a, p)[|h|..];
      assert WithPosition(b[1..], p) == WithPosition(b, p)[|h|..];
    }
    StableSortUnique(a[1..], b[1..]);
    assert a == [a[0]] + a[1..] && b == [b[0]] + b[1..];
  }

  /** A record whose position exceeds every fetched position sorts last:
      a todo created with position equal to the current count, while the
      positions are dense, is rendered at the end of the list. */
  lemma AppendedRecordSortsLast(data: seq<Todo>, x: Todo)
    requires forall r :: r in data ==> r.position < x.position
    ensures FetchTodos(data + [x]) == FetchTodos(data) + [x]
  {
    var s := FetchTodos(data);
    assert forall r :: r in s ==> r in data by {
      forall r | r in s ensures r in data {
        assert r in multiset(s);
      }
    }
    assert SortedByPosition(s + [x]) by {
      var r := s + [x];
      forall i, j | 0 <= i < j < |r| ensures r[i].position <= r[j].position {
        assert r[i] == s[i];
        if j < |s| {
          assert r[j] == s[j];
        } else {
          assert s[i] in s;
        }
      }
    }
    forall p ensures WithPosition(FetchTodos(data + [x]), p) == WithPosition(s + [x], p) {
      FetchTodosStable(data + [x], p);
      FetchTodosStable(data, p);
      WithPositionAppend(s, [x], p);
      WithPositionAppend(data, [x], p);
    }
    StableSortUnique(FetchTodos(data + [x]), s + [x]);
  }

  lemma {:induction false} PositionAtLeastIndex(s: seq<Todo>, k: nat)
    requires forall i, j :: 0 <= i < j < |s| ==> s[i].position < s[j].position
    requires forall i :: 0 <= i < |s| ==> 0 <= s[i].position
    requires k < |s|
    ensures k <= s[k].position
  {
    if k > 0 {
      PositionAtLeastIndex(s, k - 1);
    }
  }

  lemma {:induction false} PositionAtMostIndex(s: seq<Todo>, k: nat)
    requires forall i, j :: 0 <= i < j < |s| ==> s[i].position < s[j].position
    requires forall i :: 0 <= i < |s| ==> s[i].position < |s|
    requires k < |s|
    ensures s[k].position <= k
    decreases |s| - k
  {
    if k < |s| - 1 {
      PositionAtMostIndex(s, k + 1);
    }
  }

  /** Sorted, pairwise different positions drawn from 0 .. |s|-1 are
      exactly the indices. */
  lemma PositionsAreIndices(s: seq<Todo>)
    requires SortedByPosition(s)
    requires forall i, j :: 0 <= i < j < |s| ==> s[i].position != s[j].position
    requires forall i :: 0 <= i < |s| ==> 0 <= s[i].position < |s|
    ensures forall k :: 0 <= k < |s| ==> s[k].position == k
  {
    assert forall i, j :: 0 <= i < j < |s| ==> s[i].position < s[j].position;
    forall k | 0 <= k < |s| ensures s[k].position == k {
      PositionAtLeastIndex(s, k);
      PositionAtMostIndex(s, k);
    }
  }

  /** A sorted sequence with distinct ids, each record placed at the index of
      its id in `order`, lists the ids of `order`. */
  lemma SortedAtIndices(s: seq<Todo>, order: seq<Id>)
    requires SortedByPosition(s) && Distinct(Ids(s)) && |s| == |order|
    requires forall i :: 0 <= i < |s| ==> 0 <= s[i].position < |s| && order[s[i].position] == s[i].id
    ensures Ids(s) == order
  {
    assert forall i, j :: 0 <= i < j < |s| ==> s[i].position != s[j].position by {
      forall i, j | 0 <= i < j < |s| ensures s[i].position != s[j].position {
        assert Ids(s)[i] != Ids(s)[j];
      }
    }
    PositionsAreIndices(s);
  }

  /** When every record's position is the index of its id in `order` (the
      state a completed reorder leaves behind), the snapshot lists the
      records in exactly that order. */
  lemma RenderFollowsPositions(data: seq<Todo>, order: seq<Id>)
    requires Distinct(order)
    requires multiset(Ids(data)) == multiset(order)
    requires forall r :: r in data ==> 0 <= r.position < |order| && order[r.position] == r.id
    ensures Ids(FetchTodos(data)) == order
  {
    var s := FetchTodos(data);
    FetchTodosIds(data);
    assert |s| == |order| by {
      assert |multiset(Ids(s))| == |multiset(order)|;
    }
    DistinctByMultiset(order, Ids(s));
    forall i | 0 <= i < |s| ensures 0 <= s[i].position < |s| && order[s[i].position] == s[i].id {
      assert s[i] in multiset(data) by {
        assert s[i] in multiset(s);
      }
    }
    SortedAtIndices(s, order);
  }
}
