/** The records the to-do client exchanges with its REST collection, the
    requests it sends, and a few sequence facts shared by the other modules. */
module Todos {

  /** A record's identifier as the client sees it (the `data-id` attribute of its list item). */
  type Id = string

  datatype Option<T> = None | Some(value: T)

  /** One record of the remote collection. */
  datatype Todo = Todo(id: Id, content: string, completed: bool, position: int)

  /** The mutating requests the client issues, with exactly the fields of their bodies. */
  datatype Request =
    | Post(content: string, completed: bool, position: int)   // POST /todos
    | PatchCompleted(id: Id, completed: bool)                  // PATCH /todos/{id}
    | PatchPosition(id: Id, position: int)                     // PATCH /todos/{id}
    | Put(id: Id, content: string)                             // PUT /todos/{id}

  /** No element occurs twice. */
  predicate Distinct<T(==)>(s: seq<T>) {
    forall i, j :: 0 <= i < j < |s| ==> s[i] != s[j]
  }

  /** `s` with every occurrence of `x` left out, the rest in order. */
  function Without(s: seq<Id>, x: Id): seq<Id> {
    if s == [] then [] else (if s[0] == x then [] else [s[0]]) + Without(s[1..], x)
  }

  lemma {:induction false} WithoutMember(s: seq<Id>, x: Id, y: Id)
    ensures y in Without(s, x) <==> y in s && y != x
  {
    if s != [] {
      WithoutMember(s[1..], x, y);
      assert s == [s[0]] + s[1..];
    }
  }

  /** The ids of a sequence of records, in order. */
  function Ids(s: seq<Todo>): seq<Id> {
    seq(|s|, i requires 0 <= i < |s| => s[i].id)
  }

  lemma IdsCons(x: Todo, s: seq<Todo>)
    ensures Ids([x] + s) == [x.id] + Ids(s)
  {
    assert forall i :: 0 <= i < |s| ==> ([x] + s)[i + 1] == s[i];
  }

  /** In a sequence without repetitions every value occurs at most once. */
  lemma {:induction false} DistinctCount<T>(s: seq<T>, x: T)
    requires Distinct(s)
    ensures multiset(s)[x] <= 1
  {
    if s != [] {
      assert s == [s[0]] + s[1..];
      assert Distinct(s[1..]) by {
        forall i, j | 0 <= i < j < |s[1..]| ensures s[1..][i] != s[1..][j] {
          assert s[1..][i] == s[i + 1] && s[1..][j] == s[j + 1];
        }
      }
      DistinctCount(s[1..], x);
      if x == s[0] {
        assert x !in s[1..];
      }
    }
  }

  /** Two equal elements at different indices make a value occur twice. */
  lemma RepeatedCount<T>(s: seq<T>, i: nat, j: nat)
    requires i < j < |s| && s[i] == s[j]
    ensures multiset(s)[s[i]] >= 2
  {
    assert s == s[..j] + s[j..];
    assert s[i] in s[..j];
    assert s[j] in s[j..];
  }

  /** Having no repetitions is a property of the multiset alone. */
  lemma DistinctByMultiset<T>(a: seq<T>, b: seq<T>)
    requires Distinct(a) && multiset(a) == multiset(b)
    ensures Distinct(b)
  {
    forall i, j | 0 <= i < j < |b| ensures b[i] != b[j] {
      if b[i] == b[j] {
        RepeatedCount(b, i, j);
        DistinctCount(a, b[i]);
      }
    }
  }
}
