/** What the client sends for the single-record mutations: creating a todo,
    toggling its completion, and committing an inline edit. The network
    calls themselves are not modelled; each operation yields the request it
    issues (if any) together with the visible state it sets. */
module Mutations {
  import opened Todos
  import opened Snapshot

  /** The outcome of `addTodo`: the request sent, if any, and the text left
      in the input field. */
  datatype AddOutcome = AddOutcome(request: Option<Request>, input: string)

  /** `addTodo`, given the field's text and the record count the preceding
      fetch returned. Only the empty string is rejected (text made of spaces
      is sent as it is); a new record starts not completed, at the end. */
  function AddTodo(input: string, count: nat): (r: AddOutcome)
    ensures r.request.None? <==> input == ""
    ensures r.request.None? ==> r.input == input
    ensures r.request.Some? ==> r.request.value == Post(input, false, count) && r.input == ""
  {
    if input == "" then AddOutcome(None, input)
    else AddOutcome(Some(Post(input, false, count)), "")
  }

  /** While the positions of the `count` stored records are below `count` (as
      they are when they run densely from 0), the record `addTodo` creates is
      rendered after all of them and the others keep their order. */
  lemma AddedTodoRendersLast(data: seq<Todo>, input: string, id: Id)
    requires input != ""
    requires forall r :: r in data ==> r.position < |data|
    ensures AddTodo(input, |data|).request.Some?
    ensures var p := AddTodo(input, |data|).request.value;
            var created := Todo(id, p.content, p.completed, p.position);
            FetchTodos(data + [created]) == FetchTodos(data) + [created]
  {
    var p := AddTodo(input, |data|).request.value;
    AppendedRecordSortsLast(data, Todo(id, p.content, p.completed, p.position));
  }

  /** Deleting never renumbers the remaining records, so the premise above
      can fail: after the records at positions 0 and 1 of five are deleted,
      three remain at positions 2, 3 and 4 and the count is 3. Whenever a
      stored position exceeds the count, the record `addTodo` creates is not
      rendered last. */
  lemma AddedTodoNotLast(data: seq<Todo>, input: string, id: Id, above: Todo)
    requires input != ""
    requires above in data && above.position > |data|
    ensures AddTodo(input, |data|).request.Some?
    ensures var p := AddTodo(input, |data|).request.value;
            var created := Todo(id, p.content, p.completed, p.position);
            var s := FetchTodos(data + [created]);
            |s| == |data| + 1 && s[|data|] != created
  {
    AppendedBelowNotLast(data, Todo(id, input, false, |data|), above);
  }

  /** A record appended with a position below some fetched one is not
      listed last. */
  lemma AppendedBelowNotLast(data: seq<Todo>, x: Todo, above: Todo)
    requires above in data && x.position < above.position
    ensures |FetchTodos(data + [x])| == |data| + 1 && FetchTodos(data + [x])[|data|] != x
  {
    var s := FetchTodos(data + [x]);
    assert multiset(s) == multiset(data + [x]);
    assert |s| == |data| + 1 by {
      assert |multiset(s)| == |multiset(data + [x])|;
    }
    assert above in multiset(data + [x]);
    assert above in multiset(s);
    assert above in s;
    SortedNotLast(s, above, x);
  }

  /** In a sorted sequence nothing is last whose position is below that of
      another member. */
  lemma SortedNotLast(s: seq<Todo>, a: Todo, x: Todo)
    requires SortedByPosition(s) && a in s && x.position < a.position
    ensures s[|s| - 1] != x
  {
    var k :| 0 <= k < |s| && s[k] == a;
    assert s[k].position <= s[|s| - 1].position;
  }

  /** The outcome of `toggleTodoCompletion`: the update sent and whether the
      item's text carries the `completed` class afterwards. */
  datatype ToggleOutcome = ToggleOutcome(request: Request, markedCompleted: bool)

  /** `toggleTodoCompletion`, given the completion flag just fetched for the
      record: the update asks for the opposite flag, and the text is marked
      completed exactly when that new flag is set. */
  function ToggleTodoCompletion(id: Id, stored: bool): (r: ToggleOutcome)
    ensures r.request.PatchCompleted? && r.request.id == id
    ensures r.request.completed != stored
    ensures r.markedCompleted == r.request.completed
  {
    var completedStatus := !stored;
    ToggleOutcome(PatchCompleted(id, completedStatus), completedStatus)
  }

  /** Toggling twice, each time from the flag the previous toggle stored,
      asks for the original flag again. */
  lemma ToggleTwiceRestores(id: Id, stored: bool)
    ensures ToggleTodoCompletion(id, ToggleTodoCompletion(id, stored).request.completed).request
            == PatchCompleted(id, stored)
  {
  }

  /** The characters `String.prototype.trim` removes: the ECMAScript
      WhiteSpace and LineTerminator code points. */
  predicate IsWhitespace(c: char) {
    || c == '\t' || c == '\n' || c == '\U{B}' || c == '\U{C}' || c == '\r' || c == ' '
    || c == '\U{A0}' || c == '\U{1680}' || ('\U{2000}' <= c <= '\U{200A}')
    || c == '\U{2028}' || c == '\U{2029}' || c == '\U{202F}' || c == '\U{205F}'
    || c == '\U{3000}' || c == '\U{FEFF}'
  }

  /** Every character is whitespace (the empty string included). */
  predicate IsBlank(s: string) {
    forall i :: 0 <= i < |s| ==> IsWhitespace(s[i])
  }

  lemma BlankCons(c: char, s: string)
    requires IsWhitespace(c) && IsBlank(s)
    ensures IsBlank([c] + s)
  {
    assert forall i :: 0 < i <= |s| ==> ([c] + s)[i] == s[i - 1];
  }

  /** `s` without its leading whitespace. */
  function TrimStart(s: string): (r: string)
    ensures |r| <= |s| && r == s[|s| - |r|..]
    ensures IsBlank(s[..|s| - |r|])
    ensures r != [] ==> !IsWhitespace(r[0])
  {
    if s != [] && IsWhitespace(s[0]) then
      var t := s[1..];
      var r := TrimStart(t);
      var n := |t| - |r|;
      assert r == t[n..];
      assert t[n..] == s[n + 1..];
      assert s[..n + 1] == [s[0]] + t[..n];
      BlankCons(s[0], t[..n]);
      r
    else
      assert s[..0] == [];
      s
  }

  /** `s` without its trailing whitespace. */
  function TrimEnd(s: string): (r: string)
    ensures |r| <= |s| && r == s[..|r|]
    ensures IsBlank(s[|r|..])
    ensures r != [] ==> !IsWhitespace(r[|r| - 1])
  {
    if s != [] && IsWhitespace(s[|s| - 1]) then
      var t := s[..|s| - 1];
      var r := TrimEnd(t);
      assert r == s[..|r|];
      assert s[|r|..] == t[|r|..] + [s[|s| - 1]];
      r
    else
      assert s[|s|..] == [];
      s
  }

  /** `r` is the slice of `s` starting at `i`, with only whitespace before
      and after it. */
  predicate BlankAround(s: string, i: int, r: string) {
    0 <= i <= |s| - |r| && r == s[i..i + |r|] && IsBlank(s[..i]) && IsBlank(s[i + |r|..])
  }

  /** A blank prefix cut from `s`, then a blank suffix cut from the rest,
      leave a slice of `s` with only whitespace around it. */
  lemma TrimSlices(s: string, t: string, r: string)
    requires |t| <= |s| && t == s[|s| - |t|..] && IsBlank(s[..|s| - |t|])
    requires |r| <= |t| && r == t[..|r|] && IsBlank(t[|r|..])
    ensures BlankAround(s, |s| - |t|, r)
  {
    var i := |s| - |t|;
    assert r == s[i..i + |r|];
    assert t[|r|..] == s[i + |r|..];
  }

  /** `String.prototype.trim`: the part of `s` between a blank prefix and
      a blank suffix, starting and ending with a non-whitespace character. */
  function Trim(s: string): (r: string)
    ensures |r| <= |s|
    ensures r != [] ==> !IsWhitespace(r[0]) && !IsWhitespace(r[|r| - 1])
    ensures exists i :: BlankAround(s, i, r)
  {
    var t := TrimStart(s);
    var r := TrimEnd(t);
    TrimSlices(s, t, r);
    assert r != [] ==> r[0] == t[0];
    r
  }

  lemma {:induction false} BlankTrimsToEmpty(s: string)
    requires IsBlank(s)
    ensures TrimStart(s) == ""
  {
    if s != [] {
      BlankTrimsToEmpty(s[1..]);
    }
  }

  /** Trimming leaves nothing exactly when every character is whitespace. */
  lemma TrimEmptyIffBlank(s: string)
    ensures Trim(s) == "" <==> IsBlank(s)
  {
    var t := TrimStart(s);
    if Trim(s) == "" {
      assert t[0..] == t;
      assert s == s[..|s| - |t|] + t;
    }
    if IsBlank(s) {
      BlankTrimsToEmpty(s);
    }
  }

  /** The outcome of `loadEditNote`: the text shown afterwards and the update
      sent, if any. */
  datatype EditOutcome = EditOutcome(display: string, request: Option<Request>)

  /** `loadEditNote`: the edited text is always shown; it is sent as the new
      content unless it is blank. */
  function LoadEditNote(id: Id, value: string): (r: EditOutcome)
    ensures r.display == value
    ensures r.request.None? <==> IsBlank(value)
    ensures r.request.Some? ==> r.request.value == Put(id, value)
  {
    TrimEmptyIffBlank(value);
    EditOutcome(value, if Trim(value) == "" then None else Some(Put(id, value)))
  }
}
