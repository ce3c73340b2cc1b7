/** The todo list of the bug-hunting app: an immutable sequence of records
    and the state updates `addTodo`, `toggleTodo`, `deleteTodo`,
    `clearCompleted`, plus the filtered view the list renders. */
module TodoApp {

  datatype Todo = Todo(id: string, text: string, completed: bool)

  /** The filter buttons: `'all' | 'active' | 'completed'`. */
  datatype FilterOption = All | Active | Completed

  predicate IsActive(t: Todo) {
    !t.completed
  }

  predicate IsDone(t: Todo) {
    t.completed
  }

  /** `xs` is `ys` with some elements left out, the rest in their order. */
  predicate Subsequence(xs: seq<Todo>, ys: seq<Todo>)
    decreases |ys|
  {
    if |xs| == 0 then true
    else if |ys| == 0 then false
    else if xs[0] == ys[0] then Subsequence(xs[1..], ys[1..])
    else Subsequence(xs, ys[1..])
  }

  /** `Array.prototype.filter`: the elements satisfying `keep`, in order;
      `FilterCounts` adds that each is kept as often as it occurs. */
  function Filter(xs: seq<Todo>, keep: Todo -> bool): (r: seq<Todo>)
    ensures forall i :: 0 <= i < |r| ==> keep(r[i])
    ensures forall i :: 0 <= i < |xs| && keep(xs[i]) ==> xs[i] in r
    ensures forall x :: x in r ==> x in xs
    ensures Subsequence(r, xs)
  {
    if |xs| == 0 then []
    else
      var rest := Filter(xs[1..], keep);
      assert forall i :: 1 <= i < |xs| ==> xs[i] == xs[1..][i - 1];
      if keep(xs[0]) then [xs[0]] + rest
      else
        assert |rest| > 0 ==> rest[0] != xs[0];
        rest
  }

  /** `Filter` keeps every passing element as often as it occurs in the
      input, and drops every other. */
  lemma {:induction false} FilterCounts(xs: seq<Todo>, keep: Todo -> bool)
    ensures forall x :: multiset(Filter(xs, keep))[x] == (if keep(x) then multiset(xs)[x] else 0)
  {
    if |xs| > 0 {
      FilterCounts(xs[1..], keep);
      assert xs == [xs[0]] + xs[1..];
      FilterCount(xs[0], xs[1..], Filter(xs[1..], keep), keep);
    }
  }

  /** One step of `FilterCounts`: the head is counted when it passes, and
      the tail's counts carry over. */
  lemma FilterCount(x: Todo, tail: seq<Todo>, rest: seq<Todo>, keep: Todo -> bool)
    requires forall y :: multiset(rest)[y] == (if keep(y) then multiset(tail)[y] else 0)
    ensures var r := if keep(x) then [x] + rest else rest;
      forall y :: multiset(r)[y] == (if keep(y) then multiset([x] + tail)[y] else 0)
  {
    assert multiset([x] + tail) == multiset{x} + multiset(tail);
    assert multiset([x] + rest) == multiset{x} + multiset(rest);
  }

  /** Filtering keeps everything when everything passes. */
  lemma {:induction false} FilterAll(xs: seq<Todo>, keep: Todo -> bool)
    requires forall i :: 0 <= i < |xs| ==> keep(xs[i])
    ensures Filter(xs, keep) == xs
  {
    if |xs| > 0 {
      FilterAll(xs[1..], keep);
    }
  }

  /** Filtering twice with the same predicate is filtering once. */
  lemma FilterIdempotent(xs: seq<Todo>, keep: Todo -> bool)
    ensures Filter(Filter(xs, keep), keep) == Filter(xs, keep)
  {
    FilterAll(Filter(xs, keep), keep);
  }

  /** `addTodo(text)` with `id` standing for the value `crypto.randomUUID()`
      returns: appends one incomplete item and leaves the others alone. */
  function AddTodo(todos: seq<Todo>, text: string, id: string): (r: seq<Todo>)
    ensures |r| == |todos| + 1
    ensures r[..|todos|] == todos
    ensures r[|todos|].id == id && r[|todos|].text == text && !r[|todos|].completed
  {
    todos + [Todo(id, text, false)]
  }

  /** `toggleTodo(id)`: flips `completed` on the items with that id. */
  function ToggleTodo(todos: seq<Todo>, id: string): (r: seq<Todo>)
    ensures |r| == |todos|
    ensures forall i :: 0 <= i < |todos| ==> r[i].id == todos[i].id && r[i].text == todos[i].text
    ensures forall i :: 0 <= i < |todos| ==> (r[i].completed != todos[i].completed <==> todos[i].id == id)
  {
    seq(|todos|, i requires 0 <= i < |todos| =>
      if todos[i].id == id then todos[i].(completed := !todos[i].completed) else todos[i])
  }

  /** Toggling the same id twice restores the list. */
  lemma ToggleTwice(todos: seq<Todo>, id: string)
    ensures ToggleTodo(ToggleTodo(todos, id), id) == todos
  {
    var r := ToggleTodo(ToggleTodo(todos, id), id);
    assert forall i :: 0 <= i < |todos| ==> r[i] == todos[i];
  }

  /** Toggling an id no item has changes nothing. */
  lemma ToggleAbsent(todos: seq<Todo>, id: string)
    requires forall i :: 0 <= i < |todos| ==> todos[i].id != id
    ensures ToggleTodo(todos, id) == todos
  {
    var r := ToggleTodo(todos, id);
    assert forall i :: 0 <= i < |todos| ==> r[i] == todos[i];
  }

  /** `deleteTodo(id)`: removes exactly the items with that id and keeps
      every occurrence of the others, in order. */
  function DeleteTodo(todos: seq<Todo>, id: string): (r: seq<Todo>)
    ensures forall i :: 0 <= i < |r| ==> r[i].id != id
    ensures forall i :: 0 <= i < |todos| && todos[i].id != id ==> todos[i] in r
    ensures Subsequence(r, todos)
    ensures forall x :: multiset(r)[x] == (if x.id != id then multiset(todos)[x] else 0)
  {
    FilterCounts(todos, OtherId(id));
    Filter(todos, OtherId(id))
  }

  /** The `deleteTodo` filter test `todo.id !== id`. */
  function OtherId(id: string): Todo -> bool {
    (t: Todo) => t.id != id
  }

  /** No two items share an id. */
  predicate UniqueIds(todos: seq<Todo>) {
    forall i, j :: 0 <= i < j < |todos| ==> todos[i].id != todos[j].id
  }

  /** With a fresh id, adding keeps the ids unique, and deleting the new item
      gives back the list before the add. */
  lemma AddFresh(todos: seq<Todo>, text: string, id: string)
    requires UniqueIds(todos)
    requires forall i :: 0 <= i < |todos| ==> todos[i].id != id
    ensures UniqueIds(AddTodo(todos, text, id))
    ensures DeleteTodo(AddTodo(todos, text, id), id) == todos
  {
    var added := AddTodo(todos, text, id);
    var keep := OtherId(id);
    assert added == todos + [Todo(id, text, false)];
    FilterAll(todos, keep);
    FilterAppendRejected(todos, Todo(id, text, false), keep);
  }

  lemma {:induction false} FilterAppendRejected(xs: seq<Todo>, x: Todo, keep: Todo -> bool)
    requires !keep(x)
    ensures Filter(xs + [x], keep) == Filter(xs, keep)
  {
    if |xs| == 0 {
      assert Filter([x][1..], keep) == [];
    } else {
      assert (xs + [x])[1..] == xs[1..] + [x];
      FilterAppendRejected(xs[1..], x, keep);
    }
  }

  /** The list the app renders for the selected filter. */
  function Visible(todos: seq<Todo>, filter: FilterOption): (r: seq<Todo>)
    ensures filter == All ==> r == todos
    ensures filter == Active ==>
      (forall i :: 0 <= i < |r| ==> !r[i].completed) &&
      (forall i :: 0 <= i < |todos| && !todos[i].completed ==> todos[i] in r)
    ensures filter == Completed ==>
      (forall i :: 0 <= i < |r| ==> r[i].completed) &&
      (forall i :: 0 <= i < |todos| && todos[i].completed ==> todos[i] in r)
    ensures Subsequence(r, todos)
  {
    match filter
    case Active => Filter(todos, IsActive)
    case Completed => Filter(todos, IsDone)
    case All => SubsequenceRefl(todos); todos
  }

  lemma {:induction false} SubsequenceRefl(xs: seq<Todo>)
    ensures Subsequence(xs, xs)
  {
    if |xs| > 0 {
      SubsequenceRefl(xs[1..]);
    }
  }

  /** Every item is in exactly one of the active and completed views. */
  lemma {:induction false} ViewsPartition(todos: seq<Todo>)
    ensures |Visible(todos, Active)| + |Visible(todos, Completed)| == |todos|
  {
    if |todos| > 0 {
      ViewsPartition(todos[1..]);
    }
  }

  /** `clearCompleted()`: keeps the incomplete items. */
  function ClearCompleted(todos: seq<Todo>): (r: seq<Todo>)
    ensures forall i :: 0 <= i < |r| ==> !r[i].completed
    ensures forall i :: 0 <= i < |todos| && !todos[i].completed ==> todos[i] in r
    ensures Subsequence(r, todos)
    ensures forall x :: multiset(r)[x] == (if !x.completed then multiset(todos)[x] else 0)
  {
    FilterCounts(todos, IsActive);
    Filter(todos, IsActive)
  }

  /** Clearing leaves what the active view shows, and a second clear
      changes nothing. */
  lemma ClearCompletedIsActiveView(todos: seq<Todo>)
    ensures ClearCompleted(todos) == Visible(todos, Active)
    ensures ClearCompleted(ClearCompleted(todos)) == ClearCompleted(todos)
  {
    FilterIdempotent(todos, IsActive);
  }
}
