/** The list state of the application: an immutable sequence of items and the
    pure updates and views over it (`addTodo`, `toggleTodo`, `deleteTodo`,
    `editTodo`, `clearCompleted`, `remaining`, `filteredTodos`). */
module TodoList {
  import opened Text
  import opened Lists

  /** An opaque identifier; the application draws a fresh random one per item. */
  type Id = string

  datatype Item = Item(id: Id, text: string, completed: bool)

  predicate IsActive(t: Item) { !t.completed }

  predicate IsCompleted(t: Item) { t.completed }

  /** The `deleteTodo` filter: keep items whose id is not `id`. */
  function OtherThan(id: Id): Item -> bool {
    (t: Item) => t.id != id
  }

  predicate HasId(todos: seq<Item>, id: Id) {
    exists t :: t in todos && t.id == id
  }

  predicate DistinctIds(todos: seq<Item>) {
    forall i, j :: 0 <= i < j < |todos| ==> todos[i].id != todos[j].id
  }

  /** What the add form and the row editor guarantee of every stored text:
      it is non-blank and, by `TrimFixesExactlyTrimmed`, equal to its own trim. */
  predicate TextsTrimmed(todos: seq<Item>) {
    forall t :: t in todos ==> t.text != [] && IsTrimmed(t.text)
  }

  /** Submitting the add form with `input`; `freshId` stands for the generated id. */
  function AddTodo(todos: seq<Item>, input: string, freshId: Id): (r: seq<Item>)
    requires !HasId(todos, freshId)
    ensures Trim(input) == [] ==> r == todos
    ensures Trim(input) != [] ==>
      && |r| == |todos| + 1
      && r[..|todos|] == todos
      && r[|todos|] == Item(freshId, Trim(input), false)
  {
    var t := Trim(input);
    if t == [] then todos else todos + [Item(freshId, t, false)]
  }

  /** Adding with a fresh id keeps ids pairwise distinct. */
  lemma AddKeepsDistinctIds(todos: seq<Item>, input: string, freshId: Id)
    requires !HasId(todos, freshId)
    requires DistinctIds(todos)
    ensures DistinctIds(AddTodo(todos, input, freshId))
  {
  }

  /** Adding keeps every stored text non-blank and equal to its own trim. */
  lemma AddKeepsTextsTrimmed(todos: seq<Item>, input: string, freshId: Id)
    requires !HasId(todos, freshId)
    requires TextsTrimmed(todos)
    ensures TextsTrimmed(AddTodo(todos, input, freshId))
  {
  }

  function ToggleTodo(todos: seq<Item>, id: Id): (r: seq<Item>)
    ensures |r| == |todos|
    ensures forall i :: 0 <= i < |r| ==> r[i].id == todos[i].id && r[i].text == todos[i].text
    ensures forall i :: 0 <= i < |r| ==>
      (r[i].completed != todos[i].completed <==> todos[i].id == id)
    ensures !HasId(todos, id) ==> r == todos
  {
    seq(|todos|, i requires 0 <= i < |todos| =>
      if todos[i].id == id then todos[i].(completed := !todos[i].completed) else todos[i])
  }

  function DeleteTodo(todos: seq<Item>, id: Id): (r: seq<Item>)
    ensures forall t :: t in r <==> t in todos && t.id != id
    ensures !HasId(r, id)
    ensures IsSubsequence(r, todos)
  {
    FilterMembers(todos, OtherThan(id));
    FilterIsSubsequence(todos, OtherThan(id));
    Filter(todos, OtherThan(id))
  }

  /** Replaces the text of the matching item verbatim: no trimming and no
      emptiness check happen at this level. */
  function EditTodo(todos: seq<Item>, id: Id, newText: string): (r: seq<Item>)
    ensures |r| == |todos|
    ensures forall i :: 0 <= i < |r| ==>
      r[i].id == todos[i].id && r[i].completed == todos[i].completed
    ensures forall i :: 0 <= i < |r| && todos[i].id == id ==> r[i].text == newText
    ensures forall i :: 0 <= i < |r| && todos[i].id != id ==> r[i] == todos[i]
  {
    seq(|todos|, i requires 0 <= i < |todos| =>
      if todos[i].id == id then todos[i].(text := newText) else todos[i])
  }

  function ClearCompleted(todos: seq<Item>): (r: seq<Item>)
    ensures forall t :: t in r <==> t in todos && !t.completed
    ensures IsSubsequence(r, todos)
  {
    FilterMembers(todos, IsActive);
    FilterIsSubsequence(todos, IsActive);
    Filter(todos, IsActive)
  }

  /** The "items left" counter: every item not completed. */
  function Remaining(todos: seq<Item>): (r: nat)
    ensures r + |Filter(todos, IsCompleted)| == |todos|
  {
    FilterComplement(todos, IsActive, IsCompleted);
    |Filter(todos, IsActive)|
  }

  /** The visible list for the filter selection; any selection other than
      "active" and "completed" shows everything. */
  function FilteredTodos(todos: seq<Item>, filter: string): (r: seq<Item>)
    ensures filter == "active" ==> forall t :: t in r <==> t in todos && !t.completed
    ensures filter == "completed" ==> forall t :: t in r <==> t in todos && t.completed
    ensures filter != "active" && filter != "completed" ==> r == todos
    ensures IsSubsequence(r, todos)
  {
    FilterMembers(todos, IsActive);
    FilterIsSubsequence(todos, IsActive);
    FilterMembers(todos, IsCompleted);
    FilterIsSubsequence(todos, IsCompleted);
    IsSubsequenceReflexive(todos);
    if filter == "active" then Filter(todos, IsActive)
    else if filter == "completed" then Filter(todos, IsCompleted)
    else todos
  }

  /** In a list with distinct ids, nothing the filter keeps from the tail
      shares the head's id. */
  lemma HeadIdNotInFilteredTail(todos: seq<Item>, p: Item -> bool)
    requires DistinctIds(todos)
    requires todos != []
    ensures forall t :: t in Filter(todos[1..], p) ==> t.id != todos[0].id
  {
    var rest := todos[1..];
    FilterMembers(rest, p);
    forall t | t in Filter(rest, p) ensures t.id != todos[0].id {
      var k :| 0 <= k < |rest| && rest[k] == t;
      assert todos[k + 1] == t;
    }
  }

  /** Filtering a list with distinct ids yields a list with distinct ids. */
  lemma {:induction false} FilterKeepsDistinctIds(todos: seq<Item>, p: Item -> bool)
    requires DistinctIds(todos)
    ensures DistinctIds(Filter(todos, p))
  {
    if todos != [] {
      var rest := todos[1..];
      FilterKeepsDistinctIds(rest, p);
      var f := Filter(rest, p);
      if p(todos[0]) {
        HeadIdNotInFilteredTail(todos, p);
        var r := [todos[0]] + f;
        assert Filter(todos, p) == r;
        forall i, j | 0 <= i < j < |r| ensures r[i].id != r[j].id {
          assert r[j] == f[j - 1] && r[j] in f;
          if i > 0 {
            assert r[i] == f[i - 1];
          }
        }
      } else {
        assert Filter(todos, p) == f;
      }
    }
  }

  /** Toggling keeps ids pairwise distinct. */
  lemma ToggleKeepsDistinctIds(todos: seq<Item>, id: Id)
    requires DistinctIds(todos)
    ensures DistinctIds(ToggleTodo(todos, id))
  {
  }

  /** Deleting keeps ids pairwise distinct. */
  lemma DeleteKeepsDistinctIds(todos: seq<Item>, id: Id)
    requires DistinctIds(todos)
    ensures DistinctIds(DeleteTodo(todos, id))
  {
    FilterKeepsDistinctIds(todos, OtherThan(id));
  }

  /** Editing keeps ids pairwise distinct. */
  lemma EditKeepsDistinctIds(todos: seq<Item>, id: Id, newText: string)
    requires DistinctIds(todos)
    ensures DistinctIds(EditTodo(todos, id, newText))
  {
  }

  /** Clearing completed items keeps ids pairwise distinct. */
  lemma ClearCompletedKeepsDistinctIds(todos: seq<Item>)
    requires DistinctIds(todos)
    ensures DistinctIds(ClearCompleted(todos))
  {
    FilterKeepsDistinctIds(todos, IsActive);
  }

  /** Toggling keeps every stored text as it was. */
  lemma ToggleKeepsTextsTrimmed(todos: seq<Item>, id: Id)
    requires TextsTrimmed(todos)
    ensures TextsTrimmed(ToggleTodo(todos, id))
  {
  }

  /** Editing to a non-blank, trimmed text keeps every stored text non-blank and trimmed. */
  lemma EditKeepsTextsTrimmed(todos: seq<Item>, id: Id, newText: string)
    requires TextsTrimmed(todos)
    requires newText != [] && IsTrimmed(newText)
    ensures TextsTrimmed(EditTodo(todos, id, newText))
  {
  }

  /** Toggling the same id twice restores the list. */
  lemma ToggleTwiceRestores(todos: seq<Item>, id: Id)
    ensures ToggleTodo(ToggleTodo(todos, id), id) == todos
  {
  }

  /** Deleting a present id from a list with distinct ids removes exactly one item. */
  lemma {:induction false} DeleteRemovesOne(todos: seq<Item>, id: Id)
    requires DistinctIds(todos)
    requires HasId(todos, id)
    ensures |DeleteTodo(todos, id)| == |todos| - 1
  {
    var rest := todos[1..];
    assert todos == [todos[0]] + rest;
    if todos[0].id == id {
      forall t | t in rest ensures OtherThan(id)(t) {
        var k :| 0 <= k < |rest| && rest[k] == t;
        assert todos[k + 1] == t;
      }
      FilterKeepsAll(rest, OtherThan(id));
    } else {
      var t :| t in todos && t.id == id;
      assert t in rest;
      DeleteRemovesOne(rest, id);
    }
  }

  /** Deleting an id that is not in the list changes nothing. */
  lemma DeleteAbsentIsNoOp(todos: seq<Item>, id: Id)
    requires !HasId(todos, id)
    ensures DeleteTodo(todos, id) == todos
  {
    FilterKeepsAll(todos, OtherThan(id));
  }

  /** Editing an item to the text it already has changes nothing (given distinct ids). */
  lemma EditSameTextIsNoOp(todos: seq<Item>, i: nat)
    requires DistinctIds(todos)
    requires i < |todos|
    ensures EditTodo(todos, todos[i].id, todos[i].text) == todos
  {
  }

  /** `clearCompleted` is idempotent and does not change the "items left" count,
      which afterwards is the length of the list. */
  lemma ClearCompletedStable(todos: seq<Item>)
    ensures ClearCompleted(ClearCompleted(todos)) == ClearCompleted(todos)
    ensures Remaining(ClearCompleted(todos)) == Remaining(todos)
    ensures Remaining(ClearCompleted(todos)) == |ClearCompleted(todos)|
  {
    FilterKeepsAll(ClearCompleted(todos), IsActive);
  }

  /** The "active" and "completed" views split the list, and the counter is the
      length of the "active" view. */
  lemma ViewsSplit(todos: seq<Item>)
    ensures |FilteredTodos(todos, "active")| + |FilteredTodos(todos, "completed")| == |todos|
    ensures Remaining(todos) == |FilteredTodos(todos, "active")|
  {
    FilterComplement(todos, IsActive, IsCompleted);
  }

  /** Adding a non-blank item raises the counter by one. */
  lemma AddRaisesRemaining(todos: seq<Item>, input: string, freshId: Id)
    requires !HasId(todos, freshId)
    requires Trim(input) != []
    ensures Remaining(AddTodo(todos, input, freshId)) == Remaining(todos) + 1
  {
    FilterAppend(todos, [Item(freshId, Trim(input), false)], IsActive);
  }

  /** Toggling a present id moves the counter by exactly one, down when the item
      becomes completed and up when it becomes active again. */
  lemma ToggleMovesRemaining(todos: seq<Item>, i: nat)
    requires DistinctIds(todos)
    requires i < |todos|
    ensures Remaining(ToggleTodo(todos, todos[i].id))
         == if todos[i].completed then Remaining(todos) + 1 else Remaining(todos) - 1
  {
    var id := todos[i].id;
    var r := ToggleTodo(todos, id);
    var pre, post := todos[..i], todos[i + 1..];
    assert todos == pre + [todos[i]] + post;
    assert r == pre + [r[i]] + post;
    FilterAppend(pre + [todos[i]], post, IsActive);
    FilterAppend(pre, [todos[i]], IsActive);
    FilterAppend(pre + [r[i]], post, IsActive);
    FilterAppend(pre, [r[i]], IsActive);
  }

  /** Start empty, add "A", add "B", complete "A": the "active" view is [B], the
      "completed" view is [A] and one item is left. */
  lemma Walkthrough(a: Id, b: Id)
    requires a != b
    ensures var s1 := AddTodo([], "A", a);
            var s2 := AddTodo(s1, "B", b);
            var s3 := ToggleTodo(s2, a);
            && FilteredTodos(s3, "active") == [Item(b, "B", false)]
            && FilteredTodos(s3, "completed") == [Item(a, "A", true)]
            && Remaining(s3) == 1
  {
    assert IsTrimmed("A") && IsTrimmed("B");
    var s1 := AddTodo([], "A", a);
    assert s1 == [Item(a, "A", false)];
    var s2 := AddTodo(s1, "B", b);
    assert s2 == [Item(a, "A", false), Item(b, "B", false)];
    var s3 := ToggleTodo(s2, a);
    assert s3 == [Item(a, "A", true), Item(b, "B", false)];
    FilterCons(s3[0], s3[1..], IsActive);
    FilterCons(s3[1], [], IsActive);
    FilterCons(s3[0], s3[1..], IsCompleted);
    FilterCons(s3[1], [], IsCompleted);
  }
}
