/**
 The four handlers that change the todo list: add, toggle, delete and
 clear-completed. Each is a pure function from the old state (or list) to the
 new one, standing for the `setTodos` call it makes.
 */
module TodoOps {
  import opened TodoModel
  import opened TodoLists

  /** The text of the blocking notice add-todo raises on blank input. */
  const EmptyInputAlert: string := "Please enter a todo!"

  /** What add-todo leaves behind: the next state, and the notice it raised
      (`None` when it raised none). */
  datatype AddOutcome = AddOutcome(state: State, alert: Option<string>)

  /** The add-todo handler. `id` stands for the `Date.now()` reading taken at
      the click. The test is on the trimmed input; the stored text is the
      input as typed. */
  function AddTodo(st: State, id: int): (out: AddOutcome)
    ensures IsBlank(st.inputValue) ==>
      out.state == st && out.alert == Some(EmptyInputAlert)
    ensures !IsBlank(st.inputValue) ==>
      && out.alert == None
      && |out.state.todos| == |st.todos| + 1
      && out.state.todos[..|st.todos|] == st.todos
      && out.state.todos[|st.todos|] == Todo(id, st.inputValue, false, None)
      && out.state.inputValue == ""
      && out.state.filter == st.filter
      && out.state.draggedItem == st.draggedItem
  {
    TrimEmptyIffBlank(st.inputValue);
    if Trim(st.inputValue) == "" then
      AddOutcome(st, Some(EmptyInputAlert))
    else
      var newTodo := Todo(id, st.inputValue, false, None);
      AddOutcome(st.(todos := st.todos + [newTodo], inputValue := ""), None)
  }

  /** Adding with an id no todo has keeps the ids unique. */
  lemma AddKeepsIdsUnique(st: State, id: int)
    requires UniqueIds(st.todos) && !HasId(st.todos, id)
    ensures UniqueIds(AddTodo(st, id).state.todos)
  {
    var r := AddTodo(st, id).state.todos;
    if !IsBlank(st.inputValue) {
      forall i, j | 0 <= i < j < |r|
        ensures r[i].id != r[j].id
      {
        if j == |st.todos| {
          assert r[i] == st.todos[i];
        } else {
          assert r[i] == st.todos[i] && r[j] == st.todos[j];
        }
      }
    }
  }

  /** `t` with its completion flipped when its id is `id`. */
  function ToggleIf(t: Todo, id: int): Todo {
    if t.id == id then t.(completed := !t.completed) else t
  }

  /** The toggle handler: `todos.map` flipping the todos whose id matches. */
  function Toggle(todos: seq<Todo>, id: int): (r: seq<Todo>)
    ensures |r| == |todos|
    ensures forall i :: 0 <= i < |r| ==>
      && r[i].id == todos[i].id
      && r[i].text == todos[i].text
      && r[i].time == todos[i].time
      && (r[i].completed <==> (todos[i].completed != (todos[i].id == id)))
  {
    if |todos| == 0 then [] else [ToggleIf(todos[0], id)] + Toggle(todos[1..], id)
  }

  /** Toggling the same id twice gives back the list. */
  lemma ToggleInvolution(todos: seq<Todo>, id: int)
    ensures Toggle(Toggle(todos, id), id) == todos
  {
    var r := Toggle(Toggle(todos, id), id);
    assert forall i :: 0 <= i < |r| ==> r[i] == todos[i];
  }

  /** Toggling an id no todo has changes nothing. */
  lemma ToggleAbsent(todos: seq<Todo>, id: int)
    requires !HasId(todos, id)
    ensures Toggle(todos, id) == todos
  {
    var r := Toggle(todos, id);
    assert forall i :: 0 <= i < |r| ==> r[i] == todos[i];
  }

  /** Toggling keeps the ids unique. */
  lemma ToggleKeepsIdsUnique(todos: seq<Todo>, id: int)
    requires UniqueIds(todos)
    ensures UniqueIds(Toggle(todos, id))
  {
  }

  /** The test the delete handler filters with: the id differs from `id`. */
  function IdDiffers(id: int): Todo -> bool {
    (t: Todo) => t.id != id
  }

  /** The todos carrying `id`: the ones the delete handler drops. */
  function IdIs(id: int): Todo -> bool {
    (t: Todo) => t.id == id
  }

  /** The delete handler: keep the todos whose id differs, in order. Exactly
      the todos carrying the id are removed, each copy of a repeated record
      counting once. */
  function Delete(todos: seq<Todo>, id: int): (r: seq<Todo>)
    ensures IsSubseq(r, todos)
    ensures !HasId(r, id)
    ensures forall t :: t in r <==> t in todos && t.id != id
    ensures |r| == |todos| - |FilterBy(todos, IdIs(id))|
  {
    FilterComplementLength(todos, IdIs(id), IdDiffers(id));
    FilterIsSubseq(todos, IdDiffers(id));
    FilterMembers(todos, IdDiffers(id));
    FilterBy(todos, IdDiffers(id))
  }

  /** Deleting an id no todo has changes nothing. */
  lemma DeleteAbsent(todos: seq<Todo>, id: int)
    requires !HasId(todos, id)
    ensures Delete(todos, id) == todos
  {
    FilterIdentity(todos, IdDiffers(id));
  }

  /** With unique ids, deleting an id that is present removes exactly one
      todo. */
  lemma {:induction false} DeletePresent(todos: seq<Todo>, id: int)
    requires UniqueIds(todos) && HasId(todos, id)
    ensures |Delete(todos, id)| == |todos| - 1
  {
    var rest := todos[1..];
    if todos[0].id == id {
      assert !HasId(rest, id);
      DeleteAbsent(rest, id);
    } else {
      var k :| 0 <= k < |todos| && todos[k].id == id;
      assert rest[k - 1].id == id;
      DeletePresent(rest, id);
    }
  }

  /** Deleting keeps the ids unique. */
  lemma DeleteKeepsIdsUnique(todos: seq<Todo>, id: int)
    requires UniqueIds(todos)
    ensures UniqueIds(Delete(todos, id))
  {
    FilterUnique(todos, IdDiffers(id));
  }

  /** A todo that is not completed. */
  predicate IsActive(t: Todo) {
    !t.completed
  }

  /** A completed todo. */
  predicate IsDone(t: Todo) {
    t.completed
  }

  /** The clear-completed handler: keep the todos that are not completed. */
  function ClearCompleted(todos: seq<Todo>): (r: seq<Todo>)
    ensures IsSubseq(r, todos)
    ensures forall i :: 0 <= i < |r| ==> !r[i].completed
    ensures forall t :: t in r <==> t in todos && !t.completed
  {
    FilterIsSubseq(todos, IsActive);
    FilterMembers(todos, IsActive);
    FilterBy(todos, IsActive)
  }

  /** Clearing twice is clearing once. */
  lemma ClearCompletedIdempotent(todos: seq<Todo>)
    ensures ClearCompleted(ClearCompleted(todos)) == ClearCompleted(todos)
  {
    FilterIdempotent(todos, IsActive);
  }

  /** Every todo is either active or completed. */
  lemma {:induction false} ActivePlusDone(todos: seq<Todo>)
    ensures |FilterBy(todos, IsActive)| + |FilterBy(todos, IsDone)| == |todos|
  {
    if |todos| > 0 {
      ActivePlusDone(todos[1..]);
    }
  }

  /** Clearing removes exactly the completed todos. */
  lemma ClearCompletedLength(todos: seq<Todo>)
    ensures |ClearCompleted(todos)| == |todos| - |FilterBy(todos, IsDone)|
  {
    ActivePlusDone(todos);
  }

  /** Clearing keeps the ids unique. */
  lemma ClearCompletedKeepsIdsUnique(todos: seq<Todo>)
    requires UniqueIds(todos)
    ensures UniqueIds(ClearCompleted(todos))
  {
    FilterUnique(todos, IsActive);
  }
}
