/**
 The component as a whole: every user gesture the markup wires to a
 handler that can change state, and the step that applies it. Drag-over only
 touches the DOM and has no event here; drag-end has one, because the state
 it fails to clear matters to the drop that follows.
 */
module TodoApp {
  import opened TodoModel
  import opened TodoLists
  import opened TodoOps
  import opened TodoView
  import opened DragDrop

  /** A gesture that reaches a state-changing handler. */
  datatype Event =
    | TypeText(value: string)      // the text box's change event
    | AddClicked(id: int)          // the Add button or Enter; `id` is the clock reading
    | ToggleClicked(id: int)       // a row's completion button
    | DeleteClicked(id: int)       // a row's delete button
    | ClearCompletedClicked        // the clear-completed button
    | FilterClicked(f: Filter)     // one of the three filter buttons
    | DragStarted(index: nat)      // drag start on a visible row
    | DragEnded                    // the end of a drag, dropped or not
    | Dropped(index: nat)          // drop on a visible row

  /** The event can be delivered in this state. A drag start or a drop is
      made on a row of the visible list, so its index is below the visible
      length and hence a position in the full list. Nothing ties the
      recorded drag index to the current rows: a drag ended elsewhere leaves
      it set, and any drag (of text from the input box, say) can then be
      dropped on a row. */
  predicate CanHandle(st: State, ev: Event): (ok: bool)
    ensures ok && (ev.DragStarted? || ev.Dropped?) ==> ev.index < |st.todos|
  {
    match ev
    case DragStarted(i) => i < |FilteredTodos(st.todos, st.filter)|
    case Dropped(i) => i < |FilteredTodos(st.todos, st.filter)|
    case _ => true
  }

  /** The state after the handler for `ev` has run, or `None` when the
      handler leaves the list holding `undefined` (a drop with a recorded
      index past the end of the list), which the next render throws on. */
  function Handle(st: State, ev: Event): (r: Option<State>)
    requires CanHandle(st, ev)
    ensures r.None? <==>
      ev.Dropped? && st.draggedItem.Some? && |st.todos| <= st.draggedItem.value
    ensures r.Some? && !ev.TypeText? && !ev.AddClicked? ==> r.value.inputValue == st.inputValue
    ensures r.Some? && !ev.FilterClicked? ==> r.value.filter == st.filter
    ensures r.Some? && !ev.DragStarted? && !ev.Dropped? ==> r.value.draggedItem == st.draggedItem
    ensures r.Some? && (ev.TypeText? || ev.FilterClicked? || ev.DragStarted? || ev.DragEnded?) ==>
      r.value.todos == st.todos
    ensures r.Some? ==> |r.value.todos| <= |st.todos| + 1
    ensures ev.DragEnded? ==> r == Some(st)
  {
    match ev
    case TypeText(v) => Some(st.(inputValue := v))
    case AddClicked(id) => Some(AddTodo(st, id).state)
    case ToggleClicked(id) => Some(st.(todos := Toggle(st.todos, id)))
    case DeleteClicked(id) =>
      var r := Delete(st.todos, id);
      SubseqLength(r, st.todos);
      Some(st.(todos := r))
    case ClearCompletedClicked =>
      var r := ClearCompleted(st.todos);
      SubseqLength(r, st.todos);
      Some(st.(todos := r))
    case FilterClicked(f) => Some(st.(filter := f))
    case DragStarted(i) => Some(DragStart(st, i))
    case DragEnded => Some(st)
    case Dropped(i) => Drop(st, i)
  }

  /** Every handler keeps the ids unique, provided the clock reading an add
      uses is not already an id. */
  lemma HandleKeepsIdsUnique(st: State, ev: Event)
    requires CanHandle(st, ev)
    requires UniqueIds(st.todos)
    requires ev.AddClicked? ==> !HasId(st.todos, ev.id)
    ensures Handle(st, ev).Some? ==> UniqueIds(Handle(st, ev).value.todos)
  {
    match ev
    case AddClicked(id) => AddKeepsIdsUnique(st, id);
    case ToggleClicked(id) => ToggleKeepsIdsUnique(st.todos, id);
    case DeleteClicked(id) => DeleteKeepsIdsUnique(st.todos, id);
    case ClearCompletedClicked => ClearCompletedKeepsIdsUnique(st.todos);
    case Dropped(i) => DropKeepsIdsUnique(st, i);
    case _ =>
  }

  /** A session: with [a, done b] and "c" typed, add "c", complete a, clear
      the completed todos and show the active ones. Only "c" is left, and the
      counters read 1 / 1 / 0. */
  lemma AddToggleClearSession()
    ensures
      var a := Todo(1, "a", false, None);
      var b := Todo(2, "b", true, None);
      var c := Todo(3, "c", false, None);
      var s1 := Handle(State([a, b], All, "c", None), AddClicked(3)).value;
      var s2 := Handle(s1, ToggleClicked(1)).value;
      var s3 := Handle(s2, ClearCompletedClicked).value;
      var s4 := Handle(s3, FilterClicked(Active)).value;
      && s1.todos == [a, b, c] && s1.inputValue == ""
      && s3.todos == [c]
      && FilteredTodos(s4.todos, s4.filter) == [c]
      && ComputeStats(s4.todos) == Stats(1, 1, 0)
  {
    var a := Todo(1, "a", false, None);
    var b := Todo(2, "b", true, None);
    var c := Todo(3, "c", false, None);
    var a' := a.(completed := true);
    SessionAdd(a, b, c);
    SessionToggle(a, b, c);
    SessionClear(a', b, c);
    SessionShow(c);
  }

  /** The add step of the session above. */
  lemma SessionAdd(a: Todo, b: Todo, c: Todo)
    requires c == Todo(3, "c", false, None)
    ensures Handle(State([a, b], All, "c", None), AddClicked(3)) == Some(State([a, b, c], All, "", None))
  {
    assert !IsJsWhitespace("c"[0]);
    assert [a, b] + [c] == [a, b, c];
  }

  /** The toggle step of the session above. */
  lemma SessionToggle(a: Todo, b: Todo, c: Todo)
    requires a.id == 1 && b.id == 2 && c.id == 3
    ensures Handle(State([a, b, c], All, "", None), ToggleClicked(1))
        == Some(State([a.(completed := !a.completed), b, c], All, "", None))
  {
    var r := Toggle([a, b, c], 1);
    assert r == [a.(completed := !a.completed), b, c];
  }

  /** The final render of the session above: the "active" view and the
      counters of a list holding one active todo. */
  lemma SessionShow(c: Todo)
    requires !c.completed
    ensures FilteredTodos([c], Active) == [c]
    ensures ComputeStats([c]) == Stats(1, 1, 0)
  {
    assert FilterBy([c], IsDone) == [];
  }

  /** The clear-completed step of the session above. */
  lemma SessionClear(a: Todo, b: Todo, c: Todo)
    requires a.completed && b.completed && !c.completed
    ensures Handle(State([a, b, c], All, "", None), ClearCompletedClicked)
        == Some(State([c], All, "", None))
  {
    assert FilterBy([c], IsActive) == [c];
    assert FilterBy([b, c], IsActive) == [c] by {
      assert [b, c][1..] == [c];
    }
    assert [a, b, c][1..] == [b, c];
  }

  /** A drag that ends off the list leaves its index recorded. Here row 5
      (the last of six) is dragged and let go elsewhere, todo 6 is deleted,
      and then any drag is dropped on row 0: the recorded index is past the
      end of the list, so the handler splices in `undefined`. */
  lemma StaleDropInsertsUndefined()
    ensures
      var s1 := Handle(InitialState(), DragStarted(5)).value;
      var s1' := Handle(s1, DragEnded).value;
      var s2 := Handle(s1', DeleteClicked(6)).value;
      && s2.draggedItem == Some(5)
      && |FilteredTodos(s2.todos, s2.filter)| == 5
      && Handle(s2, Dropped(0)) == None
  {
    StaleDragSteps(SeedTodos());
    SeedDeleteLast();
  }

  /** The steps of the two traces above before the drop, for any list of
      more than five todos: dragging row 5 records 5, and neither deleting
      todo 6 nor choosing the "completed" filter clears it. */
  lemma StaleDragSteps(todos: seq<Todo>)
    requires 5 < |todos|
    ensures Handle(State(todos, All, "", None), DragStarted(5)) == Some(State(todos, All, "", Some(5)))
    ensures Handle(State(todos, All, "", Some(5)), DragEnded) == Some(State(todos, All, "", Some(5)))
    ensures Handle(State(todos, All, "", Some(5)), DeleteClicked(6))
        == Some(State(Delete(todos, 6), All, "", Some(5)))
    ensures Handle(State(todos, All, "", Some(5)), FilterClicked(Completed))
        == Some(State(todos, Completed, "", Some(5)))
  {
  }

  /** Deleting todo 6 from the seed list leaves five todos. */
  lemma SeedDeleteLast()
    ensures |Delete(SeedTodos(), 6)| == 5
  {
    var seed := SeedTodos();
    assert seed[5].id == 6;
    DeletePresent(seed, 6);
  }

  /** The same stale index inside the list: row 5 is dragged and let go
      elsewhere, the "completed" filter is chosen, and a drop on its only
      row moves the hidden todo 6 to the top of the list. */
  lemma StaleDropMovesHiddenTodo()
    ensures
      var s1 := Handle(InitialState(), DragStarted(5)).value;
      var s1' := Handle(s1, DragEnded).value;
      var s2 := Handle(s1', FilterClicked(Completed)).value;
      && s2.draggedItem == Some(5)
      && FilteredTodos(s2.todos, s2.filter) == [SeedTodos()[0]]
      && Handle(s2, Dropped(0)).Some?
      && Handle(s2, Dropped(0)).value.todos[0] == SeedTodos()[5]
      && !SeedTodos()[5].completed
  {
    var seed := SeedTodos();
    StaleDragSteps(seed);
    OnlyFirstCompleted(seed);
    var s2 := State(seed, Completed, "", Some(5));
    var s1 := State(seed, All, "", Some(5));
    assert Handle(InitialState(), DragStarted(5)).value == s1;
    assert Handle(s1, DragEnded).value == s1;
    assert Handle(s1, FilterClicked(Completed)).value == s2;
    var r := Drop(s2, 0);
    assert r.Some? && r.value.todos[0] == seed[5];
    assert Handle(s2, Dropped(0)) == r;
  }

  /** A list whose only completed todo is the first shows just that todo
      under the "completed" filter. */
  lemma OnlyFirstCompleted(todos: seq<Todo>)
    requires 0 < |todos|
    requires forall i :: 0 <= i < |todos| ==> (todos[i].completed <==> i == 0)
    ensures FilteredTodos(todos, Completed) == [todos[0]]
  {
    var rest := todos[1..];
    assert forall i :: 0 <= i < |rest| ==> rest[i] == todos[i + 1];
    FilterNonePass(rest, IsDone);
    assert FilterBy(todos, IsDone) == [todos[0]] + FilterBy(rest, IsDone);
  }

  /** On the state of `StaleDropInsertsUndefined`, the corrected drop ignores
      the stale index: the list is kept and the drag record cleared. */
  lemma StaleDropIgnoredWhenCorrected()
    ensures
      var st := State(Delete(SeedTodos(), 6), All, "", Some(5));
      && |FilteredTodos(st.todos, st.filter)| == 5
      && DropVisible(st, 0) == st.(draggedItem := None)
  {
    SeedDeleteLast();
  }

  /** A stale index inside the list. Row `from` is dragged and the drag ends
      off the list, so the handler as written keeps the index; a drop of
      anything on row `to` then moves the todo at `from`, which nobody
      dragged this time. With the corrected drag end the same drop keeps the
      list. */
  lemma StaleDropInsideList(todos: seq<Todo>, from: nat, to: nat)
    requires from < |todos| && to < |todos| && from != to
    ensures
      var s1 := Handle(State(todos, All, "", None), DragStarted(from)).value;
      var s2 := Handle(s1, DragEnded).value;
      && s2 == State(todos, All, "", Some(from))
      && Handle(s2, Dropped(to)).Some?
      && Handle(s2, Dropped(to)).value.todos[to] == todos[from]
      && Drop(DragEnd(s2), to) == Some(State(todos, All, "", None))
  {
    var s2 := State(todos, All, "", Some(from));
    assert Handle(s2, Dropped(to)) == Drop(s2, to);
    DropAfterDragEnd(s2, to);
  }
}
