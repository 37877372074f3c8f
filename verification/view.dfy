/**
 The values recomputed on every render: the list the selected filter shows,
 and the three counters. Both are functions of the list (and the filter), so
 computing them cannot change the state.
 */
module TodoView {
  import opened TodoModel
  import opened TodoLists
  import opened TodoOps

  /** The test the filtered view applies for each filter button. */
  function Shows(f: Filter): Todo -> bool {
    match f
    case Completed => IsDone
    case Active => IsActive
    case All => (t: Todo) => true
  }

  /** The todos the selected filter shows, in list order. */
  function FilteredTodos(todos: seq<Todo>, f: Filter): (r: seq<Todo>)
    ensures IsSubseq(r, todos)
    ensures f == All ==> r == todos
    ensures f == Active ==> forall t :: t in r <==> t in todos && !t.completed
    ensures f == Completed ==> forall t :: t in r <==> t in todos && t.completed
  {
    FilterIdentity(todos, Shows(All));
    FilterIsSubseq(todos, Shows(f));
    FilterMembers(todos, Shows(f));
    FilterBy(todos, Shows(f))
  }

  /** The three counters shown above the list. */
  datatype Stats = Stats(total: nat, active: nat, completed: nat)

  /** The counters: all todos, the active ones, the completed ones. */
  function ComputeStats(todos: seq<Todo>): (s: Stats)
    ensures s.total == |todos|
    ensures s.total == s.active + s.completed
    ensures s.active == |FilteredTodos(todos, Active)|
    ensures s.completed == |FilteredTodos(todos, Completed)|
  {
    ActivePlusDone(todos);
    Stats(|todos|, |FilterBy(todos, IsActive)|, |FilterBy(todos, IsDone)|)
  }

  /** Clear-completed leaves what the "active" view showed, as many todos as
      the active counter said, and nothing completed. */
  lemma ClearCompletedMatchesStats(todos: seq<Todo>)
    ensures ClearCompleted(todos) == FilteredTodos(todos, Active)
    ensures |ClearCompleted(todos)| == ComputeStats(todos).active
    ensures ComputeStats(ClearCompleted(todos)).completed == 0
  {
    var r := ClearCompleted(todos);
    FilterIdentity(r, IsActive);
  }
}
