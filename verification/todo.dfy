/**
 The data model of the todo widget: a todo record, the view filter, the
 component state, the seed list the widget starts with, and the whitespace
 trimming that add-todo uses to reject blank input.
 */
module TodoModel {

  /** A value that may be missing: a todo's time note, the recorded drag
      index, the notice add-todo raises, the state a step leaves. */
  datatype Option<+T> = None | Some(value: T)

  /** One todo. `id` is a JavaScript number that is always an integer here
      (a millisecond timestamp or a seed constant); `time` is an optional
      free-text annotation that only seed data carries. */
  datatype Todo = Todo(id: int, text: string, completed: bool, time: Option<string>)

  /** The three filter buttons. */
  datatype Filter = All | Active | Completed

  /** The component's state: the ordered list, the selected filter, the text
      box contents and the index recorded by the last drag start, if any. */
  datatype State = State(
    todos: seq<Todo>,
    filter: Filter,
    inputValue: string,
    draggedItem: Option<nat>)

  /** No two todos of the list share an id. */
  predicate UniqueIds(todos: seq<Todo>) {
    forall i, j :: 0 <= i < j < |todos| ==> todos[i].id != todos[j].id
  }

  /** Some todo of the list has the given id. */
  predicate HasId(todos: seq<Todo>, id: int) {
    exists i :: 0 <= i < |todos| && todos[i].id == id
  }

  /** The six todos the list is seeded with. */
  function SeedTodos(): (todos: seq<Todo>)
    ensures |todos| == 6
    ensures UniqueIds(todos)
    ensures forall i :: 0 <= i < |todos| ==> todos[i].id == i + 1
    ensures forall i :: 0 <= i < |todos| ==> (todos[i].completed <==> i == 0)
    ensures todos[0].time == Some("3 hours left")
    ensures forall i :: 1 <= i < |todos| ==> todos[i].time == None
  {
    [ Todo(1, "Complete online JavaScript course", true, Some("3 hours left")),
      Todo(2, "Jog around the park 3x", false, None),
      Todo(3, "10 minutes meditation", false, None),
      Todo(4, "Read for 1 hour", false, None),
      Todo(5, "Pick up groceries", false, None),
      Todo(6, "Complete Todo App on Frontend Mentor", false, None) ]
  }

  /** The state the component mounts with. */
  function InitialState(): (st: State)
    ensures UniqueIds(st.todos) && |st.todos| == 6
    ensures st.filter == All && st.inputValue == "" && st.draggedItem == None
  {
    State(SeedTodos(), All, "", None)
  }

  /** The characters that ECMAScript's String.prototype.trim strips: the
      WhiteSpace production (TAB, VT, FF, ZWNBSP and every Unicode "Zs"
      space separator) and the LineTerminator production (LF, CR, LS, PS). */
  predicate IsJsWhitespace(c: char) {
    || c == '\t' || c == '\n' || c == '\U{000B}' || c == '\U{000C}' || c == '\r'
    || c == ' ' || c == '\U{00A0}' || c == '\U{1680}'
    || ('\U{2000}' <= c <= '\U{200A}')
    || c == '\U{2028}' || c == '\U{2029}' || c == '\U{202F}' || c == '\U{205F}'
    || c == '\U{3000}' || c == '\U{FEFF}'
  }

  /** Every character of `s` is whitespace (so the empty string is blank). */
  predicate IsBlank(s: string) {
    forall i :: 0 <= i < |s| ==> IsJsWhitespace(s[i])
  }

  /** `s` without its leading whitespace. */
  function TrimStart(s: string): (r: string)
    ensures |r| <= |s| && r == s[|s| - |r|..]
    ensures forall i :: 0 <= i < |s| - |r| ==> IsJsWhitespace(s[i])
    ensures |r| > 0 ==> !IsJsWhitespace(r[0])
  {
    if |s| > 0 && IsJsWhitespace(s[0]) then TrimStart(s[1..]) else s
  }

  /** `s` without its trailing whitespace. */
  function TrimEnd(s: string): (r: string)
    ensures |r| <= |s| && r == s[..|r|]
    ensures forall i :: |r| <= i < |s| ==> IsJsWhitespace(s[i])
    ensures |r| > 0 ==> !IsJsWhitespace(r[|r| - 1])
  {
    if |s| > 0 && IsJsWhitespace(s[|s| - 1]) then TrimEnd(s[..|s| - 1]) else s
  }

  /** String.prototype.trim: strip whitespace at both ends. */
  function Trim(s: string): (r: string)
    ensures |r| <= |s|
    ensures |r| > 0 ==> !IsJsWhitespace(r[0]) && !IsJsWhitespace(r[|r| - 1])
  {
    var t := TrimStart(s);
    var r := TrimEnd(t);
    assert |r| > 0 ==> r[0] == t[0];
    r
  }

  /** The trimmed string is the stretch of `s` between a blank head and a
      blank tail. */
  lemma TrimSlice(s: string)
    ensures
      var a := |s| - |TrimStart(s)|;
      var r := Trim(s);
      && a + |r| <= |s|
      && r == s[a..a + |r|]
      && IsBlank(s[..a])
      && IsBlank(s[a + |r|..])
  {
    var t := TrimStart(s);
    var r := Trim(s);
    var a := |s| - |t|;
    assert t == s[a..];
    assert r == t[..|r|];
    var head, tail := s[..a], s[a + |r|..];
    forall i | 0 <= i < |head| ensures IsJsWhitespace(head[i]) {
      assert head[i] == s[i];
    }
    forall i | 0 <= i < |tail| ensures IsJsWhitespace(tail[i]) {
      assert tail[i] == t[|r| + i];
    }
  }

  /** Trimming leaves nothing exactly when the string is blank. */
  lemma TrimEmptyIffBlank(s: string)
    ensures Trim(s) == "" <==> IsBlank(s)
  {
    var a := TrimStart(s);
    if Trim(s) == "" {
      // the whole of `a` is trailing whitespace, yet it cannot start with any
      assert |a| == 0;
    } else {
      assert |a| > 0 && !IsJsWhitespace(a[0]);
      assert a[0] == s[|s| - |a|];
    }
  }
}
