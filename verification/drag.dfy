/**
 Drag-and-drop reordering. A drag start records the index of the dragged
 row; a drop onto another row removes the todo at the recorded index and
 inserts it at the drop index (two `splice` calls), then forgets the drag.

 The row indices come from the FILTERED view, but the splice is applied to
 the full list. `Drop` models exactly that, over indices into the full list;
 it is the intended move only when the filter is `All`. `DropVisible` is the
 corrected drop, which maps both visible indices to their positions in the
 full list first.
 */
module DragDrop {
  import opened TodoModel
  import opened TodoLists
  import opened TodoOps
  import opened TodoView

  /** `[...s]`, then `splice(from, 1)`, then `splice(to, 0, moved)`. */
  function Move<T>(s: seq<T>, from: nat, to: nat): (r: seq<T>)
    requires from < |s| && to < |s|
    ensures |r| == |s|
    ensures r[to] == s[from]
    ensures from <= to ==>
      && (forall i :: 0 <= i < from ==> r[i] == s[i])
      && (forall i :: from <= i < to ==> r[i] == s[i + 1])
      && (forall i :: to < i < |s| ==> r[i] == s[i])
    ensures to < from ==>
      && (forall i :: 0 <= i < to ==> r[i] == s[i])
      && (forall i :: to < i <= from ==> r[i] == s[i - 1])
      && (forall i :: from < i < |s| ==> r[i] == s[i])
  {
    var rest := s[..from] + s[from + 1..];
    rest[..to] + [s[from]] + rest[to..]
  }

  /** A move is a permutation: the same todos, each as often as before. */
  lemma MovePermutes<T>(s: seq<T>, from: nat, to: nat)
    requires from < |s| && to < |s|
    ensures multiset(Move(s, from, to)) == multiset(s)
  {
    var rest := s[..from] + s[from + 1..];
    assert s == s[..from] + [s[from]] + s[from + 1..];
    assert rest == rest[..to] + rest[to..];
    var r := Move(s, from, to);
    assert r == rest[..to] + [s[from]] + rest[to..];
    calc {
      multiset(r);
      multiset(rest[..to]) + multiset{s[from]} + multiset(rest[to..]);
      multiset(rest) + multiset{s[from]};
      multiset(s[..from]) + multiset(s[from + 1..]) + multiset{s[from]};
      multiset(s);
    }
  }

  /** Dragging the moved todo back to where it came from undoes the move. */
  lemma MoveInverse<T>(s: seq<T>, from: nat, to: nat)
    requires from < |s| && to < |s|
    ensures Move(Move(s, from, to), to, from) == s
  {
    var r := Move(Move(s, from, to), to, from);
    assert forall i :: 0 <= i < |s| ==> r[i] == s[i];
  }

  /** The position in `s` that position `i` of `Move(s, from, to)` comes
      from. */
  function MoveSource(n: nat, from: nat, to: nat, i: nat): (k: nat)
    requires from < n && to < n && i < n
    ensures k < n
  {
    if i == to then from
    else if from <= to && from <= i < to then i + 1
    else if to < from && to < i <= from then i - 1
    else i
  }

  /** A move only rearranges, so unique ids stay unique. */
  lemma MoveKeepsIdsUnique(s: seq<Todo>, from: nat, to: nat)
    requires from < |s| && to < |s|
    requires UniqueIds(s)
    ensures UniqueIds(Move(s, from, to))
  {
    var r := Move(s, from, to);
    forall i, j | 0 <= i < j < |r|
      ensures r[i].id != r[j].id
    {
      var a := MoveSource(|s|, from, to, i);
      var b := MoveSource(|s|, from, to, j);
      assert r[i] == s[a] && r[j] == s[b];
      if a < b {
        assert s[a].id != s[b].id;
      } else {
        assert s[b].id != s[a].id;
      }
    }
  }

  /** The drag-start handler: remember the dragged row's index. */
  function DragStart(st: State, index: nat): (r: State)
    ensures r.draggedItem == Some(index)
    ensures r.todos == st.todos && r.filter == st.filter && r.inputValue == st.inputValue
  {
    st.(draggedItem := Some(index))
  }

  /** The drag-end handler as it should be: the gesture is over, so the
      recorded index is forgotten. The handler as written only restores CSS
      classes and leaves the state as it is. */
  function DragEnd(st: State): (r: State)
    ensures r.draggedItem == None
    ensures r.todos == st.todos && r.filter == st.filter && r.inputValue == st.inputValue
  {
    st.(draggedItem := None)
  }

  /** The drop handler as written: both indices are used as positions in the
      full list. A drop needs no recorded drag and no distinct index to end
      the gesture; it moves a todo only when both hold. The recorded index
      may be stale, because ending a drag elsewhere does not clear it. When
      it is past the end of the list, the first splice removes nothing and
      the second inserts `undefined`; the next render then reads a field of
      that entry and throws, so the result is `None`. */
  function Drop(st: State, index: nat): (r: Option<State>)
    requires index < |st.todos|
    ensures r.None? <==> st.draggedItem.Some? && |st.todos| <= st.draggedItem.value
    ensures r.Some? ==>
      r.value.draggedItem == None && r.value.filter == st.filter && r.value.inputValue == st.inputValue
    ensures r.Some? && (st.draggedItem == None || st.draggedItem == Some(index)) ==>
      r.value.todos == st.todos
    ensures r.Some? && st.draggedItem.Some? && st.draggedItem.value != index ==>
      && |r.value.todos| == |st.todos|
      && multiset(r.value.todos) == multiset(st.todos)
      && r.value.todos[index] == st.todos[st.draggedItem.value]
  {
    match st.draggedItem
    case Some(from) =>
      if |st.todos| <= from then
        None
      else if from != index then
        MovePermutes(st.todos, from, index);
        Some(st.(todos := Move(st.todos, from, index), draggedItem := None))
      else
        Some(st.(draggedItem := None))
    case None => Some(st.(draggedItem := None))
  }

  /** A drop that leaves a state keeps the ids unique. */
  lemma DropKeepsIdsUnique(st: State, index: nat)
    requires index < |st.todos|
    requires UniqueIds(st.todos)
    ensures Drop(st, index).Some? ==> UniqueIds(Drop(st, index).value.todos)
  {
    if st.draggedItem.Some? && st.draggedItem.value < |st.todos| && st.draggedItem.value != index {
      MoveKeepsIdsUnique(st.todos, st.draggedItem.value, index);
    }
  }

  /** With a filter other than `All`, the drop as written can move a todo the
      user never touched. In [done a, b, c] under "active", the user sees
      [b, c] and drags b (visible row 0) onto c (visible row 1): the list
      becomes [b, a, c], so the visible list is still [b, c] instead of
      [c, b], and the hidden a has moved. */
  lemma DropMovesWrongTodoUnderFilter(a: Todo, b: Todo, c: Todo)
    requires a.completed && !b.completed && !c.completed && b != c
    ensures
      var st := State([a, b, c], Active, "", Some(0));
      var r := Drop(st, 1).value;
      && r.todos == [b, a, c]
      && FilteredTodos(st.todos, Active) == [b, c]
      && FilteredTodos(r.todos, Active) == [b, c]
      && Move(FilteredTodos(st.todos, Active), 0, 1) == [c, b]
      && FilteredTodos(r.todos, Active) != Move(FilteredTodos(st.todos, Active), 0, 1)
  {
    MoveFirstOfThree(a, b, c);
    MoveFirstOfTwo(b, c);
    ExampleActiveViews(a, b, c);
    assert [b, c][0] != [c, b][0];
  }

  /** The splice of the example above on the full list. */
  lemma MoveFirstOfThree<T>(a: T, b: T, c: T)
    ensures Move([a, b, c], 0, 1) == [b, a, c]
  {
    assert [a, b, c][..0] + [a, b, c][1..] == [b, c];
  }

  /** The splice of the example above on the visible list. */
  lemma MoveFirstOfTwo<T>(b: T, c: T)
    ensures Move([b, c], 0, 1) == [c, b]
  {
    assert [b, c][..0] + [b, c][1..] == [c];
  }

  /** The "active" views of the example above, before and after the drop. */
  lemma ExampleActiveViews(a: Todo, b: Todo, c: Todo)
    requires a.completed && !b.completed && !c.completed
    ensures FilterBy([a, b, c], IsActive) == [b, c]
    ensures FilterBy([b, a, c], IsActive) == [b, c]
  {
    assert [a, b, c][1..] == [b, c] && [b, c][1..] == [c];
    assert [b, a, c][1..] == [a, c] && [a, c][1..] == [c];
    assert FilterBy([c], IsActive) == [c];
  }

  /** The position in `s` of the `k`-th element that passes `p`. */
  function AbsIndex<T>(s: seq<T>, p: T -> bool, k: nat): (j: nat)
    requires k < |FilterBy(s, p)|
    ensures j < |s|
  {
    if p(s[0]) then
      if k == 0 then 0 else AbsIndex(s[1..], p, k - 1) + 1
    else
      AbsIndex(s[1..], p, k) + 1
  }

  /** The element at the `k`-th passing position passes and is the `k`-th row
      of the filtered list. */
  lemma {:induction false} AbsIndexHolds<T>(s: seq<T>, p: T -> bool, k: nat)
    requires k < |FilterBy(s, p)|
    ensures p(s[AbsIndex(s, p, k)])
    ensures s[AbsIndex(s, p, k)] == FilterBy(s, p)[k]
  {
    if !p(s[0]) {
      AbsIndexHolds(s[1..], p, k);
    } else if k > 0 {
      AbsIndexHolds(s[1..], p, k - 1);
    }
  }

  /** The part of `s` before the `k`-th passing element filters to the
      first `k` rows. */
  lemma {:induction false} FilterBeforeAbsIndex<T>(s: seq<T>, p: T -> bool, k: nat)
    requires k < |FilterBy(s, p)|
    ensures FilterBy(s[..AbsIndex(s, p, k)], p) == FilterBy(s, p)[..k]
  {
    var j := AbsIndex(s, p, k);
    var t := s[1..];
    if !p(s[0]) || k > 0 {
      var k' := if p(s[0]) then k - 1 else k;
      FilterBeforeAbsIndex(t, p, k');
      var j' := AbsIndex(t, p, k');
      assert s[..j][0] == s[0];
      assert s[..j][1..] == t[..j'];
    }
  }

  /** Later visible rows sit later in the full list. */
  lemma {:induction false} AbsIndexMonotone<T>(s: seq<T>, p: T -> bool, i: nat, k: nat)
    requires i < k < |FilterBy(s, p)|
    ensures AbsIndex(s, p, i) < AbsIndex(s, p, k)
  {
    if p(s[0]) {
      if i > 0 {
        AbsIndexMonotone(s[1..], p, i - 1, k - 1);
      }
    } else {
      AbsIndexMonotone(s[1..], p, i, k);
    }
  }

  /** When every element passes, the `k`-th passing element is at `k`. */
  lemma {:induction false} AbsIndexAllPass<T>(s: seq<T>, p: T -> bool, k: nat)
    requires forall i :: 0 <= i < |s| ==> p(s[i])
    requires k < |s|
    ensures k < |FilterBy(s, p)| && AbsIndex(s, p, k) == k
  {
    FilterIdentity(s, p);
    if k > 0 {
      FilterIdentity(s[1..], p);
      AbsIndexAllPass(s[1..], p, k - 1);
    }
  }

  /** A prefix of `s` that filters to the first `k` rows, extended by the
      `k`-th row, filters to the first `k + 1` rows. */
  lemma FilterPrefixStep<T>(s: seq<T>, p: T -> bool, v: seq<T>, j: nat, k: nat)
    requires j < |s| && k < |v|
    requires p(s[j]) && s[j] == v[k]
    requires FilterBy(s[..j], p) == v[..k]
    ensures FilterBy(s[..j + 1], p) == v[..k + 1]
  {
    assert s[..j + 1] == s[..j] + [s[j]];
    FilterAppend(s[..j], [s[j]], p);
    assert FilterBy([s[j]], p) == [s[j]];
    assert v[..k + 1] == v[..k] + [v[k]];
  }

  /** When a prefix of `s` filters to the first `k` rows, the rest of `s`
      filters to the rest of the rows. */
  lemma FilterSuffix<T>(s: seq<T>, p: T -> bool, j: nat, k: nat)
    requires j <= |s| && k <= |FilterBy(s, p)|
    requires FilterBy(s[..j], p) == FilterBy(s, p)[..k]
    ensures FilterBy(s[j..], p) == FilterBy(s, p)[k..]
  {
    assert s == s[..j] + s[j..];
    FilterAppend(s[..j], s[j..], p);
  }

  /** Two prefixes of `s` that filter to two prefixes of `v`: the stretch
      between them filters to the stretch between those. */
  lemma FilterBetweenPrefixes<T>(s: seq<T>, p: T -> bool, v: seq<T>, x: nat, y: nat, m: nat, n: nat)
    requires x <= y <= |s| && m <= n <= |v|
    requires FilterBy(s[..x], p) == v[..m]
    requires FilterBy(s[..y], p) == v[..n]
    ensures FilterBy(s[x..y], p) == v[m..n]
  {
    assert s[..y] == s[..x] + s[x..y];
    FilterAppend(s[..x], s[x..y], p);
    assert v[..n] == v[..m] + v[m..n];
  }

  /** A forward move as three slices of the original list. */
  lemma MoveForward<T>(s: seq<T>, from: nat, to: nat)
    requires from < to < |s|
    ensures Move(s, from, to) == s[..from] + s[from + 1..to + 1] + [s[from]] + s[to + 1..]
  {
  }

  /** A backward move as three slices of the original list. */
  lemma MoveBackward<T>(s: seq<T>, from: nat, to: nat)
    requires to < from < |s|
    ensures Move(s, from, to) == s[..to] + [s[from]] + s[to..from] + s[from + 1..]
  {
  }

  /** Moving a todo onto its own place changes nothing. */
  lemma MoveInPlace<T>(s: seq<T>, i: nat)
    requires i < |s|
    ensures Move(s, i, i) == s
  {
  }

  /** When the prefix before row `k`'s position `j` filters to the first
      `k` rows, the rest of the list after `j` filters to the rows after
      row `k`. */
  lemma FilterAfterRow<T>(s: seq<T>, p: T -> bool, j: nat, k: nat)
    requires j < |s| && k < |FilterBy(s, p)|
    requires p(s[j]) && s[j] == FilterBy(s, p)[k]
    requires FilterBy(s[..j], p) == FilterBy(s, p)[..k]
    ensures FilterBy(s[j + 1..], p) == FilterBy(s, p)[k + 1..]
  {
    FilterPrefixStep(s, p, FilterBy(s, p), j, k);
    FilterSuffix(s, p, j + 1, k + 1);
  }

  /** The stretch after row `from`'s position up to and including row `to`'s
      position filters to the rows after `from` up to and including `to`. */
  lemma FilterBetweenRows<T>(s: seq<T>, p: T -> bool, a: nat, b: nat, from: nat, to: nat)
    requires a < b < |s| && from < to < |FilterBy(s, p)|
    requires p(s[a]) && s[a] == FilterBy(s, p)[from]
    requires p(s[b]) && s[b] == FilterBy(s, p)[to]
    requires FilterBy(s[..a], p) == FilterBy(s, p)[..from]
    requires FilterBy(s[..b], p) == FilterBy(s, p)[..to]
    ensures FilterBy(s[a + 1..b + 1], p) == FilterBy(s, p)[from + 1..to + 1]
  {
    var v := FilterBy(s, p);
    FilterPrefixStep(s, p, v, a, from);
    FilterPrefixStep(s, p, v, b, to);
    FilterBetweenPrefixes(s, p, v, a + 1, b + 1, from + 1, to + 1);
  }

  /** Filtering the four pieces of a forward move, piece by piece. */
  lemma FilterForwardPieces<T>(s: seq<T>, p: T -> bool, v: seq<T>, a: nat, b: nat, from: nat, to: nat)
    requires a < b < |s| && from < to < |v|
    requires p(s[a]) && s[a] == v[from]
    requires FilterBy(s[..a], p) == v[..from]
    requires FilterBy(s[a + 1..b + 1], p) == v[from + 1..to + 1]
    requires FilterBy(s[b + 1..], p) == v[to + 1..]
    ensures FilterBy(Move(s, a, b), p) == Move(v, from, to)
  {
    MoveForward(s, a, b);
    FilterAppend4(s[..a], s[a + 1..b + 1], [s[a]], s[b + 1..], p);
    assert FilterBy([s[a]], p) == [v[from]];
    MoveForward(v, from, to);
  }

  /** Filtering the four pieces of a backward move, piece by piece. */
  lemma FilterBackwardPieces<T>(s: seq<T>, p: T -> bool, v: seq<T>, a: nat, b: nat, from: nat, to: nat)
    requires b < a < |s| && to < from < |v|
    requires p(s[a]) && s[a] == v[from]
    requires FilterBy(s[..b], p) == v[..to]
    requires FilterBy(s[b..a], p) == v[to..from]
    requires FilterBy(s[a + 1..], p) == v[from + 1..]
    ensures FilterBy(Move(s, a, b), p) == Move(v, from, to)
  {
    MoveBackward(s, a, b);
    FilterAppend4(s[..b], [s[a]], s[b..a], s[a + 1..], p);
    assert FilterBy([s[a]], p) == [v[from]];
    MoveBackward(v, from, to);
  }

  /** The forward case of `MoveCommutesWithFilter`, over the positions `a`
      and `b` of visible rows `from` and `to`. */
  lemma FilterMoveForward<T>(s: seq<T>, p: T -> bool, a: nat, b: nat, from: nat, to: nat)
    requires a < b < |s| && from < to < |FilterBy(s, p)|
    requires p(s[a]) && s[a] == FilterBy(s, p)[from]
    requires p(s[b]) && s[b] == FilterBy(s, p)[to]
    requires FilterBy(s[..a], p) == FilterBy(s, p)[..from]
    requires FilterBy(s[..b], p) == FilterBy(s, p)[..to]
    ensures FilterBy(Move(s, a, b), p) == Move(FilterBy(s, p), from, to)
  {
    FilterBetweenRows(s, p, a, b, from, to);
    FilterAfterRow(s, p, b, to);
    FilterForwardPieces(s, p, FilterBy(s, p), a, b, from, to);
  }

  /** The backward case of `MoveCommutesWithFilter`, over the positions `a`
      and `b` of visible rows `from` and `to`. */
  lemma FilterMoveBackward<T>(s: seq<T>, p: T -> bool, a: nat, b: nat, from: nat, to: nat)
    requires b < a < |s| && to < from < |FilterBy(s, p)|
    requires p(s[a]) && s[a] == FilterBy(s, p)[from]
    requires FilterBy(s[..a], p) == FilterBy(s, p)[..from]
    requires FilterBy(s[..b], p) == FilterBy(s, p)[..to]
    ensures FilterBy(Move(s, a, b), p) == Move(FilterBy(s, p), from, to)
  {
    var v := FilterBy(s, p);
    FilterBetweenPrefixes(s, p, v, b, a, to, from);
    FilterAfterRow(s, p, a, from);
    FilterBackwardPieces(s, p, v, a, b, from, to);
  }

  /** Moving the todo at the `from`-th visible position to the `to`-th
      visible position of the full list moves it in the visible list in the
      same way. */
  lemma MoveCommutesWithFilter<T>(s: seq<T>, p: T -> bool, from: nat, to: nat)
    requires from < |FilterBy(s, p)| && to < |FilterBy(s, p)|
    ensures
      var a := AbsIndex(s, p, from);
      var b := AbsIndex(s, p, to);
      FilterBy(Move(s, a, b), p) == Move(FilterBy(s, p), from, to)
  {
    var a := AbsIndex(s, p, from);
    var b := AbsIndex(s, p, to);
    AbsIndexHolds(s, p, from);
    AbsIndexHolds(s, p, to);
    FilterBeforeAbsIndex(s, p, from);
    FilterBeforeAbsIndex(s, p, to);
    if from < to {
      AbsIndexMonotone(s, p, from, to);
      FilterMoveForward(s, p, a, b, from, to);
    } else if to < from {
      AbsIndexMonotone(s, p, to, from);
      FilterMoveBackward(s, p, a, b, from, to);
    } else {
      MoveInPlace(FilterBy(s, p), from);
      MoveInPlace(s, a);
    }
  }

  /** The corrected drop: both indices are rows of the visible list, mapped
      to their positions in the full list before the splice. A recorded
      index that is not a row of the visible list is ignored. */
  function DropVisible(st: State, index: nat): (r: State)
    requires index < |FilteredTodos(st.todos, st.filter)|
    ensures r.draggedItem == None
    ensures r.filter == st.filter && r.inputValue == st.inputValue
    ensures st.draggedItem == None || st.draggedItem == Some(index) ==>
      r.todos == st.todos
    ensures st.draggedItem.Some? && |FilteredTodos(st.todos, st.filter)| <= st.draggedItem.value ==>
      r.todos == st.todos
    ensures |r.todos| == |st.todos| && multiset(r.todos) == multiset(st.todos)
    ensures (&& st.draggedItem.Some? && st.draggedItem.value != index
             && st.draggedItem.value < |FilteredTodos(st.todos, st.filter)|) ==>
      FilteredTodos(r.todos, st.filter)
        == Move(FilteredTodos(st.todos, st.filter), st.draggedItem.value, index)
  {
    var p := Shows(st.filter);
    match st.draggedItem
    case Some(from) =>
      if from != index && from < |FilteredTodos(st.todos, st.filter)| then
        var a := AbsIndex(st.todos, p, from);
        var b := AbsIndex(st.todos, p, index);
        MoveCommutesWithFilter(st.todos, p, from, index);
        MovePermutes(st.todos, a, b);
        var moved := Move(st.todos, a, b);
        assert FilteredTodos(moved, st.filter) == FilterBy(moved, p);
        st.(todos := moved, draggedItem := None)
      else
        st.(draggedItem := None)
    case None => st.(draggedItem := None)
  }

  /** Under the `All` filter the corrected drop is the drop as written,
      wherever the drop as written leaves a state. */
  lemma DropVisibleAgreesUnderAll(st: State, index: nat)
    requires st.filter == All
    requires index < |st.todos|
    ensures index < |FilteredTodos(st.todos, st.filter)|
    ensures Drop(st, index).Some? ==> DropVisible(st, index) == Drop(st, index).value
  {
    if st.draggedItem.Some? && st.draggedItem.value < |st.todos| && st.draggedItem.value != index {
      AbsIndexAllPass(st.todos, Shows(All), st.draggedItem.value);
      AbsIndexAllPass(st.todos, Shows(All), index);
    }
  }

  /** After the corrected drag end, a drop of anything on any visible row
      keeps the list, under the drop as written and under the corrected
      drop alike: no stale index is left to splice at. */
  lemma DropAfterDragEnd(st: State, index: nat)
    requires index < |FilteredTodos(st.todos, st.filter)|
    ensures index < |st.todos|
    ensures Drop(DragEnd(st), index) == Some(DragEnd(st))
    ensures DropVisible(DragEnd(st), index) == DragEnd(st)
  {
  }
}
