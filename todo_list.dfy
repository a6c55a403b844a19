/**
 * The list screen's own bookkeeping of the signed-in user's todos: a local copy
 * of the rows (newest first after an insert), the active filter, and the
 * handlers that replace that copy. Its ordering scheme is not the one of the
 * OrderIndex module: a new todo gets the local maximum plus one, and a drag
 * renumbers the whole list densely to 0..n-1 and writes every key back.
 */
module TodoList {
  import opened Wrappers
  import opened Storage
  import opened Query

  /** The filter buttons: 'all', 'active', 'completed'. */
  datatype Filter = All | Active | Completed

  predicate Shows(filter: Filter, t: Todo) {
    match filter
    case All => true
    case Active => !t.completed
    case Completed => t.completed
  }

  /** The rows the list renders under a filter, in list order. */
  function Visible(todos: seq<Todo>, filter: Filter): (r: seq<Todo>)
    ensures forall t :: t in r <==> t in todos && Shows(filter, t)
  {
    if todos == [] then []
    else if Shows(filter, todos[0]) then [todos[0]] + Visible(todos[1..], filter)
    else Visible(todos[1..], filter)
  }

  /** Filtering splits over a concatenation, so it keeps the list order. */
  lemma {:induction false} VisibleConcat(a: seq<Todo>, b: seq<Todo>, filter: Filter)
    ensures Visible(a + b, filter) == Visible(a, filter) + Visible(b, filter)
  {
    if a != [] {
      assert (a + b)[0] == a[0];
      assert (a + b)[1..] == a[1..] + b;
      VisibleConcat(a[1..], b, filter);
    } else {
      assert a + b == b;
    }
  }

  /** 'all' shows the whole list as it is; 'completed' shows exactly
      completedCount rows and 'active' exactly activeCount rows, and the two
      counts add up to the length of the list. */
  lemma {:induction false} VisibleCounts(todos: seq<Todo>)
    ensures Visible(todos, All) == todos
    ensures |Visible(todos, Completed)| == CompletedCount(todos)
    ensures |Visible(todos, Active)| == ActiveCount(todos)
    ensures |Visible(todos, Active)| + |Visible(todos, Completed)| == |todos|
  {
    if todos != [] {
      VisibleCounts(todos[1..]);
    }
  }

  /** `todos.length - completedCount`. */
  function ActiveCount(todos: seq<Todo>): int {
    |todos| - CompletedCount(todos)
  }

  /** The key of a new todo: the largest local key plus one, or 0 for an empty
      list (`maxOrder` is -1 then). */
  function LocalNextOrderIndex(todos: seq<Todo>): int {
    (if todos == [] then -1 else MaxKey(todos)) + 1
  }

  /** The new key is above every local key, and exactly one above the largest. */
  lemma LocalNextAbove(todos: seq<Todo>)
    ensures forall t :: t in todos ==> t.orderIndex < LocalNextOrderIndex(todos)
    ensures todos == [] ==> LocalNextOrderIndex(todos) == 0
    ensures todos != [] ==> exists t :: t in todos && LocalNextOrderIndex(todos) == t.orderIndex + 1
  {
    if todos != [] {
      MaxKeyIsMax(todos);
    }
  }

  /** `todos.findIndex(todo => todo.id === id)`: the first position holding id,
      or -1. */
  function FindIndex(todos: seq<Todo>, id: string): (r: int)
    ensures -1 <= r < |todos|
    ensures r == -1 <==> forall t :: t in todos ==> t.id != id
    ensures 0 <= r ==> todos[r].id == id && forall j :: 0 <= j < r ==> todos[j].id != id
  {
    if todos == [] then -1
    else if todos[0].id == id then 0
    else
      var k := FindIndex(todos[1..], id);
      assert forall t :: t in todos ==> t == todos[0] || t in todos[1..];
      if k < 0 then -1 else k + 1
  }

  /** Remove the item at `from` and insert it again at `to` of what remains. */
  function Move(s: seq<Todo>, from: nat, to: nat): seq<Todo>
    requires from < |s| && to < |s|
  {
    var rest := s[..from] + s[from + 1..];
    rest[..to] + [s[from]] + rest[to..]
  }

  /** Moving is a permutation that puts the moved item at `to` and keeps all the
      other items in their relative order. */
  lemma MoveSpec(s: seq<Todo>, from: nat, to: nat)
    requires from < |s| && to < |s|
    ensures var r := Move(s, from, to);
      && |r| == |s|
      && r[to] == s[from]
      && r[..to] + r[to + 1..] == s[..from] + s[from + 1..]
      && multiset(r) == multiset(s)
  {
    var rest := s[..from] + s[from + 1..];
    var r := Move(s, from, to);
    assert r[..to] == rest[..to];
    assert r[to + 1..] == rest[to..];
    assert rest[..to] + rest[to..] == rest;
    assert r == rest[..to] + [s[from]] + rest[to..];
    assert multiset(r) == multiset(rest[..to]) + multiset{s[from]} + multiset(rest[to..]);
    assert multiset(rest) == multiset(rest[..to]) + multiset(rest[to..]);
    assert multiset(r) == multiset(rest) + multiset{s[from]};
    assert s == s[..from] + [s[from]] + s[from + 1..];
    assert multiset(s) == multiset(s[..from]) + multiset{s[from]} + multiset(s[from + 1..]);
    assert multiset(rest) == multiset(s[..from]) + multiset(s[from + 1..]);
  }

  /** dnd-kit's `arrayMove(array, from, to)`: `splice(from, 1)` and then
      `splice(to, 0, item)`, where a negative index counts from the end of the
      array as it was before the removal (the -1 of a failed findIndex names the
      last item). */
  function ArrayMove(s: seq<Todo>, from: int, to: int): seq<Todo>
    requires s != [] && -1 <= from < |s| && -1 <= to < |s|
  {
    Move(s, if from < 0 then |s| + from else from, if to < 0 then |s| + to else to)
  }

  /** `map((todo, index) => ({ ...todo, order_index: index }))`. */
  function Renumber(s: seq<Todo>): seq<Todo> {
    seq(|s|, i requires 0 <= i < |s| => s[i].(orderIndex := i))
  }

  /** `map((todo, index) => ({ id: todo.id, order_index: index }))`. */
  function OrderUpdates(s: seq<Todo>): seq<Keyed> {
    seq(|s|, i requires 0 <= i < |s| => Keyed(s[i].id, i))
  }

  /** The list after `handleDragEnd`: unchanged without a target or when an item
      is dropped on itself, otherwise moved and renumbered. */
  function DragEnd(todos: seq<Todo>, active: string, over: Option<string>): seq<Todo>
    requires over.None? || over.value == active || todos != []
  {
    if over.None? || active == over.value then todos
    else Renumber(ArrayMove(todos, FindIndex(todos, active), FindIndex(todos, over.value)))
  }

  /** `r` is `s` with item `from` moved to position `to` and every key set to
      its position: keys 0..n-1 in list order, the moved item at `to`, and
      every other position i holding the rest of the list in its old relative
      order (item i of it before `to`, item i - 1 after). */
  predicate IsRenumberedMove(r: seq<Todo>, s: seq<Todo>, from: nat, to: nat)
    requires from < |s| && to < |s|
  {
    var rest := s[..from] + s[from + 1..];
    && |r| == |s|
    && (forall i :: 0 <= i < |r| ==> r[i].orderIndex == i)
    && r[to] == s[from].(orderIndex := to)
    && forall i :: 0 <= i < |r| && i != to ==> r[i] == rest[if i < to then i else i - 1].(orderIndex := i)
  }

  /** Dragging item `active` onto item `over` (both in the list) moves the
      dragged item to the position `over` had, keeps the others in their
      relative order and renumbers the list to 0..n-1. */
  lemma DragEndSpec(todos: seq<Todo>, active: string, over: string)
    requires active != over
    requires exists t :: t in todos && t.id == active
    requires exists t :: t in todos && t.id == over
    ensures var oldIndex := FindIndex(todos, active);
            var newIndex := FindIndex(todos, over);
            var r := DragEnd(todos, active, Some(over));
      && 0 <= oldIndex && 0 <= newIndex
      && IsRenumberedMove(r, todos, oldIndex, newIndex)
      && r[newIndex].id == active && todos[newIndex].id == over
  {
    var oldIndex := FindIndex(todos, active);
    var newIndex := FindIndex(todos, over);
    assert DragEnd(todos, active, Some(over)) == Renumber(Move(todos, oldIndex, newIndex));
    RenumberedMove(todos, oldIndex, newIndex);
  }

  /** Renumbering a moved list gives exactly the list the predicate describes. */
  lemma RenumberedMove(s: seq<Todo>, from: nat, to: nat)
    requires from < |s| && to < |s|
    ensures IsRenumberedMove(Renumber(Move(s, from, to)), s, from, to)
  {
    MoveSpec(s, from, to);
    MoveOthers(s, from, to);
  }

  /** Position i of a moved list, other than the target, holds item i of the
      rest of the list when it lies before the target and item i - 1 after it. */
  lemma MoveOthers(s: seq<Todo>, from: nat, to: nat)
    requires from < |s| && to < |s|
    ensures var m := Move(s, from, to);
            var rest := s[..from] + s[from + 1..];
      forall i :: 0 <= i < |m| && i != to ==> m[i] == rest[if i < to then i else i - 1]
  {
    var m := Move(s, from, to);
    var rest := s[..from] + s[from + 1..];
    assert m == rest[..to] + [s[from]] + rest[to..];
  }

  /** A row with its key left out, for comparing lists up to their keys. */
  function Unkeyed(s: seq<Todo>): seq<Todo> {
    seq(|s|, i requires 0 <= i < |s| => s[i].(orderIndex := 0))
  }

  /** Apart from the keys, a drag only permutes the list. */
  lemma DragEndPermutes(todos: seq<Todo>, active: string, over: Option<string>)
    requires over.None? || over.value == active || todos != []
    ensures multiset(Unkeyed(DragEnd(todos, active, over))) == multiset(Unkeyed(todos))
  {
    if over.Some? && active != over.value {
      var f := FindIndex(todos, active);
      var t := FindIndex(todos, over.value);
      var from := if f < 0 then |todos| + f else f;
      var to := if t < 0 then |todos| + t else t;
      var m := Move(todos, from, to);
      assert DragEnd(todos, active, over) == Renumber(m);
      UnkeyedRenumber(m);
      UnkeyedMove(todos, from, to);
      assert Unkeyed(DragEnd(todos, active, over)) == Move(Unkeyed(todos), from, to);
      MoveSpec(Unkeyed(todos), from, to);
    }
  }

  lemma UnkeyedRenumber(s: seq<Todo>)
    ensures Unkeyed(Renumber(s)) == Unkeyed(s)
  {
  }

  lemma UnkeyedMove(s: seq<Todo>, from: nat, to: nat)
    requires from < |s| && to < |s|
    ensures Unkeyed(Move(s, from, to)) == Move(Unkeyed(s), from, to)
  {
    var u := Unkeyed(s);
    var rest := s[..from] + s[from + 1..];
    var urest := u[..from] + u[from + 1..];
    UnkeyedConcat(s[..from], s[from + 1..]);
    UnkeyedSlices(s, from);
    UnkeyedSlices(s, from + 1);
    assert Unkeyed(rest) == urest;
    UnkeyedSlices(rest, to);
    UnkeyedConcat(rest[..to], [s[from]]);
    UnkeyedConcat(rest[..to] + [s[from]], rest[to..]);
  }

  lemma UnkeyedConcat(a: seq<Todo>, b: seq<Todo>)
    ensures Unkeyed(a + b) == Unkeyed(a) + Unkeyed(b)
  {
  }

  lemma UnkeyedSlices(s: seq<Todo>, k: nat)
    requires k <= |s|
    ensures Unkeyed(s[..k]) == Unkeyed(s)[..k] && Unkeyed(s[k..]) == Unkeyed(s)[k..]
  {
  }

  /** Writing the renumbered list back gives every row of the list the key of
      its position and leaves the rows the list does not name alone; so after a
      drag the table holds exactly the keys the screen shows. */
  lemma SaveOrderEffect(rows: seq<Todo>, todos: seq<Todo>)
    requires UniqueIds(todos)
    ensures var after := ApplyUpdates(rows, OrderUpdates(todos));
      && |after| == |rows|
      && (forall j, i :: 0 <= j < |rows| && 0 <= i < |todos| && rows[j].id == todos[i].id ==>
            after[j] == rows[j].(orderIndex := i) && after[j].orderIndex == Renumber(todos)[i].orderIndex)
      && forall j :: 0 <= j < |rows| && (forall t :: t in todos ==> t.id != rows[j].id) ==> after[j] == rows[j]
  {
    var us := OrderUpdates(todos);
    assert forall i :: 0 <= i < |us| ==> us[i].id == todos[i].id && us[i].orderIndex == i;
    ApplyUpdatesAt(rows, us);
    assert forall i :: 0 <= i < |todos| ==> todos[i] in todos;
  }

  /** `saveTodoOrder`: one `(id, index)` update per item, in list order, and none
      for an empty list; the outcomes of the writes are not looked at. */
  method SaveTodoOrder(reordered: seq<Todo>, table: TodoTable) returns (issued: seq<Keyed>)
    requires table.Valid()
    modifies table
    ensures table.Valid()
    ensures |issued| == |reordered|
    ensures forall i :: 0 <= i < |issued| ==> issued[i] == Keyed(reordered[i].id, i)
    ensures table.rows == ApplyUpdates(old(table.rows), issued)
  {
    issued := [];
    if |reordered| == 0 {
      return;
    }
    var updates := OrderUpdates(reordered);
    ghost var rows0 := table.rows;
    for i := 0 to |updates|
      invariant table.Valid()
      invariant issued == updates[..i]
      invariant table.rows == ApplyUpdates(rows0, issued)
    {
      table.UpdateOrderIndex(updates[i].id, updates[i].orderIndex);
      ApplyUpdatesSnoc(rows0, updates, i);
      issued := issued + [updates[i]];
      assert updates[..i + 1] == updates[..i] + [updates[i]];
    }
    assert updates[..|updates|] == updates;
  }

  /** A partial row (`Partial<Todo>`): the columns to overwrite. */
  datatype Patch = Patch(id: Option<string>, title: Option<string>, completed: Option<bool>,
                         orderIndex: Option<int>, createdAt: Option<int>)

  function Pick<T>(o: Option<T>, fallback: T): T {
    if o.Some? then o.value else fallback
  }

  /** `{ ...todo, ...updates }`. */
  function Merge(t: Todo, p: Patch): Todo {
    Todo(Pick(p.id, t.id), Pick(p.title, t.title), Pick(p.completed, t.completed),
         Pick(p.orderIndex, t.orderIndex), Pick(p.createdAt, t.createdAt))
  }

  /** Merging the same partial row twice is merging it once, and merging an
      empty one changes nothing. */
  lemma MergeLaws(t: Todo, p: Patch)
    ensures Merge(Merge(t, p), p) == Merge(t, p)
    ensures Merge(t, Patch(None, None, None, None, None)) == t
    ensures p.completed.None? ==> Merge(t, p).completed == t.completed
  {
  }

  /** The local list after a successful `handleUpdateTodo(id, updates)`. */
  function Patched(todos: seq<Todo>, id: string, p: Patch): seq<Todo> {
    seq(|todos|, i requires 0 <= i < |todos| => if todos[i].id == id then Merge(todos[i], p) else todos[i])
  }

  /** An update that does not touch `completed` leaves both counts as they were. */
  lemma {:induction false} PatchedKeepsCounts(todos: seq<Todo>, id: string, p: Patch)
    requires p.completed.None?
    ensures CompletedCount(Patched(todos, id, p)) == CompletedCount(todos)
  {
    if todos != [] {
      var r := Patched(todos, id, p);
      PatchedKeepsCounts(todos[1..], id, p);
      assert Patched(todos[1..], id, p) == r[1..];
      MergeLaws(todos[0], p);
    }
  }

  /** Applying the same update twice is applying it once, and an update that
      names no item of the list leaves the list as it is. */
  lemma PatchedIdempotent(todos: seq<Todo>, id: string, p: Patch)
    ensures Patched(Patched(todos, id, p), id, p) == Patched(todos, id, p)
    ensures (forall t :: t in todos ==> t.id != id) ==> Patched(todos, id, p) == todos
  {
    var r := Patched(todos, id, p);
    forall i | 0 <= i < |todos| ensures Patched(r, id, p)[i] == r[i] {
      MergeLaws(todos[i], p);
    }
    if forall t :: t in todos ==> t.id != id {
      forall i | 0 <= i < |todos| ensures r[i] == todos[i] {
        assert todos[i] in todos;
      }
    }
  }

  /** The local list after a successful `handleDeleteTodo(id)`. */
  function Removed(todos: seq<Todo>, id: string): (r: seq<Todo>)
    ensures forall t :: t in r <==> t in todos && t.id != id
  {
    if todos == [] then []
    else if todos[0].id == id then Removed(todos[1..], id)
    else [todos[0]] + Removed(todos[1..], id)
  }

  /** Deleting splits over a concatenation, so the rest keeps its order. */
  lemma {:induction false} RemovedConcat(a: seq<Todo>, b: seq<Todo>, id: string)
    ensures Removed(a + b, id) == Removed(a, id) + Removed(b, id)
  {
    if a != [] {
      assert (a + b)[0] == a[0];
      assert (a + b)[1..] == a[1..] + b;
      RemovedConcat(a[1..], b, id);
    } else {
      assert a + b == b;
    }
  }

  /** Nothing changes when no item has the id. */
  lemma {:induction false} RemovedAbsent(a: seq<Todo>, id: string)
    requires forall t :: t in a ==> t.id != id
    ensures Removed(a, id) == a
  {
    if a != [] {
      assert a[0] in a;
      assert forall t :: t in a[1..] ==> t in a;
      RemovedAbsent(a[1..], id);
    }
  }

  /** With distinct ids, deleting an id that is present removes exactly one item. */
  lemma {:induction false} RemovedOne(a: seq<Todo>, id: string)
    requires UniqueIds(a) && exists t :: t in a && t.id == id
    ensures |Removed(a, id)| == |a| - 1
  {
    assert a == [a[0]] + a[1..];
    UniqueIdsCons(a[0], a[1..]);
    if a[0].id == id {
      RemovedAbsent(a[1..], id);
    } else {
      var t :| t in a && t.id == id;
      assert t in a[1..];
      RemovedOne(a[1..], id);
    }
  }

  /** What `handleAddTodo` reports. */
  datatype AddOutcome = NotSignedIn | InsertFailed | Added(row: Todo)

  class TodoListState {
    var todos: seq<Todo>
    var filter: Filter

    constructor ()
      ensures todos == [] && filter == All
    {
      todos := [];
      filter := All;
    }

    /** `filteredTodos`. */
    function FilteredTodos(): (r: seq<Todo>)
      reads this
      ensures forall t :: t in r <==> t in todos && Shows(filter, t)
      ensures filter == All ==> r == todos
    {
      VisibleCounts(todos);
      Visible(todos, filter)
    }

    /** `activeCount`: the 'active' button's count, which with `completedCount`
        adds up to the length of the list. */
    function ActiveTodos(): (n: int)
      reads this
      ensures n == |Visible(todos, Active)|
      ensures n + CompletedCount(todos) == |todos|
    {
      VisibleCounts(todos);
      ActiveCount(todos)
    }

    /** `handleAddTodo(title)`: without a user nothing happens; the insert sends
        `completed = false` and the next local key, and the row the database
        returns (with the id and timestamp it assigned) goes to the front. */
    method HandleAddTodo(signedIn: bool, title: string, assignedId: string, assignedCreatedAt: int, insertFails: bool)
      returns (outcome: AddOutcome)
      modifies this
      ensures filter == old(filter)
      ensures !signedIn ==> outcome == NotSignedIn && todos == old(todos)
      ensures signedIn && insertFails ==> outcome == InsertFailed && todos == old(todos)
      ensures signedIn && !insertFails ==>
        && outcome == Added(Todo(assignedId, title, false, LocalNextOrderIndex(old(todos)), assignedCreatedAt))
        && todos == [outcome.row] + old(todos)
    {
      if !signedIn {
        return NotSignedIn;
      }
      var maxOrder := if |todos| > 0 then MaxKey(todos) else -1;
      var row := Todo(assignedId, title, false, maxOrder + 1, assignedCreatedAt);
      if insertFails {
        return InsertFailed;
      }
      todos := [row] + todos;
      return Added(row);
    }

    /** `handleDragEnd`: moves and renumbers the list and writes the new keys. */
    method HandleDragEnd(active: string, over: Option<string>, table: TodoTable)
      requires table.Valid()
      requires over.None? || over.value == active || todos != []
      modifies this, table
      ensures table.Valid()
      ensures filter == old(filter)
      ensures todos == DragEnd(old(todos), active, over)
      ensures over.None? || over.value == active ==> todos == old(todos) && table.rows == old(table.rows)
      ensures over.Some? && over.value != active ==> table.rows == ApplyUpdates(old(table.rows), OrderUpdates(todos))
    {
      if over.Some? && active != over.value {
        var oldIndex := FindIndex(todos, active);
        var newIndex := FindIndex(todos, over.value);
        var newTodos := ArrayMove(todos, oldIndex, newIndex);
        var updatedTodos := Renumber(newTodos);
        var issued := SaveTodoOrder(updatedTodos, table);
        assert issued == OrderUpdates(updatedTodos);
        todos := updatedTodos;
      }
    }

    /** `handleUpdateTodo(id, updates)`: a failed update throws and leaves the
        local list alone. */
    method HandleUpdateTodo(id: string, updates: Patch, updateFails: bool) returns (ok: bool)
      modifies this
      ensures filter == old(filter)
      ensures ok == !updateFails
      ensures todos == if ok then Patched(old(todos), id, updates) else old(todos)
    {
      if updateFails {
        return false;
      }
      todos := Patched(todos, id, updates);
      return true;
    }

    /** `handleDeleteTodo(id)`: a failed delete throws and leaves the local list
        alone. */
    method HandleDeleteTodo(id: string, deleteFails: bool) returns (ok: bool)
      modifies this
      ensures filter == old(filter)
      ensures ok == !deleteFails
      ensures todos == if ok then Removed(old(todos), id) else old(todos)
    {
      if deleteFails {
        return false;
      }
      todos := Removed(todos, id);
      return true;
    }
  }
}
