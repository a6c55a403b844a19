/**
 * The `todos` table of one user, as the modelled code sees it: rows in storage
 * order, and the single kind of write the ordering code issues, a point update
 * `update({ order_index: k }).eq('id', id)`.
 */
module Storage {

  /** One row of `todos`, restricted to the columns the modelled code uses;
      `created_at` is a timestamp, modelled by its position on the time line. */
  datatype Todo = Todo(id: string, title: string, completed: bool, orderIndex: int, createdAt: int)

  /** An `(id, order_index)` pair: a key carried by a window of rows, or a key
      assignment that a caller must persist. */
  datatype Keyed = Keyed(id: string, orderIndex: int)

  /** `id` is the primary key of the table. */
  predicate UniqueIds(rows: seq<Todo>) {
    forall i, j :: 0 <= i < j < |rows| ==> rows[i].id != rows[j].id
  }

  /** A row can be put in front of rows with unique ids exactly when its id is new. */
  lemma UniqueIdsCons(x: Todo, s: seq<Todo>)
    ensures UniqueIds([x] + s) <==> UniqueIds(s) && forall t :: t in s ==> t.id != x.id
  {
    if UniqueIds(s) && forall t :: t in s ==> t.id != x.id {
      UniqueIdsConsIntro(x, s);
    }
    if UniqueIds([x] + s) {
      UniqueIdsConsElim(x, s);
    }
  }

  lemma UniqueIdsConsIntro(x: Todo, s: seq<Todo>)
    requires UniqueIds(s) && forall t :: t in s ==> t.id != x.id
    ensures UniqueIds([x] + s)
  {
    var r := [x] + s;
    forall i, j | 0 <= i < j < |r| ensures r[i].id != r[j].id {
      assert r[j] == s[j - 1];
      if i == 0 { assert r[j] in s; } else { assert r[i] == s[i - 1]; }
    }
  }

  lemma UniqueIdsConsElim(x: Todo, s: seq<Todo>)
    requires UniqueIds([x] + s)
    ensures UniqueIds(s) && forall t :: t in s ==> t.id != x.id
  {
    var r := [x] + s;
    forall i, j | 0 <= i < j < |s| ensures s[i].id != s[j].id {
      assert r[i + 1] == s[i] && r[j + 1] == s[j];
    }
    forall t | t in s ensures t.id != x.id {
      var j :| 0 <= j < |s| && s[j] == t;
      assert r[0] == x && r[j + 1] == t;
      assert r[0].id != r[j + 1].id;
    }
  }

  predicate UniqueKeyedIds(us: seq<Keyed>) {
    forall i, j :: 0 <= i < j < |us| ==> us[i].id != us[j].id
  }

  function KeyedIds(us: seq<Keyed>): set<string> {
    set i | 0 <= i < |us| :: us[i].id
  }

  /** The number of rows with completed = true (`todos.filter(t => t.completed).length`). */
  function CompletedCount(todos: seq<Todo>): (n: nat)
    ensures n <= |todos|
  {
    if todos == [] then 0 else (if todos[0].completed then 1 else 0) + CompletedCount(todos[1..])
  }

  /** The table after the point update `update({ order_index: k }).eq('id', id)`. */
  function SetKey(rows: seq<Todo>, id: string, k: int): seq<Todo> {
    seq(|rows|, j requires 0 <= j < |rows| => if rows[j].id == id then rows[j].(orderIndex := k) else rows[j])
  }

  /** The table after issuing the point updates `us` one after another. */
  function ApplyUpdates(rows: seq<Todo>, us: seq<Keyed>): seq<Todo>
    decreases |us|
  {
    if us == [] then rows
    else
      var last := us[|us| - 1];
      SetKey(ApplyUpdates(rows, us[..|us| - 1]), last.id, last.orderIndex)
  }

  /** Issuing one more update extends the effect of the ones before it. */
  lemma ApplyUpdatesSnoc(rows: seq<Todo>, us: seq<Keyed>, i: nat)
    requires i < |us|
    ensures ApplyUpdates(rows, us[..i + 1]) == SetKey(ApplyUpdates(rows, us[..i]), us[i].id, us[i].orderIndex)
  {
    assert us[..i + 1][..i] == us[..i];
  }

  /** Updates with distinct ids give each named row exactly the key assigned to
      it, change nothing else in that row, and leave every other row alone. */
  lemma {:induction false} ApplyUpdatesAt(rows: seq<Todo>, us: seq<Keyed>)
    requires UniqueKeyedIds(us)
    ensures |ApplyUpdates(rows, us)| == |rows|
    ensures forall j, i :: 0 <= j < |rows| && 0 <= i < |us| && rows[j].id == us[i].id ==>
      ApplyUpdates(rows, us)[j] == rows[j].(orderIndex := us[i].orderIndex)
    ensures forall j :: 0 <= j < |rows| && rows[j].id !in KeyedIds(us) ==> ApplyUpdates(rows, us)[j] == rows[j]
    decreases |us|
  {
    if us != [] {
      var init := us[..|us| - 1];
      var last := us[|us| - 1];
      ApplyUpdatesAt(rows, init);
      assert forall i :: 0 <= i < |init| ==> init[i] == us[i];
      assert last.id !in KeyedIds(init);
      forall j | 0 <= j < |rows| && rows[j].id !in KeyedIds(us)
        ensures ApplyUpdates(rows, us)[j] == rows[j]
      {
        assert rows[j].id !in KeyedIds(init);
      }
    }
  }

  /** Point updates never change a row's id, so the primary key stays unique. */
  lemma {:induction false} ApplyUpdatesKeepsIds(rows: seq<Todo>, us: seq<Keyed>)
    ensures |ApplyUpdates(rows, us)| == |rows|
    ensures forall j :: 0 <= j < |rows| ==> ApplyUpdates(rows, us)[j].id == rows[j].id
    ensures UniqueIds(rows) ==> UniqueIds(ApplyUpdates(rows, us))
    decreases |us|
  {
    if us != [] {
      ApplyUpdatesKeepsIds(rows, us[..|us| - 1]);
    }
  }

  /** One user's rows of the `todos` table, in storage order. */
  class TodoTable {
    var rows: seq<Todo>

    predicate Valid()
      reads this
    {
      UniqueIds(rows)
    }

    constructor (initial: seq<Todo>)
      requires UniqueIds(initial)
      ensures Valid() && rows == initial
    {
      rows := initial;
    }

    /** `update({ order_index: k }).eq('id', id)`; its outcome is ignored by every caller. */
    method UpdateOrderIndex(id: string, k: int)
      requires Valid()
      modifies this
      ensures Valid()
      ensures rows == SetKey(old(rows), id, k)
    {
      rows := SetKey(rows, id, k);
    }
  }
}
