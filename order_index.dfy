/**
 * Order-key allocation and local rebalancing for one user's todos: append
 * after the maximum, insert in front of the minimum, insert between two keys,
 * rebalance a bounded window of rows to keys exactly ORDER_GAP apart, and plan
 * the key assignments for a drag-and-drop move.
 */
module OrderIndex {
  import opened Wrappers
  import opened Storage
  import opened Query

  /** Default span between freshly spaced keys. */
  const OrderGap := 10000
  /** Smallest span between neighbours that still leaves room for a midpoint. */
  const MinGap := 2
  /** Number of rows a middle rebalance touches. */
  const ReindexRangeSize := 20

  /** The first key of a rebalanced window: `startOrderIndex || ORDER_GAP`,
      so a missing start and a start of 0 both fall back to ORDER_GAP. */
  function Base(start: Option<int>): (b: int)
    ensures start.None? ==> b == OrderGap
    ensures start.Some? && start.value != 0 ==> b == start.value
    ensures b != 0
  {
    if start.None? || start.value == 0 then OrderGap else start.value
  }

  /** The assignments that space `todos` out from `base`, ORDER_GAP apart, in their order. */
  function Respaced(todos: seq<Todo>, base: int): seq<Keyed> {
    seq(|todos|, i requires 0 <= i < |todos| => Keyed(todos[i].id, base + i * OrderGap))
  }

  /** The table after `reindexRange(start, end, limit)`: unchanged when the
      fetch fails (an empty fetch changes nothing either), otherwise the fetched
      rows respaced from Base(start). */
  function ReindexEffect(rows: seq<Todo>, start: Option<int>, end: Option<int>, limit: nat, fetchFails: bool): seq<Todo> {
    if fetchFails then rows
    else ApplyUpdates(rows, Respaced(Selection(rows, start, end, limit), Base(start)))
  }

  // ---------------------------------------------------------------------------
  // Append: getMaxOrderIndex / getNextOrderIndex

  /** The largest key of the user, or 0 when there are no rows or the read fails.
      (`data?.order_index || 0` maps a maximum of 0 to 0 as well.) */
  function GetMaxOrderIndex(table: TodoTable, readFails: bool): (m: int)
    reads table
    ensures readFails || table.rows == [] ==> m == 0
    ensures !readFails && table.rows != [] ==>
      (forall t :: t in table.rows ==> t.orderIndex <= m) && exists t :: t in table.rows && t.orderIndex == m
  {
    if readFails || table.rows == [] then 0
    else
      MaxKeyIsMax(table.rows);
      MaxKey(table.rows)
  }

  /** The key for a new todo appended at the end: one above the largest key, so
      1 for an empty scope or a failed read, and otherwise strictly greater than
      every existing key. */
  function GetNextOrderIndex(table: TodoTable, readFails: bool): (k: int)
    reads table
    ensures readFails || table.rows == [] ==> k == 1
    ensures !readFails ==> forall t :: t in table.rows ==> t.orderIndex < k
    ensures !readFails && table.rows != [] ==> exists t :: t in table.rows && t.orderIndex == k - 1
  {
    GetMaxOrderIndex(table, readFails) + 1
  }

  // ---------------------------------------------------------------------------
  // Bounded rebalance: reindexRange

  /** Fetches the rows `Selection(rows, start, end, limit)` and rewrites the
      i-th to `Base(start) + i * ORDER_GAP`, one point update at a time. */
  method ReindexRange(table: TodoTable, start: Option<int>, end: Option<int>, limit: nat, fetchFails: bool)
    requires table.Valid()
    modifies table
    ensures table.Valid()
    ensures table.rows == ReindexEffect(old(table.rows), start, end, limit, fetchFails)
  {
    var todosToReindex := Selection(table.rows, start, end, limit);
    if fetchFails || |todosToReindex| == 0 {
      return;
    }
    var baseIndex := Base(start);
    ghost var rows0 := table.rows;
    ghost var us := Respaced(todosToReindex, baseIndex);
    assert ApplyUpdates(rows0, us[..0]) == rows0;
    for i := 0 to |todosToReindex|
      invariant table.Valid()
      invariant table.rows == ApplyUpdates(rows0, us[..i])
    {
      var newOrderIndex := baseIndex + i * OrderGap;
      assert us[i] == Keyed(todosToReindex[i].id, newOrderIndex);
      table.UpdateOrderIndex(todosToReindex[i].id, newOrderIndex);
      ApplyUpdatesSnoc(rows0, us, i);
    }
    assert us[..|todosToReindex|] == us;
  }

  /** Respacing rows with distinct ids issues updates with distinct ids. */
  lemma RespacedUnique(todos: seq<Todo>, base: int)
    requires UniqueIds(todos)
    ensures UniqueKeyedIds(Respaced(todos, base))
  {
  }

  /** A successful rebalance rewrites the i-th fetched row to Base(start) + i * ORDER_GAP
      (so the rewritten keys rise strictly, exactly ORDER_GAP apart), changes no
      other column of it, and leaves every row that was not fetched as it was. */
  lemma ReindexRewritesSelection(rows: seq<Todo>, start: Option<int>, end: Option<int>, limit: nat)
    requires UniqueIds(rows)
    ensures var sel := Selection(rows, start, end, limit);
            var after := ReindexEffect(rows, start, end, limit, false);
      && |after| == |rows|
      && |sel| <= limit
      && (forall j, i :: 0 <= j < |rows| && 0 <= i < |sel| && rows[j].id == sel[i].id ==>
            after[j] == rows[j].(orderIndex := Base(start) + i * OrderGap))
      && (forall j :: 0 <= j < |rows| && rows[j] !in sel ==> after[j] == rows[j])
  {
    var sel := Selection(rows, start, end, limit);
    var us := Respaced(sel, Base(start));
    var after := ReindexEffect(rows, start, end, limit, false);
    assert after == ApplyUpdates(rows, us);
    SelectionSpec(rows, start, end, limit);
    RespacedUnique(sel, Base(start));
    ApplyUpdatesAt(rows, us);
    forall j, i | 0 <= j < |rows| && 0 <= i < |sel| && rows[j].id == sel[i].id
      ensures after[j] == rows[j].(orderIndex := Base(start) + i * OrderGap)
    {
      assert us[i].id == rows[j].id && us[i].orderIndex == Base(start) + i * OrderGap;
    }
    forall j | 0 <= j < |rows| && rows[j] !in sel
      ensures rows[j].id !in KeyedIds(us)
    {
      forall i | 0 <= i < |us| ensures us[i].id != rows[j].id {
        assert sel[i] in rows;
        var j' :| 0 <= j' < |rows| && rows[j'] == sel[i];
        assert j' != j;
      }
    }
  }

  /** A successful rebalance keeps the relative order of the rows it rewrites:
      a row with a smaller key than another before the rebalance still has a
      smaller key afterwards. */
  lemma ReindexKeepsOrder(rows: seq<Todo>, start: Option<int>, end: Option<int>, limit: nat, j1: nat, j2: nat)
    requires UniqueIds(rows)
    requires j1 < |rows| && j2 < |rows|
    requires rows[j1] in Selection(rows, start, end, limit) && rows[j2] in Selection(rows, start, end, limit)
    requires rows[j1].orderIndex < rows[j2].orderIndex
    ensures var after := ReindexEffect(rows, start, end, limit, false);
      |after| == |rows| && after[j1].orderIndex < after[j2].orderIndex
  {
    var sel := Selection(rows, start, end, limit);
    SelectionMembers(rows, start, end, limit);
    ReindexRewritesSelection(rows, start, end, limit);
    var i1 :| 0 <= i1 < |sel| && sel[i1] == rows[j1];
    var i2 :| 0 <= i2 < |sel| && sel[i2] == rows[j2];
    SortedByKey(sel, i1, i2);
    assert Base(start) + i1 * OrderGap < Base(start) + i2 * OrderGap;
  }

  /** A failed fetch, or a window holding no row, changes nothing. */
  lemma ReindexNoop(rows: seq<Todo>, start: Option<int>, end: Option<int>, limit: nat, fetchFails: bool)
    requires fetchFails || limit == 0 || forall t :: t in rows ==> !InRange(t, start, end)
    ensures ReindexEffect(rows, start, end, limit, fetchFails) == rows
  {
    if !fetchFails {
      var sel := Selection(rows, start, end, limit);
      if limit != 0 {
        FilteredNone(rows, start, end);
      }
      assert sel == [];
      assert Respaced(sel, Base(start)) == [];
    }
  }

  /** A rebalance whose window holds more than `limit` rows leaves some of them
      behind at their old keys. When such a row's key is below Base(start), a
      row that came before it in query order is rewritten to a key above it:
      the rebalance changes the order of the two. */
  lemma ReindexLeavesBehind(rows: seq<Todo>, start: Option<int>, end: Option<int>, limit: nat, jo: nat)
    requires UniqueIds(rows) && 0 < limit
    requires jo < |rows| && InRange(rows[jo], start, end)
    requires rows[jo] !in Selection(rows, start, end, limit)
    requires rows[jo].orderIndex < Base(start)
    ensures var after := ReindexEffect(rows, start, end, limit, false);
      && |after| == |rows|
      && exists j :: 0 <= j < |rows| && Precedes(rows[j], rows[jo], true)
           && after[jo].orderIndex < after[j].orderIndex
  {
    var sel := Selection(rows, start, end, limit);
    SelectionSpec(rows, start, end, limit);
    ReindexRewritesSelection(rows, start, end, limit);
    assert |sel| == limit && Precedes(sel[0], rows[jo], true);
    assert sel[0] in rows;
    var j :| 0 <= j < |rows| && rows[j] == sel[0];
    assert ReindexEffect(rows, start, end, limit, false)[j].orderIndex == Base(start);
  }

  /** Rebalancing a window that is already spaced ORDER_GAP apart from its base
      changes nothing. */
  lemma ReindexIdempotent(rows: seq<Todo>, start: Option<int>, end: Option<int>, limit: nat)
    requires UniqueIds(rows)
    requires var sel := Selection(rows, start, end, limit);
      forall i :: 0 <= i < |sel| ==> sel[i].orderIndex == Base(start) + i * OrderGap
    ensures ReindexEffect(rows, start, end, limit, false) == rows
  {
    var sel := Selection(rows, start, end, limit);
    var after := ReindexEffect(rows, start, end, limit, false);
    ReindexRewritesSelection(rows, start, end, limit);
    forall j | 0 <= j < |rows| ensures after[j] == rows[j] {
      if rows[j] in sel {
        var i :| 0 <= i < |sel| && sel[i] == rows[j];
        assert after[j] == rows[j].(orderIndex := Base(start) + i * OrderGap);
      }
    }
  }


  /** A rebalance only rewrites keys: every row keeps its id, so the ids stay distinct. */
  lemma ReindexKeepsIds(rows: seq<Todo>, start: Option<int>, end: Option<int>, limit: nat, fetchFails: bool)
    ensures var after := ReindexEffect(rows, start, end, limit, fetchFails);
      && |after| == |rows|
      && (forall j :: 0 <= j < |rows| ==> after[j].id == rows[j].id)
      && (UniqueIds(rows) ==> UniqueIds(after))
  {
    if !fetchFails {
      ApplyUpdatesKeepsIds(rows, Respaced(Selection(rows, start, end, limit), Base(start)));
    }
  }

  // ---------------------------------------------------------------------------
  // Whole-table rebalance

  /** Rebalancing every row with key at least `start` (all rows when `start` is
      missing), without an upper bound and without a row limit. */
  function ReindexTail(rows: seq<Todo>, start: Option<int>, fetchFails: bool): seq<Todo> {
    ReindexEffect(rows, start, None, |rows|, fetchFails)
  }

  /** A tail rebalance keeps the order of the whole table: every row at or
      above `start` is rewritten in key order from Base(start), which is at
      least `start`, and every row below `start` keeps its smaller key. */
  lemma ReindexTailKeepsOrder(rows: seq<Todo>, start: Option<int>, j1: nat, j2: nat)
    requires UniqueIds(rows)
    requires j1 < |rows| && j2 < |rows|
    requires rows[j1].orderIndex < rows[j2].orderIndex
    ensures var after := ReindexTail(rows, start, false);
      |after| == |rows| && after[j1].orderIndex < after[j2].orderIndex
  {
    var sel := Selection(rows, start, None, |rows|);
    SelectionComplete(rows, start, None, |rows|);
    if InRange(rows[j1], start, None) {
      ReindexKeepsOrder(rows, start, None, |rows|, j1, j2);
    } else {
      SelectionSpec(rows, start, None, |rows|);
      ReindexRewritesSelection(rows, start, None, |rows|);
      assert rows[j1] !in sel;
      if InRange(rows[j2], start, None) {
        var i2 :| 0 <= i2 < |sel| && sel[i2] == rows[j2];
        assert ReindexTail(rows, start, false)[j2].orderIndex == Base(start) + i2 * OrderGap;
      }
    }
  }

  /** Every key a tail rebalance from `start` writes is at least Base(start). */
  lemma ReindexTailFloor(rows: seq<Todo>, start: Option<int>)
    requires UniqueIds(rows)
    ensures var after := ReindexTail(rows, start, false);
      |after| == |rows| &&
      forall j :: 0 <= j < |rows| && InRange(rows[j], start, None) ==> Base(start) <= after[j].orderIndex
  {
    var sel := Selection(rows, start, None, |rows|);
    SelectionComplete(rows, start, None, |rows|);
    ReindexRewritesSelection(rows, start, None, |rows|);
    forall j | 0 <= j < |rows| && InRange(rows[j], start, None)
      ensures Base(start) <= ReindexTail(rows, start, false)[j].orderIndex
    {
      var i :| 0 <= i < |sel| && sel[i] == rows[j];
    }
  }

  // ---------------------------------------------------------------------------
  // Insert at the front: calculateOrderIndexForFirst

  /** `m` is the smallest key of `rows`. */
  predicate IsMinKey(rows: seq<Todo>, m: int) {
    (forall t :: t in rows ==> m <= t.orderIndex) && exists t :: t in rows && t.orderIndex == m
  }

  /** `first` is what a successful read of the first row yields: nothing for
      an empty scope, otherwise the smallest key. */
  predicate ReadsFirst(rows: seq<Todo>, first: Option<int>) {
    (first.None? <==> rows == []) && (first.Some? ==> IsMinKey(rows, first.value))
  }

  /** The read of the row with the smallest key (`order … ascending, limit 1,
      single`): its key, or nothing when there is no row or the read fails. */
  function FirstKey(rows: seq<Todo>, readFails: bool): Option<int> {
    if readFails || rows == [] then None else Some(MinKey(rows))
  }

  /** A successful read of the first row yields the smallest key, and nothing
      exactly when the user has no row. */
  lemma FirstKeyReads(rows: seq<Todo>)
    ensures ReadsFirst(rows, FirstKey(rows, false))
  {
    if rows != [] {
      MinKeyIsMin(rows);
    }
  }

  /** A key handed out for a new todo together with the table it leaves behind. */
  datatype Placement = Placement(key: int, rows: seq<Todo>)

  /** `calculateOrderIndexForFirst` once the first row has been read: ORDER_GAP
      when there is none; `first - ORDER_GAP` when that is positive; otherwise
      the first ten rows with keys up to `first + 10 * ORDER_GAP` are
      rebalanced from ORDER_GAP and ORDER_GAP is handed out. */
  function ForFirst(rows: seq<Todo>, first: Option<int>, reindexFetchFails: bool): Placement {
    if first.None? then Placement(OrderGap, rows)
    else if first.value - OrderGap <= 0 then
      Placement(OrderGap, ReindexEffect(rows, None, Some(first.value + OrderGap * 10), 10, reindexFetchFails))
    else Placement(first.value - OrderGap, rows)
  }

  method CalculateOrderIndexForFirst(table: TodoTable, minReadFails: bool, reindexFetchFails: bool) returns (k: int)
    requires table.Valid()
    modifies table
    ensures table.Valid()
    ensures Placement(k, table.rows) == ForFirst(old(table.rows), FirstKey(old(table.rows), minReadFails), reindexFetchFails)
  {
    var first := FirstKey(table.rows, minReadFails);
    if first.None? {
      return OrderGap;
    }
    var newOrderIndex := first.value - OrderGap;
    if newOrderIndex <= 0 {
      ReindexRange(table, None, Some(first.value + OrderGap * 10), 10, reindexFetchFails);
      return OrderGap;
    }
    return newOrderIndex;
  }

  /** The handed-out key is always positive; after a successful read, when
      every key exceeds ORDER_GAP, it goes strictly in front of all of them
      and the table is left as it was. */
  lemma ForFirstAhead(rows: seq<Todo>, first: Option<int>, reindexFetchFails: bool)
    requires ReadsFirst(rows, first)
    ensures 0 < ForFirst(rows, first, reindexFetchFails).key
    ensures rows == [] ==> ForFirst(rows, first, reindexFetchFails) == Placement(OrderGap, rows)
    ensures (forall t :: t in rows ==> OrderGap < t.orderIndex) ==>
      var p := ForFirst(rows, first, reindexFetchFails);
      p.rows == rows && forall t :: t in rows ==> p.key < t.orderIndex
  {
  }

  /** The shape of ForFirst once a first key that leaves no room has been read. */
  lemma ForFirstRebalanceArm(rows: seq<Todo>, m: int, reindexFetchFails: bool)
    requires m - OrderGap <= 0
    ensures ForFirst(rows, Some(m), reindexFetchFails) ==
      Placement(OrderGap, ReindexEffect(rows, None, Some(m + OrderGap * 10), 10, reindexFetchFails))
  {
  }

  /** When some key is at most ORDER_GAP, the front rebalance gives the former
      first row (the row holding the smallest key) the key ORDER_GAP, which is
      the very key handed out for the new todo. */
  lemma ForFirstRebalanceCollides(rows: seq<Todo>, first: Option<int>)
    requires UniqueIds(rows) && ReadsFirst(rows, first)
    requires exists t :: t in rows && t.orderIndex <= OrderGap
    ensures var p := ForFirst(rows, first, false);
      && p.key == OrderGap
      && |p.rows| == |rows|
      && exists j :: 0 <= j < |rows| && rows[j].orderIndex == first.value && p.rows[j].orderIndex == p.key
  {
    var m := first.value;
    var t1 :| t1 in rows && t1.orderIndex <= OrderGap;
    assert m <= t1.orderIndex;
    ForFirstRebalanceArm(rows, m, false);
    FrontRebalanceFirstRow(rows, m);
  }

  /** More than ten rows, all with keys below ORDER_GAP: the front rebalance
      rewrites only ten of them, and one row left behind now sorts before a
      row that preceded it. */
  lemma ForFirstRebalanceReorders(rows: seq<Todo>, first: Option<int>)
    requires UniqueIds(rows) && ReadsFirst(rows, first)
    requires |rows| > 10
    requires forall t :: t in rows ==> 0 < t.orderIndex < OrderGap
    ensures var p := ForFirst(rows, first, false);
      && |p.rows| == |rows|
      && exists j1, j2 :: 0 <= j1 < |rows| && 0 <= j2 < |rows|
           && Precedes(rows[j1], rows[j2], true) && p.rows[j2].orderIndex < p.rows[j1].orderIndex
  {
    var m := first.value;
    var t0 :| t0 in rows && t0.orderIndex == m;
    ForFirstRebalanceArm(rows, m, false);
    FrontWindowLeavesBehind(rows, m);
  }

  /** The front window `order_index <= m + 10 * ORDER_GAP` takes in every row whose
      key lies in (0, ORDER_GAP); with more than ten of them one is left behind. */
  lemma FrontWindowLeavesBehind(rows: seq<Todo>, m: int)
    requires UniqueIds(rows) && |rows| > 10 && 0 < m
    requires forall t :: t in rows ==> 0 < t.orderIndex < OrderGap
    ensures var after := ReindexEffect(rows, None, Some(m + OrderGap * 10), 10, false);
      && |after| == |rows|
      && exists j1, j2 :: 0 <= j1 < |rows| && 0 <= j2 < |rows|
           && Precedes(rows[j1], rows[j2], true) && after[j2].orderIndex < after[j1].orderIndex
  {
    var hi := Some(m + OrderGap * 10);
    var sel := Selection(rows, None, hi, 10);
    SelectionMembers(rows, None, hi, 10);
    SomeLeftOut(rows, sel);
    var jo :| 0 <= jo < |rows| && rows[jo] !in sel;
    assert rows[jo] in rows;
    ReindexLeavesBehind(rows, None, hi, 10, jo);
  }

  /** A rebalance without a lower bound rewrites a row holding the smallest
      key first, so that row ends with key ORDER_GAP. */
  lemma FrontRebalanceFirstRow(rows: seq<Todo>, m: int)
    requires UniqueIds(rows) && IsMinKey(rows, m)
    ensures var after := ReindexEffect(rows, None, Some(m + OrderGap * 10), 10, false);
      |after| == |rows| && exists j :: 0 <= j < |rows| && rows[j].orderIndex == m && after[j].orderIndex == OrderGap
  {
    var hi := Some(m + OrderGap * 10);
    var sel := Selection(rows, None, hi, 10);
    SelectionSpec(rows, None, hi, 10);
    var t0 :| t0 in rows && t0.orderIndex == m;
    assert InRange(t0, None, hi);
    assert sel != [];
    assert sel[0].orderIndex <= m by {
      if t0 in sel {
        var p :| 0 <= p < |sel| && sel[p] == t0;
        if p > 0 { assert Precedes(sel[0], sel[p], true); }
      }
    }
    assert sel[0] in rows;
    var j :| 0 <= j < |rows| && rows[j] == sel[0];
    ReindexRewritesSelection(rows, None, hi, 10);
    assert ReindexEffect(rows, None, hi, 10, false)[j].orderIndex == OrderGap;
  }

  /** Corrected `calculateOrderIndexForFirst`: when the front has no room, the
      whole table is rebalanced from ORDER_GAP (keeping its order) and
      ORDER_GAP / 2 is handed out. */
  function ForFirstCorrected(rows: seq<Todo>, first: Option<int>, reindexFetchFails: bool): Placement {
    if first.None? then Placement(OrderGap, rows)
    else if first.value - OrderGap <= 0 then Placement(OrderGap / 2, ReindexTail(rows, None, reindexFetchFails))
    else Placement(first.value - OrderGap, rows)
  }

  method CalculateOrderIndexForFirstCorrected(table: TodoTable, minReadFails: bool, reindexFetchFails: bool) returns (k: int)
    requires table.Valid()
    modifies table
    ensures table.Valid()
    ensures Placement(k, table.rows) == ForFirstCorrected(old(table.rows), FirstKey(old(table.rows), minReadFails), reindexFetchFails)
  {
    var first := FirstKey(table.rows, minReadFails);
    if first.None? {
      return OrderGap;
    }
    var newOrderIndex := first.value - OrderGap;
    if newOrderIndex <= 0 {
      ReindexRange(table, None, None, |table.rows|, reindexFetchFails);
      return OrderGap / 2;
    }
    return newOrderIndex;
  }

  /** When every read succeeds, the corrected key is positive and strictly
      below every key of the resulting table, and the existing rows keep their order. */
  lemma ForFirstCorrectedAhead(rows: seq<Todo>, first: Option<int>)
    requires UniqueIds(rows) && ReadsFirst(rows, first)
    ensures var p := ForFirstCorrected(rows, first, false);
      && 0 < p.key
      && |p.rows| == |rows|
      && (forall t :: t in p.rows ==> p.key < t.orderIndex)
      && (forall j1, j2 :: 0 <= j1 < |rows| && 0 <= j2 < |rows| && rows[j1].orderIndex < rows[j2].orderIndex ==>
            p.rows[j1].orderIndex < p.rows[j2].orderIndex)
  {
    if first.Some? && first.value - OrderGap <= 0 {
      ReindexTailAbove(rows);
      ReindexTailKeepsAllOrder(rows, None);
    }
  }

  /** After a whole-table rebalance from ORDER_GAP every key exceeds ORDER_GAP / 2. */
  lemma ReindexTailAbove(rows: seq<Todo>)
    requires UniqueIds(rows)
    ensures forall t :: t in ReindexTail(rows, None, false) ==> OrderGap / 2 < t.orderIndex
  {
    var after := ReindexTail(rows, None, false);
    ReindexTailFloor(rows, None);
    forall t | t in after ensures OrderGap / 2 < t.orderIndex {
      var j :| 0 <= j < |after| && after[j] == t;
    }
  }

  /** ReindexTailKeepsOrder for every pair of rows at once. */
  lemma ReindexTailKeepsAllOrder(rows: seq<Todo>, start: Option<int>)
    requires UniqueIds(rows)
    ensures var after := ReindexTail(rows, start, false);
      && |after| == |rows|
      && forall j1, j2 :: 0 <= j1 < |rows| && 0 <= j2 < |rows| && rows[j1].orderIndex < rows[j2].orderIndex ==>
           after[j1].orderIndex < after[j2].orderIndex
  {
    ReindexKeepsIds(rows, start, None, |rows|, false);
    forall j1, j2 | 0 <= j1 < |rows| && 0 <= j2 < |rows| && rows[j1].orderIndex < rows[j2].orderIndex
      ensures ReindexTail(rows, start, false)[j1].orderIndex < ReindexTail(rows, start, false)[j2].orderIndex
    {
      ReindexTailKeepsOrder(rows, start, j1, j2);
    }
  }

  // ---------------------------------------------------------------------------
  // Insert between two keys: calculateOrderIndexBetween

  /** `Math.floor((before + after) / 2)`; it lies strictly between the two keys
      whenever they are at least MIN_GAP apart. */
  function Midpoint(before: int, after: int): (m: int)
    ensures after - before >= MinGap ==> before < m < after
    ensures after - before < MinGap && before <= after ==> m == before
  {
    (before + after) / 2
  }

  /** `calculateOrderIndexBetween`: the midpoint when the neighbours are at
      least MIN_GAP apart; otherwise the window from `before - ORDER_GAP` to
      `after + ORDER_GAP` (at most REINDEX_RANGE rows) is rebalanced and
      `before + ORDER_GAP` is handed out. */
  function Between(rows: seq<Todo>, before: int, after: int, reindexFetchFails: bool): Placement {
    if after - before >= MinGap then Placement(Midpoint(before, after), rows)
    else
      Placement(before + OrderGap,
        ReindexEffect(rows, Some(before - OrderGap), Some(after + OrderGap), ReindexRangeSize, reindexFetchFails))
  }

  method CalculateOrderIndexBetween(table: TodoTable, before: int, after: int, reindexFetchFails: bool) returns (k: int)
    requires table.Valid()
    modifies table
    ensures table.Valid()
    ensures Placement(k, table.rows) == Between(old(table.rows), before, after, reindexFetchFails)
  {
    var gap := after - before;
    if gap >= MinGap {
      return Midpoint(before, after);
    }
    ReindexRange(table, Some(before - OrderGap), Some(after + OrderGap), ReindexRangeSize, reindexFetchFails);
    return before + OrderGap;
  }

  /** With room between the neighbours the key lies strictly between them and
      the table is left as it was. */
  lemma BetweenWithRoom(rows: seq<Todo>, before: int, after: int, reindexFetchFails: bool)
    requires after - before >= MinGap
    ensures var p := Between(rows, before, after, reindexFetchFails);
      before < p.key < after && p.rows == rows
  {
  }

  /** Without room (including `before >= after`, which is not rejected) the
      window around the two keys is rebalanced and `before + ORDER_GAP` is
      handed out. */
  lemma BetweenWithoutRoom(rows: seq<Todo>, before: int, after: int, reindexFetchFails: bool)
    requires after - before < MinGap
    ensures var p := Between(rows, before, after, reindexFetchFails);
      && p.key == before + OrderGap
      && p.rows == ReindexEffect(rows, Some(before - OrderGap), Some(after + OrderGap), ReindexRangeSize, reindexFetchFails)
  {
  }

  /** The middle rebalance around the rows at `ib` and `ia` fetches both of them. */
  predicate NeighboursFetched(rows: seq<Todo>, ib: nat, ia: nat)
    requires ib < |rows| && ia < |rows|
  {
    var sel := Selection(rows, Some(rows[ib].orderIndex - OrderGap), Some(rows[ia].orderIndex + OrderGap), ReindexRangeSize);
    rows[ib] in sel && rows[ia] in sel
  }

  /** The row at `ib` holds `before`, the row at `ia` holds `after`, they are
      one apart, no other row holds either key, and the window fetched both.
      Then the two neighbours are adjacent in the window and their new keys
      are exactly ORDER_GAP apart, but the key handed out, `before + ORDER_GAP`,
      is never strictly between them: it equals one of them or lies outside.
      For rows keyed 100 and 101 they become -9900 and 100 and 10100 is handed out. */
  lemma BetweenRebalanceNeverBetween(rows: seq<Todo>, ib: nat, ia: nat)
    requires UniqueIds(rows)
    requires ib < |rows| && ia < |rows|
    requires rows[ib].orderIndex < rows[ia].orderIndex
    requires rows[ia].orderIndex - rows[ib].orderIndex < MinGap
    requires forall t :: t in rows && t.orderIndex == rows[ib].orderIndex ==> t == rows[ib]
    requires forall t :: t in rows && t.orderIndex == rows[ia].orderIndex ==> t == rows[ia]
    requires NeighboursFetched(rows, ib, ia)
    ensures var p := Between(rows, rows[ib].orderIndex, rows[ia].orderIndex, false);
      && |p.rows| == |rows|
      && p.rows[ia].orderIndex == p.rows[ib].orderIndex + OrderGap
      && !(p.rows[ib].orderIndex < p.key < p.rows[ia].orderIndex)
  {
    var pb := NeighboursInWindow(rows, ib, ia);
    NeighbourKeys(rows, ib, ia, pb);
    BetweenFromNeighbourKeys(rows, ib, ia, pb);
  }

  /** The conclusion of BetweenRebalanceNeverBetween from the neighbours' new keys. */
  lemma BetweenFromNeighbourKeys(rows: seq<Todo>, ib: nat, ia: nat, pb: nat)
    requires ib < |rows| && ia < |rows|
    requires rows[ia].orderIndex - rows[ib].orderIndex < MinGap
    requires var start := Some(rows[ib].orderIndex - OrderGap);
      var after := ReindexEffect(rows, start, Some(rows[ia].orderIndex + OrderGap), ReindexRangeSize, false);
      && |after| == |rows|
      && after[ib].orderIndex == Base(start) + pb * OrderGap
      && after[ia].orderIndex == after[ib].orderIndex + OrderGap
    ensures var p := Between(rows, rows[ib].orderIndex, rows[ia].orderIndex, false);
      && |p.rows| == |rows|
      && p.rows[ia].orderIndex == p.rows[ib].orderIndex + OrderGap
      && !(p.rows[ib].orderIndex < p.key < p.rows[ia].orderIndex)
  {
    BetweenWithoutRoom(rows, rows[ib].orderIndex, rows[ia].orderIndex, false);
    NoKeyInsideStep(rows[ib].orderIndex, Base(Some(rows[ib].orderIndex - OrderGap)), pb);
  }

  /** Keys `base + pb * ORDER_GAP` and the next one up leave `before + ORDER_GAP`
      outside the open interval between them when the base is `before - ORDER_GAP`
      or, with `before` equal to ORDER_GAP, ORDER_GAP itself. */
  lemma NoKeyInsideStep(before: int, base: int, pb: nat)
    requires base == before - OrderGap || (base == OrderGap && before == OrderGap)
    ensures !(base + pb * OrderGap < before + OrderGap < base + pb * OrderGap + OrderGap)
  {
    if pb >= 2 {
      assert pb * OrderGap >= 2 * OrderGap;
    }
  }

  /** When the window of the middle rebalance holds the rows at `ib` and `ia`
      at positions `pb` and `pb + 1`, they are rewritten ORDER_GAP apart. */
  lemma NeighbourKeys(rows: seq<Todo>, ib: nat, ia: nat, pb: nat)
    requires UniqueIds(rows)
    requires ib < |rows| && ia < |rows|
    requires rows[ia].orderIndex - rows[ib].orderIndex < MinGap
    requires var sel := Selection(rows, Some(rows[ib].orderIndex - OrderGap), Some(rows[ia].orderIndex + OrderGap), ReindexRangeSize);
      pb + 1 < |sel| && sel[pb] == rows[ib] && sel[pb + 1] == rows[ia]
    ensures var start := Some(rows[ib].orderIndex - OrderGap);
      var after := ReindexEffect(rows, start, Some(rows[ia].orderIndex + OrderGap), ReindexRangeSize, false);
      && |after| == |rows|
      && after[ib].orderIndex == Base(start) + pb * OrderGap
      && after[ia].orderIndex == after[ib].orderIndex + OrderGap
  {
    var start, end := Some(rows[ib].orderIndex - OrderGap), Some(rows[ia].orderIndex + OrderGap);
    var after := ReindexEffect(rows, start, end, ReindexRangeSize, false);
    assert |after| == |rows| && after[ib].orderIndex == Base(start) + pb * OrderGap by {
      ReindexRewritesRow(rows, start, end, ReindexRangeSize, ib, pb);
    }
    assert after[ia].orderIndex == after[ib].orderIndex + OrderGap by {
      ReindexRewritesRow(rows, start, end, ReindexRangeSize, ia, pb + 1);
      assert (pb + 1) * OrderGap == pb * OrderGap + OrderGap;
    }
  }

  /** The window of the middle rebalance holds the two neighbours next to each other. */
  lemma NeighboursInWindow(rows: seq<Todo>, ib: nat, ia: nat) returns (pb: nat)
    requires UniqueIds(rows)
    requires ib < |rows| && ia < |rows|
    requires rows[ib].orderIndex < rows[ia].orderIndex
    requires rows[ia].orderIndex - rows[ib].orderIndex < MinGap
    requires forall t :: t in rows && t.orderIndex == rows[ib].orderIndex ==> t == rows[ib]
    requires forall t :: t in rows && t.orderIndex == rows[ia].orderIndex ==> t == rows[ia]
    requires NeighboursFetched(rows, ib, ia)
    ensures var sel := Selection(rows, Some(rows[ib].orderIndex - OrderGap), Some(rows[ia].orderIndex + OrderGap), ReindexRangeSize);
      pb + 1 < |sel| && sel[pb] == rows[ib] && sel[pb + 1] == rows[ia]
  {
    var start, end := Some(rows[ib].orderIndex - OrderGap), Some(rows[ia].orderIndex + OrderGap);
    var sel := Selection(rows, start, end, ReindexRangeSize);
    SelectionMembers(rows, start, end, ReindexRangeSize);
    pb := AdjacentInWindow(rows, sel, ib, ia);
  }

  /** One instance of ReindexRewritesSelection: the row at `j`, fetched at `i`. */
  lemma ReindexRewritesRow(rows: seq<Todo>, start: Option<int>, end: Option<int>, limit: nat, j: nat, i: nat)
    requires UniqueIds(rows)
    requires j < |rows| && i < |Selection(rows, start, end, limit)|
    requires Selection(rows, start, end, limit)[i] == rows[j]
    ensures var after := ReindexEffect(rows, start, end, limit, false);
      |after| == |rows| && after[j].orderIndex == Base(start) + i * OrderGap
  {
    ReindexRewritesSelection(rows, start, end, limit);
  }

  /** Two rows one key apart whose keys no other row shares sit next to each
      other in any sorted window that holds both. */
  lemma AdjacentInWindow(rows: seq<Todo>, sel: seq<Todo>, ib: nat, ia: nat) returns (pb: nat)
    requires Sorted(sel, true) && UniqueIds(sel)
    requires forall t :: t in sel ==> t in rows
    requires ib < |rows| && ia < |rows|
    requires rows[ib].orderIndex < rows[ia].orderIndex
    requires rows[ia].orderIndex - rows[ib].orderIndex < MinGap
    requires forall t :: t in rows && t.orderIndex == rows[ib].orderIndex ==> t == rows[ib]
    requires forall t :: t in rows && t.orderIndex == rows[ia].orderIndex ==> t == rows[ia]
    requires rows[ib] in sel && rows[ia] in sel
    ensures pb + 1 < |sel| && sel[pb] == rows[ib] && sel[pb + 1] == rows[ia]
  {
    pb :| 0 <= pb < |sel| && sel[pb] == rows[ib];
    var pa :| 0 <= pa < |sel| && sel[pa] == rows[ia];
    SortedByKey(sel, pb, pa);
    var next := sel[pb + 1];
    assert next in rows;
    assert Precedes(sel[pb], next, true);
    assert next.orderIndex == rows[ib].orderIndex || next.orderIndex == rows[ia].orderIndex;
    assert next != rows[ib] by { assert next.id != sel[pb].id; }
  }

  /** Corrected `calculateOrderIndexBetween`: when the neighbours leave no
      room, every row from `before` upwards is rebalanced from Base(before),
      so the two neighbours become the first two rewritten rows, ORDER_GAP
      apart, and the key half-way between them is handed out. */
  function BetweenCorrected(rows: seq<Todo>, before: int, after: int, reindexFetchFails: bool): Placement {
    if after - before >= MinGap then Placement(Midpoint(before, after), rows)
    else Placement(Base(Some(before)) + OrderGap / 2, ReindexTail(rows, Some(before), reindexFetchFails))
  }

  method CalculateOrderIndexBetweenCorrected(table: TodoTable, before: int, after: int, reindexFetchFails: bool) returns (k: int)
    requires table.Valid()
    modifies table
    ensures table.Valid()
    ensures Placement(k, table.rows) == BetweenCorrected(old(table.rows), before, after, reindexFetchFails)
  {
    var gap := after - before;
    if gap >= MinGap {
      return Midpoint(before, after);
    }
    ReindexRange(table, Some(before), None, |table.rows|, reindexFetchFails);
    return Base(Some(before)) + OrderGap / 2;
  }

  /** The row at `ib` holds `before`, the row at `ia` holds `after`, no other
      row holds either key, and `before < after`: then the corrected key lies
      strictly between the new keys of the two neighbours. */
  lemma BetweenCorrectedBetween(rows: seq<Todo>, ib: nat, ia: nat)
    requires UniqueIds(rows)
    requires ib < |rows| && ia < |rows|
    requires rows[ib].orderIndex < rows[ia].orderIndex
    requires forall t :: t in rows && t.orderIndex == rows[ib].orderIndex ==> t == rows[ib]
    requires forall t :: t in rows && t.orderIndex == rows[ia].orderIndex ==> t == rows[ia]
    ensures var p := BetweenCorrected(rows, rows[ib].orderIndex, rows[ia].orderIndex, false);
      |p.rows| == |rows| && p.rows[ib].orderIndex < p.key < p.rows[ia].orderIndex
  {
    var before, after := rows[ib].orderIndex, rows[ia].orderIndex;
    if after - before < MinGap {
      var start := Some(before);
      var sel := Selection(rows, start, None, |rows|);
      assert sel[0] == rows[ib] && sel[1] == rows[ia] by {
        SelectionSpec(rows, start, None, |rows|);
        SelectionComplete(rows, start, None, |rows|);
        var pb := AdjacentInWindow(rows, sel, ib, ia);
        assert sel[0] in rows && Precedes(sel[0], sel[pb], true);
        assert sel[0] == rows[ib];
      }
      ReindexRewritesRow(rows, start, None, |rows|, ib, 0);
      ReindexRewritesRow(rows, start, None, |rows|, ia, 1);
    }
  }

  // ---------------------------------------------------------------------------
  // Drag and drop: calculateOrderIndexForDragDrop

  /** The move to the end names `todos[targetPosition]`, which does not exist. */
  datatype DragError = MissingTargetRow

  /** The re-read after a rebalance (`order by order_index, limit n`): the first
      `n` rows by key, numbered (idx + 1) * ORDER_GAP; nothing when the read fails. */
  function Requery(rows: seq<Todo>, n: nat, readFails: bool): seq<Keyed> {
    if readFails then [] else Respaced(Take(Sort(rows, false), n), OrderGap)
  }

  /** A successful re-read names at most `n` rows, in key order, with keys
      ORDER_GAP, 2 * ORDER_GAP, …: positive and strictly increasing. */
  lemma RequerySpaced(rows: seq<Todo>, n: nat)
    ensures var r := Requery(rows, n, false);
      var s := Sort(rows, false);
      && |r| == (if |rows| < n then |rows| else n)
      && (forall i :: 0 <= i < |r| ==> r[i] == Keyed(s[i].id, (i + 1) * OrderGap))
      && (forall i, j :: 0 <= i < j < |r| ==> 0 < r[i].orderIndex < r[j].orderIndex)
      && (UniqueIds(rows) ==> UniqueKeyedIds(r))
  {
    var s := Sort(rows, false);
    SortSpec(rows, false);
    assert |s| == |multiset(s)| == |multiset(rows)| == |rows|;
    var taken := Take(s, n);
    if UniqueIds(rows) {
      assert UniqueIds(taken) by {
        forall i, j | 0 <= i < j < |taken| ensures taken[i].id != taken[j].id {
          assert taken[i] == s[i] && taken[j] == s[j];
        }
      }
      RespacedUnique(taken, OrderGap);
    }
  }

  /** The planned updates together with the table after planning them. */
  datatype DragOutcome = DragOutcome(updates: Result<seq<Keyed>, DragError>, rows: seq<Todo>)

  /** A rebalance followed by the re-read of `n` rows. */
  function RebalanceThenRequery(rows: seq<Todo>, start: Option<int>, end: Option<int>, limit: nat, n: nat,
                                reindexFetchFails: bool, requeryFails: bool): DragOutcome {
    var rebalanced := ReindexEffect(rows, start, end, limit, reindexFetchFails);
    DragOutcome(Ok(Requery(rebalanced, n, requeryFails)), rebalanced)
  }

  method RebalanceAndRequery(table: TodoTable, start: Option<int>, end: Option<int>, limit: nat, n: nat,
                             reindexFetchFails: bool, requeryFails: bool) returns (r: Result<seq<Keyed>, DragError>)
    requires table.Valid()
    modifies table
    ensures table.Valid()
    ensures DragOutcome(r, table.rows) == RebalanceThenRequery(old(table.rows), start, end, limit, n, reindexFetchFails, requeryFails)
  {
    ReindexRange(table, start, end, limit, reindexFetchFails);
    return Ok(Requery(table.rows, n, requeryFails));
  }

  method DropBetween(table: TodoTable, before: int, target: Keyed, n: nat, reindexFetchFails: bool, requeryFails: bool)
    returns (r: Result<seq<Keyed>, DragError>)
    requires table.Valid()
    modifies table
    ensures table.Valid()
    ensures DragOutcome(r, table.rows) == DragBetween(old(table.rows), before, target, n, reindexFetchFails, requeryFails)
  {
    var after := target.orderIndex;
    var gap := after - before;
    if gap >= MinGap {
      assert DragBetween(table.rows, before, target, n, reindexFetchFails, requeryFails)
        == DragOutcome(Ok([Keyed(target.id, Midpoint(before, after))]), table.rows);
      return Ok([Keyed(target.id, Midpoint(before, after))]);
    }
    r := RebalanceAndRequery(table, Some(before - OrderGap), Some(after + OrderGap), ReindexRangeSize, n, reindexFetchFails, requeryFails);
  }

  /** `calculateOrderIndexForDragDrop(targetPosition, todos)`. The neighbours
      are `todos[targetPosition - 1]` and `todos[targetPosition]` when those
      exist. To the front: one update `after - ORDER_GAP` when that is positive,
      otherwise a front rebalance and a re-read of `|todos|` rows. To the end:
      the update names `todos[targetPosition]`, which is missing, so the call
      fails. In the middle: one update to the midpoint when there is room,
      otherwise a middle rebalance and the re-read. Any other position plans
      nothing. Each single update names `todos[targetPosition]`. */
  function DragDrop(rows: seq<Todo>, targetPosition: int, todos: seq<Keyed>, reindexFetchFails: bool, requeryFails: bool): DragOutcome {
    if targetPosition == 0 && |todos| > 0 then
      var after := todos[0].orderIndex;
      if after - OrderGap <= 0 then
        RebalanceThenRequery(rows, None, Some(after + OrderGap * 10), 10, |todos|, reindexFetchFails, requeryFails)
      else DragOutcome(Ok([Keyed(todos[0].id, after - OrderGap)]), rows)
    else if 0 < targetPosition == |todos| then
      DragOutcome(Err(MissingTargetRow), rows)
    else if 0 < targetPosition < |todos| then
      DragBetween(rows, todos[targetPosition - 1].orderIndex, todos[targetPosition], |todos|, reindexFetchFails, requeryFails)
    else DragOutcome(Ok([]), rows)
  }

  /** The drop between a neighbour with key `before` and the row `target`. */
  function DragBetween(rows: seq<Todo>, before: int, target: Keyed, n: nat, reindexFetchFails: bool, requeryFails: bool): DragOutcome {
    if target.orderIndex - before >= MinGap then
      DragOutcome(Ok([Keyed(target.id, Midpoint(before, target.orderIndex))]), rows)
    else
      RebalanceThenRequery(rows, Some(before - OrderGap), Some(target.orderIndex + OrderGap), ReindexRangeSize, n, reindexFetchFails, requeryFails)
  }

  method CalculateOrderIndexForDragDrop(table: TodoTable, targetPosition: int, todos: seq<Keyed>, reindexFetchFails: bool, requeryFails: bool)
    returns (r: Result<seq<Keyed>, DragError>)
    requires table.Valid()
    modifies table
    ensures table.Valid()
    ensures DragOutcome(r, table.rows) == DragDrop(old(table.rows), targetPosition, todos, reindexFetchFails, requeryFails)
  {
    var hasBefore := 0 < targetPosition <= |todos|;
    var hasAfter := 0 <= targetPosition < |todos|;
    if !hasBefore && hasAfter {
      var newOrderIndex := todos[0].orderIndex - OrderGap;
      if newOrderIndex <= 0 {
        r := RebalanceAndRequery(table, None, Some(todos[0].orderIndex + OrderGap * 10), 10, |todos|, reindexFetchFails, requeryFails);
        return;
      }
      return Ok([Keyed(todos[targetPosition].id, newOrderIndex)]);
    } else if hasBefore && !hasAfter {
      return Err(MissingTargetRow);
    } else if hasBefore && hasAfter {
      r := DropBetween(table, todos[targetPosition - 1].orderIndex, todos[targetPosition], |todos|, reindexFetchFails, requeryFails);
      return;
    }
    return Ok([]);
  }

  /** Without a rebalance the plan is a single update of `todos[targetPosition]`:
      in the middle it gets a key strictly between `todos[targetPosition - 1]`'s
      key and its own old key, at the front a positive key below its own old
      key; the table is left as it was. */
  lemma DragDropSingleUpdate(rows: seq<Todo>, targetPosition: int, todos: seq<Keyed>, reindexFetchFails: bool, requeryFails: bool)
    requires 0 <= targetPosition < |todos|
    requires targetPosition == 0 ==> todos[0].orderIndex > OrderGap
    requires targetPosition > 0 ==> todos[targetPosition].orderIndex - todos[targetPosition - 1].orderIndex >= MinGap
    ensures var o := DragDrop(rows, targetPosition, todos, reindexFetchFails, requeryFails);
      && o.rows == rows
      && o.updates.Ok? && |o.updates.value| == 1
      && o.updates.value[0].id == todos[targetPosition].id
      && o.updates.value[0].orderIndex < todos[targetPosition].orderIndex
      && (targetPosition == 0 ==>
            0 < o.updates.value[0].orderIndex && o.updates.value[0].orderIndex == todos[0].orderIndex - OrderGap)
      && (targetPosition > 0 ==>
            todos[targetPosition - 1].orderIndex < o.updates.value[0].orderIndex
            && o.updates.value[0].orderIndex == (todos[targetPosition - 1].orderIndex + todos[targetPosition].orderIndex) / 2)
  {
  }

  /** After a rebalance the plan is the re-read: keys ORDER_GAP, 2 * ORDER_GAP,
      … for at most `|todos|` rows of the rebalanced table in key order. */
  lemma DragDropRebalancePlan(rows: seq<Todo>, targetPosition: int, todos: seq<Keyed>, reindexFetchFails: bool)
    requires 0 <= targetPosition < |todos|
    requires targetPosition == 0 ==> todos[0].orderIndex <= OrderGap
    requires targetPosition > 0 ==> todos[targetPosition].orderIndex - todos[targetPosition - 1].orderIndex < MinGap
    ensures var o := DragDrop(rows, targetPosition, todos, reindexFetchFails, false);
      && o.updates.Ok?
      && |o.updates.value| <= |todos|
      && (forall i :: 0 <= i < |o.updates.value| ==> o.updates.value[i].orderIndex == (i + 1) * OrderGap)
      && (UniqueIds(rows) ==> UniqueKeyedIds(o.updates.value))
  {
    var o := DragDrop(rows, targetPosition, todos, reindexFetchFails, false);
    RequerySpaced(o.rows, |todos|);
    if UniqueIds(rows) {
      if targetPosition == 0 {
        ReindexKeepsIds(rows, None, Some(todos[0].orderIndex + OrderGap * 10), 10, reindexFetchFails);
      } else {
        ReindexKeepsIds(rows, Some(todos[targetPosition - 1].orderIndex - OrderGap), Some(todos[targetPosition].orderIndex + OrderGap), ReindexRangeSize, reindexFetchFails);
      }
    }
  }

  /** A drop at the end fails, and a position outside `0 .. |todos|` (or an
      empty list) plans nothing; neither touches the table. */
  lemma DragDropEdges(rows: seq<Todo>, targetPosition: int, todos: seq<Keyed>, reindexFetchFails: bool, requeryFails: bool)
    ensures var o := DragDrop(rows, targetPosition, todos, reindexFetchFails, requeryFails);
      && (0 < targetPosition == |todos| ==> o == DragOutcome(Err(MissingTargetRow), rows))
      && (targetPosition < 0 || targetPosition > |todos| || todos == [] ==> o == DragOutcome(Ok([]), rows))
  {
  }
}
