/**
 * The reads the ordering code issues against the `todos` table:
 * `select … [gte] [lte] order … limit`, and the maximum and minimum key.
 * A query is a pure function of the table's rows.
 */
module Query {
  import opened Wrappers
  import opened Storage

  /** `.gte('order_index', lo)` when `lo` is given and `.lte('order_index', hi)` when `hi` is given. */
  predicate InRange(t: Todo, lo: Option<int>, hi: Option<int>) {
    (lo.None? || lo.value <= t.orderIndex) && (hi.None? || t.orderIndex <= hi.value)
  }

  /** The rows that pass the range filter, in storage order. */
  function Filtered(rows: seq<Todo>, lo: Option<int>, hi: Option<int>): (r: seq<Todo>)
    ensures forall t :: t in r <==> t in rows && InRange(t, lo, hi)
    ensures UniqueIds(rows) ==> UniqueIds(r)
  {
    if rows == [] then []
    else
      var rest := Filtered(rows[1..], lo, hi);
      assert rows == [rows[0]] + rows[1..];
      UniqueIdsCons(rows[0], rows[1..]);
      UniqueIdsCons(rows[0], rest);
      if InRange(rows[0], lo, hi) then [rows[0]] + rest else rest
  }

  /** The ordering `.order('order_index', { ascending: true })`, followed, when
      `byCreated` holds, by `.order('created_at', { ascending: false })`.
      Rows equal under it keep their storage order. */
  predicate Precedes(a: Todo, b: Todo, byCreated: bool) {
    a.orderIndex < b.orderIndex || (a.orderIndex == b.orderIndex && (!byCreated || a.createdAt >= b.createdAt))
  }

  predicate Sorted(s: seq<Todo>, byCreated: bool) {
    forall i, j :: 0 <= i < j < |s| ==> Precedes(s[i], s[j], byCreated)
  }

  lemma PrecedesTransitive(a: Todo, b: Todo, c: Todo, byCreated: bool)
    requires Precedes(a, b, byCreated) && Precedes(b, c, byCreated)
    ensures Precedes(a, c, byCreated)
  {
  }

  /** In a sorted sequence a smaller key sits at a smaller index. */
  lemma SortedByKey(s: seq<Todo>, i1: nat, i2: nat)
    requires Sorted(s, true)
    requires i1 < |s| && i2 < |s| && s[i1].orderIndex < s[i2].orderIndex
    ensures i1 < i2
  {
    assert i2 < i1 ==> Precedes(s[i2], s[i1], true);
  }

  /** A row that precedes every row of a sorted sequence can go in front of it. */
  lemma SortedCons(x: Todo, s: seq<Todo>, byCreated: bool)
    requires Sorted(s, byCreated)
    requires forall t :: t in s ==> Precedes(x, t, byCreated)
    ensures Sorted([x] + s, byCreated)
  {
    var r := [x] + s;
    forall i, j | 0 <= i < j < |r| ensures Precedes(r[i], r[j], byCreated) {
      if i == 0 { assert r[j] == s[j - 1]; } else { assert r[i] == s[i - 1] && r[j] == s[j - 1]; }
    }
  }

  /** Inserts `x` in front of the first element it precedes. */
  function Insert(x: Todo, s: seq<Todo>, byCreated: bool): seq<Todo> {
    if s == [] then [x]
    else if Precedes(x, s[0], byCreated) then [x] + s
    else [s[0]] + Insert(x, s[1..], byCreated)
  }

  /** Inserting adds exactly `x`. */
  lemma {:induction false} InsertMultiset(x: Todo, s: seq<Todo>, byCreated: bool)
    ensures multiset(Insert(x, s, byCreated)) == multiset(s) + multiset{x}
    ensures forall t :: t in Insert(x, s, byCreated) <==> t == x || t in s
  {
    if s != [] {
      assert s == [s[0]] + s[1..];
      if !Precedes(x, s[0], byCreated) {
        InsertMultiset(x, s[1..], byCreated);
      }
    }
    forall t ensures t in Insert(x, s, byCreated) <==> t == x || t in s {
      assert t in Insert(x, s, byCreated) <==> t in multiset(Insert(x, s, byCreated));
    }
  }

  /** Inserting into a sorted sequence keeps it sorted. */
  lemma {:induction false} InsertSorted(x: Todo, s: seq<Todo>, byCreated: bool)
    requires Sorted(s, byCreated)
    ensures Sorted(Insert(x, s, byCreated), byCreated)
  {
    if s != [] {
      if Precedes(x, s[0], byCreated) {
        forall t | t in s ensures Precedes(x, t, byCreated) {
          var j :| 0 <= j < |s| && s[j] == t;
          if j > 0 { PrecedesTransitive(x, s[0], t, byCreated); }
        }
        SortedCons(x, s, byCreated);
      } else {
        var rest := Insert(x, s[1..], byCreated);
        InsertSorted(x, s[1..], byCreated);
        InsertMultiset(x, s[1..], byCreated);
        forall t | t in rest ensures Precedes(s[0], t, byCreated) {
          if t != x {
            var j :| 0 <= j < |s[1..]| && s[1..][j] == t;
            assert s[j + 1] == t;
          }
        }
        SortedCons(s[0], rest, byCreated);
      }
    }
  }

  /** Inserting a row with a new id keeps the ids distinct. */
  lemma {:induction false} InsertUnique(x: Todo, s: seq<Todo>, byCreated: bool)
    requires UniqueIds(s) && forall t :: t in s ==> t.id != x.id
    ensures UniqueIds(Insert(x, s, byCreated))
  {
    if s != [] {
      assert s == [s[0]] + s[1..];
      UniqueIdsCons(s[0], s[1..]);
      if Precedes(x, s[0], byCreated) {
        UniqueIdsCons(x, s);
      } else {
        var rest := Insert(x, s[1..], byCreated);
        InsertUnique(x, s[1..], byCreated);
        InsertMultiset(x, s[1..], byCreated);
        UniqueIdsCons(s[0], rest);
      }
    }
  }

  /** A stable insertion sort under `Precedes`: the order the database returns. */
  function Sort(s: seq<Todo>, byCreated: bool): seq<Todo> {
    if s == [] then [] else Insert(s[0], Sort(s[1..], byCreated), byCreated)
  }

  /** The sort orders its input, is a permutation of it, and keeps ids distinct. */
  lemma {:induction false} SortSpec(s: seq<Todo>, byCreated: bool)
    ensures Sorted(Sort(s, byCreated), byCreated)
    ensures multiset(Sort(s, byCreated)) == multiset(s)
    ensures UniqueIds(s) ==> UniqueIds(Sort(s, byCreated))
  {
    if s != [] {
      assert s == [s[0]] + s[1..];
      var rest := Sort(s[1..], byCreated);
      SortSpec(s[1..], byCreated);
      InsertSorted(s[0], rest, byCreated);
      InsertMultiset(s[0], rest, byCreated);
      if UniqueIds(s) {
        UniqueIdsCons(s[0], s[1..]);
        forall t | t in rest ensures t.id != s[0].id {
          assert t in multiset(rest);
        }
        InsertUnique(s[0], rest, byCreated);
      }
    }
  }

  /** `.limit(n)`: the first `n` rows, or all of them when there are fewer. */
  function Take(s: seq<Todo>, n: nat): (r: seq<Todo>)
    ensures |r| == if |s| < n then |s| else n
    ensures r == s[..|r|]
  {
    if |s| <= n then s else s[..n]
  }

  /** The rows `reindexRange` fetches: filtered by the optional bounds, ordered
      by order_index ascending then created_at descending, at most `limit` of them. */
  function Selection(rows: seq<Todo>, lo: Option<int>, hi: Option<int>, limit: nat): seq<Todo> {
    Take(Sort(Filtered(rows, lo, hi), true), limit)
  }

  /** What the fetch returns: at most `limit` rows of the table, all within the
      bounds, in query order, with distinct ids; and every row within the bounds
      that is left out comes after all the rows that were fetched, which
      happens only when `limit` rows were fetched. */
  lemma SelectionSpec(rows: seq<Todo>, lo: Option<int>, hi: Option<int>, limit: nat)
    ensures var sel := Selection(rows, lo, hi, limit);
      && |sel| <= limit
      && Sorted(sel, true)
      && (forall t :: t in sel ==> t in rows && InRange(t, lo, hi))
      && (UniqueIds(rows) ==> UniqueIds(sel))
      && (forall t :: t in rows && InRange(t, lo, hi) && t !in sel ==>
            |sel| == limit && forall k :: 0 <= k < |sel| ==> Precedes(sel[k], t, true))
  {
    SelectionMembers(rows, lo, hi, limit);
    SelectionLeftOut(rows, lo, hi, limit);
  }

  lemma SelectionMembers(rows: seq<Todo>, lo: Option<int>, hi: Option<int>, limit: nat)
    ensures var sel := Selection(rows, lo, hi, limit);
      && |sel| <= limit
      && Sorted(sel, true)
      && (forall t :: t in sel ==> t in rows && InRange(t, lo, hi))
      && (UniqueIds(rows) ==> UniqueIds(sel))
  {
    var f := Filtered(rows, lo, hi);
    var s := Sort(f, true);
    SortSpec(f, true);
    var sel := Take(s, limit);
    forall t | t in sel ensures t in rows && InRange(t, lo, hi) {
      assert t in s;
      assert t in multiset(s);
    }
    if UniqueIds(rows) {
      forall i, j | 0 <= i < j < |sel| ensures sel[i].id != sel[j].id {
        assert sel[i] == s[i] && sel[j] == s[j];
      }
    }
  }

  lemma SelectionLeftOut(rows: seq<Todo>, lo: Option<int>, hi: Option<int>, limit: nat)
    ensures var sel := Selection(rows, lo, hi, limit);
      forall t :: t in rows && InRange(t, lo, hi) && t !in sel ==>
        |sel| == limit && forall k :: 0 <= k < |sel| ==> Precedes(sel[k], t, true)
  {
    var f := Filtered(rows, lo, hi);
    var s := Sort(f, true);
    SortSpec(f, true);
    var sel := Take(s, limit);
    forall t | t in rows && InRange(t, lo, hi) && t !in sel
      ensures |sel| == limit && forall k :: 0 <= k < |sel| ==> Precedes(sel[k], t, true)
    {
      assert t in multiset(f);
      assert t in s;
      var j :| 0 <= j < |s| && s[j] == t;
      assert j >= |sel|;
      forall k | 0 <= k < |sel| ensures Precedes(sel[k], t, true) {
        assert sel[k] == s[k];
      }
    }
  }

  lemma {:induction false} FilteredShorter(rows: seq<Todo>, lo: Option<int>, hi: Option<int>)
    ensures |Filtered(rows, lo, hi)| <= |rows|
  {
    if rows != [] {
      FilteredShorter(rows[1..], lo, hi);
    }
  }

  /** When the limit is at least the number of rows, every row in range is selected. */
  lemma SelectionComplete(rows: seq<Todo>, lo: Option<int>, hi: Option<int>, limit: nat)
    requires |rows| <= limit
    ensures forall t :: t in rows && InRange(t, lo, hi) ==> t in Selection(rows, lo, hi, limit)
  {
    var f := Filtered(rows, lo, hi);
    var s := Sort(f, true);
    SortSpec(f, true);
    FilteredShorter(rows, lo, hi);
    assert |s| == |multiset(s)| == |multiset(f)| == |f|;
    assert Take(s, limit) == s;
    forall t | t in rows && InRange(t, lo, hi) ensures t in s {
      assert t in multiset(f);
    }
  }

  /** With no row inside the bounds the fetch returns nothing. */
  lemma {:induction false} FilteredNone(rows: seq<Todo>, lo: Option<int>, hi: Option<int>)
    requires forall t :: t in rows ==> !InRange(t, lo, hi)
    ensures Filtered(rows, lo, hi) == []
  {
    if rows != [] {
      assert rows[0] in rows;
      assert forall t :: t in rows[1..] ==> t in rows;
      FilteredNone(rows[1..], lo, hi);
    }
  }

  /** A sequence has no more distinct elements than entries, and exactly as
      many when its ids are distinct. */
  lemma {:induction false} ElementCount(s: seq<Todo>)
    ensures |(set t | t in s)| <= |s|
    ensures UniqueIds(s) ==> |(set t | t in s)| == |s|
  {
    if s != [] {
      ElementCount(s[1..]);
      assert (set t | t in s) == {s[0]} + (set t | t in s[1..]);
      UniqueIdsCons(s[0], s[1..]);
      assert s == [s[0]] + s[1..];
    }
  }

  lemma SubsetCard(a: set<Todo>, b: set<Todo>)
    requires a <= b
    ensures |a| <= |b|
    decreases a
  {
    if a != {} {
      var x :| x in a;
      SubsetCard(a - {x}, b - {x});
    }
  }

  /** A shorter sequence cannot hold every row of a table with distinct ids. */
  lemma SomeLeftOut(rows: seq<Todo>, sel: seq<Todo>)
    requires UniqueIds(rows) && |sel| < |rows|
    ensures exists j :: 0 <= j < |rows| && rows[j] !in sel
  {
    ElementCount(rows);
    ElementCount(sel);
    var all, some := (set t | t in rows), (set t | t in sel);
    assert all <= some ==> |all| <= |some| by {
      if all <= some { SubsetCard(all, some); }
    }
    var x :| x in all && x !in some;
    var j :| 0 <= j < |rows| && rows[j] == x;
  }

  /** The largest key of a non-empty sequence of rows. */
  function MaxKey(rows: seq<Todo>): int
    requires rows != []
  {
    if |rows| == 1 then rows[0].orderIndex
    else
      var rest := MaxKey(rows[1..]);
      if rows[0].orderIndex >= rest then rows[0].orderIndex else rest
  }

  /** MaxKey is a key of the rows and no row has a larger one. */
  lemma {:induction false} MaxKeyIsMax(rows: seq<Todo>)
    requires rows != []
    ensures forall t :: t in rows ==> t.orderIndex <= MaxKey(rows)
    ensures exists t :: t in rows && t.orderIndex == MaxKey(rows)
  {
    assert rows[0] in rows;
    if |rows| > 1 {
      MaxKeyIsMax(rows[1..]);
      assert forall t :: t in rows ==> t == rows[0] || t in rows[1..];
      var t1 :| t1 in rows[1..] && t1.orderIndex == MaxKey(rows[1..]);
      assert t1 in rows;
    }
  }

  /** The smallest key of a non-empty sequence of rows. */
  function MinKey(rows: seq<Todo>): int
    requires rows != []
  {
    if |rows| == 1 then rows[0].orderIndex
    else
      var rest := MinKey(rows[1..]);
      if rows[0].orderIndex <= rest then rows[0].orderIndex else rest
  }

  /** MinKey is a key of the rows and no row has a smaller one. */
  lemma {:induction false} MinKeyIsMin(rows: seq<Todo>)
    requires rows != []
    ensures forall t :: t in rows ==> MinKey(rows) <= t.orderIndex
    ensures exists t :: t in rows && t.orderIndex == MinKey(rows)
  {
    assert rows[0] in rows;
    if |rows| > 1 {
      MinKeyIsMin(rows[1..]);
      assert forall t :: t in rows ==> t == rows[0] || t in rows[1..];
      var t1 :| t1 in rows[1..] && t1.orderIndex == MinKey(rows[1..]);
      assert t1 in rows;
    }
  }
}
