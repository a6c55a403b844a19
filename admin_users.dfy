/**
 * The admin listing of users (`GET /api/admin/users`): the user directory is
 * read in full, one page of it is cut out with `slice`, and every user on that
 * page is annotated with counts of their todos.
 */
module AdminUsers {
  import opened Wrappers

  /** A user of the auth directory; `email` may be absent. */
  datatype AuthUser = AuthUser(id: string, email: Option<string>, createdAt: string)

  /** A row of `todos`, restricted to what the route selects and filters on. */
  datatype OwnedTodo = OwnedTodo(id: string, userId: string, completed: bool)

  /** One entry of the response's `users` array. */
  datatype UserStats = UserStats(id: string, email: string, createdAt: string,
                                 todosCount: int, completedCount: int, activeCount: int)

  /** The response body: the page of annotated users and the `pagination` object. */
  datatype Listing = Listing(users: seq<UserStats>, page: int, limit: int, totalUsers: int, totalPages: int)

  /** Where `slice` starts or stops for index i: negative indices count from the
      end, and both are clamped to the array. */
  function SliceIndex(i: int, n: nat): (k: nat)
    ensures k <= n
    ensures 0 <= i ==> k == if i < n then i else n
  {
    if i < 0 then (if n + i < 0 then 0 else n + i)
    else if i < n then i else n
  }

  /** `array.slice(start, end)`. */
  function Slice<T>(s: seq<T>, start: int, end: int): seq<T> {
    var lo, hi := SliceIndex(start, |s|), SliceIndex(end, |s|);
    if lo < hi then s[lo..hi] else []
  }

  /** `users.slice((page - 1) * limit, (page - 1) * limit + limit)`: whatever the
      page, never more than `limit` users, and only users of the directory. */
  function Paginate<T>(users: seq<T>, page: int, limit: int): (r: seq<T>)
    ensures 0 <= limit ==> |r| <= limit
    ensures forall u :: u in r ==> u in users
  {
    var startIndex := (page - 1) * limit;
    Slice(users, startIndex, startIndex + limit)
  }

  /** `Math.ceil(totalUsers / limit)`: the fewest pages of `limit` entries that
      hold every user. */
  function TotalPages(totalUsers: nat, limit: int): (pages: nat)
    requires 0 < limit
    ensures pages * limit >= totalUsers
    ensures 0 < pages ==> (pages - 1) * limit < totalUsers
    ensures totalUsers == 0 <==> pages == 0
  {
    var q := (totalUsers + limit - 1) / limit;
    DivisionBounds(totalUsers + limit - 1, limit);
    q
  }

  lemma DivisionBounds(a: nat, b: int)
    requires 0 < b
    ensures (a / b) * b <= a < (a / b) * b + b
  {
  }

  /** For a page from 1 and a positive limit, the page is the window of at most
      `limit` users starting at `(page - 1) * limit`, cut off at the end of the
      list. */
  lemma PaginateWindow<T>(users: seq<T>, page: int, limit: int)
    requires 1 <= page && 0 < limit
    ensures var startIndex := (page - 1) * limit;
            var lo := if startIndex < |users| then startIndex else |users|;
            var hi := if startIndex + limit < |users| then startIndex + limit else |users|;
      && lo <= hi
      && Paginate(users, page, limit) == users[lo..hi]
      && |Paginate(users, page, limit)| <= limit
  {
    var startIndex := (page - 1) * limit;
    MulNonNegative(page - 1, limit);
    SliceWindow(users, startIndex, limit);
  }

  lemma MulNonNegative(a: int, b: int)
    requires 0 <= a && 0 <= b
    ensures 0 <= a * b
  {
  }

  lemma MulMonotone(a: int, b: int, c: int)
    requires a <= b && 0 <= c
    ensures a * c <= b * c
  {
    MulNonNegative(b - a, c);
    assert (b - a) * c == b * c - a * c;
  }

  /** A slice of `limit` entries from a non-negative start. */
  lemma SliceWindow<T>(users: seq<T>, startIndex: int, limit: int)
    requires 0 <= startIndex && 0 < limit
    ensures var lo := if startIndex < |users| then startIndex else |users|;
            var hi := if startIndex + limit < |users| then startIndex + limit else |users|;
      && lo <= hi
      && Slice(users, startIndex, startIndex + limit) == users[lo..hi]
      && |users[lo..hi]| <= limit
  {
  }

  /** User i is entry `i % limit` of page `i / limit + 1`: the pages together
      list every user exactly where the full list has them. */
  lemma PageOf<T>(users: seq<T>, i: nat, limit: int)
    requires i < |users| && 0 < limit
    ensures var p := Paginate(users, i / limit + 1, limit);
      i % limit < |p| && p[i % limit] == users[i]
  {
    DivMod(i, limit);
    PageEntry(users, i / limit, i % limit, limit);
  }

  lemma DivMod(i: nat, limit: int)
    requires 0 < limit
    ensures i == (i / limit) * limit + i % limit && 0 <= i % limit < limit && 0 <= i / limit
  {
  }

  lemma PageEntry<T>(users: seq<T>, q: nat, r: nat, limit: int)
    requires 0 <= r < limit && q * limit + r < |users|
    ensures var p := Paginate(users, q + 1, limit);
      r < |p| && p[r] == users[q * limit + r]
  {
    var startIndex := q * limit;
    MulNonNegative(q, limit);
    assert Paginate(users, q + 1, limit) == Slice(users, startIndex, startIndex + limit);
    SliceWindow(users, startIndex, limit);
  }

  /** From page 1 on, a page holds someone exactly when it is one of the
      `totalPages` pages. */
  lemma PageNonEmpty<T>(users: seq<T>, page: int, limit: int)
    requires 1 <= page && 0 < limit
    ensures Paginate(users, page, limit) != [] <==> page <= TotalPages(|users|, limit)
  {
    var n := TotalPages(|users|, limit);
    var startIndex := (page - 1) * limit;
    MulNonNegative(page - 1, limit);
    assert Paginate(users, page, limit) == Slice(users, startIndex, startIndex + limit);
    SliceWindow(users, startIndex, limit);
    if page <= n {
      MulMonotone(page - 1, n - 1, limit);
    } else {
      MulMonotone(n, page - 1, limit);
    }
  }

  /** `todos.filter(t => t.completed).length` over the route's rows, which carry
      their owner; the list screen's own count over its rows is
      `Storage.CompletedCount`. */
  function CompletedAmong(todos: seq<OwnedTodo>): (n: nat)
    ensures n <= |todos|
  {
    if todos == [] then 0 else (if todos[0].completed then 1 else 0) + CompletedAmong(todos[1..])
  }

  /** `select('id, completed').eq('user_id', userId)`. */
  function OwnedBy(todos: seq<OwnedTodo>, userId: string): (r: seq<OwnedTodo>)
    ensures forall t :: t in r <==> t in todos && t.userId == userId
    ensures forall t :: multiset(r)[t] == if t.userId == userId then multiset(todos)[t] else 0
  {
    if todos == [] then []
    else
      assert todos == [todos[0]] + todos[1..];
      if todos[0].userId == userId then [todos[0]] + OwnedBy(todos[1..], userId)
      else OwnedBy(todos[1..], userId)
  }

  /** One user's entry; `fetched` is None when the read of their todos failed,
      and `todos?.length || 0` turns that into 0. */
  function StatsFor(user: AuthUser, fetched: Option<seq<OwnedTodo>>): (s: UserStats)
    ensures s.id == user.id && s.createdAt == user.createdAt
    ensures s.email == if user.email.Some? then user.email.value else ""
    ensures 0 <= s.completedCount <= s.todosCount
    ensures s.activeCount == s.todosCount - s.completedCount
    ensures fetched.None? || fetched == Some([]) ==> s.todosCount == 0 && s.completedCount == 0 && s.activeCount == 0
    ensures fetched.Some? ==> s.todosCount == |fetched.value| && s.completedCount == CompletedAmong(fetched.value)
  {
    var todosCount := if fetched.Some? then |fetched.value| else 0;
    var completedCount := if fetched.Some? then CompletedAmong(fetched.value) else 0;
    UserStats(user.id, if user.email.Some? then user.email.value else "", user.createdAt,
              todosCount, completedCount, todosCount - completedCount)
  }

  /** What the todo read for a user returns, given the ids whose read fails. */
  function FetchFor(todos: seq<OwnedTodo>, failedReads: set<string>, userId: string): Option<seq<OwnedTodo>> {
    if userId in failedReads then None else Some(OwnedBy(todos, userId))
  }

  /** `paginatedUsers.map(...)`, the `Promise.all` taken one user at a time. */
  function UsersWithStats(page: seq<AuthUser>, todos: seq<OwnedTodo>, failedReads: set<string>): (r: seq<UserStats>)
    ensures |r| == |page|
    ensures forall i :: 0 <= i < |r| ==> r[i] == StatsFor(page[i], FetchFor(todos, failedReads, page[i].id))
  {
    seq(|page|, i requires 0 <= i < |page| => StatsFor(page[i], FetchFor(todos, failedReads, page[i].id)))
  }

  /** `GET`: a failed directory read answers with its error message; otherwise
      the page of annotated users with the pagination figures. */
  function ListUsers(directory: Result<seq<AuthUser>, string>, todos: seq<OwnedTodo>, failedReads: set<string>,
                     page: int, limit: int): (r: Result<Listing, string>)
    requires 0 < limit
    ensures directory.Err? <==> r.Err?
    ensures directory.Err? ==> r.error == directory.error
    ensures directory.Ok? ==>
      && r.value.totalUsers == |directory.value|
      && r.value.totalPages == TotalPages(|directory.value|, limit)
      && r.value.page == page && r.value.limit == limit
      && r.value.users == UsersWithStats(Paginate(directory.value, page, limit), todos, failedReads)
  {
    if directory.Err? then Err(directory.error)
    else
      var users := directory.value;
      var totalUsers := |users|;
      var paginatedUsers := Paginate(users, page, limit);
      Ok(Listing(UsersWithStats(paginatedUsers, todos, failedReads), page, limit, totalUsers, TotalPages(totalUsers, limit)))
  }

  /** For a page from 1, the listing has at most `limit` entries, one per user of
      that page, in the directory's order and with the directory's ids; each
      entry's counts are those of that user's own todos. */
  lemma ListUsersPage(users: seq<AuthUser>, todos: seq<OwnedTodo>, page: int, limit: int)
    requires 1 <= page && 0 < limit
    ensures var r := ListUsers(Ok(users), todos, {}, page, limit);
            var p := Paginate(users, page, limit);
      && r.Ok?
      && |r.value.users| == |p| <= limit
      && (forall i :: 0 <= i < |p| ==>
            && r.value.users[i].id == p[i].id
            && r.value.users[i].todosCount == |OwnedBy(todos, p[i].id)|
            && r.value.users[i].completedCount + r.value.users[i].activeCount == r.value.users[i].todosCount)
      && (page <= r.value.totalPages <==> p != [])
  {
    PaginateWindow(users, page, limit);
    PageNonEmpty(users, page, limit);
  }
}
