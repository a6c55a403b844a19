# Order keys and list logic of a personal todo application

This project models the ordering core of a todo web application, and proves properties of that model. Each user owns a list of todos. Every todo carries an integer `order_index`, and the list is shown in ascending key order. Ties are shown newest first.

- **Order-key library (`src/lib/orderIndex.ts`).** This library hands out keys in four cases: appending after the largest key, inserting in front of the smallest, inserting between two neighbours, and dropping a dragged item. When two keys leave no room, it rebalances a bounded window of rows. A rebalance fetches at most `limit` rows inside the bounds, in display order, and rewrites the i-th one to `base + i * ORDER_GAP` with one point update per row.
- **List screen (`TodoList.tsx`).** The screen keeps its own copy of the list and uses a different scheme:
  - a new todo gets the local maximum plus one and goes to the front;
  - a drag moves the item (dnd-kit's `arrayMove`), renumbers the whole list to 0..n-1 and writes every key back;
  - update, delete and the filters edit or derive the local copy.
- **Admin users route.** The route cuts one page out of the user directory with `slice`, computes the page count with `ceil`, and counts each user's todos.
- **Header.** The header's `isActive` prefix test decides which menu entry is highlighted.

Structure:

- `storage.dfy` (module `Storage`): the `todos` table as the class `TodoTable`, whose `rows` field the point update `UpdateOrderIndex` replaces. A batch of point updates is described by `ApplyUpdates`.
- `query.dfy` (module `Query`): the reads the library issues. `Selection` filters by key bounds, sorts by key (then `created_at`, newest first) and takes at most `limit` rows.
- `order_index.dfy` (module `OrderIndex`): the library.
  - `ReindexRange` is the imperative rebalance loop.
  - The key-choosing operations that follow a read are methods that take the table. Each is proved equal to a pure function (`ForFirst`, `Between`, `DragDrop`) that returns the key, or the planned updates, together with the table afterwards. The lemmas are proved about those functions.
- `todo_list.dfy` (module `TodoList`): the screen's state as the class `TodoListState`, with fields `todos` and `filter`. Its handlers replace `todos`. `SaveTodoOrder` is the imperative write-back loop.
- `admin_users.dfy` (module `AdminUsers`) and `navigation.dfy` (module `Navigation`): pure functions and lemmas.
- `wrappers.dfy`: `Option` and `Result`.

I/O becomes parameters:

- A failed read is a boolean parameter (`readFails`, `fetchFails`, `requeryFails`, `minReadFails`). The code treats a failed read as "no rows", and so does the model.
- A failed insert, update or delete on the screen is a boolean that makes the handler report failure and leave its list alone.
- Server-assigned values (the new row's id and `created_at`) are parameters.
- The user directory is a `Result`.

In these places the code's behaviour is easy to misread; the model follows the code:

- The rebalance base is `startOrderIndex || ORDER_GAP`, so a lower bound of 0 also falls back to ORDER_GAP (`OrderIndex.Base`).
- Failed point updates are ignored and a failed fetch is swallowed. Neither failure is surfaced to the caller.
- Bounded rebalances do not always keep the display order and can create duplicate keys (see Findings).
- The root menu entry is also active on paths beginning with `//` (`Navigation.HomeActive`).

## Model

| member | source | states |
|---|---|---|
| OrderIndex.Base | src/lib/orderIndex.ts:79 | The rebalance base is ORDER_GAP for a missing start, the start itself for a non-zero one, and never 0 (a zero start also falls back). |
| OrderIndex.Respaced | src/lib/orderIndex.ts:79-86 | The updates the rebalance issues: the i-th fetched row with key `base + i * ORDER_GAP`; `RespacedUnique` and `ReindexRewritesSelection` state what they do. |
| OrderIndex.ReindexEffect | src/lib/orderIndex.ts:47-89 | The table after `reindexRange`, specified by `ReindexRewritesSelection`, `ReindexKeepsOrder`, `ReindexNoop`, `ReindexLeavesBehind`, `ReindexIdempotent` and `ReindexKeepsIds`. |
| OrderIndex.ReindexTail | src/lib/orderIndex.ts:47-89 | The corrected rebalance (lower bound only, no limit), specified by `ReindexTailKeepsOrder` and `ReindexTailFloor`. |
| OrderIndex.GetMaxOrderIndex | src/lib/orderIndex.ts:12-31 | With a successful read of a non-empty table, the result is a key of the table and no key exceeds it. With no rows or a failed read, it is 0. |
| OrderIndex.GetNextOrderIndex | src/lib/orderIndex.ts:39-42 | The result is 1 for an empty table or a failed read. Otherwise it is strictly above every key and exactly one above the largest. |
| OrderIndex.ReindexRange | src/lib/orderIndex.ts:47-89 | The loop leaves the table equal to `ReindexEffect`: the fetched rows respaced from the base, unchanged when the fetch fails or is empty. Ids stay unique. |
| OrderIndex.RespacedUnique | src/lib/orderIndex.ts:80-86 | Respacing rows with distinct ids issues updates with distinct ids. |
| OrderIndex.ReindexRewritesSelection | src/lib/orderIndex.ts:71-86 | The i-th fetched row gets `base + i * ORDER_GAP` and keeps its other columns. Rows that were not fetched are untouched. At most `limit` rows are fetched. |
| OrderIndex.ReindexKeepsOrder | src/lib/orderIndex.ts:54-86 | Among the fetched rows, a smaller key before the rebalance is still a smaller key after it. |
| OrderIndex.ReindexNoop | src/lib/orderIndex.ts:69-74 | A failed fetch, a zero limit or a window with no row leaves the table as it was. |
| OrderIndex.ReindexLeavesBehind | src/lib/orderIndex.ts:54-86 | Suppose an in-window row is left out by the limit and its key is below the base. Then some row that came no later than it is rewritten above it. |
| OrderIndex.ReindexIdempotent | src/lib/orderIndex.ts:71-86 | A window already spaced ORDER_GAP apart from its base is left unchanged. |
| OrderIndex.ReindexKeepsIds | src/lib/orderIndex.ts:80-86 | A rebalance changes only keys: same length, the same id at every position, and ids stay unique. |
| OrderIndex.ReindexTailKeepsOrder | src/lib/orderIndex.ts:47-89 | The corrected rebalance (every row from `start` up, no upper bound, no limit) keeps the strict order of every pair of rows in the table. |
| OrderIndex.ReindexTailFloor | src/lib/orderIndex.ts:79-81 | Every row the corrected rebalance rewrites gets a key of at least the base. |
| OrderIndex.FirstKey | src/lib/orderIndex.ts:96-102 | The first-row read (ascending, `limit(1).single()`), nothing when it fails; specified by `FirstKeyReads`. |
| OrderIndex.FirstKeyReads | src/lib/orderIndex.ts:96-102 | A successful first-row read yields the smallest key, and nothing exactly when the table is empty. |
| OrderIndex.ForFirst | src/lib/orderIndex.ts:94-120 | The key and table `calculateOrderIndexForFirst` produces, specified by `ForFirstAhead`, `ForFirstRebalanceArm`, `ForFirstRebalanceCollides` and `ForFirstRebalanceReorders`. |
| OrderIndex.CalculateOrderIndexForFirst | src/lib/orderIndex.ts:94-120 | The returned key and the new table are exactly `ForFirst` of the old table and of what the first-row read returned. |
| OrderIndex.ForFirstAhead | src/lib/orderIndex.ts:104-119 | The key is always positive, and ORDER_GAP with the table unchanged when there is no row. When every key exceeds ORDER_GAP, the key is below all of them and the table is unchanged. |
| OrderIndex.ForFirstRebalanceArm | src/lib/orderIndex.ts:112-116 | When `first - ORDER_GAP <= 0`, the front window up to `first + 10 * ORDER_GAP` (ten rows) is rebalanced and ORDER_GAP is returned. |
| OrderIndex.ForFirstRebalanceCollides | src/lib/orderIndex.ts:112-116 | When some key is at most ORDER_GAP, the returned key ORDER_GAP is also the new key of the former first row. |
| OrderIndex.ForFirstRebalanceReorders | src/lib/orderIndex.ts:112-116 | With more than ten rows, all keyed in (0, ORDER_GAP), the front rebalance inverts the order of two rows. |
| OrderIndex.FrontWindowLeavesBehind | src/lib/orderIndex.ts:115 | The ten-row front window over more than ten small keys leaves a row behind, out of order. |
| OrderIndex.FrontRebalanceFirstRow | src/lib/orderIndex.ts:115 | The front rebalance gives a row holding the smallest key the key ORDER_GAP. |
| OrderIndex.ForFirstCorrected | src/lib/orderIndex.ts:94-120 | The corrected placement in front, specified by `ForFirstCorrectedAhead`. |
| OrderIndex.CalculateOrderIndexForFirstCorrected | src/lib/orderIndex.ts:94-120 | The corrected method's key and new table are exactly `ForFirstCorrected`: rebalance the whole table and return ORDER_GAP / 2. |
| OrderIndex.ForFirstCorrectedAhead | src/lib/orderIndex.ts:94-120 | For every table, including the empty one, the corrected key is positive and strictly below every key of the resulting table. Every pair of rows keeps its strict order. |
| OrderIndex.Midpoint | src/lib/orderIndex.ts:134 | With a gap of at least MIN_GAP, the floor of the average lies strictly between the keys. With a smaller non-negative gap, it is `before`. |
| OrderIndex.Between | src/lib/orderIndex.ts:125-148 | The key and table `calculateOrderIndexBetween` produces, specified by `BetweenWithRoom`, `BetweenWithoutRoom` and `BetweenRebalanceNeverBetween`. |
| OrderIndex.CalculateOrderIndexBetween | src/lib/orderIndex.ts:125-148 | The returned key and the new table are exactly `Between` of the old table. |
| OrderIndex.BetweenWithRoom | src/lib/orderIndex.ts:133-135 | With room, the key is strictly between the neighbours and the table is unchanged. |
| OrderIndex.BetweenWithoutRoom | src/lib/orderIndex.ts:137-147 | Without room (including `before >= after`), the window `[before - ORDER_GAP, after + ORDER_GAP]` of 20 rows is rebalanced and `before + ORDER_GAP` is returned. |
| OrderIndex.BetweenRebalanceNeverBetween | src/lib/orderIndex.ts:137-147 | For any two neighbours one key apart whose keys no other row shares, once the rebalance has fetched both, their new keys are exactly ORDER_GAP apart. The returned key `before + ORDER_GAP` is never strictly between them. |
| OrderIndex.BetweenCorrected | src/lib/orderIndex.ts:125-148 | The corrected placement between two rows, specified by `BetweenCorrectedBetween`. |
| OrderIndex.CalculateOrderIndexBetweenCorrected | src/lib/orderIndex.ts:125-148 | The corrected method's key and new table are exactly `BetweenCorrected`: rebalance from `before` upwards and return the midpoint of the two new neighbour keys. |
| OrderIndex.BetweenCorrectedBetween | src/lib/orderIndex.ts:125-148 | For neighbours with unique keys `before < after`, the corrected key lies strictly between their new keys. |
| OrderIndex.Requery | src/lib/orderIndex.ts:174-184 | The re-read after a drag-drop rebalance, mapped to `(idx + 1) * ORDER_GAP`, specified by `RequerySpaced`. |
| OrderIndex.RebalanceThenRequery | src/lib/orderIndex.ts:171-184 | A rebalance followed by the re-read, specified through `ReindexEffect` and `RequerySpaced`. |
| OrderIndex.RequerySpaced | src/lib/orderIndex.ts:174-184 | The re-read plans at most `n` rows in key order with keys `(idx + 1) * ORDER_GAP`: positive, strictly increasing, with distinct ids. |
| OrderIndex.RebalanceAndRequery | src/lib/orderIndex.ts:171-184 | The rebalance followed by the re-read yields exactly `RebalanceThenRequery` of the old table. |
| OrderIndex.DropBetween | src/lib/orderIndex.ts:194-224 | The middle drop yields exactly `DragBetween`: a midpoint update with room, otherwise the rebalance and the re-read. |
| OrderIndex.DragBetween | src/lib/orderIndex.ts:194-224 | The middle drop: a midpoint update with room, otherwise a rebalance and the re-read; `DragDropSingleUpdate` and `DragDropRebalancePlan` state what it yields. |
| OrderIndex.DragDrop | src/lib/orderIndex.ts:153-228 | The plan `calculateOrderIndexForDragDrop` returns and the table afterwards, specified by `DragDropSingleUpdate`, `DragDropRebalancePlan` and `DragDropEdges`. |
| OrderIndex.CalculateOrderIndexForDragDrop | src/lib/orderIndex.ts:153-228 | The planned updates and the new table are exactly `DragDrop` of the old table, the target position and the window. |
| OrderIndex.DragDropSingleUpdate | src/lib/orderIndex.ts:164-201 | Without a rebalance, the plan is one update of `todos[targetPosition]`: to `after - ORDER_GAP` (positive) at the front, or to the floor midpoint (above `before`, below `after`) in the middle. The table is unchanged. |
| OrderIndex.DragDropRebalancePlan | src/lib/orderIndex.ts:168-223 | After a rebalance, the plan names at most `|todos|` rows with keys ORDER_GAP, 2·ORDER_GAP, … and distinct ids. |
| OrderIndex.DragDropEdges | src/lib/orderIndex.ts:161-227 | A drop at the end fails, because `todos[targetPosition]` is missing. A position outside the window, or an empty window, plans nothing. Neither case touches the table. |
| Storage.TodoTable.UpdateOrderIndex | src/lib/orderIndex.ts:82-85 | The point update sets the key of the rows with that id and keeps ids unique. |
| Storage.SetKey | src/lib/orderIndex.ts:82-85 | The point update `update({ order_index }).eq('id', id)` on the rows, specified by `TodoTable.UpdateOrderIndex` and `ApplyUpdatesAt`. |
| Storage.ApplyUpdates | src/lib/orderIndex.ts:80-86 | The point updates of a loop issued one after another (also src/components/todos/TodoList.tsx:140-145), specified by `ApplyUpdatesAt` and `ApplyUpdatesKeepsIds`. |
| Storage.ApplyUpdatesAt | src/lib/orderIndex.ts:80-86 | Updates with distinct ids give each named row its assigned key, change nothing else in it, and leave every other row alone. |
| Storage.ApplyUpdatesKeepsIds | src/lib/orderIndex.ts:80-86 | Point updates keep length, ids and id uniqueness. |
| Storage.CompletedCount | src/components/todos/TodoList.tsx:195 | The number of completed todos is at most the length of the list. |
| Query.Filtered | src/lib/orderIndex.ts:62-67 | A row is kept exactly when it lies within the given bounds, and unique ids stay unique. |
| Query.FilteredShorter | src/lib/orderIndex.ts:62-67 | Filtering never lengthens the list. |
| Query.FilteredNone | src/lib/orderIndex.ts:62-69 | With no row inside the bounds, the fetch is empty. |
| Query.Sort | src/lib/orderIndex.ts:58-59 | The query order of the fetch, specified by `SortSpec` (sorted, a permutation, ids kept distinct). |
| Query.Take | src/lib/orderIndex.ts:60 | `.limit(n)` keeps the first `min(n, length)` rows, a prefix of its input. |
| Query.Selection | src/lib/orderIndex.ts:54-69 | The rows the rebalance fetches, specified by `SelectionSpec` and `SelectionComplete`. |
| Query.SortSpec | src/lib/orderIndex.ts:58-59 | The sort yields key order (ties by `created_at`, newest first), is a permutation, and keeps ids unique. |
| Query.InsertSorted | src/lib/orderIndex.ts:58-59 | Inserting into a sorted list keeps it sorted. |
| Query.InsertMultiset | src/lib/orderIndex.ts:58-59 | Insertion adds exactly the one row. |
| Query.SelectionSpec | src/lib/orderIndex.ts:54-69 | The fetch returns at most `limit` table rows within the bounds, in query order, with distinct ids. Every in-bounds row left out comes after all fetched rows, and then the fetch is full. |
| Query.SelectionComplete | src/lib/orderIndex.ts:54-69 | When the limit is at least the table size, every in-bounds row is fetched. |
| Query.SomeLeftOut | src/lib/orderIndex.ts:60 | A fetch shorter than a table with distinct ids leaves some row out. |
| Query.MaxKey | src/lib/orderIndex.ts:13-19 | The key the descending first-row read returns, specified by `MaxKeyIsMax`. |
| Query.MinKey | src/lib/orderIndex.ts:96-102 | The key the ascending first-row read returns, specified by `MinKeyIsMin`. |
| Query.MaxKeyIsMax | src/lib/orderIndex.ts:13-19 | The descending first-row read yields a key of the table that no key exceeds. |
| Query.MinKeyIsMin | src/lib/orderIndex.ts:96-102 | The ascending first-row read yields a key of the table that no key is below. |
| TodoList.Visible | src/components/todos/TodoList.tsx:184-193 | A todo is shown exactly when it is in the list and passes the filter. |
| TodoList.VisibleConcat | src/components/todos/TodoList.tsx:184-193 | Filtering distributes over concatenation, so it keeps list order. |
| TodoList.VisibleCounts | src/components/todos/TodoList.tsx:184-196 | 'all' shows the list unchanged. 'completed' shows `completedCount` todos and 'active' shows `activeCount`, and the two add up to the list length. |
| TodoList.ActiveCount | src/components/todos/TodoList.tsx:196 | `todos.length - completedCount`, specified by `VisibleCounts` and `TodoListState.ActiveTodos`. |
| TodoList.LocalNextOrderIndex | src/components/todos/TodoList.tsx:73-80 | The key of a new todo, specified by `LocalNextAbove`. |
| TodoList.LocalNextAbove | src/components/todos/TodoList.tsx:73-80 | The new key is 0 for an empty list. Otherwise it is strictly above every local key and exactly one above the largest. |
| TodoList.FindIndex | src/components/todos/TodoList.tsx:109-110 | The result is the first position holding the id, or -1 exactly when no todo has it. |
| TodoList.Move | src/components/todos/TodoList.tsx:112 | Remove-then-insert, specified by `MoveSpec` and `MoveOthers`. |
| TodoList.ArrayMove | src/components/todos/TodoList.tsx:112 | `arrayMove` with the -1 of a missing id read from the end, specified through `DragEndSpec` and `DragEndPermutes`. |
| TodoList.Renumber | src/components/todos/TodoList.tsx:115-118 | The map with index to `order_index`, specified by `RenumberedMove`. |
| TodoList.DragEnd | src/components/todos/TodoList.tsx:107-118 | The list after a drag, specified by `DragEndSpec`, `DragEndPermutes` and `TodoListState.HandleDragEnd`. |
| TodoList.MoveSpec | src/components/todos/TodoList.tsx:112 | Moving is a permutation that puts the moved item at `to` and keeps the other items in their relative order. |
| TodoList.MoveOthers | src/components/todos/TodoList.tsx:112 | Each position other than `to` holds the rest of the list, shifted by one after `to`. |
| TodoList.RenumberedMove | src/components/todos/TodoList.tsx:112-118 | Moving and renumbering gives keys 0..n-1, the moved item at `to`, and the remaining items in their old order. |
| TodoList.DragEndSpec | src/components/todos/TodoList.tsx:107-118 | Dragging `active` onto `over`, both present, puts the dragged item at `over`'s old position, keeps the others in order and renumbers to 0..n-1. |
| TodoList.DragEndPermutes | src/components/todos/TodoList.tsx:107-118 | Ignoring keys, a drag only permutes the list. |
| TodoList.OrderUpdates | src/components/todos/TodoList.tsx:133-136 | One `(id, index)` pair per item in list order, specified by `SaveTodoOrder` and `SaveOrderEffect`. |
| TodoList.SaveOrderEffect | src/components/todos/TodoList.tsx:129-151 | Writing back a list with distinct ids gives each named row the key of its position, the key the screen shows, and leaves every other row alone. |
| TodoList.SaveTodoOrder | src/components/todos/TodoList.tsx:129-151 | The loop issues exactly one `(id, index)` update per item, in list order, none for an empty list, and leaves the table equal to those updates applied in order. |
| TodoList.Merge | src/components/todos/TodoList.tsx:164 | `{ ...todo, ...updates }`, specified by `MergeLaws`. |
| TodoList.Patched | src/components/todos/TodoList.tsx:163-165 | The list after a successful update, specified by `PatchedKeepsCounts` and `PatchedIdempotent`. |
| TodoList.MergeLaws | src/components/todos/TodoList.tsx:164 | Merging the same partial row twice equals merging once, and an empty partial row changes nothing. |
| TodoList.PatchedKeepsCounts | src/components/todos/TodoList.tsx:163-165 | An update that leaves `completed` unset keeps the completed count. |
| TodoList.PatchedIdempotent | src/components/todos/TodoList.tsx:163-165 | Repeating an update changes nothing more. An update naming no todo leaves the list unchanged. |
| TodoList.Removed | src/components/todos/TodoList.tsx:179 | A todo stays exactly when it is in the list and has a different id. |
| TodoList.RemovedConcat | src/components/todos/TodoList.tsx:179 | Deletion distributes over concatenation, so the rest keeps its order. |
| TodoList.RemovedAbsent | src/components/todos/TodoList.tsx:179 | Deleting an id no todo has changes nothing. |
| TodoList.RemovedOne | src/components/todos/TodoList.tsx:179 | With distinct ids, deleting a present id removes exactly one todo. |
| TodoList.TodoListState.constructor | src/components/todos/TodoList.tsx:29-31 | The screen starts with an empty list and the 'all' filter. |
| TodoList.TodoListState.FilteredTodos | src/components/todos/TodoList.tsx:184-193 | The shown todos are exactly those in the list that pass the current filter, and the whole list under 'all'. |
| TodoList.TodoListState.ActiveTodos | src/components/todos/TodoList.tsx:195-196 | `activeCount` is the number of todos the 'active' filter shows, and it plus `completedCount` is the list length. |
| TodoList.TodoListState.HandleAddTodo | src/components/todos/TodoList.tsx:69-101 | Without a user nothing happens, and a failed insert leaves the list alone. Otherwise the returned row (uncompleted, local maximum + 1) goes in front of the old list. |
| TodoList.TodoListState.HandleDragEnd | src/components/todos/TodoList.tsx:104-126 | Without a target, or when dropped on itself, nothing changes. Otherwise the list becomes `DragEnd` of the old list and the table receives its renumbering. |
| TodoList.TodoListState.HandleUpdateTodo | src/components/todos/TodoList.tsx:154-167 | On success the list becomes the old list with the partial row merged into the todos with that id. On failure the list is unchanged. |
| TodoList.TodoListState.HandleDeleteTodo | src/components/todos/TodoList.tsx:170-181 | On success the todos with that id are removed. On failure the list is unchanged. |
| AdminUsers.SliceIndex | src/app/api/admin/users/route.ts:37 | A slice bound is clamped to the array, and a non-negative bound is clamped from above only. |
| AdminUsers.Slice | src/app/api/admin/users/route.ts:37 | `array.slice`, between the clamped bounds; its use for pages is specified by `SliceWindow` and `PaginateWindow`. |
| AdminUsers.Paginate | src/app/api/admin/users/route.ts:35-37 | A page holds at most `limit` users, for any page number including 0 and negative ones, and only users of the directory. |
| AdminUsers.TotalPages | src/app/api/admin/users/route.ts:68 | The page count is the ceiling: enough pages of `limit` users for everyone, none to spare, and 0 exactly for no users. |
| AdminUsers.PaginateWindow | src/app/api/admin/users/route.ts:35-37 | For page ≥ 1 and limit > 0, the page is `users[start..min(start + limit, n)]`, clamped at the end, and has at most `limit` users. |
| AdminUsers.PageOf | src/app/api/admin/users/route.ts:35-37 | User i is entry `i % limit` of page `i / limit + 1`. |
| AdminUsers.PageNonEmpty | src/app/api/admin/users/route.ts:35-68 | From page 1 on, a page is non-empty exactly when it is at most `totalPages`. |
| AdminUsers.CompletedAmong | src/app/api/admin/users/route.ts:48 | The completed count is at most the number of todos. |
| AdminUsers.FetchFor | src/app/api/admin/users/route.ts:42-45 | The per-user read: nothing when it fails, otherwise the user's rows as `OwnedBy` states. |
| AdminUsers.OwnedBy | src/app/api/admin/users/route.ts:42-45 | The per-user read returns exactly that user's todos, each as often as the table holds it, so `todos_count` is the number of the user's rows. |
| AdminUsers.StatsFor | src/app/api/admin/users/route.ts:47-57 | The entry keeps the user's id and timestamp, and a missing email becomes ''. Counts: completed ≤ total, active = total − completed, all 0 for a failed or empty read. |
| AdminUsers.UsersWithStats | src/app/api/admin/users/route.ts:40-60 | There is one entry per paginated user, in the same order, each the stats of that user. |
| AdminUsers.ListUsers | src/app/api/admin/users/route.ts:16-70 | A failed directory read is answered with its message. Otherwise the listing holds the page, `totalUsers = |users|`, the ceiling page count and the requested page and limit. |
| AdminUsers.ListUsersPage | src/app/api/admin/users/route.ts:32-68 | A page from 1 lists at most `limit` users in directory order, each with that user's own count and active + completed = total. It is non-empty exactly up to `totalPages`. |
| Navigation.IsActive | src/components/layout/Header.tsx:27 | `pathname` equals `path` or starts with `path + '/'`, specified by `IsActiveIff`. |
| Navigation.IsActiveIff | src/components/layout/Header.tsx:27 | An entry is active exactly on its own path and on paths of the form `path + "/" + rest`. |
| Navigation.NotActiveOnLongerName | src/components/layout/Header.tsx:27 | A path that extends the entry's text with any character other than '/' is not active. |
| Navigation.AdminActiveOnUsersPage | src/components/layout/Header.tsx:72-84 | The admin entry is highlighted on '/admin/users'. |
| Navigation.TodoNotActiveOnTodos | src/components/layout/Header.tsx:27-31 | The '/todo' entry is not highlighted on '/todos'. |
| Navigation.HomeActive | src/components/layout/Header.tsx:27-30 | The '/' entry is active exactly on '/' and on paths beginning with '//'. |
| Navigation.AtMostOneMenuEntry | src/components/layout/Header.tsx:27-33 | No path highlights two of the three menu entries. |

## Left out

- All I/O is modelled as parameters or as the in-memory table: the network, `await` sequencing, the backend client and its error codes (PGRST116), and logging and alerts. Failed reads are booleans meaning "no rows".
- Failures of individual point updates. The code ignores their outcomes, so every write is modelled as succeeding.
- The `Promise.all` fan-out in the users route is modelled as a sequential map. Concurrent reorders, and races between a rebalance and its re-read, are not modelled.
- Row-order ties. The query's order (key ascending, `created_at` descending) is a stable insertion sort, so rows equal on both stay in storage order. Postgres leaves that order unspecified. `created_at` is an integer time stamp.
- The drag-drop re-read orders by key only (`Sort(rows, false)`), as the code does; it has no `created_at` tie-break.
- The drag-drop re-read reads the user's whole table: the model has no `user_id` column, because the table holds one user's rows.
- OrderIndex.DragDrop: the single update names `todos[targetPosition]` as written; which item is dragged is not a parameter of the function. The move to the end dereferences a missing entry and is modelled as the error `MissingTargetRow`.
- JavaScript numbers beyond the safe-integer range and `parseInt` yielding NaN. The users route is modelled for integer `page` and `limit` with `limit > 0`, because `limit = 0` divides by zero in `ceil`. The defaults that apply when the query string omits them (page 1, limit 10) are not modelled: page and limit are parameters.
- TodoList.DragEnd: requires a non-empty list when a real drag happens. A drag is only delivered for a rendered item. On an empty list `arrayMove` would insert `undefined`, which has no counterpart among rows. Ids that `findIndex` does not find (-1) are modelled with `splice`'s negative-index rule.
- `fetchTodos`, the loading flag, sign-out, rendering, dnd-kit sensors and collision detection, and the completion percentage (`Math.round` on floats) of the admin page. None of these is part of the ordering logic.
- The server-side effects of the screen's insert, update and delete. Only their effect on the local list is modelled, and the drag write-back goes to the table.
- `getNextOrderIndex`'s caller page (`src/app/todo/add/page.tsx`) is not part of this model.

## Findings

| source | as written | input that shows it | evidently intended | confidence | as-written member | corrected member |
|---|---|---|---|---|---|---|
| src/lib/orderIndex.ts:112-116 | When the front has no room, the first ten rows are rebalanced from ORDER_GAP and ORDER_GAP is returned. The former first row now holds ORDER_GAP too. | any table whose smallest key is at most ORDER_GAP, e.g. one row with key 5000 | a key strictly below every key after the rebalance | high, not executed | OrderIndex.ForFirstRebalanceCollides | OrderIndex.ForFirstCorrectedAhead |
| src/lib/orderIndex.ts:139-147 | After the middle rebalance from `before - ORDER_GAP`, `before + ORDER_GAP` is returned. The two neighbours end up next to each other, ORDER_GAP apart, and the returned key is never strictly between their new keys. It is above both, equal to one of them, or below both, depending on how many rows precede `before` in the window. | rows keyed 100 and 101, inserting between them: keys become -9900 and 100, result 10100 | a key strictly between the two neighbours' new keys | high, not executed | OrderIndex.BetweenRebalanceNeverBetween | OrderIndex.BetweenCorrectedBetween |
| src/lib/orderIndex.ts:115 | The front rebalance rewrites only ten rows. In-window rows beyond the limit keep their small keys while earlier rows jump to ORDER_GAP, 2·ORDER_GAP, … | eleven rows keyed 1..11 | a rebalance that keeps the display order of all rows | high, not executed | OrderIndex.ForFirstRebalanceReorders | OrderIndex.ForFirstCorrectedAhead |

The corrected versions (`ForFirstCorrected`, `BetweenCorrected` and their methods) rebalance every row from the lower bound upwards, with no upper bound and no limit (`ReindexTail`). They hand out a key half an ORDER_GAP below the first rewritten key, or half-way between the two rewritten neighbours. `ReindexTailKeepsOrder` proves that this rebalance keeps the order of every pair of rows.
