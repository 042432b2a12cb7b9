# todoList task store, in Dafny

This project models the hierarchical task store of the todoList application. It covers the two
SQLite tables (`todos` and `settings`) and every operation that reads or changes them. Those
operations come from both front-ends: the Express handlers in `server.js` and the Tauri commands in
`src-tauri/src/lib.rs`. It also models the byte-order-mark fix-up of `fix_encoding.js`.

The database is the class `Db.Database`. It has three fields:

- `todos`: a map from id to `Schema.Task`.
- `nextId`: the AUTOINCREMENT counter.
- `settings`: a map from key to text.

Its methods are the SQL statements the handlers issue. Its invariant `Valid()` says two things:

- every id was handed out by the counter;
- every non-null `parent_id` names an existing row.

Both front-ends run with foreign keys on, so an INSERT or UPDATE that names a missing parent fails
with a storage error and changes nothing:

- `server.js` turns them on explicitly (`PRAGMA foreign_keys = ON`, server.js:37 and :218).
- `src-tauri/src/lib.rs` never issues that pragma. The Tauri model relies on the SQL driver's
  default, which enables foreign keys on every SQLite connection it opens.

The failure case of `Tauri.CreateTodo` and the cascade of `Tauri.DeleteTodo` depend on that default.

SQLite checks an inserted row's foreign key against the row itself as well. An INSERT whose
`parent_id` is the id the row is about to receive therefore succeeds, and the new task is its own
parent (`Schema.InsertParentExists`).

Each handler is a method of module `Server` or `Tauri` that takes the database. Its contract states
the following:

- the outcome: `Ok(...)`, `Err(Validation)` for a 4xx answer, `Err(Storage)` for a database error,
  or `Err(Exception)` for a JavaScript exception that Express answers with a 500;
- the whole new state of the tables;
- that the forest shape of the `parent_id` links is kept, where the handler keeps it.

The subtree of a task has two definitions:

- `Forest.Subtree`, the least set closed under "children of";
- `Schema.InSubtreeOf`, "some chain of `parent_id` links leads from the row to the task".

`Forest.SubtreeIsDescendants` proves the two agree.

The recursive CTE with `UNION ALL` never finishes when its start row lies on a cycle of parent links.
The code never rules such cycles out: `Server.ReorderCanCreateCycle` and `Server.CreateCanCreateCycle`
exhibit one each. The operations that run the recursive CTE therefore require `!OnCycle(todos, id)`
and invent no rejection policy.

These handlers are proved to keep `Acyclic`:

- `Server.UpdateStatusRecursive`, `Server.UpdateTodo` and `Server.DeleteTodo`;
- `Server.CreateTodo` and `Tauri.CreateTodo`, unless the `parent_id` is the id being assigned;
- `Tauri.DeleteTodo`;
- `Tauri.UpdateTodo`, when `data` has no `parent_id`.

These can create a cycle:

- the reorders (`Server.ReorderTodos`, `Tauri.ReorderTodo`);
- a `Tauri.UpdateTodo` that sets `parent_id`;
- a create whose `parent_id` is the id being assigned. Both create commands are proved to leave
  that task on a cycle.

On these points the model follows the code:

- `DELETE /api/todos/:id` reports `deleted` as 1 or 0. SQLite's change counter does not count rows
  removed by `ON DELETE CASCADE`, so the count is not the size of the subtree.
- The bulk reorder is not all-or-nothing. The handler issues `BEGIN` and `COMMIT` but never
  `ROLLBACK`. The model takes an entry whose parent does not exist as skipped, with the other
  entries still applying (`Server.Reordered`). Whether that holds depends on the host; see the
  `Server.ReorderTodos` line under "Left out".
- Reparenting has no cycle check in either front-end, and neither does create: a `parent_id` equal
  to the id the row receives passes SQLite's foreign key (`Server.CreateCanCreateCycle`).
- `POST /api/settings` stops at the first value `String(...)` cannot convert: the keys before it
  are stored, the rest are not, and the answer is a 500 (`Server.PostSettings`).
- `GET /api/settings` folds the rows into a plain object by assignment. It therefore drops a
  stored `__proto__` key, which `POST /api/settings` and `save_setting` can store
  (`Server.GetSettings`).

## Model

| member | source | states |
|---|---|---|
| Db.Database.constructor | server.js:40-52 | a new database has empty tables and the counter at 1, and satisfies the invariant |
| Db.Database.Insert | server.js:97-107 | the insert succeeds iff the parent is NULL, exists, or is the id being assigned (`InsertParentExists`, SQLite's self-row check), and the rowid space is not exhausted; the new id is the counter, larger than every id ever assigned; on failure nothing changes |
| Db.Database.UpdateColumns | server.js:204-208 | the dynamic `UPDATE todos SET ... WHERE id = ?` behaves as follows: an empty SET list is an error; an unknown id is 0 changes; a NULL title or a dangling parent is an error with no change; otherwise exactly that row gets the assignments |
| Db.Database.UpdateCompletedRecursive | server.js:153-166 | the CTE sets `completed` on exactly the subtree of the id and reports the subtree's size; it requires that the id is not on a parent cycle |
| Db.Database.DeleteCascade | server.js:219-221 | the delete removes exactly the subtree and keeps referential integrity; the change count is 1 if the id existed, else 0 |
| Db.Database.InsertOrReplaceSetting | server.js:240-245 | the upsert sets one key and leaves the todos and the counter alone |
| Db.Database.SelectTodos | server.js:82-83 | the result is the listing: every row once, with its columns, strictly ascending by (sort_order, id) |
| Db.Database.SelectSettings | server.js:228 | every stored pair is returned exactly once, with nothing else |
| Schema.ApplySetsKeepsParentValid | server.js:50 | a SET list that respects the foreign key leaves the row's parent valid |
| Schema.ApplySetsConcat | server.js:205 | applying two SET lists in turn (`ApplySets`, one `Assign` per `column = ?` item, left to right; `ApplyNone` and `ApplyOne` for the short lists) equals applying their concatenation |
| Schema.MoveSetsEffect | server.js:130-131 | `SET parent_id = ?, sort_order = ?` changes exactly those two columns and is refused iff the parent is missing |
| Forest.Closure | server.js:154-160 | the closure contains its seed, stays inside the table, and is closed under children |
| Forest.Subtree | server.js:154-160 | the subtree of an id contains the id iff it is a row, stays inside the table, and is closed under children |
| Forest.ClosureIsLeast | server.js:154-160 | the closure lies inside every children-closed superset of its seed |
| Forest.ReachingRowsInSubtree | server.js:154-160 | every row with a parent chain to the root is in the subtree |
| Forest.SubtreeIsDescendants | server.js:154-160 | a row is in the subtree of `r` (`Subtree`, the closure of `Children`, one CTE join step each) iff a chain of parent links leads from it to `r` (both directions) |
| Forest.CascadeChangesExactlySubtree | server.js:161-163 | after the cascade (`WithCompleted` over the subtree), a row changed iff it is a descendant, and only its `completed` changed |
| Forest.DeleteRemovesExactlySubtree | server.js:50 | after the cascading delete, a row is gone iff it was a descendant of the deleted id |
| Forest.DeleteKeepsRefIntegrity | server.js:50 | removing a whole subtree leaves no dangling `parent_id` |
| Forest.SameLinksKeepAcyclic | server.js:177-199 | changes that keep every parent link keep the forest acyclic |
| Forest.DeleteKeepsAcyclic | server.js:219 | removing rows creates no cycle |
| Forest.InsertKeepsAcyclic | server.js:97-105 | inserting a row under a fresh id, with a NULL or existing parent, creates no cycle |
| Forest.SelfParentIsCycle | server.js:135 | a row that is its own parent lies on a cycle |
| Listing.BeforeIsStrictTotalOrder | server.js:83 | ordering by (sort_order, id) is irreflexive, asymmetric and transitive, and total on distinct ids |
| Listing.SortedSameRowsEqual | server.js:83 | two strictly sorted sequences with the same rows are equal |
| Listing.ListingIsUnique | server.js:83 | the ordered listing of a table is unique |
| JsValues.Digits | server.js:245 | the decimal rendering is non-empty and uses only digits |
| JsValues.DigitsRoundTrip | server.js:245 | reading the rendered digits back gives the number |
| JsValues.NumberToString | server.js:245 | `String(n)` starts with '-' iff `n` is negative |
| JsValues.NumberTextReadsBack | server.js:245 | the text `JsString` (`String(v)` where `StringThrows` is false, with arrays joined by `JoinItems`) stores for a number reads back as that number: a '-' iff negative, then decimal digits worth its magnitude |
| Server.GetTodos | server.js:81-90 | the handler returns the listing of the table, ordered by (sort_order, id) |
| Server.CreateTodo | server.js:93-120 | an absent or empty title (`TitleMissing`) gives a Validation error; a missing parent (a `parent_id` of 0 counts as NULL, and the id being assigned counts as present) or an exhausted counter gives a Storage error; no other error occurs; either error leaves the store unchanged; success stores and returns `NewTask` (the falsy fallbacks `IdOrNull`, `IntOrZero`, `TextOrEmpty`, `TextOrNull`, with completed 0 and sort_order 0) under the counter's value, which is larger than every id ever assigned, and advances the counter; acyclicity is kept unless the `parent_id` is the id being assigned, and then the new task lies on a cycle |
| Server.Reordered | server.js:134-136 | reordering (one `ReorderStep` per entry, the statement `EntrySets` binding the falsy fallbacks `IdOrNull`, where 0 becomes NULL, and `IntOrZero`) never adds or removes rows, changes only `parent_id` and `sort_order`, and keeps referential integrity |
| Server.LastWriteWins | server.js:134-136 | a row ends with the parent and sort order of the last entry that rewrites it (`Rewrites`: it names the row, the row exists and the parent satisfies the foreign key) |
| Server.ReorderLeavesOthers | server.js:134-136 | a row that no entry rewrites (including unknown ids and dangling parents) is unchanged |
| Server.ReorderCanCreateCycle | server.js:131-135 | an acyclic table in which one entry makes a root its own parent ends up with a cycle |
| Server.CreateCanCreateCycle | server.js:97-107 | on a fresh database, a create with `parent_id` 1 succeeds, gets id 1 and leaves task 1 on a cycle |
| Server.ReorderTodos | server.js:123-144 | a non-array `updates` is rejected with no change; otherwise the answer is success and the table becomes `Reordered` of the entries, in order |
| Server.UpdateStatusRecursive | server.js:147-170 | `completed` becomes 0/1 on exactly the target and its descendants, and nothing else changes; the count is the subtree size, and 0 iff the id is unknown; acyclicity is kept |
| Server.PatchHeadEffect | server.js:180-187 | the title and completed pushes (`PatchHead`) set exactly those provided fields, completed as 0/1 |
| Server.PatchTailEffect | server.js:188-199 | the description, priority and due_date pushes (`PatchTail`) set exactly those provided fields |
| Server.PatchSetsAreFieldwise | server.js:177-205 | the generated UPDATE (`PatchSets`, the pushes in order) changes exactly the provided fields, with `completed` normalised to 0/1, i.e. gives the field-wise `Patched` |
| Server.PatchSetsShape | server.js:177-202 | the SET list is empty iff no field is given, binds a NULL title iff `title` is null, and never touches the parent |
| Server.UpdateTodo | server.js:173-211 | no field (`NoFields`) gives a Validation error; an unknown id gives 0; a null title gives a Storage error; otherwise the result is 1 and exactly the provided fields of that row change; on any non-1 outcome the table is unchanged |
| Server.DeleteTodo | server.js:214-224 | exactly the task and its descendants are removed, the remaining rows are unchanged, `deleted` is 1 or 0, and acyclicity is kept |
| Server.GetSettings | server.js:227-236 | the returned object holds every stored setting with its value, except a `__proto__` key, which assignment to a plain object cannot create |
| Server.UpsertedCompose | server.js:238-250 | posting `a` and then `b` (each `Upserted`: every body key gets `String(value)`, other keys stay) equals posting their merge, with `b` winning on shared keys |
| Server.UpsertIdempotent | server.js:238-250 | posting the same mapping twice equals posting it once |
| Server.AsObjectMeaning | server.js:239 | the body object `AsObject` spelled out by its fields (in `for...in` order) has exactly their keys, each with the value of the last field naming it (by `AsObjectKeys` and `AsObjectLast`) |
| Server.FirstThrow | server.js:244-245 | the position of the first value on which `String` throws: every earlier value converts, and the one there throws |
| Server.PostSettings | server.js:238-250 | the settings become `Upserted` of the old settings with the fields before `FirstThrow` (one `UpsertedSnoc` step per key); the answer is success iff no value throws, otherwise the exception (HTTP 500) with the later keys not stored; the todos are untouched |
| Tauri.GetTodos | src-tauri/src/lib.rs:5-9 | the command returns the listing ordered by (sort_order, id) |
| Tauri.CreateTodo | src-tauri/src/lib.rs:12-29 | the command succeeds iff the parent is NULL, exists or is the id being assigned (0 is not nulled) and the counter has room; the row stores completed 0, sort_order 0 and the arguments as given; on failure nothing changes; acyclicity is kept unless the parent is the id being assigned, and then the new task lies on a cycle |
| Tauri.HeadSetsEffect | src-tauri/src/lib.rs:37-51 | the title, completed and sort_order pushes set exactly those present keys |
| Tauri.TailSetsEffect | src-tauri/src/lib.rs:52-55 | the parent_id, description, priority and due_date pushes set exactly those present keys |
| Tauri.DataSetsAreFieldwise | src-tauri/src/lib.rs:37-59 | the generated UPDATE (`DataSets`, i.e. `HeadSets` then `TailSets`) sets exactly the present keys among the seven, i.e. gives the field-wise `Tauri.Patched` |
| Tauri.DataSetsShape | src-tauri/src/lib.rs:37-57 | the SET list is empty iff no key is present, binds a NULL title iff `title` is null, and meets the foreign key iff a present `parent_id` is null or exists |
| Tauri.UpdateTodo | src-tauri/src/lib.rs:32-63 | with `completed` present, the command first cascades it to all descendants (`AfterCascade`) and discards that step's error; no key (`NoKeys`), or an unknown id, gives Ok; a null title or a missing parent gives an error that keeps the cascade; otherwise the row gets exactly the present keys; the other rows change only through the cascade |
| Tauri.ReorderTodo | src-tauri/src/lib.rs:66-69 | only `parent_id` and `sort_order` of the one id change; the command fails, changing nothing, iff the id exists and the new parent does not |
| Tauri.DeleteTodo | src-tauri/src/lib.rs:72-75 | the command returns Ok and removes exactly the subtree; the remaining rows are unchanged |
| Tauri.GetSettings | src-tauri/src/lib.rs:78-81 | every stored pair is returned exactly once |
| Tauri.SaveSetting | src-tauri/src/lib.rs:84-87 | the command sets one key and leaves every other key and the todos unchanged |
| Tauri.SaveSettingIdempotent | src-tauri/src/lib.rs:84-87 | saving a pair twice equals saving it once |
| Encoding.MissingBomIffNoPrefix | fix_encoding.js:8 | the three-byte test (`MissingBom`, reading past the end through `ByteAt` as undefined) reports "missing" iff the buffer does not begin with EF BB BF, short buffers included |
| Encoding.WithBom | fix_encoding.js:8-9 | the result begins with EF BB BF, its length is the original plus 3 or 0, and the original content is its suffix |
| Encoding.WithBomIdempotent | fix_encoding.js:8-13 | applying the fix-up twice equals applying it once |

## Left out

- The Express app, CORS, static files, the listener and the status-code and JSON shaping of
  responses are left out. Handlers return `Ok(...)` or `Err(Validation | Storage | Exception)`
  instead.
- The database path discovery from environment variables, the schema creation and the
  try-and-ignore `ALTER TABLE` migrations are left out. The Tauri builder and plugin wiring is left
  out too. The final column set is a fixed record type, and a fresh database is the constructor.
- Asynchrony, `db.serialize`, callbacks and `BEGIN`/`COMMIT` are left out; operations run one
  after another. A failing `COMMIT` is not modelled.
- JSON bodies are narrowed to typed records. Titles, descriptions and dates are text; ids,
  priorities and sort orders are integers; Express's `completed` truthiness is a boolean. Values of
  other JSON types in those fields, and non-object reorder entries, are not modelled.
- Server.ReorderTodos: the model assumes that an entry whose UPDATE fails (a dangling parent) is
  skipped and that the remaining entries and the COMMIT still run. The handler passes no callback
  to `stmt.run` (server.js:135), so node-sqlite3 reports the failure as an `'error'` event on the
  statement; with no listener that is an uncaught exception. Under the Electron host (main.js:6)
  the process survives it and the queued statements continue. Under a standalone Node or `pkg`
  host the process exits before COMMIT and the open transaction is lost. That outcome is not
  modelled.
- Non-numeric `:id` path parameters are not modelled: such an id matches no row.
- JsValues.Json: numbers are restricted to safe integers; fractions, exponents and `-0` are not
  modelled. An object is reduced to whether it has an own `toString` key, which is all `String(...)`
  depends on for a parsed JSON object.
- Tauri.UpdateData: the `completed`, `sort_order` and `priority` values are integers, although
  the command binds whatever JSON value it receives.
- Tauri.UpdateTodo, Db.Database.UpdateCompletedRecursive, Server.UpdateStatusRecursive: all
  require that the target is not on a cycle of parent links. On such a cycle the recursive CTE
  never finishes.
- Tauri.ReorderTodo: the command is defined but is missing from the invoke handler list
  (src-tauri/src/lib.rs:120-127), so the desktop front-end cannot call it.
- Db.Database.DeleteCascade, Server.DeleteTodo, Tauri.DeleteTodo: SQLite runs `ON DELETE CASCADE`
  as trigger programs, nested no deeper than `SQLITE_MAX_TRIGGER_DEPTH` (1000 by default). A delete
  whose subtree is deeper than that fails with "too many levels of trigger recursion" and removes
  nothing. The model has no depth limit and promises the delete succeeds.
- Storage failures other than constraint violations and rowid exhaustion are left out: disk
  errors, locking, and a closed database.
- main.js (window and always-on-top IPC), check_encoding.js (shell and file copies) and clean.js
  (file deletion) are I/O and are not part of this model.
- The file read and write around the BOM fix-up in fix_encoding.js are left out. Only the buffer
  transformation is modelled.
