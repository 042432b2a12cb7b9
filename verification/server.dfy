/** The Express handlers of the HTTP front-end. Request bodies are typed: a field
    is `None` when it is absent (and, where the handler treats it the same way,
    when it is `null`). Each handler returns the outcome the response reports. */
module Server {
  import opened Results
  import opened Schema
  import opened Forest
  import opened Listing
  import opened JsValues
  import opened Db

  // ----- the `||` fallbacks the handlers apply to falsy fields -----

  /** `x || null` for an id: 0 is falsy and becomes NULL. */
  function IdOrNull(x: Option<int>): Option<int>
  {
    if x == Some(0) then None else x
  }

  /** `x || 0` for an integer. */
  function IntOrZero(x: Option<int>): int
  {
    if x.Some? then x.value else 0
  }

  /** `x || ""` for a text. */
  function TextOrEmpty(x: Option<string>): string
  {
    if x.Some? then x.value else ""
  }

  /** `x || null` for a text: the empty string is falsy and becomes NULL. */
  function TextOrNull(x: Option<string>): Option<string>
  {
    if x == Some("") then None else x
  }

  // ----- GET /api/todos -----

  /** Every task, ordered by (sort_order, id). */
  method GetTodos(db: Database) returns (rows: seq<Row>)
    ensures IsListing(db.todos, rows)
  {
    rows := db.SelectTodos();
  }

  // ----- POST /api/todos -----

  datatype CreateBody = CreateBody(
    title: Option<string>,
    parentId: Option<int>,
    description: Option<string>,
    priority: Option<int>,
    dueDate: Option<string>)

  /** `if (!title)`: an absent, null or empty title. */
  predicate TitleMissing(body: CreateBody)
  {
    body.title.None? || body.title.value == ""
  }

  /** The row the handler inserts, and echoes back, for a body with a title. */
  function NewTask(body: CreateBody): Task
    requires body.title.Some?
  {
    Task(IdOrNull(body.parentId), body.title.value, 0, 0,
         TextOrEmpty(body.description), IntOrZero(body.priority), TextOrNull(body.dueDate))
  }

  /** Validates the title, inserts the row with `completed = 0` and `sort_order = 0`,
      and returns the stored row with its new id. */
  method CreateTodo(db: Database, body: CreateBody) returns (r: Result<Row>)
    requires db.Valid()
    modifies db
    ensures db.Valid() && db.settings == old(db.settings) && db.nextId >= old(db.nextId)
    ensures r == Err(Validation) <==> TitleMissing(body)
    ensures r == Err(Storage) <==>
              (!TitleMissing(body)
               && (!InsertParentExists(old(db.todos), old(db.nextId), IdOrNull(body.parentId))
                   || old(db.nextId) > MaxRowId))
    ensures r.Err? ==> r.error != Exception
    ensures r.Err? ==> db.todos == old(db.todos) && db.nextId == old(db.nextId)
    ensures r.Ok? ==>
              && r.value.id == old(db.nextId) && db.nextId == old(db.nextId) + 1
              && r.value.id !in old(db.todos)
              && (forall id :: id in old(db.todos) ==> id < r.value.id)
              && db.nextId > r.value.id
              && db.todos == old(db.todos)[r.value.id := r.value.task]
              && r.value.task.title == body.title.value != ""
              && r.value.task.completed == 0 && r.value.task.sortOrder == 0
              && r.value.task == NewTask(body)
    ensures Acyclic(old(db.todos)) && IdOrNull(body.parentId) != Some(old(db.nextId)) ==> Acyclic(db.todos)
    ensures r.Ok? && IdOrNull(body.parentId) == Some(r.value.id) ==> OnCycle(db.todos, r.value.id)
  {
    if body.title.None? || body.title.value == "" {
      return Err(Validation);
    }
    var task := NewTask(body);
    ghost var before := db.todos;
    var inserted := db.Insert(task);
    if inserted.Err? {
      return Err(Storage);
    }
    if task.parent == Some(inserted.value) {
      SelfParentIsCycle(db.todos, inserted.value);
    } else if Acyclic(before) {
      InsertKeepsAcyclic(before, inserted.value, task);
    }
    r := Ok(Row(inserted.value, task));
  }

  /** A create whose `parent_id` is the id the row is about to receive succeeds and
      stores a task that is its own parent: on a fresh database, `parent_id` 1. */
  method CreateCanCreateCycle() returns (db: Database, r: Result<Row>)
    ensures db.Valid() && r.Ok? && r.value.id == 1 && r.value.task.parent == Some(1)
    ensures OnCycle(db.todos, 1)
  {
    db := new Database();
    r := CreateTodo(db, CreateBody(Some("x"), Some(1), None, None, None));
  }

  // ----- PUT /api/todos/reorder -----

  /** One item of `updates`: `{ id, parent_id, sort_order }`. */
  datatype ReorderEntry = ReorderEntry(id: Option<int>, parentId: Option<int>, sortOrder: Option<int>)

  /** The prepared statement's bindings `[u.parent_id || null, u.sort_order || 0]`. */
  function EntrySets(u: ReorderEntry): seq<Assignment>
  {
    MoveSets(IdOrNull(u.parentId), IntOrZero(u.sortOrder))
  }

  /** Entry `u` rewrites row `x`: it names `x`, the row exists and the new parent
      satisfies the foreign key (otherwise that one statement fails and the error
      is ignored). */
  predicate Rewrites(todos: Table, u: ReorderEntry, x: int)
  {
    u.id == Some(x) && x in todos && ParentExists(todos, IdOrNull(u.parentId))
  }

  /** The table after one entry's UPDATE. */
  function ReorderStep(todos: Table, u: ReorderEntry): Table
  {
    if u.id.Some? && Rewrites(todos, u, u.id.value)
    then todos[u.id.value := todos[u.id.value].(parent := IdOrNull(u.parentId), sortOrder := IntOrZero(u.sortOrder))]
    else todos
  }

  /** The table after the entries' UPDATEs, in order. Rows are never added or
      removed, no column but `parent_id` and `sort_order` changes, and the
      foreign key keeps holding. */
  function Reordered(todos: Table, updates: seq<ReorderEntry>): (r: Table)
    ensures r.Keys == todos.Keys
    ensures forall x :: x in todos ==> r[x] == todos[x].(parent := r[x].parent, sortOrder := r[x].sortOrder)
    ensures RefIntegrity(todos) ==> RefIntegrity(r)
    decreases |updates|
  {
    if updates == [] then todos
    else ReorderStep(Reordered(todos, updates[..|updates| - 1]), updates[|updates| - 1])
  }

  /** One more entry is one more step. */
  lemma ReorderedSnoc(todos: Table, updates: seq<ReorderEntry>, i: nat)
    requires i < |updates|
    ensures Reordered(todos, updates[..i + 1]) == ReorderStep(Reordered(todos, updates[..i]), updates[i])
  {
    assert updates[..i + 1][..i] == updates[..i];
  }

  /** Last write wins: the final parent and sort order of a row come from the last
      entry that rewrites it. */
  lemma {:induction false} LastWriteWins(todos: Table, updates: seq<ReorderEntry>, x: int, j: nat)
    requires x in todos && j < |updates|
    requires Rewrites(todos, updates[j], x)
    requires forall k :: j < k < |updates| ==> !Rewrites(todos, updates[k], x)
    ensures Reordered(todos, updates)[x]
            == todos[x].(parent := IdOrNull(updates[j].parentId), sortOrder := IntOrZero(updates[j].sortOrder))
    decreases |updates|
  {
    var n := |updates| - 1;
    var init := updates[..n];
    var mid := Reordered(todos, init);
    assert Reordered(todos, updates) == ReorderStep(mid, updates[n]);
    assert mid.Keys == todos.Keys;
    if j < n {
      assert forall k :: j < k < |init| ==> init[k] == updates[k];
      LastWriteWins(todos, init, x, j);
      assert !Rewrites(mid, updates[n], x);
    }
  }

  /** A row no entry rewrites comes out exactly as it went in; this covers unknown
      ids and entries whose parent does not exist. */
  lemma {:induction false} ReorderLeavesOthers(todos: Table, updates: seq<ReorderEntry>, x: int)
    requires x in todos
    requires forall k :: 0 <= k < |updates| ==> !Rewrites(todos, updates[k], x)
    ensures Reordered(todos, updates)[x] == todos[x]
    decreases |updates|
  {
    if updates != [] {
      var n := |updates| - 1;
      assert forall k :: 0 <= k < n ==> updates[..n][k] == updates[k];
      ReorderLeavesOthers(todos, updates[..n], x);
      assert !Rewrites(Reordered(todos, updates[..n]), updates[n], x);
    }
  }

  /** The handler checks no cycles: moving a root task under itself is accepted and
      leaves it on a cycle of parent links. */
  lemma ReorderCanCreateCycle()
    ensures var todos := map[1 := Task(None, "a", 0, 0, "", 0, None)];
            && RefIntegrity(todos) && Acyclic(todos)
            && OnCycle(Reordered(todos, [ReorderEntry(Some(1), Some(1), None)]), 1)
  {
    var todos := map[1 := Task(None, "a", 0, 0, "", 0, None)];
    var after := Reordered(todos, [ReorderEntry(Some(1), Some(1), None)]);
    assert after == ReorderStep(todos, ReorderEntry(Some(1), Some(1), None));
    assert after[1].parent == Some(1);
    SelfParentIsCycle(after, 1);
  }

  /** `updates` that is not an array is rejected; otherwise every entry's UPDATE
      runs in order and its error, if any, is ignored. */
  method ReorderTodos(db: Database, updates: Option<seq<ReorderEntry>>) returns (r: Result<()>)
    requires db.Valid()
    modifies db
    ensures db.Valid() && db.settings == old(db.settings) && db.nextId == old(db.nextId)
    ensures r == if updates.None? then Err(Validation) else Ok(())
    ensures db.todos == if updates.None? then old(db.todos) else Reordered(old(db.todos), updates.value)
  {
    if updates.None? {
      return Err(Validation);
    }
    var list := updates.value;
    for i := 0 to |list|
      invariant db.Valid() && db.settings == old(db.settings) && db.nextId == old(db.nextId)
      invariant db.todos == Reordered(old(db.todos), list[..i])
    {
      var u := list[i];
      ghost var cur := db.todos;
      if u.id.Some? {
        if u.id.value in db.todos {
          MoveSetsEffect(db.todos, db.todos[u.id.value], IdOrNull(u.parentId), IntOrZero(u.sortOrder));
        }
        var ignored := db.UpdateColumns(u.id.value, EntrySets(u));
      }
      assert db.todos == ReorderStep(cur, u);
      ReorderedSnoc(old(db.todos), list, i);
    }
    assert list[..|list|] == list;
    r := Ok(());
  }

  // ----- PUT /api/todos/:id/status-recursive -----

  /** Sets `completed` to 0 or 1 on the task and every transitive descendant, and
      reports how many rows that is. */
  method UpdateStatusRecursive(db: Database, id: int, completed: bool) returns (updated: nat)
    requires db.Valid() && !OnCycle(db.todos, id)
    modifies db
    ensures db.Valid() && db.settings == old(db.settings) && db.nextId == old(db.nextId)
    ensures db.todos.Keys == old(db.todos).Keys
    ensures forall t :: t in old(db.todos) ==>
              db.todos[t] == if InSubtreeOf(old(db.todos), t, id)
                             then old(db.todos)[t].(completed := if completed then 1 else 0)
                             else old(db.todos)[t]
    ensures updated == |Subtree(old(db.todos), id)|
    ensures id in old(db.todos) <==> updated > 0
    ensures Acyclic(old(db.todos)) ==> Acyclic(db.todos)
  {
    ghost var before := db.todos;
    var v := if completed then 1 else 0;
    updated := db.UpdateCompletedRecursive(id, v);
    forall t | t in before
      ensures db.todos[t] == if InSubtreeOf(before, t, id) then before[t].(completed := v) else before[t]
    {
      CascadeChangesExactlySubtree(before, id, v, t);
    }
    if id in before {
      assert id in Subtree(before, id);
    }
    if Acyclic(before) {
      SameLinksKeepAcyclic(before, db.todos);
    }
  }

  // ----- PUT /api/todos/:id -----

  datatype PatchBody = PatchBody(
    title: Option<Option<string>>,
    completed: Option<bool>,
    description: Option<string>,
    priority: Option<int>,
    dueDate: Option<Option<string>>)

  /** No field was provided (`updates.length === 0`). */
  predicate NoFields(body: PatchBody)
  {
    body.title.None? && body.completed.None? && body.description.None?
    && body.priority.None? && body.dueDate.None?
  }

  /** The `updates` list the handler pushes, in order: title, completed (as 0/1),
      description, priority, due_date. */
  function PatchSets(body: PatchBody): seq<Assignment>
  {
    PatchHead(body) + PatchTail(body)
  }

  /** The first two pushes: title, completed. */
  function PatchHead(body: PatchBody): seq<Assignment>
  {
    (if body.title.Some? then [SetTitle(body.title.value)] else [])
    + (if body.completed.Some? then [SetCompleted(if body.completed.value then 1 else 0)] else [])
  }

  /** The last three pushes: description, priority, due_date. */
  function PatchTail(body: PatchBody): seq<Assignment>
  {
    (if body.description.Some? then [SetDescription(body.description.value)] else [])
    + (if body.priority.Some? then [SetPriority(body.priority.value)] else [])
    + (if body.dueDate.Some? then [SetDueDate(body.dueDate.value)] else [])
  }

  /** The patch field by field: a provided field replaces the column, an absent one
      leaves it; `parent_id` and `sort_order` are never touched. */
  function Patched(t: Task, body: PatchBody): Task
  {
    Task(t.parent,
         if body.title.Some? && body.title.value.Some? then body.title.value.value else t.title,
         if body.completed.Some? then (if body.completed.value then 1 else 0) else t.completed,
         t.sortOrder,
         if body.description.Some? then body.description.value else t.description,
         if body.priority.Some? then body.priority.value else t.priority,
         if body.dueDate.Some? then body.dueDate.value else t.dueDate)
  }

  /** The title and completed pushes set exactly those provided fields. */
  lemma PatchHeadEffect(t: Task, body: PatchBody)
    ensures ApplySets(t, PatchHead(body))
            == t.(title := if body.title.Some? && body.title.value.Some? then body.title.value.value else t.title,
                  completed := if body.completed.Some? then (if body.completed.value then 1 else 0) else t.completed)
  {
    var a := if body.title.Some? then [SetTitle(body.title.value)] else [];
    var b := if body.completed.Some? then [SetCompleted(if body.completed.value then 1 else 0)] else [];
    ApplySetsConcat(t, a, b);
    var t1 := ApplySets(t, a);
    if body.title.Some? { ApplyOne(t, a[0]); } else { ApplyNone(t); }
    if body.completed.Some? { ApplyOne(t1, b[0]); } else { ApplyNone(t1); }
  }

  /** The description, priority and due_date pushes set exactly those provided fields. */
  lemma PatchTailEffect(t: Task, body: PatchBody)
    ensures ApplySets(t, PatchTail(body))
            == t.(description := if body.description.Some? then body.description.value else t.description,
                  priority := if body.priority.Some? then body.priority.value else t.priority,
                  dueDate := if body.dueDate.Some? then body.dueDate.value else t.dueDate)
  {
    var c := if body.description.Some? then [SetDescription(body.description.value)] else [];
    var d := if body.priority.Some? then [SetPriority(body.priority.value)] else [];
    var e := if body.dueDate.Some? then [SetDueDate(body.dueDate.value)] else [];
    ApplySetsConcat(t, c + d, e);
    ApplySetsConcat(t, c, d);
    var t3 := ApplySets(t, c);
    var t4 := ApplySets(t3, d);
    if body.description.Some? { ApplyOne(t, c[0]); } else { ApplyNone(t); }
    if body.priority.Some? { ApplyOne(t3, d[0]); } else { ApplyNone(t3); }
    if body.dueDate.Some? { ApplyOne(t4, e[0]); } else { ApplyNone(t4); }
  }

  /** The statement built from the pushed list changes exactly the provided fields. */
  lemma PatchSetsAreFieldwise(t: Task, body: PatchBody)
    ensures ApplySets(t, PatchSets(body)) == Patched(t, body)
  {
    ApplySetsConcat(t, PatchHead(body), PatchTail(body));
    PatchHeadEffect(t, body);
    PatchTailEffect(ApplySets(t, PatchHead(body)), body);
  }

  /** The pushed list is empty exactly when nothing was provided, binds NULL to the
      title only for `title: null`, and never assigns a parent. */
  lemma PatchSetsShape(body: PatchBody)
    ensures PatchSets(body) == [] <==> NoFields(body)
    ensures TitlesNotNull(PatchSets(body)) <==> body.title != Some(None)
    ensures forall todos: Table :: ParentsExist(todos, PatchSets(body))
  {
    var h := PatchHead(body);
    var tl := PatchTail(body);
    var sets := h + tl;
    assert |h| == 0 <==> body.title.None? && body.completed.None?;
    assert |tl| == 0 <==> body.description.None? && body.priority.None? && body.dueDate.None?;
    forall i | 0 <= i < |h| ensures !h[i].SetParent? && (h[i].SetTitle? ==> h[i] == SetTitle(body.title.value)) {
    }
    forall i | 0 <= i < |tl| ensures !tl[i].SetParent? && !tl[i].SetTitle? {
    }
    if body.title == Some(None) {
      assert sets[0] == SetTitle(None);
    }
    assert forall i :: 0 <= i < |sets| ==> sets[i] == if i < |h| then h[i] else tl[i - |h|];
  }

  /** Changes exactly the provided fields of the task; reports 1 row, or 0 for an
      unknown id; rejects a body with no fields; a `null` title is refused by the
      NOT NULL constraint. */
  method UpdateTodo(db: Database, id: int, body: PatchBody) returns (r: Result<nat>)
    requires db.Valid()
    modifies db
    ensures db.Valid() && db.settings == old(db.settings) && db.nextId == old(db.nextId)
    ensures r == if NoFields(body) then Err(Validation)
                 else if id !in old(db.todos) then Ok(0)
                 else if body.title == Some(None) then Err(Storage)
                 else Ok(1)
    ensures db.todos == if r == Ok(1) then old(db.todos)[id := Patched(old(db.todos)[id], body)]
                        else old(db.todos)
    ensures Acyclic(old(db.todos)) ==> Acyclic(db.todos)
  {
    var sets := PatchSets(body);
    PatchSetsShape(body);
    if id in db.todos {
      PatchSetsAreFieldwise(db.todos[id], body);
    }
    if sets == [] {
      return Err(Validation);
    }
    ghost var before := db.todos;
    r := db.UpdateColumns(id, sets);
    if Acyclic(before) {
      SameLinksKeepAcyclic(before, db.todos);
    }
  }

  // ----- DELETE /api/todos/:id -----

  /** Removes the task and, by ON DELETE CASCADE, every descendant; nothing else
      changes. `deleted` counts only the row the statement names. */
  method DeleteTodo(db: Database, id: int) returns (deleted: nat)
    requires db.Valid()
    modifies db
    ensures db.Valid() && db.settings == old(db.settings) && db.nextId == old(db.nextId)
    ensures forall t :: t in db.todos <==> t in old(db.todos) && !InSubtreeOf(old(db.todos), t, id)
    ensures forall t :: t in db.todos ==> db.todos[t] == old(db.todos)[t]
    ensures deleted == if id in old(db.todos) then 1 else 0
    ensures Acyclic(old(db.todos)) ==> Acyclic(db.todos)
  {
    ghost var before := db.todos;
    deleted := db.DeleteCascade(id);
    forall t ensures t in db.todos <==> t in before && !InSubtreeOf(before, t, id) {
      DeleteRemovesExactlySubtree(before, id, t);
    }
    if Acyclic(before) {
      DeleteKeepsAcyclic(before, Subtree(before, id));
    }
  }

  // ----- GET /api/settings -----

  /** The one key a plain JavaScript object cannot hold as an own property by
      assignment: `obj["__proto__"] = text` runs the prototype setter, which
      ignores a string. */
  const ProtoKey: string := "__proto__"

  /** Folds the rows of `SELECT * FROM settings` into one key -> value object by
      assignment. The result is every stored setting except `__proto__`, which the
      POST handler and `save_setting` can store but this fold drops. */
  method GetSettings(db: Database) returns (m: map<string, string>)
    ensures m == db.settings - {ProtoKey}
  {
    var rows := db.SelectSettings();
    m := map[];
    for i := 0 to |rows|
      invariant ProtoKey !in m
      invariant forall k :: k in m ==> k in db.settings && m[k] == db.settings[k]
      invariant forall j :: 0 <= j < i && rows[j].key != ProtoKey ==> rows[j].key in m
    {
      if rows[i].key != ProtoKey {
        m := m[rows[i].key := rows[i].value];
      }
    }
    forall k | k in db.settings && k != ProtoKey ensures k in m {
      var j :| 0 <= j < |rows| && rows[j] == SettingRow(k, db.settings[k]);
    }
  }

  // ----- POST /api/settings -----

  /** One own property of the request body, in the order `for...in` visits them. */
  datatype Field = Field(key: string, value: Json)

  /** The keys a sequence of fields names. */
  function KeysOf(fields: seq<Field>): set<string>
  {
    set i | 0 <= i < |fields| :: fields[i].key
  }

  /** The object the fields spell out: each field sets its key, later fields
      overriding earlier ones (a JSON object repeats no key anyway). */
  function AsObject(fields: seq<Field>): map<string, Json>
    decreases |fields|
  {
    if fields == [] then map[]
    else AsObject(fields[..|fields| - 1])[fields[|fields| - 1].key := fields[|fields| - 1].value]
  }

  /** The keys of one more field. */
  lemma KeysOfSnoc(fields: seq<Field>)
    requires fields != []
    ensures KeysOf(fields) == KeysOf(fields[..|fields| - 1]) + {fields[|fields| - 1].key}
  {
    var n := |fields| - 1;
    forall k | k in KeysOf(fields) ensures k in KeysOf(fields[..n]) + {fields[n].key} {
      var i :| 0 <= i < |fields| && fields[i].key == k;
      if i < n { assert fields[..n][i] == fields[i]; }
    }
    forall k | k in KeysOf(fields[..n]) ensures k in KeysOf(fields) {
      var i :| 0 <= i < n && fields[..n][i].key == k;
      assert fields[i].key == k;
    }
  }

  /** The object has exactly the fields' keys. */
  lemma {:induction false} AsObjectKeys(fields: seq<Field>)
    ensures AsObject(fields).Keys == KeysOf(fields)
    decreases |fields|
  {
    if fields != [] {
      AsObjectKeys(fields[..|fields| - 1]);
      KeysOfSnoc(fields);
    }
  }

  /** A field that no later field overrides gives its key its value. */
  lemma {:induction false} AsObjectLast(fields: seq<Field>, i: nat)
    requires i < |fields|
    requires forall j :: i < j < |fields| ==> fields[j].key != fields[i].key
    ensures fields[i].key in AsObject(fields)
    ensures AsObject(fields)[fields[i].key] == fields[i].value
    decreases |fields|
  {
    var n := |fields| - 1;
    if i < n {
      var init := fields[..n];
      assert init[i] == fields[i];
      assert fields[n].key != fields[i].key;
      assert forall j :: i < j < n ==> init[j] == fields[j];
      AsObjectLast(init, i);
    }
  }

  /** The object has exactly the fields' keys, and each key holds the value of the
      last field naming it. */
  lemma AsObjectMeaning(fields: seq<Field>)
    ensures AsObject(fields).Keys == KeysOf(fields)
    ensures forall i :: 0 <= i < |fields| && (forall j :: i < j < |fields| ==> fields[j].key != fields[i].key)
              ==> AsObject(fields)[fields[i].key] == fields[i].value
  {
    AsObjectKeys(fields);
    forall i | 0 <= i < |fields| && (forall j :: i < j < |fields| ==> fields[j].key != fields[i].key)
      ensures AsObject(fields)[fields[i].key] == fields[i].value
    {
      AsObjectLast(fields, i);
    }
  }

  /** The position of the first field whose value `String(...)` cannot convert, or
      the number of fields when there is none. */
  function FirstThrow(fields: seq<Field>): (j: nat)
    ensures j <= |fields|
    ensures forall i :: 0 <= i < j ==> !StringThrows(fields[i].value)
    ensures j < |fields| ==> StringThrows(fields[j].value)
    decreases |fields|
  {
    if fields == [] || StringThrows(fields[0].value) then 0
    else
      assert forall i :: 0 <= i < |fields| - 1 ==> fields[1..][i] == fields[i + 1];
      1 + FirstThrow(fields[1..])
  }

  /** The settings after upserting `String(value)` under every key of `body`:
      keys of `body` get the new text, every other key keeps its value. */
  function Upserted(settings: map<string, string>, body: map<string, Json>): (r: map<string, string>)
    ensures r.Keys == settings.Keys + body.Keys
    ensures forall k :: k in body ==> r[k] == JsString(body[k])
    ensures forall k :: k in settings && k !in body ==> r[k] == settings[k]
  {
    settings + map k | k in body :: JsString(body[k])
  }

  /** Posting `a` and then `b` leaves what posting their merge (with `b` winning on
      shared keys) leaves. */
  lemma UpsertedCompose(settings: map<string, string>, a: map<string, Json>, b: map<string, Json>)
    ensures Upserted(Upserted(settings, a), b) == Upserted(settings, a + b)
  {
    var lhs := Upserted(Upserted(settings, a), b);
    var rhs := Upserted(settings, a + b);
    assert lhs.Keys == rhs.Keys;
    forall k | k in lhs ensures lhs[k] == rhs[k] {
      if k in b {
        assert (a + b)[k] == b[k];
      } else if k in a {
        assert (a + b)[k] == a[k];
      }
    }
  }

  /** Posting the same settings twice leaves what posting them once leaves. */
  lemma UpsertIdempotent(settings: map<string, string>, body: map<string, Json>)
    ensures Upserted(Upserted(settings, body), body) == Upserted(settings, body)
  {
  }

  /** One more field is one more upsert. */
  lemma UpsertedSnoc(settings: map<string, string>, fields: seq<Field>, i: nat)
    requires i < |fields|
    ensures Upserted(settings, AsObject(fields[..i + 1]))
            == Upserted(settings, AsObject(fields[..i]))[fields[i].key := JsString(fields[i].value)]
  {
    assert fields[..i + 1][..i] == fields[..i];
  }

  /** Upserts the body's keys in `for...in` order, one statement per key, storing the
      text `String(...)` gives for each value. A value on which `String` throws ends
      the handler with that exception (HTTP 500): the keys before it are stored, it
      and the keys after it are not. The todos are never touched. */
  method PostSettings(db: Database, body: seq<Field>) returns (r: Result<()>)
    requires db.Valid()
    modifies db
    ensures db.Valid() && db.todos == old(db.todos) && db.nextId == old(db.nextId)
    ensures db.settings == Upserted(old(db.settings), AsObject(body[..FirstThrow(body)]))
    ensures r == if FirstThrow(body) == |body| then Ok(()) else Err(Exception)
  {
    for i := 0 to |body|
      invariant db.Valid() && db.todos == old(db.todos) && db.nextId == old(db.nextId)
      invariant forall k :: 0 <= k < i ==> !StringThrows(body[k].value)
      invariant db.settings == Upserted(old(db.settings), AsObject(body[..i]))
    {
      if StringThrows(body[i].value) {
        return Err(Exception);
      }
      UpsertedSnoc(old(db.settings), body, i);
      db.InsertOrReplaceSetting(body[i].key, JsString(body[i].value));
    }
    assert body[..|body|] == body;
    r := Ok(());
  }
}
