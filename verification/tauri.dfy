/** The Tauri commands of the desktop front-end: the same tables, reached
    through `app.execute` / `app.query`. Every command answers `Ok({})` or the
    database's error text; here the error text is `Err(Storage)`. */
module Tauri {
  import opened Results
  import opened Schema
  import opened Forest
  import opened Listing
  import opened Db

  /** Rust's `i32`: the command arguments are deserialised into it. */
  type I32 = x: int | -0x8000_0000 <= x < 0x8000_0000

  /** `get_todos`: every task, ordered by (sort_order, id). */
  method GetTodos(db: Database) returns (rows: seq<Row>)
    ensures IsListing(db.todos, rows)
  {
    rows := db.SelectTodos();
  }

  /** `create_todo`: inserts the row with `completed = 0` and `sort_order = 0` and
      the other arguments as given (`None` stored as NULL). The title is not
      checked, and a parent id of 0 is kept, so it fails the foreign key. */
  method CreateTodo(db: Database, title: string, parentId: Option<I32>, description: string,
                    priority: I32, dueDate: Option<string>) returns (r: Result<()>)
    requires db.Valid()
    modifies db
    ensures db.Valid() && db.settings == old(db.settings)
    ensures r.Ok? <==> InsertParentExists(old(db.todos), old(db.nextId), parentId) && old(db.nextId) <= MaxRowId
    ensures r.Ok? ==> old(db.nextId) !in old(db.todos) && db.nextId == old(db.nextId) + 1
                      && db.todos == old(db.todos)[old(db.nextId) := Task(parentId, title, 0, 0, description, priority, dueDate)]
    ensures r.Err? ==> r.error == Storage && db.todos == old(db.todos) && db.nextId == old(db.nextId)
    ensures Acyclic(old(db.todos)) && parentId != Some(old(db.nextId)) ==> Acyclic(db.todos)
    ensures r.Ok? && parentId == Some(old(db.nextId)) ==> OnCycle(db.todos, old(db.nextId))
  {
    var task := Task(parentId, title, 0, 0, description, priority, dueDate);
    ghost var before := db.todos;
    var inserted := db.Insert(task);
    if inserted.Err? {
      return Err(Storage);
    }
    if task.parent == Some(inserted.value) {
      SelfParentIsCycle(db.todos, inserted.value);
    } else if Acyclic(before) {
      InsertKeepsAcyclic(before, inserted.value, task);
    }
    r := Ok(());
  }

  /** The keys of `data` that `update_todo` reads; each is `None` when the key is
      absent, and a present JSON `null` is `Some(None)` for the nullable ones. */
  datatype UpdateData = UpdateData(
    title: Option<Option<string>>,
    completed: Option<int>,
    sortOrder: Option<int>,
    parentId: Option<Option<int>>,
    description: Option<string>,
    priority: Option<int>,
    dueDate: Option<Option<string>>)

  /** None of the seven keys is present (`sets.is_empty()`). */
  predicate NoKeys(data: UpdateData)
  {
    data.title.None? && data.completed.None? && data.sortOrder.None? && data.parentId.None?
    && data.description.None? && data.priority.None? && data.dueDate.None?
  }

  /** The `sets` list the command pushes, in order: title, completed, sort_order,
      parent_id, description, priority, due_date. */
  function DataSets(data: UpdateData): seq<Assignment>
  {
    HeadSets(data) + TailSets(data)
  }

  /** The first three pushes: title, completed, sort_order. */
  function HeadSets(data: UpdateData): seq<Assignment>
  {
    (if data.title.Some? then [SetTitle(data.title.value)] else [])
    + (if data.completed.Some? then [SetCompleted(data.completed.value)] else [])
    + (if data.sortOrder.Some? then [SetSortOrder(data.sortOrder.value)] else [])
  }

  /** The last four pushes: parent_id, description, priority, due_date. */
  function TailSets(data: UpdateData): seq<Assignment>
  {
    (if data.parentId.Some? then [SetParent(data.parentId.value)] else [])
    + (if data.description.Some? then [SetDescription(data.description.value)] else [])
    + (if data.priority.Some? then [SetPriority(data.priority.value)] else [])
    + (if data.dueDate.Some? then [SetDueDate(data.dueDate.value)] else [])
  }

  /** The patch field by field: every present key replaces its column. */
  function Patched(t: Task, data: UpdateData): Task
  {
    Task(if data.parentId.Some? then data.parentId.value else t.parent,
         if data.title.Some? && data.title.value.Some? then data.title.value.value else t.title,
         if data.completed.Some? then data.completed.value else t.completed,
         if data.sortOrder.Some? then data.sortOrder.value else t.sortOrder,
         if data.description.Some? then data.description.value else t.description,
         if data.priority.Some? then data.priority.value else t.priority,
         if data.dueDate.Some? then data.dueDate.value else t.dueDate)
  }

  /** The first three pushes set title (unless null), completed and sort_order. */
  lemma HeadSetsEffect(t: Task, data: UpdateData)
    ensures ApplySets(t, HeadSets(data))
            == t.(title := if data.title.Some? && data.title.value.Some? then data.title.value.value else t.title,
                  completed := if data.completed.Some? then data.completed.value else t.completed,
                  sortOrder := if data.sortOrder.Some? then data.sortOrder.value else t.sortOrder)
  {
    var a := if data.title.Some? then [SetTitle(data.title.value)] else [];
    var b := if data.completed.Some? then [SetCompleted(data.completed.value)] else [];
    var c := if data.sortOrder.Some? then [SetSortOrder(data.sortOrder.value)] else [];
    ApplySetsConcat(t, a + b, c);
    ApplySetsConcat(t, a, b);
    var t1 := ApplySets(t, a);
    var t2 := ApplySets(t1, b);
    if data.title.Some? { ApplyOne(t, a[0]); } else { ApplyNone(t); }
    if data.completed.Some? { ApplyOne(t1, b[0]); } else { ApplyNone(t1); }
    if data.sortOrder.Some? { ApplyOne(t2, c[0]); } else { ApplyNone(t2); }
  }

  /** The last four pushes set parent_id, description, priority and due_date. */
  lemma TailSetsEffect(t: Task, data: UpdateData)
    ensures ApplySets(t, TailSets(data))
            == t.(parent := if data.parentId.Some? then data.parentId.value else t.parent,
                  description := if data.description.Some? then data.description.value else t.description,
                  priority := if data.priority.Some? then data.priority.value else t.priority,
                  dueDate := if data.dueDate.Some? then data.dueDate.value else t.dueDate)
  {
    var d := if data.parentId.Some? then [SetParent(data.parentId.value)] else [];
    var e := if data.description.Some? then [SetDescription(data.description.value)] else [];
    var f := if data.priority.Some? then [SetPriority(data.priority.value)] else [];
    var g := if data.dueDate.Some? then [SetDueDate(data.dueDate.value)] else [];
    ApplySetsConcat(t, d + e + f, g);
    ApplySetsConcat(t, d + e, f);
    ApplySetsConcat(t, d, e);
    var t4 := ApplySets(t, d);
    var t5 := ApplySets(t4, e);
    var t6 := ApplySets(t5, f);
    if data.parentId.Some? { ApplyOne(t, d[0]); } else { ApplyNone(t); }
    if data.description.Some? { ApplyOne(t4, e[0]); } else { ApplyNone(t4); }
    if data.priority.Some? { ApplyOne(t5, f[0]); } else { ApplyNone(t5); }
    if data.dueDate.Some? { ApplyOne(t6, g[0]); } else { ApplyNone(t6); }
  }

  /** The statement built from the pushed list changes exactly the present keys. */
  lemma DataSetsAreFieldwise(t: Task, data: UpdateData)
    ensures ApplySets(t, DataSets(data)) == Patched(t, data)
  {
    ApplySetsConcat(t, HeadSets(data), TailSets(data));
    HeadSetsEffect(t, data);
    TailSetsEffect(ApplySets(t, HeadSets(data)), data);
  }

  /** The pushed list is empty exactly when no key is present; it binds NULL to the
      title only for `title: null`; it meets the foreign key exactly when a present
      `parent_id` is null or names a row. */
  lemma DataSetsShape(todos: Table, data: UpdateData)
    ensures DataSets(data) == [] <==> NoKeys(data)
    ensures TitlesNotNull(DataSets(data)) <==> data.title != Some(None)
    ensures ParentsExist(todos, DataSets(data)) <==> (data.parentId.Some? ==> ParentExists(todos, data.parentId.value))
  {
    var h := HeadSets(data);
    var tl := TailSets(data);
    var sets := h + tl;
    assert |h| == 0 <==> data.title.None? && data.completed.None? && data.sortOrder.None?;
    assert |tl| == 0 <==> data.parentId.None? && data.description.None? && data.priority.None? && data.dueDate.None?;
    forall i | 0 <= i < |h|
      ensures !h[i].SetParent?
      ensures h[i].SetTitle? ==> h[i] == SetTitle(data.title.value)
    {
    }
    forall i | 0 <= i < |tl|
      ensures !tl[i].SetTitle?
      ensures tl[i].SetParent? ==> tl[i] == SetParent(data.parentId.value)
    {
    }
    if data.title == Some(None) {
      assert sets[0] == SetTitle(None);
    }
    if data.parentId.Some? {
      assert sets[|h|] == tl[0] == SetParent(data.parentId.value);
    }
    assert forall i :: 0 <= i < |sets| ==> sets[i] == if i < |h| then h[i] else tl[i - |h|];
  }

  /** The table after the first step of `update_todo`: when `completed` is present,
      the recursive CTE has set it on the task and all its descendants. */
  function AfterCascade(todos: Table, id: int, data: UpdateData): Table
  {
    if data.completed.Some? then WithCompleted(todos, Subtree(todos, id), data.completed.value) else todos
  }

  /** `update_todo`: cascades `completed` through the subtree first (its error
      discarded), then sets exactly the present keys on the one row. No key at all
      is a successful no-op; an unknown id changes nothing and still succeeds.
      When the second statement fails (NULL title, dangling parent) the cascade
      stays applied. */
  method UpdateTodo(db: Database, id: I32, data: UpdateData) returns (r: Result<()>)
    requires db.Valid()
    requires data.completed.Some? ==> !OnCycle(db.todos, id)
    modifies db
    ensures db.Valid() && db.settings == old(db.settings) && db.nextId == old(db.nextId)
    ensures r == if NoKeys(data) || id !in old(db.todos) then Ok(())
                 else if data.title == Some(None) then Err(Storage)
                 else if data.parentId.Some? && !ParentExists(old(db.todos), data.parentId.value) then Err(Storage)
                 else Ok(())
    ensures db.todos.Keys == old(db.todos).Keys
    ensures forall t :: t in old(db.todos) && t != id ==>
              db.todos[t] == if data.completed.Some? && InSubtreeOf(old(db.todos), t, id)
                             then old(db.todos)[t].(completed := data.completed.value)
                             else old(db.todos)[t]
    ensures id in old(db.todos) ==>
              db.todos[id] == if !NoKeys(data) && r.Ok? then Patched(old(db.todos)[id], data)
                              else AfterCascade(old(db.todos), id, data)[id]
    ensures data.parentId.None? && Acyclic(old(db.todos)) ==> Acyclic(db.todos)
  {
    ghost var before := db.todos;
    if data.completed.Some? {
      var ignored := db.UpdateCompletedRecursive(id, data.completed.value);
    }
    ghost var mid := db.todos;
    assert mid == AfterCascade(before, id, data);
    forall t | t in before
      ensures mid[t] == if data.completed.Some? && InSubtreeOf(before, t, id)
                        then before[t].(completed := data.completed.value) else before[t]
    {
      if data.completed.Some? {
        CascadeChangesExactlySubtree(before, id, data.completed.value, t);
      }
    }
    var sets := DataSets(data);
    DataSetsShape(mid, data);
    if sets == [] {
      return Ok(());
    }
    if id in mid {
      DataSetsAreFieldwise(mid[id], data);
      assert Patched(mid[id], data) == Patched(before[id], data);
    }
    var updated := db.UpdateColumns(id, sets);
    r := if updated.Ok? then Ok(()) else Err(Storage);
    if data.parentId.None? && Acyclic(before) {
      SameLinksKeepAcyclic(before, db.todos);
    }
  }

  /** `reorder_todo`: sets the parent and the sort order of one task. (The command
      is defined but not in the invoke handler list.) */
  method ReorderTodo(db: Database, id: I32, newParentId: Option<I32>, newSortOrder: I32) returns (r: Result<()>)
    requires db.Valid()
    modifies db
    ensures db.Valid() && db.settings == old(db.settings) && db.nextId == old(db.nextId)
    ensures r.Err? <==> id in old(db.todos) && !ParentExists(old(db.todos), newParentId)
    ensures db.todos == if id in old(db.todos) && r.Ok?
                        then old(db.todos)[id := old(db.todos)[id].(parent := newParentId, sortOrder := newSortOrder)]
                        else old(db.todos)
  {
    if id in db.todos {
      MoveSetsEffect(db.todos, db.todos[id], newParentId, newSortOrder);
    }
    var updated := db.UpdateColumns(id, MoveSets(newParentId, newSortOrder));
    r := if updated.Ok? then Ok(()) else Err(Storage);
  }

  /** `delete_todo`: removes the task and, by ON DELETE CASCADE, its subtree. */
  method DeleteTodo(db: Database, id: I32) returns (r: Result<()>)
    requires db.Valid()
    modifies db
    ensures db.Valid() && db.settings == old(db.settings) && db.nextId == old(db.nextId)
    ensures r == Ok(())
    ensures forall t :: t in db.todos <==> t in old(db.todos) && !InSubtreeOf(old(db.todos), t, id)
    ensures forall t :: t in db.todos ==> db.todos[t] == old(db.todos)[t]
    ensures Acyclic(old(db.todos)) ==> Acyclic(db.todos)
  {
    ghost var before := db.todos;
    var deleted := db.DeleteCascade(id);
    forall t ensures t in db.todos <==> t in before && !InSubtreeOf(before, t, id) {
      DeleteRemovesExactlySubtree(before, id, t);
    }
    if Acyclic(before) {
      DeleteKeepsAcyclic(before, Subtree(before, id));
    }
    r := Ok(());
  }

  /** `get_settings`: the rows of the settings table, each key once. */
  method GetSettings(db: Database) returns (rows: seq<SettingRow>)
    ensures forall i :: 0 <= i < |rows| ==> rows[i].key in db.settings && rows[i].value == db.settings[rows[i].key]
    ensures forall k :: k in db.settings ==> SettingRow(k, db.settings[k]) in rows
    ensures forall i, j :: 0 <= i < j < |rows| ==> rows[i].key != rows[j].key
  {
    rows := db.SelectSettings();
  }

  /** `save_setting`: inserts or replaces one key; every other key keeps its value. */
  method SaveSetting(db: Database, key: string, value: string) returns (r: Result<()>)
    requires db.Valid()
    modifies db
    ensures db.Valid() && db.todos == old(db.todos) && db.nextId == old(db.nextId)
    ensures r == Ok(())
    ensures db.settings == old(db.settings)[key := value]
  {
    db.InsertOrReplaceSetting(key, value);
    r := Ok(());
  }

  /** Saving the same pair twice leaves what saving it once leaves, and other keys alone. */
  lemma SaveSettingIdempotent(settings: map<string, string>, key: string, value: string, other: string)
    ensures settings[key := value][key := value] == settings[key := value]
    ensures other != key && other in settings ==> settings[key := value][other] == settings[other]
  {
  }
}
