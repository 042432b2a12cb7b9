/** The SQLite database both front-ends share, reduced to its two tables, the
    AUTOINCREMENT counter, and the statements the handlers issue. Foreign keys are
    enforced (`PRAGMA foreign_keys = ON`), so a statement that would leave a
    `parent_id` naming no row is refused and changes nothing. */
module Db {
  import opened Results
  import opened Schema
  import opened Forest
  import opened Listing

  /** The largest rowid SQLite assigns (2^63 - 1); past it AUTOINCREMENT fails with SQLITE_FULL. */
  const MaxRowId: int := 0x7FFF_FFFF_FFFF_FFFF

  class Database {
    /** The `todos` table, keyed by `id`. */
    var todos: Table
    /** One more than the largest id ever assigned (the `sqlite_sequence` entry plus one). */
    var nextId: int
    /** The `settings` table, keyed by `key`. */
    var settings: map<string, string>

    /** Every id was assigned by the counter, and the foreign key holds. */
    ghost predicate Valid()
      reads this
    {
      && 1 <= nextId
      && (forall id :: id in todos ==> 1 <= id < nextId)
      && RefIntegrity(todos)
    }

    /** A freshly created database: both tables empty, no id assigned yet. */
    constructor ()
      ensures Valid()
      ensures todos == map[] && nextId == 1 && settings == map[]
    {
      todos, nextId, settings := map[], 1, map[];
    }

    /** `INSERT INTO todos (...) VALUES (...)` with an AUTOINCREMENT id: returns the
        new row's id (`lastID`), which is larger than any id ever assigned. The new
        row may name itself as its parent. */
    method Insert(task: Task) returns (r: Result<int>)
      requires Valid()
      modifies this
      ensures Valid() && settings == old(settings)
      ensures r.Ok? <==> InsertParentExists(old(todos), old(nextId), task.parent) && old(nextId) <= MaxRowId
      ensures r.Ok? ==> r.value == old(nextId) && nextId == old(nextId) + 1
                        && todos == old(todos)[r.value := task]
      ensures r.Err? ==> r.error == Storage && todos == old(todos) && nextId == old(nextId)
    {
      if !InsertParentExists(todos, nextId, task.parent) || nextId > MaxRowId {
        return Err(Storage);
      }
      r := Ok(nextId);
      todos := todos[nextId := task];
      nextId := nextId + 1;
    }

    /** `UPDATE todos SET <sets> WHERE id = ?`. An empty SET list is a syntax error;
        an unknown id matches nothing (0 changes); a NULL title or a dangling
        parent aborts the statement; otherwise the one row changes (1 change). */
    method UpdateColumns(id: int, sets: seq<Assignment>) returns (r: Result<nat>)
      requires Valid()
      modifies this
      ensures Valid() && settings == old(settings) && nextId == old(nextId)
      ensures r == if sets == [] then Err(Storage)
                   else if id !in old(todos) then Ok(0)
                   else if !TitlesNotNull(sets) || !ParentsExist(old(todos), sets) then Err(Storage)
                   else Ok(1)
      ensures todos == if r == Ok(1) then old(todos)[id := ApplySets(old(todos)[id], sets)] else old(todos)
    {
      if sets == [] {
        return Err(Storage);
      }
      if id !in todos {
        return Ok(0);
      }
      if !TitlesNotNull(sets) || !ParentsExist(todos, sets) {
        return Err(Storage);
      }
      ApplySetsKeepsParentValid(todos, todos[id], sets);
      todos := todos[id := ApplySets(todos[id], sets)];
      r := Ok(1);
    }

    /** The recursive CTE: `completed` is set on row `id` and all of its descendants,
        and the count of changed rows is the size of that subtree (0 for an unknown
        id). With `UNION ALL` the CTE would never finish if `id` lay on a cycle of
        `parent_id` links, so callers must exclude that. */
    method UpdateCompletedRecursive(id: int, value: int) returns (count: nat)
      requires Valid() && !OnCycle(todos, id)
      modifies this
      ensures Valid() && settings == old(settings) && nextId == old(nextId)
      ensures todos == WithCompleted(old(todos), Subtree(old(todos), id), value)
      ensures count == |Subtree(old(todos), id)|
    {
      var below := Subtree(todos, id);
      todos := WithCompleted(todos, below, value);
      count := |below|;
    }

    /** `DELETE FROM todos WHERE id = ?` with ON DELETE CASCADE: the row and its whole
        subtree go. The change count excludes rows removed by the cascade. */
    method DeleteCascade(id: int) returns (count: nat)
      requires Valid()
      modifies this
      ensures Valid() && settings == old(settings) && nextId == old(nextId)
      ensures todos == old(todos) - Subtree(old(todos), id)
      ensures count == if id in old(todos) then 1 else 0
    {
      DeleteKeepsRefIntegrity(todos, id);
      count := if id in todos then 1 else 0;
      todos := todos - Subtree(todos, id);
    }

    /** `INSERT OR REPLACE INTO settings (key, value) VALUES (?, ?)`. */
    method InsertOrReplaceSetting(key: string, value: string)
      requires Valid()
      modifies this
      ensures Valid() && todos == old(todos) && nextId == old(nextId)
      ensures settings == old(settings)[key := value]
    {
      settings := settings[key := value];
    }

    /** The row among `left` that the listing order puts first. */
    method FirstOf(left: set<int>) returns (m: int)
      requires left != {} && left <= todos.Keys
      ensures m in left
      ensures forall k :: k in left && k != m ==> Before(Row(m, todos[m]), Row(k, todos[k]))
    {
      HasMember(left);
      m :| m in left;
      var rest := left - {m};
      while rest != {}
        invariant rest <= left && m in left && m !in rest
        invariant forall k :: k in left && k !in rest && k != m ==> Before(Row(m, todos[m]), Row(k, todos[k]))
        decreases rest
      {
        HasMember(rest);
        var k :| k in rest;
        if Before(Row(k, todos[k]), Row(m, todos[m])) {
          m := k;
        }
        rest := rest - {k};
      }
    }

    /** `SELECT * FROM todos ORDER BY sort_order ASC, id ASC`. */
    method SelectTodos() returns (rows: seq<Row>)
      ensures IsListing(todos, rows)
    {
      rows := [];
      var left := todos.Keys;
      while left != {}
        invariant left <= todos.Keys
        invariant StrictlySorted(rows)
        invariant forall i :: 0 <= i < |rows| ==>
                    rows[i].id in todos && rows[i].id !in left && rows[i].task == todos[rows[i].id]
        invariant forall id :: id in todos && id !in left ==> Row(id, todos[id]) in rows
        invariant forall i, id :: 0 <= i < |rows| && id in left ==> Before(rows[i], Row(id, todos[id]))
        decreases left
      {
        var m := FirstOf(left);
        rows := rows + [Row(m, todos[m])];
        left := left - {m};
      }
    }

    /** `SELECT * FROM settings`: each stored pair once, in an order the engine chooses. */
    method SelectSettings() returns (rows: seq<SettingRow>)
      ensures forall i :: 0 <= i < |rows| ==> rows[i].key in settings && rows[i].value == settings[rows[i].key]
      ensures forall k :: k in settings ==> SettingRow(k, settings[k]) in rows
      ensures forall i, j :: 0 <= i < j < |rows| ==> rows[i].key != rows[j].key
    {
      rows := [];
      var left := settings.Keys;
      while left != {}
        invariant left <= settings.Keys
        invariant forall i :: 0 <= i < |rows| ==>
                    rows[i].key in settings && rows[i].key !in left && rows[i].value == settings[rows[i].key]
        invariant forall k :: k in settings && k !in left ==> SettingRow(k, settings[k]) in rows
        invariant forall i, j :: 0 <= i < j < |rows| ==> rows[i].key != rows[j].key
        decreases left
      {
        var k :| k in left;
        rows := rows + [SettingRow(k, settings[k])];
        left := left - {k};
      }
    }
  }
}
