/** The `todos` and `settings` tables: one row type per table and the
    column assignments an `UPDATE todos SET ...` statement can carry. */
module Schema {
  import opened Results

  /** One row of `todos`, without its `id` (the id is the key of the table map).
      `completed` is an INTEGER column: the handlers normally write 0 or 1. */
  datatype Task = Task(
    parent: Option<int>,
    title: string,
    completed: int,
    sortOrder: int,
    description: string,
    priority: int,
    dueDate: Option<string>)

  /** A row as a query returns it: the id together with the other columns. */
  datatype Row = Row(id: int, task: Task)

  /** A row of `settings`. */
  datatype SettingRow = SettingRow(key: string, value: string)

  /** The `todos` table: rows keyed by their `id` primary key. */
  type Table = map<int, Task>

  /** One `column = ?` item of an `UPDATE todos SET ...` statement. A `SetTitle(None)`
      binds NULL to the NOT NULL title column; a `SetParent(None)` moves to the root. */
  datatype Assignment =
    | SetTitle(title: Option<string>)
    | SetCompleted(completed: int)
    | SetSortOrder(sortOrder: int)
    | SetParent(parent: Option<int>)
    | SetDescription(description: string)
    | SetPriority(priority: int)
    | SetDueDate(dueDate: Option<string>)

  /** A row after one assignment. A NULL title never reaches a stored row
      (the statement is refused first), so it leaves the title alone here. */
  function Assign(t: Task, a: Assignment): Task
  {
    match a
    case SetTitle(title) => if title.Some? then t.(title := title.value) else t
    case SetCompleted(c) => t.(completed := c)
    case SetSortOrder(s) => t.(sortOrder := s)
    case SetParent(p) => t.(parent := p)
    case SetDescription(d) => t.(description := d)
    case SetPriority(p) => t.(priority := p)
    case SetDueDate(d) => t.(dueDate := d)
  }

  /** A row after every assignment of a SET list, left to right. */
  function ApplySets(t: Task, sets: seq<Assignment>): Task
    decreases |sets|
  {
    if sets == [] then t else ApplySets(Assign(t, sets[0]), sets[1..])
  }

  /** The NOT NULL constraint on `title`: no assignment binds NULL to it. */
  predicate TitlesNotNull(sets: seq<Assignment>)
  {
    forall i :: 0 <= i < |sets| ==> sets[i] != SetTitle(None)
  }

  /** The foreign key on `parent_id`: NULL, or the id of an existing row. */
  predicate ParentExists(todos: Table, parent: Option<int>)
  {
    parent.None? || parent.value in todos
  }

  /** The foreign key of an INSERT that gives the new row the id `id`. SQLite checks
      the inserted row against itself too, so a parent equal to `id` is accepted. */
  predicate InsertParentExists(todos: Table, id: int, parent: Option<int>)
  {
    ParentExists(todos, parent) || parent == Some(id)
  }

  /** The foreign key, for every parent assignment of a SET list. */
  predicate ParentsExist(todos: Table, sets: seq<Assignment>)
  {
    forall i :: 0 <= i < |sets| && sets[i].SetParent? ==> ParentExists(todos, sets[i].parent)
  }

  /** Referential integrity of the table: every non-null `parent_id` names a row. */
  ghost predicate RefIntegrity(todos: Table)
  {
    forall id :: id in todos ==> ParentExists(todos, todos[id].parent)
  }

  /** Following `parent_id` links from `t` reaches `r` in exactly `k` steps. */
  ghost predicate ReachesIn(todos: Table, t: int, r: int, k: nat)
    decreases k
  {
    if k == 0 then t == r
    else t in todos && todos[t].parent.Some? && ReachesIn(todos, todos[t].parent.value, r, k - 1)
  }

  /** `r` is `t` itself or one of its ancestors: the relation "t belongs to the subtree of r". */
  ghost predicate InSubtreeOf(todos: Table, t: int, r: int)
  {
    t in todos && r in todos && exists k: nat :: ReachesIn(todos, t, r, k)
  }

  /** `t` is its own proper ancestor: a cycle of `parent_id` links runs through it. */
  ghost predicate OnCycle(todos: Table, t: int)
  {
    exists k: nat :: 1 <= k && ReachesIn(todos, t, t, k)
  }

  /** The tasks form a forest: no task is its own ancestor. */
  ghost predicate Acyclic(todos: Table)
  {
    forall t :: t in todos ==> !OnCycle(todos, t)
  }

  /** A SET list that respects the foreign key leaves a valid parent behind. */
  lemma {:induction false} ApplySetsKeepsParentValid(todos: Table, t: Task, sets: seq<Assignment>)
    requires ParentExists(todos, t.parent) && ParentsExist(todos, sets)
    ensures ParentExists(todos, ApplySets(t, sets).parent)
    decreases |sets|
  {
    if sets != [] {
      assert forall i :: 0 <= i < |sets[1..]| ==> sets[1..][i] == sets[i + 1];
      ApplySetsKeepsParentValid(todos, Assign(t, sets[0]), sets[1..]);
    }
  }

  /** A non-empty set of ids has a member to pick (stated for the `:|` choices
      that walk over table keys). */
  lemma HasMember(s: set<int>)
    requires s != {}
    ensures exists x :: x in s
  {
    if forall y :: y !in s {
      assert false;
    }
  }

  /** Applying two SET lists one after the other is applying their concatenation. */
  lemma {:induction false} ApplySetsConcat(t: Task, a: seq<Assignment>, b: seq<Assignment>)
    ensures ApplySets(t, a + b) == ApplySets(ApplySets(t, a), b)
    decreases |a|
  {
    if a != [] {
      assert (a + b)[0] == a[0];
      assert (a + b)[1..] == a[1..] + b;
      ApplySetsConcat(Assign(t, a[0]), a[1..], b);
    } else {
      assert a + b == b;
    }
  }

  /** An empty SET list changes nothing. */
  lemma ApplyNone(t: Task)
    ensures ApplySets(t, []) == t
  {
  }

  /** A SET list of one item is that assignment. */
  lemma ApplyOne(t: Task, x: Assignment)
    ensures ApplySets(t, [x]) == Assign(t, x)
  {
    assert [x][1..] == [];
  }

  /** `SET parent_id = ?, sort_order = ?`: the statement that moves a task. */
  function MoveSets(parent: Option<int>, sortOrder: int): seq<Assignment>
  {
    [SetParent(parent), SetSortOrder(sortOrder)]
  }

  /** Moving binds no NULL title, is subject to the foreign key on its one parent,
      and changes the parent and the sort order of the row it matches. */
  lemma MoveSetsEffect(todos: Table, t: Task, parent: Option<int>, sortOrder: int)
    ensures TitlesNotNull(MoveSets(parent, sortOrder))
    ensures ParentsExist(todos, MoveSets(parent, sortOrder)) <==> ParentExists(todos, parent)
    ensures ApplySets(t, MoveSets(parent, sortOrder)) == t.(parent := parent, sortOrder := sortOrder)
  {
    var sets := MoveSets(parent, sortOrder);
    assert sets == [sets[0]] + [sets[1]];
    ApplySetsConcat(t, [sets[0]], [sets[1]]);
    ApplyOne(t, sets[0]);
    ApplyOne(Assign(t, sets[0]), sets[1]);
    assert ParentsExist(todos, sets) ==> ParentExists(todos, sets[0].parent);
  }
}
