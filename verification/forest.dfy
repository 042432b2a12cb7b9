/** The parent/child structure of the `todos` table: the subtree a cascade reaches,
    and what the cascading statements do to it. */
module Forest {
  import opened Results
  import opened Schema

  /** The rows whose `parent_id` names a row of `s`: one step of
      `INNER JOIN ... ON t.parent_id = d.id`, or of an `ON DELETE CASCADE`. */
  function Children(todos: Table, s: set<int>): (c: set<int>)
    ensures c <= todos.Keys
    ensures forall t :: t in todos && todos[t].parent.Some? && todos[t].parent.value in s ==> t in c
    ensures forall t :: t in c ==> todos[t].parent.Some? && todos[t].parent.value in s
  {
    set t | t in todos.Keys && todos[t].parent.Some? && todos[t].parent.value in s
  }

  /** Keeps adding children until nothing new appears: the least superset of `s`
      closed under Children. Terminates on any table, cyclic or not, because each
      round adds at least one row of the finite table. */
  function Closure(todos: Table, s: set<int>): (c: set<int>)
    requires s <= todos.Keys
    ensures s <= c <= todos.Keys
    ensures Children(todos, c) <= c
    decreases |todos.Keys - s|
  {
    var next := s + Children(todos, s);
    if next == s then s
    else
      ShrinkingGap(todos.Keys, s, next);
      Closure(todos, next)
  }

  /** The rows a cascade from `r` reaches: `r` itself and all of its transitive
      descendants; empty when no row has id `r` (the anchor SELECT finds nothing). */
  function Subtree(todos: Table, r: int): (s: set<int>)
    ensures s <= todos.Keys
    ensures r in todos <==> r in s
    ensures Children(todos, s) <= s
  {
    Closure(todos, if r in todos then {r} else {})
  }

  /** Growing a subset of `keys` leaves fewer keys outside it. */
  lemma ShrinkingGap(keys: set<int>, s: set<int>, next: set<int>)
    requires s <= next <= keys && next != s
    ensures |keys - next| < |keys - s|
  {
    var added := next - s;
    assert keys - s == (keys - next) + added;
    assert (keys - next) !! added;
    assert added != {};
  }

  /** Closure is the LEAST closed superset: it lies inside any closed superset of its seed. */
  lemma {:induction false} ClosureIsLeast(todos: Table, s: set<int>, bound: set<int>)
    requires s <= todos.Keys
    requires s <= bound
    requires Children(todos, bound) <= bound
    ensures Closure(todos, s) <= bound
    decreases |todos.Keys - s|
  {
    var next := s + Children(todos, s);
    if next != s {
      ShrinkingGap(todos.Keys, s, next);
      ClosureIsLeast(todos, next, bound);
    }
  }

  /** A row reaching `r` along parent links belongs to the subtree of `r`. */
  lemma {:induction false} ReachingRowsInSubtree(todos: Table, t: int, r: int, k: nat)
    requires t in todos && r in todos
    requires ReachesIn(todos, t, r, k)
    ensures t in Subtree(todos, r)
    decreases k
  {
    if k > 0 {
      var p := todos[t].parent.value;
      assert p in todos by {
        if k - 1 > 0 { assert ReachesIn(todos, p, r, k - 1); } else { assert p == r; }
      }
      ReachingRowsInSubtree(todos, p, r, k - 1);
      assert t in Children(todos, Subtree(todos, r));
    }
  }

  /** The subtree computed by the cascade is exactly the set of rows that have `r`
      as themselves or an ancestor: both directions. */
  lemma SubtreeIsDescendants(todos: Table, r: int, t: int)
    ensures t in Subtree(todos, r) <==> InSubtreeOf(todos, t, r)
  {
    if InSubtreeOf(todos, t, r) {
      var k: nat :| ReachesIn(todos, t, r, k);
      ReachingRowsInSubtree(todos, t, r, k);
    }
    if t in Subtree(todos, r) {
      var below := set x | x in todos.Keys && InSubtreeOf(todos, x, r);
      if r in todos {
        assert ReachesIn(todos, r, r, 0);
        forall c | c in Children(todos, below) ensures c in below {
          var p := todos[c].parent.value;
          var k: nat :| ReachesIn(todos, p, r, k);
          assert ReachesIn(todos, c, r, k + 1);
        }
        ClosureIsLeast(todos, {r}, below);
      }
    }
  }

  /** Every row of `s` with `completed` set to `v`, every other row as it was:
      the effect of `UPDATE todos SET completed = ? WHERE id IN (...)`. */
  function WithCompleted(todos: Table, s: set<int>, v: int): (r: Table)
    ensures r.Keys == todos.Keys
    ensures forall t :: t in todos && t in s ==> r[t] == todos[t].(completed := v)
    ensures forall t :: t in todos && t !in s ==> r[t] == todos[t]
  {
    map t | t in todos :: if t in s then todos[t].(completed := v) else todos[t]
  }

  /** The completion cascade from `r` reaches a row exactly when `r` is the row
      itself or one of its ancestors, and changes nothing but `completed`. */
  lemma CascadeChangesExactlySubtree(todos: Table, r: int, v: int, t: int)
    requires t in todos
    ensures WithCompleted(todos, Subtree(todos, r), v)[t]
            == if InSubtreeOf(todos, t, r) then todos[t].(completed := v) else todos[t]
  {
    SubtreeIsDescendants(todos, r, t);
  }

  /** Deleting a row with ON DELETE CASCADE removes exactly the rows that have it as
      themselves or an ancestor, and leaves every other row as it was. */
  lemma {:induction false} DeleteRemovesExactlySubtree(todos: Table, r: int, t: int)
    ensures t in todos - Subtree(todos, r) <==> t in todos && !InSubtreeOf(todos, t, r)
    ensures t in todos - Subtree(todos, r) ==> (todos - Subtree(todos, r))[t] == todos[t]
  {
    SubtreeIsDescendants(todos, r, t);
  }

  /** After the cascade no surviving row points at a deleted one. */
  lemma DeleteKeepsRefIntegrity(todos: Table, r: int)
    requires RefIntegrity(todos)
    ensures RefIntegrity(todos - Subtree(todos, r))
  {
    var gone := Subtree(todos, r);
    assert Children(todos, gone) <= gone;
  }

  /** Two tables with the same rows and the same `parent_id` of every row. */
  ghost predicate SameLinks(a: Table, b: Table)
  {
    a.Keys == b.Keys && forall t :: t in a ==> a[t].parent == b[t].parent
  }

  /** Parent chains depend only on the `parent_id` column. */
  lemma {:induction false} SameLinksSameReach(a: Table, b: Table, x: int, y: int, k: nat)
    requires SameLinks(a, b)
    ensures ReachesIn(a, x, y, k) == ReachesIn(b, x, y, k)
    decreases k
  {
    if k > 0 && x in a && a[x].parent.Some? {
      SameLinksSameReach(a, b, a[x].parent.value, y, k - 1);
    }
  }

  /** An update that leaves every `parent_id` alone keeps the table a forest. */
  lemma SameLinksKeepAcyclic(a: Table, b: Table)
    requires SameLinks(a, b) && Acyclic(a)
    ensures Acyclic(b)
  {
    forall t, k: nat | t in b && 1 <= k
      ensures !ReachesIn(b, t, t, k)
    {
      SameLinksSameReach(a, b, t, t, k);
    }
  }

  /** A chain in a table obtained by deleting rows is a chain of the full table. */
  lemma {:induction false} SubTableReach(todos: Table, gone: set<int>, x: int, y: int, k: nat)
    requires ReachesIn(todos - gone, x, y, k)
    ensures ReachesIn(todos, x, y, k)
    decreases k
  {
    if k > 0 {
      SubTableReach(todos, gone, (todos - gone)[x].parent.value, y, k - 1);
    }
  }

  /** Deleting rows never creates a cycle. */
  lemma DeleteKeepsAcyclic(todos: Table, gone: set<int>)
    requires Acyclic(todos)
    ensures Acyclic(todos - gone)
  {
    forall t, k: nat | t in todos - gone && 1 <= k && ReachesIn(todos - gone, t, t, k)
      ensures ReachesIn(todos, t, t, k)
    {
      SubTableReach(todos, gone, t, t, k);
    }
  }

  /** In a table with referential integrity, no chain starting at an existing row
      reaches an id that is not in the table yet. */
  lemma {:induction false} NoChainToNewId(todos: Table, n: int, task: Task, x: int, k: nat)
    requires RefIntegrity(todos) && n !in todos && x in todos
    ensures !ReachesIn(todos[n := task], x, n, k)
    decreases k
  {
    if k > 0 && todos[x].parent.Some? {
      NoChainToNewId(todos, n, task, todos[x].parent.value, k - 1);
    }
  }

  /** Chains from existing rows are unaffected by inserting a new row. */
  lemma {:induction false} InsertKeepsOldChains(todos: Table, n: int, task: Task, x: int, y: int, k: nat)
    requires RefIntegrity(todos) && n !in todos && x in todos
    ensures ReachesIn(todos[n := task], x, y, k) == ReachesIn(todos, x, y, k)
    decreases k
  {
    if k > 0 && todos[x].parent.Some? {
      InsertKeepsOldChains(todos, n, task, todos[x].parent.value, y, k - 1);
    }
  }

  /** Inserting a row under an existing parent (or at the root) keeps the table a forest. */
  lemma InsertKeepsAcyclic(todos: Table, n: int, task: Task)
    requires RefIntegrity(todos) && Acyclic(todos)
    requires n !in todos && ParentExists(todos, task.parent)
    ensures Acyclic(todos[n := task])
  {
    var after := todos[n := task];
    forall t, k: nat | t in after && 1 <= k
      ensures !ReachesIn(after, t, t, k)
    {
      if t == n {
        if task.parent.Some? {
          NoChainToNewId(todos, n, task, task.parent.value, k - 1);
        }
      } else {
        InsertKeepsOldChains(todos, n, task, t, t, k);
      }
    }
  }

  /** A row that names itself as its parent is on a cycle. */
  lemma SelfParentIsCycle(todos: Table, t: int)
    requires t in todos && todos[t].parent == Some(t)
    ensures OnCycle(todos, t)
  {
    assert ReachesIn(todos, t, t, 1) by {
      assert ReachesIn(todos, t, t, 0);
    }
  }
}
