/** The order of `SELECT * FROM todos ORDER BY sort_order ASC, id ASC`. */
module Listing {
  import opened Schema

  /** Row `a` comes before row `b`: smaller `sort_order`, ties broken by smaller id. */
  predicate Before(a: Row, b: Row)
  {
    a.task.sortOrder < b.task.sortOrder || (a.task.sortOrder == b.task.sortOrder && a.id < b.id)
  }

  predicate StrictlySorted(rows: seq<Row>)
  {
    forall i, j :: 0 <= i < j < |rows| ==> Before(rows[i], rows[j])
  }

  /** `rows` is the listing of `todos`: every row of the table, each exactly once
      (strict sorting rules out repeats), with its stored columns, in ascending
      (sort_order, id) order. */
  ghost predicate IsListing(todos: Table, rows: seq<Row>)
  {
    && StrictlySorted(rows)
    && (forall i :: 0 <= i < |rows| ==> rows[i].id in todos && rows[i].task == todos[rows[i].id])
    && (forall id :: id in todos ==> Row(id, todos[id]) in rows)
  }

  /** (sort_order, id) is a strict total order on rows with distinct ids. */
  lemma BeforeIsStrictTotalOrder(a: Row, b: Row, c: Row)
    ensures !Before(a, a)
    ensures Before(a, b) ==> !Before(b, a)
    ensures Before(a, b) && Before(b, c) ==> Before(a, c)
    ensures a.id != b.id ==> Before(a, b) || Before(b, a)
  {
  }

  /** The first row of a strictly sorted sequence comes before every other row of it. */
  lemma SortedHeadIsLeast(xs: seq<Row>, r: Row)
    requires StrictlySorted(xs) && r in xs
    ensures r == xs[0] || Before(xs[0], r)
  {
    var k :| 0 <= k < |xs| && xs[k] == r;
  }

  /** Two strictly sorted sequences holding the same rows are equal. */
  lemma {:induction false} SortedSameRowsEqual(xs: seq<Row>, ys: seq<Row>)
    requires StrictlySorted(xs) && StrictlySorted(ys)
    requires forall r :: r in xs <==> r in ys
    ensures xs == ys
    decreases |xs|
  {
    assert ys != [] ==> ys[0] in xs;
    if xs != [] {
      assert xs[0] in ys;
      SortedHeadIsLeast(xs, ys[0]);
      SortedHeadIsLeast(ys, xs[0]);
      forall r | r in xs[1..] ensures r in ys[1..] {
        var k :| 1 <= k < |xs| && xs[k] == r;
        assert Before(xs[0], xs[k]);
        assert r in xs;
        var m :| 0 <= m < |ys| && ys[m] == r;
        assert m != 0 && ys[1..][m - 1] == r;
      }
      forall r | r in ys[1..] ensures r in xs[1..] {
        var k :| 1 <= k < |ys| && ys[k] == r;
        assert Before(ys[0], ys[k]);
        assert r in ys;
        var m :| 0 <= m < |xs| && xs[m] == r;
        assert m != 0 && xs[1..][m - 1] == r;
      }
      SortedSameRowsEqual(xs[1..], ys[1..]);
      assert xs == [xs[0]] + xs[1..];
      assert ys == [ys[0]] + ys[1..];
    }
  }

  /** The listing of a table is unique: the query's order is total, so its
      result is a function of the table alone. */
  lemma ListingIsUnique(todos: Table, xs: seq<Row>, ys: seq<Row>)
    requires IsListing(todos, xs) && IsListing(todos, ys)
    ensures xs == ys
  {
    forall r | r in xs ensures r in ys {
      var i :| 0 <= i < |xs| && xs[i] == r;
    }
    forall r | r in ys ensures r in xs {
      var i :| 0 <= i < |ys| && ys[i] == r;
    }
    SortedSameRowsEqual(xs, ys);
  }
}
