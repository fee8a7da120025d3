/** What the repositories' `SELECT … WHERE … ORDER BY … LIMIT ? OFFSET ?`
    queries compute, over a table held as a map from id to row.  Rows are
    first taken in ascending id order, then stably sorted on the `ORDER BY`
    key, then cut to the requested page.  Ordering rows with equal keys by
    ascending id is a modelling assumption: SQLite leaves the order of such
    rows undefined, and the paging lemmas below rely on the assumption. */
module Sql {

  /** The errors a repository call reports besides driver failures:
      `sql.ErrNoRows` when an UPDATE or DELETE matched nothing, and a
      violated constraint when an INSERT or UPDATE would break one. */
  datatype DbError = ErrNoRows | ConstraintViolation(constraint: string)

  /** The rows with ids in [lo, hi) that satisfy `keep`, in ascending id order. */
  function Select<R>(m: map<int, R>, lo: int, hi: int, keep: R -> bool): (r: seq<R>)
    ensures forall x :: x in r ==> keep(x) && exists id :: lo <= id < hi && id in m && m[id] == x
    ensures forall id :: lo <= id < hi && id in m && keep(m[id]) ==> m[id] in r
    decreases hi - lo
  {
    if lo >= hi then []
    else if lo in m && keep(m[lo]) then [m[lo]] + Select(m, lo + 1, hi, keep)
    else Select(m, lo + 1, hi, keep)
  }

  /** `xs` is in ascending order of `key`. */
  predicate Sorted<T>(xs: seq<T>, key: T -> int) {
    forall i, j :: 0 <= i < j < |xs| ==> key(xs[i]) <= key(xs[j])
  }

  /** Places `x` in front of the first element whose key is not smaller, so
      equal keys keep `x` ahead of the elements already sorted. */
  function Insert<T>(x: T, xs: seq<T>, key: T -> int): (r: seq<T>)
    requires Sorted(xs, key)
    ensures Sorted(r, key)
    ensures multiset(r) == multiset(xs) + multiset{x}
  {
    if xs == [] || key(x) <= key(xs[0]) then
      InsertFront(x, xs, key);
      [x] + xs
    else
      var rest := Insert(x, xs[1..], key);
      InsertBehind(x, xs, rest, key);
      [xs[0]] + rest
  }

  lemma InsertFront<T>(x: T, xs: seq<T>, key: T -> int)
    requires Sorted(xs, key) && (xs == [] || key(x) <= key(xs[0]))
    ensures Sorted([x] + xs, key)
  {
    var r := [x] + xs;
    forall i, j | 0 <= i < j < |r| ensures key(r[i]) <= key(r[j]) {
      assert r[j] == xs[j - 1];
      if i == 0 {
        assert key(xs[0]) <= key(xs[j - 1]);
      } else {
        assert r[i] == xs[i - 1];
      }
    }
  }

  lemma InsertBehind<T>(x: T, xs: seq<T>, rest: seq<T>, key: T -> int)
    requires xs != [] && Sorted(xs, key) && key(xs[0]) <= key(x)
    requires Sorted(rest, key) && multiset(rest) == multiset(xs[1..]) + multiset{x}
    ensures Sorted([xs[0]] + rest, key)
    ensures multiset([xs[0]] + rest) == multiset(xs) + multiset{x}
  {
    assert xs == [xs[0]] + xs[1..];
    forall y | y in rest ensures key(xs[0]) <= key(y) {
      assert y in multiset(rest);
      if y != x {
        assert y in multiset(xs[1..]);
        var j :| 0 <= j < |xs[1..]| && xs[1..][j] == y;
        assert xs[j + 1] == y;
      }
    }
    var r := [xs[0]] + rest;
    forall i, j | 0 <= i < j < |r| ensures key(r[i]) <= key(r[j]) {
      assert r[j] == rest[j - 1] && r[j] in rest;
      if i > 0 {
        assert r[i] == rest[i - 1];
      }
    }
  }

  /** A stable sort on `key`: insertion sort from the back.  Stability is the
      model's choice for rows with equal keys; SQLite promises no order for
      them. */
  function SortBy<T>(xs: seq<T>, key: T -> int): (r: seq<T>)
    ensures Sorted(r, key)
    ensures multiset(r) == multiset(xs)
  {
    if xs == [] then []
    else
      assert xs == [xs[0]] + xs[1..];
      Insert(xs[0], SortBy(xs[1..], key), key)
  }

  /** Sorting leaves an already ordered sequence exactly as it is, so in the
      model ties never move. */
  lemma {:induction false} SortBySorted<T>(xs: seq<T>, key: T -> int)
    requires Sorted(xs, key)
    ensures SortBy(xs, key) == xs
  {
    if xs != [] {
      assert Sorted(xs[1..], key);
      SortBySorted(xs[1..], key);
    }
  }

  /** SQLite's LIMIT/OFFSET: a negative offset counts as 0, a negative limit
      means no limit.  The page is the run of rows that starts `offset` rows
      in and holds at most `limit` of them. */
  function Page<T>(xs: seq<T>, limit: int, offset: int): (r: seq<T>)
    ensures var o := if offset < 0 then 0 else offset;
      |r| == (if o >= |xs| then 0 else if limit < 0 || o + limit > |xs| then |xs| - o else limit)
    ensures var o := if offset < 0 then 0 else offset;
      forall i :: 0 <= i < |r| ==> r[i] == xs[o + i]
  {
    var o := if offset < 0 then 0 else offset;
    if o >= |xs| then []
    else if limit < 0 || o + limit > |xs| then xs[o..]
    else xs[o..o + limit]
  }

  /** Two consecutive pages together are the page that spans both. */
  lemma PagesTile<T>(xs: seq<T>, a: nat, b: nat, offset: nat)
    ensures Page(xs, a, offset) + Page(xs, b, offset + a) == Page(xs, a + b, offset)
  {
    var p, q, w := Page(xs, a, offset), Page(xs, b, offset + a), Page(xs, a + b, offset);
    assert |p + q| == |w|;
    forall i | 0 <= i < |w| ensures (p + q)[i] == w[i] {
      if i >= |p| {
        assert (p + q)[i] == q[i - |p|];
      }
    }
  }

  /** `SELECT … WHERE keep ORDER BY key LIMIT limit OFFSET offset` over the
      rows with ids in [1, hi): only matching rows of the table, in key
      order, at most `limit` of them, and exactly the window of the ordered
      matching rows that starts `offset` rows in. */
  function Query<R(==)>(m: map<int, R>, hi: int, keep: R -> bool, key: R -> int, limit: int, offset: int): (r: seq<R>)
    ensures forall x :: x in r ==> keep(x) && x in m.Values
    ensures forall x :: x in r ==> exists id :: 1 <= id < hi && id in m && m[id] == x
    ensures Sorted(r, key)
    ensures limit >= 0 ==> |r| <= limit
    ensures r == Page(SortBy(Select(m, 1, hi, keep), key), limit, offset)
  {
    var selected := Select(m, 1, hi, keep);
    var rows := SortBy(selected, key);
    PageOfSorted(rows, key, limit, offset);
    SortedRowsFromTable(m, hi, keep, key);
    Page(rows, limit, offset)
  }

  /** A page keeps the order of what it is cut from and holds nothing else. */
  lemma PageOfSorted<T>(xs: seq<T>, key: T -> int, limit: int, offset: int)
    requires Sorted(xs, key)
    ensures Sorted(Page(xs, limit, offset), key)
    ensures forall x :: x in Page(xs, limit, offset) ==> x in xs
  {
    var r := Page(xs, limit, offset);
    var o := if offset < 0 then 0 else offset;
    assert forall i :: 0 <= i < |r| ==> r[i] == xs[o + i];
  }

  lemma SortedRowsFromTable<R>(m: map<int, R>, hi: int, keep: R -> bool, key: R -> int)
    ensures forall x :: x in SortBy(Select(m, 1, hi, keep), key) ==> keep(x) && x in m.Values
    ensures forall x :: x in SortBy(Select(m, 1, hi, keep), key) ==> exists id :: 1 <= id < hi && id in m && m[id] == x
  {
    var selected := Select(m, 1, hi, keep);
    var rows := SortBy(selected, key);
    SortByKeeps(selected, key);
    forall x | x in rows ensures keep(x) && x in m.Values && exists id :: 1 <= id < hi && id in m && m[id] == x {
      assert x in selected;
      var id :| 1 <= id < hi && id in m && m[id] == x;
      assert m[id] in m.Values;
    }
  }

  /** Sorting adds no element. */
  lemma SortByKeeps<T>(xs: seq<T>, key: T -> int)
    ensures forall x :: x in SortBy(xs, key) ==> x in xs
  {
    forall x | x in SortBy(xs, key) ensures x in xs {
      assert x in multiset(SortBy(xs, key));
    }
  }

  /** Without LIMIT or OFFSET the query misses no matching row. */
  lemma QueryComplete<R>(m: map<int, R>, hi: int, keep: R -> bool, key: R -> int, id: int)
    requires 1 <= id < hi && id in m && keep(m[id])
    ensures m[id] in Query(m, hi, keep, key, -1, 0)
  {
    var selected := Select(m, 1, hi, keep);
    var rows := SortBy(selected, key);
    assert m[id] in multiset(selected);
    assert m[id] in multiset(rows);
    assert Page(rows, -1, 0) == rows;
  }

  /** A paged query is the window of the unpaged one: LIMIT and OFFSET only
      cut the ordered result, they never change which rows match or how
      they are ordered. */
  lemma QueryWindow<R>(m: map<int, R>, hi: int, keep: R -> bool, key: R -> int, limit: int, offset: int)
    ensures Query(m, hi, keep, key, limit, offset) == Page(Query(m, hi, keep, key, -1, 0), limit, offset)
  {
    var rows := SortBy(Select(m, 1, hi, keep), key);
    assert Page(rows, -1, 0) == rows;
  }

  /** Reading page after page misses and repeats nothing: two consecutive
      pages are the page that spans both. */
  lemma QueryPagesTile<R>(m: map<int, R>, hi: int, keep: R -> bool, key: R -> int, a: nat, b: nat, offset: nat)
    ensures Query(m, hi, keep, key, a, offset) + Query(m, hi, keep, key, b, offset + a)
         == Query(m, hi, keep, key, a + b, offset)
  {
    PagesTile(SortBy(Select(m, 1, hi, keep), key), a, b, offset);
  }
}
