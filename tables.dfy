/** Tables of the relational store: rows carry an integer primary key and are kept
    in insertion (rowid) order, which is also the order a query without ORDER BY
    scans them in. */
module Tables {
  import opened Errors

  datatype Row<T> = Row(id: int, data: T)

  /** The key at position `i` is positive and below the key at the later position `j`. */
  ghost predicate KeyOrdered<T>(rows: seq<Row<T>>, i: int, j: int) {
    0 <= i < j < |rows| ==> 0 < rows[i].id < rows[j].id
  }

  /** Primary keys are positive and grow along the table, as rowids handed out by
      `max(rowid) + 1` do; in particular no key occurs twice. */
  ghost predicate KeysAscending<T>(rows: seq<Row<T>>) {
    && (rows != [] ==> rows[0].id > 0)
    && (forall i, j {:trigger KeyOrdered(rows, i, j)} :: KeyOrdered(rows, i, j))
  }

  lemma KeyPositive<T>(rows: seq<Row<T>>, i: int)
    requires KeysAscending(rows) && 0 <= i < |rows|
    ensures rows[i].id > 0
  {
    if i > 0 { assert KeyOrdered(rows, 0, i); }
  }

  lemma PrefixAscending<T>(rows: seq<Row<T>>, n: nat)
    requires KeysAscending(rows) && n <= |rows|
    ensures KeysAscending(rows[..n])
  {
    forall i, j ensures KeyOrdered(rows[..n], i, j) {
      assert KeyOrdered(rows, i, j);
    }
  }

  /** The largest key of the table, 0 for an empty table. */
  function MaxKey<T>(rows: seq<Row<T>>): (m: int)
    ensures m >= 0
    ensures forall x :: x in rows ==> x.id <= m
    ensures rows == [] ==> m == 0
    ensures m == 0 || exists x :: x in rows && x.id == m
    decreases |rows|
  {
    if rows == [] then 0
    else
      var rest := MaxKey(rows[1..]);
      if rows[0].id > rest then rows[0].id else rest
  }

  /** The key the store gives the next row inserted into the table. */
  function NextId<T>(rows: seq<Row<T>>): (id: int)
    ensures id > 0
    ensures forall x :: x in rows ==> x.id < id
  {
    MaxKey(rows) + 1
  }

  /** The first row with key `id`, as `query(...).filter(id == ...).first()` finds it. */
  function Find<T>(rows: seq<Row<T>>, id: int): (r: Option<Row<T>>)
    ensures r.Some? ==> r.value in rows && r.value.id == id
    ensures r.None? <==> forall x :: x in rows ==> x.id != id
    decreases |rows|
  {
    if rows == [] then None
    else if rows[0].id == id then Some(rows[0])
    else Find(rows[1..], id)
  }

  /** Appending a row never changes what an earlier row's key finds. */
  lemma {:induction false} FindAppend<T>(rows: seq<Row<T>>, x: Row<T>, id: int)
    ensures Find(rows + [x], id) ==
      if Find(rows, id).Some? then Find(rows, id) else if x.id == id then Some(x) else None
    decreases |rows|
  {
    if rows != [] {
      assert (rows + [x])[1..] == rows[1..] + [x];
      FindAppend(rows[1..], x, id);
    }
  }

  /** With unique keys, the row a key finds is the one row that carries it. */
  lemma {:induction false} FindUnique<T>(rows: seq<Row<T>>, x: Row<T>)
    requires KeysAscending(rows)
    requires x in rows
    ensures Find(rows, x.id) == Some(x)
    decreases |rows|
  {
    if rows[0] != x {
      var j :| 0 <= j < |rows| && rows[j] == x;
      assert KeyOrdered(rows, 0, j);
      var tail := rows[1..];
      forall i, k ensures KeyOrdered(tail, i, k) {
        assert KeyOrdered(rows, i + 1, k + 1);
      }
      if tail != [] {
        assert KeyOrdered(rows, 0, 1);
      }
      FindUnique(tail, x);
    }
  }

  /** A row keyed by `NextId` can be appended without breaking key order. */
  lemma AppendNext<T>(rows: seq<Row<T>>, x: Row<T>)
    requires KeysAscending(rows)
    requires x.id == NextId(rows)
    ensures KeysAscending(rows + [x])
  {
    var t := rows + [x];
    forall i, j ensures KeyOrdered(t, i, j) {
      if 0 <= i < j < |t| {
        KeyPositive(rows, i);
        if j < |rows| {
          assert KeyOrdered(rows, i, j);
        } else {
          assert t[i] in rows;
        }
      }
    }
  }

  /** `a` is `b` with some elements left out and the rest kept in order. */
  predicate IsSubsequence<T(==)>(a: seq<T>, b: seq<T>)
    decreases |b|
  {
    || a == []
    || (&& b != []
        && (|| (a[|a| - 1] == b[|b| - 1] && IsSubsequence(a[..|a| - 1], b[..|b| - 1]))
            || IsSubsequence(a, b[..|b| - 1])))
  }

  /** The elements of `xs` that satisfy `keep`, in their order in `xs`: the rows a
      WHERE clause selects. */
  function Filter<T(==,!new)>(xs: seq<T>, keep: T -> bool): (r: seq<T>)
    ensures forall x :: x in r <==> x in xs && keep(x)
    ensures IsSubsequence(r, xs)
    decreases |xs|
  {
    if xs == [] then []
    else
      var init := Filter(xs[..|xs| - 1], keep);
      assert xs == xs[..|xs| - 1] + [xs[|xs| - 1]];
      if keep(xs[|xs| - 1]) then
        assert (init + [xs[|xs| - 1]])[..|init|] == init;
        init + [xs[|xs| - 1]]
      else init
  }

  /** Selecting from a concatenation selects from each part. */
  /** Filtering one more row of a table extends the filtered prefix by that row
      exactly when the row is kept. */
  lemma FilterExtend<T(!new)>(xs: seq<T>, n: nat, keep: T -> bool)
    requires n < |xs|
    ensures Filter(xs[..n + 1], keep) == Filter(xs[..n], keep) + (if keep(xs[n]) then [xs[n]] else [])
  {
    assert xs[..n + 1][..n] == xs[..n];
  }

  lemma {:induction false} FilterConcat<T(!new)>(xs: seq<T>, ys: seq<T>, keep: T -> bool)
    ensures Filter(xs + ys, keep) == Filter(xs, keep) + Filter(ys, keep)
    decreases |ys|
  {
    if ys != [] {
      var n := |ys| - 1;
      var zs := xs + ys;
      assert zs[..|zs| - 1] == xs + ys[..n];
      assert zs[|zs| - 1] == ys[n];
      FilterConcat(xs, ys[..n], keep);
      assert Filter(zs, keep) == Filter(xs + ys[..n], keep) + (if keep(ys[n]) then [ys[n]] else []);
      assert Filter(ys, keep) == Filter(ys[..n], keep) + (if keep(ys[n]) then [ys[n]] else []);
      var tail := if keep(ys[n]) then [ys[n]] else [];
      assert Filter(xs, keep) + Filter(ys[..n], keep) + tail == Filter(xs, keep) + (Filter(ys[..n], keep) + tail);
    } else {
      assert xs + ys == xs;
    }
  }

  /** A subsequence of a table keeps its key order. */
  lemma {:induction false} SubsequenceAscending<T>(a: seq<Row<T>>, b: seq<Row<T>>)
    requires IsSubsequence(a, b)
    requires KeysAscending(b)
    ensures KeysAscending(a)
    decreases |b|
  {
    if a != [] {
      var b' := b[..|b| - 1];
      PrefixAscending(b, |b| - 1);
      if a[|a| - 1] == b[|b| - 1] && IsSubsequence(a[..|a| - 1], b') {
        var a' := a[..|a| - 1];
        SubsequenceAscending(a', b');
        SubsequenceMembers(a', b');
        KeyPositive(b, |b| - 1);
        forall i, j ensures KeyOrdered(a, i, j) {
          if 0 <= i < j < |a| {
            if j == |a| - 1 {
              assert a[i] == a'[i] && a'[i] in b';
              var m :| 0 <= m < |b'| && b'[m] == a[i];
              assert KeyOrdered(b, m, |b| - 1);
            } else {
              assert KeyOrdered(a', i, j);
            }
          }
        }
        if |a| > 1 {
          assert a[0] == a'[0];
        }
      } else {
        SubsequenceAscending(a, b');
      }
    }
  }

  /** Every element of a subsequence occurs in the sequence. */
  lemma {:induction false} SubsequenceMembers<T>(a: seq<T>, b: seq<T>)
    requires IsSubsequence(a, b)
    ensures forall x :: x in a ==> x in b
    decreases |b|
  {
    if a != [] {
      var b' := b[..|b| - 1];
      assert b == b' + [b[|b| - 1]];
      if a[|a| - 1] == b[|b| - 1] && IsSubsequence(a[..|a| - 1], b') {
        SubsequenceMembers(a[..|a| - 1], b');
        assert a == a[..|a| - 1] + [a[|a| - 1]];
      } else {
        SubsequenceMembers(a, b');
      }
    }
  }

  /** A WHERE clause every row satisfies selects the whole table. */
  lemma {:induction false} FilterAll<T(!new)>(xs: seq<T>, keep: T -> bool)
    requires forall x :: x in xs ==> keep(x)
    ensures Filter(xs, keep) == xs
    decreases |xs|
  {
    if xs != [] {
      var n := |xs| - 1;
      assert forall x :: x in xs[..n] ==> x in xs;
      FilterAll(xs[..n], keep);
      assert xs == xs[..n] + [xs[n]];
    }
  }

  /** A WHERE clause no row satisfies selects nothing. */
  lemma {:induction false} FilterNone<T(!new)>(xs: seq<T>, keep: T -> bool)
    requires forall x :: x in xs ==> !keep(x)
    ensures Filter(xs, keep) == []
    decreases |xs|
  {
    if xs != [] {
      var n := |xs| - 1;
      assert forall x :: x in xs[..n] ==> x in xs;
      assert xs[n] in xs;
      FilterNone(xs[..n], keep);
    }
  }
}
