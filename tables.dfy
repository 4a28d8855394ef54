/** Generic operations on a table kept as a sequence of rows in insertion
    order, each row carrying its own nullable id. A query criterion is a
    value `c` read by a named matching function `m`. */
module Tables {
  import opened Common

  // ---------------------------------------------------------------- selection

  /** The rows that match, in table order (a derived query without ORDER BY). */
  function Filter<T, C>(rows: seq<T>, m: (T, C) -> bool, c: C): (r: seq<T>)
    ensures |r| <= |rows|
    ensures forall i :: 0 <= i < |r| ==> r[i] in rows && m(r[i], c)
    decreases |rows|
  {
    if rows == [] then []
    else
      var last := rows[|rows| - 1];
      Filter(rows[..|rows| - 1], m, c) + (if m(last, c) then [last] else [])
  }

  lemma FilterSnoc<T, C>(rows: seq<T>, x: T, m: (T, C) -> bool, c: C)
    ensures Filter(rows + [x], m, c) == Filter(rows, m, c) + (if m(x, c) then [x] else [])
  {
    assert (rows + [x])[..|rows|] == rows;
  }

  /** A row is selected exactly when it is in the table and matches. */
  lemma {:induction false} FilterMembers<T, C>(rows: seq<T>, m: (T, C) -> bool, c: C)
    ensures forall x :: x in Filter(rows, m, c) <==> x in rows && m(x, c)
    decreases |rows|
  {
    if rows != [] {
      var init := rows[..|rows| - 1];
      FilterMembers(init, m, c);
      assert rows == init + [rows[|rows| - 1]];
    }
  }

  /** Selection distributes over concatenation, so it keeps table order. */
  lemma {:induction false} FilterAppend<T, C>(a: seq<T>, b: seq<T>, m: (T, C) -> bool, c: C)
    ensures Filter(a + b, m, c) == Filter(a, m, c) + Filter(b, m, c)
    decreases |b|
  {
    if b == [] {
      assert a + b == a;
    } else {
      var init := b[..|b| - 1];
      var last := b[|b| - 1];
      assert a + b == (a + init) + [last];
      assert b == init + [last];
      FilterSnoc(a + init, last, m, c);
      FilterSnoc(init, last, m, c);
      FilterAppend(a, init, m, c);
    }
  }

  /** Nothing is removed when every row matches. */
  lemma {:induction false} FilterKeepsAll<T, C>(rows: seq<T>, m: (T, C) -> bool, c: C)
    requires forall i :: 0 <= i < |rows| ==> m(rows[i], c)
    ensures Filter(rows, m, c) == rows
    decreases |rows|
  {
    if rows != [] {
      var init := rows[..|rows| - 1];
      FilterKeepsAll(init, m, c);
      assert rows == init + [rows[|rows| - 1]];
    }
  }

  lemma FilterEmpty<T, C>(rows: seq<T>, m: (T, C) -> bool, c: C)
    ensures Filter(rows, m, c) == [] <==> forall i :: 0 <= i < |rows| ==> !m(rows[i], c)
  {
    FilterMembers(rows, m, c);
    if Filter(rows, m, c) != [] {
      var x := Filter(rows, m, c)[0];
      assert x in Filter(rows, m, c);
    }
  }

  // ---------------------------------------------------------------- keys

  predicate HasKey<T>(rows: seq<T>, key: T -> Option<int>, k: int) {
    exists i :: 0 <= i < |rows| && key(rows[i]) == Some(k)
  }

  /** `findById(k)`: the first row with that id. */
  function Get<T>(rows: seq<T>, key: T -> Option<int>, k: int): (r: Option<T>)
    ensures r.Some? <==> HasKey(rows, key, k)
    ensures r.Some? ==> r.value in rows && key(r.value) == Some(k)
    decreases |rows|
  {
    if rows == [] then None
    else if key(rows[0]) == Some(k) then Some(rows[0])
    else
      var r := Get(rows[1..], key, k);
      assert HasKey(rows[1..], key, k) ==> HasKey(rows, key, k) by {
        if HasKey(rows[1..], key, k) {
          var i :| 0 <= i < |rows[1..]| && key(rows[1..][i]) == Some(k);
          assert key(rows[i + 1]) == Some(k);
        }
      }
      assert HasKey(rows, key, k) ==> HasKey(rows[1..], key, k) by {
        if HasKey(rows, key, k) {
          var i :| 0 <= i < |rows| && key(rows[i]) == Some(k);
          assert i != 0;
          assert key(rows[1..][i - 1]) == Some(k);
        }
      }
      r
  }

  /** Every row has an id below `next`, and no two rows share one. */
  predicate KeysOk<T>(rows: seq<T>, key: T -> Option<int>, next: int) {
    && (forall i :: 0 <= i < |rows| ==> key(rows[i]).Some? && key(rows[i]).value < next)
    && (forall i, j :: 0 <= i < j < |rows| ==> key(rows[i]) != key(rows[j]))
  }

  /** When ids are distinct, the row `Get` returns is the only one with that id. */
  lemma GetUnique<T>(rows: seq<T>, key: T -> Option<int>, next: int, k: int, i: int)
    requires KeysOk(rows, key, next)
    requires 0 <= i < |rows| && key(rows[i]) == Some(k)
    ensures Get(rows, key, k) == Some(rows[i])
  {
    var r := Get(rows, key, k);
    var j :| 0 <= j < |rows| && rows[j] == r.value;
    if j < i {
      assert false;
    } else if i < j {
      assert false;
    }
  }

  /** Overwrite the row whose id is `k` (a merge of an existing entity). */
  function Overwrite<T>(rows: seq<T>, key: T -> Option<int>, k: int, x: T): (r: seq<T>)
    ensures |r| == |rows|
    ensures forall i :: 0 <= i < |rows| ==> r[i] == if key(rows[i]) == Some(k) then x else rows[i]
  {
    seq(|rows|, i requires 0 <= i < |rows| => if key(rows[i]) == Some(k) then x else rows[i])
  }

  /** Delete the rows whose id is `k`. */
  function Delete<T>(rows: seq<T>, key: T -> Option<int>, k: int): (r: seq<T>)
    ensures |r| <= |rows|
    ensures forall i :: 0 <= i < |r| ==> r[i] in rows && key(r[i]) != Some(k)
    decreases |rows|
  {
    if rows == [] then []
    else
      var init := rows[..|rows| - 1];
      var last := rows[|rows| - 1];
      assert rows == init + [last];
      Delete(init, key, k) + (if key(last) != Some(k) then [last] else [])
  }

  /** Deleting by id keeps every other row. */
  lemma {:induction false} DeleteMembers<T>(rows: seq<T>, key: T -> Option<int>, k: int)
    ensures forall x :: x in Delete(rows, key, k) <==> x in rows && key(x) != Some(k)
    decreases |rows|
  {
    if rows != [] {
      var init := rows[..|rows| - 1];
      DeleteMembers(init, key, k);
      assert rows == init + [rows[|rows| - 1]];
    }
  }

  lemma OverwriteKeysOk<T>(rows: seq<T>, key: T -> Option<int>, next: int, k: int, x: T)
    requires KeysOk(rows, key, next) && key(x) == Some(k) && k < next
    ensures KeysOk(Overwrite(rows, key, k, x), key, next)
  {
    var r := Overwrite(rows, key, k, x);
    forall i, j | 0 <= i < j < |r| ensures key(r[i]) != key(r[j]) {
      if key(rows[i]) == Some(k) {
        assert key(rows[j]) != Some(k);
      } else if key(rows[j]) == Some(k) {
        assert key(rows[i]) != Some(k);
      }
    }
  }

  lemma AppendKeysOk<T>(rows: seq<T>, key: T -> Option<int>, next: int, x: T)
    requires KeysOk(rows, key, next) && key(x) == Some(next)
    ensures KeysOk(rows + [x], key, next + 1)
  {
  }

  lemma KeysOkRaise<T>(rows: seq<T>, key: T -> Option<int>, next: int, next': int)
    requires KeysOk(rows, key, next) && next <= next'
    ensures KeysOk(rows, key, next')
  {
  }

  /** A table obtained by dropping rows keeps distinct ids. */
  lemma {:induction false} FilterKeysOk<T, C>(rows: seq<T>, key: T -> Option<int>, next: int, m: (T, C) -> bool, c: C)
    requires KeysOk(rows, key, next)
    ensures KeysOk(Filter(rows, m, c), key, next)
    decreases |rows|
  {
    if rows != [] {
      var init := rows[..|rows| - 1];
      var last := rows[|rows| - 1];
      assert KeysOk(init, key, next);
      FilterKeysOk(init, key, next, m, c);
      var f := Filter(init, m, c);
      forall i | 0 <= i < |f| ensures key(f[i]) != key(last) {
        var j :| 0 <= j < |init| && init[j] == f[i];
        assert rows[j] == f[i];
      }
    }
  }

  lemma {:induction false} DeleteKeysOk<T>(rows: seq<T>, key: T -> Option<int>, next: int, k: int)
    requires KeysOk(rows, key, next)
    ensures KeysOk(Delete(rows, key, k), key, next)
    decreases |rows|
  {
    if rows != [] {
      var init := rows[..|rows| - 1];
      var last := rows[|rows| - 1];
      assert KeysOk(init, key, next);
      DeleteKeysOk(init, key, next, k);
      var f := Delete(init, key, k);
      forall i | 0 <= i < |f| ensures key(f[i]) != key(last) {
        assert f[i] in init;
        var j :| 0 <= j < |init| && init[j] == f[i];
        assert rows[j] == f[i];
      }
    }
  }

  /** Overwriting a row with one of the same id keeps the set of ids. */
  lemma OverwriteHasKey<T>(rows: seq<T>, key: T -> Option<int>, k: int, x: T, j: int)
    requires key(x) == Some(k)
    ensures HasKey(Overwrite(rows, key, k, x), key, j) <==> HasKey(rows, key, j)
  {
    var r := Overwrite(rows, key, k, x);
    if HasKey(r, key, j) {
      var i :| 0 <= i < |r| && key(r[i]) == Some(j);
      assert key(rows[i]) == Some(j);
    }
    if HasKey(rows, key, j) {
      var i :| 0 <= i < |rows| && key(rows[i]) == Some(j);
      assert key(r[i]) == Some(j);
    }
  }

  /** After deleting id `k`, exactly the other ids remain. */
  lemma DeleteHasKey<T>(rows: seq<T>, key: T -> Option<int>, k: int, j: int)
    ensures HasKey(Delete(rows, key, k), key, j) <==> HasKey(rows, key, j) && j != k
  {
    var r := Delete(rows, key, k);
    DeleteMembers(rows, key, k);
    if HasKey(r, key, j) {
      var i :| 0 <= i < |r| && key(r[i]) == Some(j);
      assert r[i] in rows;
    }
    if HasKey(rows, key, j) && j != k {
      var i :| 0 <= i < |rows| && key(rows[i]) == Some(j);
      assert rows[i] in r;
    }
  }

  /** Dropping rows never introduces an id. */
  lemma FilterHasKey<T, C>(rows: seq<T>, key: T -> Option<int>, m: (T, C) -> bool, c: C, j: int)
    requires HasKey(Filter(rows, m, c), key, j)
    ensures HasKey(rows, key, j)
  {
    var r := Filter(rows, m, c);
    var i :| 0 <= i < |r| && key(r[i]) == Some(j);
    assert r[i] in rows;
  }

  /** Appending a row adds exactly its id. */
  lemma AppendHasKey<T>(rows: seq<T>, key: T -> Option<int>, x: T, j: int)
    ensures HasKey(rows + [x], key, j) <==> HasKey(rows, key, j) || key(x) == Some(j)
  {
    var r := rows + [x];
    if HasKey(rows, key, j) {
      var i :| 0 <= i < |rows| && key(rows[i]) == Some(j);
      assert key(r[i]) == Some(j);
    }
    if key(x) == Some(j) {
      assert key(r[|rows|]) == Some(j);
    }
  }

  /** Two matching positions give at least two hits, even for equal rows. */
  lemma {:induction false} TwoIndicesInFilter<T, C>(rows: seq<T>, m: (T, C) -> bool, c: C, i: int, j: int)
    requires 0 <= i < j < |rows| && m(rows[i], c) && m(rows[j], c)
    ensures |Filter(rows, m, c)| >= 2
    decreases |rows|
  {
    var init := rows[..|rows| - 1];
    var last := rows[|rows| - 1];
    assert Filter(rows, m, c) == Filter(init, m, c) + (if m(last, c) then [last] else []);
    if j == |rows| - 1 {
      assert init[i] == rows[i];
      FilterMembers(init, m, c);
      assert rows[i] in Filter(init, m, c);
    } else {
      assert init[i] == rows[i] && init[j] == rows[j];
      TwoIndicesInFilter(init, m, c, i, j);
    }
  }
}
