/** Tables as sequences of rows in storage order, and the selections the
    services run over them. SQL gives no order without ORDER BY; storage
    order is one order it may return, and the contracts below speak of
    membership, not position, wherever the source fixes no order. */
module Rows {
  import opened Js

  /** The rows that satisfy `keep`, in storage order: a WHERE clause. */
  function Where<T(!new)>(rows: seq<T>, keep: T -> bool): (r: seq<T>)
    ensures |r| <= |rows|
    ensures forall x :: x in r <==> x in rows && keep(x)
  {
    if rows == [] then []
    else
      var init, last := rows[..|rows| - 1], rows[|rows| - 1];
      assert rows == init + [last];
      Where(init, keep) + (if keep(last) then [last] else [])
  }

  /** `rows[0] || null` after a WHERE: the first matching row, if any. */
  function FirstWhere<T(!new)>(rows: seq<T>, keep: T -> bool): (r: Option<T>)
    ensures r.Some? <==> exists x :: x in rows && keep(x)
    ensures r.Some? ==> r.value in rows && keep(r.value)
  {
    var matching := Where(rows, keep);
    if matching == [] then None
    else
      assert matching[0] in matching;
      Some(matching[0])
  }

  /** The keys of `rows` strictly increase in storage order, as a serial
      primary key does when rows are only appended; so keys are unique. */
  ghost predicate Increasing<T>(rows: seq<T>, key: T -> int)
  {
    forall i, j :: 0 <= i < j < |rows| ==> key(rows[i]) < key(rows[j])
  }

  /** A WHERE clause keeps the key order of the rows it keeps. */
  lemma {:induction false} WhereKeepsIncreasing<T(!new)>(rows: seq<T>, keep: T -> bool, key: T -> int)
    ensures Increasing(rows, key) ==> Increasing(Where(rows, keep), key)
  {
    if rows != [] && Increasing(rows, key) {
      var init, last := rows[..|rows| - 1], rows[|rows| - 1];
      assert rows == init + [last];
      WhereKeepsIncreasing(init, keep, key);
      var w := Where(init, keep);
      forall x | x in w
        ensures key(x) < key(last)
      {
        var i :| 0 <= i < |init| && init[i] == x;
        assert rows[i] == x;
      }
    }
  }

  /** Two rows of a table with increasing keys that share a key are the same row. */
  lemma IncreasingKeysUnique<T>(rows: seq<T>, key: T -> int, x: T, y: T)
    requires Increasing(rows, key)
    requires x in rows && y in rows && key(x) == key(y)
    ensures x == y
  {
    var i :| 0 <= i < |rows| && rows[i] == x;
    var j :| 0 <= j < |rows| && rows[j] == y;
    assert !(i < j) && !(j < i);
  }

  /** A WHERE clause keeps the relative order of the rows it keeps: the i-th
      and j-th kept rows (i < j) sit at positions p < q of the input. */
  lemma {:induction false} WhereKeepsOrder<T(!new)>(rows: seq<T>, keep: T -> bool, i: nat, j: nat)
    requires i < j < |Where(rows, keep)|
    ensures exists p, q :: 0 <= p < q < |rows| && rows[p] == Where(rows, keep)[i] && rows[q] == Where(rows, keep)[j]
  {
    var init, last := rows[..|rows| - 1], rows[|rows| - 1];
    assert rows == init + [last];
    var w := Where(init, keep);
    if j < |w| {
      WhereKeepsOrder(init, keep, i, j);
      var p, q :| 0 <= p < q < |init| && init[p] == w[i] && init[q] == w[j];
      assert rows[p] == init[p] && rows[q] == init[q];
    } else {
      assert w[i] in w;
      var p :| 0 <= p < |init| && init[p] == w[i];
      assert rows[p] == Where(rows, keep)[i] && rows[|rows| - 1] == Where(rows, keep)[j];
    }
  }

  /** Appending a row whose key exceeds every key present keeps the order:
      the INSERT of a row with a fresh serial id. */
  lemma AppendKeepsIncreasing<T>(rows: seq<T>, x: T, key: T -> int)
    requires Increasing(rows, key)
    requires forall y :: y in rows ==> key(y) < key(x)
    ensures Increasing(rows + [x], key)
  {
    forall i, j | 0 <= i < j < |rows| + 1
      ensures key((rows + [x])[i]) < key((rows + [x])[j])
    {
      if j == |rows| {
        assert rows[i] in rows;
      }
    }
  }
}
