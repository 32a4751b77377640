/** ORDER BY: the arrangement of a set of rows under a strict order. */
module Ordering {

  /** `before` is a strict total order on `rows`. */
  ghost predicate Orders<T(!new)>(before: (T, T) -> bool, rows: set<T>) {
    && (forall a, b :: a in rows && b in rows ==> (before(a, b) ==> !before(b, a)))
    && (forall a, b :: a in rows && b in rows && a != b ==> before(a, b) || before(b, a))
    && (forall a, b, c :: a in rows && b in rows && c in rows && before(a, b) && before(b, c) ==> before(a, c))
  }

  predicate IsFirst<T(!new, ==)>(before: (T, T) -> bool, rows: set<T>, a: T) {
    a in rows && forall b <- rows :: b != a ==> before(a, b)
  }

  lemma {:induction false} FirstExists<T(!new)>(before: (T, T) -> bool, rows: set<T>) returns (a: T)
    requires Orders(before, rows) && rows != {}
    ensures IsFirst(before, rows, a)
    decreases |rows|
  {
    a :| a in rows;
    if rows != {a} {
      assert |rows - {a}| < |rows|;
      var b := FirstExists(before, rows - {a});
      if before(b, a) { a := b; }
    }
  }

  lemma FirstIsUnique<T(!new)>(before: (T, T) -> bool, rows: set<T>, a: T, b: T)
    requires Orders(before, rows) && IsFirst(before, rows, a) && IsFirst(before, rows, b)
    ensures a == b
  {}

  function First<T(!new, ==)>(before: (T, T) -> bool, rows: set<T>): (a: T)
    requires Orders(before, rows) && rows != {}
    ensures IsFirst(before, rows, a)
  {
    assert exists a :: IsFirst(before, rows, a) by { var a := FirstExists(before, rows); }
    var a :| a in rows && IsFirst(before, rows, a);
    a
  }

  /** The rows in order, each once. */
  ghost predicate Arranged<T(!new)>(before: (T, T) -> bool, rows: set<T>, list: seq<T>) {
    && (forall i, j :: 0 <= i < j < |list| ==> before(list[i], list[j]))
    && (forall a :: a in rows <==> a in list)
  }

  lemma ConsArranged<T(!new)>(before: (T, T) -> bool, rows: set<T>, a: T, tail: seq<T>)
    requires IsFirst(before, rows, a) && Arranged(before, rows - {a}, tail)
    ensures Arranged(before, rows, [a] + tail)
  {
    var list := [a] + tail;
    forall i, j | 0 <= i < j < |list| ensures before(list[i], list[j]) {
      assert list[j] == tail[j - 1] && tail[j - 1] in tail;
      if i != 0 { assert list[i] == tail[i - 1]; }
    }
    forall b ensures b in rows <==> b in list {
      assert b in list <==> b == a || b in tail;
    }
  }

  function Arrange<T(!new, ==)>(before: (T, T) -> bool, rows: set<T>): (list: seq<T>)
    requires Orders(before, rows)
    ensures Arranged(before, rows, list)
    decreases |rows|
  {
    if rows == {} then [] else
    var a := First(before, rows);
    assert |rows - {a}| < |rows|;
    ConsArranged(before, rows, a, Arrange(before, rows - {a}));
    [a] + Arrange(before, rows - {a})
  }

  /** A cursor over `all`: `passed` has been handed out, the rows in `rest` are still to come. */
  ghost predicate Cursor<T(!new)>(before: (T, T) -> bool, all: seq<T>, passed: seq<T>, rest: set<T>) {
    Orders(before, rest) && all == passed + Arrange(before, rest)
  }

  // rows.Next() and the scan of the row.
  method FetchNext<T(!new, ==)>(before: (T, T) -> bool, ghost all: seq<T>, ghost passed: seq<T>, rest: set<T>)
    returns (row: T, left: set<T>)
    requires Cursor(before, all, passed, rest) && rest != {}
    ensures Cursor(before, all, passed + [row], left) && |left| < |rest|
  {
    row := First(before, rest);
    left := rest - {row};
    assert |left| < |rest|;
    assert Arrange(before, rest) == [row] + Arrange(before, left);
  }

  // What follows the first row arranges the others.
  lemma TailArranged<T(!new)>(before: (T, T) -> bool, rows: set<T>, list: seq<T>)
    requires Orders(before, rows) && Arranged(before, rows, list) && list != []
    ensures IsFirst(before, rows, list[0]) && Arranged(before, rows - {list[0]}, list[1..])
  {
    var a, tail := list[0], list[1..];
    assert list == [a] + tail;
    forall b | b in tail ensures before(a, b) {
      var j :| 0 <= j < |tail| && tail[j] == b;
      assert list[j + 1] == b;
    }
    assert a in rows;
    assert a !in tail;
    forall b ensures b in rows - {a} <==> b in tail {
      assert b in list <==> b == a || b in tail;
    }
    forall i, j | 0 <= i < j < |tail| ensures before(tail[i], tail[j]) {
      assert tail[i] == list[i + 1] && tail[j] == list[j + 1];
    }
  }

  /** There is only one arrangement. */
  lemma {:induction false} ArrangedIsUnique<T(!new)>(before: (T, T) -> bool, rows: set<T>, list: seq<T>)
    requires Orders(before, rows) && Arranged(before, rows, list)
    ensures list == Arrange(before, rows)
    decreases |list|
  {
    if list == [] {
      assert forall a :: a in rows ==> a in list;
    } else {
      var a := list[0];
      TailArranged(before, rows, list);
      FirstIsUnique(before, rows, a, First(before, rows));
      ArrangedIsUnique(before, rows - {a}, list[1..]);
      assert list == [a] + list[1..];
    }
  }
}
