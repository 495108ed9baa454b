/** Column sorting: the sort-state transition of a header click, the row
    comparator, and the sorted view derived from the data and the sort state. */
module Sorting {
  import opened Rows

  /** The sort state after a click on a column header. A column that is not
      sortable leaves the state alone; otherwise the column's dataIndex becomes
      the key, descending exactly when it was already the key in ascending order. */
  function NextSort(config: Option<SortConfig>, column: Column): (r: Option<SortConfig>)
    ensures !column.sortable ==> r == config
    ensures column.sortable ==> r.Some? && r.value.key == column.dataIndex
    ensures column.sortable ==>
      (r.value.direction == Desc <==> config == Some(SortConfig(column.dataIndex, Asc)))
  {
    if !column.sortable then config
    else
      var direction :=
        if config.Some? && config.value.key == column.dataIndex && config.value.direction == Asc
        then Desc else Asc;
      Some(SortConfig(column.dataIndex, direction))
  }

  /** The sort state after `n` clicks on the same column header. */
  function Clicks(config: Option<SortConfig>, column: Column, n: nat): (r: Option<SortConfig>)
  {
    if n == 0 then config else NextSort(Clicks(config, column, n - 1), column)
  }

  /** Repeated clicks on a sortable column alternate between ascending and
      descending and never return to "no sort": after n >= 1 clicks the
      direction is ascending exactly when n, plus one if the column was already
      sorted ascending, is odd. */
  lemma {:induction false} ClicksAlternate(config: Option<SortConfig>, column: Column, n: nat)
    requires column.sortable && n >= 1
    ensures
      var start := if config == Some(SortConfig(column.dataIndex, Asc)) then 1 else 0;
      Clicks(config, column, n) ==
        Some(SortConfig(column.dataIndex, if (n + start) % 2 == 1 then Asc else Desc))
  {
    if n > 1 {
      ClicksAlternate(config, column, n - 1);
    }
  }

  /** Two clicks on the sorted column give back the state before them. */
  lemma SortClickPeriodTwo(column: Column, direction: Direction)
    requires column.sortable
    ensures Clicks(Some(SortConfig(column.dataIndex, direction)), column, 2)
         == Some(SortConfig(column.dataIndex, direction))
  {
    ClicksAlternate(Some(SortConfig(column.dataIndex, direction)), column, 2);
  }

  /** The comparator handed to the sort: a null value goes after any other
      whatever the direction; equal values compare as 0; otherwise `>` decides,
      flipped for descending order. Two null values give 1 in either order.
      A result <= 0 puts `a` first in order, a positive one puts `b` first. */
  function Compare(a: Row, b: Row, key: Field, direction: Direction): (c: int)
    ensures c <= 0 ==> InOrder(a, b, key, direction)
    ensures c > 0 ==> InOrder(b, a, key, direction)
  {
    var valA := Get(a, key);
    var valB := Get(b, key);
    if valA.None? then 1
    else if valB.None? then -1
    else if valA.value == valB.value then 0
    else (if valA.value > valB.value then 1 else -1) * (if direction == Asc then 1 else -1)
  }

  /** `a` may stand before `b` in a view sorted on `key`: `b` holds null, or
      both hold values in the direction's order. */
  ghost predicate InOrder(a: Row, b: Row, key: Field, direction: Direction)
  {
    var valA := Get(a, key);
    var valB := Get(b, key);
    valB.None? ||
    (valA.Some? && if direction == Asc then valA.value <= valB.value else valA.value >= valB.value)
  }

  /** Every pair of rows, in positions i < j, is in order. */
  ghost predicate Sorted(rows: seq<Row>, key: Field, direction: Direction)
  {
    forall i, j :: 0 <= i < j < |rows| ==> InOrder(rows[i], rows[j], key, direction)
  }

  /** Every row with a value under `key` precedes every row holding null there. */
  ghost predicate NullsLast(rows: seq<Row>, key: Field)
  {
    forall i, j :: 0 <= i < |rows| && 0 <= j < |rows| && Get(rows[i], key).Some? && Get(rows[j], key).None? ==> i < j
  }

  /** The non-null values under `key` are non-decreasing (ascending) or
      non-increasing (descending). */
  ghost predicate ValuesOrdered(rows: seq<Row>, key: Field, direction: Direction)
  {
    forall i, j :: 0 <= i < j < |rows| && Get(rows[i], key).Some? && Get(rows[j], key).Some? ==>
      if direction == Asc then Get(rows[i], key).value <= Get(rows[j], key).value
      else Get(rows[i], key).value >= Get(rows[j], key).value
  }

  /** On two non-null values the comparator is antisymmetric, and a null value
      is greater than a non-null one in both argument orders. */
  lemma CompareConsistentOnValues(a: Row, b: Row, key: Field, direction: Direction)
    requires Get(a, key).Some? || Get(b, key).Some?
    ensures Compare(a, b, key, direction) == -Compare(b, a, key, direction)
    ensures Get(a, key).None? ==> Compare(a, b, key, direction) == 1
  {
  }

  /** On two null values the comparator is not antisymmetric: it answers 1 in
      both orders, so it does not fix any order among rows holding null. */
  lemma CompareInconsistentOnNulls(a: Row, b: Row, key: Field, direction: Direction)
    requires Get(a, key).None? && Get(b, key).None?
    ensures Compare(a, b, key, direction) == 1 && Compare(b, a, key, direction) == 1
  {
  }

  /** Sorted means exactly: nulls last, and the non-null values ordered. */
  lemma SortedMeans(rows: seq<Row>, key: Field, direction: Direction)
    ensures Sorted(rows, key, direction) <==> NullsLast(rows, key) && ValuesOrdered(rows, key, direction)
  {
  }

  /** A row in order before every row of a sorted list, put in front of it,
      gives a sorted list. */
  lemma SortedCons(x: Row, rows: seq<Row>, key: Field, direction: Direction)
    requires Sorted(rows, key, direction)
    requires forall y :: y in rows ==> InOrder(x, y, key, direction)
    ensures Sorted([x] + rows, key, direction)
  {
  }

  /** Inserts `x` into a list, before the first row the comparator does not
      place before it. */
  function Insert(x: Row, rows: seq<Row>, key: Field, direction: Direction): (r: seq<Row>)
    ensures multiset(r) == multiset(rows) + multiset{x}
    ensures Sorted(rows, key, direction) ==> Sorted(r, key, direction)
  {
    if rows == [] then [x]
    else if Compare(x, rows[0], key, direction) <= 0 then
      InsertFront(x, rows, key, direction);
      [x] + rows
    else
      var rest := Insert(x, rows[1..], key, direction);
      assert rows == [rows[0]] + rows[1..];
      InsertBehind(x, rows, rest, key, direction);
      [rows[0]] + rest
  }

  /** The front case of Insert: `x` in order before the head is in order
      before every row of a sorted list. */
  lemma InsertFront(x: Row, rows: seq<Row>, key: Field, direction: Direction)
    requires rows != [] && InOrder(x, rows[0], key, direction)
    ensures Sorted(rows, key, direction) ==> Sorted([x] + rows, key, direction)
  {
  }

  /** The other case of Insert: the head, in order before `x` and before the
      rest of a sorted list, stays in front of the rest with `x` inserted. */
  lemma InsertBehind(x: Row, rows: seq<Row>, rest: seq<Row>, key: Field, direction: Direction)
    requires rows != [] && InOrder(rows[0], x, key, direction)
    requires multiset(rest) == multiset(rows[1..]) + multiset{x}
    requires Sorted(rows[1..], key, direction) ==> Sorted(rest, key, direction)
    ensures Sorted(rows, key, direction) ==> Sorted([rows[0]] + rest, key, direction)
  {
    if Sorted(rows, key, direction) {
      var tail := rows[1..];
      assert Sorted(tail, key, direction) by {
        forall i, j | 0 <= i < j < |tail| ensures InOrder(tail[i], tail[j], key, direction) {
          assert tail[i] == rows[i + 1] && tail[j] == rows[j + 1];
        }
      }
      forall y | y in rest ensures InOrder(rows[0], y, key, direction) {
        assert y in multiset(rest);
        if y != x {
          assert y in multiset(tail);
          var k :| 0 <= k < |tail| && tail[k] == y;
          assert rows[k + 1] == y;
        }
      }
      SortedCons(rows[0], rest, key, direction);
    }
  }

  /** Insertion sort of the rows by the comparator. */
  function SortRows(rows: seq<Row>, key: Field, direction: Direction): (r: seq<Row>)
    ensures multiset(r) == multiset(rows)
    ensures Sorted(r, key, direction)
  {
    if rows == [] then []
    else
      assert rows == [rows[0]] + rows[1..];
      Insert(rows[0], SortRows(rows[1..], key, direction), key, direction)
  }

  /** The rows as displayed (`sortedData`): the data itself when there is no
      sort state, otherwise a sorted copy. The view is always a permutation of
      the data; when sorted, rows holding a value precede rows holding null in
      both directions, and the values are in the direction's order. */
  function SortedView(data: seq<Row>, config: Option<SortConfig>): (view: seq<Row>)
    ensures config.None? ==> view == data
    ensures multiset(view) == multiset(data) && |view| == |data|
    ensures config.Some? ==> NullsLast(view, config.value.key)
    ensures config.Some? ==> ValuesOrdered(view, config.value.key, config.value.direction)
  {
    if config.None? then data
    else
      var view := SortRows(data, config.value.key, config.value.direction);
      SortedMeans(view, config.value.key, config.value.direction);
      assert |multiset(view)| == |multiset(data)|;
      view
  }
}
