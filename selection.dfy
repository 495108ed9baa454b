/** Row selection: a list of rows in which membership is decided by row id. */
module Selection {
  import opened Rows

  /** The identifiers of the rows in a list. */
  ghost function Ids(rows: seq<Row>): set<Id>
  {
    set r | r in rows :: r.id
  }

  /** No two entries of the list share an identifier. */
  ghost predicate UniqueIds(rows: seq<Row>)
  {
    forall i, j :: 0 <= i < j < |rows| ==> rows[i].id != rows[j].id
  }

  /** Whether some row of the list has the given id (`rows.some(r => r.id === id)`). */
  function HasId(rows: seq<Row>, id: Id): (b: bool)
    ensures b <==> id in Ids(rows)
  {
    if rows == [] then false
    else
      assert rows == [rows[0]] + rows[1..];
      rows[0].id == id || HasId(rows[1..], id)
  }

  /** The list without its entries of the given id, the others kept in order
      (`rows.filter(r => r.id !== id)`). */
  function WithoutId(rows: seq<Row>, id: Id): (r: seq<Row>)
    ensures Ids(r) == Ids(rows) - {id}
    ensures |r| <= |rows|
  {
    if rows == [] then []
    else
      var rest := WithoutId(rows[1..], id);
      assert rows == [rows[0]] + rows[1..];
      IdsCons(rows[0], rows[1..]);
      if rows[0].id == id then rest
      else
        IdsCons(rows[0], rest);
        [rows[0]] + rest
  }

  /** Filtering keeps each entry with another id as often as it occurred and
      drops every entry with this id. */
  lemma {:induction false} WithoutIdCounts(rows: seq<Row>, id: Id, x: Row)
    ensures multiset(WithoutId(rows, id))[x] == if x.id == id then 0 else multiset(rows)[x]
  {
    if rows != [] {
      WithoutIdCounts(rows[1..], id, x);
      assert rows == [rows[0]] + rows[1..];
      assert multiset(rows) == multiset{rows[0]} + multiset(rows[1..]);
      if rows[0].id != id {
        var rest := WithoutId(rows[1..], id);
        assert multiset([rows[0]] + rest) == multiset{rows[0]} + multiset(rest);
      }
    }
  }

  /** The ids of a list with a row in front are that row's id and the rest's ids. */
  lemma IdsCons(head: Row, tail: seq<Row>)
    ensures Ids([head] + tail) == {head.id} + Ids(tail)
  {
    var s := [head] + tail;
    forall x | x in Ids(s) ensures x in {head.id} + Ids(tail) {
      var r :| r in s && r.id == x;
    }
    forall x | x in Ids(tail) ensures x in Ids(s) {
      var r :| r in tail && r.id == x;
      assert r in s;
    }
  }

  /** The selection after a click on `row`: every entry with the row's id is
      removed if there is one, otherwise the row is appended at the end. The
      click flips the membership of the row's id and leaves every other id as
      it was. */
  function Toggle(selected: seq<Row>, row: Row): (r: seq<Row>)
    ensures row.id in Ids(selected) ==> Ids(r) == Ids(selected) - {row.id}
    ensures row.id !in Ids(selected) ==> Ids(r) == Ids(selected) + {row.id}
  {
    if HasId(selected, row.id) then WithoutId(selected, row.id) else selected + [row]
  }

  /** Unique ids split into a head whose id is not among the tail's, and a tail with unique ids. */
  lemma UniqueIdsSplit(rows: seq<Row>)
    requires rows != []
    ensures UniqueIds(rows) <==> rows[0].id !in Ids(rows[1..]) && UniqueIds(rows[1..])
  {
  }

  /** Filtering a list with unique ids keeps its ids unique. */
  lemma {:induction false} WithoutIdKeepsUnique(rows: seq<Row>, id: Id)
    requires UniqueIds(rows)
    ensures UniqueIds(WithoutId(rows, id))
  {
    if rows != [] {
      var tail := rows[1..];
      UniqueIdsSplit(rows);
      WithoutIdKeepsUnique(tail, id);
      if rows[0].id != id {
        var s := [rows[0]] + WithoutId(tail, id);
        assert s[1..] == WithoutId(tail, id);
        UniqueIdsSplit(s);
      }
    }
  }

  /** A click keeps "no two entries share an id". */
  lemma ToggleKeepsUnique(selected: seq<Row>, row: Row)
    requires UniqueIds(selected)
    ensures UniqueIds(Toggle(selected, row))
  {
    if HasId(selected, row.id) {
      WithoutIdKeepsUnique(selected, row.id);
    } else {
      var s := selected + [row];
      forall i, j | 0 <= i < j < |s| ensures s[i].id != s[j].id {
        if j == |selected| {
          assert s[i] == selected[i];
          assert selected[i] in selected;
        }
      }
    }
  }

  /** Removing an id that is absent leaves the list as it is. */
  lemma {:induction false} WithoutAbsentId(rows: seq<Row>, id: Id)
    requires id !in Ids(rows)
    ensures WithoutId(rows, id) == rows
  {
    if rows != [] {
      assert rows == [rows[0]] + rows[1..];
      assert rows[0] in rows;
      WithoutAbsentId(rows[1..], id);
    }
  }

  /** Filtering distributes over concatenation. */
  lemma {:induction false} WithoutIdAppend(s: seq<Row>, t: seq<Row>, id: Id)
    ensures WithoutId(s + t, id) == WithoutId(s, id) + WithoutId(t, id)
  {
    if s != [] {
      assert (s + t)[1..] == s[1..] + t;
      assert (s + t)[0] == s[0];
      WithoutIdAppend(s[1..], t, id);
    } else {
      assert s + t == t;
    }
  }

  /** Clicking an unselected row twice gives back exactly the original list. */
  lemma ToggleTwiceFromUnselected(selected: seq<Row>, row: Row)
    requires row.id !in Ids(selected)
    ensures Toggle(Toggle(selected, row), row) == selected
  {
    assert row in selected + [row];
    WithoutIdAppend(selected, [row], row.id);
    WithoutAbsentId(selected, row.id);
    assert WithoutId([row], row.id) == [];
  }

  /** Clicking a selected row twice gives back the same ids: the entries with
      that id are replaced by the clicked row, now at the end of the list. */
  lemma ToggleTwiceFromSelected(selected: seq<Row>, row: Row)
    requires row.id in Ids(selected)
    ensures Toggle(Toggle(selected, row), row) == WithoutId(selected, row.id) + [row]
    ensures Ids(Toggle(Toggle(selected, row), row)) == Ids(selected)
  {
  }
}
