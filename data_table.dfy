/** The DataTable component: its props, its two pieces of state (the selected
    rows and the sort state) with the two event handlers that replace them, the
    derived sorted view, and the choice of what is rendered. */
module Table {
  import opened Rows
  import opened Selection
  import opened Sorting

  /** What the component renders. */
  datatype Rendered = LoadingIndicator | EmptyIndicator | RowTable(rows: seq<Row>)

  /** Loading takes precedence over an empty data set, and an empty data set
      over the table of (sorted) rows. */
  function RenderChoice(loading: bool, data: seq<Row>, view: seq<Row>): (r: Rendered)
    ensures r.LoadingIndicator? <==> loading
    ensures r.EmptyIndicator? <==> !loading && data == []
    ensures r.RowTable? <==> !loading && data != []
    ensures r.RowTable? ==> r.rows == view
  {
    if loading then LoadingIndicator
    else if |data| == 0 then EmptyIndicator
    else RowTable(view)
  }

  class DataTable {
    // props
    const data: seq<Row>
    const columns: seq<Column>
    const loading: bool
    const selectable: bool
    /** Whether an onRowSelect callback was supplied. */
    const hasOnRowSelect: bool

    // state
    var selectedRows: seq<Row>
    var sortConfig: Option<SortConfig>
    /** Every selection handed to onRowSelect so far, oldest first. */
    var reported: seq<seq<Row>>

    /** The component's invariant: no two selected rows share an id; nothing is
        selected or reported when rows are not selectable; the caller's last
        reported selection is the current one; a sort state names the
        dataIndex of a sortable column. */
    ghost predicate Valid()
      reads this
    {
      && UniqueIds(selectedRows)
      && (!selectable ==> selectedRows == [] && reported == [])
      && (!hasOnRowSelect ==> reported == [])
      && (hasOnRowSelect ==>
            if reported == [] then selectedRows == [] else reported[|reported| - 1] == selectedRows)
      && (sortConfig.Some? ==>
            exists c :: c in columns && c.sortable && c.dataIndex == sortConfig.value.key)
    }

    /** A freshly mounted table: nothing selected, no sort, nothing reported. */
    constructor (data: seq<Row>, columns: seq<Column>, loading: bool, selectable: bool, hasOnRowSelect: bool)
      ensures Valid()
      ensures this.data == data && this.columns == columns && this.loading == loading
      ensures this.selectable == selectable && this.hasOnRowSelect == hasOnRowSelect
      ensures selectedRows == [] && sortConfig == None && reported == []
    {
      this.data := data;
      this.columns := columns;
      this.loading := loading;
      this.selectable := selectable;
      this.hasOnRowSelect := hasOnRowSelect;
      selectedRows := [];
      sortConfig := None;
      reported := [];
    }

    /** A click on a row. Without `selectable` nothing changes. Otherwise the
        selection is toggled by the row's id and the whole new selection, not a
        delta, is handed to onRowSelect when one is supplied. */
    method HandleRowClick(row: Row)
      requires Valid()
      modifies this`selectedRows, this`reported
      ensures Valid()
      ensures !selectable ==> selectedRows == old(selectedRows) && reported == old(reported)
      ensures selectable && row.id in old(Ids(selectedRows)) ==>
        selectedRows == WithoutId(old(selectedRows), row.id) && row.id !in Ids(selectedRows)
      ensures selectable && row.id !in old(Ids(selectedRows)) ==>
        selectedRows == old(selectedRows) + [row]
      ensures selectable ==> selectedRows == Toggle(old(selectedRows), row)
      ensures selectable ==>
        reported == old(reported) + if hasOnRowSelect then [selectedRows] else []
    {
      if !selectable {
        return;
      }

      var isSelected := HasId(selectedRows, row.id);
      var updatedRows: seq<Row> := [];

      if isSelected {
        updatedRows := WithoutId(selectedRows, row.id);
      } else {
        // the `[row]` alternative is never taken: `selectable` holds here
        updatedRows := if selectable then selectedRows + [row] else [row];
      }

      ToggleKeepsUnique(selectedRows, row);
      selectedRows := updatedRows;
      if hasOnRowSelect {
        reported := reported + [updatedRows];
      }
    }

    /** A click on a column header: the sort state moves to NextSort. */
    method HandleSort(column: Column)
      requires Valid()
      requires column in columns
      modifies this`sortConfig
      ensures Valid()
      ensures !column.sortable ==> sortConfig == old(sortConfig)
      ensures column.sortable ==>
        sortConfig == Some(SortConfig(column.dataIndex,
          if old(sortConfig) == Some(SortConfig(column.dataIndex, Asc)) then Desc else Asc))
      ensures sortConfig == NextSort(old(sortConfig), column)
    {
      if !column.sortable {
        return;
      }

      var direction := Asc;
      if sortConfig.Some? && sortConfig.value.key == column.dataIndex && sortConfig.value.direction == Asc {
        direction := Desc;
      }

      sortConfig := Some(SortConfig(column.dataIndex, direction));
    }

    /** The rows in display order (`sortedData`): the data itself while no sort
        is set, otherwise a permutation of it with nulls last and the values in
        the sort direction's order; `data` is never changed. */
    function SortedData(): (view: seq<Row>)
      reads this
      ensures sortConfig.None? ==> view == data
      ensures multiset(view) == multiset(data)
      ensures sortConfig.Some? ==> NullsLast(view, sortConfig.value.key)
      ensures sortConfig.Some? ==> ValuesOrdered(view, sortConfig.value.key, sortConfig.value.direction)
    {
      SortedView(data, sortConfig)
    }

    /** What the component renders in its current state: the loading
        indicator while loading, the empty-state indicator for no data, and
        otherwise the table of all the rows in display order. */
    function Render(): (r: Rendered)
      reads this
      ensures r.LoadingIndicator? <==> loading
      ensures r.EmptyIndicator? <==> !loading && data == []
      ensures r.RowTable? ==> multiset(r.rows) == multiset(data) && r.rows == SortedData()
    {
      RenderChoice(loading, data, SortedData())
    }
  }

  /** Selecting one row and then another reports the whole selection each
      time; a second click on the first row deselects it; and header clicks on
      one sortable column go ascending, descending, ascending. */
  method TableScenario()
  {
    var alice := Row(NumId(1), map["age" := Some(30)]);
    var bob := Row(NumId(2), map["age" := None]);
    var ageColumn := Column("age", "Age", "age", true);
    var table := new DataTable([alice, bob], [ageColumn], false, true, true);

    table.HandleRowClick(alice);
    assert table.selectedRows == [alice];
    assert table.reported == [[alice]];
    table.HandleRowClick(bob);
    assert table.selectedRows == [alice, bob];
    assert table.reported == [[alice], [alice, bob]];
    table.HandleRowClick(alice);
    assert table.selectedRows == [bob];

    table.HandleSort(ageColumn);
    assert table.sortConfig == Some(SortConfig("age", Asc));
    table.HandleSort(ageColumn);
    assert table.sortConfig == Some(SortConfig("age", Desc));
    table.HandleSort(ageColumn);
    assert table.sortConfig == Some(SortConfig("age", Asc));

    assert table.Render().RowTable?;
  }
}
