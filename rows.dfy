/** The values a DataTable works on: rows, column descriptors and the sort state. */
module Rows {

  datatype Option<+T> = None | Some(value: T)

  /** A row identifier is a string or a number; two ids match only when they
      have the same kind and the same value (strict equality). */
  datatype Id = NumId(n: int) | StrId(s: string)

  /** The name of a row attribute, as used by a column's dataIndex. */
  type Field = string

  /** A row: its identifier and its other attributes. An attribute that is
      missing, null or undefined reads as None; every present value belongs to
      one totally ordered value type, here `int`. */
  datatype Row = Row(id: Id, fields: map<Field, Option<int>>)

  /** The value a row holds under a key (`row[key]`), None when it is absent. */
  function Get(row: Row, key: Field): Option<int>
  {
    if key in row.fields then row.fields[key] else None
  }

  /** A column descriptor: `key` names the header, `dataIndex` the attribute shown. */
  datatype Column = Column(key: string, title: string, dataIndex: Field, sortable: bool)

  datatype Direction = Asc | Desc

  /** The active sort: the attribute sorted on and the direction. */
  datatype SortConfig = SortConfig(key: Field, direction: Direction)
}
