# DataTable state model

A Dafny model of the state handling in the `DataTable` React component
(`src/components/DataTable/DataTable.tsx`): the row-selection toggle
(`handleRowClick`), the sort-state transition on a header click
(`handleSort`), the sorted view derived from the data and the sort state
(`sortedData` and its comparator), and the choice between the loading
indicator, the empty-state indicator and the table.

Layout:

- `rows.dfy` (module `Rows`): rows (an id and a map of attributes whose
  values are `Option<int>`, None standing for null, undefined or absent),
  column descriptors, the sort direction and the sort state.
- `selection.dfy` (module `Selection`): `rows.some(r => r.id === id)` as
  `HasId`, `rows.filter(r => r.id !== id)` as `WithoutId`, the click
  transition `Toggle`, and the lemmas about them.
- `sorting.dfy` (module `Sorting`): the header-click transition `NextSort`,
  the comparator `Compare` exactly as written, a reference ordering
  `InOrder`/`Sorted` with its two readings `NullsLast` and `ValuesOrdered`,
  and the sorted view `SortedView`.
- `data_table.dfy` (module `Table`): the component as a class. Props are
  `const` fields. The state is in three `var` fields: `selectedRows`,
  `sortConfig` and `reported`, the list of selections handed to
  `onRowSelect`. The two handlers are methods. `Valid()` is the component's
  invariant. `TableScenario` replays a short click sequence against the
  contracts.

Points where the code differs from what one might expect of a selectable,
sortable table:

- The selection is an ordered list, not a set. Deselecting and reselecting a
  row gives back the same ids but moves the row to the end of the list, and
  the entry stored is the clicked row object. Only a row that was not
  selected comes back to exactly the original list after two clicks.
- The sort uses the engine's `Array.prototype.sort` with the comparator at
  lines 46-55, not a stable sort chosen by the component. That comparator is
  not consistent as soon as a row holds null under the sort key: it answers
  1 for two null values in both argument orders, and 1 when a null row is
  compared with itself. For such data the ECMAScript specification of
  `Array.prototype.sort` leaves the whole resulting order
  implementation-defined, not just the order among null rows. The model sorts
  with an insertion sort driven by that comparator; see "Left out".
- In `handleRowClick` the alternative `[row]` at line 24 can never be taken,
  because line 16 has already returned when `selectable` is false. The model
  keeps the expression as written, and `HandleRowClick`'s contract shows that
  a new row is always appended.

## Model

| member | source | states |
|---|---|---|
| `Selection.HasId` | src/components/DataTable/DataTable.tsx:18 | the `some` test is true exactly when the id is among the ids of the list |
| `Selection.WithoutId` | src/components/DataTable/DataTable.tsx:22 | the filtered list's ids are the old ids minus this one, and it is no longer than the original |
| `Selection.WithoutIdCounts` | src/components/DataTable/DataTable.tsx:22 | the filtered list holds every entry with another id exactly as often as before and no entry with this id |
| `Selection.Toggle` | src/components/DataTable/DataTable.tsx:18-25 | a click removes the clicked row's id from the selection's ids if it was there and adds it otherwise; every other id is unaffected (its exact list is stated by `Table.DataTable.HandleRowClick`, the uniqueness and round trips by the lemmas below) |
| `Selection.WithoutIdKeepsUnique` | src/components/DataTable/DataTable.tsx:22 | filtering out an id keeps "no two entries share an id" |
| `Selection.ToggleKeepsUnique` | src/components/DataTable/DataTable.tsx:14-25 | a click keeps "no two entries share an id", in both branches |
| `Selection.ToggleTwiceFromUnselected` | src/components/DataTable/DataTable.tsx:18-25 | two clicks on a row that was not selected give back exactly the original list |
| `Selection.ToggleTwiceFromSelected` | src/components/DataTable/DataTable.tsx:18-25 | two clicks on a selected row give back the same ids, with the entries of that id replaced by the clicked row at the end |
| `Table.DataTable.constructor` | src/components/DataTable/DataTable.tsx:11-12 | a mounted table starts with an empty selection, no sort state and nothing reported, and satisfies the invariant |
| `Table.DataTable.HandleRowClick` | src/components/DataTable/DataTable.tsx:15-29 | without `selectable` neither the selection nor the reported history changes; otherwise the selection loses the row's id if it had it and gains the row at the end if not, no id is duplicated, and the whole new selection (never a delta) is appended to what onRowSelect received when a callback is supplied |
| `Sorting.NextSort` | src/components/DataTable/DataTable.tsx:32-41 | a non-sortable column leaves the sort state unchanged; a sortable one sets the key to its `dataIndex`, descending exactly when the state was that key ascending |
| `Sorting.ClicksAlternate` | src/components/DataTable/DataTable.tsx:35-40 | n >= 1 clicks on one sortable column leave a sort on that column, never "no sort", and the direction alternates with the parity of n starting from the previous state |
| `Sorting.SortClickPeriodTwo` | src/components/DataTable/DataTable.tsx:35-40 | two clicks on the column already sorted on give back the same sort state |
| `Table.DataTable.HandleSort` | src/components/DataTable/DataTable.tsx:32-41 | the new sort state is `NextSort` of the old one, the selection is untouched, and the sort key stays the `dataIndex` of a sortable column |
| `Sorting.Compare` | src/components/DataTable/DataTable.tsx:46-55 | a comparator result <= 0 puts the first row in order before the second under the reference ordering `InOrder` (null last, values by direction), a positive one the second before the first |
| `Sorting.CompareConsistentOnValues` | src/components/DataTable/DataTable.tsx:50-54 | when at least one value is non-null the comparator is antisymmetric, and a null value compares greater than a non-null one whatever the direction |
| `Sorting.CompareInconsistentOnNulls` | src/components/DataTable/DataTable.tsx:50 | two null values compare as 1 in both argument orders, so the comparator fixes no order among them |
| `Sorting.SortedMeans` | src/components/DataTable/DataTable.tsx:50-54 | a list is in comparator order exactly when its non-null rows precede its null rows and its non-null values follow the direction |
| `Sorting.SortRows` | src/components/DataTable/DataTable.tsx:46-55 | sorting a copy with the comparator yields a permutation of the rows that is in comparator order |
| `Sorting.SortedView` | src/components/DataTable/DataTable.tsx:43-56 | with no sort state the view is the data unchanged; otherwise it is a permutation of the data in which every row with a value precedes every null row in both directions and the values are non-decreasing (ascending) or non-increasing (descending) |
| `Table.RenderChoice` | src/components/DataTable/DataTable.tsx:58-72 | loading takes precedence over empty data, empty data over the table, and the table shows the sorted view |
| `Table.DataTable.SortedData` | src/components/DataTable/DataTable.tsx:43-56 | the component's current view: the data itself while no sort is set, otherwise a permutation of the data with null rows last and values in the stored direction's order |
| `Table.DataTable.Render` | src/components/DataTable/DataTable.tsx:58-72 | in the component's current state, the loading indicator exactly while loading, the empty-state indicator exactly for empty data when not loading, and otherwise a table of all the rows in display order |

## Left out

- The engine's sort algorithm and its stability: the sort is modelled as an
  insertion sort driven by the same comparator, and only the properties
  above are proved of it. No relative order among rows holding null and no
  order among rows with equal values is promised.
- Sorting.SortRows: its nulls-last and value-order guarantee is a property of
  the modelled insertion sort. When some row holds null under the key, the
  comparator is inconsistent, and the ECMAScript `Array.prototype.sort` then
  leaves the whole order implementation-defined, so the language itself does
  not promise it.
- Sorting.SortedView: the same holds for the sorted view. With no null under
  the key the comparator is consistent and the promise is the language's;
  with a null, nulls last and ordered values describe the modelled sort, not
  a guarantee of every engine.
- Field values are one totally ordered type, here `int`. JavaScript's `>`
  and `===` across mixed value types, and the ordering of UTF-16 strings,
  are not modelled.
- A column whose `dataIndex` is `"id"` reads the attribute map, not the row's
  `id` field. A row has to repeat its id among its attributes for such a
  column.
- React mechanics are not modelled: `useState`, batched and deferred
  re-rendering, `useMemo` caching. Each handler updates the state fields at
  once. Props are fixed for the life of a table instance, so a change of
  `data` or `columns` between renders is not modelled.
- The `onRowSelect` callback is not run. Its arguments are recorded in
  `reported`; whatever the caller does with them is outside the component.
- Table.DataTable.HandleSort: requires the column to be one of `columns`. Its
  only call site, the header click handler (lines 78-82), passes an element of
  `columns`. The invariant that the sort key belongs to a sortable column rests
  on this.
- The markup after line 72 is presentation and is not modelled: the header
  arrows and `aria-sort`, the row highlight and checkbox (`some` at lines
  101-109), and the `String(... ?? "")` cell text.
- `src/components/InputField.tsx`, `src/App.tsx`, the Storybook stories and
  `tailwind.config.js` are not part of this model. They hold presentation and
  demo wiring, not component state logic.
