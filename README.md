# react-final-table: the table state engine in Dafny

react-final-table is a headless React hook, `useTable(columns, data, options)`.
It turns an array of plain objects and a list of column descriptors into table
state: headers, rows of rendered cells, and the selection, sorting, filtering,
searching and paging of those rows. This project models the engine behind the
hook. It covers:

- the column and row materialization that `useTable` performs: `columnsWithSorting`,
  `getColumnsByName`, `sortDataInOrder`, `makeRender` and the `tableData` rows;
- the initial state and the two mount effects;
- the reducer `createReducer` with all of its actions. A pipeline action
  (`GLOBAL_FILTER`, `GLOBAL_FILTER_OFF`, `SEARCH_STRING`, `TOGGLE_SORT`, `SET_ROWS`)
  rebuilds the visible rows as originalRows → sort → filter → search → paginate.
  `NEXT_PAGE`/`PREV_PAGE` re-slice the unpaginated rows. `SELECT_ROW`/`TOGGLE_ALL`
  change the selection. Any other action throws. The reducer comes in two forms:
  `Engine.ReduceAsWritten` is the code as written, and `Engine.Reduce` is the same
  reducer with the two selection branches corrected (see "## Findings");
- the four pipeline stages `getSortedData`, `getFilteredData`, `getSearchedData` and
  `getPaginatedData`;
- the text comparators `byTextAscending` and `byTextDescending`;
- the earlier prototype hook of `src/hooks.tsx`: an inert reducer, `getColumnsById`
  and its `tableData` rows.

Modules:

| module | what it holds |
|---|---|
| `Wrappers` | `Option` and `Result` |
| `Sorting` | comparators, consistency of a comparator, a stable insertion sort `SortBy` (the model of `Array.prototype.sort`) and an in-place array version proved equal to it |
| `Comparators` | JavaScript `toUpperCase` on ASCII, string `<`, and `byTextAscending`/`byTextDescending` |
| `TableTypes` | records as ordered property lists, cells, rows, column descriptors, errors |
| `Materializer`, `MaterializerProperties` | `useTable`'s column copies, by-name lookup, record re-projection, row construction |
| `Pipeline`, `PipelineProperties` | the four pipeline stages and what each guarantees |
| `Engine` | the reducer state, the actions, the reducer, the initial state and mounting |
| `EngineProperties` | the sort bookkeeping invariant, the pipeline branch, `TOGGLE_SORT` |
| `SelectionProperties` | page turns, `SELECT_ROW`, `TOGGLE_ALL`, and the finding below |
| `ReducerProperties` | when the reducer throws; consistency preserved over any run of actions; the mounted table |
| `StubTable` | the `src/hooks.tsx` hook |
| `Scenarios` | the comparator fixture of `src/test/utils.spec.ts` worked through the model |

Modelling choices:

- A JavaScript object with string values is the ordered list of its properties, because
  `Object.entries` is ordered. Reading a property takes the first entry with that key.
  Writing one replaces the value in place or appends a new entry. This is JavaScript's
  order for every key that is not an array index (`TableTypes.IsArrayIndex`); see
  "## Left out" for those keys.
- A column's `render` and `sort` and the user's `filter` are Dafny function values.
  A cell's `render()` is modelled by the string it returns.
- `Array.prototype.sort` is a stable insertion sort, `SortBy`. `Sorting.SortInPlace`
  sorts an array in place and is proved equal to it. For a consistent comparator every
  stable sort gives this result; for an inconsistent one see "## Left out".
- `toUpperCase` folds ASCII letters only. String `<` compares character codes
  lexicographically, a proper prefix coming first.
- `slice` is modelled with JavaScript's clamping of negative and out-of-range
  indices, so any integer page and page size is covered.
- The state is consistent when:
  - column names are distinct;
  - `columnsByName` is built from `columns`;
  - `sortColumn` names the one column whose `sorted.on` holds, or no column is on;
  - the visible rows are the current page of `unpaginatedRows`, with matching page flags.

  Every action of the corrected reducer `Engine.Reduce` preserves this
  (`ReducerProperties.ReduceAllPreservesConsistency`). The reducer as written,
  `Engine.ReduceAsWritten`, does not: after `SELECT_ROW` or `TOGGLE_ALL` the visible rows
  and `unpaginatedRows` can disagree in their `selected` flags
  (`ReducerProperties.AsWrittenBreaksPageConsistency`). What it does keep is that the
  column bookkeeping is consistent and that the visible rows are the current page of
  `unpaginatedRows` up to those flags (`ReducerProperties.AsWrittenAllPreservesAlignment`).

Where the code and its documentation differ, the model follows the code:

- `SET_ROWS` keeps the old `selectedRows`, although the rows are replaced.
- `originalRows` is never reordered. Each pipeline run sorts afresh from it.
- The search is case-sensitive. It looks at `cell.value`, not at the rendered text.
- `toggleAllState` after `SELECT_ROW` compares the number of selected rows in the whole
  table with the number of rows on the current page.
- `TOGGLE_ALL` likewise decides between select and clear by comparing the global
  selection count with the page's row count.
- `filterOn` is set once from the options and never updated.
- Until the `SET_ROWS` effect runs, the initial rows are not paginated. `Engine.Mount`
  includes that effect.

## Model

| member | source | states |
|---|---|---|
| `Comparators.UpperChar` | src/utils.ts:4-5 | `toUpperCase` of one character: lower-case ASCII letters move down by 32 and every other character is unchanged |
| `Comparators.Upper` | src/utils.ts:4-5 | upper-casing keeps the length and folds each character |
| `Comparators.LessIrreflexive` | src/utils.ts:6 | no string is `<` itself |
| `Comparators.LessTrichotomy` | src/utils.ts:6-12 | for two strings exactly one of `<`, `>` and equality holds |
| `Comparators.LessTransitive` | src/utils.ts:6-12 | string `<` is transitive |
| `Comparators.ByTextAscending` | src/utils.ts:1-13 | -1 exactly when the upper-cased key of the first is `<` that of the second; 1 exactly when it is `>`; 0 exactly when they are equal |
| `Comparators.ByTextDescending` | src/utils.ts:15-27 | -1 exactly when the first upper-cased key is `>` the second; 1 exactly when `<`; 0 exactly when equal |
| `Comparators.ResultsAreSigns` | src/utils.ts:1-27 | both comparators only answer -1, 0 or 1 |
| `Comparators.DescendingIsSwappedAscending` | src/utils.ts:15-27 | descending on (a, b) is ascending on (b, a) |
| `Comparators.AscendingAntisymmetric` | src/utils.ts:1-13 | swapping the arguments negates the answer, and an object compares equal to itself |
| `Comparators.AscendingTransitive` | src/utils.ts:1-13 | "not after" is transitive |
| `Comparators.CaseInsensitive` | src/utils.ts:4-5 | keys that differ only in ASCII letter case compare equal in both directions |
| `Comparators.AscendingIsOrdering` | src/utils.ts:1-13 | `byTextAscending` is a consistent comparator for every key |
| `Comparators.DescendingIsOrdering` | src/utils.ts:15-27 | `byTextDescending` is a consistent comparator for every key |
| `Sorting.Negated` | src/hooks.ts:400-403 | the descending comparator answers the negation of the ascending one |
| `Sorting.SortByPermutes` | src/hooks.ts:400-403 | sorting yields a permutation of its input (equal multisets) |
| `Sorting.SortByLength` | src/hooks.ts:400-403 | sorting keeps the number of rows |
| `Sorting.SortBySorted` | src/hooks.ts:400-403 | under a consistent comparator the result is ordered |
| `Sorting.NegatedIsOrdering` | src/hooks.ts:400-403 | negating a consistent comparator keeps it consistent |
| `Sorting.SortByLeastFirst` | src/hooks.ts:400-403 | an element that comes strictly before all the others is first after sorting |
| `Sorting.InsertLast` | src/hooks.ts:400-403 | one insertion step in place: the prefix up to `i` becomes the old prefix with `a[i]` inserted; the rest of the array is unchanged |
| `Sorting.SortInPlace` | src/hooks.ts:400-403 | sorting the array in place leaves exactly `SortBy` of its old contents |
| `TableTypes.Lookup` | src/hooks.ts:334-337 | `record[key]` is found exactly when `key in record`, and is the value of an entry with that key |
| `TableTypes.Put` | src/hooks.ts:337 | `record[key] = value`: when the key exists, the first entry with it now holds the value and every other entry is unchanged; otherwise the entry is appended |
| `Materializer.ColumnsWithSorting` | src/hooks.ts:196-210 | each column keeps name, visibility, sort and render; starts unsorted with no direction; its label is the given label when that is non-empty and its name otherwise, as the label falls back to the name |
| `Materializer.ColumnsByName` | src/hooks.ts:343-360 | the lookup has exactly the column names as keys |
| `Materializer.ColumnsByNameAt` | src/hooks.ts:343-360 | with distinct names each column's entry holds its own label, render and visibility |
| `Materializer.GetColumnsByName` | src/hooks.ts:343-360 | the loop builds exactly `ColumnsByName` |
| `Materializer.OrderFields` | src/hooks.ts:333-338 | on success every key of the new record is a declared column name or came from the partial record |
| `Materializer.OrderedRecords` | src/hooks.ts:327-341 | on success there is one new record per input record, each the re-projection of its input |
| `Materializer.OrderedRecordsFailsEarly` | src/hooks.ts:331-336 | a throw on a prefix of the data is the throw of the whole call |
| `Materializer.SortRecordInOrder` | src/hooks.ts:332-339 | the column loop for one record computes `OrderRecord` |
| `Materializer.SortDataInOrder` | src/hooks.ts:327-341 | the loop over the data computes `OrderedRecords` |
| `Materializer.MakeRender` | src/hooks.ts:312-318 | without a render the cell shows the value; with one it shows the render of value and row |
| `Materializer.Materialize` | src/hooks.ts:215-237 | on success one row per record, with id equal to its position, unselected and visible |
| `MaterializerProperties.OrderFieldsSucceeds` | src/hooks.ts:333-338 | the column loop succeeds exactly when the record has every column |
| `MaterializerProperties.OrderFieldsFirstMissing` | src/hooks.ts:334-336 | the error names the first declared column the record lacks |
| `MaterializerProperties.OrderRecordSpec` | src/hooks.ts:331-339 | re-projecting one record throws exactly when a column is missing, naming the first; otherwise, when no column name is an array index, the result holds exactly the declared columns, in column order, with the record's values |
| `MaterializerProperties.OrderFieldsIgnoresKeyOrder` | src/hooks.ts:333-338 | records with the same values under the declared names give the same result |
| `MaterializerProperties.OrderedRecordsSucceeds` | src/hooks.ts:327-341 | the dataset is re-projected exactly when every record is |
| `MaterializerProperties.MaterializeFails` | src/hooks.ts:215-237 | materializing throws exactly when some record lacks a declared column |
| `MaterializerProperties.MaterializeRows` | src/hooks.ts:215-237 | otherwise, when no column name is an array index, each row's `original` is the record re-projected onto the columns, and its cells are one per visible column, in column order |
| `MaterializerProperties.MaterializeIgnoresKeyOrder` | src/hooks.ts:215-237 | records that differ only in property order materialize to identical rows |
| `PipelineProperties.DefaultComparatorIsOrdering` | src/hooks.ts:398-399 | the default text comparator on `original[name]` is consistent |
| `PipelineProperties.DirectedIsOrdering` | src/hooks.ts:400-403 | flipping the sign for a descending sort keeps a comparator consistent |
| `PipelineProperties.SortComparatorIsOrdering` | src/hooks.ts:398-403 | a column sorts with a consistent comparator unless its own `sort` is inconsistent |
| `PipelineProperties.ApplySortsOnce` | src/hooks.ts:386-421 | with distinct names the column map sorts exactly once, by the named column |
| `PipelineProperties.GetSortedDataEdges` | src/hooks.ts:371-378 | a null column keeps the rows; a name missing from the lookup throws `Invalid column` |
| `PipelineProperties.GetSortedDataMarks` | src/hooks.ts:362-429 | the named column is switched on with the chosen direction, every other column is `{on: false, asc: false}`, nothing else about a column changes, the rows are sorted by the column's directed comparator, and the lookup is rebuilt from the new columns |
| `PipelineProperties.MarkColumnsOnly` | src/hooks.ts:386-421 | marking switches on the named column alone and changes only the `sorted` flags |
| `PipelineProperties.GetSortedDataSorts` | src/hooks.ts:398-403 | the sorted rows are a permutation of the input, ordered when the column's comparator is consistent |
| `PipelineProperties.DirectionToggles` | src/hooks.ts:389-395 | without an override the first sort is ascending and each later one flips; an override decides outright |
| `PipelineProperties.GetFilteredDataSpec` | src/hooks.ts:431-453 | no filter keeps the rows; a filter's rows come out in its order with those whose id is in `selectedRows` marked selected |
| `PipelineProperties.KeepMatchingAppend` | src/hooks.ts:465-468 | the search distributes over concatenation, so it keeps matching rows in their order |
| `PipelineProperties.GetSearchedDataSpec` | src/hooks.ts:455-471 | an empty string keeps every row; otherwise a row is kept exactly when it is in the input and some cell's value contains the string |
| `PipelineProperties.GetPaginatedDataSpec` | src/hooks.ts:473-496 | disabled keeps the rows and sets no page fields; enabled shows rows `(page-1)*perPage` up to `page*perPage` (clamped), with `canNext` exactly when a later row exists and `canPrev` exactly when the page is not 1 |
| `PipelineProperties.RowOnItsPage` | src/hooks.ts:485-488 | every row `i` is on page `i / perPage + 1` at position `i % perPage` |
| `Pipeline.GetSortedData` | src/hooks.ts:362-429 | `getSortedData`: a null column keeps the rows; a name missing from the lookup throws; otherwise the columns are marked, the rows sorted by every column with that name and the lookup rebuilt |
| `Pipeline.SelectedById` | src/hooks.ts:442-445 | the keys are exactly the ids of the selected rows |
| `Pipeline.FillSelectedById` | src/hooks.ts:442-445 | the `forEach` builds exactly `SelectedById` |
| `Pipeline.GetFilteredData` | src/hooks.ts:431-453 | `getFilteredData`: no filter keeps the rows; otherwise the filter's rows with the recorded selection restored |
| `Pipeline.GetSearchedData` | src/hooks.ts:455-471 | `getSearchedData`: the empty string keeps the rows; otherwise the rows with a cell value containing the string |
| `Pipeline.JsSlice` | src/hooks.ts:488 | `rows.slice(start, end)` with JavaScript's clamping of negative and out-of-range indices |
| `Pipeline.GetPaginatedData` | src/hooks.ts:473-496 | `getPaginatedData`: disabled keeps the rows; enabled slices page `page` and sets `page`, `canNext`, `canPrev` |
| `Materializer.Cells` | src/hooks.ts:224-233 | one cell per property of the re-projected record, in property order, dropping hidden columns |
| `Materializer.MakeRow` | src/hooks.ts:218-234 | a new row: id, unselected, visible, the re-projected record and its cells |
| `Engine.TurnPage` | src/hooks.ts:104-137 | `NEXT_PAGE`/`PREV_PAGE`: `getPaginatedData` on `unpaginatedRows` at the new page, spread over the state |
| `Engine.SelectRowAsWritten` | src/hooks.ts:138-162 | `SELECT_ROW` as written: flips the row in `rows` and `originalRows`, recomputes `selectedRows` and `toggleAllState`; `unpaginatedRows` is untouched |
| `Engine.SelectRowFixed` | src/hooks.ts:138-162 | the corrected `SELECT_ROW`: the same, and the row is flipped in `unpaginatedRows` too |
| `Engine.ToggleAllAsWritten` | src/hooks.ts:163-185 | `TOGGLE_ALL` as written: sets or clears every visible row and the rows of `originalRows` with a visible id; `unpaginatedRows` is untouched |
| `Engine.ToggleAllFixed` | src/hooks.ts:163-185 | the corrected `TOGGLE_ALL`: the same, and the visible ids are marked in `unpaginatedRows` too |
| `Engine.Reduce` | src/hooks.ts:18-189 | the corrected reducer: every branch as written except `SELECT_ROW` and `TOGGLE_ALL`, which are `SelectRowFixed` and `ToggleAllFixed` |
| `Engine.ReduceAsWritten` | src/hooks.ts:18-189 | the reducer exactly as written, `SELECT_ROW` and `TOGGLE_ALL` included |
| `Engine.Initial` | src/hooks.ts:239-263 | the state passed to `useReducer` |
| `Engine.Mount` | src/hooks.ts:273-293 | the state after the two mount effects |
| `Engine.ToggleRow` | src/hooks.ts:141-155 | exactly the rows with the id have `selected` flipped; nothing else changes |
| `Engine.SelectedOf` | src/hooks.ts:157 | a row is kept exactly when it is in the input and selected |
| `SelectionProperties.SelectedOfAppend` | src/hooks.ts:157 | the filter of a concatenation is the concatenation of the filters |
| `SelectionProperties.SelectedOfSpec` | src/hooks.ts:157 | a single row is kept exactly when it is selected, and the filter distributes over concatenation, so it keeps the selected rows in their order and with their repetitions |
| `Engine.SetSelected` | src/hooks.ts:168-171 | every row takes the flag and nothing else changes |
| `Engine.MarkIds` | src/hooks.ts:175-179 | a row whose id was recorded takes the recorded flag; every other row is copied |
| `Engine.SelectVisible` | src/hooks.ts:165-171 | the loop sets every visible row's flag and records exactly the visible ids, each mapped to the flag |
| `EngineProperties.ActiveDirectionFirst` | src/hooks.ts:54 | the direction read back is that of the first column that is switched on |
| `EngineProperties.RemarkKeepsColumns` | src/hooks.ts:49-55 | re-sorting by the sorted column in its own direction leaves every column as it was |
| `EngineProperties.SortStageToggle` | src/hooks.ts:31-59 | `TOGGLE_SORT` on an existing column keeps the column bookkeeping consistent, names it as the sorted column and orders the rows by it |
| `EngineProperties.SortStageResort` | src/hooks.ts:49-59 | any other pipeline action re-sorts by the sorted column in its own direction and leaves the columns, the lookup and the sorted column unchanged |
| `EngineProperties.SortStageSpec` | src/hooks.ts:31-59 | the sort stage throws exactly on `TOGGLE_SORT` with a missing column; otherwise consistency is kept and the rows are `originalRows` in the sorted column's order |
| `EngineProperties.FinishStagesSpec` | src/hooks.ts:61-101 | the filter, search and pagination stages set the filter and search string, put the searched rows in `unpaginatedRows`, show page 1 of them, and change nothing else |
| `EngineProperties.FinishStagesKeeps` | src/hooks.ts:61-101 | those stages keep the columns, the sort fields, `originalRows` and the selection |
| `EngineProperties.PipelineSpec` | src/hooks.ts:24-103 | a pipeline action throws only on `TOGGLE_SORT` with a missing column; otherwise it keeps both consistencies and the selection, sets `originalRows`, filter and search string, and makes `unpaginatedRows` the whole pipeline over `originalRows`, from page 1 |
| `EngineProperties.PipelineKeepsColumns` | src/hooks.ts:24-103 | every pipeline action other than `TOGGLE_SORT` succeeds and keeps the columns, the lookup, the sorted column and `selectedRows` (even `SET_ROWS`) |
| `EngineProperties.ToggleSortMarks` | src/hooks.ts:386-427 | `TOGGLE_SORT` on a column switches it on with the chosen direction and turns every other column off |
| `EngineProperties.ToggleSortSpec` | src/hooks.ts:362-429 | in addition, the view is `originalRows` sorted by that column's comparator in the chosen direction |
| `EngineProperties.ToggleSortUnknown` | src/hooks.ts:376-378 | `TOGGLE_SORT` with a name that is not a column throws `Invalid column` |
| `EngineProperties.ToggleSortTwiceFlips` | src/hooks.ts:393-395 | toggling the same column twice without an override reverses the direction |
| `EngineProperties.FirstToggleAscends` | src/hooks.ts:393-395 | the first toggle of a column never sorted sorts it ascending |
| `EngineProperties.ToggleSortColumnsStable` | src/hooks.ts:389-391 | toggling again with the same override leaves the columns unchanged |
| `EngineProperties.ToggleSortOverrideIdempotent` | src/hooks.ts:389-391 | from any state with consistent columns and valid page settings, toggling again with the same override changes nothing at all |
| `SelectionProperties.TurnPageTwice` | src/hooks.ts:104-137 | a page turn overwrites everything an earlier one set |
| `SelectionProperties.TurnPageDisabled` | src/hooks.ts:479-484 | with pagination off the page number does not matter |
| `SelectionProperties.NextPageSpec` | src/hooks.ts:104-119 | `NEXT_PAGE` shows the next page of `unpaginatedRows`, sets `canPrev`, sets `canNext` exactly when a later row exists, and changes nothing but the rows and page fields; with pagination off it changes nothing |
| `SelectionProperties.PrevPageSpec` | src/hooks.ts:120-137 | `PREV_PAGE` goes one page back, never below 1, and changes nothing but the rows and page fields |
| `SelectionProperties.NextThenPrev` | src/hooks.ts:104-137 | `NEXT_PAGE` then `PREV_PAGE` restores the state |
| `SelectionProperties.PrevThenNext` | src/hooks.ts:104-137 | from any page after the first, `PREV_PAGE` then `NEXT_PAGE` restores the state |
| `SelectionProperties.ToggleRowTwice` | src/hooks.ts:141-155 | flipping a row twice restores it |
| `SelectionProperties.MarkOwnIds` | src/hooks.ts:168-179 | marking rows with their own recorded ids sets every one of them |
| `SelectionProperties.SelectRowKeepsPages` | src/hooks.ts:138-162 | the corrected `SELECT_ROW` keeps the page in step with `unpaginatedRows` |
| `SelectionProperties.ToggleAllKeepsPages` | src/hooks.ts:163-185 | the corrected `TOGGLE_ALL` keeps the page in step with `unpaginatedRows` |
| `SelectionProperties.SelectRowTwice` | src/hooks.ts:138-162 | `selectedRows` is exactly the selected rows of `originalRows`; `toggleAllState` is "as many selected as visible"; selecting again restores the rows, `originalRows` and `unpaginatedRows` |
| `SelectionProperties.ToggleAllSpec` | src/hooks.ts:163-185 | when fewer rows are selected than are visible, every visible row is selected, otherwise every visible row is cleared; a row of `originalRows` changes only when its id is visible; `selectedRows` is the selected rows of the new `originalRows`, in order; the corrected branch marks the visible ids in `unpaginatedRows` too; no other field changes |
| `SelectionProperties.ToggleAllSelectsVisible` | src/hooks.ts:163-185 | from no selection, `TOGGLE_ALL` selects exactly the rows whose ids are visible |
| `SelectionProperties.SelectionLostAfterPaging` | src/hooks.ts:138-162 | as written, a selected row shows unselected after a page turn and back, and selecting it again desynchronises `selectedRows` |
| `SelectionProperties.ToggleAllLostAfterPaging` | src/hooks.ts:163-185 | as written, `TOGGLE_ALL` is undone on screen by a page turn and back |
| `SelectionProperties.SelectionSurvivesPaging` | src/hooks.ts:104-162 | with the corrected `SELECT_ROW`, a page turn and back restores the state after the selection |
| `SelectionProperties.ToggleAllSurvivesPaging` | src/hooks.ts:104-137 | with the corrected `TOGGLE_ALL`, a page turn and back restores the state after the toggle |
| `ReducerProperties.ReduceFailsExactly` | src/hooks.ts:18-189 | the corrected reducer throws exactly on an unknown action (`Invalid reducer action`) and on `TOGGLE_SORT` with a name that is not a column (`Invalid column`); by `AsWrittenDiffers` so does the reducer as written |
| `ReducerProperties.ReducePreservesConsistency` | src/hooks.ts:18-189 | every action of the corrected reducer that does not throw keeps the state consistent (the as-written `SELECT_ROW` and `TOGGLE_ALL` do not, see `AsWrittenBreaksPageConsistency`) |
| `ReducerProperties.ReduceAllPreservesConsistency` | src/hooks.ts:18-189 | so does any sequence of actions of the corrected reducer |
| `ReducerProperties.AsWrittenDiffers` | src/hooks.ts:138-185 | the reducer as written throws on the same actions as the corrected one and agrees with it except that after `SELECT_ROW` and `TOGGLE_ALL` `unpaginatedRows` is left as it was |
| `ReducerProperties.TurnPageConsistent` | src/hooks.ts:104-137 | turning to any page from 1 on, with valid page settings, leaves the visible rows the page of `unpaginatedRows` with matching flags |
| `ReducerProperties.SelectRowAsWrittenAligned` | src/hooks.ts:138-162 | as written, `SELECT_ROW` keeps the visible rows the current page of `unpaginatedRows` up to their `selected` flags |
| `ReducerProperties.ToggleAllAsWrittenAligned` | src/hooks.ts:163-185 | as written, `TOGGLE_ALL` keeps the visible rows the current page of `unpaginatedRows` up to their `selected` flags |
| `ReducerProperties.AsWrittenPageTurn` | src/hooks.ts:104-137 | as written, `NEXT_PAGE` and `PREV_PAGE` keep the column bookkeeping and make the page consistent again |
| `ReducerProperties.AsWrittenSelection` | src/hooks.ts:138-185 | as written, `SELECT_ROW` and `TOGGLE_ALL` keep the column bookkeeping and the page aligned |
| `ReducerProperties.AsWrittenPipeline` | src/hooks.ts:24-103 | as written, a pipeline action that does not throw leaves the columns and the page consistent |
| `ReducerProperties.AsWrittenPreservesAlignment` | src/hooks.ts:18-189 | every action of the reducer as written that does not throw keeps the column bookkeeping consistent and the page aligned; every action but the two selection actions restores full page consistency |
| `ReducerProperties.AsWrittenAllPreservesAlignment` | src/hooks.ts:18-189 | so does any sequence of actions of the reducer as written |
| `ReducerProperties.AsWrittenBreaksPageConsistency` | src/hooks.ts:138-162 | as written, `SELECT_ROW` takes a consistent state to one whose visible row is selected while its copy in `unpaginatedRows` is not |
| `ReducerProperties.InitialConsistent` | src/hooks.ts:241-263 | the initial state exists exactly when the data materializes; it is consistent, starts with no selection, no sort, no stored filter and an empty search, and `filterOn` says whether a filter was given |
| `ReducerProperties.MountSteps` | src/hooks.ts:273-293 | mounting is `SET_ROWS` with the materialized rows, then `GLOBAL_FILTER` when a filter is given |
| `ReducerProperties.UnsortedView` | src/hooks.ts:61-101 | with no sort, selection or search the view is the filter applied to `originalRows` |
| `ReducerProperties.MountSpec` | src/hooks.ts:196-293 | the mounted table exists exactly when the data materializes; it is consistent and shows the materialized rows through the filter, unsorted and unsearched, from page 1, with nothing selected |
| `StubTable.StubReduce` | src/hooks.tsx:12-21 | the prototype's reducer: every action returns the state |
| `StubTable.StubTableData` | src/hooks.tsx:28-42 | the prototype's rows: one cell per property of each re-projected record |
| `StubTable.StubReducerIsInert` | src/hooks.tsx:12-21 | no sequence of actions changes the prototype's state |
| `StubTable.DeclaredNames` | src/hooks.tsx:60-71 | one name per column, in column order |
| `StubTable.ColumnsById` | src/hooks.tsx:73-86 | the lookup has exactly the column names as keys |
| `StubTable.ColumnsByIdAt` | src/hooks.tsx:73-86 | with distinct names each entry holds its own column's label and render |
| `StubTable.GetColumnsById` | src/hooks.tsx:73-86 | the loop builds exactly `ColumnsById` |
| `StubTable.StubTableDataFails` | src/hooks.tsx:28-42 | the rows throw exactly when a record lacks a declared column |
| `StubTable.StubTableDataRows` | src/hooks.tsx:28-58 | otherwise, when no column name is an array index, each row has one cell per column, hidden ones included, in column order, holding the value and its rendering |
| `Scenarios.AscendingFirstNameScenario` | src/test/utils.spec.ts:31-36 | sorting the fixture by first name ascending puts Aragorn first |
| `Scenarios.DescendingLastNameScenario` | src/test/utils.spec.ts:38-44 | sorting the fixture by last name descending puts Gandalf "The Grey" first |

## Left out

- Non-ASCII letters: `toUpperCase` and string `<` are modelled on ASCII case folding and on character codes. Unicode case mapping and UTF-16 surrogate pairs are not modelled.
- Cell values are strings. Numbers, dates and other values, and the `String(...)` conversions that `includes` and the comparators would apply to them, are not modelled.
- `key in record` is true in JavaScript for inherited keys such as `toString`. The model sees only a record's own properties.
- `Pipeline.GetSortedData`: `columnName in columnsByName` (src/hooks.ts:376) is also true for a name inherited from `Object.prototype`, such as `toString`. The source then does not throw: no column matches, every column is switched off, the rows become `[]` and `sortColumn` becomes that name. The model throws `Invalid column` instead, because its lookup holds only the column names.
- `EngineProperties.ToggleSortUnknown`: for an inherited name such as `toString` that is not a column, the source does not throw as this lemma states; it empties the rows as described above.
- `ReducerProperties.ReduceFailsExactly`: `TOGGLE_SORT` with an inherited name such as `toString` that is not a column throws in the model but not in the source.
- `TableTypes.Put`: a new key is appended. JavaScript places array-index keys (`"0"`, `"10"`) before all other keys, in ascending numeric order. So for columns named like that the source's re-projected record has its properties in another order than the model's.
- `Materializer.Cells`: the cells follow the model's property order, which for array-index column names differs from `Object.entries` as described above.
- `MaterializerProperties.OrderRecordSpec`: its column-order result is stated only when no column name is an array index, because of the property order above.
- `MaterializerProperties.MaterializeRows`: requires that no column name is an array index, because of the property order above.
- `StubTable.StubTableDataRows`: requires that no column name is an array index, because of the property order above.
- `cells` looks up `columnsByName[column]` for each property. The default comparator reads `original[columnName]`. For a property that is not a column, the model reads "" instead of throwing, because materialized rows hold only declared columns.
- Header rendering (`makeHeaderRender`, `headers`) is not modelled. It only formats labels for display.
- React itself is not modelled: `useMemo` caching, re-rendering, the `useCallback`-wrapped `nextPage`/`prevPage` in `pagination`, and effect scheduling. `Engine.Mount` runs the two effects once, in order.
- `Engine.Reduce` is the reducer with `SELECT_ROW` and `TOGGLE_ALL` corrected to update `unpaginatedRows` as well (see "## Findings"). `Engine.ReduceAsWritten` is the code as written.
- `ReducerProperties.ReducePreservesConsistency` holds of the corrected reducer only. As written, `SELECT_ROW` and `TOGGLE_ALL` break the page part of the consistency; `ReducerProperties.AsWrittenPreservesAlignment` states what they keep.
- `ReducerProperties.ReduceAllPreservesConsistency` holds of the corrected reducer only, for the same reason; `ReducerProperties.AsWrittenAllPreservesAlignment` is its counterpart for the code as written.
- `EngineProperties.ToggleSortSpec`: its exact equation for the view uses `SortBy`, a stable insertion sort. For a consistent comparator every stable sort, V8's TimSort included, gives that order. For a column `sort` that is not a consistent comparator, the engine's `Array.prototype.sort` may order the rows differently, and the equation then describes only the model.
- `Engine.SelectVisible`: the loop over the visible rows is proved against `SetSelected` and `IdFlags`. `Engine.Reduce` uses those functions, not the method.
- The user's filter is a total function on row lists. A filter that throws or is impure is not modelled.
- Sort stability is captured only by `SortBy` being an insertion sort. There is no separate lemma about the order of equal rows.
- `InitialConsistent` and `MountSpec` require distinct column names and a non-negative page size. With duplicate names the lookup and the sort bookkeeping diverge, and the source does not guard against that.
- `PipelineProperties.GetPaginatedDataSpec` assumes a positive page size and a page from 1 on, which every reachable state has. For other values, `Pipeline.JsSlice` still models the exact `slice` result.
- `rows.sort` sorts in place the fresh copy of the rows made at src/hooks.ts:33-37. The model returns a new sequence instead. No other reference to that copy exists, so the two agree.
- Types and the index re-exports (src/types.ts, src/index.ts) are modelled only through the datatypes.

## Findings

| source | as written | input that shows it | evidently intended | confidence | as-written member | corrected member |
|---|---|---|---|---|---|---|
| src/hooks.ts:138-162 | `SELECT_ROW` flips the row in `rows` and `originalRows` but not in `unpaginatedRows` | two rows, one per page: select row 0, then `NEXT_PAGE`, then `PREV_PAGE`: row 0 shows unselected while `selectedRows` holds it; selecting it again shows it selected with `selectedRows` empty | the selection survives page turns | not executed | `SelectionProperties.SelectionLostAfterPaging` (on `Engine.ReduceAsWritten`, `Engine.SelectRowAsWritten`) | `Engine.SelectRowFixed`, proved by `SelectionProperties.SelectionSurvivesPaging` and `SelectionProperties.SelectRowKeepsPages` |
| src/hooks.ts:163-185 | `TOGGLE_ALL` marks `rows` and `originalRows` but not `unpaginatedRows` | the same two rows: `TOGGLE_ALL`, then `NEXT_PAGE`, then `PREV_PAGE`: row 0 shows unselected while `originalRows` holds it selected | the toggle survives page turns | not executed | `SelectionProperties.ToggleAllLostAfterPaging` (on `Engine.ReduceAsWritten`, `Engine.ToggleAllAsWritten`) | `Engine.ToggleAllFixed`, proved by `SelectionProperties.ToggleAllSurvivesPaging` and `SelectionProperties.ToggleAllKeepsPages` |
