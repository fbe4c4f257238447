/**
 * The table state and the reducer built by `createReducer` in src/hooks.ts
 * (lines 18-189), with the state `useTable` starts from (lines 239-263) and
 * the two actions its effects dispatch when it mounts (lines 273-293).
 */
module Engine {
  import opened Wrappers
  import opened Sorting
  import opened TableTypes
  import opened Materializer
  import opened Pipeline

  /** The page fields of the state; the two callbacks are left out. */
  datatype Pagination = Pagination(page: int, perPage: int, canNext: bool, canPrev: bool)

  /** `TableState`. */
  datatype State = State(
    columns: seq<ColumnState>,
    columnsByName: map<string, ColumnInfo>,
    originalRows: seq<Row>,
    rows: seq<Row>,
    selectedRows: seq<Row>,
    toggleAllState: bool,
    filterOn: bool,
    sortColumn: Option<string>,
    paginationEnabled: bool,
    pagination: Pagination,
    unpaginatedRows: seq<Row>,
    filter: Option<RowFilter>,
    searchString: string)

  /** `TableAction`; `Unrecognized` stands for any other `type` tag. */
  datatype Action =
    | GlobalFilter(filter: RowFilter)
    | GlobalFilterOff
    | SearchString(searchString: string)
    | ToggleSort(columnName: string, isAscOverride: Option<bool>)
    | SetRows(data: seq<Row>)
    | NextPage
    | PrevPage
    | SelectRow(rowId: int)
    | ToggleAll
    | Unrecognized(tag: string)

  /** The actions that re-run the whole pipeline from `originalRows`. */
  predicate IsPipelineAction(a: Action)
  {
    a.GlobalFilter? || a.GlobalFilterOff? || a.SearchString? || a.ToggleSort? || a.SetRows?
  }

  /** `columns.find(column => column.sorted.on)?.sorted.asc`. */
  function ActiveDirection(cols: seq<ColumnState>): Option<bool>
    decreases |cols|
  {
    if cols == [] then None
    else if cols[0].sorted.on then cols[0].sorted.asc
    else ActiveDirection(cols[1..])
  }

  /** Spreads what `getSortedData` returns over the state. */
  function WithSorted(s: State, o: SortOutcome): State
  {
    match o
    case RowsOnly(rows) => s.(rows := rows)
    case Resorted(cols, rows, name, byName) =>
      s.(columns := cols, rows := rows, sortColumn := Some(name), columnsByName := byName)
  }

  /**
   * Spreads what `getPaginatedData` returns over the state, merging its page
   * fields into `pagination` (nothing to merge when pagination is off).
   */
  function WithPage(s: State, p: Paginated): State
  {
    var pg := match p.update
      case None => s.pagination
      case Some(u) => s.pagination.(page := u.page, canNext := u.canNext, canPrev := u.canPrev);
    s.(rows := p.rows, unpaginatedRows := p.unpaginatedRows, pagination := pg)
  }

  /**
   * The first half of the pipeline branch (src/hooks.ts:31-59): start from
   * the new data or from `originalRows`, then sort, by the toggled column or
   * again by the sorted one in its current direction.
   */
  function SortStage(s: State, a: Action): Result<State, Error>
    requires IsPipelineAction(a)
  {
    var start := if a.SetRows? then s.(rows := a.data, originalRows := a.data) else s.(rows := s.originalRows);
    var sortedRes :=
      if a.ToggleSort? then
        GetSortedData(start.rows, start.columns, start.columnsByName, Some(a.columnName), a.isAscOverride)
      else
        GetSortedData(start.rows, start.columns, start.columnsByName, start.sortColumn, ActiveDirection(start.columns));
    match sortedRes
    case Err(e) => Err(e)
    case Ok(o) => Ok(WithSorted(start, o))
  }

  /**
   * The second half (src/hooks.ts:61-101): filter with the action's filter
   * or the stored one, search with the action's string or the stored one,
   * and paginate from the first page.
   */
  function FinishStages(t: State, a: Action): State
  {
    var filter := if a.GlobalFilter? then Some(a.filter) else if a.GlobalFilterOff? then None else t.filter;
    var filtered := t.(rows := GetFilteredData(t.rows, t.selectedRows, filter), filter := filter);
    var q := if a.SearchString? then a.searchString else filtered.searchString;
    var searched := filtered.(rows := GetSearchedData(filtered.rows, q), searchString := q);
    WithPage(searched, GetPaginatedData(searched.rows, searched.paginationEnabled, searched.pagination.perPage, 1))
  }

  /** The pipeline branch of the reducer (src/hooks.ts:24-103). */
  function RunPipeline(s: State, a: Action): Result<State, Error>
    requires IsPipelineAction(a)
  {
    match SortStage(s, a)
    case Err(e) => Err(e)
    case Ok(t) => Ok(FinishStages(t, a))
  }

  /** `NEXT_PAGE` and `PREV_PAGE`: re-slice `unpaginatedRows` at another page. */
  function TurnPage(s: State, page: int): State
  {
    WithPage(s, GetPaginatedData(s.unpaginatedRows, s.paginationEnabled, s.pagination.perPage, page))
  }

  // -------------------------------------------------------------- selection

  /** Flips `selected` on every row with the id. */
  function ToggleRow(rows: seq<Row>, id: int): (r: seq<Row>)
    ensures |r| == |rows|
    ensures forall i :: 0 <= i < |rows| ==>
      r[i] == rows[i].(selected := if rows[i].id == id then !rows[i].selected else rows[i].selected)
  {
    seq(|rows|, i requires 0 <= i < |rows| =>
      if rows[i].id == id then rows[i].(selected := !rows[i].selected) else rows[i])
  }

  /** `rows.filter(row => row.selected)`. */
  function SelectedOf(rows: seq<Row>): (r: seq<Row>)
    ensures |r| <= |rows|
    ensures forall x :: x in r <==> x in rows && x.selected
    decreases |rows|
  {
    if rows == [] then []
    else (if rows[0].selected then [rows[0]] else []) + SelectedOf(rows[1..])
  }

  /** `SELECT_ROW` as written (src/hooks.ts:138-162): `unpaginatedRows` is not updated. */
  function SelectRowAsWritten(s: State, id: int): State
  {
    var rows := ToggleRow(s.rows, id);
    var orig := ToggleRow(s.originalRows, id);
    var sel := SelectedOf(orig);
    s.(rows := rows, originalRows := orig, selectedRows := sel, toggleAllState := |sel| == |rows|)
  }

  /** `SELECT_ROW`, flipping the row in `unpaginatedRows` too, so that turning pages keeps it. */
  function SelectRowFixed(s: State, id: int): State
  {
    SelectRowAsWritten(s, id).(unpaginatedRows := ToggleRow(s.unpaginatedRows, id))
  }

  /** Every row with its `selected` set to `sel`. */
  function SetSelected(rows: seq<Row>, sel: bool): (r: seq<Row>)
    ensures |r| == |rows|
    ensures forall i :: 0 <= i < |rows| ==> r[i] == rows[i].(selected := sel)
  {
    seq(|rows|, i requires 0 <= i < |rows| => rows[i].(selected := sel))
  }

  /** The ids of the rows. */
  function RowIds(rows: seq<Row>): set<int>
  {
    set r | r in rows :: r.id
  }

  /** A row whose id is in `ids` takes the recorded flag; others are copied. */
  function MarkIds(rows: seq<Row>, ids: map<int, bool>): (r: seq<Row>)
    ensures |r| == |rows|
    ensures forall i :: 0 <= i < |rows| ==>
      r[i] == if rows[i].id in ids then rows[i].(selected := ids[rows[i].id]) else rows[i]
  {
    seq(|rows|, i requires 0 <= i < |rows| =>
      if rows[i].id in ids then rows[i].(selected := ids[rows[i].id]) else rows[i])
  }

  /**
   * The `map` pass of `TOGGLE_ALL` (src/hooks.ts:168-171): sets every row's
   * flag and records each id in `rowIds`.
   */
  method SelectVisible(rows: seq<Row>, sel: bool) returns (newRows: seq<Row>, rowIds: map<int, bool>)
    ensures newRows == SetSelected(rows, sel)
    ensures rowIds.Keys == RowIds(rows)
    ensures forall id :: id in rowIds ==> rowIds[id] == sel
  {
    newRows := [];
    rowIds := map[];
    var i := 0;
    while i < |rows|
      invariant 0 <= i <= |rows|
      invariant newRows == SetSelected(rows[..i], sel)
      invariant rowIds.Keys == RowIds(rows[..i])
      invariant forall id :: id in rowIds ==> rowIds[id] == sel
    {
      assert rows[..i + 1] == rows[..i] + [rows[i]];
      assert RowIds(rows[..i + 1]) == RowIds(rows[..i]) + {rows[i].id};
      rowIds := rowIds[rows[i].id := sel];
      newRows := newRows + [rows[i].(selected := sel)];
      i := i + 1;
    }
    assert rows[..i] == rows;
  }

  /** Every visible id mapped to `sel`, as `rowIds` ends up. */
  function IdFlags(rows: seq<Row>, sel: bool): (m: map<int, bool>)
  {
    map id | id in RowIds(rows) :: sel
  }

  /** `TOGGLE_ALL` as written (src/hooks.ts:163-185): `unpaginatedRows` is not updated. */
  function ToggleAllAsWritten(s: State): State
  {
    var sel := |s.selectedRows| < |s.rows|;
    var orig := MarkIds(s.originalRows, IdFlags(s.rows, sel));
    s.(rows := SetSelected(s.rows, sel), toggleAllState := sel, originalRows := orig, selectedRows := SelectedOf(orig))
  }

  /** `TOGGLE_ALL`, marking the visible rows in `unpaginatedRows` too. */
  function ToggleAllFixed(s: State): State
  {
    var sel := |s.selectedRows| < |s.rows|;
    ToggleAllAsWritten(s).(unpaginatedRows := MarkIds(s.unpaginatedRows, IdFlags(s.rows, sel)))
  }

  // ----------------------------------------------------------------- reducer

  /**
   * The reducer with the two selection branches corrected: the pipeline
   * actions, the two page turns (the previous page never goes below 1),
   * `SELECT_ROW` and `TOGGLE_ALL` as `SelectRowFixed` and `ToggleAllFixed`,
   * which also update `unpaginatedRows`, and the throw on any other action.
   * `ReduceAsWritten` is the reducer exactly as src/hooks.ts writes it.
   */
  function Reduce(s: State, a: Action): Result<State, Error>
  {
    match a
    case NextPage => Ok(TurnPage(s, s.pagination.page + 1))
    case PrevPage => Ok(TurnPage(s, if s.pagination.page == 1 then 1 else s.pagination.page - 1))
    case SelectRow(id) => Ok(SelectRowFixed(s, id))
    case ToggleAll => Ok(ToggleAllFixed(s))
    case Unrecognized(_) => Err(InvalidAction)
    case _ => RunPipeline(s, a)
  }

  /**
   * The reducer exactly as src/hooks.ts writes it: the same, except that
   * `SELECT_ROW` and `TOGGLE_ALL` leave `unpaginatedRows` alone.
   */
  function ReduceAsWritten(s: State, a: Action): Result<State, Error>
  {
    match a
    case SelectRow(id) => Ok(SelectRowAsWritten(s, id))
    case ToggleAll => Ok(ToggleAllAsWritten(s))
    case _ => Reduce(s, a)
  }

  /** The reducer as written over a sequence of actions, stopping at the first throw. */
  function ReduceAllAsWritten(s: State, actions: seq<Action>): Result<State, Error>
    decreases |actions|
  {
    if actions == [] then Ok(s)
    else
      match ReduceAsWritten(s, actions[0])
      case Err(e) => Err(e)
      case Ok(next) => ReduceAllAsWritten(next, actions[1..])
  }

  /** The corrected reducer over a sequence of actions, stopping at the first throw. */
  function ReduceAll(s: State, actions: seq<Action>): Result<State, Error>
    decreases |actions|
  {
    if actions == [] then Ok(s)
    else
      match Reduce(s, actions[0])
      case Err(e) => Err(e)
      case Ok(next) => ReduceAll(next, actions[1..])
  }

  // ------------------------------------------------------------ the initial state

  /** The `pagination` option: absent, a flag, or a page size. */
  datatype PaginationOption = Unset | Flag(enabled: bool) | PerPage(count: int)

  /** `!!options.pagination`. */
  function PaginationEnabled(p: PaginationOption): bool
  {
    match p
    case Unset => false
    case Flag(b) => b
    case PerPage(n) => n != 0
  }

  /** `typeof options.pagination === 'number' ? options.pagination : 10`. */
  function PageSize(p: PaginationOption): int
  {
    if p.PerPage? then p.count else 10
  }

  /** The state passed to `useReducer` (src/hooks.ts:241-263). */
  function Initial(columns: seq<Column>, data: seq<Record>, pagination: PaginationOption,
                   filter: Option<RowFilter>): Result<State, Error>
  {
    var cols := ColumnsWithSorting(columns);
    match Materialize(columns, data)
    case Err(e) => Err(e)
    case Ok(rows) =>
      Ok(State(cols, ColumnsByName(cols), rows, rows, [], false, filter.Some?, None,
               PaginationEnabled(pagination), Pagination(1, PageSize(pagination), true, false),
               rows, None, ""))
  }

  /**
   * The state once `useTable` has mounted: its effects dispatch `SET_ROWS`
   * with the materialized rows, then `GLOBAL_FILTER` when a filter is given.
   */
  function Mount(columns: seq<Column>, data: seq<Record>, pagination: PaginationOption,
                 filter: Option<RowFilter>): Result<State, Error>
  {
    match Initial(columns, data, pagination, filter)
    case Err(e) => Err(e)
    case Ok(s) =>
      var effects := [SetRows(s.originalRows)] + (if filter.Some? then [GlobalFilter(filter.value)] else []);
      ReduceAll(s, effects)
  }
}
