/**
 * What the reducer keeps and computes: the sort bookkeeping stays
 * consistent, the visible rows are always the pipeline over `originalRows`
 * after a pipeline action, page turns undo each other, and the selection
 * actions do what they promise.
 */
module EngineProperties {
  import opened Wrappers
  import opened Sorting
  import opened TableTypes
  import opened Materializer
  import opened Pipeline
  import opened PipelineProperties
  import opened Engine

  // ------------------------------------------------------------- invariants

  /**
   * Column `k` is the one sorted column, named `name`, with a direction;
   * every other column is `{on: false, asc: false}`.
   */
  ghost predicate SortedOn(cols: seq<ColumnState>, k: int, name: string)
  {
    && 0 <= k < |cols| && cols[k].name == name && cols[k].sorted.on && cols[k].sorted.asc.Some?
    && forall i :: 0 <= i < |cols| && i != k ==> cols[i].sorted == SortFlag(false, Some(false))
  }

  /**
   * The column bookkeeping: distinct names, the lookup built from the
   * columns, and `sortColumn` naming the one column switched on (no column
   * on while it is null).
   */
  ghost predicate SortConsistent(s: State)
  {
    && DistinctNames(s.columns)
    && s.columnsByName == ColumnsByName(s.columns)
    && (s.sortColumn.None? ==> forall i :: 0 <= i < |s.columns| ==> !s.columns[i].sorted.on)
    && (s.sortColumn.Some? ==> exists k :: SortedOn(s.columns, k, s.sortColumn.value))
  }

  /**
   * The visible rows are the current page of `unpaginatedRows` (all of them
   * when pagination is off), and the page flags match it.
   */
  ghost predicate PageConsistent(s: State)
  {
    PageSettingsValid(s) && TurnPage(s, s.pagination.page) == s
  }

  /** A page from 1 on, and a positive page size when pagination is on. */
  predicate PageSettingsValid(s: State)
  {
    s.pagination.page >= 1 && (s.paginationEnabled ==> s.pagination.perPage > 0)
  }

  lemma SortedOnUnique(cols: seq<ColumnState>, k: int, j: int, name: string)
    requires SortedOn(cols, k, name) && SortedOn(cols, j, name)
    ensures k == j
  {
  }

  /** `originalRows` in the order of the sorted column, if any. */
  ghost function Ordered(s: State): seq<Row>
    requires SortConsistent(s)
  {
    match s.sortColumn
    case None => s.originalRows
    case Some(name) =>
      var k :| SortedOn(s.columns, k, name);
      SortBy(s.originalRows, Directed(ColumnComparator(s.columns[k]), s.columns[k].sorted.asc.value))
  }

  /** The rows the pipeline shows before pagination. */
  ghost function View(s: State): seq<Row>
    requires SortConsistent(s)
  {
    GetSearchedData(GetFilteredData(Ordered(s), s.selectedRows, s.filter), s.searchString)
  }

  // ------------------------------------------------------------ the sort step

  /** The direction read back is the one of the first column switched on. */
  lemma {:induction false} ActiveDirectionFirst(cols: seq<ColumnState>, k: nat)
    requires k < |cols| && cols[k].sorted.on
    requires forall i :: 0 <= i < k ==> !cols[i].sorted.on
    ensures ActiveDirection(cols) == cols[k].sorted.asc
    decreases k
  {
    if k > 0 {
      ActiveDirectionFirst(cols[1..], k - 1);
    }
  }

  /** Re-marking with the direction read back changes no column. */
  lemma RemarkKeepsColumns(cols: seq<ColumnState>, k: int, name: string)
    requires DistinctNames(cols) && SortedOn(cols, k, name)
    ensures MarkColumns(cols, name, ActiveDirection(cols)) == cols
  {
    ActiveDirectionFirst(cols, k);
    var marked := MarkColumns(cols, name, ActiveDirection(cols));
    forall i | 0 <= i < |cols|
      ensures marked[i] == cols[i]
    {
      if i != k {
        assert cols[i].name != name;
      }
    }
  }

  /** Two states that agree on the columns, the sorted column and `originalRows` agree on the order. */
  lemma SameSortFields(t: State, r: State)
    requires SortConsistent(t)
    requires r.columns == t.columns && r.columnsByName == t.columnsByName
    requires r.sortColumn == t.sortColumn && r.originalRows == t.originalRows
    ensures SortConsistent(r) && Ordered(r) == Ordered(t)
  {
  }

  /** What the sort stage keeps of the state: everything but the rows and the sort fields. */
  ghost predicate SortStageKeeps(s: State, a: Action, t: State)
  {
    t == s.(rows := t.rows, originalRows := DataOf(s, a), columns := t.columns,
            columnsByName := t.columnsByName, sortColumn := t.sortColumn)
  }

  /** The sort stage of `TOGGLE_SORT` on an existing column. */
  lemma SortStageToggle(s: State, a: Action)
    requires SortConsistent(s) && a.ToggleSort? && a.columnName in s.columnsByName
    ensures SortStage(s, a).Ok?
    ensures var t := SortStage(s, a).value;
      SortConsistent(t) && t.rows == Ordered(t) && SortStageKeeps(s, a, t) && t.sortColumn == Some(a.columnName)
  {
    var name := a.columnName;
    var k := NameIndex(s.columns, name);
    var marked := MarkColumns(s.columns, name, a.isAscOverride);
    ToggleShape(s, a, k);
    MarkColumnsOnly(s.columns, name, a.isAscOverride, k);
    assert Names(marked) == Names(s.columns);
    assert SortedOn(marked, k, name);
  }

  /** The sort stage of `TOGGLE_SORT` on column `k`: marked columns, rows sorted by that column. */
  lemma ToggleShape(s: State, a: Action, k: nat)
    requires SortConsistent(s) && a.ToggleSort? && k < |s.columns| && s.columns[k].name == a.columnName
    ensures var marked := MarkColumns(s.columns, a.columnName, a.isAscOverride);
      SortStage(s, a) == Ok(s.(rows := SortBy(s.originalRows, SortComparator(s.columns[k], a.isAscOverride)),
                               columns := marked, columnsByName := ColumnsByName(marked),
                               sortColumn := Some(a.columnName)))
  {
    assert s.columns[k] in s.columns;
    ApplySortsOnce(s.columns, a.columnName, a.isAscOverride, s.originalRows, k);
  }

  /** Sorting again by the column that is on, in its own direction, keeps the columns and their lookup. */
  lemma GetSortedDataResort(rows: seq<Row>, cols: seq<ColumnState>, k: int, name: string)
    requires DistinctNames(cols) && SortedOn(cols, k, name)
    ensures GetSortedData(rows, cols, ColumnsByName(cols), Some(name), ActiveDirection(cols))
      == Ok(Resorted(cols, SortBy(rows, Directed(ColumnComparator(cols[k]), cols[k].sorted.asc.value)), name, ColumnsByName(cols)))
  {
    var override := ActiveDirection(cols);
    RemarkKeepsColumns(cols, k, name);
    ActiveDirectionFirst(cols, k);
    assert cols[k] in cols;
    ApplySortsOnce(cols, name, override, rows, k);
  }

  /** Re-sorting by the sorted column in its own direction leaves the columns as they are. */
  lemma ResortShape(s: State, a: Action, k: int)
    requires SortConsistent(s) && IsPipelineAction(a) && !a.ToggleSort? && s.sortColumn.Some?
    requires SortedOn(s.columns, k, s.sortColumn.value)
    ensures SortStage(s, a) == Ok(s.(rows := SortBy(DataOf(s, a), Directed(ColumnComparator(s.columns[k]), s.columns[k].sorted.asc.value)),
                                    originalRows := DataOf(s, a)))
  {
    GetSortedDataResort(DataOf(s, a), s.columns, k, s.sortColumn.value);
  }

  /** The sort stage of any other pipeline action while a column is sorted: the same sort again. */
  lemma SortStageResort(s: State, a: Action)
    requires SortConsistent(s) && IsPipelineAction(a) && !a.ToggleSort? && s.sortColumn.Some?
    ensures SortStage(s, a).Ok?
    ensures var t := SortStage(s, a).value;
      && SortConsistent(t) && t.rows == Ordered(t) && SortStageKeeps(s, a, t)
      && t.columns == s.columns && t.columnsByName == s.columnsByName && t.sortColumn == s.sortColumn
  {
    var k :| SortedOn(s.columns, k, s.sortColumn.value);
    ResortShape(s, a, k);
  }

  /**
   * The sort stage fails only when `TOGGLE_SORT` names a missing column;
   * otherwise the columns stay consistent, its rows are `originalRows` in the
   * order of the sorted column, and only `TOGGLE_SORT` changes the columns.
   */
  lemma SortStageSpec(s: State, a: Action)
    requires SortConsistent(s) && IsPipelineAction(a)
    ensures a.ToggleSort? && a.columnName !in s.columnsByName ==> SortStage(s, a) == Err(InvalidColumn(a.columnName))
    ensures !(a.ToggleSort? && a.columnName !in s.columnsByName) ==>
      && SortStage(s, a).Ok?
      && var t := SortStage(s, a).value;
      && SortConsistent(t)
      && t.rows == Ordered(t)
      && SortStageKeeps(s, a, t)
      && (!a.ToggleSort? ==> t.columns == s.columns && t.columnsByName == s.columnsByName && t.sortColumn == s.sortColumn)
      && (a.ToggleSort? ==> t.sortColumn == Some(a.columnName))
  {
    if a.ToggleSort? {
      if a.columnName in s.columnsByName {
        SortStageToggle(s, a);
      }
    } else if s.sortColumn.Some? {
      SortStageResort(s, a);
    }
  }

  /** The filter a pipeline action leaves in the state. */
  function FilterAfter(s: State, a: Action): Option<RowFilter>
  {
    if a.GlobalFilter? then Some(a.filter) else if a.GlobalFilterOff? then None else s.filter
  }

  /** The search string a pipeline action leaves in the state. */
  function SearchAfter(s: State, a: Action): string
  {
    if a.SearchString? then a.searchString else s.searchString
  }

  /** The rows a pipeline action starts from. */
  function DataOf(s: State, a: Action): seq<Row>
  {
    if a.SetRows? then a.data else s.originalRows
  }

  /**
   * The filter, search and pagination stages: they set the filter and the
   * search string, put the searched rows in `unpaginatedRows`, show page 1
   * of them, and touch nothing else.
   */
  lemma FinishStagesSpec(t: State, a: Action)
    requires PageSettingsValid(t)
    ensures var r := FinishStages(t, a);
      && PageConsistent(r)
      && r.filter == FilterAfter(t, a)
      && r.searchString == SearchAfter(t, a)
      && r.unpaginatedRows == GetSearchedData(GetFilteredData(t.rows, t.selectedRows, r.filter), r.searchString)
      && (r.paginationEnabled ==> r.pagination.page == 1)
      && r == t.(rows := r.rows, unpaginatedRows := r.unpaginatedRows, filter := r.filter,
                 searchString := r.searchString, pagination := r.pagination)
      && r.pagination.perPage == t.pagination.perPage
  {
  }

  /**
   * A pipeline action fails only when `TOGGLE_SORT` names a column that
   * does not exist; otherwise it sets `originalRows`, the filter and the
   * search string, keeps the selection and the consistency of the columns
   * and pages, and `unpaginatedRows` is exactly the pipeline over
   * `originalRows`, shown from page 1.
   */
  lemma PipelineSpec(s: State, a: Action)
    requires SortConsistent(s) && PageSettingsValid(s) && IsPipelineAction(a)
    ensures a.ToggleSort? && a.columnName !in s.columnsByName ==> Reduce(s, a) == Err(InvalidColumn(a.columnName))
    ensures !(a.ToggleSort? && a.columnName !in s.columnsByName) ==>
      && Reduce(s, a).Ok?
      && var r := Reduce(s, a).value;
      && SortConsistent(r) && PageConsistent(r)
      && r.originalRows == DataOf(s, a)
      && r.selectedRows == s.selectedRows
      && r.filter == FilterAfter(s, a)
      && r.searchString == SearchAfter(s, a)
      && r.unpaginatedRows == View(r)
      && (r.paginationEnabled ==> r.pagination.page == 1)
      && r.paginationEnabled == s.paginationEnabled && r.pagination.perPage == s.pagination.perPage
      && r.toggleAllState == s.toggleAllState
  {
    SortStageSpec(s, a);
    if !(a.ToggleSort? && a.columnName !in s.columnsByName) {
      var t := SortStage(s, a).value;
      FinishStagesSpec(t, a);
      SameSortFields(t, FinishStages(t, a));
    }
  }

  /**
   * Every pipeline action but `TOGGLE_SORT` succeeds and keeps the columns,
   * the lookup and the sorted column; `SET_ROWS` keeps `selectedRows` even
   * though the rows are replaced.
   */
  lemma PipelineKeepsColumns(s: State, a: Action)
    requires SortConsistent(s) && IsPipelineAction(a) && !a.ToggleSort?
    ensures Reduce(s, a).Ok?
    ensures Reduce(s, a).value.columns == s.columns
    ensures Reduce(s, a).value.columnsByName == s.columnsByName
    ensures Reduce(s, a).value.sortColumn == s.sortColumn
    ensures Reduce(s, a).value.selectedRows == s.selectedRows
  {
    SortStageSpec(s, a);
  }

  /**
   * `TOGGLE_SORT` on column `k`: that column is switched on with the chosen
   * direction and every other column is off.
   */
  lemma ToggleSortMarks(s: State, k: nat, override: Option<bool>)
    requires SortConsistent(s) && k < |s.columns|
    ensures var name := s.columns[k].name;
      && Reduce(s, ToggleSort(name, override)).Ok?
      && var r := Reduce(s, ToggleSort(name, override)).value;
      && SortConsistent(r)
      && r.sortColumn == Some(name)
      && |r.columns| == |s.columns|
      && r.columns[k] == s.columns[k].(sorted := SortFlag(true, Some(Direction(s.columns[k].sorted.asc, override))))
      && (forall i :: 0 <= i < |s.columns| && i != k ==>
            r.columns[i] == s.columns[i].(sorted := SortFlag(false, Some(false))))
  {
    var name := s.columns[k].name;
    var a := ToggleSort(name, override);
    assert s.columns[k] in s.columns;
    SortStageToggle(s, a);
    GetSortedDataMarks(s.originalRows, s.columns, name, override, k);
    var t := SortStage(s, a).value;
    FinishStagesKeeps(t, a);
    SameSortFields(t, FinishStages(t, a));
  }

  /**
   * `TOGGLE_SORT` on column `k`: besides the marks, the view is
   * `originalRows` sorted by the column's comparator in the chosen direction.
   */
  lemma ToggleSortSpec(s: State, k: nat, override: Option<bool>)
    requires SortConsistent(s) && k < |s.columns|
    ensures var name := s.columns[k].name;
      var dir := Direction(s.columns[k].sorted.asc, override);
      && Reduce(s, ToggleSort(name, override)).Ok?
      && var r := Reduce(s, ToggleSort(name, override)).value;
      && SortConsistent(r)
      && r.sortColumn == Some(name)
      && |r.columns| == |s.columns|
      && r.columns[k] == s.columns[k].(sorted := SortFlag(true, Some(dir)))
      && (forall i :: 0 <= i < |s.columns| && i != k ==>
            r.columns[i] == s.columns[i].(sorted := SortFlag(false, Some(false))))
      && Ordered(r) == SortBy(s.originalRows, Directed(ColumnComparator(s.columns[k]), dir))
  {
    var name := s.columns[k].name;
    var a := ToggleSort(name, override);
    assert s.columns[k] in s.columns;
    ToggleSortMarks(s, k, override);
    SortStageToggle(s, a);
    GetSortedDataMarks(s.originalRows, s.columns, name, override, k);
    var t := SortStage(s, a).value;
    SameSortFields(t, FinishStages(t, a));
  }

  /** `TOGGLE_SORT` on a name that is not a column throws. */
  lemma ToggleSortUnknown(s: State, name: string, override: Option<bool>)
    requires SortConsistent(s)
    requires forall i :: 0 <= i < |s.columns| ==> s.columns[i].name != name
    ensures Reduce(s, ToggleSort(name, override)) == Err(InvalidColumn(name))
  {
    if name in s.columnsByName {
      var k := NameIndex(s.columns, name);
    }
  }

  /** Toggling the same column twice without an override reverses the direction. */
  lemma ToggleSortTwiceFlips(s: State, k: nat)
    requires SortConsistent(s) && k < |s.columns|
    ensures var name := s.columns[k].name;
      && Reduce(s, ToggleSort(name, None)).Ok?
      && var r1 := Reduce(s, ToggleSort(name, None)).value;
      && Reduce(r1, ToggleSort(name, None)).Ok?
      && var r2 := Reduce(r1, ToggleSort(name, None)).value;
      && r1.columns[k].sorted.asc.Some? && r2.columns[k].sorted.asc.Some?
      && r2.columns[k].sorted.asc.value == !r1.columns[k].sorted.asc.value
  {
    var name := s.columns[k].name;
    ToggleSortSpec(s, k, None);
    var r1 := Reduce(s, ToggleSort(name, None)).value;
    ToggleSortSpec(r1, k, None);
  }

  /** The first toggle of a column that was never sorted sorts it ascending. */
  lemma FirstToggleAscends(s: State, k: nat)
    requires SortConsistent(s) && k < |s.columns| && s.columns[k].sorted.asc.None?
    ensures Reduce(s, ToggleSort(s.columns[k].name, None)).Ok?
    ensures Reduce(s, ToggleSort(s.columns[k].name, None)).value.columns[k].sorted == SortFlag(true, Some(true))
  {
    ToggleSortSpec(s, k, None);
  }

  /** The page fields and `unpaginatedRows`, which the pipeline overwrites, do not matter to it. */
  lemma FinishStagesIgnoresPage(t: State, a: Action, pg: Pagination, u: seq<Row>)
    requires pg.perPage == t.pagination.perPage
    requires !t.paginationEnabled ==> pg == t.pagination
    ensures FinishStages(t.(pagination := pg, unpaginatedRows := u), a) == FinishStages(t, a)
  {
  }

  /** The pipeline stages after sorting keep the sort fields and the selection. */
  lemma FinishStagesKeeps(t: State, a: Action)
    ensures var r := FinishStages(t, a);
      && r.columns == t.columns && r.columnsByName == t.columnsByName && r.sortColumn == t.sortColumn
      && r.originalRows == t.originalRows && r.selectedRows == t.selectedRows
  {
  }

  /** Toggling again with the same override leaves the columns as they are. */
  lemma ToggleSortColumnsStable(s: State, k: nat, asc: bool)
    requires SortConsistent(s) && k < |s.columns|
    ensures var a := ToggleSort(s.columns[k].name, Some(asc));
      && Reduce(s, a).Ok?
      && Reduce(Reduce(s, a).value, a).Ok?
      && Reduce(Reduce(s, a).value, a).value.columns == Reduce(s, a).value.columns
  {
    var a := ToggleSort(s.columns[k].name, Some(asc));
    ToggleSortMarks(s, k, Some(asc));
    var r1 := Reduce(s, a).value;
    ToggleSortMarks(r1, k, Some(asc));
    var r2 := Reduce(r1, a).value;
    RemarkIsStable(s.columns, r1.columns, r2.columns, k, asc);
  }

  /** Marking the columns a second time with the same column and direction changes nothing. */
  lemma RemarkIsStable(c0: seq<ColumnState>, c1: seq<ColumnState>, c2: seq<ColumnState>, k: nat, asc: bool)
    requires k < |c0| == |c1| == |c2|
    requires c1[k] == c0[k].(sorted := SortFlag(true, Some(asc)))
    requires c2[k] == c1[k].(sorted := SortFlag(true, Some(Direction(c1[k].sorted.asc, Some(asc)))))
    requires forall i :: 0 <= i < |c0| && i != k ==> c1[i] == c0[i].(sorted := SortFlag(false, Some(false)))
    requires forall i :: 0 <= i < |c1| && i != k ==> c2[i] == c1[i].(sorted := SortFlag(false, Some(false)))
    ensures c2 == c1
  {
    forall i | 0 <= i < |c1|
      ensures c2[i] == c1[i]
    {
      if i != k {
        assert c1[i].sorted == SortFlag(false, Some(false));
      }
    }
  }

  /** An override fixes the direction: toggling again with it changes nothing. */
  lemma ToggleSortOverrideIdempotent(s: State, k: nat, asc: bool)
    requires SortConsistent(s) && PageSettingsValid(s) && k < |s.columns|
    ensures var a := ToggleSort(s.columns[k].name, Some(asc));
      && Reduce(s, a).Ok?
      && Reduce(Reduce(s, a).value, a) == Reduce(s, a)
  {
    var name := s.columns[k].name;
    var a := ToggleSort(name, Some(asc));
    ToggleSortSpec(s, k, Some(asc));
    ToggleSortColumnsStable(s, k, asc);
    var r1 := Reduce(s, a).value;
    ToggleSortSpec(r1, k, Some(asc));
    SortStageSpec(s, a);
    SortStageSpec(r1, a);
    var t1 := SortStage(s, a).value;
    var t2 := SortStage(r1, a).value;
    assert Reduce(s, a) == Ok(FinishStages(t1, a));
    assert Reduce(r1, a) == Ok(FinishStages(t2, a));
    FinishStagesKeeps(t1, a);
    FinishStagesKeeps(t2, a);
    FinishStagesSpec(t1, a);
    SameSortFields(t1, t2);
    assert t2 == t1.(pagination := r1.pagination, unpaginatedRows := r1.unpaginatedRows);
    FinishStagesIgnoresPage(t1, a, r1.pagination, r1.unpaginatedRows);
  }
}
