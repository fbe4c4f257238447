/**
 * The reducer as a whole: when it throws, that it keeps the state
 * consistent over any sequence of actions, and what the table looks like
 * once `useTable` has mounted.
 */
module ReducerProperties {
  import opened Wrappers
  import opened TableTypes
  import opened Materializer
  import opened Pipeline
  import opened PipelineProperties
  import opened Engine
  import opened EngineProperties
  import opened SelectionProperties

  /** The column bookkeeping and the pages are both consistent. */
  ghost predicate Consistent(s: State)
  {
    SortConsistent(s) && PageConsistent(s)
  }

  /**
   * The reducer throws exactly on an unknown action and on `TOGGLE_SORT`
   * with a name that is not a column.
   */
  lemma ReduceFailsExactly(s: State, a: Action)
    requires SortConsistent(s)
    ensures Reduce(s, a).Err? <==> a.Unrecognized? || (a.ToggleSort? && a.columnName !in Names(s.columns))
    ensures a.Unrecognized? ==> Reduce(s, a) == Err(InvalidAction)
    ensures a.ToggleSort? && a.columnName !in Names(s.columns) ==> Reduce(s, a) == Err(InvalidColumn(a.columnName))
  {
    if a.ToggleSort? {
      if a.columnName in s.columnsByName {
        var k := NameIndex(s.columns, a.columnName);
        assert Names(s.columns)[k] == a.columnName;
      } else {
        forall n | n in Names(s.columns)
          ensures n != a.columnName
        {
          var i :| 0 <= i < |s.columns| && Names(s.columns)[i] == n;
          assert s.columns[i] in s.columns;
        }
      }
    }
    if IsPipelineAction(a) {
      SortStageSpec(s, a);
    }
  }

  /** Every action that does not throw keeps the state consistent. */
  lemma ReducePreservesConsistency(s: State, a: Action)
    requires Consistent(s) && Reduce(s, a).Ok?
    ensures Consistent(Reduce(s, a).value)
  {
    match a
    case NextPage => NextPageSpec(s);
    case PrevPage => PrevPageSpec(s);
    case SelectRow(id) => SelectRowKeepsPages(s, id);
    case ToggleAll => ToggleAllKeepsPages(s);
    case Unrecognized(_) =>
    case _ => PipelineSpec(s, a);
  }

  /** Over any sequence of actions the state stays consistent until a throw. */
  lemma {:induction false} ReduceAllPreservesConsistency(s: State, actions: seq<Action>)
    requires Consistent(s) && ReduceAll(s, actions).Ok?
    ensures Consistent(ReduceAll(s, actions).value)
    decreases |actions|
  {
    if actions != [] {
      ReducePreservesConsistency(s, actions[0]);
      ReduceAllPreservesConsistency(Reduce(s, actions[0]).value, actions[1..]);
    }
  }

  // ------------------------------------------------- the reducer as written

  /**
   * The reducer as written throws on the same actions as the corrected one
   * and agrees with it except that `SELECT_ROW` and `TOGGLE_ALL` leave
   * `unpaginatedRows` as it was.
   */
  lemma AsWrittenDiffers(s: State, a: Action)
    ensures ReduceAsWritten(s, a).Err? <==> Reduce(s, a).Err?
    ensures !a.SelectRow? && !a.ToggleAll? ==> ReduceAsWritten(s, a) == Reduce(s, a)
    ensures a.SelectRow? || a.ToggleAll? ==>
      ReduceAsWritten(s, a) == Ok(Reduce(s, a).value.(unpaginatedRows := s.unpaginatedRows))
  {
  }

  /**
   * What the reducer as written keeps of `PageConsistent`: the page settings
   * are valid, the page fields match `unpaginatedRows`, and the visible rows
   * are the current page of `unpaginatedRows` except for their `selected`
   * flags.
   */
  ghost predicate PageAligned(s: State)
  {
    && PageSettingsValid(s)
    && var t := TurnPage(s, s.pagination.page);
    && t.pagination == s.pagination
    && |t.rows| == |s.rows|
    && forall i :: 0 <= i < |s.rows| ==> s.rows[i] == t.rows[i].(selected := s.rows[i].selected)
  }

  /** Turning to any page from 1 on leaves the pages consistent. */
  lemma TurnPageConsistent(s: State, p: int)
    requires PageSettingsValid(s) && p >= 1
    ensures PageConsistent(TurnPage(s, p))
  {
    var r := TurnPage(s, p);
    if s.paginationEnabled {
      TurnPageTwice(s, p, r.pagination.page);
    } else {
      TurnPageTwice(s, p, p);
    }
  }

  /** As written, `SELECT_ROW` keeps the page aligned. */
  lemma SelectRowAsWrittenAligned(s: State, id: int)
    requires PageAligned(s)
    ensures PageAligned(SelectRowAsWritten(s, id))
  {
    var r := SelectRowAsWritten(s, id);
    assert TurnPage(r, r.pagination.page).rows == TurnPage(s, s.pagination.page).rows;
  }

  /** As written, `TOGGLE_ALL` keeps the page aligned. */
  lemma ToggleAllAsWrittenAligned(s: State)
    requires PageAligned(s)
    ensures PageAligned(ToggleAllAsWritten(s))
  {
    var r := ToggleAllAsWritten(s);
    assert TurnPage(r, r.pagination.page).rows == TurnPage(s, s.pagination.page).rows;
  }

  /** As written, a page turn keeps the bookkeeping and makes the pages consistent. */
  lemma AsWrittenPageTurn(s: State, a: Action)
    requires SortConsistent(s) && PageSettingsValid(s) && (a.NextPage? || a.PrevPage?)
    ensures ReduceAsWritten(s, a).Ok?
    ensures SortConsistent(ReduceAsWritten(s, a).value) && PageConsistent(ReduceAsWritten(s, a).value)
  {
    var p := if a.NextPage? then s.pagination.page + 1
             else if s.pagination.page == 1 then 1 else s.pagination.page - 1;
    assert ReduceAsWritten(s, a) == Ok(TurnPage(s, p));
    TurnPageConsistent(s, p);
  }

  /** As written, a selection action keeps the bookkeeping and the alignment. */
  lemma AsWrittenSelection(s: State, a: Action)
    requires SortConsistent(s) && PageAligned(s) && (a.SelectRow? || a.ToggleAll?)
    ensures ReduceAsWritten(s, a).Ok?
    ensures SortConsistent(ReduceAsWritten(s, a).value) && PageAligned(ReduceAsWritten(s, a).value)
  {
    if a.SelectRow? {
      assert ReduceAsWritten(s, a) == Ok(SelectRowAsWritten(s, a.rowId));
      SelectRowAsWrittenAligned(s, a.rowId);
    } else {
      assert ReduceAsWritten(s, a) == Ok(ToggleAllAsWritten(s));
      ToggleAllAsWrittenAligned(s);
    }
  }

  /** As written, a pipeline action that does not throw makes the state consistent. */
  lemma AsWrittenPipeline(s: State, a: Action)
    requires SortConsistent(s) && PageSettingsValid(s) && IsPipelineAction(a) && ReduceAsWritten(s, a).Ok?
    ensures SortConsistent(ReduceAsWritten(s, a).value) && PageConsistent(ReduceAsWritten(s, a).value)
  {
    assert ReduceAsWritten(s, a) == Reduce(s, a) == RunPipeline(s, a);
    PipelineSpec(s, a);
  }

  /**
   * Every action the reducer as written does not throw on keeps the column
   * bookkeeping consistent and the page aligned; page turns and pipeline
   * actions restore full page consistency.
   */
  lemma AsWrittenPreservesAlignment(s: State, a: Action)
    requires SortConsistent(s) && PageAligned(s) && ReduceAsWritten(s, a).Ok?
    ensures SortConsistent(ReduceAsWritten(s, a).value) && PageAligned(ReduceAsWritten(s, a).value)
    ensures !a.SelectRow? && !a.ToggleAll? ==> PageConsistent(ReduceAsWritten(s, a).value)
  {
    if a.NextPage? || a.PrevPage? {
      AsWrittenPageTurn(s, a);
      PageConsistentAligned(ReduceAsWritten(s, a).value);
    } else if a.SelectRow? || a.ToggleAll? {
      AsWrittenSelection(s, a);
    } else if !a.Unrecognized? {
      AsWrittenPipeline(s, a);
      PageConsistentAligned(ReduceAsWritten(s, a).value);
    }
  }

  /** A consistent page is aligned. */
  lemma PageConsistentAligned(s: State)
    requires PageConsistent(s)
    ensures PageAligned(s)
  {
  }

  /** Over any sequence of actions the reducer as written keeps the bookkeeping and the alignment. */
  lemma {:induction false} AsWrittenAllPreservesAlignment(s: State, actions: seq<Action>)
    requires SortConsistent(s) && PageAligned(s) && ReduceAllAsWritten(s, actions).Ok?
    ensures SortConsistent(ReduceAllAsWritten(s, actions).value) && PageAligned(ReduceAllAsWritten(s, actions).value)
    decreases |actions|
  {
    if actions != [] {
      AsWrittenPreservesAlignment(s, actions[0]);
      AsWrittenAllPreservesAlignment(ReduceAsWritten(s, actions[0]).value, actions[1..]);
    }
  }

  /**
   * As written, `SELECT_ROW` takes the consistent two-page state to one whose
   * page is only aligned: the visible row is selected, its copy in
   * `unpaginatedRows` is not.
   */
  lemma AsWrittenBreaksPageConsistency()
    ensures Consistent(TwoPages())
    ensures var r := ReduceAsWritten(TwoPages(), SelectRow(0)).value;
      PageAligned(r) && !PageConsistent(r)
  {
    TwoPagesConsistent();
    var s := TwoPages();
    SelectRowAsWrittenAligned(s, 0);
    var r := SelectRowAsWritten(s, 0);
    assert r.rows == [s.rows[0].(selected := true)];
    assert r.unpaginatedRows == s.unpaginatedRows;
    assert JsSlice(s.unpaginatedRows, 0, 1) == [s.unpaginatedRows[0]];
    assert TurnPage(r, 1).rows == [s.unpaginatedRows[0]];
  }

  /** The two-page state is consistent. */
  lemma TwoPagesConsistent()
    ensures Consistent(TwoPages())
  {
    var s := TwoPages();
    assert JsSlice(s.unpaginatedRows, 0, 1) == s.rows;
    assert TurnPage(s, 1) == s;
  }

  /** The state `useTable` starts from has consistent columns and valid page settings. */
  lemma InitialConsistent(columns: seq<Column>, data: seq<Record>, pagination: PaginationOption, filter: Option<RowFilter>)
    requires forall i, j :: 0 <= i < j < |columns| ==> columns[i].name != columns[j].name
    requires pagination.PerPage? ==> pagination.count >= 0
    ensures Initial(columns, data, pagination, filter).Ok? <==> Materialize(columns, data).Ok?
    ensures Initial(columns, data, pagination, filter).Ok? ==>
      var s := Initial(columns, data, pagination, filter).value;
      && SortConsistent(s) && PageSettingsValid(s)
      && s.columns == ColumnsWithSorting(columns)
      && s.originalRows == Materialize(columns, data).value
      && s.selectedRows == [] && s.sortColumn.None? && s.filter.None? && s.searchString == ""
      && s.filterOn == filter.Some?
  {
  }

  /** Mounting is `SET_ROWS` with the materialized rows, then `GLOBAL_FILTER` when a filter is given. */
  lemma MountSteps(columns: seq<Column>, data: seq<Record>, pagination: PaginationOption, filter: Option<RowFilter>)
    requires Initial(columns, data, pagination, filter).Ok?
    ensures var s0 := Initial(columns, data, pagination, filter).value;
      Mount(columns, data, pagination, filter) ==
        match Reduce(s0, SetRows(s0.originalRows))
        case Err(e) => Err(e)
        case Ok(s1) => if filter.Some? then Reduce(s1, GlobalFilter(filter.value)) else Ok(s1)
  {
    var s0 := Initial(columns, data, pagination, filter).value;
    var a1 := SetRows(s0.originalRows);
    if filter.Some? {
      var a2 := GlobalFilter(filter.value);
      assert [a1, a2][1..] == [a2] && [a2][1..] == [];
      if Reduce(s0, a1).Ok? {
        var s1 := Reduce(s0, a1).value;
        if Reduce(s1, a2).Ok? {
          assert ReduceAll(Reduce(s1, a2).value, []) == Reduce(s1, a2);
        }
        assert ReduceAll(s1, [a2]) == Reduce(s1, a2);
      }
    } else {
      assert [a1] + [] == [a1] && [a1][1..] == [];
      if Reduce(s0, a1).Ok? {
        assert ReduceAll(Reduce(s0, a1).value, []) == Reduce(s0, a1);
      }
    }
  }

  /** With no sort, no selection and no search, the view is the filter applied to `originalRows`. */
  lemma UnsortedView(s: State)
    requires SortConsistent(s) && s.sortColumn.None? && s.selectedRows == [] && s.searchString == ""
    ensures View(s) == if s.filter.Some? then s.filter.value(s.originalRows) else s.originalRows
  {
    if s.filter.Some? {
      var kept := s.filter.value(s.originalRows);
      assert SelectedById([]) == map[];
      assert KeepSelection(kept, map[]) == kept;
    }
  }

  /**
   * Once mounted, the table shows the materialized rows through the given
   * filter, unsorted and unsearched, from page 1, with nothing selected and
   * a consistent state; it throws exactly when a record misses a column.
   */
  lemma MountSpec(columns: seq<Column>, data: seq<Record>, pagination: PaginationOption, filter: Option<RowFilter>)
    requires forall i, j :: 0 <= i < j < |columns| ==> columns[i].name != columns[j].name
    requires pagination.PerPage? ==> pagination.count >= 0
    ensures Mount(columns, data, pagination, filter).Ok? <==> Materialize(columns, data).Ok?
    ensures Mount(columns, data, pagination, filter).Ok? ==>
      var s := Mount(columns, data, pagination, filter).value;
      var rows := Materialize(columns, data).value;
      && Consistent(s)
      && s.originalRows == rows
      && s.selectedRows == []
      && s.sortColumn.None?
      && s.filter == filter
      && s.unpaginatedRows == (if filter.Some? then filter.value(rows) else rows)
      && (s.paginationEnabled ==> s.pagination.page == 1)
  {
    InitialConsistent(columns, data, pagination, filter);
    if Initial(columns, data, pagination, filter).Ok? {
      MountSteps(columns, data, pagination, filter);
      var s0 := Initial(columns, data, pagination, filter).value;
      var a1 := SetRows(s0.originalRows);
      PipelineSpec(s0, a1);
      PipelineKeepsColumns(s0, a1);
      var s1 := Reduce(s0, a1).value;
      if filter.Some? {
        var a2 := GlobalFilter(filter.value);
        PipelineSpec(s1, a2);
        PipelineKeepsColumns(s1, a2);
        UnsortedView(Reduce(s1, a2).value);
      } else {
        UnsortedView(s1);
      }
    }
  }
}
