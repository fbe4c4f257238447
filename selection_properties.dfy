/**
 * Page turns and selection: `NEXT_PAGE` and `PREV_PAGE` undo each other,
 * `SELECT_ROW` is an involution, `TOGGLE_ALL` selects or clears exactly the
 * visible rows, and both selection actions keep the visible page in step
 * with `unpaginatedRows` — which the actions as written in src/hooks.ts do
 * not.
 */
module SelectionProperties {
  import opened Wrappers
  import opened TableTypes
  import opened Pipeline
  import opened PipelineProperties
  import opened Engine
  import opened EngineProperties

  // ------------------------------------------------------------------ pages

  /** What `PageConsistent` says field by field. */
  lemma PageConsistentFields(s: State)
    requires PageConsistent(s)
    ensures s.rows == GetPaginatedData(s.unpaginatedRows, s.paginationEnabled, s.pagination.perPage, s.pagination.page).rows
    ensures s.paginationEnabled ==>
      && s.pagination.canNext == (s.pagination.page * s.pagination.perPage < |s.unpaginatedRows|)
      && s.pagination.canPrev == (s.pagination.page != 1)
  {
    var p := GetPaginatedData(s.unpaginatedRows, s.paginationEnabled, s.pagination.perPage, s.pagination.page);
    assert TurnPage(s, s.pagination.page).rows == p.rows;
    assert TurnPage(s, s.pagination.page).pagination == s.pagination;
  }

  /** The fields of `PageConsistent` give it back. */
  lemma PageConsistentIntro(s: State)
    requires s.pagination.page >= 1 && (s.paginationEnabled ==> s.pagination.perPage > 0)
    requires s.rows == GetPaginatedData(s.unpaginatedRows, s.paginationEnabled, s.pagination.perPage, s.pagination.page).rows
    requires s.paginationEnabled ==>
      && s.pagination.canNext == (s.pagination.page * s.pagination.perPage < |s.unpaginatedRows|)
      && s.pagination.canPrev == (s.pagination.page != 1)
    ensures PageConsistent(s)
  {
  }

  /** A page turn overwrites everything an earlier one set. */
  lemma TurnPageTwice(s: State, p: int, q: int)
    ensures TurnPage(TurnPage(s, p), q) == TurnPage(s, q)
  {
  }

  /** With pagination off the page number is irrelevant. */
  lemma TurnPageDisabled(s: State, p: int, q: int)
    requires !s.paginationEnabled
    ensures TurnPage(s, p) == TurnPage(s, q)
  {
  }

  /**
   * `NEXT_PAGE` with pagination on: page `page + 1` of `unpaginatedRows` is
   * shown, `canPrev` is set, and nothing but the rows and the page fields
   * changes; with pagination off nothing changes.
   */
  lemma NextPageSpec(s: State)
    requires PageConsistent(s)
    ensures Reduce(s, NextPage).Ok?
    ensures var r := Reduce(s, NextPage).value;
      && PageConsistent(r)
      && r == s.(rows := r.rows, pagination := r.pagination)
      && (!s.paginationEnabled ==> r == s)
      && (s.paginationEnabled ==>
            && r.pagination.page == s.pagination.page + 1
            && r.pagination.canPrev
            && r.pagination.canNext == ((s.pagination.page + 1) * s.pagination.perPage < |s.unpaginatedRows|)
            && r.rows == GetPaginatedData(s.unpaginatedRows, true, s.pagination.perPage, s.pagination.page + 1).rows)
  {
    var r := TurnPage(s, s.pagination.page + 1);
    TurnPageTwice(s, s.pagination.page + 1, r.pagination.page);
    if !s.paginationEnabled {
      TurnPageDisabled(s, s.pagination.page + 1, s.pagination.page);
    }
  }

  /**
   * `PREV_PAGE` goes one page back but never below page 1, and changes
   * nothing but the rows and the page fields.
   */
  lemma PrevPageSpec(s: State)
    requires PageConsistent(s)
    ensures Reduce(s, PrevPage).Ok?
    ensures var r := Reduce(s, PrevPage).value;
      && PageConsistent(r)
      && r == s.(rows := r.rows, pagination := r.pagination)
      && (!s.paginationEnabled ==> r == s)
      && (s.paginationEnabled ==>
            && r.pagination.page == (if s.pagination.page == 1 then 1 else s.pagination.page - 1)
            && r.pagination.canPrev == (r.pagination.page != 1))
  {
    var q := if s.pagination.page == 1 then 1 else s.pagination.page - 1;
    var r := TurnPage(s, q);
    TurnPageTwice(s, q, r.pagination.page);
    if !s.paginationEnabled {
      TurnPageDisabled(s, q, s.pagination.page);
    }
  }

  /** `NEXT_PAGE` then `PREV_PAGE` gives back the state. */
  lemma NextThenPrev(s: State)
    requires PageConsistent(s)
    ensures Reduce(s, NextPage).Ok?
    ensures Reduce(Reduce(s, NextPage).value, PrevPage) == Ok(s)
  {
    NextPageSpec(s);
    var r := Reduce(s, NextPage).value;
    if s.paginationEnabled {
      TurnPageTwice(s, s.pagination.page + 1, s.pagination.page);
    } else {
      PrevPageSpec(r);
    }
  }

  /** From any page but the first, `PREV_PAGE` then `NEXT_PAGE` gives back the state. */
  lemma PrevThenNext(s: State)
    requires PageConsistent(s) && s.pagination.page > 1
    ensures Reduce(s, PrevPage).Ok?
    ensures Reduce(Reduce(s, PrevPage).value, NextPage) == Ok(s)
  {
    PrevPageSpec(s);
    var r := Reduce(s, PrevPage).value;
    if s.paginationEnabled {
      TurnPageTwice(s, s.pagination.page - 1, s.pagination.page);
    } else {
      NextPageSpec(r);
    }
  }

  // ------------------------------------------------------ slices and selection

  lemma SliceToggleRow(u: seq<Row>, a: int, b: int, id: int)
    ensures JsSlice(ToggleRow(u, id), a, b) == ToggleRow(JsSlice(u, a, b), id)
  {
  }

  lemma SliceMarkIds(u: seq<Row>, a: int, b: int, ids: map<int, bool>)
    ensures JsSlice(MarkIds(u, ids), a, b) == MarkIds(JsSlice(u, a, b), ids)
  {
  }

  /** Marking the rows' own ids sets every one of them. */
  lemma MarkOwnIds(rows: seq<Row>, sel: bool)
    ensures MarkIds(rows, IdFlags(rows, sel)) == SetSelected(rows, sel)
  {
    forall i | 0 <= i < |rows|
      ensures rows[i].id in IdFlags(rows, sel)
    {
      assert rows[i] in rows;
    }
  }

  /** `filter` keeps the selected rows of each part in order. */
  lemma {:induction false} SelectedOfAppend(a: seq<Row>, b: seq<Row>)
    ensures SelectedOf(a + b) == SelectedOf(a) + SelectedOf(b)
    decreases |a|
  {
    if a == [] {
      assert a + b == b;
    } else {
      assert (a + b)[0] == a[0] && (a + b)[1..] == a[1..] + b;
      SelectedOfAppend(a[1..], b);
      var head := if a[0].selected then [a[0]] else [];
      assert SelectedOf(a + b) == head + (SelectedOf(a[1..]) + SelectedOf(b));
      assert SelectedOf(a) == head + SelectedOf(a[1..]);
    }
  }

  /**
   * `rows.filter(row => row.selected)` keeps a single row exactly when it is
   * selected and distributes over concatenation, so it keeps the selected
   * rows in their order and with their repetitions.
   */
  lemma SelectedOfSpec()
    ensures forall x :: SelectedOf([x]) == if x.selected then [x] else []
    ensures forall a, b :: SelectedOf(a + b) == SelectedOf(a) + SelectedOf(b)
  {
    forall x
      ensures SelectedOf([x]) == if x.selected then [x] else []
    {
      assert [x][1..] == [];
    }
    forall a, b
      ensures SelectedOf(a + b) == SelectedOf(a) + SelectedOf(b)
    {
      SelectedOfAppend(a, b);
    }
  }

  /** Flipping a row twice restores it. */
  lemma ToggleRowTwice(rows: seq<Row>, id: int)
    ensures ToggleRow(ToggleRow(rows, id), id) == rows
  {
  }

  /** `SELECT_ROW` keeps the visible page in step with `unpaginatedRows`. */
  lemma SelectRowKeepsPages(s: State, id: int)
    requires PageConsistent(s)
    ensures PageConsistent(Reduce(s, SelectRow(id)).value)
  {
    PageConsistentFields(s);
    var r := SelectRowFixed(s, id);
    var start := (s.pagination.page - 1) * s.pagination.perPage;
    SliceToggleRow(s.unpaginatedRows, start, start + s.pagination.perPage, id);
    PageConsistentIntro(r);
  }

  /** `TOGGLE_ALL` keeps the visible page in step with `unpaginatedRows`. */
  lemma ToggleAllKeepsPages(s: State)
    requires PageConsistent(s)
    ensures PageConsistent(Reduce(s, ToggleAll).value)
  {
    PageConsistentFields(s);
    var sel := |s.selectedRows| < |s.rows|;
    var r := ToggleAllFixed(s);
    var start := (s.pagination.page - 1) * s.pagination.perPage;
    SliceMarkIds(s.unpaginatedRows, start, start + s.pagination.perPage, IdFlags(s.rows, sel));
    MarkOwnIds(s.rows, sel);
    PageConsistentIntro(r);
  }

  /**
   * `SELECT_ROW` flips the row with the id wherever it appears; selecting
   * it again restores the rows, and `selectedRows` is then what it would be
   * for the restored `originalRows`.
   */
  lemma SelectRowTwice(s: State, id: int)
    ensures var r1 := Reduce(s, SelectRow(id)).value;
      && (forall x :: x in r1.selectedRows <==> x in r1.originalRows && x.selected)
      && r1.toggleAllState == (|r1.selectedRows| == |r1.rows|)
      && var r2 := Reduce(r1, SelectRow(id)).value;
      && r2.rows == s.rows
      && r2.originalRows == s.originalRows
      && r2.unpaginatedRows == s.unpaginatedRows
      && r2.selectedRows == SelectedOf(s.originalRows)
  {
    ToggleRowTwice(s.rows, id);
    ToggleRowTwice(s.originalRows, id);
    ToggleRowTwice(s.unpaginatedRows, id);
  }

  /**
   * `TOGGLE_ALL`: when fewer rows are selected than are visible, every
   * visible row is selected, otherwise every visible row is cleared; a row
   * of `originalRows` changes only when its id is visible, `selectedRows` is
   * the selected rows of the new `originalRows`, the visible rows are marked
   * in `unpaginatedRows` too, and no other field changes.
   */
  lemma ToggleAllSpec(s: State)
    ensures var sel := |s.selectedRows| < |s.rows|;
      var r := Reduce(s, ToggleAll).value;
      && r.toggleAllState == sel
      && |r.rows| == |s.rows|
      && (forall i :: 0 <= i < |r.rows| ==> r.rows[i] == s.rows[i].(selected := sel))
      && |r.originalRows| == |s.originalRows|
      && (forall i :: 0 <= i < |s.originalRows| ==>
            r.originalRows[i] == if s.originalRows[i].id in RowIds(s.rows)
                                 then s.originalRows[i].(selected := sel) else s.originalRows[i])
      && r.selectedRows == SelectedOf(r.originalRows)
      && (forall x :: x in r.selectedRows <==> x in r.originalRows && x.selected)
      && r.unpaginatedRows == MarkIds(s.unpaginatedRows, IdFlags(s.rows, sel))
      && r == s.(rows := r.rows, originalRows := r.originalRows, unpaginatedRows := r.unpaginatedRows,
                 selectedRows := r.selectedRows, toggleAllState := r.toggleAllState)
  {
  }

  /**
   * With nothing selected, `TOGGLE_ALL` under a filter selects exactly the
   * rows whose ids are visible.
   */
  lemma ToggleAllSelectsVisible(s: State)
    requires |s.selectedRows| < |s.rows|
    requires forall i :: 0 <= i < |s.originalRows| ==> !s.originalRows[i].selected
    ensures var r := Reduce(s, ToggleAll).value;
      forall x :: x in r.selectedRows <==> (x in r.originalRows && x.id in RowIds(s.rows))
  {
    var r := Reduce(s, ToggleAll).value;
    ToggleAllSpec(s);
    forall x
      ensures x in r.selectedRows <==> (x in r.originalRows && x.id in RowIds(s.rows))
    {
      if x in r.originalRows {
        var i :| 0 <= i < |r.originalRows| && r.originalRows[i] == x;
        assert x.id == s.originalRows[i].id;
      }
    }
  }

  // ---------------------------------------------------------------- finding

  /** Two rows, one per page, showing page 1. */
  function TwoPages(): State
  {
    var a := Row(0, false, false, [], []);
    var b := Row(1, false, false, [], []);
    State([], map[], [a, b], [a], [], false, false, None, true, Pagination(1, 1, true, false), [a, b], None, "")
  }

  /**
   * As written, selecting row 0, turning to page 2 and back shows row 0
   * unselected although `originalRows` and `selectedRows` hold it selected;
   * selecting it again then shows it selected while `selectedRows` is empty.
   */
  lemma SelectionLostAfterPaging()
    ensures PageConsistent(TwoPages())
    ensures var s1 := ReduceAsWritten(TwoPages(), SelectRow(0)).value;
      var s2 := ReduceAsWritten(s1, NextPage).value;
      var s3 := ReduceAsWritten(s2, PrevPage).value;
      var s4 := ReduceAsWritten(s3, SelectRow(0)).value;
      && s1.rows[0].selected
      && !s3.rows[0].selected
      && s3.originalRows[0].selected && |s3.selectedRows| == 1
      && s4.rows[0].selected && s4.selectedRows == []
  {
    var s1 := ReduceAsWritten(TwoPages(), SelectRow(0)).value;
    assert s1.originalRows[0].selected && !s1.originalRows[1].selected;
    assert SelectedOf(s1.originalRows) == [s1.originalRows[0]] by {
      assert s1.originalRows[1..][1..] == [];
    }
    var s3 := ReduceAsWritten(ReduceAsWritten(s1, NextPage).value, PrevPage).value;
    assert s3.originalRows == s1.originalRows;
    var s4 := ReduceAsWritten(s3, SelectRow(0)).value;
    assert !s4.originalRows[0].selected && !s4.originalRows[1].selected;
    assert SelectedOf(s4.originalRows) == [] by {
      assert s4.originalRows[1..][1..] == [];
    }
  }

  /** As written, `TOGGLE_ALL` on page 1, then page 2 and back, shows page 1 cleared again. */
  lemma ToggleAllLostAfterPaging()
    ensures var s1 := ReduceAsWritten(TwoPages(), ToggleAll).value;
      var s3 := ReduceAsWritten(ReduceAsWritten(s1, NextPage).value, PrevPage).value;
      && s1.rows[0].selected && s1.toggleAllState
      && !s3.rows[0].selected && s3.originalRows[0].selected
  {
    var s0 := TwoPages();
    assert s0.rows[0] in s0.rows;
    assert 0 in RowIds(s0.rows);
  }

  /**
   * With `SELECT_ROW` also flipping `unpaginatedRows`, a page turn and back
   * gives back exactly the state after the selection.
   */
  lemma SelectionSurvivesPaging(s: State, id: int)
    requires PageConsistent(s)
    ensures var r := Reduce(s, SelectRow(id)).value;
      && Reduce(r, NextPage).Ok?
      && Reduce(Reduce(r, NextPage).value, PrevPage) == Ok(r)
  {
    SelectRowKeepsPages(s, id);
    NextThenPrev(Reduce(s, SelectRow(id)).value);
  }

  /** The same for `TOGGLE_ALL`. */
  lemma ToggleAllSurvivesPaging(s: State)
    requires PageConsistent(s)
    ensures var r := Reduce(s, ToggleAll).value;
      && Reduce(r, NextPage).Ok?
      && Reduce(Reduce(r, NextPage).value, PrevPage) == Ok(r)
  {
    ToggleAllKeepsPages(s);
    NextThenPrev(Reduce(s, ToggleAll).value);
  }
}
