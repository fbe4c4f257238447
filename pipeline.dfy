/**
 * The four stages the reducer of src/hooks.ts chains on every pipeline
 * action: `getSortedData`, `getFilteredData`, `getSearchedData` and
 * `getPaginatedData`.
 */
module Pipeline {
  import opened Wrappers
  import opened Sorting
  import opened Comparators
  import opened TableTypes
  import opened Materializer

  // ---------------------------------------------------------------- sorting

  /**
   * The direction `getSortedData` picks for the sorted column
   * (src/hooks.ts:389-395): the override when given, otherwise ascending
   * unless the column was ascending already.
   */
  function Direction(prev: Option<bool>, override: Option<bool>): bool
  {
    if override.Some? then override.value else prev.None? || !prev.value
  }

  /** The default comparator: `byTextAscending(row => row.original[name])`. */
  function DefaultComparator(name: string): Comparator<Row>
  {
    (a: Row, b: Row) => ByTextAscending((r: Row) => Field(r.original, name), a, b)
  }

  /** The column's own `sort`, or the default text comparator. */
  function ColumnComparator(c: ColumnState): Comparator<Row>
  {
    if c.sort.Some? then c.sort.value else DefaultComparator(c.name)
  }

  /** The comparator as applied: negated (`result * -1`) when descending. */
  function Directed(cmp: Comparator<Row>, asc: bool): Comparator<Row>
  {
    if asc then cmp else Negated(cmp)
  }

  /** The comparator `getSortedData` sorts with for column `c`. */
  function SortComparator(c: ColumnState, override: Option<bool>): Comparator<Row>
  {
    Directed(ColumnComparator(c), Direction(c.sorted.asc, override))
  }

  /**
   * One column of `columnCopy` (src/hooks.ts:386-421): the named column is
   * switched on with the chosen direction, every other one is switched off
   * with `asc: false`.
   */
  function MarkColumn(c: ColumnState, name: string, override: Option<bool>): ColumnState
  {
    if c.name == name then c.(sorted := SortFlag(true, Some(Direction(c.sorted.asc, override))))
    else c.(sorted := SortFlag(false, Some(false)))
  }

  function MarkColumns(cols: seq<ColumnState>, name: string, override: Option<bool>): (r: seq<ColumnState>)
    ensures |r| == |cols|
    ensures forall i :: 0 <= i < |cols| ==> r[i] == MarkColumn(cols[i], name, override)
  {
    seq(|cols|, i requires 0 <= i < |cols| => MarkColumn(cols[i], name, override))
  }

  /**
   * The rows after the `columns.map` pass: every column named `name` sorts
   * the same array in place, in column order.
   */
  function ApplySorts(cols: seq<ColumnState>, name: string, override: Option<bool>, rows: seq<Row>): seq<Row>
    decreases |cols|
  {
    if cols == [] then rows
    else
      var c := cols[0];
      var next := if c.name == name then SortBy(rows, SortComparator(c, override)) else rows;
      ApplySorts(cols[1..], name, override, next)
  }

  /** What `getSortedData` returns to be spread over the state. */
  datatype SortOutcome =
    | RowsOnly(rows: seq<Row>)
    | Resorted(columns: seq<ColumnState>, rows: seq<Row>, sortColumn: string, columnsByName: map<string, ColumnInfo>)

  /**
   * `getSortedData` (src/hooks.ts:362-429). With no column it keeps the rows;
   * with a name absent from the lookup it throws; otherwise it marks the
   * columns, sorts the rows and rebuilds the lookup.
   */
  function GetSortedData(rows: seq<Row>, cols: seq<ColumnState>, byName: map<string, ColumnInfo>,
                         columnName: Option<string>, override: Option<bool>): Result<SortOutcome, Error>
  {
    match columnName
    case None => Ok(RowsOnly(rows))
    case Some(name) =>
      if name !in byName then Err(InvalidColumn(name))
      else
        var marked := MarkColumns(cols, name, override);
        var sorted := if exists i :: 0 <= i < |cols| && cols[i].name == name then ApplySorts(cols, name, override, rows) else [];
        Ok(Resorted(marked, sorted, name, ColumnsByName(marked)))
  }

  // -------------------------------------------------------------- filtering

  /** The user's filter over the whole row list. */
  type RowFilter = seq<Row> -> seq<Row>

  /** `selectedRowsById`: each selected row's id to its flag, the last row winning. */
  function SelectedById(selected: seq<Row>): (m: map<int, bool>)
    ensures m.Keys == set r | r in selected :: r.id
    decreases |selected|
  {
    if selected == [] then map[]
    else
      var init, last := selected[..|selected| - 1], selected[|selected| - 1];
      assert selected == init + [last];
      assert (set r | r in selected :: r.id) == (set r | r in init :: r.id) + {last.id};
      SelectedById(init)[last.id := last.selected]
  }

  /** The `forEach` of `getFilteredData` (src/hooks.ts:442-445). */
  method FillSelectedById(selected: seq<Row>) returns (m: map<int, bool>)
    ensures m == SelectedById(selected)
  {
    m := map[];
    var i := 0;
    while i < |selected|
      invariant 0 <= i <= |selected|
      invariant m == SelectedById(selected[..i])
    {
      assert selected[..i + 1][..i] == selected[..i];
      m := m[selected[i].id := selected[i].selected];
      i := i + 1;
    }
    assert selected[..|selected|] == selected;
  }

  /** A row whose id is marked selected becomes selected; others are kept. */
  function KeepSelection(rows: seq<Row>, byId: map<int, bool>): (r: seq<Row>)
    ensures |r| == |rows|
    ensures forall i :: 0 <= i < |rows| ==>
      r[i] == rows[i].(selected := rows[i].selected || (rows[i].id in byId && byId[rows[i].id]))
  {
    seq(|rows|, i requires 0 <= i < |rows| =>
      if rows[i].id in byId && byId[rows[i].id] then rows[i].(selected := true) else rows[i])
  }

  /** `getFilteredData` (src/hooks.ts:431-453). */
  function GetFilteredData(rows: seq<Row>, selected: seq<Row>, filter: Option<RowFilter>): seq<Row>
  {
    match filter
    case None => rows
    case Some(f) => KeepSelection(f(rows), SelectedById(selected))
  }

  // ---------------------------------------------------------------- search

  /** `q` occurs in `s` starting at position `i`. */
  predicate OccursAt(s: string, q: string, i: int)
  {
    0 <= i && i + |q| <= |s| && s[i..i + |q|] == q
  }

  /** `s.includes(q)`. */
  predicate Contains(s: string, q: string)
  {
    exists i :: 0 <= i <= |s| - |q| && OccursAt(s, q, i)
  }

  /** Some cell of the row contains the search string. */
  predicate RowMatches(row: Row, q: string)
  {
    exists j :: 0 <= j < |row.cells| && Contains(row.cells[j].value, q)
  }

  /** The rows that match, in their order. */
  function KeepMatching(rows: seq<Row>, q: string): (r: seq<Row>)
    ensures |r| <= |rows|
    ensures forall x :: x in r <==> x in rows && RowMatches(x, q)
    decreases |rows|
  {
    if rows == [] then []
    else (if RowMatches(rows[0], q) then [rows[0]] else []) + KeepMatching(rows[1..], q)
  }

  /** `getSearchedData` (src/hooks.ts:455-471). */
  function GetSearchedData(rows: seq<Row>, q: string): seq<Row>
  {
    if q == "" then rows else KeepMatching(rows, q)
  }

  // ------------------------------------------------------------ pagination

  /** A `slice` index: negative counts from the end, both clamped to `[0, n]`. */
  function ClampIndex(i: int, n: nat): (k: nat)
    ensures k <= n
    ensures 0 <= i <= n ==> k == i
    ensures i > n ==> k == n
  {
    if i < 0 then (if n + i < 0 then 0 else n + i) else if i > n then n else i
  }

  /** `s.slice(start, end)`. */
  function JsSlice<T>(s: seq<T>, start: int, end: int): seq<T>
  {
    var a, b := ClampIndex(start, |s|), ClampIndex(end, |s|);
    if a < b then s[a..b] else []
  }

  /** The page fields `getPaginatedData` sets. */
  datatype PageUpdate = PageUpdate(page: int, canNext: bool, canPrev: bool)

  /** What `getPaginatedData` returns to be spread over the state. */
  datatype Paginated = Paginated(rows: seq<Row>, unpaginatedRows: seq<Row>, update: Option<PageUpdate>)

  /** `getPaginatedData` (src/hooks.ts:473-496). */
  function GetPaginatedData(rows: seq<Row>, enabled: bool, perPage: int, page: int): Paginated
  {
    if !enabled then Paginated(rows, rows, None)
    else
      var start := (page - 1) * perPage;
      var end := start + perPage;
      Paginated(JsSlice(rows, start, end), rows, Some(PageUpdate(page, page * perPage < |rows|, page != 1)))
  }
}

/** What each pipeline stage guarantees. */
module PipelineProperties {
  import opened Wrappers
  import opened Sorting
  import opened Comparators
  import opened TableTypes
  import opened Materializer
  import opened Pipeline

  /** The default text comparator orders consistently. */
  lemma DefaultComparatorIsOrdering(name: string)
    ensures IsOrdering(DefaultComparator(name))
  {
    var cmp := DefaultComparator(name);
    var key := (r: Row) => Field(r.original, name);
    forall a, b
      ensures cmp(a, b) < 0 <==> cmp(b, a) > 0
    {
      AscendingAntisymmetric(key, a, b);
    }
    forall a, b, c | NotAfter(cmp, a, b) && NotAfter(cmp, b, c)
      ensures NotAfter(cmp, a, c)
    {
      AscendingTransitive(key, a, b, c);
    }
  }

  /** Reversing the direction keeps a consistent comparator consistent. */
  lemma DirectedIsOrdering(cmp: Comparator<Row>, asc: bool)
    requires IsOrdering(cmp)
    ensures IsOrdering(Directed(cmp, asc))
  {
    if !asc {
      NegatedIsOrdering(cmp);
    }
  }

  /** The comparator a column sorts with is consistent unless its own `sort` is not. */
  lemma SortComparatorIsOrdering(c: ColumnState, override: Option<bool>)
    requires c.sort.Some? ==> IsOrdering(c.sort.value)
    ensures IsOrdering(SortComparator(c, override))
  {
    if c.sort.None? {
      DefaultComparatorIsOrdering(c.name);
    }
    DirectedIsOrdering(ColumnComparator(c), Direction(c.sorted.asc, override));
  }

  /** With distinct names, only the named column sorts the rows. */
  lemma {:induction false} ApplySortsOnce(cols: seq<ColumnState>, name: string, override: Option<bool>, rows: seq<Row>, k: nat)
    requires DistinctNames(cols) && k < |cols| && cols[k].name == name
    ensures ApplySorts(cols, name, override, rows) == SortBy(rows, SortComparator(cols[k], override))
    decreases |cols|
  {
    if k == 0 {
      ApplySortsNone(cols[1..], name, override, SortBy(rows, SortComparator(cols[0], override)));
    } else {
      assert cols[0].name != name;
      assert DistinctNames(cols[1..]);
      ApplySortsOnce(cols[1..], name, override, rows, k - 1);
    }
  }

  lemma {:induction false} ApplySortsNone(cols: seq<ColumnState>, name: string, override: Option<bool>, rows: seq<Row>)
    requires forall i :: 0 <= i < |cols| ==> cols[i].name != name
    ensures ApplySorts(cols, name, override, rows) == rows
    decreases |cols|
  {
    if cols != [] {
      ApplySortsNone(cols[1..], name, override, rows);
    }
  }

  /** A name in the lookup of distinct columns is the name of one of them. */
  lemma NameIndex(cols: seq<ColumnState>, name: string) returns (k: nat)
    requires name in ColumnsByName(cols)
    ensures k < |cols| && cols[k].name == name
  {
    var c :| c in cols && c.name == name;
    k :| k < |cols| && cols[k] == c;
  }

  /**
   * `getSortedData` with no column keeps the rows and state; with a name not
   * in the lookup it throws.
   */
  lemma GetSortedDataEdges(rows: seq<Row>, cols: seq<ColumnState>, byName: map<string, ColumnInfo>,
                           columnName: Option<string>, override: Option<bool>)
    ensures columnName.None? ==> GetSortedData(rows, cols, byName, columnName, override) == Ok(RowsOnly(rows))
    ensures columnName.Some? && columnName.value !in byName ==>
      GetSortedData(rows, cols, byName, columnName, override) == Err(InvalidColumn(columnName.value))
  {
  }

  /**
   * With the lookup of distinct columns and a column name: exactly the named
   * column is switched on, with the chosen direction; every other column is
   * `{on: false, asc: false}`; nothing else about a column changes; the rows
   * are sorted by the column's directed comparator and `sortColumn` is the
   * name.
   */
  lemma GetSortedDataMarks(rows: seq<Row>, cols: seq<ColumnState>, name: string, override: Option<bool>, k: nat)
    requires DistinctNames(cols) && k < |cols| && cols[k].name == name
    ensures var r := GetSortedData(rows, cols, ColumnsByName(cols), Some(name), override);
      && r.Ok? && r.value.Resorted?
      && r.value.sortColumn == name
      && r.value.rows == SortBy(rows, SortComparator(cols[k], override))
      && |r.value.columns| == |cols|
      && r.value.columnsByName == ColumnsByName(r.value.columns)
      && r.value.columns[k].sorted == SortFlag(true, Some(Direction(cols[k].sorted.asc, override)))
      && (forall i :: 0 <= i < |cols| && i != k ==> r.value.columns[i].sorted == SortFlag(false, Some(false)))
      && (forall i :: 0 <= i < |cols| ==> r.value.columns[i] == cols[i].(sorted := r.value.columns[i].sorted))
  {
    assert cols[k] in cols;
    var marked := MarkColumns(cols, name, override);
    assert GetSortedData(rows, cols, ColumnsByName(cols), Some(name), override)
        == Ok(Resorted(marked, ApplySorts(cols, name, override, rows), name, ColumnsByName(marked)));
    ApplySortsOnce(cols, name, override, rows, k);
    MarkColumnsOnly(cols, name, override, k);
  }

  /** Marking switches on column `k` alone and changes nothing but the flags. */
  lemma MarkColumnsOnly(cols: seq<ColumnState>, name: string, override: Option<bool>, k: nat)
    requires DistinctNames(cols) && k < |cols| && cols[k].name == name
    ensures var marked := MarkColumns(cols, name, override);
      && marked[k].sorted == SortFlag(true, Some(Direction(cols[k].sorted.asc, override)))
      && (forall i :: 0 <= i < |cols| && i != k ==> marked[i].sorted == SortFlag(false, Some(false)))
      && (forall i :: 0 <= i < |cols| ==> marked[i] == cols[i].(sorted := marked[i].sorted))
  {
    var marked := MarkColumns(cols, name, override);
    forall i | 0 <= i < |cols| && i != k
      ensures marked[i].sorted == SortFlag(false, Some(false))
    {
      assert marked[i] == MarkColumn(cols[i], name, override);
    }
    forall i | 0 <= i < |cols|
      ensures marked[i] == cols[i].(sorted := marked[i].sorted)
    {
      assert marked[i] == MarkColumn(cols[i], name, override);
    }
  }

  /**
   * The sorted rows are a permutation of the input, ordered by the column's
   * comparator (negated when descending) when that comparator is consistent.
   */
  lemma GetSortedDataSorts(rows: seq<Row>, cols: seq<ColumnState>, name: string, override: Option<bool>, k: nat)
    requires DistinctNames(cols) && k < |cols| && cols[k].name == name
    ensures var r := GetSortedData(rows, cols, ColumnsByName(cols), Some(name), override);
      && r.Ok?
      && multiset(r.value.rows) == multiset(rows)
      && ((cols[k].sort.Some? ==> IsOrdering(cols[k].sort.value)) ==>
            SortedBy(r.value.rows, SortComparator(cols[k], override)))
  {
    GetSortedDataMarks(rows, cols, name, override, k);
    SortByPermutes(rows, SortComparator(cols[k], override));
    if cols[k].sort.Some? ==> IsOrdering(cols[k].sort.value) {
      SortComparatorIsOrdering(cols[k], override);
      SortBySorted(rows, SortComparator(cols[k], override));
    }
  }

  /** Without an override the direction flips, starting ascending; with one it is the override. */
  lemma DirectionToggles(prev: Option<bool>, b: bool)
    ensures Direction(None, None)
    ensures Direction(Some(Direction(prev, None)), None) == !Direction(prev, None)
    ensures Direction(prev, Some(b)) == b
    ensures Direction(Some(Direction(prev, Some(b))), Some(b)) == Direction(prev, Some(b))
  {
  }

  /** Every row of `selectedRows` that is selected marks its id. */
  lemma {:induction false} SelectedByIdAllTrue(selected: seq<Row>)
    requires forall i :: 0 <= i < |selected| ==> selected[i].selected
    ensures forall id :: id in SelectedById(selected) ==> SelectedById(selected)[id]
    decreases |selected|
  {
    if selected != [] {
      SelectedByIdAllTrue(selected[..|selected| - 1]);
    }
  }

  /**
   * Without a filter the rows pass unchanged; with one, the filter's rows
   * come out in its order, and those whose id is in `selectedRows` (all
   * selected) are marked selected.
   */
  lemma GetFilteredDataSpec(rows: seq<Row>, selected: seq<Row>, filter: Option<RowFilter>)
    requires forall i :: 0 <= i < |selected| ==> selected[i].selected
    ensures filter.None? ==> GetFilteredData(rows, selected, filter) == rows
    ensures filter.Some? ==>
      var kept := filter.value(rows);
      var r := GetFilteredData(rows, selected, filter);
      && |r| == |kept|
      && forall i :: 0 <= i < |kept| ==>
        r[i] == kept[i].(selected := kept[i].selected || kept[i].id in (set x | x in selected :: x.id))
  {
    SelectedByIdAllTrue(selected);
  }

  /** Searching distributes over concatenation: it keeps the matching rows in their order. */
  lemma {:induction false} KeepMatchingAppend(a: seq<Row>, b: seq<Row>, q: string)
    ensures KeepMatching(a + b, q) == KeepMatching(a, q) + KeepMatching(b, q)
    decreases |a|
  {
    if a == [] {
      assert a + b == b;
    } else {
      assert (a + b)[0] == a[0] && (a + b)[1..] == a[1..] + b;
      KeepMatchingAppend(a[1..], b, q);
      var head := if RowMatches(a[0], q) then [a[0]] else [];
      assert KeepMatching(a + b, q) == head + (KeepMatching(a[1..], q) + KeepMatching(b, q));
      assert KeepMatching(a, q) == head + KeepMatching(a[1..], q);
      assert head + (KeepMatching(a[1..], q) + KeepMatching(b, q)) == (head + KeepMatching(a[1..], q)) + KeepMatching(b, q);
    }
  }

  /**
   * An empty search string keeps every row; otherwise the search keeps
   * exactly the rows with a cell whose value contains the string
   * (case-sensitively), in their order.
   */
  lemma GetSearchedDataSpec(rows: seq<Row>, q: string)
    ensures q == "" ==> GetSearchedData(rows, q) == rows
    ensures q != "" ==> forall x :: x in GetSearchedData(rows, q) <==> x in rows && RowMatches(x, q)
    ensures q != "" ==> forall x :: GetSearchedData([x], q) == if RowMatches(x, q) then [x] else []
    ensures forall a, b :: GetSearchedData(a + b, q) == GetSearchedData(a, q) + GetSearchedData(b, q)
  {
    forall a, b
      ensures GetSearchedData(a + b, q) == GetSearchedData(a, q) + GetSearchedData(b, q)
    {
      KeepMatchingAppend(a, b, q);
    }
    forall x
      ensures q != "" ==> GetSearchedData([x], q) == if RowMatches(x, q) then [x] else []
    {
      assert [x][1..] == [];
    }
  }

  /**
   * With pagination enabled, a positive page size and a page from 1 on, the
   * visible rows are rows `(page-1)*perPage` up to `page*perPage` (clamped to
   * the length); `canNext` says a later row exists and `canPrev` that the
   * page is not the first. Disabled, the rows are unchanged.
   */
  lemma GetPaginatedDataSpec(rows: seq<Row>, enabled: bool, perPage: int, page: int)
    requires enabled ==> perPage > 0 && page >= 1
    ensures var p := GetPaginatedData(rows, enabled, perPage, page);
      && p.unpaginatedRows == rows
      && (!enabled ==> p.rows == rows && p.update.None?)
      && (enabled ==>
            var start := (page - 1) * perPage;
            var end := page * perPage;
            && p.rows == rows[if start < |rows| then start else |rows| .. if end < |rows| then end else |rows|]
            && p.update == Some(PageUpdate(page, end < |rows|, page != 1)))
  {
    if enabled {
      assert (page - 1) * perPage >= 0;
      assert (page - 1) * perPage + perPage == page * perPage;
    }
  }

  /** Every row is on page `i / perPage + 1`, at position `i % perPage`. */
  lemma RowOnItsPage(rows: seq<Row>, perPage: int, i: nat)
    requires perPage > 0 && i < |rows|
    ensures var page := i / perPage + 1;
      var p := GetPaginatedData(rows, true, perPage, page);
      i % perPage < |p.rows| && p.rows[i % perPage] == rows[i]
  {
    var page := i / perPage + 1;
    PageOfIndex(i, perPage);
    GetPaginatedDataSpec(rows, true, perPage, page);
  }

  /** Index `i` lies on page `i / perPage + 1`, `i % perPage` rows from its start. */
  lemma PageOfIndex(i: nat, perPage: int)
    requires perPage > 0
    ensures var page := i / perPage + 1;
      && 0 <= (page - 1) * perPage <= i < page * perPage
      && (page - 1) * perPage + i % perPage == i
  {
    var q := i / perPage;
    assert (q + 1) * perPage == q * perPage + perPage;
  }
}
