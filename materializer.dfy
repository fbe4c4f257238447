/**
 * The row materializer of src/hooks.ts: the engine's copy of the columns,
 * the by-name column lookup (`getColumnsByName`), the re-projection of every
 * record onto the declared column order (`sortDataInOrder`) and the
 * construction of rows and cells in `useTable`.
 */
module Materializer {
  import opened Wrappers
  import opened Sorting
  import opened TableTypes

  /** The engine's copy of one declared column (src/hooks.ts:198-207). */
  function WithSorting(c: Column): ColumnState
  {
    ColumnState(
      c.name,
      if c.caption.Some? && c.caption.value != "" then c.caption.value else c.name,
      c.hidden, c.sort, c.render, SortFlag(false, None))
  }

  /**
   * `columnsWithSorting`: every column keeps its name, visibility, sort and
   * render, keeps a non-empty label and gets its name as label when it has
   * none (or an empty one), and starts unsorted with an undefined direction.
   */
  function ColumnsWithSorting(columns: seq<Column>): (cols: seq<ColumnState>)
    ensures |cols| == |columns|
    ensures forall i :: 0 <= i < |cols| ==>
      && cols[i].name == columns[i].name
      && cols[i].hidden == columns[i].hidden
      && cols[i].sort == columns[i].sort
      && cols[i].render == columns[i].render
      && cols[i].sorted == SortFlag(false, None)
      && (cols[i].caption == columns[i].name <==>
            columns[i].caption.None? || columns[i].caption.value in {"", columns[i].name})
      && (columns[i].caption.Some? && columns[i].caption.value != "" ==> cols[i].caption == columns[i].caption.value)
      && (columns[i].caption.None? || columns[i].caption.value == "" ==> cols[i].caption == columns[i].name)
  {
    seq(|columns|, i requires 0 <= i < |columns| => WithSorting(columns[i]))
  }

  /** What the by-name lookup records of a column. */
  function InfoOf(c: ColumnState): ColumnInfo
  {
    ColumnInfo(c.caption, c.render, c.hidden)
  }

  /**
   * The lookup `getColumnsByName` builds: one key per column name; a later
   * column with the same name overwrites an earlier one.
   */
  function ColumnsByName(cols: seq<ColumnState>): (m: map<string, ColumnInfo>)
    ensures m.Keys == set c | c in cols :: c.name
    decreases |cols|
  {
    if cols == [] then map[]
    else
      var init, last := cols[..|cols| - 1], cols[|cols| - 1];
      assert cols == init + [last];
      assert (set c | c in cols :: c.name) == (set c | c in init :: c.name) + {last.name};
      ColumnsByName(init)[last.name := InfoOf(last)]
  }

  /** With distinct names, every column's entry is its own label, render and visibility. */
  lemma {:induction false} ColumnsByNameAt(cols: seq<ColumnState>, i: nat)
    requires DistinctNames(cols) && i < |cols|
    ensures ColumnsByName(cols)[cols[i].name] == InfoOf(cols[i])
    decreases |cols|
  {
    if i < |cols| - 1 {
      var init := cols[..|cols| - 1];
      assert DistinctNames(init);
      ColumnsByNameAt(init, i);
      assert init[i] == cols[i];
    }
  }

  /** `getColumnsByName` (src/hooks.ts:343-360): fills the lookup column by column. */
  method GetColumnsByName(cols: seq<ColumnState>) returns (m: map<string, ColumnInfo>)
    ensures m == ColumnsByName(cols)
  {
    m := map[];
    var i := 0;
    while i < |cols|
      invariant 0 <= i <= |cols|
      invariant m == ColumnsByName(cols[..i])
    {
      assert cols[..i + 1][..i] == cols[..i];
      m := m[cols[i].name := InfoOf(cols[i])];
      i := i + 1;
    }
    assert cols[..|cols|] == cols;
  }

  /**
   * The rest of the column loop of `sortDataInOrder` for one record, from
   * the partial new record `acc`: throws on the first missing column,
   * otherwise copies each column's value in column order.
   */
  function OrderFields(row: Record, names: seq<string>, acc: Record): (r: Result<Record, Error>)
    ensures r.Ok? && KeysWithin(acc, names) ==> KeysWithin(r.value, names)
    ensures r.Ok? ==> forall i :: 0 <= i < |r.value| ==> r.value[i].key in names || r.value[i] in acc
    decreases |names|
  {
    if names == [] then Ok(acc)
    else
      match Lookup(row, names[0])
      case None => Err(InvalidRowData(names[0]))
      case Some(v) =>
        var r := OrderFields(row, names[1..], Put(acc, names[0], v));
        assert r.Ok? ==> forall i :: 0 <= i < |r.value| ==> r.value[i].key in names || r.value[i] in acc by {
          if r.Ok? {
            forall i | 0 <= i < |r.value|
              ensures r.value[i].key in names || r.value[i] in acc
            {
              if r.value[i].key !in names[1..] {
                var p := Put(acc, names[0], v);
                assert r.value[i] in p;
                var k :| 0 <= k < |p| && p[k] == r.value[i];
              }
            }
          }
        }
        r
  }

  /** One record re-projected onto the column names. */
  function OrderRecord(row: Record, names: seq<string>): (r: Result<Record, Error>)
    ensures r.Ok? ==> KeysWithin(r.value, names)
  {
    OrderFields(row, names, [])
  }

  /**
   * `sortDataInOrder` over the whole dataset: the first record (in data
   * order) that lacks a column makes the whole call throw.
   */
  function OrderedRecords(data: seq<Record>, names: seq<string>): (r: Result<seq<Record>, Error>)
    ensures r.Ok? ==> |r.value| == |data|
    ensures r.Ok? ==> forall i :: 0 <= i < |data| ==> OrderRecord(data[i], names) == Ok(r.value[i])
    decreases |data|
  {
    if data == [] then Ok([])
    else
      var init := data[..|data| - 1];
      match OrderedRecords(init, names)
      case Err(e) => Err(e)
      case Ok(recs) =>
        match OrderRecord(data[|data| - 1], names)
        case Err(e) => Err(e)
        case Ok(rec) =>
          assert forall i :: 0 <= i < |init| ==> data[i] == init[i];
          Ok(recs + [rec])
  }

  /** A failure on a prefix of the data is the failure of the whole data. */
  lemma {:induction false} OrderedRecordsFailsEarly(data: seq<Record>, names: seq<string>, i: nat)
    requires i <= |data| && OrderedRecords(data[..i], names).Err?
    ensures OrderedRecords(data, names) == OrderedRecords(data[..i], names)
    decreases |data| - i
  {
    if i < |data| {
      assert data[..i + 1][..i] == data[..i];
      OrderedRecordsFailsEarly(data, names, i + 1);
    } else {
      assert data[..i] == data;
    }
  }

  /** The column loop of `sortDataInOrder` (src/hooks.ts:332-339) for one record. */
  method SortRecordInOrder(row: Record, names: seq<string>) returns (res: Result<Record, Error>)
    ensures res == OrderRecord(row, names)
  {
    var acc: Record := [];
    var i := 0;
    while i < |names|
      invariant 0 <= i <= |names|
      invariant OrderFields(row, names[i..], acc) == OrderRecord(row, names)
    {
      var v := Lookup(row, names[i]);
      if v.None? {
        return Err(InvalidRowData(names[i]));
      }
      assert names[i..][1..] == names[i + 1..];
      acc := Put(acc, names[i], v.value);
      i := i + 1;
    }
    return Ok(acc);
  }

  /**
   * `sortDataInOrder` (src/hooks.ts:327-341): re-projects every record onto
   * the columns, throwing on the first missing column.
   */
  method SortDataInOrder(data: seq<Record>, cols: seq<ColumnState>) returns (res: Result<seq<Record>, Error>)
    ensures res == OrderedRecords(data, Names(cols))
  {
    var names := Names(cols);
    var out: seq<Record> := [];
    var i := 0;
    while i < |data|
      invariant 0 <= i <= |data|
      invariant OrderedRecords(data[..i], names) == Ok(out)
    {
      var rec := SortRecordInOrder(data[i], names);
      ghost var next := data[..i + 1];
      assert next[..|next| - 1] == data[..i] && next[|next| - 1] == data[i];
      if rec.Err? {
        assert OrderedRecords(next, names) == Err(rec.error);
        OrderedRecordsFailsEarly(data, names, i + 1);
        return Err(rec.error);
      }
      assert OrderedRecords(next, names) == Ok(out + [rec.value]);
      out := out + [rec.value];
      i := i + 1;
    }
    assert data[..|data|] == data;
    return Ok(out);
  }

  /** `makeRender`: the column's render applied to the value and record, or the raw value. */
  function MakeRender(value: string, render: Option<Render>, row: Record): (display: string)
    ensures render.None? ==> display == value
    ensures render.Some? ==> display == render.value(value, row)
  {
    match render
    case Some(f) => f(value, row)
    case None => value
  }

  /**
   * The cells of one re-projected record (src/hooks.ts:224-233): one per
   * property in property order, dropping those of hidden columns.
   */
  function Cells(entries: seq<Entry>, whole: Record, byName: map<string, ColumnInfo>): seq<Cell>
    requires forall i :: 0 <= i < |entries| ==> entries[i].key in byName
  {
    if entries == [] then []
    else
      var e := entries[0];
      var info := byName[e.key];
      var rest := Cells(entries[1..], whole, byName);
      if info.hidden then rest
      else [Cell(e.key, e.value, MakeRender(e.value, info.render, whole))] + rest
  }

  /** A new row: positional id, unselected, visible (src/hooks.ts:218-234). */
  function MakeRow(idx: nat, rec: Record, byName: map<string, ColumnInfo>): Row
    requires forall i :: 0 <= i < |rec| ==> rec[i].key in byName
  {
    Row(idx, false, false, rec, Cells(rec, rec, byName))
  }

  /** The `tableData` block of `useTable` (src/hooks.ts:196-237). */
  function Materialize(columns: seq<Column>, data: seq<Record>): (r: Result<seq<Row>, Error>)
    ensures r.Ok? ==> |r.value| == |data|
    ensures r.Ok? ==> forall i :: 0 <= i < |r.value| ==>
      r.value[i].id == i && !r.value[i].selected && !r.value[i].hidden
  {
    var cols := ColumnsWithSorting(columns);
    var byName := ColumnsByName(cols);
    match OrderedRecords(data, Names(cols))
    case Err(e) => Err(e)
    case Ok(recs) =>
      assert forall i, k :: 0 <= i < |recs| && 0 <= k < |recs[i]| ==> recs[i][k].key in byName by {
        forall i, k | 0 <= i < |recs| && 0 <= k < |recs[i]|
          ensures recs[i][k].key in byName
        {
          assert OrderRecord(data[i], Names(cols)) == Ok(recs[i]);
          var n := recs[i][k].key;
          assert n in Names(cols);
          var j :| 0 <= j < |cols| && Names(cols)[j] == n;
          assert cols[j] in cols;
        }
      }
      Ok(seq(|recs|, i requires 0 <= i < |recs| => MakeRow(i, recs[i], byName)))
  }
}

module MaterializerProperties {
  import opened Wrappers
  import opened Sorting
  import opened TableTypes
  import opened Materializer

  /** No name occurs twice. */
  predicate Distinct(names: seq<string>)
  {
    forall i, j :: 0 <= i < j < |names| ==> names[i] != names[j]
  }

  /** The record holding exactly the named fields of `row`, in the given order. */
  function Projection(row: Record, names: seq<string>): (p: Record)
    ensures |p| == |names|
    ensures forall i :: 0 <= i < |names| ==> p[i] == Entry(names[i], Field(row, names[i]))
  {
    seq(|names|, i requires 0 <= i < |names| => Entry(names[i], Field(row, names[i])))
  }

  /** The columns that get a cell, in column order. */
  function VisibleColumns(cols: seq<ColumnState>): (vis: seq<ColumnState>)
    ensures |vis| <= |cols|
  {
    if cols == [] then []
    else (if cols[0].hidden then [] else [cols[0]]) + VisibleColumns(cols[1..])
  }

  /** The cell of a visible column, valued from `rec`. */
  function CellOf(c: ColumnState, rec: Record): Cell
  {
    Cell(c.name, Field(rec, c.name), MakeRender(Field(rec, c.name), c.render, rec))
  }

  /** One cell per visible column, in column order, valued from `rec`. */
  function ColumnCells(cols: seq<ColumnState>, rec: Record): seq<Cell>
  {
    var vis := VisibleColumns(cols);
    seq(|vis|, j requires 0 <= j < |vis| => CellOf(vis[j], rec))
  }

  /** The column loop succeeds exactly when the record has every column. */
  lemma {:induction false} OrderFieldsSucceeds(row: Record, names: seq<string>, acc: Record)
    ensures OrderFields(row, names, acc).Ok? <==> forall n :: n in names ==> HasKey(row, n)
    decreases |names|
  {
    if names != [] {
      if HasKey(row, names[0]) {
        OrderFieldsSucceeds(row, names[1..], Put(acc, names[0], Lookup(row, names[0]).value));
        assert names == [names[0]] + names[1..];
      }
    }
  }

  /** The error names the first declared column that the record lacks. */
  lemma {:induction false} OrderFieldsFirstMissing(row: Record, names: seq<string>, acc: Record, k: nat)
    requires k < |names| && !HasKey(row, names[k])
    requires forall j :: 0 <= j < k ==> HasKey(row, names[j])
    ensures OrderFields(row, names, acc) == Err(InvalidRowData(names[k]))
    decreases |names|
  {
    if k > 0 {
      OrderFieldsFirstMissing(row, names[1..], Put(acc, names[0], Lookup(row, names[0]).value), k - 1);
    }
  }

  /**
   * `sortDataInOrder` on one record throws exactly when a declared column is
   * missing, naming the first one; otherwise the new record holds exactly
   * the declared columns, in column order, with the record's values (when
   * no column name is an array index).
   */
  lemma OrderRecordSpec(row: Record, names: seq<string>)
    requires Distinct(names)
    ensures OrderRecord(row, names).Ok? <==> forall n :: n in names ==> HasKey(row, n)
    ensures NoIndexNames(names) && (forall n :: n in names ==> HasKey(row, n)) ==>
      OrderRecord(row, names) == Ok(Projection(row, names))
    ensures forall k ::
      (0 <= k < |names| && !HasKey(row, names[k]) && (forall j :: 0 <= j < k ==> HasKey(row, names[j])))
      ==> OrderRecord(row, names) == Err(InvalidRowData(names[k]))
  {
    OrderFieldsSucceeds(row, names, []);
    forall k | 0 <= k < |names| && !HasKey(row, names[k]) && (forall j :: 0 <= j < k ==> HasKey(row, names[j]))
      ensures OrderRecord(row, names) == Err(InvalidRowData(names[k]))
    {
      OrderFieldsFirstMissing(row, names, [], k);
    }
    if NoIndexNames(names) && forall n :: n in names ==> HasKey(row, n) {
      OrderFieldsProjects(row, names, 0);
      assert names[..0] == [] && names[0..] == names;
    }
  }

  lemma {:induction false} OrderFieldsProjects(row: Record, names: seq<string>, i: nat)
    requires Distinct(names) && i <= |names|
    requires forall n :: n in names ==> HasKey(row, n)
    ensures OrderFields(row, names[i..], Projection(row, names[..i])) == Ok(Projection(row, names))
    decreases |names| - i
  {
    if i == |names| {
      assert names[..i] == names;
    } else {
      var acc := Projection(row, names[..i]);
      assert names[i] in names;
      forall k | 0 <= k < |acc|
        ensures acc[k].key != names[i]
      {
        assert acc[k].key == names[k];
      }
      assert !HasKey(acc, names[i]);
      assert Put(acc, names[i], Field(row, names[i])) == Projection(row, names[..i + 1]);
      assert names[i..][1..] == names[i + 1..];
      OrderFieldsProjects(row, names, i + 1);
    }
  }

  lemma {:induction false} OrderFieldsIgnoresKeyOrder(row1: Record, row2: Record, names: seq<string>, acc: Record)
    requires forall n :: n in names ==> Lookup(row1, n) == Lookup(row2, n)
    ensures OrderFields(row1, names, acc) == OrderFields(row2, names, acc)
    decreases |names|
  {
    if names != [] {
      assert names[0] in names;
      if HasKey(row1, names[0]) {
        OrderFieldsIgnoresKeyOrder(row1, row2, names[1..], Put(acc, names[0], Lookup(row1, names[0]).value));
      }
    }
  }

  /** The whole dataset is re-projected exactly when every record is. */
  lemma {:induction false} OrderedRecordsSucceeds(data: seq<Record>, names: seq<string>)
    ensures OrderedRecords(data, names).Ok? <==> forall i :: 0 <= i < |data| ==> OrderRecord(data[i], names).Ok?
    decreases |data|
  {
    if data != [] {
      var init := data[..|data| - 1];
      OrderedRecordsSucceeds(init, names);
      assert forall i :: 0 <= i < |init| ==> init[i] == data[i];
    }
  }

  /** Materializing throws exactly when some record lacks a declared column. */
  lemma MaterializeFails(columns: seq<Column>, data: seq<Record>)
    ensures var names := Names(ColumnsWithSorting(columns));
      Materialize(columns, data).Err? <==>
        exists i, n :: 0 <= i < |data| && n in names && !HasKey(data[i], n)
  {
    var names := Names(ColumnsWithSorting(columns));
    OrderedRecordsSucceeds(data, names);
    forall i | 0 <= i < |data|
      ensures OrderRecord(data[i], names).Ok? <==> forall n :: n in names ==> HasKey(data[i], n)
    {
      OrderFieldsSucceeds(data[i], names, []);
    }
  }

  /**
   * Otherwise each row's record holds exactly the declared columns in column
   * order, and its cells are one per non-hidden column in column order (when
   * no column name is an array index).
   */
  lemma MaterializeRows(columns: seq<Column>, data: seq<Record>, i: nat)
    requires DistinctNames(ColumnsWithSorting(columns)) && NoIndexNames(Names(ColumnsWithSorting(columns)))
    requires Materialize(columns, data).Ok? && i < |data|
    ensures var cols := ColumnsWithSorting(columns);
      var row := Materialize(columns, data).value[i];
      && row.original == Projection(data[i], Names(cols))
      && row.cells == ColumnCells(cols, row.original)
  {
    var cols := ColumnsWithSorting(columns);
    var names := Names(cols);
    var byName := ColumnsByName(cols);
    assert Distinct(names);
    var recs := OrderedRecords(data, names).value;
    assert OrderRecord(data[i], names) == Ok(recs[i]);
    OrderRecordSpec(data[i], names);
    forall j | 0 <= j < |cols|
      ensures cols[j].name in byName && byName[cols[j].name] == InfoOf(cols[j])
    {
      ColumnsByNameAt(cols, j);
    }
    var p := recs[i];
    forall j | 0 <= j < |cols|
      ensures p[j] == Entry(cols[j].name, Field(p, cols[j].name))
    {
      ProjectionField(data[i], names, j);
    }
    CellsOfProjection(cols, p, p, byName);
  }

  /** Looking a declared column up in the projection finds the record's value. */
  lemma ProjectionField(row: Record, names: seq<string>, j: nat)
    requires Distinct(names) && j < |names|
    ensures Field(Projection(row, names), names[j]) == Field(row, names[j])
  {
    var p := Projection(row, names);
    LookupDistinct(p, j);
  }

  /** In a record with distinct keys, looking up a key finds its own entry. */
  lemma {:induction false} LookupDistinct(rec: Record, j: nat)
    requires j < |rec|
    requires forall a, b :: 0 <= a < b < |rec| ==> rec[a].key != rec[b].key
    ensures Lookup(rec, rec[j].key) == Some(rec[j].value)
  {
    if j > 0 {
      LookupDistinct(rec[1..], j - 1);
    }
  }

  /** The cells built from a projected record are the column cells. */
  lemma {:induction false} CellsOfProjection(cols: seq<ColumnState>, entries: seq<Entry>, whole: Record, byName: map<string, ColumnInfo>)
    requires |entries| == |cols|
    requires forall j :: 0 <= j < |cols| ==> entries[j] == Entry(cols[j].name, Field(whole, cols[j].name))
    requires forall j :: 0 <= j < |cols| ==> cols[j].name in byName && byName[cols[j].name] == InfoOf(cols[j])
    ensures Cells(entries, whole, byName) == ColumnCells(cols, whole)
    decreases |cols|
  {
    if cols != [] {
      var c, rest := cols[0], cols[1..];
      assert entries[0] == Entry(c.name, Field(whole, c.name));
      assert byName[entries[0].key] == InfoOf(c);
      assert forall j :: 0 <= j < |rest| ==> entries[1..][j] == entries[j + 1] && rest[j] == cols[j + 1];
      CellsOfProjection(rest, entries[1..], whole, byName);
      var tail := ColumnCells(rest, whole);
      assert Cells(entries, whole, byName) == (if c.hidden then [] else [CellOf(c, whole)]) + tail;
      var vis := VisibleColumns(cols);
      assert vis == (if c.hidden then [] else [c]) + VisibleColumns(rest);
      if !c.hidden {
        assert ColumnCells(cols, whole) == [CellOf(c, whole)] + tail;
      } else {
        assert ColumnCells(cols, whole) == tail;
      }
    }
  }

  /**
   * Records whose properties differ only in their order materialize to
   * identical rows.
   */
  lemma MaterializeIgnoresKeyOrder(columns: seq<Column>, data1: seq<Record>, data2: seq<Record>)
    requires |data1| == |data2|
    requires forall i, n :: 0 <= i < |data1| && n in Names(ColumnsWithSorting(columns)) ==>
      Lookup(data1[i], n) == Lookup(data2[i], n)
    ensures Materialize(columns, data1) == Materialize(columns, data2)
  {
    var names := Names(ColumnsWithSorting(columns));
    forall i | 0 <= i < |data1|
      ensures OrderRecord(data1[i], names) == OrderRecord(data2[i], names)
    {
      OrderFieldsIgnoresKeyOrder(data1[i], data2[i], names, []);
    }
    OrderedRecordsAgree(data1, data2, names);
  }

  lemma {:induction false} OrderedRecordsAgree(data1: seq<Record>, data2: seq<Record>, names: seq<string>)
    requires |data1| == |data2|
    requires forall i :: 0 <= i < |data1| ==> OrderRecord(data1[i], names) == OrderRecord(data2[i], names)
    ensures OrderedRecords(data1, names) == OrderedRecords(data2, names)
    decreases |data1|
  {
    if data1 != [] {
      var n := |data1| - 1;
      OrderedRecordsAgree(data1[..n], data2[..n], names);
    }
  }
}
