/**
 * The earlier hook of src/hooks.tsx: a reducer that returns the state it is
 * given for every action, a by-name lookup of each column's label and
 * render (`getColumnsById`), and rows whose cells cover every column in
 * column order, hidden or not.
 */
module StubTable {
  import opened Wrappers
  import opened TableTypes
  import opened Materializer
  import opened MaterializerProperties

  /** What `getColumnsById` records of a column: its label as given, and its render. */
  datatype StubInfo = StubInfo(caption: Option<string>, render: Option<Render>)

  /** A row of this hook: only its cells. */
  datatype StubRow = StubRow(cells: seq<Cell>)

  /** The state handed to `useReducer`. */
  datatype StubState = StubState(columns: seq<Column>, rows: seq<StubRow>)

  /** The action tags the reducer names, and any other. */
  datatype StubAction = SetRowData | Sort | OtherAction(tag: string)

  /** The reducer (src/hooks.tsx:12-21): every branch returns the state. */
  function StubReduce(s: StubState, a: StubAction): StubState
  {
    match a
    case SetRowData => s
    case Sort => s
    case OtherAction(_) => s
  }

  /** The reducer over a sequence of actions. */
  function StubReduceAll(s: StubState, actions: seq<StubAction>): StubState
    decreases |actions|
  {
    if actions == [] then s else StubReduceAll(StubReduce(s, actions[0]), actions[1..])
  }

  /** No sequence of actions changes the state. */
  lemma {:induction false} StubReducerIsInert(s: StubState, actions: seq<StubAction>)
    ensures StubReduceAll(s, actions) == s
    decreases |actions|
  {
    if actions != [] {
      StubReducerIsInert(StubReduce(s, actions[0]), actions[1..]);
    }
  }

  /** The declared column names, in order. */
  function DeclaredNames(columns: seq<Column>): (names: seq<string>)
    ensures |names| == |columns|
    ensures forall i :: 0 <= i < |columns| ==> names[i] == columns[i].name
  {
    seq(|columns|, i requires 0 <= i < |columns| => columns[i].name)
  }

  /**
   * The lookup `getColumnsById` builds: one key per column name, a later
   * column with the same name overwriting an earlier one.
   */
  function ColumnsById(columns: seq<Column>): (m: map<string, StubInfo>)
    ensures m.Keys == set c | c in columns :: c.name
    decreases |columns|
  {
    if columns == [] then map[]
    else
      var init, last := columns[..|columns| - 1], columns[|columns| - 1];
      assert columns == init + [last];
      assert (set c | c in columns :: c.name) == (set c | c in init :: c.name) + {last.name};
      ColumnsById(init)[last.name := StubInfo(last.caption, last.render)]
  }

  /** With distinct names, each column's entry holds its own label and render. */
  lemma {:induction false} ColumnsByIdAt(columns: seq<Column>, i: nat)
    requires i < |columns|
    requires forall a, b :: 0 <= a < b < |columns| ==> columns[a].name != columns[b].name
    ensures ColumnsById(columns)[columns[i].name] == StubInfo(columns[i].caption, columns[i].render)
    decreases |columns|
  {
    if i < |columns| - 1 {
      var init := columns[..|columns| - 1];
      ColumnsByIdAt(init, i);
      assert init[i] == columns[i];
    }
  }

  /** `getColumnsById` (src/hooks.tsx:73-86): fills the lookup column by column. */
  method GetColumnsById(columns: seq<Column>) returns (m: map<string, StubInfo>)
    ensures m == ColumnsById(columns)
  {
    m := map[];
    var i := 0;
    while i < |columns|
      invariant 0 <= i <= |columns|
      invariant m == ColumnsById(columns[..i])
    {
      assert columns[..i + 1][..i] == columns[..i];
      m := m[columns[i].name := StubInfo(columns[i].caption, columns[i].render)];
      i := i + 1;
    }
    assert columns[..i] == columns;
  }

  /** One cell per property of the re-projected record, none dropped (src/hooks.tsx:33-39). */
  function StubCells(entries: seq<Entry>, whole: Record, byId: map<string, StubInfo>): seq<Cell>
    requires forall j :: 0 <= j < |entries| ==> entries[j].key in byId
  {
    seq(|entries|, j requires 0 <= j < |entries| =>
      Cell(entries[j].key, entries[j].value, MakeRender(entries[j].value, byId[entries[j].key].render, whole)))
  }

  /** The `tableData` block of src/hooks.tsx (lines 28-41). */
  function StubTableData(columns: seq<Column>, data: seq<Record>): Result<seq<StubRow>, Error>
  {
    var names := DeclaredNames(columns);
    var byId := ColumnsById(columns);
    match OrderedRecords(data, names)
    case Err(e) => Err(e)
    case Ok(recs) =>
      assert forall i, k :: 0 <= i < |recs| && 0 <= k < |recs[i]| ==> recs[i][k].key in byId by {
        forall i, k | 0 <= i < |recs| && 0 <= k < |recs[i]|
          ensures recs[i][k].key in byId
        {
          assert OrderRecord(data[i], names) == Ok(recs[i]);
          var j :| 0 <= j < |names| && names[j] == recs[i][k].key;
          assert columns[j] in columns;
        }
      }
      Ok(seq(|recs|, i requires 0 <= i < |recs| => StubRow(StubCells(recs[i], recs[i], byId))))
  }

  /** The rows throw exactly when some record lacks a declared column. */
  lemma StubTableDataFails(columns: seq<Column>, data: seq<Record>)
    ensures StubTableData(columns, data).Err? <==>
      exists i, n :: 0 <= i < |data| && n in DeclaredNames(columns) && !HasKey(data[i], n)
  {
    var names := DeclaredNames(columns);
    OrderedRecordsSucceeds(data, names);
    forall i | 0 <= i < |data|
      ensures OrderRecord(data[i], names).Ok? <==> forall n :: n in names ==> HasKey(data[i], n)
    {
      OrderFieldsSucceeds(data[i], names, []);
    }
  }

  /**
   * With distinct column names none of which is an array index, row `i` has
   * one cell per declared column, in column order, hidden columns included: the column's name, the record's
   * value, and that value through the column's render.
   */
  lemma StubTableDataRows(columns: seq<Column>, data: seq<Record>, i: nat)
    requires forall a, b :: 0 <= a < b < |columns| ==> columns[a].name != columns[b].name
    requires NoIndexNames(DeclaredNames(columns))
    requires StubTableData(columns, data).Ok? && i < |data|
    ensures var rows := StubTableData(columns, data).value;
      var p := Projection(data[i], DeclaredNames(columns));
      && |rows| == |data|
      && |rows[i].cells| == |columns|
      && forall j :: 0 <= j < |columns| ==>
        rows[i].cells[j] == Cell(columns[j].name, Field(data[i], columns[j].name),
                                 MakeRender(Field(data[i], columns[j].name), columns[j].render, p))
  {
    var names := DeclaredNames(columns);
    assert Distinct(names);
    var recs := OrderedRecords(data, names).value;
    assert OrderRecord(data[i], names) == Ok(recs[i]);
    OrderRecordSpec(data[i], names);
    forall j | 0 <= j < |columns|
      ensures ColumnsById(columns)[columns[j].name].render == columns[j].render
    {
      ColumnsByIdAt(columns, j);
    }
  }
}
