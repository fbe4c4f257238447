/**
 * The values the table engine works on (src/types.ts for src/hooks.ts):
 * raw records, cells, rows, column descriptors and their internal
 * augmented copies, and the errors the engine throws.
 */
module TableTypes {
  import opened Wrappers
  import opened Sorting

  /** One property of a JavaScript object. */
  datatype Entry = Entry(key: string, value: string)

  /**
   * A plain JavaScript object with string values, as the ordered list of its
   * properties: `Object.entries` returns them in insertion order when no key
   * is an array index (see `IsArrayIndex`).
   */
  type Record = seq<Entry>

  /** `key in record`. */
  predicate HasKey(rec: Record, key: string)
  {
    exists i :: 0 <= i < |rec| && rec[i].key == key
  }

  /** `record[key]`: the value of the first property named `key`. */
  function Lookup(rec: Record, key: string): (v: Option<string>)
    ensures v.Some? <==> HasKey(rec, key)
    ensures v.Some? ==> exists i :: 0 <= i < |rec| && rec[i] == Entry(key, v.value)
  {
    if rec == [] then None
    else if rec[0].key == key then Some(rec[0].value)
    else
      var v := Lookup(rec[1..], key);
      assert HasKey(rec, key) ==> rec[0].key == key || HasKey(rec[1..], key) by {
        if HasKey(rec, key) {
          var i :| 0 <= i < |rec| && rec[i].key == key;
          assert i == 0 || rec[1..][i - 1].key == key;
        }
      }
      v
  }

  /**
   * `record[key] = value`: the first property named `key` keeps its place and
   * takes the new value, every other property is unchanged; a new key is
   * appended.
   */
  function Put(rec: Record, key: string, value: string): (r: Record)
    ensures HasKey(rec, key) ==> exists k :: FirstWithKey(rec, key, k) && r == rec[k := Entry(key, value)]
    ensures !HasKey(rec, key) ==> r == rec + [Entry(key, value)]
    ensures forall i :: 0 <= i < |r| ==> r[i] == Entry(key, value) || r[i] in rec
    decreases |rec|
  {
    if rec == [] then [Entry(key, value)]
    else if rec[0].key == key then
      assert FirstWithKey(rec, key, 0);
      [Entry(key, value)] + rec[1..]
    else
      assert HasKey(rec, key) <==> HasKey(rec[1..], key) by {
        if HasKey(rec, key) {
          var i :| 0 <= i < |rec| && rec[i].key == key;
          assert rec[1..][i - 1].key == key;
        }
        if HasKey(rec[1..], key) {
          var i :| 0 <= i < |rec[1..]| && rec[1..][i].key == key;
          assert rec[i + 1].key == key;
        }
      }
      var tail := Put(rec[1..], key, value);
      if HasKey(rec[1..], key) then
        var k :| FirstWithKey(rec[1..], key, k) && tail == rec[1..][k := Entry(key, value)];
        assert FirstWithKey(rec, key, k + 1);
        assert [rec[0]] + tail == rec[k + 1 := Entry(key, value)];
        [rec[0]] + tail
      else
        [rec[0]] + tail
  }

  /** Entry `k` is the first one named `key`. */
  predicate FirstWithKey(rec: Record, key: string, k: int)
  {
    0 <= k < |rec| && rec[k].key == key && forall j :: 0 <= j < k ==> rec[j].key != key
  }

  predicate IsDigit(c: char)
  {
    '0' <= c <= '9'
  }

  /** The number a string of decimal digits spells. */
  function DecimalValue(s: string): nat
    requires forall i :: 0 <= i < |s| ==> IsDigit(s[i])
    decreases |s|
  {
    if s == [] then 0
    else
      assert IsDigit(s[|s| - 1]);
      DecimalValue(s[..|s| - 1]) * 10 + (s[|s| - 1] as int - '0' as int)
  }

  /**
   * A key JavaScript treats as an array index: the canonical decimal form of
   * a number below 2^32 - 1. `Object.entries` lists such keys first, in
   * ascending numeric order, whatever order they were written in.
   */
  predicate IsArrayIndex(key: string)
  {
    && |key| > 0
    && (forall i :: 0 <= i < |key| ==> IsDigit(key[i]))
    && (key[0] == '0' ==> |key| == 1)
    && DecimalValue(key) < 0xFFFF_FFFF
  }

  /** No name is an array index, so a record's properties stay in insertion order. */
  predicate NoIndexNames(names: seq<string>)
  {
    forall i :: 0 <= i < |names| ==> !IsArrayIndex(names[i])
  }

  /** `record[key]` where the key is known to be present; "" otherwise. */
  function Field(rec: Record, key: string): string
  {
    match Lookup(rec, key)
    case Some(v) => v
    case None => ""
  }

  /** Every property of `rec` is named in `names`. */
  predicate KeysWithin(rec: Record, names: seq<string>)
  {
    forall i :: 0 <= i < |rec| ==> rec[i].key in names
  }

  /** A column's cell `render`: from the value and the whole record to its display. */
  type Render = (string, Record) -> string

  /** One field of a row: its column, raw value and display projection. */
  datatype Cell = Cell(field: string, value: string, display: string)

  /** A materialized record. */
  datatype Row = Row(id: int, selected: bool, hidden: bool, original: Record, cells: seq<Cell>)

  /** A column as declared by the caller. */
  datatype Column = Column(
    name: string,
    caption: Option<string>,   // `label` in the source
    hidden: bool,
    sort: Option<Comparator<Row>>,
    render: Option<Render>)

  /** A column's sort indicator; `asc` is undefined until it is first sorted. */
  datatype SortFlag = SortFlag(on: bool, asc: Option<bool>)

  /** The engine's augmented copy of a column. */
  datatype ColumnState = ColumnState(
    name: string,
    caption: string,
    hidden: bool,
    sort: Option<Comparator<Row>>,
    render: Option<Render>,
    sorted: SortFlag)

  /** An entry of the by-name column lookup. */
  datatype ColumnInfo = ColumnInfo(caption: string, render: Option<Render>, hidden: bool)

  /** What the engine throws. */
  datatype Error =
    | InvalidRowData(column: string)   // a record lacks a declared column
    | InvalidColumn(column: string)    // sorting by a column that does not exist
    | InvalidAction                    // an unrecognised reducer action

  function Names(cols: seq<ColumnState>): (names: seq<string>)
    ensures |names| == |cols|
    ensures forall i :: 0 <= i < |cols| ==> names[i] == cols[i].name
  {
    seq(|cols|, i requires 0 <= i < |cols| => cols[i].name)
  }

  /** No two columns share a name. */
  predicate DistinctNames(cols: seq<ColumnState>)
  {
    forall i, j :: 0 <= i < j < |cols| ==> cols[i].name != cols[j].name
  }
}
