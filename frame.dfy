/** A pandas DataFrame as the engine sees it: named, typed columns and rows that keep
    their original index label through every selection and reordering. */
module Frame {
  import opened Values

  /** The dtype of a column, abstracted to the three pandas predicates the engine asks:
      `is_numeric_dtype`, `is_bool_dtype` and `dtype == 'object'`. pandas reports
      `is_numeric_dtype` as true for bool columns too; nothing here rules that out. */
  datatype DType = DType(isNumeric: bool, isBool: bool, isObject: bool)

  /** The dtype of an int64 or float64 column, such as a label-encoded or a score column. */
  const NumericDType := DType(true, false, false)

  datatype ColumnSpec = ColumnSpec(name: string, dtype: DType)

  /** A row: its original index label and its cells by column name. */
  datatype Row = Row(index: nat, cells: map<string, Value>)

  datatype Table = Table(columns: seq<ColumnSpec>, rows: seq<Row>)

  /** The cell of `r` in column `c`; a row without that column reads as missing. */
  function Cell(r: Row, c: string): Value
  {
    if c in r.cells then r.cells[c] else Missing
  }

  function Names(columns: seq<ColumnSpec>): (names: seq<string>)
    ensures |names| == |columns|
    ensures forall i :: 0 <= i < |columns| ==> names[i] == columns[i].name
  {
    seq(|columns|, i requires 0 <= i < |columns| => columns[i].name)
  }

  predicate HasColumn(t: Table, c: string)
  {
    c in Names(t.columns)
  }

  predicate DistinctNames(t: Table)
  {
    forall i, j :: 0 <= i < j < |t.columns| ==> t.columns[i].name != t.columns[j].name
  }

  /** The index pandas gives a freshly loaded table: 0, 1, 2, ... */
  predicate RangeIndexed(t: Table)
  {
    forall k :: 0 <= k < |t.rows| ==> t.rows[k].index == k
  }

  /** `data[c]`: the column as a sequence of cells, one per row. */
  function Column(t: Table, c: string): (col: seq<Value>)
    ensures |col| == |t.rows|
    ensures forall i :: 0 <= i < |t.rows| ==> col[i] == Cell(t.rows[i], c)
  {
    seq(|t.rows|, i requires 0 <= i < |t.rows| => Cell(t.rows[i], c))
  }

  /** The row indices of a sequence of rows, in order. */
  function Indices(rows: seq<Row>): (ix: seq<nat>)
    ensures |ix| == |rows|
    ensures forall i :: 0 <= i < |rows| ==> ix[i] == rows[i].index
  {
    seq(|rows|, i requires 0 <= i < |rows| => rows[i].index)
  }

  /** `a` is obtained from `b` by deleting elements: order and the elements themselves are kept. */
  predicate IsSubsequence<T(==)>(a: seq<T>, b: seq<T>)
    decreases |b|
  {
    if a == [] then true
    else if b == [] then false
    else (a[0] == b[0] && IsSubsequence(a[1..], b[1..])) || IsSubsequence(a, b[1..])
  }

  /** Position of the first occurrence of `v` in `s`. */
  function FirstIndex<T(==)>(s: seq<T>, v: T): (i: nat)
    requires v in s
    ensures i < |s| && s[i] == v
    ensures forall j :: 0 <= j < i ==> s[j] != v
  {
    if s[0] == v then 0 else 1 + FirstIndex(s[1..], v)
  }

  predicate NoDuplicates<T(==)>(s: seq<T>)
  {
    forall i, j :: 0 <= i < j < |s| ==> s[i] != s[j]
  }

  /** The set of elements of a sequence. */
  function Elements<T>(s: seq<T>): set<T>
  {
    set v | v in s
  }

  lemma {:induction false} NoDuplicatesCardinality<T>(u: seq<T>)
    requires NoDuplicates(u)
    ensures |Elements(u)| == |u|
  {
    if u != [] {
      var t := u[1..];
      NoDuplicatesCardinality(t);
      assert Elements(u) == Elements(t) + {u[0]};
      assert u[0] !in Elements(t);
    }
  }
}
