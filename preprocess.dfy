/** The label split and categorical encoding of `preprocess_data`: the reserved `Label`
    column becomes the target, and every object (string) feature column is replaced by
    LabelEncoder codes. */
module Preprocess {
  import opened Values
  import opened Frame

  const LabelColumn := "Label"

  predicate StrictlySorted(s: seq<string>)
  {
    forall i, j :: 0 <= i < j < |s| ==> StrCmp(s[i], s[j]) < 0
  }

  /** A strict step followed by a weak one is strict. */
  lemma StrCmpStrict(a: string, b: string, c: string)
    requires StrCmp(a, b) < 0 && StrCmp(b, c) <= 0
    ensures StrCmp(a, c) < 0
  {
    StrCmpTransitive(a, b, c);
    StrCmpAntisymmetric(a, b);
  }

  /** Adds `x` to a strictly sorted list of distinct strings at its place. */
  function InsertClass(x: string, s: seq<string>): (r: seq<string>)
    requires StrictlySorted(s)
    ensures StrictlySorted(r)
    ensures forall y :: y in r <==> y in s || y == x
  {
    if s == [] then [x]
    else if StrCmp(x, s[0]) < 0 then
      assert forall j :: 0 < j < |s| ==> StrCmp(x, s[j]) < 0 by {
        forall j | 0 < j < |s| ensures StrCmp(x, s[j]) < 0 {
          StrCmpStrict(x, s[0], s[j]);
        }
      }
      [x] + s
    else if x == s[0] then s
    else
      var rest := InsertClass(x, s[1..]);
      StrCmpAntisymmetric(x, s[0]);
      assert forall j :: 0 <= j < |rest| ==> StrCmp(s[0], rest[j]) < 0 by {
        forall j | 0 <= j < |rest| ensures StrCmp(s[0], rest[j]) < 0 {
          assert rest[j] in rest;
          if rest[j] != x {
            assert rest[j] in s[1..];
            var k :| 0 <= k < |s[1..]| && s[1..][k] == rest[j];
            assert s[k + 1] == rest[j];
          }
        }
      }
      [s[0]] + rest
  }

  /** `classes_` of LabelEncoder: the distinct strings in sorted order. */
  function Classes(strs: seq<string>): (classes: seq<string>)
    ensures StrictlySorted(classes)
    ensures forall y :: y in classes <==> y in strs
  {
    if strs == [] then []
    else
      assert forall y :: y in strs <==> y == strs[0] || y in strs[1..];
      InsertClass(strs[0], Classes(strs[1..]))
  }

  lemma StrictlySortedNoDuplicates(s: seq<string>)
    requires StrictlySorted(s)
    ensures NoDuplicates(s)
  {
    assert forall i, j :: 0 <= i < j < |s| ==> StrCmp(s[i], s[j]) < 0;
  }

  /** In a strictly sorted list, position order is string order. */
  lemma PositionOrder(s: seq<string>, p: nat, q: nat)
    requires StrictlySorted(s) && p < |s| && q < |s|
    ensures p < q <==> StrCmp(s[p], s[q]) < 0
    ensures p == q <==> s[p] == s[q]
  {
    StrCmpAntisymmetric(s[p], s[q]);
  }

  /** `LabelEncoder().fit_transform(strs)`: each string's position among the sorted classes. */
  function LabelEncode(strs: seq<string>): (codes: seq<int>)
    ensures |codes| == |strs|
    ensures forall i :: 0 <= i < |strs| ==> 0 <= codes[i] < |Elements(strs)|
    ensures forall i, j :: 0 <= i < |strs| && 0 <= j < |strs| ==>
      (codes[i] < codes[j] <==> StrCmp(strs[i], strs[j]) < 0) &&
      (codes[i] == codes[j] <==> strs[i] == strs[j])
  {
    var classes := Classes(strs);
    StrictlySortedNoDuplicates(classes);
    NoDuplicatesCardinality(classes);
    assert Elements(classes) == Elements(strs);
    var codes := seq(|strs|, i requires 0 <= i < |strs| => FirstIndex(classes, strs[i]) as int);
    forall i, j | 0 <= i < |strs| && 0 <= j < |strs|
      ensures (codes[i] < codes[j] <==> StrCmp(strs[i], strs[j]) < 0) &&
              (codes[i] == codes[j] <==> strs[i] == strs[j])
    {
      PositionOrder(classes, codes[i], codes[j]);
    }
    codes
  }

  /** `astype(str)` of a whole column. */
  function StringifyAll(column: seq<Value>): (strs: seq<string>)
    ensures |strs| == |column|
    ensures forall i :: 0 <= i < |column| ==> strs[i] == Stringify(column[i])
  {
    seq(|column|, i requires 0 <= i < |column| => Stringify(column[i]))
  }

  /** The encoded column: `le.fit_transform(X[col].astype(str))`. Cells are compared by their
      text, so a missing cell gets the code of the string "nan". */
  function Encoded(column: seq<Value>): (codes: seq<Value>)
    ensures |codes| == |column|
    ensures forall i :: 0 <= i < |column| ==>
      codes[i].Num? && 0 <= codes[i].n < |Elements(StringifyAll(column))|
    ensures forall i, j :: 0 <= i < |column| && 0 <= j < |column| ==>
      (codes[i].n < codes[j].n <==> StrCmp(Stringify(column[i]), Stringify(column[j])) < 0) &&
      (codes[i] == codes[j] <==> Stringify(column[i]) == Stringify(column[j]))
  {
    var c := LabelEncode(StringifyAll(column));
    seq(|column|, i requires 0 <= i < |column| => Num(c[i]))
  }

  /** A missing cell and the text "nan" in the same column are encoded alike. */
  lemma MissingEncodesAsNan(column: seq<Value>, i: nat, j: nat)
    requires i < |column| && j < |column| && column[i] == Missing && column[j] == Str("nan")
    ensures Encoded(column)[i] == Encoded(column)[j]
  {
  }

  /** The column names without `name`, in order. */
  function Without(names: seq<string>, name: string): (r: seq<string>)
    ensures forall n :: n in r <==> n in names && n != name
  {
    if names == [] then []
    else if names[0] == name then Without(names[1..], name)
    else [names[0]] + Without(names[1..], name)
  }

  /** With distinct names, dropping a name that occurs at `p` removes exactly that position. */
  lemma {:induction false} WithoutAt(names: seq<string>, p: nat)
    requires NoDuplicates(names) && p < |names|
    ensures Without(names, names[p]) == names[..p] + names[p + 1..]
  {
    if p == 0 {
      assert names[p] !in names[1..];
      WithoutAbsent(names[1..], names[p]);
    } else {
      var t := names[1..];
      assert t[p - 1] == names[p];
      assert NoDuplicates(t);
      WithoutAt(t, p - 1);
      assert names[..p] == [names[0]] + t[..p - 1];
      assert names[p + 1..] == t[p..];
    }
  }

  /** `drop(name, axis=1)` on the column list. */
  function DropSpec(columns: seq<ColumnSpec>, name: string): (r: seq<ColumnSpec>)
    ensures Names(r) == Without(Names(columns), name)
    ensures forall c :: c in r <==> c in columns && c.name != name
  {
    if columns == [] then []
    else
      var names := Names(columns);
      assert names[0] == columns[0].name && names[1..] == Names(columns[1..]);
      assert forall c :: c in columns <==> c == columns[0] || c in columns[1..];
      var rest := DropSpec(columns[1..], name);
      if columns[0].name == name then
        assert Without(names, name) == Without(names[1..], name);
        rest
      else
        assert Without(names, name) == [names[0]] + Without(names[1..], name);
        assert Names([columns[0]] + rest) == [columns[0].name] + Names(rest);
        [columns[0]] + rest
  }

  /** Dropping a column keeps the remaining names distinct. */
  lemma {:induction false} DropSpecDistinct(columns: seq<ColumnSpec>, name: string)
    requires DistinctNames(Table(columns, []))
    ensures DistinctNames(Table(DropSpec(columns, name), []))
  {
    if columns != [] {
      DistinctTail(columns);
      DropSpecDistinct(columns[1..], name);
      if columns[0].name != name {
        DistinctCons(columns, DropSpec(columns[1..], name));
      }
    }
  }

  lemma DistinctTail(columns: seq<ColumnSpec>)
    requires columns != []
    ensures DistinctNames(Table(columns, [])) ==> DistinctNames(Table(columns[1..], []))
  {
    if DistinctNames(Table(columns, [])) {
      forall i, j | 0 <= i < j < |columns[1..]| ensures columns[1..][i].name != columns[1..][j].name {
        assert columns[1..][i] == columns[i + 1] && columns[1..][j] == columns[j + 1];
      }
    }
  }

  /** Putting the head column back in front of columns taken from the tail keeps names distinct. */
  lemma DistinctCons(columns: seq<ColumnSpec>, rest: seq<ColumnSpec>)
    requires columns != [] && forall c :: c in rest ==> c in columns[1..]
    requires DistinctNames(Table(columns[1..], [])) ==> DistinctNames(Table(rest, []))
    ensures DistinctNames(Table(columns, [])) ==> DistinctNames(Table([columns[0]] + rest, []))
  {
    if DistinctNames(Table(columns, [])) {
      DistinctTail(columns);
      var r := [columns[0]] + rest;
      forall i, j | 0 <= i < j < |r| ensures r[i].name != r[j].name {
        assert r[j] == rest[j - 1] && rest[j - 1] in rest;
        if i == 0 {
          var k :| 0 <= k < |columns[1..]| && columns[1..][k] == rest[j - 1];
          assert columns[k + 1] == rest[j - 1];
        } else {
          assert r[i] == rest[i - 1];
        }
      }
    }
  }

  /** `drop(name, axis=1)` on the rows: the cell disappears, the index stays. */
  function DropCells(rows: seq<Row>, name: string): (r: seq<Row>)
    ensures |r| == |rows|
    ensures forall i :: 0 <= i < |rows| ==> r[i] == Row(rows[i].index, rows[i].cells - {name})
  {
    seq(|rows|, i requires 0 <= i < |rows| => Row(rows[i].index, rows[i].cells - {name}))
  }

  /** `X[name] = values`. */
  function SetCells(rows: seq<Row>, name: string, values: seq<Value>): (r: seq<Row>)
    requires |values| == |rows|
    ensures |r| == |rows|
    ensures forall i :: 0 <= i < |rows| ==> r[i] == Row(rows[i].index, rows[i].cells[name := values[i]])
  {
    seq(|rows|, i requires 0 <= i < |rows| => Row(rows[i].index, rows[i].cells[name := values[i]]))
  }

  /** `data.drop('Label', axis=1)` when the column is present, else the table itself. */
  function FeaturesOf(data: Table): (x: Table)
    requires DistinctNames(data)
    ensures DistinctNames(x)
    ensures Names(x.columns) == Without(Names(data.columns), LabelColumn)
    ensures forall c :: c in x.columns <==> c in data.columns && c.name != LabelColumn
    ensures forall n :: n != LabelColumn ==> Column(x, n) == Column(data, n)
    ensures |x.rows| == |data.rows| && forall i :: 0 <= i < |data.rows| ==> x.rows[i].index == data.rows[i].index
  {
    if HasColumn(data, LabelColumn) then
      DropSpecDistinct(data.columns, LabelColumn);
      Table(DropSpec(data.columns, LabelColumn), DropCells(data.rows, LabelColumn))
    else
      WithoutAbsent(Names(data.columns), LabelColumn);
      data
  }

  /** The state of the encoding loop after `i` columns: the first `i` object columns of `x0`
      are encoded and retyped, everything else is as in `x0`. */
  predicate EncodedUpTo(x0: Table, x: Table, i: nat)
  {
    i <= |x0.columns| == |x.columns| &&
    |x.rows| == |x0.rows| &&
    (forall j :: 0 <= j < |x.rows| ==> x.rows[j].index == x0.rows[j].index) &&
    (forall k :: 0 <= k < |x0.columns| ==>
      x.columns[k] == if k < i && x0.columns[k].dtype.isObject then ColumnSpec(x0.columns[k].name, NumericDType)
                      else x0.columns[k]) &&
    (forall k :: 0 <= k < |x0.columns| ==>
      Column(x, x0.columns[k].name) ==
        if k < i && x0.columns[k].dtype.isObject then Encoded(Column(x0, x0.columns[k].name))
        else Column(x0, x0.columns[k].name))
  }

  /** `preprocess_data` up to, not including, mean imputation and scaling. */
  method PreprocessData(data: Table) returns (x: Table, y: Option<seq<Value>>, featureNames: seq<string>)
    requires DistinctNames(data)
    ensures y == if HasColumn(data, LabelColumn) then Some(Column(data, LabelColumn)) else None
    ensures featureNames == Names(x.columns) == Without(Names(data.columns), LabelColumn)
    ensures |x.rows| == |data.rows| && forall i :: 0 <= i < |data.rows| ==> x.rows[i].index == data.rows[i].index
    ensures !HasColumn(x, LabelColumn)
    ensures forall c :: c in data.columns && c.name != LabelColumn ==>
      if c.dtype.isObject then
        ColumnSpec(c.name, NumericDType) in x.columns && Column(x, c.name) == Encoded(Column(data, c.name))
      else
        c in x.columns && Column(x, c.name) == Column(data, c.name)
  {
    y := if HasColumn(data, LabelColumn) then Some(Column(data, LabelColumn)) else None;
    x := FeaturesOf(data);
    ghost var x0 := x;
    var i := 0;
    while i < |x.columns|
      invariant EncodedUpTo(x0, x, i)
    {
      if x.columns[i].dtype.isObject {
        EncodeStep(x0, x, i);
        x := EncodeColumn(x, i);
      }
      i := i + 1;
    }
    featureNames := Names(x.columns);
    EncodedAll(data, x0, x);
  }

  /** `X[col] = le.fit_transform(X[col].astype(str))` for the column at position `i`. */
  function EncodeColumn(t: Table, i: nat): (r: Table)
    requires i < |t.columns|
    ensures |r.columns| == |t.columns| && r.columns[i] == ColumnSpec(t.columns[i].name, NumericDType)
    ensures forall k :: 0 <= k < |t.columns| && k != i ==> r.columns[k] == t.columns[k]
    ensures |r.rows| == |t.rows| && forall j :: 0 <= j < |t.rows| ==> r.rows[j].index == t.rows[j].index
    ensures Column(r, t.columns[i].name) == Encoded(Column(t, t.columns[i].name))
    ensures forall n :: n != t.columns[i].name ==> Column(r, n) == Column(t, n)
  {
    var name := t.columns[i].name;
    var codes := Encoded(Column(t, name));
    SetCellsColumns(t, t.columns[i := ColumnSpec(name, NumericDType)], name, codes);
    Table(t.columns[i := ColumnSpec(name, NumericDType)], SetCells(t.rows, name, codes))
  }

  /** Writing one column's cells changes that column to the written values and no other. */
  lemma SetCellsColumns(t: Table, columns: seq<ColumnSpec>, name: string, values: seq<Value>)
    requires |values| == |t.rows|
    ensures Column(Table(columns, SetCells(t.rows, name, values)), name) == values
    ensures forall n :: n != name ==> Column(Table(columns, SetCells(t.rows, name, values)), n) == Column(t, n)
  {
    var r := Table(columns, SetCells(t.rows, name, values));
    forall n | n != name ensures Column(r, n) == Column(t, n) {
      assert forall j :: 0 <= j < |t.rows| ==> Column(r, n)[j] == Column(t, n)[j];
    }
    assert forall j :: 0 <= j < |t.rows| ==> Column(r, name)[j] == values[j];
  }

  /** One turn of the encoding loop on an object column keeps the loop state. */
  lemma EncodeStep(x0: Table, before: Table, i: nat)
    requires DistinctNames(x0) && EncodedUpTo(x0, before, i) && i < |x0.columns|
    requires before.columns[i].dtype.isObject
    ensures EncodedUpTo(x0, EncodeColumn(before, i), i + 1)
  {
    var after := EncodeColumn(before, i);
    var name := x0.columns[i].name;
    assert before.columns[i] == x0.columns[i];
    var codes := Encoded(Column(before, name));
    assert after.rows == SetCells(before.rows, name, codes);
    assert Column(after, name) == codes;
    assert Column(before, name) == Column(x0, name);
    forall k | 0 <= k < |x0.columns| && k != i
      ensures Column(after, x0.columns[k].name) == Column(before, x0.columns[k].name)
    {
      assert x0.columns[k].name != name;
    }
  }

  /** After the loop every feature column of the input is in the output, encoded when it held objects. */
  lemma EncodedAll(data: Table, x0: Table, x: Table)
    requires DistinctNames(data) && x0 == FeaturesOf(data) && EncodedUpTo(x0, x, |x0.columns|)
    ensures Names(x.columns) == Without(Names(data.columns), LabelColumn)
    ensures |x.rows| == |data.rows| && forall i :: 0 <= i < |data.rows| ==> x.rows[i].index == data.rows[i].index
    ensures !HasColumn(x, LabelColumn)
    ensures forall c :: c in data.columns && c.name != LabelColumn ==>
      if c.dtype.isObject then
        ColumnSpec(c.name, NumericDType) in x.columns && Column(x, c.name) == Encoded(Column(data, c.name))
      else
        c in x.columns && Column(x, c.name) == Column(data, c.name)
  {
    assert Names(x.columns) == Names(x0.columns);
    forall c | c in data.columns && c.name != LabelColumn
      ensures if c.dtype.isObject then
          ColumnSpec(c.name, NumericDType) in x.columns && Column(x, c.name) == Encoded(Column(data, c.name))
        else
          c in x.columns && Column(x, c.name) == Column(data, c.name)
    {
      assert c in x0.columns;
      var k :| 0 <= k < |x0.columns| && x0.columns[k] == c;
      assert x.columns[k] in x.columns;
    }
  }

  lemma {:induction false} WithoutAbsent(names: seq<string>, name: string)
    requires name !in names
    ensures Without(names, name) == names
  {
    if names != [] {
      WithoutAbsent(names[1..], name);
    }
  }
}
