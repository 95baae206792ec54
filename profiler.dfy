/** The column profiler: `get_column_type`, `get_unique_values` and
    `analyze_dataset_columns`, which classify each column and summarise it for the filter UI. */
module Profiler {
  import opened Values
  import opened Frame

  datatype ColumnType = Numeric | Boolean | Categorical | Text

  /** A column with at most this many distinct values (missing included) is categorical. */
  const MaxCategories := 10

  /** At most this many distinct values are listed for a categorical or boolean column. */
  const MaxSample := 30

  /** `Series.unique()`: each distinct value once, in order of first appearance;
      a missing value counts as one distinct value. */
  function Unique(s: seq<Value>): (u: seq<Value>)
    ensures NoDuplicates(u)
    ensures forall v :: v in u <==> v in s
  {
    if s == [] then []
    else
      var p := Unique(s[..|s| - 1]);
      var x := s[|s| - 1];
      assert s == s[..|s| - 1] + [x];
      if x in p then p else p + [x]
  }

  lemma FirstIndexOfPrefix(s: seq<Value>, n: nat, v: Value)
    requires n <= |s| && v in s[..n]
    ensures FirstIndex(s, v) == FirstIndex(s[..n], v)
  {
    var i := FirstIndex(s[..n], v);
    assert s[i] == v;
    var k := FirstIndex(s, v);
    assert k <= i;
  }

  /** `unique()` lists values in the order in which they are first seen. */
  lemma {:induction false} UniqueFirstSeen(s: seq<Value>, i: nat, j: nat)
    requires i < j < |Unique(s)|
    ensures FirstIndex(s, Unique(s)[i]) < FirstIndex(s, Unique(s)[j])
    decreases |s|
  {
    var n := |s| - 1;
    var p := s[..n];
    var x := s[n];
    var u := Unique(s);
    var up := Unique(p);
    assert u[i] in up && u[i] in p;
    FirstIndexOfPrefix(s, n, u[i]);
    if j < |up| {
      assert u[j] in p;
      FirstIndexOfPrefix(s, n, u[j]);
      UniqueFirstSeen(p, i, j);
    } else {
      assert u[j] == x && x !in p;
      assert FirstIndex(s, x) == n by {
        forall k | 0 <= k < n ensures s[k] != x {
          assert s[k] == p[k];
        }
      }
    }
  }

  /** The number of values `unique()` returns is the number of distinct values. */
  lemma UniqueCardinality(s: seq<Value>)
    ensures |Unique(s)| == |Elements(s)|
  {
    NoDuplicatesCardinality(Unique(s));
    assert Elements(Unique(s)) == Elements(s);
  }

  /** `get_column_type`: the first matching rule decides. */
  function GetColumnType(dtype: DType, column: seq<Value>): (t: ColumnType)
    ensures t == Numeric <==> dtype.isNumeric
    ensures t == Boolean <==> !dtype.isNumeric && dtype.isBool
    ensures t == Categorical <==> !dtype.isNumeric && !dtype.isBool && |Elements(column)| <= MaxCategories
    ensures t == Text <==> !dtype.isNumeric && !dtype.isBool && |Elements(column)| > MaxCategories
  {
    UniqueCardinality(column);
    if dtype.isNumeric then Numeric
    else if dtype.isBool then Boolean
    else if |Unique(column)| <= MaxCategories then Categorical
    else Text
  }

  /** `dropna()`: the present values, in order. */
  function DropMissing(s: seq<Value>): (r: seq<Value>)
    ensures forall v :: v in r <==> v in s && !v.Missing?
    ensures IsSubsequence(r, s)
    ensures forall v: Value :: !v.Missing? ==> multiset(r)[v] == multiset(s)[v]
  {
    if s == [] then []
    else
      assert s == [s[0]] + s[1..];
      var rest := DropMissing(s[1..]);
      if s[0].Missing? then rest
      else
        assert ([s[0]] + rest)[1..] == rest;
        [s[0]] + rest
  }

  /** `dropna()` keeps the relative order of first appearances of present values. */
  lemma {:induction false} DropMissingFirstIndex(s: seq<Value>, v: Value, w: Value)
    requires v in s && w in s && !v.Missing? && !w.Missing?
    ensures FirstIndex(DropMissing(s), v) < FirstIndex(DropMissing(s), w) <==> FirstIndex(s, v) < FirstIndex(s, w)
  {
    var d := DropMissing(s);
    if s[0] != v && s[0] != w {
      assert v in s[1..] && w in s[1..];
      DropMissingFirstIndex(s[1..], v, w);
      if !s[0].Missing? {
        assert d == [s[0]] + DropMissing(s[1..]);
      }
    }
  }

  /** The value list of a categorical or boolean column and whether it was cut short. */
  datatype ValueSample = ValueSample(values: seq<Value>, truncated: bool)

  /** `get_unique_values`: the first 30 distinct present values in order of first appearance,
      flagged when there are more. */
  function GetUniqueValues(column: seq<Value>): (r: ValueSample)
    ensures forall v :: v in r.values ==> v in column && !v.Missing?
    ensures NoDuplicates(r.values)
    ensures |r.values| <= MaxSample
    ensures r.truncated <==> |Elements(DropMissing(column))| > MaxSample
    ensures r.truncated ==> |r.values| == MaxSample
    ensures !r.truncated ==> forall v :: v in column && !v.Missing? ==> v in r.values
  {
    var u := Unique(DropMissing(column));
    UniqueCardinality(DropMissing(column));
    if |u| > MaxSample then
      assert forall v :: v in u[..MaxSample] ==> v in u;
      ValueSample(u[..MaxSample], true)
    else
      ValueSample(u, false)
  }

  /** The sample lists values in the order in which they first appear in the column. */
  lemma UniqueValuesFirstSeen(column: seq<Value>)
    ensures var r := GetUniqueValues(column);
      forall i, j :: 0 <= i < j < |r.values| ==>
        FirstIndex(column, r.values[i]) < FirstIndex(column, r.values[j])
  {
    var present := DropMissing(column);
    var u := Unique(present);
    var r := GetUniqueValues(column);
    assert r.values == u[..|r.values|];
    UniqueOrderFacts(present);
    forall i, j | 0 <= i < j < |r.values|
      ensures FirstIndex(column, r.values[i]) < FirstIndex(column, r.values[j])
    {
      assert r.values[i] == u[i] && r.values[j] == u[j];
      DropMissingFirstIndex(column, r.values[i], r.values[j]);
    }
  }

  /** Every present value a truncated sample leaves out first appears in the column after every
      value the sample lists. */
  lemma OmittedValuesSeenLater(column: seq<Value>, v: Value, i: nat)
    requires v in column && !v.Missing? && v !in GetUniqueValues(column).values
    requires i < |GetUniqueValues(column).values|
    ensures FirstIndex(column, GetUniqueValues(column).values[i]) < FirstIndex(column, v)
  {
    var present := DropMissing(column);
    var u := Unique(present);
    var r := GetUniqueValues(column);
    assert r.values == u[..|r.values|];
    assert v in u;
    var k :| 0 <= k < |u| && u[k] == v;
    assert k >= |r.values|;
    UniqueFirstSeen(present, i, k);
    DropMissingFirstIndex(column, r.values[i], v);
  }

  lemma UniqueOrderFacts(s: seq<Value>)
    ensures forall i, j :: 0 <= i < j < |Unique(s)| ==>
      FirstIndex(s, Unique(s)[i]) < FirstIndex(s, Unique(s)[j])
  {
    forall i, j | 0 <= i < j < |Unique(s)|
      ensures FirstIndex(s, Unique(s)[i]) < FirstIndex(s, Unique(s)[j])
    {
      UniqueFirstSeen(s, i, j);
    }
  }

  /** The numeric values present in a column (booleans count as 0 and 1). */
  function Numbers(column: seq<Value>): (ns: seq<int>)
    ensures forall x :: x in ns <==> exists v :: v in column && AsNumber(v) == Some(x)
  {
    if column == [] then []
    else
      var rest := Numbers(column[1..]);
      assert forall v :: v in column <==> v == column[0] || v in column[1..];
      match AsNumber(column[0])
      case Some(x) => [x] + rest
      case None => rest
  }

  function Sum(ns: seq<int>): int
  {
    if ns == [] then 0 else ns[0] + Sum(ns[1..])
  }

  function MinOf(ns: seq<int>): (m: int)
    requires ns != []
    ensures m in ns && forall x :: x in ns ==> m <= x
  {
    if |ns| == 1 then ns[0]
    else
      var rest := MinOf(ns[1..]);
      assert forall x :: x in ns ==> x == ns[0] || x in ns[1..];
      if ns[0] <= rest then ns[0] else rest
  }

  function MaxOf(ns: seq<int>): (m: int)
    requires ns != []
    ensures m in ns && forall x :: x in ns ==> x <= m
  {
    if |ns| == 1 then ns[0]
    else
      var rest := MaxOf(ns[1..]);
      assert forall x :: x in ns ==> x == ns[0] || x in ns[1..];
      if ns[0] >= rest then ns[0] else rest
  }

  lemma {:induction false} SumBounds(ns: seq<int>, lo: int, hi: int)
    requires forall x :: x in ns ==> lo <= x <= hi
    ensures lo * |ns| <= Sum(ns) <= hi * |ns|
  {
    if ns != [] {
      var tail := ns[1..];
      assert forall x :: x in tail ==> x in ns;
      SumBounds(tail, lo, hi);
      assert ns[0] in ns;
      MulSucc(lo, |tail|);
      MulSucc(hi, |tail|);
    }
  }

  lemma MulSucc(a: int, n: nat)
    ensures a * (n + 1) == a * n + a
  {
  }

  lemma MeanBetween(sum: int, n: nat, lo: int, hi: int)
    requires n > 0 && lo * n <= sum <= hi * n
    ensures lo as real <= (sum as real) / (n as real) <= hi as real
  {
    var r := n as real;
    assert (sum as real) - (lo as real) * r >= 0.0;
    assert (hi as real) * r - (sum as real) >= 0.0;
    assert (sum as real) / r - lo as real == ((sum as real) - (lo as real) * r) / r;
    assert hi as real - (sum as real) / r == ((hi as real) * r - (sum as real)) / r;
  }

  /** What the profiler stores beyond the type. */
  datatype Details =
    | Range(min: int, max: int, mean: real)              // numeric
    | Sample(uniqueValues: seq<Value>, truncated: bool)  // categorical and boolean
    | TypeOnly                                           // text

  datatype ColumnInfo = ColumnInfo(kind: ColumnType, details: Details)

  /** `min`, `max` and `mean` of a numeric column, ignoring missing cells; each is 0 when the
      column has no present value (pandas gives NaN there). */
  function NumericSummary(column: seq<Value>): (d: Details)
    ensures d.Range?
    ensures Numbers(column) == [] ==> d == Range(0, 0, 0.0)
    ensures Numbers(column) != [] ==>
      d.min in Numbers(column) && d.max in Numbers(column) &&
      (forall x :: x in Numbers(column) ==> d.min <= x <= d.max) &&
      d.min <= d.max &&
      d.min as real <= d.mean <= d.max as real &&
      d.mean == (Sum(Numbers(column)) as real) / (|Numbers(column)| as real)
  {
    var ns := Numbers(column);
    if ns == [] then Range(0, 0, 0.0)
    else
      var lo, hi := MinOf(ns), MaxOf(ns);
      SumBounds(ns, lo, hi);
      MeanBetween(Sum(ns), |ns|, lo, hi);
      Range(lo, hi, (Sum(ns) as real) / (|ns| as real))
  }

  /** The entry `analyze_dataset_columns` records for one column: its type, and the range for a
      numeric column, the value sample for a categorical or boolean one, nothing else for text. */
  function ProfileColumn(t: Table, spec: ColumnSpec): (info: ColumnInfo)
    ensures info.kind == GetColumnType(spec.dtype, Column(t, spec.name))
    ensures info.kind == Numeric <==> info.details.Range?
    ensures info.kind in {Categorical, Boolean} <==> info.details.Sample?
    ensures info.kind == Text <==> info.details == TypeOnly
  {
    var column := Column(t, spec.name);
    var kind := GetColumnType(spec.dtype, column);
    match kind
    case Numeric => ColumnInfo(kind, NumericSummary(column))
    case Categorical => ColumnInfo(kind, Sample(GetUniqueValues(column).values, GetUniqueValues(column).truncated))
    case Boolean => ColumnInfo(kind, Sample(GetUniqueValues(column).values, GetUniqueValues(column).truncated))
    case Text => ColumnInfo(kind, TypeOnly)
  }

  /** `analyze_dataset_columns`: one entry per column, built in a loop over the columns. */
  method AnalyzeDatasetColumns(t: Table) returns (info: map<string, ColumnInfo>)
    requires DistinctNames(t)
    ensures info.Keys == set c | c in t.columns :: c.name
    ensures forall k :: 0 <= k < |t.columns| ==> info[t.columns[k].name] == ProfileColumn(t, t.columns[k])
  {
    ghost var entries := seq(|t.columns|, k requires 0 <= k < |t.columns| => ProfileColumn(t, t.columns[k]));
    info := map[];
    var i := 0;
    while i < |t.columns|
      invariant 0 <= i <= |t.columns|
      invariant info.Keys == set c | c in t.columns[..i] :: c.name
      invariant forall k :: 0 <= k < i ==> info[t.columns[k].name] == entries[k]
    {
      RecordEntry(t.columns, entries, info, i);
      assert entries[i] == ProfileColumn(t, t.columns[i]);
      info := info[t.columns[i].name := ProfileColumn(t, t.columns[i])];
      i := i + 1;
    }
    assert t.columns[..i] == t.columns;
  }

  /** Recording the entry of column `i` keeps the entries of the earlier, differently named columns. */
  lemma RecordEntry(columns: seq<ColumnSpec>, entries: seq<ColumnInfo>, info: map<string, ColumnInfo>, i: nat)
    requires DistinctNames(Table(columns, [])) && i < |columns| == |entries|
    requires info.Keys == set c | c in columns[..i] :: c.name
    requires forall k :: 0 <= k < i ==> info[columns[k].name] == entries[k]
    ensures info[columns[i].name := entries[i]].Keys == set c | c in columns[..i + 1] :: c.name
    ensures forall k :: 0 <= k <= i ==> info[columns[i].name := entries[i]][columns[k].name] == entries[k]
  {
    assert columns[..i + 1] == columns[..i] + [columns[i]];
  }

  /** The details of an entry: a numeric range is the column's `NumericSummary`, so it is
      ordered and defaults to zeros for a column without numbers, and a sample is exactly
      `get_unique_values` of the column. */
  lemma ProfileColumnDetails(t: Table, spec: ColumnSpec)
    ensures var info, column := ProfileColumn(t, spec), Column(t, spec.name);
      (info.details.Range? ==> info.details == NumericSummary(column)) &&
      (info.details.Range? ==> info.details.min <= info.details.max) &&
      (info.details.Range? && Numbers(column) == [] ==> info.details == Range(0, 0, 0.0)) &&
      (info.details.Sample? ==>
        info.details.uniqueValues == GetUniqueValues(column).values &&
        info.details.truncated == GetUniqueValues(column).truncated)
  {
  }

  /** Missing cells count toward the categorical threshold but never appear in the sample:
      ten distinct strings plus a missing cell make a text column, while the sample would hold
      exactly the ten strings. */
  lemma {:induction false} MissingCountsAsCategory(column: seq<Value>, dtype: DType)
    requires !dtype.isNumeric && !dtype.isBool
    requires |Elements(DropMissing(column))| == MaxCategories && Missing in column
    ensures GetColumnType(dtype, column) == Text
    ensures |GetUniqueValues(column).values| == MaxCategories
  {
    assert Elements(column) == Elements(DropMissing(column)) + {Missing};
    assert Missing !in Elements(DropMissing(column));
    var r := GetUniqueValues(column);
    NoDuplicatesCardinality(r.values);
    assert Elements(r.values) == Elements(DropMissing(column));
  }
}
