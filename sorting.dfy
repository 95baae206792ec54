/** The ordering `DataFrame.sort_values(by=..., ascending=...)` produces: lexicographic
    over the listed columns, each in its own direction, with missing cells last in every key. */
module Sorting {
  import opened Values
  import opened Frame

  /** One sort key: a column and its `ascending` flag. */
  datatype SortKey = SortKey(column: string, ascending: bool)

  /** Pairs the criteria with their directions, as `sort_values(by=criteria, ascending=directions)` does. */
  function Keys(criteria: seq<string>, directions: seq<bool>): (keys: seq<SortKey>)
    requires |directions| == |criteria|
    ensures |keys| == |criteria|
    ensures forall i :: 0 <= i < |criteria| ==> keys[i] == SortKey(criteria[i], directions[i])
  {
    seq(|criteria|, i requires 0 <= i < |criteria| => SortKey(criteria[i], directions[i]))
  }

  /** Comparison of two cells under one key: descending reverses the cell order (of numbers
      and of strings alike),
      but a missing cell stays last either way (`na_position='last'`). */
  function KeyCmp(a: Value, b: Value, ascending: bool): (c: int)
    ensures -1 <= c <= 1
    ensures c == 0 <==> ValueCmp(a, b) == 0
    ensures a.Missing? && !b.Missing? ==> c == 1
    ensures AsNumber(a).Some? && AsNumber(b).Some? ==>
      (c <= 0 <==> if ascending then AsNumber(a).value <= AsNumber(b).value else AsNumber(a).value >= AsNumber(b).value)
    ensures a.Str? && b.Str? ==> c == if ascending then StrCmp(a.s, b.s) else StrCmp(b.s, a.s)
  {
    ValueCmpAntisymmetric(a, b);
    var c := if ascending || a.Missing? || b.Missing? then ValueCmp(a, b) else -ValueCmp(a, b);
    if a.Str? && b.Str? then
      StrCmpAntisymmetric(a.s, b.s);
      c
    else if AsNumber(a).Some? && AsNumber(b).Some? then
      ValueCmpNumbers(a, b);
      ValueCmpNumbers(b, a);
      c
    else
      c
  }

  lemma KeyCmpAntisymmetric(a: Value, b: Value, ascending: bool)
    ensures KeyCmp(a, b, ascending) == -KeyCmp(b, a, ascending)
  {
    ValueCmpAntisymmetric(a, b);
  }

  lemma KeyCmpTransitive(a: Value, b: Value, c: Value, ascending: bool)
    requires KeyCmp(a, b, ascending) <= 0 && KeyCmp(b, c, ascending) <= 0
    ensures KeyCmp(a, c, ascending) <= 0
  {
    if ascending || (!a.Missing? && !b.Missing? && !c.Missing?) {
      if ascending {
        ValueCmpTransitive(a, b, c);
      } else {
        ValueCmpAntisymmetric(a, b);
        ValueCmpAntisymmetric(b, c);
        ValueCmpAntisymmetric(a, c);
        ValueCmpTransitive(c, b, a);
      }
    }
  }

  /** Lexicographic comparison of two rows: the first key decides unless it ties. */
  function RowCmp(x: Row, y: Row, keys: seq<SortKey>): int
  {
    if keys == [] then 0
    else
      var c := KeyCmp(Cell(x, keys[0].column), Cell(y, keys[0].column), keys[0].ascending);
      if c != 0 then c else RowCmp(x, y, keys[1..])
  }

  predicate RowLeq(x: Row, y: Row, keys: seq<SortKey>)
  {
    RowCmp(x, y, keys) <= 0
  }

  lemma {:induction false} RowCmpAntisymmetric(x: Row, y: Row, keys: seq<SortKey>)
    ensures RowCmp(x, y, keys) == -RowCmp(y, x, keys)
  {
    if keys != [] {
      KeyCmpAntisymmetric(Cell(x, keys[0].column), Cell(y, keys[0].column), keys[0].ascending);
      RowCmpAntisymmetric(x, y, keys[1..]);
    }
  }

  lemma {:induction false} RowCmpTransitive(x: Row, y: Row, z: Row, keys: seq<SortKey>)
    requires RowLeq(x, y, keys) && RowLeq(y, z, keys)
    ensures RowLeq(x, z, keys)
  {
    if keys != [] {
      var k := keys[0];
      var a, b, c := Cell(x, k.column), Cell(y, k.column), Cell(z, k.column);
      KeyCmpTransitive(a, b, c, k.ascending);
      KeyCmpAntisymmetric(a, b, k.ascending);
      KeyCmpAntisymmetric(b, c, k.ascending);
      KeyCmpAntisymmetric(a, c, k.ascending);
      if KeyCmp(a, c, k.ascending) == 0 {
        // a and c tie, so b ties with both
        KeyCmpTransitive(b, c, a, k.ascending);
        KeyCmpTransitive(c, a, b, k.ascending);
        RowCmpTransitive(x, y, z, keys[1..]);
      }
    }
  }

  /** Every earlier row is at most every later one. */
  predicate Sorted(rows: seq<Row>, keys: seq<SortKey>)
  {
    forall i, j :: 0 <= i < j < |rows| ==> RowLeq(rows[i], rows[j], keys)
  }

  /** Places `x` before the first row it does not follow. */
  function Insert(x: Row, rows: seq<Row>, keys: seq<SortKey>): (r: seq<Row>)
    requires Sorted(rows, keys)
    ensures multiset(r) == multiset(rows) + multiset{x}
    ensures Sorted(r, keys)
  {
    if rows == [] then [x]
    else if RowLeq(x, rows[0], keys) then
      assert forall j :: 0 < j < |rows| ==> RowLeq(x, rows[j], keys) by {
        forall j | 0 < j < |rows| ensures RowLeq(x, rows[j], keys) {
          RowCmpTransitive(x, rows[0], rows[j], keys);
        }
      }
      SortedPrepend(x, rows, keys);
      [x] + rows
    else
      var rest := Insert(x, rows[1..], keys);
      RowCmpAntisymmetric(x, rows[0], keys);
      assert rows == [rows[0]] + rows[1..];
      LowerBoundKept(rows[0], x, rows[1..], rest, keys);
      SortedPrepend(rows[0], rest, keys);
      [rows[0]] + rest
  }

  /** A lower bound of `x` and of every row is a lower bound of any rearrangement of them. */
  lemma LowerBoundKept(y: Row, x: Row, rows: seq<Row>, r: seq<Row>, keys: seq<SortKey>)
    requires RowLeq(y, x, keys)
    requires forall j :: 0 <= j < |rows| ==> RowLeq(y, rows[j], keys)
    requires multiset(r) == multiset(rows) + multiset{x}
    ensures forall j :: 0 <= j < |r| ==> RowLeq(y, r[j], keys)
  {
    forall j | 0 <= j < |r| ensures RowLeq(y, r[j], keys) {
      assert r[j] in multiset(r);
      assert r[j] in rows || r[j] == x;
    }
  }

  /** A row at most every row of a sorted sequence can go in front of it. */
  lemma SortedPrepend(x: Row, rows: seq<Row>, keys: seq<SortKey>)
    requires Sorted(rows, keys)
    requires forall j :: 0 <= j < |rows| ==> RowLeq(x, rows[j], keys)
    ensures Sorted([x] + rows, keys)
  {
    var r := [x] + rows;
    forall i, j | 0 <= i < j < |r| ensures RowLeq(r[i], r[j], keys) {
      if i > 0 {
        assert r[i] == rows[i - 1] && r[j] == rows[j - 1];
      } else {
        assert r[j] == rows[j - 1];
      }
    }
  }

  /** `sort_values`: a sorted permutation of the rows (insertion sort). Only the order the keys
      impose is claimed; how rows that tie on every key are arranged is left open. */
  function SortRows(rows: seq<Row>, keys: seq<SortKey>): (r: seq<Row>)
    ensures multiset(r) == multiset(rows)
    ensures Sorted(r, keys)
  {
    if rows == [] then []
    else
      assert rows == [rows[0]] + rows[1..];
      Insert(rows[0], SortRows(rows[1..], keys), keys)
  }

  /** Lexicographic order spelled out: `x` is strictly before `y` exactly when, at some key,
      all earlier keys tie and that key orders `x` first. */
  lemma {:induction false} RowCmpLexicographic(x: Row, y: Row, keys: seq<SortKey>)
    ensures RowCmp(x, y, keys) < 0 <==>
      exists k :: 0 <= k < |keys| && TiesBefore(x, y, keys, k) &&
                  KeyCmp(Cell(x, keys[k].column), Cell(y, keys[k].column), keys[k].ascending) < 0
    ensures RowCmp(x, y, keys) == 0 <==> TiesBefore(x, y, keys, |keys|)
  {
    if keys != [] {
      RowCmpLexicographic(x, y, keys[1..]);
      var c := KeyCmp(Cell(x, keys[0].column), Cell(y, keys[0].column), keys[0].ascending);
      forall k | 0 <= k < |keys| - 1
        ensures TiesBefore(x, y, keys, k + 1) <==> c == 0 && TiesBefore(x, y, keys[1..], k)
      {
        TiesShift(x, y, keys, k);
      }
      TiesShift(x, y, keys, |keys| - 1);
      if RowCmp(x, y, keys) < 0 && c == 0 {
        var k :| 0 <= k < |keys[1..]| && TiesBefore(x, y, keys[1..], k) &&
                 KeyCmp(Cell(x, keys[1..][k].column), Cell(y, keys[1..][k].column), keys[1..][k].ascending) < 0;
        assert TiesBefore(x, y, keys, k + 1);
      }
      if RowCmp(x, y, keys) < 0 && c != 0 {
        assert TiesBefore(x, y, keys, 0);
      }
      if exists k :: 0 <= k < |keys| && TiesBefore(x, y, keys, k) &&
                     KeyCmp(Cell(x, keys[k].column), Cell(y, keys[k].column), keys[k].ascending) < 0 {
        var k :| 0 <= k < |keys| && TiesBefore(x, y, keys, k) &&
                 KeyCmp(Cell(x, keys[k].column), Cell(y, keys[k].column), keys[k].ascending) < 0;
        if k > 0 {
          assert TiesBefore(x, y, keys[1..], k - 1);
          assert keys[1..][k - 1] == keys[k];
        }
      }
    }
  }

  /** The first `k` keys all tie on `x` and `y`. */
  predicate TiesBefore(x: Row, y: Row, keys: seq<SortKey>, k: nat)
    requires k <= |keys|
  {
    forall j :: 0 <= j < k ==> KeyCmp(Cell(x, keys[j].column), Cell(y, keys[j].column), keys[j].ascending) == 0
  }

  lemma TiesShift(x: Row, y: Row, keys: seq<SortKey>, k: nat)
    requires 0 <= k < |keys|
    ensures TiesBefore(x, y, keys, k + 1) <==>
      KeyCmp(Cell(x, keys[0].column), Cell(y, keys[0].column), keys[0].ascending) == 0 &&
      TiesBefore(x, y, keys[1..], k)
  {
    assert forall j :: 0 <= j < k ==> keys[1..][j] == keys[j + 1];
    if KeyCmp(Cell(x, keys[0].column), Cell(y, keys[0].column), keys[0].ascending) == 0 &&
       TiesBefore(x, y, keys[1..], k) {
      forall j | 0 <= j < k + 1
        ensures KeyCmp(Cell(x, keys[j].column), Cell(y, keys[j].column), keys[j].ascending) == 0
      {
        if j > 0 {
          assert keys[1..][j - 1] == keys[j];
        }
      }
    }
  }

  /** In a sorted table the primary key never goes backwards: under an ascending key present
      numbers and strings are non-decreasing, under a descending one non-increasing, and a
      missing primary cell is followed only by missing primary cells. */
  lemma SortedPrimaryKey(rows: seq<Row>, keys: seq<SortKey>, i: nat, j: nat)
    requires Sorted(rows, keys) && |keys| > 0 && i < j < |rows|
    ensures var a, b := Cell(rows[i], keys[0].column), Cell(rows[j], keys[0].column);
      KeyCmp(a, b, keys[0].ascending) <= 0 &&
      (a.Missing? ==> b.Missing?) &&
      (AsNumber(a).Some? && AsNumber(b).Some? ==>
        if keys[0].ascending then AsNumber(a).value <= AsNumber(b).value
        else AsNumber(a).value >= AsNumber(b).value) &&
      (a.Str? && b.Str? ==>
        if keys[0].ascending then StrCmp(a.s, b.s) <= 0 else StrCmp(b.s, a.s) <= 0)
  {
    var a, b := Cell(rows[i], keys[0].column), Cell(rows[j], keys[0].column);
    assert RowLeq(rows[i], rows[j], keys);
    ValueCmpAntisymmetric(a, b);
    if AsNumber(a).Some? && AsNumber(b).Some? {
      ValueCmpNumbers(a, b);
      ValueCmpNumbers(b, a);
    }
  }
}
