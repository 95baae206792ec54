/** The ranking engine: `rank_suppliers` filters the table, then either sorts by the user's
    criteria or adds a `Supplier_Score` column looked up by original row index and sorts by it. */
module Ranking {
  import opened Values
  import opened Frame
  import opened Filters
  import opened Sorting

  const ScoreColumn := "Supplier_Score"
  const ScoreSpec := ColumnSpec(ScoreColumn, NumericDType)

  const NoMatchMessage := "No suppliers match all selected filters. Please adjust your criteria."

  /** The text returned for a KeyError of `sort_values`: `str(KeyError(c))` quotes the label. */
  function UnknownColumnMessage(column: string): string
  {
    "Error: '" + column + "'. One or more columns do not exist in the dataset."
  }

  function LengthMismatchMessage(directions: nat, criteria: nat): string
  {
    "Length of ascending (" + NatToString(directions) + ") != length of by (" + NatToString(criteria) + ")"
  }

  /** An exception that escapes `rank_suppliers` instead of being returned as a message. */
  datatype Exception = KeyError(key: string) | ValueError(message: string)

  /** The `(ranked_data, error)` pair, or an exception raised to the caller. */
  datatype Outcome = Returned(ranked: Option<Table>, error: Option<string>) | Raised(exception: Exception)

  /** The first condition, in map order, that indexes a column the table lacks. */
  function FirstUnresolved(t: Table, conds: Conditions): (bad: Option<string>)
    ensures bad.None? <==> ColumnsResolve(t, conds)
    ensures bad.Some? ==>
      !HasColumn(t, bad.value) &&
      exists k :: 0 <= k < |conds| && conds[k].0 == bad.value && !Inactive(conds[k].1) &&
                  ColumnsResolve(t, conds[..k])
  {
    if conds == [] then None
    else if !Inactive(conds[0].1) && !HasColumn(t, conds[0].0) then
      assert ColumnsResolve(t, conds[..0]);
      Some(conds[0].0)
    else
      var rest := FirstUnresolved(t, conds[1..]);
      assert forall k :: 0 < k < |conds| ==> conds[k] == conds[1..][k - 1];
      if rest.Some? then
        var k :| 0 <= k < |conds[1..]| && conds[1..][k].0 == rest.value && !Inactive(conds[1..][k].1) &&
                 ColumnsResolve(t, conds[1..][..k]);
        assert conds[k + 1] == conds[1..][k];
        assert conds[..k + 1] == [conds[0]] + conds[1..][..k];
        rest
      else
        rest
  }

  /** The first criterion, in the given order, that names no column of the table:
      the label `sort_values` reports in its KeyError. */
  function FirstMissingCriterion(t: Table, criteria: seq<string>): (missing: Option<string>)
    ensures missing.None? <==> forall c :: c in criteria ==> HasColumn(t, c)
    ensures missing.Some? ==>
      exists k :: 0 <= k < |criteria| && criteria[k] == missing.value && !HasColumn(t, criteria[k]) &&
                  forall j :: 0 <= j < k ==> HasColumn(t, criteria[j])
  {
    if criteria == [] then None
    else if !HasColumn(t, criteria[0]) then Some(criteria[0])
    else
      var rest := FirstMissingCriterion(t, criteria[1..]);
      if rest.Some? then
        var k :| 0 <= k < |criteria[1..]| && criteria[1..][k] == rest.value && !HasColumn(t, criteria[1..][k]) &&
                 forall j :: 0 <= j < k ==> HasColumn(t, criteria[1..][j]);
        assert criteria[k + 1] == criteria[1..][k];
        assert forall j :: 0 < j <= k ==> criteria[j] == criteria[1..][j - 1];
        rest
      else
        rest
  }

  /** `dict(zip(index, scores))`: `zip` stops at the shorter sequence. */
  function ZipToMap(index: seq<nat>, scores: seq<int>): (m: map<nat, int>)
    ensures forall k :: k in m <==> exists j :: 0 <= j < |index| && j < |scores| && index[j] == k
    decreases |index|
  {
    var n := if |index| < |scores| then |index| else |scores|;
    if n == 0 then map[]
    else
      var m := ZipToMap(index[..n - 1], scores[..n - 1]);
      assert forall j :: 0 <= j < n - 1 ==> index[..n - 1][j] == index[j];
      m[index[n - 1] := scores[n - 1]]
  }

  /** A repeated index label keeps the last score zipped with it: the score at the last
      position that carries the label. */
  lemma {:induction false} ZipToMapLast(index: seq<nat>, scores: seq<int>, j: nat)
    requires j < |index| && j < |scores|
    requires forall j' :: j < j' < |index| && j' < |scores| ==> index[j'] != index[j]
    ensures index[j] in ZipToMap(index, scores) && ZipToMap(index, scores)[index[j]] == scores[j]
    decreases |index|
  {
    var n := if |index| < |scores| then |index| else |scores|;
    if j < n - 1 {
      var ix, sc := index[..n - 1], scores[..n - 1];
      assert forall j' :: j < j' < |ix| && j' < |sc| ==> ix[j'] == index[j'];
      ZipToMapLast(ix, sc, j);
      assert index[n - 1] != index[j];
    }
  }

  /** `ZipToMapLast` at every position at once. */
  lemma ZipToMapLastAll(index: seq<nat>, scores: seq<int>)
    ensures forall j :: (0 <= j < |index| && j < |scores| &&
                         forall j' :: j < j' < |index| && j' < |scores| ==> index[j'] != index[j]) ==>
      index[j] in ZipToMap(index, scores) && ZipToMap(index, scores)[index[j]] == scores[j]
  {
    forall j | 0 <= j < |index| && j < |scores| &&
      (forall j' :: j < j' < |index| && j' < |scores| ==> index[j'] != index[j])
      ensures index[j] in ZipToMap(index, scores) && ZipToMap(index, scores)[index[j]] == scores[j]
    {
      ZipToMapLast(index, scores, j);
    }
  }

  /** With distinct index labels each label maps to the score at its own position. */
  lemma ZipToMapAt(index: seq<nat>, scores: seq<int>, j: nat)
    requires NoDuplicates(index) && j < |index| && j < |scores|
    ensures index[j] in ZipToMap(index, scores) && ZipToMap(index, scores)[index[j]] == scores[j]
  {
    ZipToMapLast(index, scores, j);
  }

  /** The score vector used: `prediction_probs` when given, else `predictions`, else none.
      Its labels are those data index labels at positions the chosen vector reaches, and a
      label maps to the chosen vector's score at the last position carrying that label. */
  function ScoreMapping(data: Table, predictions: Option<seq<int>>, probs: Option<seq<int>>): (m: map<nat, int>)
    ensures var vector := if probs.Some? then probs else predictions;
      forall k :: k in m <==>
        vector.Some? && exists j :: 0 <= j < |data.rows| && j < |vector.value| && data.rows[j].index == k
    ensures var vector := if probs.Some? then probs else predictions;
      vector.Some? ==>
        forall j :: (0 <= j < |data.rows| && j < |vector.value| &&
                     forall j' :: j < j' < |data.rows| && j' < |vector.value| ==> data.rows[j'].index != data.rows[j].index) ==>
          m[data.rows[j].index] == vector.value[j]
  {
    var ix := Indices(data.rows);
    if probs.Some? then ZipToMapLastAll(ix, probs.value); ZipToMap(ix, probs.value)
    else if predictions.Some? then ZipToMapLastAll(ix, predictions.value); ZipToMap(ix, predictions.value)
    else map[]
  }

  /** `index.map(score_mapping)`: an index with no score reads as missing. */
  function ScoreFor(mapping: map<nat, int>, index: nat): Value
  {
    if index in mapping then Num(mapping[index]) else Missing
  }

  /** `index.map(score_mapping)` for one row: its label's score, or missing when the mapping
      has no entry for it; the row's label and its other cells stay. */
  function WithScore(r: Row, mapping: map<nat, int>): (s: Row)
    ensures s.index == r.index
    ensures s.cells.Keys == r.cells.Keys + {ScoreColumn}
    ensures s.cells[ScoreColumn] == if r.index in mapping then Num(mapping[r.index]) else Missing
    ensures forall c :: c in r.cells && c != ScoreColumn ==> s.cells[c] == r.cells[c]
  {
    Row(r.index, r.cells[ScoreColumn := ScoreFor(mapping, r.index)])
  }

  /** The filtered rows after `filtered_data['Supplier_Score'] = ...`. */
  function Annotate(rows: seq<Row>, mapping: map<nat, int>): (scored: seq<Row>)
    ensures |scored| == |rows|
    ensures forall i :: 0 <= i < |rows| ==> scored[i] == WithScore(rows[i], mapping)
  {
    seq(|rows|, i requires 0 <= i < |rows| => WithScore(rows[i], mapping))
  }

  /** Assigning a column: columns of that name are replaced in place, otherwise the new column
      is appended; the names and their order do not change otherwise. */
  function SetColumn(columns: seq<ColumnSpec>, spec: ColumnSpec): (r: seq<ColumnSpec>)
    ensures spec in r
    ensures forall c :: c in columns && c.name != spec.name ==> c in r
    ensures forall c :: c in r ==> c == spec || (c in columns && c.name != spec.name)
    ensures Names(r) == if spec.name in Names(columns) then Names(columns) else Names(columns) + [spec.name]
  {
    var replaced := seq(|columns|, i requires 0 <= i < |columns| =>
      if columns[i].name == spec.name then spec else columns[i]);
    assert Names(replaced) == Names(columns);
    if spec.name in Names(columns) then
      var i :| 0 <= i < |columns| && Names(columns)[i] == spec.name;
      assert replaced[i] == spec;
      replaced
    else
      assert Names(replaced + [spec]) == Names(columns) + [spec.name];
      replaced + [spec]
  }

  /** `rank_suppliers`. */
  method RankSuppliers(data: Table, conds: Conditions, predictions: Option<seq<int>>, probs: Option<seq<int>>,
                       criteria: seq<string>, directions: seq<bool>) returns (out: Outcome)
    // filtering an absent column raises KeyError
    ensures !ColumnsResolve(data, conds) <==> out.Raised? && out.exception.KeyError?
    ensures out.Raised? && out.exception.KeyError? ==> FirstUnresolved(data, conds) == Some(out.exception.key)
    // an empty selection is reported and nothing is ranked
    ensures ColumnsResolve(data, conds) && Where(data.rows, conds) == [] ==>
      out == Returned(None, Some(NoMatchMessage))
    // criteria mode
    ensures ColumnsResolve(data, conds) && Where(data.rows, conds) != [] && criteria != [] ==>
      if |directions| != |criteria| then
        out == Raised(ValueError(LengthMismatchMessage(|directions|, |criteria|)))
      else if FirstMissingCriterion(data, criteria).Some? then
        out == Returned(None, Some(UnknownColumnMessage(FirstMissingCriterion(data, criteria).value)))
      else
        out.Returned? && out.error.None? && out.ranked.Some? &&
        out.ranked.value.columns == data.columns &&
        multiset(out.ranked.value.rows) == multiset(Where(data.rows, conds)) &&
        Sorted(out.ranked.value.rows, Keys(criteria, directions))
    // score mode
    ensures ColumnsResolve(data, conds) && Where(data.rows, conds) != [] && criteria == [] ==>
      out.Returned? && out.error.None? && out.ranked.Some? &&
      out.ranked.value.columns == SetColumn(data.columns, ScoreSpec) &&
      multiset(out.ranked.value.rows) ==
        multiset(Annotate(Where(data.rows, conds), ScoreMapping(data, predictions, probs))) &&
      Sorted(out.ranked.value.rows, [SortKey(ScoreColumn, false)])
    // a returned pair carries exactly one of its two components
    ensures out.Returned? ==> (out.ranked.Some? <==> out.error.None?)
  {
    var bad := FirstUnresolved(data, conds);
    if bad.Some? {
      return Raised(KeyError(bad.value));
    }
    var filtered: Table;
    if conds != [] {
      filtered := ApplyFiltersToData(data, conds);
    } else {
      NoConditions(data.rows);
      filtered := data;
    }
    if |filtered.rows| == 0 {
      return Returned(None, Some(NoMatchMessage));
    }
    if criteria != [] {
      if |directions| != |criteria| {
        return Raised(ValueError(LengthMismatchMessage(|directions|, |criteria|)));
      }
      var missing := FirstMissingCriterion(data, criteria);
      if missing.Some? {
        return Returned(None, Some(UnknownColumnMessage(missing.value)));
      }
      var ranked := filtered.(rows := SortRows(filtered.rows, Keys(criteria, directions)));
      return Returned(Some(ranked), None);
    }
    var mapping := ScoreMapping(data, predictions, probs);
    var rows := filtered.rows;
    var i := 0;
    while i < |rows|
      invariant 0 <= i <= |rows| == |filtered.rows|
      invariant forall j :: 0 <= j < i ==> rows[j] == WithScore(filtered.rows[j], mapping)
      invariant forall j :: i <= j < |rows| ==> rows[j] == filtered.rows[j]
    {
      rows := rows[i := WithScore(rows[i], mapping)];
      i := i + 1;
    }
    assert rows == Annotate(filtered.rows, mapping);
    var scored := Table(SetColumn(filtered.columns, ScoreSpec), rows);
    var ranked := scored.(rows := SortRows(scored.rows, [SortKey(ScoreColumn, false)]));
    return Returned(Some(ranked), None);
  }

  // ---------------------------------------------------------------------------
  // Score mode

  /** Every ranked row is a filtered row with its score written in: the score cell holds the
      entry for that row's own original index. */
  lemma ScoredRowsComeFromFiltered(ranked: seq<Row>, filtered: seq<Row>, mapping: map<nat, int>, r: Row)
    requires multiset(ranked) == multiset(Annotate(filtered, mapping)) && r in ranked
    ensures exists f :: f in filtered && r == WithScore(f, mapping)
    ensures Cell(r, ScoreColumn) == ScoreFor(mapping, r.index)
  {
    assert r in multiset(Annotate(filtered, mapping));
    var i :| 0 <= i < |filtered| && Annotate(filtered, mapping)[i] == r;
    assert filtered[i] in filtered;
  }

  /** Score-mode output is ordered by score descending with missing scores last. */
  lemma ScoreOrder(ranked: seq<Row>, i: nat, j: nat)
    requires Sorted(ranked, [SortKey(ScoreColumn, false)]) && i < j < |ranked|
    ensures Cell(ranked[i], ScoreColumn).Missing? ==> Cell(ranked[j], ScoreColumn).Missing?
    ensures Cell(ranked[i], ScoreColumn).Num? && Cell(ranked[j], ScoreColumn).Num? ==>
      Cell(ranked[i], ScoreColumn).n >= Cell(ranked[j], ScoreColumn).n
  {
    SortedPrimaryKey(ranked, [SortKey(ScoreColumn, false)], i, j);
  }

  /** On a freshly loaded table (index 0, 1, 2, ...) the score of the row labelled `index` is the
      entry at position `index` of `prediction_probs`, or of `predictions` when there are no
      probabilities; with neither, or past the end of the vector, the score is missing. */
  lemma ScoreByIndex(data: Table, predictions: Option<seq<int>>, probs: Option<seq<int>>, index: nat)
    requires RangeIndexed(data)
    ensures var vector := if probs.Some? then probs else predictions;
      ScoreFor(ScoreMapping(data, predictions, probs), index) ==
        if vector.Some? && index < |data.rows| && index < |vector.value| then Num(vector.value[index])
        else Missing
  {
    var ix := Indices(data.rows);
    assert forall j :: 0 <= j < |ix| ==> ix[j] == j;
    assert NoDuplicates(ix);
    var vector := if probs.Some? then probs else predictions;
    if vector.Some? {
      var m := ZipToMap(ix, vector.value);
      if index < |data.rows| && index < |vector.value| {
        assert ix[index] == index;
        ZipToMapAt(ix, vector.value, index);
      }
    }
  }
}
