/** The filter engine: `apply_filters_to_data` narrows a table by column-keyed
    conditions, one boolean mask after another. */
module Filters {
  import opened Values
  import opened Frame

  /** One entry of the filter map, tagged by its 'type'. */
  datatype FilterCondition =
    | NumericRange(min: Option<int>, max: Option<int>)  // 'numeric': inclusive bounds, None skips a side
    | AllowedValues(values: seq<Value>)                 // 'categorical' or 'boolean': set membership
    | TextSearch(search: string)                        // 'text': case-insensitive substring
    | Unrecognized                                      // any other 'type': no branch applies

  /** The filter map in its iteration (insertion) order. */
  type Conditions = seq<(string, FilterCondition)>

  /** What one condition demands of a cell. A missing cell has no number, so it fails
      either numeric bound; it is stringified to "nan" before a text search. */
  predicate SatisfiesValue(v: Value, cond: FilterCondition)
    ensures Inactive(cond) ==> SatisfiesValue(v, cond)
    ensures cond.NumericRange? && !Inactive(cond) && SatisfiesValue(v, cond) ==> AsNumber(v).Some?
    ensures cond.TextSearch? && v.Missing? ==>
      (SatisfiesValue(v, cond) <==> cond.search == "" || Contains("nan", Lower(cond.search)))
  {
    match cond
    case NumericRange(lo, hi) =>
      (lo.None? || (AsNumber(v).Some? && lo.value <= AsNumber(v).value)) &&
      (hi.None? || (AsNumber(v).Some? && AsNumber(v).value <= hi.value))
    case AllowedValues(values) => values == [] || v in values
    case TextSearch(search) =>
      assert Lower(Stringify(Missing)) == "nan";
      search == "" || TextMatches(v, search)
    case Unrecognized => true
  }

  /** A row passes every condition of the map. */
  predicate SatisfiesAll(r: Row, conds: Conditions)
  {
    forall k :: 0 <= k < |conds| ==> SatisfiesValue(Cell(r, conds[k].0), conds[k].1)
  }

  /** The reference semantics of filtering: the rows passing every condition, in input order. */
  function Where(rows: seq<Row>, conds: Conditions): (kept: seq<Row>)
    ensures forall r :: r in kept <==> r in rows && SatisfiesAll(r, conds)
    ensures IsSubsequence(kept, rows)
  {
    if rows == [] then []
    else
      var rest := Where(rows[1..], conds);
      if SatisfiesAll(rows[0], conds) then [rows[0]] + rest else rest
  }

  /** Filtering keeps every copy of a passing row and no copy of a failing one. */
  lemma {:induction false} WhereCounts(rows: seq<Row>, conds: Conditions)
    ensures forall r :: multiset(Where(rows, conds))[r] == if SatisfiesAll(r, conds) then multiset(rows)[r] else 0
  {
    if rows != [] {
      WhereCounts(rows[1..], conds);
      assert rows == [rows[0]] + rows[1..];
    }
  }

  /** A condition that keeps every row: an empty value list, an empty search, no bounds
      or an unrecognized type. */
  predicate Inactive(cond: FilterCondition)
  {
    match cond
    case NumericRange(lo, hi) => lo.None? && hi.None?
    case AllowedValues(values) => values == []
    case TextSearch(search) => search == ""
    case Unrecognized => true
  }

  /** A column the filter loop reads: every condition that applies a mask indexes its column,
      which raises KeyError when the table has no such column. */
  predicate ColumnsResolve(t: Table, conds: Conditions)
  {
    forall k :: 0 <= k < |conds| && !Inactive(conds[k].1) ==> HasColumn(t, conds[k].0)
  }

  /** The elementary boolean masks the source applies, one per `filtered_data[...]` line. */
  datatype Mask = AtLeast(lo: int) | AtMost(hi: int) | IsIn(values: seq<Value>) | ContainsText(search: string)

  predicate MaskHolds(v: Value, m: Mask)
  {
    match m
    case AtLeast(lo) => AsNumber(v).Some? && lo <= AsNumber(v).value
    case AtMost(hi) => AsNumber(v).Some? && AsNumber(v).value <= hi
    case IsIn(values) => v in values
    case ContainsText(search) => TextMatches(v, search)
  }

  /** `rows[mask]` for one mask on one column: the rows whose cell passes, in order. */
  function KeepMask(rows: seq<Row>, column: string, m: Mask): (kept: seq<Row>)
    ensures forall r :: r in kept <==> r in rows && MaskHolds(Cell(r, column), m)
    ensures IsSubsequence(kept, rows)
  {
    if rows == [] then []
    else
      var rest := KeepMask(rows[1..], column, m);
      if MaskHolds(Cell(rows[0], column), m) then [rows[0]] + rest else rest
  }

  /** `apply_filters_to_data`: start from a copy and, condition by condition in the map's
      order, apply the masks of that condition's branch. */
  method ApplyFiltersToData(data: Table, conds: Conditions) returns (filtered: Table)
    requires ColumnsResolve(data, conds)
    ensures filtered == Table(data.columns, Where(data.rows, conds))
  {
    filtered := data;
    NoConditions(data.rows);
    var i := 0;
    while i < |conds|
      invariant 0 <= i <= |conds|
      invariant filtered == Table(data.columns, Where(data.rows, conds[..i]))
    {
      var (column, cond) := conds[i];
      ghost var done := conds[..i];
      assert conds[..i + 1] == done + [(column, cond)];
      match cond {
        case NumericRange(lo, hi) =>
          SkipStep(data.rows, done, column, NumericRange(None, None));
          if lo.Some? {
            KeepStep(data.rows, done, column, NumericRange(None, None), AtLeast(lo.value), NumericRange(lo, None));
            filtered := filtered.(rows := KeepMask(filtered.rows, column, AtLeast(lo.value)));
          }
          assert filtered.rows == Where(data.rows, done + [(column, NumericRange(lo, None))]);
          if hi.Some? {
            KeepStep(data.rows, done, column, NumericRange(lo, None), AtMost(hi.value), NumericRange(lo, hi));
            filtered := filtered.(rows := KeepMask(filtered.rows, column, AtMost(hi.value)));
          }
          assert filtered.rows == Where(data.rows, done + [(column, cond)]);
        case AllowedValues(values) =>
          if values != [] {
            SkipStep(data.rows, done, column, Unrecognized);
            KeepStep(data.rows, done, column, Unrecognized, IsIn(values), cond);
            filtered := filtered.(rows := KeepMask(filtered.rows, column, IsIn(values)));
          } else {
            SkipStep(data.rows, done, column, cond);
          }
        case TextSearch(search) =>
          if search != "" {
            SkipStep(data.rows, done, column, Unrecognized);
            KeepStep(data.rows, done, column, Unrecognized, ContainsText(search), cond);
            filtered := filtered.(rows := KeepMask(filtered.rows, column, ContainsText(search)));
          } else {
            SkipStep(data.rows, done, column, cond);
          }
        case Unrecognized =>
          SkipStep(data.rows, done, column, cond);
      }
      i := i + 1;
    }
    assert conds[..i] == conds;
  }

  // ---------------------------------------------------------------------------
  // Lemmas on the reference semantics

  lemma SatisfiesAllAppend(r: Row, conds: Conditions, column: string, cond: FilterCondition)
    ensures SatisfiesAll(r, conds + [(column, cond)]) <==>
            SatisfiesAll(r, conds) && SatisfiesValue(Cell(r, column), cond)
  {
    var all := conds + [(column, cond)];
    assert all[|conds|] == (column, cond);
    assert forall k :: 0 <= k < |conds| ==> all[k] == conds[k];
  }

  /** Two condition lists that agree on every row give the same selection. */
  lemma {:induction false} WhereCongruent(rows: seq<Row>, cs: Conditions, ds: Conditions)
    requires forall r :: r in rows ==> (SatisfiesAll(r, cs) <==> SatisfiesAll(r, ds))
    ensures Where(rows, cs) == Where(rows, ds)
  {
    if rows != [] {
      WhereCongruent(rows[1..], cs, ds);
    }
  }

  /** With no conditions every row is kept: `rank_suppliers` ranks a copy of the whole table. */
  lemma {:induction false} NoConditions(rows: seq<Row>)
    ensures Where(rows, []) == rows
  {
    if rows != [] {
      NoConditions(rows[1..]);
    }
  }

  /** Appending a condition that no cell can fail leaves the selection as it is. */
  lemma SkipStep(rows: seq<Row>, conds: Conditions, column: string, cond: FilterCondition)
    requires forall v :: SatisfiesValue(v, cond)
    ensures Where(rows, conds + [(column, cond)]) == Where(rows, conds)
  {
    forall r | r in rows
      ensures SatisfiesAll(r, conds + [(column, cond)]) <==> SatisfiesAll(r, conds)
    {
      SatisfiesAllAppend(r, conds, column, cond);
    }
    WhereCongruent(rows, conds + [(column, cond)], conds);
  }

  /** Applying one mask to a selection tightens its last condition from `before` to `after`. */
  lemma KeepStep(rows: seq<Row>, conds: Conditions, column: string,
                 before: FilterCondition, m: Mask, after: FilterCondition)
    requires forall v :: SatisfiesValue(v, after) <==> SatisfiesValue(v, before) && MaskHolds(v, m)
    ensures KeepMask(Where(rows, conds + [(column, before)]), column, m) == Where(rows, conds + [(column, after)])
  {
    forall r | r in rows
      ensures SatisfiesAll(r, conds + [(column, after)]) <==>
              SatisfiesAll(r, conds + [(column, before)]) && MaskHolds(Cell(r, column), m)
    {
      SatisfiesAllAppend(r, conds, column, before);
      SatisfiesAllAppend(r, conds, column, after);
    }
    KeepAfterWhere(rows, conds + [(column, before)], conds + [(column, after)], column, m);
  }

  lemma {:induction false} KeepAfterWhere(rows: seq<Row>, cs: Conditions, ds: Conditions, column: string, m: Mask)
    requires forall r :: r in rows ==> (SatisfiesAll(r, ds) <==> SatisfiesAll(r, cs) && MaskHolds(Cell(r, column), m))
    ensures KeepMask(Where(rows, cs), column, m) == Where(rows, ds)
  {
    if rows != [] {
      KeepAfterWhere(rows[1..], cs, ds, column, m);
    }
  }

  /** Conditions are applied one after another, so filtering by `cs + ds` is filtering
      by `cs` and then by `ds`. */
  lemma {:induction false} WhereConjunction(rows: seq<Row>, cs: Conditions, ds: Conditions)
    ensures Where(Where(rows, cs), ds) == Where(rows, cs + ds)
  {
    if rows != [] {
      WhereConjunction(rows[1..], cs, ds);
      var r := rows[0];
      assert SatisfiesAll(r, cs + ds) <==> SatisfiesAll(r, cs) && SatisfiesAll(r, ds) by {
        var all := cs + ds;
        assert forall k :: 0 <= k < |cs| ==> all[k] == cs[k];
        assert forall k :: 0 <= k < |ds| ==> all[|cs| + k] == ds[k];
        if SatisfiesAll(r, cs) && SatisfiesAll(r, ds) {
          forall k | 0 <= k < |all|
            ensures SatisfiesValue(Cell(r, all[k].0), all[k].1)
          {
            if k >= |cs| {
              assert all[k] == ds[k - |cs|];
            }
          }
        }
        if SatisfiesAll(r, all) {
          forall k | 0 <= k < |ds|
            ensures SatisfiesValue(Cell(r, ds[k].0), ds[k].1)
          {
            assert all[|cs| + k] == ds[k];
          }
        }
      }
    }
  }

  lemma SameConditionsSatisfied(r: Row, cs: Conditions, ds: Conditions)
    requires forall c :: c in cs ==> c in ds
    requires SatisfiesAll(r, ds)
    ensures SatisfiesAll(r, cs)
  {
    forall k | 0 <= k < |cs|
      ensures SatisfiesValue(Cell(r, cs[k].0), cs[k].1)
    {
      assert cs[k] in ds;
      var j :| 0 <= j < |ds| && ds[j] == cs[k];
    }
  }

  /** The order of the conditions does not matter, nor does repeating one:
      only the set of (column, condition) entries decides the result. */
  lemma OrderIrrelevant(rows: seq<Row>, cs: Conditions, ds: Conditions)
    requires forall c :: c in cs <==> c in ds
    ensures Where(rows, cs) == Where(rows, ds)
  {
    forall r | r in rows
      ensures SatisfiesAll(r, cs) <==> SatisfiesAll(r, ds)
    {
      if SatisfiesAll(r, ds) {
        SameConditionsSatisfied(r, cs, ds);
      }
      if SatisfiesAll(r, cs) {
        SameConditionsSatisfied(r, ds, cs);
      }
    }
    WhereCongruent(rows, cs, ds);
  }

  /** Filtering the filtered table again by the same conditions changes nothing. */
  lemma Idempotent(rows: seq<Row>, conds: Conditions)
    ensures Where(Where(rows, conds), conds) == Where(rows, conds)
  {
    WhereConjunction(rows, conds, conds);
    OrderIrrelevant(rows, conds + conds, conds);
  }

  /** An inactive condition anywhere in the map filters nothing out. */
  lemma {:induction false} InactiveIgnored(rows: seq<Row>, cs: Conditions, column: string, cond: FilterCondition, ds: Conditions)
    requires Inactive(cond)
    ensures Where(rows, cs + [(column, cond)] + ds) == Where(rows, cs + ds)
  {
    WhereConjunction(rows, cs + [(column, cond)], ds);
    SkipStep(rows, cs, column, cond);
    WhereConjunction(rows, cs, ds);
  }

  /** A kept row meets each condition exactly as the source's branches test it. */
  lemma KeptRowMeetsConditions(rows: seq<Row>, conds: Conditions, r: Row, k: nat)
    requires r in Where(rows, conds) && k < |conds|
    ensures var v := Cell(r, conds[k].0);
      match conds[k].1
      case NumericRange(lo, hi) =>
        (lo.Some? || hi.Some? ==> AsNumber(v).Some?) &&
        (lo.Some? ==> lo.value <= AsNumber(v).value) &&
        (hi.Some? ==> AsNumber(v).value <= hi.value)
      case AllowedValues(values) => values != [] ==> v in values
      case TextSearch(search) => search != "" ==> TextMatches(v, search)
      case Unrecognized => true
  {
  }

  /** A row of the input that was dropped fails at least one condition. */
  lemma DroppedRowFailsSome(rows: seq<Row>, conds: Conditions, r: Row)
    requires r in rows && r !in Where(rows, conds)
    ensures exists k :: 0 <= k < |conds| && !SatisfiesValue(Cell(r, conds[k].0), conds[k].1)
  {
  }

  /** A numeric bound drops missing cells (and strings), while a range with neither bound keeps them. */
  lemma NumericDropsMissing(v: Value, lo: Option<int>, hi: Option<int>)
    ensures SatisfiesValue(v, NumericRange(lo, hi)) && (lo.Some? || hi.Some?) ==> !v.Missing?
    ensures SatisfiesValue(v, NumericRange(None, None))
  {
  }

  /** The text search stringifies a missing cell to "nan" first, so a search for a
      substring of "nan" keeps rows whose cell is missing. */
  lemma {:induction false} MissingCellMatchesNan()
    ensures SatisfiesValue(Missing, TextSearch("NA"))
    ensures !SatisfiesValue(Missing, TextSearch("x"))
  {
    assert Lower("NA") == "na";
    assert Lower(Stringify(Missing)) == "nan";
    assert IsPrefix("na", "nan");
    assert Lower("x") == "x";
    ContainsAt("nan", "x");
    forall i | 0 <= i < 3
      ensures !OccursAt("nan", "x", i)
    {
      assert "nan"[i..i + 1] == ["nan"[i]];
    }
  }
}
