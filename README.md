# Supplier selection engine: a Dafny model

This project models the data engine behind the supplier-selection tool. The engine has four parts:

- The **filter engine** (`apply_filters_to_data`). It narrows a supplier table by a map of column-keyed conditions: numeric inclusive ranges, categorical or boolean value lists, and case-insensitive text searches.
- The **ranking engine** (`rank_suppliers`). It filters first. Then it either sorts by user-chosen criteria, each with its own direction, or writes a `Supplier_Score` column looked up by original row index and sorts by it, descending.
- The **column profiler** (`get_column_type`, `get_unique_values`, `analyze_dataset_columns`). It tags each column as numeric, boolean, categorical or text and summarises it.
- The **label split and categorical encoding** of `preprocess_data`. The `Label` column becomes the target, and each object column is replaced by LabelEncoder codes.

The model files are:

- `values.dfy` (`Values`): cell values (`Num`, `Bool`, `Str`, `Missing`), `astype(str)`, ASCII lower-casing, substring search, and the cell orders used by sorting and by LabelEncoder.
- `frame.dfy` (`Frame`): tables with typed columns and rows that keep their original index label.
- `filters.dfy` (`Filters`): the filter conditions, the reference semantics `Where`, and the imperative filter loop proved equal to it.
- `sorting.dfy` (`Sorting`): the order that `sort_values` produces. Keys are compared lexicographically, each in its own direction, with missing cells last.
- `ranking.dfy` (`Ranking`): `rank_suppliers` with its error results and its raised exceptions.
- `profiler.dfy` (`Profiler`): the column profiler.
- `preprocess.dfy` (`Preprocess`): the `Label` split and the LabelEncoder step.

Modelling choices:

- Numbers are mathematical integers, and scores are integers too. Only their order matters to the engine.
- A boolean cell compares as 0 or 1, as it does in pandas.
- A column's dtype is abstracted to the three pandas questions the code asks: `is_numeric_dtype`, `is_bool_dtype` and `dtype == 'object'`. They are checked in the code's order. The model does not claim that a bool column is never numeric.
- Exceptions that escape `rank_suppliers` are an explicit `Raised` outcome rather than a precondition:
  - a `KeyError` when a filter indexes an absent column;
  - a `ValueError` when the number of directions differs from the number of criteria.
- Tables are values, so the input table is never changed, as with the source's `data.copy()`.

One might expect a text filter to exclude missing cells, since the search passes `na=False`. The code instead stringifies the column with `astype(str)` before `str.contains(..., na=False)`, so a missing cell becomes the text `"nan"`, and `na=False` never applies. A search for `"na"` therefore keeps rows whose cell is missing. The model follows the code (`Filters.MissingCellMatchesNan`).

## Model

| member | source | states |
|---|---|---|
| Filters.ApplyFiltersToData | supplier_evaluation_tool/core/model_handler.py:21-40 | The mask-by-mask loop over the conditions, in map order, returns the table with its columns unchanged and exactly the rows `Where` selects. The caller must make sure every active condition names an existing column, otherwise indexing raises KeyError. |
| Filters.Where | supplier_evaluation_tool/core/model_handler.py:22-39 | The filter result is a subsequence of the input rows, so order and index labels are kept. A row is in it iff it is an input row that passes every condition. |
| Filters.WhereCounts | supplier_evaluation_tool/core/model_handler.py:22-39 | Each row value occurs in the result as often as in the input when it passes every condition, and not at all otherwise. Duplicated rows are kept or dropped together. |
| Filters.KeepMask | supplier_evaluation_tool/core/model_handler.py:29-39 | `filtered_data[mask]` for one elementary mask. The result is a subsequence of the rows, so order and labels are kept. It holds exactly those rows whose cell in the column passes the mask. |
| Filters.NoConditions | supplier_evaluation_tool/core/model_handler.py:43 | With no conditions every row is kept, as with `data.copy()`. |
| Filters.WhereConjunction | supplier_evaluation_tool/core/model_handler.py:23-40 | Filtering by `cs` and then by `ds` equals filtering once by `cs + ds`: applying conditions one after another is their conjunction. |
| Filters.OrderIrrelevant | supplier_evaluation_tool/core/model_handler.py:23-40 | Two condition lists with the same entries give the same result, whatever their order or repetitions. |
| Filters.Idempotent | supplier_evaluation_tool/core/model_handler.py:23-40 | Filtering the filtered rows again by the same conditions returns them unchanged. |
| Filters.InactiveIgnored | supplier_evaluation_tool/core/model_handler.py:28-38 | A condition with no bound, an empty value list or an empty search, inserted anywhere, changes nothing. |
| Filters.KeptRowMeetsConditions | supplier_evaluation_tool/core/model_handler.py:25-39 | Every kept row satisfies each condition as its branch tests it. A numeric bound means a present number with `min <= v <= max`, inclusive. A non-empty value list means membership. A non-empty search means the lower-cased text contains the lower-cased search. |
| Filters.DroppedRowFailsSome | supplier_evaluation_tool/core/model_handler.py:25-39 | Every dropped input row fails at least one condition. |
| Filters.NumericDropsMissing | supplier_evaluation_tool/core/model_handler.py:28-31 | A row kept by a numeric filter with at least one bound has a present cell. A numeric filter with neither bound keeps everything. |
| Filters.MissingCellMatchesNan | supplier_evaluation_tool/core/model_handler.py:39 | A missing cell is stringified to "nan" before the case-insensitive search, so the search "NA" keeps it and the search "x" drops it. |
| Values.Stringify | supplier_evaluation_tool/core/model_handler.py:39 | `astype(str)` prints a number as its canonical decimal literal: no leading zero, a minus sign exactly for a negative number, never `-0`. The literal reads back as the same number. A string prints as itself, a boolean as `True`/`False` and a missing cell as `nan`; none of the last three reads as a number. |
| Values.IntToString | supplier_evaluation_tool/core/model_handler.py:39 | Python's `str()` of an integer is canonical, starts with `-` iff the integer is negative, and reads back as that integer. |
| Values.CanonicalUnique | supplier_evaluation_tool/core/model_handler.py:39 | The canonical literal is unique: any canonical text that reads as `i` is exactly `str(i)`. So which text a number's cell shows to the search is fully determined. |
| Filters.SatisfiesValue | supplier_evaluation_tool/core/model_handler.py:25-39 | An inactive condition accepts every cell. A numeric condition with a bound accepts only a cell with a number. A text search accepts a missing cell iff the search is empty or a case-insensitive substring of "nan". |
| Values.Lower | supplier_evaluation_tool/core/model_handler.py:39 | The case folding of `case=False`. It keeps the length, and each character is lower-cased on its own: `A`-`Z` map to `a`-`z` and every other character is kept. |
| Values.TextMatches | supplier_evaluation_tool/core/model_handler.py:39 | The mask of `astype(str).str.contains(search, case=False, na=False)`. An empty search matches every cell, including a missing one. |
| Values.TextMatchesAt | supplier_evaluation_tool/core/model_handler.py:39 | A cell matches iff the lower-cased search occurs at some position of the lower-cased text of the cell. |
| Values.TextMatchesIgnoresCase | supplier_evaluation_tool/core/model_handler.py:39 | Lower-casing the search, or the text of a string cell, does not change whether the cell matches. |
| Values.ContainsAt | supplier_evaluation_tool/core/model_handler.py:39 | The recursive substring test holds iff the search text occurs at some position, which is the meaning of a plain `str.contains`. |
| Sorting.KeyCmp | supplier_evaluation_tool/core/model_handler.py:50 | One sort key compares two cells. They tie exactly when the cells tie. A missing cell sorts after a present one in either direction. Two numbers are in order iff they are non-decreasing under an ascending key, non-increasing under a descending one. Two strings compare by `StrCmp` under an ascending key and by the reversed `StrCmp` under a descending one. |
| Sorting.SortRows | supplier_evaluation_tool/core/model_handler.py:50 | `sort_values` returns a permutation of its rows that is sorted under the keys. |
| Sorting.RowCmpLexicographic | supplier_evaluation_tool/core/model_handler.py:50 | Row `x` is strictly before row `y` iff at some key all earlier keys tie and that key, in its own direction, orders `x` first. The rows tie iff every key ties. |
| Sorting.SortedPrimaryKey | supplier_evaluation_tool/core/model_handler.py:50 | In sorted output the first key never goes backwards. Present numbers, and strings in `StrCmp` order, are non-decreasing under an ascending key and non-increasing under a descending key. A missing cell is followed only by missing cells. |
| Sorting.RowCmpTransitive | supplier_evaluation_tool/core/model_handler.py:50 | The row order used for sorting is transitive. |
| Sorting.RowCmpAntisymmetric | supplier_evaluation_tool/core/model_handler.py:50 | The row order used for sorting is antisymmetric. |
| Values.ValueCmp | supplier_evaluation_tool/core/model_handler.py:50 | The ascending cell order `sort_values` uses, as -1, 0 or 1. Cells of different kinds never tie and are ordered numbers or booleans, then strings, then missing cells, so a missing cell sorts after any present one. Two strings tie exactly when they are equal. |
| Values.ValueCmpTransitive | supplier_evaluation_tool/core/model_handler.py:50 | The cell order (numbers, then strings, then missing) is transitive. |
| Values.StrCmp | supplier_evaluation_tool/core/model_handler.py:50 | Python's string order, used by `sort_values` on string keys and by LabelEncoder's sorted classes. It returns -1, 0 or 1, and two strings tie exactly when they are equal. |
| Values.StrCmpLexicographic | supplier_evaluation_tool/core/model_handler.py:50 | `a` sorts before `b` iff `a` is a proper prefix of `b`, or `a` has the smaller character at the first position where they differ. |
| Ranking.RankSuppliers | supplier_evaluation_tool/core/model_handler.py:42-63 | The cases of the result. A KeyError is raised iff an active filter names an absent column, and its key is the first such column in map order. An empty selection returns `(None, "No suppliers match ...")`. In criteria mode: a ValueError on a length mismatch; `(None, "Error: '<column>'. ...")` naming the first absent criterion; otherwise a permutation of the filtered rows with unchanged columns, sorted lexicographically by the criteria. In score mode: the filtered rows with `Supplier_Score` written in, a permuted result sorted by that column descending. A returned pair carries a table iff it carries no error. |
| Ranking.FirstUnresolved | supplier_evaluation_tool/core/model_handler.py:23-39 | A column is reported iff some active condition names an absent column. The one reported is the column of the first such condition in map order: every active condition before it names an existing column. |
| Ranking.FirstMissingCriterion | supplier_evaluation_tool/core/model_handler.py:50-52 | A criterion is reported iff some criterion names no column. The one reported is the first such criterion in `by` order: every criterion before it names an existing column. |
| Ranking.ZipToMap | supplier_evaluation_tool/core/model_handler.py:55 | `dict(zip(index, scores))` has exactly the labels at the positions both sequences reach. |
| Ranking.ZipToMapLast | supplier_evaluation_tool/core/model_handler.py:55 | A label maps to the score at the last zipped position that carries it, so a repeated label keeps its last score. |
| Ranking.ZipToMapAt | supplier_evaluation_tool/core/model_handler.py:55 | With distinct labels, each label maps to the score at its own position. |
| Ranking.ScoreMapping | supplier_evaluation_tool/core/model_handler.py:54-58 | The vector used is `prediction_probs` when given, else `predictions`. The mapping's labels are exactly the data's index labels at positions that vector reaches. With neither vector the mapping is empty. A label maps to the chosen vector's score at the last position carrying that label, as `dict(zip(...))` keeps the last pair. |
| Ranking.WithScore | supplier_evaluation_tool/core/model_handler.py:56-59 | `index.map(score_mapping)` on one row. The row keeps its label and every other cell, and gains `Supplier_Score`. That cell holds the mapping's score for the row's label, or is missing when the label has no entry (pandas' NaN). |
| Ranking.Annotate | supplier_evaluation_tool/core/model_handler.py:56-59 | Assigning the mapped column keeps the rows' number and order. Row `i` of the result is row `i` with its own label's score written in. |
| Ranking.ScoreByIndex | supplier_evaluation_tool/core/model_handler.py:54-59 | On a table indexed 0, 1, 2, ... the score of the row labelled `i` is entry `i` of `prediction_probs`, or of `predictions` when the probabilities are None. With neither vector, or past the end of the vector, the score is missing. |
| Ranking.ScoredRowsComeFromFiltered | supplier_evaluation_tool/core/model_handler.py:56-61 | Every score-mode row is a filtered row with its own score written in. Its `Supplier_Score` cell is the mapping's entry for its original index. |
| Ranking.ScoreOrder | supplier_evaluation_tool/core/model_handler.py:61 | In score-mode output the present scores never increase, and a missing score is followed only by missing scores. |
| Ranking.SetColumn | supplier_evaluation_tool/core/model_handler.py:56 | Assigning `Supplier_Score` replaces a column of that name in place and otherwise appends it. The names keep their order, the new column is the only one under its name, and every other column is kept. |
| Profiler.GetColumnType | supplier_evaluation_tool/core/data_preprocessor.py:4-13 | The type tag is decided by the first matching rule. Numeric iff the dtype is numeric. Boolean iff it is not numeric but bool. Categorical iff neither holds and there are at most 10 distinct values, missing counting as one. Text otherwise. |
| Profiler.Unique | supplier_evaluation_tool/core/data_preprocessor.py:10 | `unique()` has no duplicates and exactly the values of the column. |
| Profiler.UniqueFirstSeen | supplier_evaluation_tool/core/data_preprocessor.py:16 | `unique()` lists values in order of first appearance. |
| Profiler.UniqueCardinality | supplier_evaluation_tool/core/data_preprocessor.py:10 | The length of `unique()` is the number of distinct values. |
| Profiler.DropMissing | supplier_evaluation_tool/core/data_preprocessor.py:16 | `dropna()` keeps exactly the present values, in their order (a subsequence of the column), each as often as it occurs. |
| Profiler.DropMissingFirstIndex | supplier_evaluation_tool/core/data_preprocessor.py:16 | Dropping missing cells keeps which of two present values is seen first. |
| Profiler.GetUniqueValues | supplier_evaluation_tool/core/data_preprocessor.py:15-19 | The sample holds present values of the column, without duplicates, at most 30 of them. `truncated` holds iff there are more than 30 distinct present values. A truncated sample has exactly 30 values. An untruncated sample holds every present value. |
| Profiler.UniqueValuesFirstSeen | supplier_evaluation_tool/core/data_preprocessor.py:16-18 | The sample is in order of first appearance in the column. |
| Profiler.OmittedValuesSeenLater | supplier_evaluation_tool/core/data_preprocessor.py:16-18 | Every present value the sample leaves out first appears in the column after every value it lists, so truncation keeps the first 30 distinct values seen. |
| Profiler.MissingCountsAsCategory | supplier_evaluation_tool/core/data_preprocessor.py:10-16 | Ten distinct strings plus a missing cell make a text column, because `unique()` counts the missing value. The sample still holds exactly ten values. |
| Profiler.NumericSummary | supplier_evaluation_tool/core/data_preprocessor.py:29-31 | With no present number, min, max and mean are 0. Otherwise min and max are values of the column and bound every present value, `min <= mean <= max`, and the mean is the sum over the count. |
| Profiler.SumBounds | supplier_evaluation_tool/core/data_preprocessor.py:31 | The sum of n numbers between lo and hi lies between n·lo and n·hi. |
| Profiler.ProfileColumn | supplier_evaluation_tool/core/data_preprocessor.py:24-34 | Each entry's type is `get_column_type` of its column. Numeric entries, and only they, carry a range. Categorical and boolean entries, and only they, carry a value sample. Text entries carry nothing else. |
| Profiler.ProfileColumnDetails | supplier_evaluation_tool/core/data_preprocessor.py:28-33 | A range is the column's `NumericSummary`: its min, max and mean are those of the column's present numbers. It is ordered and is all zeros for a column without numbers. A sample and its flag are exactly `get_unique_values` of the column. |
| Profiler.AnalyzeDatasetColumns | supplier_evaluation_tool/core/data_preprocessor.py:21-35 | The loop builds a map with exactly one key per column name. The entry of each column is its profile. |
| Preprocess.FeaturesOf | supplier_evaluation_tool/core/data_preprocessor.py:38-43 | The feature table holds exactly the columns other than `Label`, in original order, with their cells and row labels unchanged. |
| Preprocess.WithoutAt | supplier_evaluation_tool/core/data_preprocessor.py:39 | With distinct names, dropping the name at position `p` removes exactly that position. |
| Preprocess.Classes | supplier_evaluation_tool/core/data_preprocessor.py:47-48 | The encoder's classes are strictly sorted and are exactly the strings of the column. |
| Preprocess.LabelEncode | supplier_evaluation_tool/core/data_preprocessor.py:47-48 | Each code lies in `[0, k)`, where k is the number of distinct strings. Codes are equal iff the strings are equal. One code is smaller than another iff its string sorts first. |
| Preprocess.EncodeColumn | supplier_evaluation_tool/core/data_preprocessor.py:47-48 | `X[col] = le.fit_transform(X[col].astype(str))` for the column at position `i`. That column is retyped numeric and holds the encoded codes. Every other column's type and cells, the row count and the row labels stay. |
| Preprocess.Encoded | supplier_evaluation_tool/core/data_preprocessor.py:48 | The encoded column is numeric. Its codes are ordered and equal exactly as the `astype(str)` texts of the cells are. |
| Preprocess.MissingEncodesAsNan | supplier_evaluation_tool/core/data_preprocessor.py:48 | A missing cell and the string "nan" in the same column get the same code. |
| Preprocess.PreprocessData | supplier_evaluation_tool/core/data_preprocessor.py:37-55 | `y` is the `Label` column when there is one, else None. The feature names are the column names without `Label`, in order, and no `Label` column remains. Rows and their labels are kept. Each object column is retyped numeric and holds its LabelEncoder codes. Every other column is unchanged. |

## Left out

- `train_model` (decision tree, KMeans, train/test split) is a chain of foreign library calls over floats. The ranking takes its output as an opaque score vector.
- Mean imputation and `StandardScaler` in `preprocess_data` are floating-point numerics. `Preprocess.PreprocessData` returns the encoded table before those steps. Imputation and scaling keep the column names, so the returned feature names are the same.
- Preprocess.PreprocessData and Profiler.AnalyzeDatasetColumns require distinct column names. pandas returns a frame rather than a column for a duplicated label, and the source does not handle that case.
- Floats: cells, bounds, scores and probabilities are integers. How `astype(str)` prints a float (`"10.0"`) is not modelled.
- Ranking.RankSuppliers: the score vector is a sequence of integers, not the float probabilities `predict_proba` gives. An index without a score is modelled as missing.
- Filters.ApplyFiltersToData: `str.contains` treats the search as a regular expression. The model does plain substring matching, which agrees for searches without regular-expression metacharacters.
- Values.Lower: case folding is ASCII only. pandas' `case=False` also folds non-ASCII letters.
- Filters.SatisfiesValue: a string cell under a numeric bound fails the bound. In pandas, comparing strings with a number raises TypeError.
- Values.ValueCmp: mixed strings and numbers in one sort key are ordered numbers first. pandas raises TypeError there.
- Ranking.RankSuppliers: `sort_directions` is always a list of booleans. The source's default `None`, and a single boolean `ascending`, are not modelled; the tool's page always passes one boolean per criterion.
- Sorting.SortRows: sort stability is not claimed. Only the order the keys impose is proved. Rows that tie on every key may come in any order.
- The input table is never changed because tables are values. Aliasing between `data` and its copies is therefore not modelled.
- `app.py` (Streamlit state, and the rule that stores a filter only when it is narrower than the full range), the chart generator, the Gemini report generator, the PDF exporter, the UI header and sidebar, and the CSV loader are UI, network or file I/O. They are not part of this model.
