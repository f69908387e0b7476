# Missing-value workflow of the data-mining app

This project models the part of the Streamlit data-mining app (`app.py`) that does more than draw a page. First, it finds and repairs missing values in the loaded table. Second, it computes the per-column summaries that this repair reuses.

The loaded table is a `Dataset` object made of named columns. Each column carries:
- a type tag, numeric (pandas `int64`/`float64`) or categorical (any other dtype);
- a sequence of cells, where `None` is a missing cell (NaN).

The object's invariant is `WellFormed`:
- every column has the same number of cells, namely the row count;
- a numeric column holds only numbers;
- column names are unique.

The model covers:

- **Missing-value table** (`Missingness.Report`). It has one entry per column with at least one missing cell. Each entry gives the column's missing count and that count as a percentage of the row count.
- **Preview** (`Missingness.Preview`). It shows the first at most 100 rows in which the chosen column is missing, in table order.
- **Remediation** (`Remediation.Dataset.Apply`). This is the "apply" button for a column chosen from the missing-value table, and it changes the dataset in place. Nothing changes unless the button is pressed with an action other than "do nothing". Otherwise one of two actions runs:
  - `Impute` fills the column's missing cells with a fill value: the median for a numeric column, `mode().iloc[0]` for any other.
  - `DropMissingRows` removes, from every column, the rows in which the chosen column is missing (`dropna(subset=[col])`).
  - The cell-by-cell work of both actions is done by loops (`FillCells`, `KeepCells`, `DropCells`). Each loop is proved equal to a specification function (`FillMissing`, `KeepRows`, `DropRows`), and the lemmas about those functions state what the source promises.
- **Summaries** (`Summary`), all of which skip missing cells:
  - the distinct count (`nunique`);
  - the mode, i.e. all values of maximal frequency, in ascending order as pandas returns them;
  - the five-number summary (`min`, `quantile(0.25)`, `median`, `quantile(0.75)`, `max`). Quantiles use numpy's default linear interpolation at position q·(n−1) of the ascending values, over exact `real` numbers.

The value order (`Order`) follows pandas and Python:
- numbers are compared by value;
- strings are compared character by character, with a proper prefix smaller;
- every number sorts before every string, as pandas orders a column that mixes the two (numbers ascending, then strings ascending).

pandas' behaviour decides four cases:
- A tie between several modes is broken by taking the smallest mode in that order, not the first one met in the column. `Series.mode` sorts its result.
- In a numeric column with no numbers, the median is NaN and `fillna(NaN)` fills nothing. The model returns `FillNaN`, and the dataset is unchanged.
- In a categorical column with no values, `mode()` is empty and `.iloc[0]` raises before `fillna` runs. The model returns `NoMode`, and the dataset is unchanged.
- Missing cells are not counted as a distinct value, because `nunique` drops NaN by default.

## Model

| member | source | states |
|---|---|---|
| Table.MissingCount | app.py:116 | the missing count of a column never exceeds its number of cells |
| Table.MissingCountExtremes | app.py:116-123 | the count is 0 exactly when no cell is missing, and equals the length exactly when every cell is missing |
| Table.Present | app.py:57-63 | the non-missing values: their number is the length minus the missing count, and a value is among them exactly when some cell holds it |
| Table.PresentAt | app.py:57-63 | the non-missing values in row order with their repetitions: the k-th is the value of the k-th row whose cell is present |
| Table.Where | app.py:140 | the `isna()` / `notna()` row mask as row numbers: as many as the missing (present) cells, each in range with the wanted missingness, strictly ascending |
| Table.WhereComplete | app.py:140 | every row with the wanted missingness is listed by the mask |
| Order.Sort | app.py:70 | the result is sorted and a permutation of the input |
| Order.SortSameValues | app.py:70 | sorting keeps the length and the set of values |
| Order.Dedup | app.py:43 | removing repeated neighbours keeps every value and never lengthens |
| Order.DedupStrictlySorted | app.py:43 | applied to a sorted sequence, it leaves every value exactly once, strictly ascending |
| Order.StrictlySortedCard | app.py:43 | a strictly ascending sequence is as long as the number of values in it |
| Summary.DistinctValues | app.py:43 | the distinct values are strictly ascending, and a value is among them exactly when some non-missing cell holds it |
| Summary.DistinctValuesCard | app.py:43 | their number is the number of different values in the non-missing cells, at most the number of non-missing cells |
| Summary.DistinctCount | app.py:43-44 | `nunique()` is the cardinality of the set of non-missing values, at most the non-missing cell count, and 0 exactly when every cell is missing |
| Summary.MaxFreq | app.py:70 | the largest frequency bounds every candidate's frequency and is attained by one of them |
| Summary.WithFreq | app.py:70 | keeps exactly the candidates of the given frequency, keeping their ascending order |
| Summary.Mode | app.py:70-72 | the modes are strictly ascending; a value is a mode exactly when it occurs and no value occurs more often; there is none exactly when every cell is missing (the "no mode" warning) |
| Summary.Numbers | app.py:52-63 | a number is among the numeric values exactly when it occurs as a numeric cell value |
| Summary.NumbersCount | app.py:52-63 | each number occurs as often among the numeric values as among the cell values |
| Summary.NumbersAscending | app.py:57-63 | the numbers of a sorted value sequence are ascending |
| Summary.NumericPresent | app.py:52-63 | every non-missing cell of a numeric column contributes a number |
| Summary.SortedNumbers | app.py:57-63 | the numbers `quantile` works on: ascending and a permutation of the column's non-missing numbers |
| Summary.InterpolateBetween | app.py:59-61 | the interpolated value lies between the two neighbours of the position |
| Summary.InterpolateMonotone | app.py:59-61 | interpolation grows with the position over ascending values |
| Summary.Position | app.py:59-61 | the position q·(n−1) lies within the n values |
| Summary.PositionMonotone | app.py:59-61 | the position grows with q |
| Summary.QuantileMonotone | app.py:59-61 | `Quantile` (`quantile(q)`, interpolation at q·(n−1)): `quantile(p) <= quantile(q)` whenever p <= q |
| Summary.QuantileEnds | app.py:58-62 | the 0- and 1-quantiles are the minimum and the maximum |
| Summary.MedianIsHalfQuantile | app.py:60 | `Median`, i.e. `median()` (middle value, or mean of the two middle values) equals the 0.5-quantile |
| Summary.StatsOf | app.py:57-63 | min and max are the ends, Q1, median and Q3 are the 0.25-, 0.5- and 0.75-quantiles, and min <= Q1 <= median <= Q3 <= max |
| Summary.SortedNumbersEnds | app.py:58-62 | the ends of the sorted numbers are numbers of the column bounding all of them |
| Summary.FiveNumber | app.py:52-63 | defined exactly for a numeric column with a number; ordered min <= Q1 <= median <= Q3 <= max; min and max occur in the column and bound every value; Q1, median and Q3 are the 0.25-, 0.5- and 0.75-quantiles (`Quantile`) of the sorted numbers |
| Missingness.PercentBounds | app.py:117 | `Percent`, the percentage of missing cells: a count of 1..rows gives a percentage in (0, 100], and percentage × rows = count × 100 |
| Missingness.Report | app.py:116-123 | an entry is in the table exactly when it is the entry of a column with a missing cell |
| Missingness.ReportEntryOf | app.py:116-123 | names are unique, so the entry named after a column is that column's entry |
| Missingness.ReportByColumn | app.py:116-123 | a column is listed exactly when it has a missing cell; its entry carries its missing count and its percentage, which lies in (0, 100] |
| Missingness.ReportTotalBound | app.py:116-123 | the listed missing counts add up to at most the number of cells |
| Missingness.RowAt | app.py:140 | a row has one cell per column |
| Missingness.Preview | app.py:140 | shows min(missing count, limit) rows; each is a row of the table, with its cells, in which the column is missing; in ascending row order |
| Missingness.PreviewAtMostLimit | app.py:140 | the preview with its limit of 100 shows at most 100 rows, and every missing row when there are no more than 100 |
| Missingness.PreviewIsFirst | app.py:140 | the shown rows are the first missing rows: none before the last shown row is skipped, and all are shown when fewer than the limit |
| Remediation.FillValueSpec | app.py:153-156 | `FillValue`, the value handed to `fillna`: numeric: the median of the column, present exactly when it has a number; otherwise: the smallest of the modes, and no fill value exactly when every cell is missing |
| Remediation.FillValueTyped | app.py:153-154 | the fill value of a numeric column is a number |
| Remediation.FillMissing | app.py:157 | `fillna(v)`: same length; each missing cell holds v, each other cell is unchanged |
| Remediation.FillMissingComplete | app.py:157 | after filling nothing is missing and the column keeps its type |
| Remediation.ReplaceCells | app.py:157 | replacing one column's cells by as many well-typed cells keeps the table well formed |
| Remediation.FillCells | app.py:157 | the filling loop computes `FillMissing` |
| Remediation.KeepRows | app.py:160 | one column after `dropna`: as many cells as the mask has present cells |
| Remediation.KeepRowsAt | app.py:160 | the k-th kept cell is the cell of the k-th row where the mask is present |
| Remediation.KeepRowsNoMissing | app.py:160 | the subset column itself has no missing cell afterwards |
| Remediation.DropRows | app.py:160 | the table after `dropna` has as many columns; names, types and contents are stated by `DropRowsSpec` |
| Remediation.DropRowsSpec | app.py:160 | the table stays well formed with exactly the missing count fewer rows; the subset column has no missing cell; names and types are kept; the rows left are the rows where the column was present, in order, with their cells unchanged |
| Remediation.KeepCells | app.py:160 | the row-keeping loop computes `KeepRows` |
| Remediation.DropCells | app.py:160 | the column loop computes `DropRows` |
| Remediation.Dataset.constructor | app.py:29 | a loaded, well-formed table becomes the session's dataset |
| Remediation.Dataset.Impute | app.py:152-158 | the table stays well formed with the same rows; with a fill value the column's missing cells take it, nothing else changes and nothing is missing in the column; without one the table is unchanged |
| Remediation.Dataset.DropMissingRows | app.py:159-161 | the table stays well formed; exactly the column's missing count of rows goes; the columns are `DropRows` of the old ones; the column has no missing cell |
| Remediation.Dataset.Apply | app.py:132-162 | on a column from the missing-value table: not pressed or "do nothing" leaves the table exactly as it was; otherwise it imputes or drops, with the guarantees above |

## Left out

- Loading the upload as CSV (`read_csv`) or ARFF (`arff.load`), and the unsupported-type branch (app.py:11-25): file I/O and foreign parsers. The model starts from a loaded table. Duplicate header names, which `read_csv` renames apart, are assumed unique.
- Streamlit rendering (app.py:31-35, 38-47, 64, 71-76, 125-129, 139, 158, 161): expanders, markdown, widgets, messages, the head(5)+tail(5) overview and the way `unique()` is printed. The selected column, the chosen action and the button state are parameters of `Apply`.
- Boxplot and scatter plot (app.py:79-110): matplotlib rendering.
- `st.experimental_rerun` (app.py:162): the re-run is outside the model. In the source the change does not survive it: every run rebuilds `df` from the upload (app.py:13-16), and nothing keeps `df` between runs, so the remediated table is dropped before any view shows it. The model describes the table as the action leaves it, before that re-run.
- The `if col_na:` guard (app.py:138): it is falsy only for an empty column name. The model shows the preview for any column.
- dtype inference (`select_dtypes`, `dtype`): it is replaced by a type tag fixed on each column. pandas turns an integer column with NaN into float64; the tag does not track such conversions.
- Floating point: cells and statistics are exact reals. NaN appears only as a missing cell.
- Missingness.Percent: the percentage is exact; `round(2)` (app.py:117) is not modelled.
- Missingness.Report: the entries come in column order by construction, but the contract states which entries appear, not their order.
- Summary.FiveNumber: pandas returns NaN statistics for a numeric column without numbers; the model returns `None` instead.
- Remediation.Dataset.Impute: `df[col].fillna(..., inplace=True)` acts on a column taken from the table. Whether that updates the table (it does under pandas 2 without copy-on-write) is a library aliasing question. The model updates the column in the table.
