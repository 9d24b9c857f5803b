# Statistics helpers of the data-processing capstone project, in Dafny

`my_statistics.py` builds two summary reports on a pandas data frame.

- `spearman_assess` correlates a target column with every other numeric column. For each one it records the Spearman coefficient, its p-value and a strength tier. The rows are then ordered by decreasing magnitude of the coefficient.
- `kruskal_all` tests the target against every other non-numeric column with a Kruskal-Wallis H test. Before testing, each such column is replaced by integer codes: `kruskal_one` calls the helpers `write_names` and `swap`. `write_names` numbers distinct labels 1, 2, … in order of first appearance. `swap` looks every cell up in one of the two resulting dictionaries.

The project models these five functions.

| module | file | models |
|---|---|---|
| `Frame` | `frame.dfy` | The frame. It is a sequence of labelled numeric or categorical columns of `Num` or `Label` cells. It has lookup by label (`data_frame[name]`), column assignment to an existing label (`table[name] = …`) and the `KeyError` outcomes. |
| `Encoder` | `encoder.dfy` | `write_names` is a loop over the distinct values that fills both dictionaries. `swap` is modelled in both directions. |
| `StrengthTiers` | `strength.dfy` | The if/elif chain that turns a coefficient into "Very Strong" … "None". |
| `ColumnScan` | `scan.dfy` | The scan over `data_frame.columns` shared by both reports: keep the columns of one kind whose label is not the target. |
| `Spearman` | `spearman.dfy` | `spearman_assess`: a loop that fills four lists, builds the table and sorts it. |
| `Kruskal` | `kruskal.dfy` | `kruskal_one` and `kruskal_all`. |

The two statistics come from `scipy.stats` and are not modelled. `spearmanr` and `kruskal` are function parameters of type `(target cells, column cells) -> Test(stat, p)`. The model proves what the helpers do with those results: which columns are tested, on which cells, and how rows are labelled and ordered.

## Behaviour that follows the code

One might expect `swap(…, to_numbers=True)` followed by `swap(…, to_numbers=False)` to give back the original labels. The code does not do that.
- `swap` rebuilds its dictionaries from the column it is given.
- Decoding an encoded column therefore numbers the codes 1..K by themselves.
- The result is the unchanged codes. `Encoder.DecodeOfEncode` proves this.

The inverse pair that does hold is decoding with the dictionaries of the *original* column. `Encoder.EncodeRoundTrip` proves that pair.

The guard `name != np.nan` (line 50) looks as if it keeps missing values from getting a code. It is true for every number, every label and NaN, so it filters nothing. The model therefore has no filter.

In `kruskal_one` (line 69) the dictionary `to_num` is passed where the flag `to_numbers` is expected. A dictionary is true exactly when the column has a cell. `Encoder.SwapWithDictionaryFlag` shows that this always yields the encoding: an empty column gives the empty column both ways.

`spearman_assess` and `kruskal_all` read the target column only when they test a column. A missing target therefore fails (a `KeyError`, here `Err(MissingColumn(target))`) exactly when at least one column qualifies.

## Model

| member | source | states |
|---|---|---|
| Frame.Find | my_statistics.py:18 | Lookup by label succeeds exactly when some column has that label, and returns a column of the frame with that label. |
| Frame.FindDistinct | my_statistics.py:81-84 | With distinct labels, looking up the label of the i-th column returns that very column. |
| Frame.SetColumn | my_statistics.py:69 | Assigning a column keeps the number of columns, and every column keeps its label and kind. |
| Frame.SetColumnFind | my_statistics.py:68-70 | After the assignment the same labels exist, every other column is unchanged, and the assigned column holds the new cells. |
| Encoder.Unique | my_statistics.py:49 | `unique()` holds exactly the values of the column, has no repeats and is no longer than the column. |
| Encoder.LabelToCode | my_statistics.py:46-53 | The label-to-code dictionary has exactly the visited values as keys. Each code c is in 1..K, and the c-th distinct value is the one mapped to c. |
| Encoder.CodeToLabel | my_statistics.py:46-53 | The code-to-label dictionary has exactly the keys 1..K and maps c to the c-th distinct value. |
| Encoder.CodeOfIndex | my_statistics.py:48-53 | The i-th distinct value gets code i + 1. |
| Encoder.CodesAreDense | my_statistics.py:48-53 | The codes handed out are exactly 1..K, with no gaps, and they are the keys of the inverse dictionary. |
| Encoder.CodeDeterminesLabel | my_statistics.py:51 | Two labels with the same code are the same label. |
| Encoder.DecodeOfCode | my_statistics.py:51-52 | Decoding the code of a label gives back that label. |
| Encoder.CodeOfLabel | my_statistics.py:51-52 | Encoding the label of a code gives back that code. |
| Encoder.WriteNames | my_statistics.py:45-54 | The loop produces the two dictionaries. Their keys are exactly the column's values and exactly 1..K. The codes handed out are the inverse's keys, and each dictionary inverts the other both ways. |
| Encoder.DistinctCount | my_statistics.py:49-53 | The number of codes equals the number of distinct values of the column. |
| Encoder.UniquePrefix | my_statistics.py:49 | The distinct values of a prefix of the column are a prefix of its distinct values. |
| Encoder.FirstSeenCode | my_statistics.py:48-53 | The first occurrence of a value gets one plus the number of distinct values before it. |
| Encoder.CodesFollowFirstOccurrence | my_statistics.py:48-53 | Of two first occurrences, the earlier has the smaller code. |
| Encoder.FirstCellGetsOne | my_statistics.py:48-53 | The first cell of a non-empty column gets code 1. |
| Encoder.WriteNamesExample | my_statistics.py:45-54 | "a", "b", "a", "c" is numbered a: 1, b: 2, c: 3, and the inverse is 1: a, 2: b, 3: c. |
| Encoder.NumberThree | my_statistics.py:45-54 | Any three distinct values seen as a, b, a, c are numbered a: 1, b: 2, c: 3, with the inverse 1: a, 2: b, 3: c. |
| Encoder.Encode | my_statistics.py:59-60 | Encoding keeps the length, and every cell becomes a whole number between 1 and the number of distinct values. |
| Encoder.EncodeCell | my_statistics.py:51-60 | Cell i of the encoded column is the code the label-to-code dictionary gives the original cell i. |
| Encoder.EncodeInjective | my_statistics.py:59-60 | Two encoded cells are equal exactly when the original cells are equal. |
| Encoder.Decode | my_statistics.py:61-62 | Decoding succeeds exactly when every cell is a code 1..K, and otherwise fails with a missing key. On success the length is kept and code c becomes the c-th distinct value. |
| Encoder.Swap | my_statistics.py:57-62 | The encoding direction always succeeds, keeps the length and yields codes. The decoding direction succeeds exactly when every cell is a code. |
| Encoder.EncodeRoundTrip | my_statistics.py:51-60 | Looking an encoded cell up in the original column's code-to-label dictionary gives back the original cell. |
| Encoder.UniqueOfEncode | my_statistics.py:49-60 | The distinct values of an encoded column, in order, are 1, 2, …, K. |
| Encoder.DecodeOfEncode | my_statistics.py:57-62 | Swapping an encoded column back returns the codes unchanged, not the labels. |
| Encoder.DecodeOfCodes | my_statistics.py:61-62 | A column whose distinct cells are the codes 1..k, in this order, decodes to itself. |
| Encoder.SwapWithDictionaryFlag | my_statistics.py:66-69 | Passing the label-to-code dictionary as the flag always selects the encoding. |
| StrengthTiers.Classify | my_statistics.py:24-33 | The tier is "Very Strong" iff abs(r) is at least 0.89 and "Strong" iff abs(r) is in [0.68, 0.89). It is "Moderate" iff abs(r) is in [0.38, 0.68), "Weak" iff abs(r) is in [0.1, 0.38) and "None" iff abs(r) is below 0.1. |
| StrengthTiers.ClassifyBySize | my_statistics.py:24-33 | The tier depends only on abs(r): r, -r and abs(r) get the same tier. |
| StrengthTiers.ClassifyMonotone | my_statistics.py:24-33 | A larger magnitude never gets a weaker tier. |
| StrengthTiers.ClassifyExamples | my_statistics.py:24-33 | 0.9, 0.7, 0.4, 0.15, 0.05, -0.95 and 1.0 get "Very Strong", "Strong", "Moderate", "Weak", "None", "Very Strong" and "Very Strong". |
| StrengthTiers.Text | my_statistics.py:25-33 | Every tier has a non-empty text, and the text is "None" exactly for the weakest tier. |
| StrengthTiers.TextInjective | my_statistics.py:25-33 | Two tiers have the same text exactly when they are the same tier, so the Strength column determines the tier. |
| ColumnScan.Selected | my_statistics.py:15-17 | The scan keeps no more columns than the frame has, and every kept column has the wanted kind and is not the target. |
| ColumnScan.SelectedPositions | my_statistics.py:81-83 | Every kept column sits at its position in the frame, and positions increase (scan order). Every qualifying column is kept. |
| ColumnScan.SelectedPrefix | my_statistics.py:15-17 | Scanning a prefix of the columns gives a prefix of the selection. |
| Spearman.Insert | my_statistics.py:41 | Inserting a row into a table sorted by decreasing abs(R) keeps it sorted and adds exactly that row. |
| Spearman.SortByAbs | my_statistics.py:41 | The reordered table is sorted by decreasing abs(R) and is a permutation of the rows. |
| Spearman.SortedPairwise | my_statistics.py:41 | In the sorted table every earlier row has an abs(R) at least that of every later row. |
| Spearman.RowFor | my_statistics.py:18-33 | The row for a column carries that column's label, the coefficient and p-value of its test against the target, and the tier of that same coefficient. |
| Spearman.SpearmanRows | my_statistics.py:15-33 | The unsorted table has one row per selected column. Its contract promises only the length; `Spearman.SpearmanRowsAre` gives the contents. |
| Spearman.SpearmanRowsAre | my_statistics.py:15-39 | The definitions of the unsorted table unfolded: row k of the unsorted table belongs to the k-th scanned column. It holds that column's label, the coefficient and p-value of its test against the target, and the tier of the coefficient. |
| Spearman.SpearmanRowsFeatures | my_statistics.py:15-21 | The rows come one per numeric column other than the target, in column order, each naming its column. No such column is left out. |
| Spearman.Table | my_statistics.py:36-39 | The table built from the four aligned lists has one row per entry. Its contract promises only this length. |
| Spearman.SpearmanAssess | my_statistics.py:7-41 | Fails, with the missing target, exactly when some column is tested and the target is absent. Otherwise the result has one row per scanned column, is a permutation of the unsorted table and is sorted by decreasing abs(R). |
| Spearman.SpearmanExample | my_statistics.py:7-41 | For numeric X and Y (target) and a label column Z, the report has the single row X. With a coefficient of 1 it is "Very Strong". |
| Kruskal.KruskalOne | my_statistics.py:66-70 | For a frame with distinct labels: fails with the missing column if the column is absent, and with the missing target if only the target is absent. Otherwise it tests the target's cells against the column's codes. When the target is the coded column itself, its codes are tested against themselves. |
| Kruskal.RowFor | my_statistics.py:84-88 | The row for a column carries that column's label and the H and p-value of the target tested against the column's codes, not its labels. |
| Kruskal.KruskalRows | my_statistics.py:81-88 | The report has one row per selected column, in scan order. Row k carries the k-th column's label and the H and p-value of the target tested against that column's codes. |
| Kruskal.Table | my_statistics.py:89-92 | The table built from the three aligned lists has one row per entry. Its contract promises only this length. |
| Kruskal.KruskalAll | my_statistics.py:74-94 | Fails, with the missing target, exactly when some column is tested and the target is absent. Otherwise row k tests the target against the codes of the k-th non-numeric non-target column, in column order. |
| Kruskal.KruskalRowsFeatures | my_statistics.py:81-94 | The rows come one per non-numeric column other than the target, in column order, each naming its column. No such column is left out. |
| Kruskal.KruskalExample | my_statistics.py:74-94 | For numeric X and Y (target) and a label column Z = a, b, a, b, a, the report has the single row Z. That row tests Y's cells against the codes 1, 2, 1, 2, 1. |
| Kruskal.AlternatingCodes | my_statistics.py:45-60 | Any two distinct cells alternating as a, b, a, b, a are encoded as 1, 2, 1, 2, 1. |

## Left out

- The statistics library: `stats.spearmanr` and `stats.kruskal` are parameters, so their own errors, warnings and NaN results are not modelled. Neither is the `nan_policy="omit"` handling of missing cells.
- Missing values (NaN): cells are numbers or labels only. The NaN guard of `write_names` filters no number, label or NaN in the source, and the model has no filter. A `pd.NA` cell (nullable string or boolean columns) makes the `if` at line 50 raise TypeError; this is not modelled.
- Floating point: coefficients and cells are mathematical reals. The thresholds 0.89, 0.68, 0.38 and 0.1 are exact decimals.
- Python's own key equality beyond numbers: `True == 1` and mixed-type columns are not modelled. Every number is one `Num` cell, so `1` and `1.0` are the same key.
- Pandas dtype inference: every column carries a fixed kind, numeric (`dtype.kind in 'if'`) or not. After `table[column] = codes` the copy's column keeps its kind, since nothing reads it again.
- Repeated column labels: `Spearman.SpearmanAssess`, `Kruskal.KruskalOne` and `Kruskal.KruskalAll` require distinct labels. With a repeated label, pandas returns a frame where the source expects a column. In `kruskal_one` the call `write_names` (line 67) then fails at `.unique()` (line 49), which a frame does not have. For `Kruskal.KruskalOne` the requirement is stronger than the source needs: only a repeated `column` or `target` label makes `kruskal_one` fail, while repeats among other labels are harmless there.
- Frame.SetColumn: assignment is modelled for a label the frame already has. For an absent label pandas appends a new column, while the model returns the frame unchanged (and `Frame.SetColumnFind` says the label stays absent). The one assignment, line 69, is reached only after line 67 has found the column.
- Spearman.SortByAbs: the order of rows with equal abs(R) is not stated, because pandas' default quicksort does not fix it. Only sortedness and permutation are proved.
- `write_names` and `swap` take the column's cells rather than a frame and a label. `kruskal_one` does the lookup itself, and its missing-column error is modelled there.
- The copy `data_frame.copy()` and the index handling of `reindex`/`reset_index(drop=True)`: frames are values, so the caller's frame is never changed. A row of the report is its position in the result sequence.
- The summary tables are sequences of row records, not pandas frames with the column titles "Feature", "Spearman_R", "P_Value", "Strength" and "Kruskal-Wallis_H".
- The `scikit_posthocs` import (line 4) is unused by the core and is not modelled.
