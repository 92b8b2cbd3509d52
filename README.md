# E-scooter parking prohibition zone prediction: the table core in Dafny

This project models the data-transforming core of the pipeline:

- **Grid binning** (`src/grid.py`). Geocoded e-scooter points are projected to metres. Each point is placed in a 200 m grid cell, and its cell key is written as `"<grid_x>_<grid_y>"`. The points are then counted per (month, cell), and a table of the cells and their centres is built.
- **Lag features** (`src/make_features.py`). The count table is turned into lag features. Column `count_t-k` holds the count of the grid's k-th earlier row.
- **Training** (`src/train_rf.py`). The training set is selected and checked: its rows belong to the training months, and each row's target is the next row of the same grid.
- **Prediction** (`src/predict_rf.py`). The model bundle is loaded, the prediction month is selected, the feature columns are checked, and each prediction is paired with its row's grid id.
- **Address normalisation** (`src/preprocess.py`).

Tables are modelled as a set of column names together with a sequence of typed rows (`Common.Frame`). Because the header is kept as a set, the `KeyError` checks of the source can be stated.

Three pieces of the source become function parameters, because only their interface matters here:

- the coordinate projection (pyproj);
- the estimator's `fit`;
- the estimator's `predict`.

Each `KeyError` and `ValueError` that the modelled pandas code raises is an `Err` of `Common.Error`. Most errors name what is missing: a column, a key or a month. There are two exceptions:

- `LatLonRequired` names no column;
- `LengthMismatch` gives the two lengths that differ.

Errors raised inside the estimator are not modelled. For example, fitting on an empty X raises in scikit-learn, but here it is whatever the `fit` parameter returns (see "## Left out").

Modules:

| module | what it holds |
|---|---|
| `Common` | Option and Result; the Error datatype; Frame; filtering; a stable insertion sort with its sortedness and permutation lemmas; Python's string order; `sorted(set(a) - set(b))` |
| `Decimal` | `str(int)` and reading it back |
| `GroupShift` | pandas `groupby(key).shift(lag)` |
| `Grid` | `src/grid.py` |
| `Features` | `src/make_features.py`. The functional `LagFeatures` is the specification; the method `MakeLagFeatures` is proved equal to it, and runs the `for lag in lags` loop in the method `WriteLagColumns`, proved equal to `LagTable`. |
| `Records`, `Bundle`, `Predict`, `Train` | the feature file as read back from CSV, the saved model bundle, `src/predict_rf.py` and `src/train_rf.py` |
| `Address` | `src/preprocess.py` |

## Behaviour worth knowing

- **Lags 1 and 2 are required.** `make_lag_features` drops rows that miss `count_t-1` or `count_t-2`. With `lags = [1]` the `dropna` call raises `KeyError`, because column `count_t-2` does not exist (`Features.LagsMustIncludeOneAndTwo`).
- **An empty feature table is returned as is.** When no row survives the lag filter, an empty table comes back. Nothing is raised.
- **Lags count rows, not months.** A lag counts earlier rows of the same grid, whatever their months are. A grid that skips a month gets the month before the gap as `count_t-1` (`Features.ObservedMonthsExample`).
- **Ties in the count table are ordered by grid id.** Rows with the same month and count come out in grid id order. `groupby` emits its keys sorted, and the sort keeps that order.
- **The projector is total.** Rows with a missing latitude or longitude are dropped before the projection is called.

## Model

| member | source | states |
|---|---|---|
| Grid.CellIndexIsCell | src/grid.py:41-42 | about `Grid.CellIndex`, the model of `np.floor(x_m / CELL_SIZE_M)` (src/grid.py:41-42): floor(m / 200) is the one cell index g with 200 g <= m < 200 (g + 1), both directions |
| Grid.CellIndexBoundaries | src/grid.py:41-42 | 200.0 falls in cell 1, 199.9999 in cell 0, and -0.1 in cell -1 (floor, not truncation) |
| Grid.CellIdRoundTrip | src/grid.py:43 | about `Grid.CellId`, the model of the key built at src/grid.py:43: splitting the key grid_x + "_" + grid_y at its "_" gives back both indices, negative ones included |
| Grid.CellIdInjective | src/grid.py:43 | two cells with the same key are the same cell |
| Grid.AddGridColumns | src/grid.py:22-45 | KeyError exactly when the lat or lon column is absent. Otherwise the grid columns are added to the header, the rows are exactly the input rows with both coordinates (in order, other fields unchanged), and each row's x_m and y_m are the projection of (lon, lat), each lying in its grid_x and grid_y cell, with grid_id the key of that cell |
| Grid.BuildPredata | src/grid.py:49-66 | KeyError exactly when month_col or grid_id_col is absent, naming the first absent one; otherwise the header month, grid id, count |
| Grid.TallyMembers | src/grid.py:58-62 | about `Grid.Tally`, the model of `groupby([month_col, grid_id_col]).size()` (src/grid.py:58-62): groupby().size() yields one record, without repeats, for each pair that occurs, and its count is the pair's number of occurrences |
| Grid.PredataCounts | src/grid.py:58-64 | each count equals the number of input rows with that (month, grid_id), so no record has count 0 |
| Grid.PredataOnePerPair | src/grid.py:58-64 | every input (month, grid_id) appears in the output, every output pair comes from the input, and no pair appears twice |
| Grid.PredataOrder | src/grid.py:60-63 | rows are in month ascending order, within a month in count descending order, and rows with equal month and count in grid id order (groupby emits its keys sorted and the sort keeps their order) |
| Grid.PredataLeTotalPreorder | src/grid.py:63 | the sort order (month ascending, count descending, then grid id) is total and transitive |
| Grid.PredataConservesPoints | src/grid.py:58-64 | the counts add up to the number of input rows |
| Grid.CenterInCell | src/grid.py:86-87 | (g + 0.5) * 200 lies strictly inside cell g, and binning it again gives g |
| Grid.BuildGridMeta | src/grid.py:70-91 | KeyError exactly when grid_x, grid_y or grid_id_col is absent, naming the first absent one; otherwise the five output columns |
| Grid.GridMetaOnePerCell | src/grid.py:79-80 | a row for every distinct (grid_id, grid_x, grid_y) of the input, and no two rows share one |
| Grid.GridMetaOrder | src/grid.py:82-87 | rows are sorted by (grid_x, grid_y), and each row carries its cell's centre |
| Grid.GridMetaStrict | src/grid.py:79-83 | on add_grid_columns output, where the key is a function of the indices, the order is strictly increasing, so each cell appears once |
| Decimal.ParseIntToString | src/grid.py:43 | reading back the decimal text of an int64 key part gives the integer, negative values included |
| Decimal.IntToStringInjective | src/grid.py:43 | different integers have different decimal texts |
| GroupShift.Positions | src/make_features.py:8 | each position is a row of the group, positions are increasing, and there are as many as the group has rows |
| GroupShift.ShiftAtRow | src/make_features.py:8 | about `GroupShift.ShiftAt`, the model of `groupby(key)[col].shift(lag)` (src/make_features.py:8, src/train_rf.py:30): shift(lag) gives row i the value of the same-group row whose rank is lag less than row i's, and is missing exactly when no such row exists |
| GroupShift.ShiftAtSource | src/train_rf.py:30 | a shifted value comes from a row of the same group: an earlier row for a positive lag, a later one for a negative lag |
| GroupShift.ShiftAtDefined | src/make_features.py:8 | a row has a value exactly when lag <= rank < group size + lag |
| GroupShift.RankOrder | src/make_features.py:8 | within a group, row order and rank order agree |
| GroupShift.DefinedCount | src/make_features.py:8 | a group of n rows has max(0, n - abs(lag)) rows with a shifted value |
| Features.LagColumnInjective | src/make_features.py:8 | different lags write different columns |
| Features.FeatureLeTotalPreorder | src/make_features.py:4 | sorting by (grid_id as a string, month) is a total preorder |
| Features.Sorted | src/make_features.py:4 | the sorted rows are a permutation of the input rows |
| Features.LagFeatures | src/make_features.py:3-13 | KeyError naming grid_id, month or count, the first of them that is absent; with those present, every failure is a KeyError naming missing columns; on success the header gains count_t and one column per lag, and there are at most as many rows as the input |
| Features.MakeLagFeatures | src/make_features.py:3-13 | the imperative make_lag_features (checks, sort, the lag loop, the drop) returns exactly LagFeatures |
| Features.WriteLagColumns | src/make_features.py:5-8 | the per-lag for loop returns exactly LagTable of the sorted rows, its loop invariant being that after j passes every row holds count_t and the columns of the first j lags, and the names it writes are exactly count_t-k for k in lags |
| Features.LagsMustIncludeOneAndTwo | src/make_features.py:7-11 | with the input columns present, the call fails exactly when 1 or 2 is missing from lags, and any missing count_t-1 or count_t-2 is named |
| Features.FeaturesOrder | src/make_features.py:4 | output rows are in (grid_id, month) order |
| Features.HistoryOfGrid | src/make_features.py:4 | a grid's sorted rows are a permutation of its input rows, all of that grid, with months non-decreasing |
| Features.SurvivesIffRank | src/make_features.py:8-11 | a row survives dropna exactly when its grid has at least two earlier rows |
| Features.LagAtPosition | src/make_features.py:7-8 | about `Features.LagTable`, the table after the loop of src/make_features.py:7-8: at a grid's n-th row, count_t-k is the count of the grid's (n - k)-th row, or missing when that row does not exist |
| Features.FeaturesPerGrid | src/make_features.py:4-11 | a grid with n rows contributes max(0, n - 2) rows. The m-th of them is the grid's (m + 2)-th row in month order, with count_t its count and each count_t-k the count k rows earlier in the same grid, so no lag reads another grid |
| Features.ExtraLagMayBeMissing | src/make_features.py:7-11 | with lag 3 requested, a surviving row can still have count_t-3 missing, since dropna checks lags 1 and 2 only |
| Features.LagDefinedIff | src/make_features.py:7-8 | before the drop, a grid's n-th row has count_t-k exactly when k <= n < rows + k |
| Features.ObservedMonthsExample | src/make_features.py:4-11 | for a grid observed in months 3, 4, 5 and 7, two rows survive, and month 7's count_t-1 is the month 5 count |
| Features.ExampleInput | src/make_features.py:3-13 | a table holding just the example rows meets the requirement of Features.ObservedMonthsExample |
| Bundle.LoadModel | src/predict_rf.py:34-38 | a dict bundle gives its "model" entry, or KeyError when that entry is absent; a bare estimator is used as is |
| Predict.PredictRf | src/predict_rf.py:9-78 | on success the output has columns grid_id and out_col, and at least one row |
| Predict.FeatureMatrix | src/predict_rf.py:59 | the matrix has one row per selected row |
| Predict.SelectedRows | src/predict_rf.py:43 | a row is selected exactly when its month equals pred_month |
| Predict.EmptySelectionFirst | src/predict_rf.py:43-48 | once the bundle loads, a month with no rows fails with the month error whatever the feature columns |
| Predict.MissingFeaturesReported | src/predict_rf.py:53-57 | absent feature columns fail with exactly the absent names, deduplicated and sorted |
| Predict.PredictOutcome | src/predict_rf.py:34-75 | success holds exactly when the bundle loads, the month and grid_id columns exist, the month has rows, every feature exists, and the estimator returns one value per row; a bundle without "model" fails with its KeyError, an absent month column with KeyError("month"), a wrongly sized prediction with the two lengths, and an absent grid_id with KeyError(["grid_id"]) |
| Predict.PredictionsAligned | src/predict_rf.py:59-75 | the i-th output row is the i-th selected row's grid id with the i-th prediction, computed on that row's feature cells in feature_cols order |
| Common.MissingSorted | src/train_rf.py:21-23 | sorted(set(names) - set(columns)): exactly the missing names, without repeats, in string order |
| Train.Candidates | src/train_rf.py:30-33 | one candidate per training row, with one feature value per feature name |
| Train.Kept | src/train_rf.py:31 | the kept rows have a target and every feature defined |
| Train.Samples | src/train_rf.py:33-34 | X and y have one entry per kept row, and the n-th entry holds the n-th kept row's values |
| Train.TrainRf | src/train_rf.py:9-61 | about `Train.TrainingSet`, the model of src/train_rf.py:21-34: training fails exactly when the training set cannot be built, and with that error (the missing-column KeyError or the empty-month ValueError) |
| Train.TrainColumnsChecked | src/train_rf.py:21-23 | absent required or feature columns fail first, with exactly the absent names, deduplicated and sorted |
| Train.TrainMonthsChecked | src/train_rf.py:25-27 | with every column present, training fails exactly when no row has a training month, and the error names the months |
| Train.TrainRowsSelected | src/train_rf.py:25 | a row is a training row exactly when its month is one of train_months |
| Train.TrainAligned | src/train_rf.py:33-34 | X has one row per kept row and one column per feature; y[n] is the n-th kept row's target |
| Train.TargetIsNextOfGrid | src/train_rf.py:30 | a defined target is count_t of a later row of the same grid, with no row of that grid in between |
| Train.KeptSource | src/train_rf.py:30-31 | the n-th kept row has training row j's features and count_t of j's next same-grid row as its target |
| Train.SampleSource | src/train_rf.py:25-34 | the n-th sample's X row is the feature cells of a training row j, and its y is count_t of j's next row in the same grid |
| Train.KeptIffNotLast | src/train_rf.py:30-31 | with every value defined, a row is kept exactly when it is not its grid's last training row |
| Train.SamplesPerGrid | src/train_rf.py:30-31 | with every value defined, a grid with n training rows gives max(0, n - 1) samples |
| Train.TrainThenLoad | src/train_rf.py:55-61 | loading the saved bundle gives back fit(X, y) |
| Address.StripLeft | src/preprocess.py:9 | lstrip removes exactly the maximal leading run of whitespace |
| Address.StripRight | src/preprocess.py:12 | rstrip removes exactly the maximal trailing run of whitespace |
| Address.CloseParen | src/preprocess.py:10 | the lazy match ends at the first ")" that comes before any newline, and fails when a newline or the end of the text is reached first |
| Address.CleanAddress | src/preprocess.py:6-12 | a missing address becomes "" |
| Address.RemoveParensParenFree | src/preprocess.py:10 | about `Address.RemoveParens`, the model of `re.sub(r"\(.*?\)", "", addr)` (src/preprocess.py:10): without newlines, no "(" is left with a ")" after it; what the removal keeps is stated in Address.RemoveParensPlain and Address.RemoveParensSpan |
| Address.RemoveParensIdentity | src/preprocess.py:10 | a text with no "(" before a ")" is unchanged by the paren removal |
| Address.RemoveParensPlain | src/preprocess.py:10 | text before the first "(" is kept unchanged, and the rest is processed on its own |
| Address.RemoveParensSpan | src/preprocess.py:10 | a span "(" m ")" whose m has no ")" and no newline is deleted, and the text after it is processed on its own, with nothing else removed |
| Address.CollapseSpaceShape | src/preprocess.py:11 | about `Address.CollapseSpace`, the model of `re.sub(r"\s+", " ", addr)` (src/preprocess.py:11): after collapsing, every whitespace is a single " " with no whitespace next to it; that each run becomes exactly one blank is Address.CollapseSpaceRun |
| Address.CollapseSpaceKeepsText | src/preprocess.py:11 | collapsing keeps every non-whitespace character, in order |
| Address.CollapseSpaceIdentity | src/preprocess.py:11 | a text whose whitespace is already single blanks is unchanged |
| Address.CollapseSpaceRun | src/preprocess.py:11 | a maximal run of whitespace of any length becomes exactly one " ", and the text after it is processed on its own |
| Address.CleanAddressShape | src/preprocess.py:9-12 | about `Address.Strip` (StripRight after StripLeft), the model of `str.strip()` (src/preprocess.py:9, 12), and the whole pipeline: a cleaned address has no leading or trailing whitespace, and its only whitespace is single " " characters |
| Address.CleanAddressParenFree | src/preprocess.py:9-12 | without newlines in the input, no "(" of the result has a ")" after it |
| Address.CleanAddressIdempotent | src/preprocess.py:6-12 | without newlines in the input, cleaning a cleaned address changes nothing |
| Address.NewlineInParentheses | src/preprocess.py:10-11 | "(a\nb)" cleans to "(a b)", which cleans to "", so the newline condition is needed for idempotence |

## Left out

- File I/O and output. CSV reading and writing, `joblib.dump` and `joblib.load`, `print` and the `make_predata_and_meta_csv` and `main` drivers are not modelled. A table is a value, and the saved bundle is the `Bundle.Saved` value.
- Coordinate projection. pyproj's EPSG:4326 to EPSG:5179 transform is the `project` parameter. Its numerics and its floating-point (float64) rounding are not modelled; coordinates are reals.
- RandomForestRegressor. The estimator's fitting, its hyper-parameters, its `oob_score_` and the `oob_r2` bundle entry are not modelled. `fit` is a parameter (`Train.Fitter`). Fitting on an empty X (after the drop) raises inside scikit-learn; that error belongs to the fitter.
- The estimator's predict. `predict` is a parameter (`Predict.Predictor`). The check that it returns one value per row (`LengthMismatch`) stands for pandas' error on assigning a wrongly sized column.
- Extra input columns. Input columns other than month, grid id and count are not carried through make_lag_features. The `Features.FeatureRow` record keeps only the columns the function reads or writes, although the header keeps the input's column names. The dropna header check uses only the columns the function writes.
- Features.LagFeatures: does not distinguish overwritten columns. An input that already has a `count_t` or `count_t-k` column is modelled as if the new column overwrote it, since the rows only hold the new values.
- Predict.PredictRf: does not model out_col equal to an input column. When out_col is an existing column such as "grid_id", pandas overwrites it. That case is not distinguished: the output pairs the row's grid id with the prediction.
- Missing months in grid.py. NaN months in `build_predata` are not modelled; the month is an integer there. In the feature file as read back, a NaN month or cell is `None` (`Records.Record`), and a NaN month matches no month.
- Column-name parameters in grid.py. `lat_col`, `lon_col`, `month_col` and `grid_id_col` only select which header entry is checked. The rows always carry fixed fields (`Grid.GridRow`). A non-default name just moves the `KeyError` check to that header entry; the driver at src/grid.py:110-117 uses the defaults.
- Integer width. grid indices are int64 in the source and unbounded here. Indices that overflow int64 cannot come from real coordinates.
- Other value types. `str(addr)` on a non-string, non-missing value such as a number is not modelled; `Address.CleanAddress` takes a string or None.
- Unicode. `\s`, `strip()` and `.` follow Python's definitions for `str` values, by code point, with no normalisation.
