/**
 * make_lag_features: the per-(month, grid_id) count table is sorted by
 * (grid_id, month), count is copied to count_t, and for every requested lag
 * k the column count_t-k receives the grid's count k rows earlier
 * (groupby(grid_id).shift(k)); rows lacking count_t-1 or count_t-2 are then
 * dropped.
 */
module Features {
  import opened Common
  import opened Decimal
  import opened GroupShift
  import Grid

  type AggRecord = Grid.AggRecord

  /** A row of the feature table; lagged maps each requested lag k to the
      value of column count_t-k (None for NaN). */
  datatype FeatureRow = FeatureRow(month: int, gridId: string, count: int, countT: int, lagged: map<int, Option<int>>)

  /** The header name f"count_t-{k}". */
  function LagColumn(k: int): string {
    "count_t-" + IntToString(k)
  }

  /** Distinct lags get distinct column names. */
  lemma LagColumnInjective(a: int, b: int)
    requires LagColumn(a) == LagColumn(b)
    ensures a == b
  {
    assert LagColumn(a)[8..] == IntToString(a);
    assert LagColumn(b)[8..] == IntToString(b);
    IntToStringInjective(a, b);
  }

  function LagNames(lags: seq<int>): set<string> {
    set k | k in lags :: LagColumn(k)
  }

  /** The subset passed to dropna. */
  const DropSubset: seq<string> := ["count_t", "count_t-1", "count_t-2"]

  /** sort_values(["grid_id", "month"]): grid_id as a string, then month. */
  predicate FeatureLe(a: AggRecord, b: AggRecord) {
    KeyLe(a.gridId, a.month, b.gridId, b.month)
  }

  /** The order of sort_values(["grid_id", "month"]) on a row's (grid id,
      month) key. */
  predicate KeyLe(g: string, m: int, h: string, n: int) {
    StrLess(g, h) || (g == h && m <= n)
  }

  lemma FeatureLeTotalPreorder()
    ensures TotalPreorder(FeatureLe)
  {
    forall a, b ensures FeatureLe(a, b) || FeatureLe(b, a) {
      StrLessTotal(a.gridId, b.gridId);
    }
    forall a, b, c | FeatureLe(a, b) && FeatureLe(b, c) ensures FeatureLe(a, c) {
      if a.gridId != b.gridId && b.gridId != c.gridId {
        StrLessTransitive(a.gridId, b.gridId, c.gridId);
      }
    }
  }

  /** The input rows in (grid_id, month) order. */
  function Sorted(df: Frame<AggRecord>): (r: seq<AggRecord>)
    ensures multiset(r) == multiset(df.rows)
  {
    SortBy(df.rows, FeatureLe)
  }

  /** The (grid_id, count) column pair that the groupby shift reads. */
  function Keyed(rows: seq<AggRecord>): (r: seq<(string, int)>)
    ensures |r| == |rows|
    ensures forall i :: 0 <= i < |rows| ==> r[i] == (rows[i].gridId, rows[i].count)
  {
    seq(|rows|, i requires 0 <= i < |rows| => (rows[i].gridId, rows[i].count))
  }

  /** Row i of the sorted table once the columns for lags have been written. */
  function WithLags(sorted: seq<AggRecord>, lags: seq<int>, i: nat): FeatureRow
    requires i < |sorted|
  {
    var x := sorted[i];
    FeatureRow(x.month, x.gridId, x.count, x.count, map k | k in lags :: ShiftAt(Keyed(sorted), i, k))
  }

  /** The whole table before the drop. */
  function LagTable(sorted: seq<AggRecord>, lags: seq<int>): (r: seq<FeatureRow>)
    ensures |r| == |sorted|
  {
    seq(|sorted|, i requires 0 <= i < |sorted| => WithLags(sorted, lags, i))
  }

  /** Writing column count_t-lag into row i adds lag to its lag map. */
  lemma WithLagsStep(sorted: seq<AggRecord>, lags: seq<int>, i: nat, lag: int)
    requires i < |sorted|
    ensures var r := WithLags(sorted, lags, i);
      WithLags(sorted, lags + [lag], i) == r.(lagged := r.lagged[lag := ShiftAt(Keyed(sorted), i, lag)])
  {
    var r := WithLags(sorted, lags, i);
    var m := r.lagged[lag := ShiftAt(Keyed(sorted), i, lag)];
    assert WithLags(sorted, lags + [lag], i).lagged == m;
  }

  /** One pass of the loop in MakeLagFeatures: writing column count_t-lag
      into a table holding the columns of done gives the table holding
      those of done + [lag]. */
  lemma LagPass(sorted: seq<AggRecord>, done: seq<int>, lag: int, rows: seq<FeatureRow>)
    requires |rows| == |sorted|
    requires forall i :: 0 <= i < |rows| ==> rows[i] == WithLags(sorted, done, i)
    ensures var column := Shift(Keyed(sorted), lag);
      forall i :: 0 <= i < |rows| ==>
        rows[i].(lagged := rows[i].lagged[lag := column[i]]) == WithLags(sorted, done + [lag], i)
  {
    forall i | 0 <= i < |rows| {
      WithLagsStep(sorted, done, i, lag);
    }
  }

  lemma LagNamesAppend(done: seq<int>, lag: int)
    ensures LagNames(done + [lag]) == LagNames(done) + {LagColumn(lag)}
  {
  }

  /** dropna(subset=[count_t, count_t-1, count_t-2]) keeps the row. */
  predicate Survives(r: FeatureRow) {
    1 in r.lagged && 2 in r.lagged && r.lagged[1].Some? && r.lagged[2].Some?
  }

  /** make_lag_features(df, lags), as a value. */
  function LagFeatures(df: Frame<AggRecord>, lags: seq<int>): (r: Result<Frame<FeatureRow>, Error>)
    ensures "grid_id" !in df.columns ==> r == Err(MissingColumn("grid_id"))
    ensures "grid_id" in df.columns && "month" !in df.columns ==> r == Err(MissingColumn("month"))
    ensures "grid_id" in df.columns && "month" in df.columns && "count" !in df.columns ==>
      r == Err(MissingColumn("count"))
    ensures r.Err? && "count" in df.columns && "month" in df.columns && "grid_id" in df.columns ==>
      r.error.MissingColumns? && r.error.names != []
    ensures r.Ok? ==> r.value.columns == df.columns + {"count_t"} + LagNames(lags)
    ensures r.Ok? ==> |r.value.rows| <= |df.rows|
  {
    if "grid_id" !in df.columns then Err(MissingColumn("grid_id"))
    else if "month" !in df.columns then Err(MissingColumn("month"))
    else if "count" !in df.columns then Err(MissingColumn("count"))
    else
      var header := {"count_t"} + LagNames(lags);
      var missing := Filter(DropSubset, c => c !in header);
      if missing != [] then Err(MissingColumns(missing))
      else Ok(Frame(df.columns + header, Filter(LagTable(Sorted(df), lags), Survives)))
  }

  /** The imperative make_lag_features: one pass per lag writes column
      count_t-k into the copied table, then drops incomplete rows. */
  method MakeLagFeatures(df: Frame<AggRecord>, lags: seq<int>) returns (r: Result<Frame<FeatureRow>, Error>)
    ensures r == LagFeatures(df, lags)
  {
    if "grid_id" !in df.columns {
      return Err(MissingColumn("grid_id"));
    }
    if "month" !in df.columns {
      return Err(MissingColumn("month"));
    }
    if "count" !in df.columns {
      return Err(MissingColumn("count"));
    }
    var sorted := SortBy(df.rows, FeatureLe);
    var rows, names := WriteLagColumns(sorted, lags);
    var header := {"count_t"} + names;
    var missing := Filter(DropSubset, c => c !in header);
    if missing != [] {
      return Err(MissingColumns(missing));
    }
    r := Ok(Frame(df.columns + header, Filter(rows, Survives)));
  }

  /** The loop of make_lag_features: starting from count_t, one pass per
      lag writes column count_t-lag (the grid's shift by lag) into every
      row. Also returns the names of the columns it wrote. */
  method WriteLagColumns(sorted: seq<AggRecord>, lags: seq<int>) returns (rows: seq<FeatureRow>, names: set<string>)
    ensures rows == LagTable(sorted, lags)
    ensures names == LagNames(lags)
  {
    var keyed := Keyed(sorted);
    rows := seq(|sorted|, i requires 0 <= i < |sorted| =>
      FeatureRow(sorted[i].month, sorted[i].gridId, sorted[i].count, sorted[i].count, map[]));
    names := {};
    for j := 0 to |lags|
      invariant |rows| == |sorted|
      invariant names == LagNames(lags[..j])
      invariant forall i :: 0 <= i < |rows| ==> rows[i] == WithLags(sorted, lags[..j], i)
    {
      var lag := lags[j];
      var column := Shift(keyed, lag);
      LagPass(sorted, lags[..j], lag, rows);
      LagNamesAppend(lags[..j], lag);
      rows := seq(|rows|, i requires 0 <= i < |rows| => rows[i].(lagged := rows[i].lagged[lag := column[i]]));
      names := names + {LagColumn(lag)};
      assert lags[..j + 1] == lags[..j] + [lag];
    }
    assert lags[..|lags|] == lags;
  }

  // ---------------------------------------------------------------------
  // The drop fails unless lags include 1 and 2

  lemma LagColumnOne()
    ensures LagColumn(1) == "count_t-1" && LagColumn(2) == "count_t-2"
  {
  }

  /** With the input columns present, make_lag_features raises exactly when
      1 or 2 is missing from lags, naming the missing lag columns in order. */
  lemma LagsMustIncludeOneAndTwo(df: Frame<AggRecord>, lags: seq<int>)
    requires "grid_id" in df.columns && "month" in df.columns && "count" in df.columns
    ensures LagFeatures(df, lags).Err? <==> 1 !in lags || 2 !in lags
    ensures LagFeatures(df, lags).Err? ==>
      LagFeatures(df, lags).error ==
        MissingColumns((if 1 in lags then [] else ["count_t-1"]) + (if 2 in lags then [] else ["count_t-2"]))
  {
    var header := {"count_t"} + LagNames(lags);
    LagColumnOne();
    assert "count_t-1" in header <==> 1 in lags by {
      if "count_t-1" in header {
        var k :| k in lags && LagColumn(k) == "count_t-1";
        LagColumnInjective(k, 1);
      }
    }
    assert "count_t-2" in header <==> 2 in lags by {
      if "count_t-2" in header {
        var k :| k in lags && LagColumn(k) == "count_t-2";
        LagColumnInjective(k, 2);
      }
    }
    var p := c => c !in header;
    assert Filter(DropSubset, p) ==
      (if p("count_t") then ["count_t"] else []) + Filter(DropSubset[1..], p);
    assert Filter(DropSubset[1..], p) ==
      (if p("count_t-1") then ["count_t-1"] else []) + Filter(DropSubset[2..], p);
    assert Filter(DropSubset[2..], p) ==
      (if p("count_t-2") then ["count_t-2"] else []) + Filter(DropSubset[3..], p);
  }

  // ---------------------------------------------------------------------
  // Order of the output

  /** The output is sorted by (grid_id, month), grid_id compared as a string. */
  lemma FeaturesOrder(df: Frame<AggRecord>, lags: seq<int>)
    requires LagFeatures(df, lags).Ok?
    ensures var t := LagFeatures(df, lags).value.rows;
      forall a, b :: 0 <= a < b < |t| ==>
        StrLess(t[a].gridId, t[b].gridId) || (t[a].gridId == t[b].gridId && t[a].month <= t[b].month)
  {
    var sorted := Sorted(df);
    var lt := LagTable(sorted, lags);
    FeatureLeTotalPreorder();
    SortBySorted(df.rows, FeatureLe);
    LagTableSorted(sorted, lags);
    FilterSorted(lt, RowLe, Survives);
    assert LagFeatures(df, lags).value.rows == Filter(lt, Survives);
  }

  /** The lag table keeps the (grid_id, month) order of the sorted rows. */
  lemma LagTableSorted(sorted: seq<AggRecord>, lags: seq<int>)
    requires SortedBy(sorted, FeatureLe)
    ensures SortedBy(LagTable(sorted, lags), RowLe)
  {
    var lt := LagTable(sorted, lags);
    forall a, b | 0 <= a < b < |lt| ensures RowLe(lt[a], lt[b]) {
      assert FeatureLe(sorted[a], sorted[b]);
      assert lt[a].gridId == sorted[a].gridId && lt[a].month == sorted[a].month;
      assert lt[b].gridId == sorted[b].gridId && lt[b].month == sorted[b].month;
    }
  }

  /** The same order on output rows. */
  predicate RowLe(a: FeatureRow, b: FeatureRow) {
    KeyLe(a.gridId, a.month, b.gridId, b.month)
  }

  // ---------------------------------------------------------------------
  // A grid's history and its rows in the output

  function AggInGrid(g: string): AggRecord -> bool {
    (r: AggRecord) => r.gridId == g
  }

  function InGrid(g: string): FeatureRow -> bool {
    (r: FeatureRow) => r.gridId == g
  }

  function SurvivesIn(g: string): FeatureRow -> bool {
    r => Survives(r) && r.gridId == g
  }

  /** The input rows of grid g in month order. */
  function History(df: Frame<AggRecord>, g: string): seq<AggRecord> {
    Filter(Sorted(df), AggInGrid(g))
  }

  /** History is exactly grid g's input rows, rearranged into month order. */
  lemma HistoryOfGrid(df: Frame<AggRecord>, g: string)
    ensures multiset(History(df, g)) == multiset(Filter(df.rows, AggInGrid(g)))
    ensures forall x :: x in History(df, g) ==> x.gridId == g
    ensures var h := History(df, g);
      forall a, b :: 0 <= a < b < |h| ==> h[a].month <= h[b].month
  {
    FilterSortBy(df.rows, FeatureLe, AggInGrid(g));
    FeatureLeTotalPreorder();
    SortBySorted(df.rows, FeatureLe);
    FilterSorted(Sorted(df), FeatureLe, AggInGrid(g));
    var h := History(df, g);
    StrLessIrreflexive(g);
    forall a, b | 0 <= a < b < |h| ensures h[a].month <= h[b].month {
      assert h[a] in h && h[b] in h;
      assert FeatureLe(h[a], h[b]);
    }
  }

  /** Row i of the sorted table is in grid g exactly when it is listed in
      the positions of g. */
  lemma PositionsOfGrid(sorted: seq<AggRecord>, g: string, i: nat)
    requires i < |sorted|
    ensures sorted[i].gridId == g <==> i in Positions(Keyed(sorted), g)
  {
    var keyed := Keyed(sorted);
    if sorted[i].gridId == g {
      PositionOfRank(keyed, i);
    }
  }

  /** The history of g is the sorted table read at g's positions. */
  lemma HistoryAtPositions(df: Frame<AggRecord>, g: string)
    ensures var p := Positions(Keyed(Sorted(df)), g);
      History(df, g) == seq(|p|, n requires 0 <= n < |p| => Sorted(df)[p[n]])
  {
    var sorted := Sorted(df);
    var p := Positions(Keyed(sorted), g);
    forall i | 0 <= i < |sorted| ensures AggInGrid(g)(sorted[i]) <==> i in p {
      PositionsOfGrid(sorted, g, i);
    }
    FilterAtPositions(sorted, AggInGrid(g), p);
  }

  /** A row of the lag table survives the drop exactly when at least two
      earlier rows of its grid exist. */
  lemma SurvivesIffRank(sorted: seq<AggRecord>, lags: seq<int>, i: nat)
    requires 1 in lags && 2 in lags && i < |sorted|
    ensures Survives(LagTable(sorted, lags)[i]) <==> Rank(Keyed(sorted), i) >= 2
  {
    var keyed := Keyed(sorted);
    PositionOfRank(keyed, i);
    ShiftAtDefined(keyed, i, 1);
    ShiftAtDefined(keyed, i, 2);
  }

  /** The positions of g from the third on. */
  function LaterPositions(sorted: seq<AggRecord>, g: string): (q: seq<nat>)
    ensures |q| == Max(0, |Positions(Keyed(sorted), g)| - 2)
  {
    var p := Positions(Keyed(sorted), g);
    if |p| >= 2 then p[2..] else []
  }

  lemma SurvivorIndex(sorted: seq<AggRecord>, lags: seq<int>, g: string, i: nat)
    requires 1 in lags && 2 in lags && i < |sorted|
    ensures SurvivesIn(g)(LagTable(sorted, lags)[i]) <==> i in LaterPositions(sorted, g)
  {
    var keyed := Keyed(sorted);
    var q := LaterPositions(sorted, g);
    SurvivesIffRank(sorted, lags, i);
    PositionsOfGrid(sorted, g, i);
    if SurvivesIn(g)(LagTable(sorted, lags)[i]) {
      PositionOfRank(keyed, i);
      assert q[Rank(keyed, i) - 2] == i;
    }
    if i in q {
      var m :| 0 <= m < |q| && q[m] == i;
      RankOfPosition(keyed, g, m + 2);
    }
  }

  lemma SurvivorsOfGrid(sorted: seq<AggRecord>, lags: seq<int>, g: string)
    requires 1 in lags && 2 in lags
    ensures var q := LaterPositions(sorted, g);
      Filter(Filter(LagTable(sorted, lags), Survives), InGrid(g)) ==
        seq(|q|, n requires 0 <= n < |q| => LagTable(sorted, lags)[q[n]])
  {
    var lt := LagTable(sorted, lags);
    var q := LaterPositions(sorted, g);
    FilterFilter(lt, Survives, InGrid(g), SurvivesIn(g));
    forall i | 0 <= i < |lt| ensures SurvivesIn(g)(lt[i]) <==> i in q {
      SurvivorIndex(sorted, lags, g, i);
    }
    FilterAtPositions(lt, SurvivesIn(g), q);
  }

  /** The surviving rows of grid g are the lag-table rows at g's positions
      from the third on. */
  lemma SurvivorsAtPositions(df: Frame<AggRecord>, lags: seq<int>, g: string)
    requires LagFeatures(df, lags).Ok?
    ensures var q := LaterPositions(Sorted(df), g);
      Filter(LagFeatures(df, lags).value.rows, InGrid(g)) ==
        seq(|q|, n requires 0 <= n < |q| => LagTable(Sorted(df), lags)[q[n]])
  {
    LagsMustIncludeOneAndTwo(df, lags);
    assert LagFeatures(df, lags).value.rows == Filter(LagTable(Sorted(df), lags), Survives);
    SurvivorsOfGrid(Sorted(df), lags, g);
  }

  /** The value of lag k at the grid's n-th row of the lag table. */
  lemma LagAtPosition(sorted: seq<AggRecord>, lags: seq<int>, g: string, n: nat, k: int)
    requires n < |Positions(Keyed(sorted), g)| && k in lags
    ensures var p := Positions(Keyed(sorted), g);
      LagTable(sorted, lags)[p[n]].lagged[k] ==
        (if 0 <= n - k < |p| then Some(sorted[p[n - k]].count) else None)
  {
    var keyed := Keyed(sorted);
    RankOfPosition(keyed, g, n);
  }

  /** Row r stands for the m-th row of history h: same grid, month and
      count, count_t equal to count, one entry per requested lag, and
      count_t-k holding the count k history rows back, missing when the
      history does not reach that far. */
  ghost predicate Aligned(r: FeatureRow, h: seq<AggRecord>, m: nat, lags: seq<int>) {
    && m < |h|
    && r.gridId == h[m].gridId && r.month == h[m].month
    && r.count == h[m].count && r.countT == h[m].count
    && r.lagged.Keys == (set k | k in lags)
    && forall k :: k in lags ==>
         r.lagged[k] == (if 0 <= m - k < |h| then Some(h[m - k].count) else None)
  }

  lemma AlignedAtPosition(sorted: seq<AggRecord>, lags: seq<int>, g: string, n: nat, h: seq<AggRecord>)
    requires n < |Positions(Keyed(sorted), g)|
    requires var p := Positions(Keyed(sorted), g);
      h == seq(|p|, m requires 0 <= m < |p| => sorted[p[m]])
    ensures Aligned(LagTable(sorted, lags)[Positions(Keyed(sorted), g)[n]], h, n, lags)
  {
    var p := Positions(Keyed(sorted), g);
    var r := LagTable(sorted, lags)[p[n]];
    assert r == WithLags(sorted, lags, p[n]);
    assert h[n] == sorted[p[n]];
    assert r.lagged.Keys == (set k | k in lags);
    forall k | k in lags
      ensures r.lagged[k] == (if 0 <= n - k < |h| then Some(h[n - k].count) else None)
    {
      LagAtPosition(sorted, lags, g, n, k);
      if 0 <= n - k < |h| {
        assert h[n - k] == sorted[p[n - k]];
      }
    }
  }

  /** A grid's rows in the output are its history (its input rows in month
      order) from the third row on, each Aligned with its history row; so a
      grid with n rows contributes max(0, n - 2) rows, and no lag reads
      another grid's counts. */
  lemma {:induction false} FeaturesPerGrid(df: Frame<AggRecord>, lags: seq<int>, g: string)
    requires LagFeatures(df, lags).Ok?
    ensures var h := History(df, g);
      var o := Filter(LagFeatures(df, lags).value.rows, InGrid(g));
      && |o| == Max(0, |h| - 2)
      && forall n :: 0 <= n < |o| ==> Aligned(o[n], h, n + 2, lags)
  {
    var sorted := Sorted(df);
    var p := Positions(Keyed(sorted), g);
    var q := LaterPositions(sorted, g);
    var h := History(df, g);
    var o := Filter(LagFeatures(df, lags).value.rows, InGrid(g));
    HistoryAtPositions(df, g);
    SurvivorsAtPositions(df, lags, g);
    assert |h| == |p|;
    forall n | 0 <= n < |o| ensures Aligned(o[n], h, n + 2, lags) {
      assert o[n] == LagTable(sorted, lags)[q[n]];
      assert q[n] == p[n + 2];
      AlignedAtPosition(sorted, lags, g, n + 2, h);
    }
  }

  /** Extra lags are not part of the drop: with lag 3 requested, the first
      surviving row of a grid still has count_t-3 missing. */
  lemma ExtraLagMayBeMissing(df: Frame<AggRecord>, lags: seq<int>, g: string)
    requires LagFeatures(df, lags).Ok? && 3 in lags && |History(df, g)| >= 3
    ensures var o := Filter(LagFeatures(df, lags).value.rows, InGrid(g));
      |o| >= 1 && 3 in o[0].lagged && o[0].lagged[3] == None
  {
    FeaturesPerGrid(df, lags, g);
  }

  /** Before the drop, the grid's n-th row has count_t-k exactly when
      k <= n < (rows in the grid) + k: the first k rows of every grid lack it. */
  lemma LagDefinedIff(sorted: seq<AggRecord>, lags: seq<int>, g: string, n: nat, k: int)
    requires n < |Positions(Keyed(sorted), g)| && k in lags
    ensures var p := Positions(Keyed(sorted), g);
      LagTable(sorted, lags)[p[n]].lagged[k].Some? <==> k <= n < |p| + k
  {
    LagAtPosition(sorted, lags, g, n, k);
  }

  /** Grid g observed in months 3, 4, 5 and 7 with counts 10, 20, 30, 40. */
  function ExampleHistory(g: string): seq<AggRecord> {
    [Grid.AggRecord(3, g, 10), Grid.AggRecord(4, g, 20), Grid.AggRecord(5, g, 30), Grid.AggRecord(7, g, 40)]
  }

  /** For a grid observed in months 3, 4, 5 and 7 with counts 10, 20, 30
      and 40, two rows survive, and the month-7 row's count_t-1 is the
      month-5 count: lags count observed rows, not calendar months. */
  lemma ObservedMonthsExample(df: Frame<AggRecord>, lags: seq<int>, g: string)
    requires LagFeatures(df, lags).Ok? && History(df, g) == ExampleHistory(g)
    ensures var o := Filter(LagFeatures(df, lags).value.rows, InGrid(g));
      && |o| == 2 && o[1].month == 7
      && 1 in o[1].lagged && o[1].lagged[1] == Some(30)
      && 2 in o[1].lagged && o[1].lagged[2] == Some(20)
  {
    FeaturesPerGrid(df, lags, g);
    LagsMustIncludeOneAndTwo(df, lags);
    var o := Filter(LagFeatures(df, lags).value.rows, InGrid(g));
    assert Aligned(o[1], ExampleHistory(g), 3, lags);
  }

  lemma ExampleSorted(g: string)
    ensures SortBy(ExampleHistory(g), FeatureLe) == ExampleHistory(g)
  {
    StrLessIrreflexive(g);
    SortBySortedInput(ExampleHistory(g), FeatureLe);
  }

  lemma ExampleFiltered(g: string, rows: seq<AggRecord>)
    requires rows == ExampleHistory(g)
    ensures Filter(rows, AggInGrid(g)) == rows
  {
    assert forall i :: 0 <= i < |rows| ==> rows[i].gridId == g;
    FilterAll(rows, AggInGrid(g));
  }

  /** The example's requirement is met by the table holding just those rows. */
  lemma ExampleInput(g: string)
    ensures var df := Frame({"month", "grid_id", "count"}, ExampleHistory(g));
      LagFeatures(df, [1, 2]).Ok? && History(df, g) == ExampleHistory(g)
  {
    var rows := ExampleHistory(g);
    var df := Frame({"month", "grid_id", "count"}, rows);
    LagsMustIncludeOneAndTwo(df, [1, 2]);
    ExampleSorted(g);
    ExampleFiltered(g, Sorted(df));
  }
}
