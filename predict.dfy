/**
 * predict_rf: loads the estimator, keeps the rows of the requested month,
 * checks the feature columns, asks the estimator for one prediction per
 * kept row and pairs each prediction with its row's grid id. The estimator
 * itself is a parameter.
 */
module Predict {
  import opened Common
  import opened Records
  import opened Bundle

  /** One row of the prediction file: grid_id and the predicted value. */
  datatype Prediction = Prediction(gridId: string, value: real)

  /** model.predict: one value per row of the matrix it is given. */
  type Predictor<!M> = (M, seq<seq<Option<real>>>) -> seq<real>

  function MonthIs(m: int): Record -> bool {
    (r: Record) => InMonth(r, m)
  }

  /** df[df["month"] == pred_month]. */
  function Selected(df: Frame<Record>, predMonth: int): seq<Record> {
    Filter(df.rows, MonthIs(predMonth))
  }

  /** pred_df[list(feature_cols)]: one row per selected row, one column per
      feature name, in the order given. */
  function FeatureMatrix(rows: seq<Record>, featureCols: seq<string>): (x: seq<seq<Option<real>>>)
    ensures |x| == |rows|
  {
    seq(|rows|, i requires 0 <= i < |rows| => Columns(rows[i], featureCols))
  }

  /** predict_rf, from the loaded bundle to the (grid_id, out_col) table. */
  function PredictRf<M>(df: Frame<Record>, saved: Saved<M>, predMonth: int, featureCols: seq<string>,
                        outCol: string, predict: Predictor<M>): (r: Result<Frame<Prediction>, Error>)
    ensures r.Ok? ==> r.value.columns == {"grid_id", outCol} && |r.value.rows| >= 1
  {
    match LoadModel(saved)
    case Err(e) => Err(e)
    case Ok(model) =>
      if "month" !in df.columns then Err(MissingColumn("month"))
      else
        var sel := Selected(df, predMonth);
        if sel == [] then Err(NoRowsForMonth(predMonth))
        else
          var missing := MissingSorted(featureCols, df.columns);
          if missing != [] then Err(MissingColumns(missing))
          else
            var y := predict(model, FeatureMatrix(sel, featureCols));
            if |y| != |sel| then Err(LengthMismatch(|sel|, |y|))
            else if "grid_id" !in df.columns then Err(MissingColumns(["grid_id"]))
            else Ok(Frame({"grid_id", outCol}, seq(|sel|, i requires 0 <= i < |sel| => Prediction(sel[i].gridId, y[i]))))
  }

  /** The rows predicted for are exactly the input rows whose month is
      pred_month, in input order. */
  lemma SelectedRows(df: Frame<Record>, predMonth: int, i: nat)
    requires i < |df.rows|
    ensures df.rows[i] in Selected(df, predMonth) <==> InMonth(df.rows[i], predMonth)
    ensures forall r :: r in Selected(df, predMonth) ==> r in df.rows && InMonth(r, predMonth)
  {
    assert df.rows[i] in df.rows;
  }

  /** A month with no rows fails with the month error, whatever the feature
      columns, once the bundle loads and the month column exists. */
  lemma EmptySelectionFirst<M>(df: Frame<Record>, saved: Saved<M>, predMonth: int, featureCols: seq<string>,
                               outCol: string, predict: Predictor<M>)
    requires LoadModel(saved).Ok? && "month" in df.columns
    requires forall i :: 0 <= i < |df.rows| ==> !InMonth(df.rows[i], predMonth)
    ensures PredictRf(df, saved, predMonth, featureCols, outCol, predict) == Err(NoRowsForMonth(predMonth))
  {
    FilterNone(df.rows, MonthIs(predMonth));
  }

  /** With rows to predict for, absent feature columns fail with the list of
      exactly the absent names, without repeats, in sorted order. */
  lemma MissingFeaturesReported<M>(df: Frame<Record>, saved: Saved<M>, predMonth: int, featureCols: seq<string>,
                                   outCol: string, predict: Predictor<M>)
    requires LoadModel(saved).Ok? && "month" in df.columns && Selected(df, predMonth) != []
    requires exists c :: c in featureCols && c !in df.columns
    ensures var r := PredictRf(df, saved, predMonth, featureCols, outCol, predict);
      && r.Err? && r.error.MissingColumns?
      && (forall c :: c in r.error.names <==> c in featureCols && c !in df.columns)
      && (forall i, j :: 0 <= i < j < |r.error.names| ==> StrLess(r.error.names[i], r.error.names[j]))
  {
    var c :| c in featureCols && c !in df.columns;
    assert c in MissingSorted(featureCols, df.columns);
  }

  /** Success means every check passed. A failure is the first failing
      check's error, in predict_rf's order; the empty month and the absent
      features are stated in EmptySelectionFirst and MissingFeaturesReported. */
  lemma PredictOutcome<M>(df: Frame<Record>, saved: Saved<M>, predMonth: int, featureCols: seq<string>,
                          outCol: string, predict: Predictor<M>)
    ensures LoadModel(saved).Err? ==>
      PredictRf(df, saved, predMonth, featureCols, outCol, predict) == Err(LoadModel(saved).error)
    ensures LoadModel(saved).Ok? && "month" !in df.columns ==>
      PredictRf(df, saved, predMonth, featureCols, outCol, predict) == Err(MissingColumn("month"))
    ensures var sel := Selected(df, predMonth);
      LoadModel(saved).Ok? && "month" in df.columns && sel != [] && (forall c :: c in featureCols ==> c in df.columns) ==>
      var y := predict(LoadModel(saved).value, FeatureMatrix(sel, featureCols));
      var r := PredictRf(df, saved, predMonth, featureCols, outCol, predict);
      && (|y| != |sel| ==> r == Err(LengthMismatch(|sel|, |y|)))
      && (|y| == |sel| && "grid_id" !in df.columns ==> r == Err(MissingColumns(["grid_id"])))
    ensures var r := PredictRf(df, saved, predMonth, featureCols, outCol, predict);
      r.Ok? <==>
        && LoadModel(saved).Ok? && "month" in df.columns && "grid_id" in df.columns
        && Selected(df, predMonth) != []
        && (forall c :: c in featureCols ==> c in df.columns)
        && |predict(LoadModel(saved).value, FeatureMatrix(Selected(df, predMonth), featureCols))| ==
           |Selected(df, predMonth)|
  {
    if LoadModel(saved).Ok? && "month" in df.columns && Selected(df, predMonth) != [] {
      var missing := MissingSorted(featureCols, df.columns);
      if missing != [] {
        assert missing[0] in missing;
      }
    }
  }

  /** On success the i-th output row is the i-th selected row's grid id with
      the i-th value the estimator returned, and the estimator was given the
      selected rows' feature columns in feature_cols order. */
  lemma PredictionsAligned<M>(df: Frame<Record>, saved: Saved<M>, predMonth: int, featureCols: seq<string>,
                              outCol: string, predict: Predictor<M>)
    requires PredictRf(df, saved, predMonth, featureCols, outCol, predict).Ok?
    ensures var out := PredictRf(df, saved, predMonth, featureCols, outCol, predict).value.rows;
      var sel := Selected(df, predMonth);
      var x := FeatureMatrix(sel, featureCols);
      var y := predict(LoadModel(saved).value, x);
      && |out| == |sel| == |y|
      && (forall i :: 0 <= i < |out| ==> out[i] == Prediction(sel[i].gridId, y[i]))
      && (forall i, c :: 0 <= i < |x| && 0 <= c < |featureCols| ==>
            |x[i]| == |featureCols| && x[i][c] == Cell(sel[i], featureCols[c]))
  {
  }
}
