/**
 * train_rf up to the estimator: checks the required columns, keeps the rows
 * of the training months, takes as target each row's next same-grid
 * count_t (groupby(grid_id).shift(-1) in the kept rows' order), drops rows
 * lacking the target or a feature, and saves {"model": fit(X, y)}. The
 * estimator's fit is a parameter.
 */
module Train {
  import opened Common
  import opened Records
  import opened Bundle
  import opened GroupShift

  /** RandomForestRegressor(...).fit(X, y), as the fitted estimator. */
  type Fitter<!M> = (seq<seq<real>>, seq<real>) -> M

  /** The feature matrix X and target vector y handed to fit. */
  datatype TrainingData = TrainingData(x: seq<seq<real>>, y: seq<real>)

  /** A kept training row before the drop: its grid, its feature values in
      feature_cols order, and its target y. */
  datatype Candidate = Candidate(gridId: string, features: seq<Option<real>>, target: Option<real>)

  const Required: seq<string> := ["month", "grid_id", "count_t"]

  /** df["month"].isin(train_months). */
  function InMonths(months: seq<int>): Record -> bool {
    (r: Record) => exists m :: m in months && InMonth(r, m)
  }

  /** The rows of the training months, in input order. */
  function TrainRows(df: Frame<Record>, months: seq<int>): seq<Record> {
    Filter(df.rows, InMonths(months))
  }

  /** The (grid_id, count_t) pair the groupby shift reads. */
  function Keyed(train: seq<Record>): (r: seq<(string, Option<real>)>)
    ensures |r| == |train|
    ensures forall j :: 0 <= j < |train| ==> r[j] == (train[j].gridId, Cell(train[j], "count_t"))
  {
    seq(|train|, j requires 0 <= j < |train| => (train[j].gridId, Cell(train[j], "count_t")))
  }

  /** y of row j: count_t of the next row of the same grid, NaN when there
      is no next row or its count_t is NaN. */
  function Target(train: seq<Record>, j: nat): Option<real>
    requires j < |train|
  {
    var s := ShiftAt(Keyed(train), j, -1);
    if s.Some? then s.value else None
  }

  function Candidates(train: seq<Record>, featureCols: seq<string>): (r: seq<Candidate>)
    ensures |r| == |train|
    ensures forall j :: 0 <= j < |r| ==> |r[j].features| == |featureCols|
  {
    seq(|train|, j requires 0 <= j < |train| =>
      Candidate(train[j].gridId, Columns(train[j], featureCols), Target(train, j)))
  }

  /** dropna(subset=["y", *feature_cols]) keeps the row. */
  predicate Complete(c: Candidate) {
    c.target.Some? && forall i :: 0 <= i < |c.features| ==> c.features[i].Some?
  }

  /** The rows that survive the drop, in order. */
  function Kept(train: seq<Record>, featureCols: seq<string>): (r: seq<Candidate>)
    ensures forall c :: c in r ==> Complete(c) && |c.features| == |featureCols|
  {
    Filter(Candidates(train, featureCols), Complete)
  }

  /** The feature values of a complete row. */
  function Values(c: Candidate): (r: seq<real>)
    requires Complete(c)
    ensures |r| == |c.features|
    ensures forall i :: 0 <= i < |r| ==> c.features[i] == Some(r[i])
  {
    seq(|c.features|, i requires 0 <= i < |c.features| => c.features[i].value)
  }

  function TargetValue(c: Candidate): (y: real)
    requires Complete(c)
    ensures c.target == Some(y)
  {
    c.target.value
  }

  /** y = train["y"] and X = train[list(feature_cols)] of the kept rows. */
  function Samples(kept: seq<Candidate>): (d: TrainingData)
    requires forall n :: 0 <= n < |kept| ==> Complete(kept[n])
    ensures |d.x| == |d.y| == |kept|
    ensures forall n :: 0 <= n < |kept| ==> kept[n].target == Some(d.y[n])
    ensures forall n :: 0 <= n < |kept| ==> |d.x[n]| == |kept[n].features|
    ensures forall n, c :: 0 <= n < |kept| && 0 <= c < |kept[n].features| ==>
      kept[n].features[c] == Some(d.x[n][c])
  {
    TrainingData(
      seq(|kept|, n requires 0 <= n < |kept| => Values(kept[n])),
      seq(|kept|, n requires 0 <= n < |kept| => TargetValue(kept[n])))
  }

  /** The X and y that train_rf fits on, or the error it raises first. */
  function TrainingSet(df: Frame<Record>, months: seq<int>, featureCols: seq<string>): Result<TrainingData, Error> {
    var missing := MissingSorted(Required + featureCols, df.columns);
    if missing != [] then Err(MissingColumns(missing))
    else
      var train := TrainRows(df, months);
      if train == [] then Err(NoTrainingRows(months))
      else
        var kept := Kept(train, featureCols);
        assert forall n :: 0 <= n < |kept| ==> kept[n] in kept;
        Ok(Samples(kept))
  }

  /** train_rf: the bundle {"model": fit(X, y)} it saves. */
  function TrainRf<M>(df: Frame<Record>, months: seq<int>, featureCols: seq<string>, fit: Fitter<M>)
    : (r: Result<Saved<M>, Error>)
    ensures r.Err? <==> TrainingSet(df, months, featureCols).Err?
    ensures r.Err? ==> r.error == TrainingSet(df, months, featureCols).error
  {
    match TrainingSet(df, months, featureCols)
    case Err(e) => Err(e)
    case Ok(d) => Ok(Dict(map["model" := fit(d.x, d.y)]))
  }

  // ---------------------------------------------------------------------
  // Errors

  /** Absent required or feature columns fail first, listing exactly the
      absent names, without repeats, in sorted order. */
  lemma TrainColumnsChecked(df: Frame<Record>, months: seq<int>, featureCols: seq<string>)
    requires exists c :: c in Required + featureCols && c !in df.columns
    ensures var r := TrainingSet(df, months, featureCols);
      && r.Err? && r.error.MissingColumns?
      && (forall c :: c in r.error.names <==> c in Required + featureCols && c !in df.columns)
      && (forall i, j :: 0 <= i < j < |r.error.names| ==> StrLess(r.error.names[i], r.error.names[j]))
  {
    var c :| c in Required + featureCols && c !in df.columns;
    assert c in MissingSorted(Required + featureCols, df.columns);
  }

  /** With every column present, training fails exactly when no row has a
      month in train_months. */
  lemma TrainMonthsChecked(df: Frame<Record>, months: seq<int>, featureCols: seq<string>)
    requires forall c :: c in Required + featureCols ==> c in df.columns
    ensures var r := TrainingSet(df, months, featureCols);
      && (r.Err? <==> forall i :: 0 <= i < |df.rows| ==> !InMonths(months)(df.rows[i]))
      && (r.Err? ==> r.error == NoTrainingRows(months))
  {
    EmptyIfNoMembers(MissingSorted(Required + featureCols, df.columns));
    if forall i :: 0 <= i < |df.rows| ==> !InMonths(months)(df.rows[i]) {
      FilterNone(df.rows, InMonths(months));
    } else {
      var i :| 0 <= i < |df.rows| && InMonths(months)(df.rows[i]);
      assert df.rows[i] in TrainRows(df, months);
    }
  }

  /** The training rows are exactly the input rows with a month in
      train_months. */
  lemma TrainRowsSelected(df: Frame<Record>, months: seq<int>, i: nat)
    requires i < |df.rows|
    ensures df.rows[i] in TrainRows(df, months) <==>
      exists m :: m in months && Cell(df.rows[i], "month") == Some(m as real)
  {
    assert df.rows[i] in df.rows;
  }

  // ---------------------------------------------------------------------
  // The samples

  /** X and y have one entry per kept row, X has one column per feature
      name, and the n-th sample is the n-th kept row. */
  lemma TrainAligned(df: Frame<Record>, months: seq<int>, featureCols: seq<string>)
    requires TrainingSet(df, months, featureCols).Ok?
    ensures var d := TrainingSet(df, months, featureCols).value;
      var kept := Kept(TrainRows(df, months), featureCols);
      && |d.x| == |d.y| == |kept|
      && (forall n :: 0 <= n < |kept| ==>
            |d.x[n]| == |featureCols| && kept[n].target == Some(d.y[n]))
      && (forall n, c :: 0 <= n < |kept| && 0 <= c < |featureCols| ==>
            kept[n].features[c] == Some(d.x[n][c]))
  {
    var kept := Kept(TrainRows(df, months), featureCols);
    assert forall n :: 0 <= n < |kept| ==> kept[n] in kept;
  }

  /** A row whose target is defined takes it from a later row of the same
      grid with no row of that grid in between. */
  lemma TargetIsNextOfGrid(train: seq<Record>, j: nat)
    requires j < |train| && Target(train, j).Some?
    ensures exists j' :: j < j' < |train| && train[j'].gridId == train[j].gridId
                      && (forall k :: j < k < j' ==> train[k].gridId != train[j].gridId)
                      && Cell(train[j'], "count_t") == Target(train, j)
  {
    var keyed := Keyed(train);
    ShiftAtSource(keyed, j, -1);
    var j' :| 0 <= j' < |keyed| && keyed[j'].0 == keyed[j].0 && Rank(keyed, j') == Rank(keyed, j) + 1
      && ShiftAt(keyed, j, -1) == Some(keyed[j'].1) && j' > j;
    forall k | j < k < j' ensures train[k].gridId != train[j].gridId {
      if train[k].gridId == train[j].gridId {
        RankOrder(keyed, j, k);
        RankOrder(keyed, k, j');
      }
    }
  }

  /** The n-th kept row is some training row j, and its target is count_t of
      the next row j' of the same grid. */
  lemma KeptSource(train: seq<Record>, featureCols: seq<string>, n: nat)
    requires n < |Kept(train, featureCols)|
    ensures var kept := Kept(train, featureCols);
      exists j, j' :: 0 <= j < j' < |train| && train[j'].gridId == train[j].gridId
                   && (forall k :: j < k < j' ==> train[k].gridId != train[j].gridId)
                   && kept[n].target == Cell(train[j'], "count_t")
                   && kept[n].features == Columns(train[j], featureCols)
  {
    var cands := Candidates(train, featureCols);
    var kept := Kept(train, featureCols);
    assert kept[n] in kept;
    var j :| 0 <= j < |cands| && cands[j] == kept[n];
    TargetIsNextOfGrid(train, j);
  }

  /** The n-th sample: its features are the values of feature_cols in a
      training row j, and its target is count_t of the next row j' of the
      same grid. */
  lemma SampleSource(df: Frame<Record>, months: seq<int>, featureCols: seq<string>, n: nat)
    requires TrainingSet(df, months, featureCols).Ok?
    requires n < |TrainingSet(df, months, featureCols).value.y|
    ensures var d := TrainingSet(df, months, featureCols).value;
      var train := TrainRows(df, months);
      exists j, j' :: 0 <= j < j' < |train| && train[j'].gridId == train[j].gridId
                   && (forall k :: j < k < j' ==> train[k].gridId != train[j].gridId)
                   && Cell(train[j'], "count_t") == Some(d.y[n])
                   && |d.x[n]| == |featureCols|
                   && (forall c :: 0 <= c < |featureCols| ==> Cell(train[j], featureCols[c]) == Some(d.x[n][c]))
  {
    TrainAligned(df, months, featureCols);
    KeptSource(TrainRows(df, months), featureCols, n);
  }

  // ---------------------------------------------------------------------
  // How many samples a grid gives

  function CandidateInGrid(g: string): Candidate -> bool {
    (c: Candidate) => c.gridId == g
  }

  function CompleteIn(g: string): Candidate -> bool {
    (c: Candidate) => Complete(c) && c.gridId == g
  }

  /** Every training row has count_t and every feature defined. */
  ghost predicate AllDefined(train: seq<Record>, featureCols: seq<string>) {
    forall j :: 0 <= j < |train| ==>
      Cell(train[j], "count_t").Some? && forall c :: c in featureCols ==> Cell(train[j], c).Some?
  }

  /** With everything defined, a row is kept exactly when a later row of its
      grid exists. */
  lemma KeptIffNotLast(train: seq<Record>, featureCols: seq<string>, j: nat)
    requires AllDefined(train, featureCols) && j < |train|
    ensures var keyed := Keyed(train);
      Complete(Candidates(train, featureCols)[j]) <==> Rank(keyed, j) < Count(keyed, keyed[j].0) - 1
  {
    var keyed := Keyed(train);
    var c := Candidates(train, featureCols)[j];
    forall v | v in c.features ensures v.Some? {
      var i :| 0 <= i < |c.features| && c.features[i] == v;
      assert featureCols[i] in featureCols;
    }
    ShiftAtDefined(keyed, j, -1);
    if ShiftAt(keyed, j, -1).Some? {
      ShiftAtSource(keyed, j, -1);
    }
  }

  lemma KeptIndex(train: seq<Record>, featureCols: seq<string>, g: string, j: nat)
    requires AllDefined(train, featureCols) && j < |train|
    ensures var p := Positions(Keyed(train), g);
      var q := if |p| >= 1 then p[..|p| - 1] else [];
      CompleteIn(g)(Candidates(train, featureCols)[j]) <==> j in q
  {
    var keyed := Keyed(train);
    var p := Positions(keyed, g);
    var q := if |p| >= 1 then p[..|p| - 1] else [];
    KeptIffNotLast(train, featureCols, j);
    if train[j].gridId == g {
      PositionOfRank(keyed, j);
    }
    if j in q {
      var m :| 0 <= m < |q| && q[m] == j;
      RankOfPosition(keyed, g, m);
    }
  }

  /** A grid's training rows are the rows at its positions. */
  lemma GridRowCount(train: seq<Record>, g: string)
    ensures |Filter(train, RecordInGrid(g))| == |Positions(Keyed(train), g)|
  {
    var keyed := Keyed(train);
    var p := Positions(keyed, g);
    forall j | 0 <= j < |train| ensures RecordInGrid(g)(train[j]) <==> j in p {
      if train[j].gridId == g {
        PositionOfRank(keyed, j);
      }
    }
    FilterAtPositions(train, RecordInGrid(g), p);
  }

  /** With everything defined, a grid's kept rows are the rows at all its
      positions but the last. */
  lemma KeptRowCount(train: seq<Record>, featureCols: seq<string>, g: string)
    requires AllDefined(train, featureCols)
    ensures var p := Positions(Keyed(train), g);
      |Filter(Kept(train, featureCols), CandidateInGrid(g))| == if |p| >= 1 then |p| - 1 else 0
  {
    var cands := Candidates(train, featureCols);
    var p := Positions(Keyed(train), g);
    var q := if |p| >= 1 then p[..|p| - 1] else [];
    FilterFilter(cands, Complete, CandidateInGrid(g), CompleteIn(g));
    forall j | 0 <= j < |cands| ensures CompleteIn(g)(cands[j]) <==> j in q {
      KeptIndex(train, featureCols, g, j);
    }
    FilterAtPositions(cands, CompleteIn(g), q);
  }

  /** With count_t and every feature defined, a grid with n training rows
      yields max(0, n - 1) samples: all its rows but the last. */
  lemma SamplesPerGrid(train: seq<Record>, featureCols: seq<string>, g: string)
    requires AllDefined(train, featureCols)
    ensures |Filter(Kept(train, featureCols), CandidateInGrid(g))| ==
      Max(0, |Filter(train, RecordInGrid(g))| - 1)
  {
    GridRowCount(train, g);
    KeptRowCount(train, featureCols, g);
  }

  // ---------------------------------------------------------------------
  // The saved bundle

  /** Loading what train_rf saves gives back the fitted estimator. */
  lemma TrainThenLoad<M>(df: Frame<Record>, months: seq<int>, featureCols: seq<string>, fit: Fitter<M>)
    requires TrainRf(df, months, featureCols, fit).Ok?
    ensures var d := TrainingSet(df, months, featureCols).value;
      LoadModel(TrainRf(df, months, featureCols, fit).value) == Ok(fit(d.x, d.y))
  {
  }
}
