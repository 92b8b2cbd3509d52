/**
 * Grid assignment and aggregation (src/grid.py): points in projected metres
 * are binned into 200 m cells by floor division, each cell gets the key
 * "{grid_x}_{grid_y}", points are counted per (month, cell), and the distinct
 * cells are listed with their centres.
 *
 * The map projection EPSG:4326 -> EPSG:5179 is a parameter of the model
 * (a function from (lon, lat) to planar (x, y)); coordinates are reals.
 */
module Grid {
  import opened Common
  import opened Decimal

  /** CELL_SIZE_M: the edge of a grid cell, in metres. */
  const CellSize: real := 200.0

  /** A row of the geocoded point table: its month, the possibly missing
      coordinates, and whatever other columns it carries. */
  datatype PointRow<E> = PointRow(month: int, lat: Option<real>, lon: Option<real>, other: E)

  /** A point row after add_grid_columns: coordinates present, projected
      metres, cell indices and the cell key. */
  datatype GridRow<E> = GridRow(
    month: int, lat: real, lon: real, other: E,
    xM: real, yM: real, gridX: int, gridY: int, gridId: string)

  /** The coordinate transform, (lon, lat) in degrees to (x, y) in metres. */
  type Projection = (real, real) -> (real, real)

  /** The columns add_grid_columns adds. */
  const GridColumns: set<string> := {"x_m", "y_m", "grid_x", "grid_y", "grid_id"}

  // ---------------------------------------------------------------------
  // Binning

  /** floor(m / CELL_SIZE_M), rounding toward minus infinity. */
  function CellIndex(m: real): int {
    (m / CellSize).Floor
  }

  /** Cell g covers the half-open interval [200 g, 200 (g + 1)). */
  ghost predicate InCell(m: real, g: int) {
    (g as real) * CellSize <= m < (g as real + 1.0) * CellSize
  }

  /** The index floor division gives is the one cell that contains m. */
  lemma CellIndexIsCell(m: real, g: int)
    ensures CellIndex(m) == g <==> InCell(m, g)
  {
    var q := m / CellSize;
    assert m == q * CellSize;
    assert q.Floor as real <= q < q.Floor as real + 1.0;
  }

  /** The boundary cases: 200.0 lies in cell 1, 199.9999 in cell 0, and
      -0.1 in cell -1 (floor, not truncation toward zero). */
  lemma CellIndexBoundaries()
    ensures CellIndex(200.0) == 1
    ensures CellIndex(199.9999) == 0
    ensures CellIndex(-0.1) == -1
  {
    CellIndexIsCell(200.0, 1);
    CellIndexIsCell(199.9999, 0);
    CellIndexIsCell(-0.1, -1);
  }

  // ---------------------------------------------------------------------
  // Cell keys

  /** str(grid_x) + "_" + str(grid_y). */
  function CellId(gx: int, gy: int): string {
    IntToString(gx) + "_" + IntToString(gy)
  }

  /** The index of the first occurrence of c in s. */
  function IndexOf(s: string, c: char): (r: Option<nat>)
    ensures r.Some? ==> r.value < |s| && s[r.value] == c && c !in s[..r.value]
    ensures r.None? ==> c !in s
  {
    if s == [] then None
    else if s[0] == c then Some(0)
    else
      match IndexOf(s[1..], c)
      case None => None
      case Some(k) => assert s[..k + 1] == [s[0]] + s[1..][..k]; Some(k + 1)
  }

  /** Splits a cell key at its '_' and reads both halves as integers. */
  function ParseCellId(id: string): Option<(int, int)> {
    match IndexOf(id, '_')
    case None => None
    case Some(k) =>
      match (ParseInt(id[..k]), ParseInt(id[k + 1..]))
      case (Some(x), Some(y)) => Some((x, y))
      case _ => None
  }

  /** Splitting a cell key recovers the cell. */
  lemma CellIdRoundTrip(gx: int, gy: int)
    ensures ParseCellId(CellId(gx, gy)) == Some((gx, gy))
  {
    var a, b := IntToString(gx), IntToString(gy);
    var id := CellId(gx, gy);
    assert '_' !in a by {
      forall i | 0 <= i < |a| ensures a[i] != '_' {}
    }
    assert id[|a|] == '_' && id[..|a|] == a && id[|a| + 1..] == b;
    assert IndexOf(id, '_') == Some(|a|);
    ParseIntToString(gx);
    ParseIntToString(gy);
  }

  /** Distinct cells get distinct keys. */
  lemma CellIdInjective(gx: int, gy: int, hx: int, hy: int)
    requires CellId(gx, gy) == CellId(hx, hy)
    ensures gx == hx && gy == hy
  {
    CellIdRoundTrip(gx, gy);
    CellIdRoundTrip(hx, hy);
  }

  // ---------------------------------------------------------------------
  // add_grid_columns

  predicate HasCoords<E>(p: PointRow<E>) {
    p.lat.Some? && p.lon.Some?
  }

  /** The grid columns of one row with both coordinates. */
  function Locate<E>(p: PointRow<E>, project: Projection): GridRow<E>
    requires HasCoords(p)
  {
    var xy := project(p.lon.value, p.lat.value);
    var gx, gy := CellIndex(xy.0), CellIndex(xy.1);
    GridRow(p.month, p.lat.value, p.lon.value, p.other, xy.0, xy.1, gx, gy, CellId(gx, gy))
  }

  /** A row whose grid columns agree with its coordinates. */
  ghost predicate Placed<E>(g: GridRow<E>, project: Projection) {
    && (g.xM, g.yM) == project(g.lon, g.lat)
    && InCell(g.xM, g.gridX) && InCell(g.yM, g.gridY)
    && g.gridId == CellId(g.gridX, g.gridY)
  }

  /** A grid row with the added columns dropped again. */
  function Unlocated<E>(g: GridRow<E>): PointRow<E> {
    PointRow(g.month, Some(g.lat), Some(g.lon), g.other)
  }

  function UnlocatedAll<E>(rows: seq<GridRow<E>>): (r: seq<PointRow<E>>)
    ensures |r| == |rows|
  {
    seq(|rows|, i requires 0 <= i < |rows| => Unlocated(rows[i]))
  }

  /** add_grid_columns: KeyError without a lat or lon column; otherwise the
      rows with both coordinates, in their order and with their other
      columns, each placed in the cell that contains its projection. */
  function AddGridColumns<E(!new)>(df: Frame<PointRow<E>>, project: Projection, latCol: string, lonCol: string)
    : (r: Result<Frame<GridRow<E>>, Error>)
    ensures r.Err? <==> latCol !in df.columns || lonCol !in df.columns
    ensures r.Err? ==> r.error == LatLonRequired
    ensures r.Ok? ==> r.value.columns == df.columns + GridColumns
    ensures r.Ok? ==> UnlocatedAll(r.value.rows) == Filter(df.rows, HasCoords)
    ensures r.Ok? ==> forall i :: 0 <= i < |r.value.rows| ==> Placed(r.value.rows[i], project)
  {
    if latCol !in df.columns || lonCol !in df.columns then Err(LatLonRequired)
    else
      var kept := Filter(df.rows, HasCoords);
      assert forall i :: 0 <= i < |kept| ==> kept[i] in kept;
      var rows := seq(|kept|, i requires 0 <= i < |kept| => Locate(kept[i], project));
      assert UnlocatedAll(rows) == kept;
      assert forall i :: 0 <= i < |rows| ==> Placed(rows[i], project) by {
        forall i | 0 <= i < |rows| ensures Placed(rows[i], project) {
          CellIndexIsCell(rows[i].xM, rows[i].gridX);
          CellIndexIsCell(rows[i].yM, rows[i].gridY);
        }
      }
      Ok(Frame(df.columns + GridColumns, rows))
  }

  // ---------------------------------------------------------------------
  // build_predata

  /** A row of the sparse count table: month, cell key, number of points. */
  datatype AggRecord = AggRecord(month: int, gridId: string, count: int)

  function PairsOf<E>(rows: seq<GridRow<E>>): (r: seq<(int, string)>)
    ensures |r| == |rows|
  {
    seq(|rows|, i requires 0 <= i < |rows| => (rows[i].month, rows[i].gridId))
  }

  /** One record per pair of d, counting the pair's occurrences in m. */
  function Counted(d: seq<(int, string)>, m: multiset<(int, string)>): (r: seq<AggRecord>)
    ensures |r| == |d|
  {
    seq(|d|, i requires 0 <= i < |d| => AggRecord(d[i].0, d[i].1, m[d[i]]))
  }

  /** groupby([month, grid_id]).size(): each distinct pair with its count. */
  function Tally(pairs: seq<(int, string)>): seq<AggRecord> {
    Counted(Dedup(pairs), multiset(pairs))
  }

  /** The order of sort_values([month, count], ascending=[True, False]);
      equal counts keep the groupby order, which is by grid_id. */
  predicate PredataLe(a: AggRecord, b: AggRecord) {
    a.month < b.month ||
    (a.month == b.month && (a.count > b.count || (a.count == b.count && StrLe(a.gridId, b.gridId))))
  }

  /** build_predata: KeyError naming the first of month_col, grid_id_col
      that is absent; otherwise the count table. */
  function BuildPredata<E(!new)>(df: Frame<GridRow<E>>, monthCol: string, gridIdCol: string)
    : (r: Result<Frame<AggRecord>, Error>)
    ensures r.Err? <==> monthCol !in df.columns || gridIdCol !in df.columns
    ensures r.Err? ==> r.error == MissingColumn(if monthCol !in df.columns then monthCol else gridIdCol)
    ensures r.Ok? ==> r.value.columns == {monthCol, gridIdCol, "count"}
  {
    if monthCol !in df.columns then Err(MissingColumn(monthCol))
    else if gridIdCol !in df.columns then Err(MissingColumn(gridIdCol))
    else Ok(Frame({monthCol, gridIdCol, "count"}, SortBy(Tally(PairsOf(df.rows)), PredataLe)))
  }

  lemma PredataLeTotalPreorder()
    ensures TotalPreorder(PredataLe)
  {
    forall a, b ensures PredataLe(a, b) || PredataLe(b, a) {
      StrLessTotal(a.gridId, b.gridId);
    }
    forall a, b, c | PredataLe(a, b) && PredataLe(b, c) ensures PredataLe(a, c) {
      if a.month == b.month == c.month && a.count == b.count == c.count
         && a.gridId != b.gridId && b.gridId != c.gridId {
        StrLessTransitive(a.gridId, b.gridId, c.gridId);
      }
    }
  }

  lemma TallyMembers(pairs: seq<(int, string)>)
    ensures Distinct(Tally(pairs))
    ensures forall x :: x in Tally(pairs) <==>
      (x.month, x.gridId) in pairs && x.count == multiset(pairs)[(x.month, x.gridId)]
  {
    var d := Dedup(pairs);
    var t := Tally(pairs);
    forall x ensures x in t <==>
      (x.month, x.gridId) in pairs && x.count == multiset(pairs)[(x.month, x.gridId)]
    {
      if (x.month, x.gridId) in pairs && x.count == multiset(pairs)[(x.month, x.gridId)] {
        var k :| 0 <= k < |d| && d[k] == (x.month, x.gridId);
        assert t[k] == x;
      }
    }
  }

  /** Every count is the number of input rows with that (month, grid_id),
      and so at least 1: no record stands for zero points. */
  lemma {:induction false} PredataCounts<E(!new)>(df: Frame<GridRow<E>>, monthCol: string, gridIdCol: string)
    requires BuildPredata(df, monthCol, gridIdCol).Ok?
    ensures var t := BuildPredata(df, monthCol, gridIdCol).value.rows;
      forall i :: 0 <= i < |t| ==>
        t[i].count == multiset(PairsOf(df.rows))[(t[i].month, t[i].gridId)] && t[i].count >= 1
  {
    var pairs := PairsOf(df.rows);
    var t := BuildPredata(df, monthCol, gridIdCol).value.rows;
    TallyMembers(pairs);
    SortByMembers(Tally(pairs), PredataLe);
    forall i | 0 <= i < |t|
      ensures t[i].count == multiset(pairs)[(t[i].month, t[i].gridId)] && t[i].count >= 1
    {
      assert t[i] in t;
    }
  }

  /** Exactly one record per distinct (month, grid_id) of the input. */
  lemma {:induction false} PredataOnePerPair<E(!new)>(df: Frame<GridRow<E>>, monthCol: string, gridIdCol: string)
    requires BuildPredata(df, monthCol, gridIdCol).Ok?
    ensures var t := BuildPredata(df, monthCol, gridIdCol).value.rows;
      && (forall j :: 0 <= j < |df.rows| ==>
            exists i :: 0 <= i < |t| && t[i].month == df.rows[j].month && t[i].gridId == df.rows[j].gridId)
      && (forall i :: 0 <= i < |t| ==> (t[i].month, t[i].gridId) in PairsOf(df.rows))
      && (forall i, k :: 0 <= i < k < |t| ==> (t[i].month, t[i].gridId) != (t[k].month, t[k].gridId))
  {
    var pairs := PairsOf(df.rows);
    var t := BuildPredata(df, monthCol, gridIdCol).value.rows;
    var tally := Tally(pairs);
    TallyMembers(pairs);
    SortByMembers(tally, PredataLe);
    DistinctPermutation(tally, t);
    forall j | 0 <= j < |df.rows|
      ensures exists i :: 0 <= i < |t| && t[i].month == df.rows[j].month && t[i].gridId == df.rows[j].gridId
    {
      var p := pairs[j];
      var x := AggRecord(p.0, p.1, multiset(pairs)[p]);
      assert p in pairs;
      assert x in tally;
      var i :| 0 <= i < |t| && t[i] == x;
    }
    forall i | 0 <= i < |t| ensures (t[i].month, t[i].gridId) in pairs {
      assert t[i] in t;
    }
    forall i, k | 0 <= i < k < |t| ensures (t[i].month, t[i].gridId) != (t[k].month, t[k].gridId) {
      assert t[i] in t && t[k] in t;
    }
  }

  /** Rows are ordered by month ascending, then count descending, and rows
      with equal month and count by grid id. */
  lemma PredataOrder<E(!new)>(df: Frame<GridRow<E>>, monthCol: string, gridIdCol: string)
    requires BuildPredata(df, monthCol, gridIdCol).Ok?
    ensures var t := BuildPredata(df, monthCol, gridIdCol).value.rows;
      forall i, k :: 0 <= i < k < |t| ==>
        t[i].month < t[k].month || (t[i].month == t[k].month && t[i].count >= t[k].count)
    ensures var t := BuildPredata(df, monthCol, gridIdCol).value.rows;
      forall i, k :: 0 <= i < k < |t| && t[i].month == t[k].month && t[i].count == t[k].count ==>
        StrLe(t[i].gridId, t[k].gridId)
  {
    PredataLeTotalPreorder();
    SortBySorted(Tally(PairsOf(df.rows)), PredataLe);
  }

  // ---------------------------------------------------------------------
  // Conservation of points

  /** The sum of the count column. */
  function TotalCount(t: seq<AggRecord>): int {
    if t == [] then 0 else t[0].count + TotalCount(t[1..])
  }

  lemma {:induction false} TotalCountInsert(x: AggRecord, t: seq<AggRecord>, le: (AggRecord, AggRecord) -> bool)
    ensures TotalCount(Insert(x, t, le)) == x.count + TotalCount(t)
  {
    if t != [] && le(t[0], x) {
      assert ([t[0]] + Insert(x, t[1..], le))[1..] == Insert(x, t[1..], le);
      TotalCountInsert(x, t[1..], le);
    } else if t != [] {
      assert ([x] + t)[1..] == t;
    }
  }

  lemma {:induction false} TotalCountAppend(a: seq<AggRecord>, b: seq<AggRecord>)
    ensures TotalCount(a + b) == TotalCount(a) + TotalCount(b)
  {
    if a == [] {
      assert a + b == b;
    } else {
      assert (a + b)[1..] == a[1..] + b;
      TotalCountAppend(a[1..], b);
    }
  }

  lemma {:induction false} TotalCountSortBy(t: seq<AggRecord>, le: (AggRecord, AggRecord) -> bool)
    ensures TotalCount(SortBy(t, le)) == TotalCount(t)
  {
    if t != [] {
      var q, x := t[..|t| - 1], t[|t| - 1];
      TotalCountSortBy(q, le);
      TotalCountInsert(x, SortBy(q, le), le);
      SortByLast(t, le);
      TotalCountLast(t);
    }
  }

  /** The total of a non-empty table is that of all but its last row plus
      the last row's count. */
  lemma TotalCountLast(t: seq<AggRecord>)
    requires t != []
    ensures TotalCount(t) == TotalCount(t[..|t| - 1]) + t[|t| - 1].count
  {
    assert t == t[..|t| - 1] + [t[|t| - 1]];
    TotalCountAppend(t[..|t| - 1], [t[|t| - 1]]);
  }

  /** The occurrences in m of the elements of d, added up. */
  function Occurrences(d: seq<(int, string)>, m: multiset<(int, string)>): nat {
    if d == [] then 0 else m[d[0]] + Occurrences(d[1..], m)
  }

  lemma {:induction false} TotalCountCounted(d: seq<(int, string)>, m: multiset<(int, string)>)
    ensures TotalCount(Counted(d, m)) == Occurrences(d, m)
  {
    if d != [] {
      assert Counted(d, m)[1..] == Counted(d[1..], m);
      TotalCountCounted(d[1..], m);
    }
  }

  lemma {:induction false} OccurrencesEmpty(d: seq<(int, string)>)
    ensures Occurrences(d, multiset{}) == 0
  {
    if d != [] {
      OccurrencesEmpty(d[1..]);
    }
  }

  lemma {:induction false} OccurrencesAdd(d: seq<(int, string)>, m: multiset<(int, string)>, x: (int, string))
    requires Distinct(d)
    ensures Occurrences(d, m + multiset{x}) == Occurrences(d, m) + (if x in d then 1 else 0)
  {
    if d != [] {
      assert Distinct(d[1..]);
      OccurrencesAdd(d[1..], m, x);
      assert x in d <==> x == d[0] || x in d[1..];
      if x == d[0] {
        assert x !in d[1..];
      }
    }
  }

  lemma {:induction false} OccurrencesCover(d: seq<(int, string)>, s: seq<(int, string)>)
    requires Distinct(d)
    requires forall x :: x in s ==> x in d
    ensures Occurrences(d, multiset(s)) == |s|
  {
    if s == [] {
      OccurrencesEmpty(d);
    } else {
      var q, x := s[..|s| - 1], s[|s| - 1];
      assert s == q + [x];
      OccurrencesCover(d, q);
      OccurrencesAdd(d, multiset(q), x);
    }
  }

  /** The counts add up to the number of input rows. */
  lemma PredataConservesPoints<E(!new)>(df: Frame<GridRow<E>>, monthCol: string, gridIdCol: string)
    requires BuildPredata(df, monthCol, gridIdCol).Ok?
    ensures TotalCount(BuildPredata(df, monthCol, gridIdCol).value.rows) == |df.rows|
  {
    var pairs := PairsOf(df.rows);
    TotalCountSortBy(Tally(pairs), PredataLe);
    TotalCountCounted(Dedup(pairs), multiset(pairs));
    OccurrencesCover(Dedup(pairs), pairs);
  }

  // ---------------------------------------------------------------------
  // build_grid_meta

  /** A row of the cell table: key, indices and the centre in metres. */
  datatype CellMeta = CellMeta(gridId: string, gridX: int, gridY: int, centerX: real, centerY: real)

  /** (g + 0.5) * CELL_SIZE_M. */
  function Center(g: int): real {
    (g as real + 0.5) * CellSize
  }

  /** The centre lies strictly inside its cell, and binning it again gives
      the cell back. */
  lemma CenterInCell(g: int)
    ensures (g as real) * CellSize < Center(g) < (g as real + 1.0) * CellSize
    ensures CellIndex(Center(g)) == g
  {
    CellIndexIsCell(Center(g), g);
  }

  function CellsOf<E>(rows: seq<GridRow<E>>): (r: seq<(string, int, int)>)
    ensures |r| == |rows|
  {
    seq(|rows|, i requires 0 <= i < |rows| => (rows[i].gridId, rows[i].gridX, rows[i].gridY))
  }

  /** The order of sort_values(["grid_x", "grid_y"]). */
  predicate CellLe(a: (string, int, int), b: (string, int, int)) {
    a.1 < b.1 || (a.1 == b.1 && a.2 <= b.2)
  }

  function WithCenters(cells: seq<(string, int, int)>): (r: seq<CellMeta>)
    ensures |r| == |cells|
  {
    seq(|cells|, i requires 0 <= i < |cells| =>
      CellMeta(cells[i].0, cells[i].1, cells[i].2, Center(cells[i].1), Center(cells[i].2)))
  }

  /** build_grid_meta: KeyError naming the first of grid_x, grid_y,
      grid_id_col that is absent; otherwise the distinct cells, sorted. */
  function BuildGridMeta<E(!new)>(df: Frame<GridRow<E>>, gridIdCol: string): (r: Result<Frame<CellMeta>, Error>)
    ensures r.Err? <==> "grid_x" !in df.columns || "grid_y" !in df.columns || gridIdCol !in df.columns
    ensures r.Err? ==> r.error == MissingColumn(
      if "grid_x" !in df.columns then "grid_x" else if "grid_y" !in df.columns then "grid_y" else gridIdCol)
    ensures r.Ok? ==> r.value.columns == {gridIdCol, "grid_x", "grid_y", "center_x_m", "center_y_m"}
  {
    if "grid_x" !in df.columns then Err(MissingColumn("grid_x"))
    else if "grid_y" !in df.columns then Err(MissingColumn("grid_y"))
    else if gridIdCol !in df.columns then Err(MissingColumn(gridIdCol))
    else
      var cells := SortBy(Dedup(CellsOf(df.rows)), CellLe);
      Ok(Frame({gridIdCol, "grid_x", "grid_y", "center_x_m", "center_y_m"}, WithCenters(cells)))
  }

  function MetaCell(m: CellMeta): (string, int, int) {
    (m.gridId, m.gridX, m.gridY)
  }

  lemma CellLeTotalPreorder()
    ensures TotalPreorder(CellLe)
  {
  }

  lemma GridMetaCells<E(!new)>(df: Frame<GridRow<E>>, gridIdCol: string)
    requires BuildGridMeta(df, gridIdCol).Ok?
    ensures var t := BuildGridMeta(df, gridIdCol).value.rows;
      var cells := SortBy(Dedup(CellsOf(df.rows)), CellLe);
      |t| == |cells| && forall i :: 0 <= i < |t| ==> MetaCell(t[i]) == cells[i]
  {
  }

  /** One row per distinct (grid_id, grid_x, grid_y) of the input. */
  lemma GridMetaOnePerCell<E(!new)>(df: Frame<GridRow<E>>, gridIdCol: string)
    requires BuildGridMeta(df, gridIdCol).Ok?
    ensures var t := BuildGridMeta(df, gridIdCol).value.rows;
      && (forall c :: c in CellsOf(df.rows) <==> exists i :: 0 <= i < |t| && MetaCell(t[i]) == c)
      && (forall i, k :: 0 <= i < k < |t| ==> MetaCell(t[i]) != MetaCell(t[k]))
  {
    GridMetaEveryCell(df, gridIdCol);
    GridMetaNoRepeat(df, gridIdCol);
  }

  lemma GridMetaEveryCell<E(!new)>(df: Frame<GridRow<E>>, gridIdCol: string)
    requires BuildGridMeta(df, gridIdCol).Ok?
    ensures var t := BuildGridMeta(df, gridIdCol).value.rows;
      forall c :: c in CellsOf(df.rows) <==> exists i :: 0 <= i < |t| && MetaCell(t[i]) == c
  {
    var d := Dedup(CellsOf(df.rows));
    var cells := SortBy(d, CellLe);
    var t := BuildGridMeta(df, gridIdCol).value.rows;
    GridMetaCells(df, gridIdCol);
    SortByMembers(d, CellLe);
    forall c ensures c in CellsOf(df.rows) <==> exists i :: 0 <= i < |t| && MetaCell(t[i]) == c {
      if c in CellsOf(df.rows) {
        assert c in cells;
        var i :| 0 <= i < |cells| && cells[i] == c;
        assert MetaCell(t[i]) == c;
      }
      if exists i :: 0 <= i < |t| && MetaCell(t[i]) == c {
        var i :| 0 <= i < |t| && MetaCell(t[i]) == c;
        assert cells[i] in cells;
      }
    }
  }

  lemma GridMetaNoRepeat<E(!new)>(df: Frame<GridRow<E>>, gridIdCol: string)
    requires BuildGridMeta(df, gridIdCol).Ok?
    ensures var t := BuildGridMeta(df, gridIdCol).value.rows;
      forall i, k :: 0 <= i < k < |t| ==> MetaCell(t[i]) != MetaCell(t[k])
  {
    var d := Dedup(CellsOf(df.rows));
    var cells := SortBy(d, CellLe);
    var t := BuildGridMeta(df, gridIdCol).value.rows;
    GridMetaCells(df, gridIdCol);
    SortByMembers(d, CellLe);
    DistinctPermutation(d, cells);
    forall i, k | 0 <= i < k < |t| ensures MetaCell(t[i]) != MetaCell(t[k]) {
      assert MetaCell(t[i]) == cells[i] && MetaCell(t[k]) == cells[k];
    }
  }

  /** Rows are sorted by (grid_x, grid_y), each with its cell's centre. */
  lemma {:induction false} GridMetaOrder<E(!new)>(df: Frame<GridRow<E>>, gridIdCol: string)
    requires BuildGridMeta(df, gridIdCol).Ok?
    ensures var t := BuildGridMeta(df, gridIdCol).value.rows;
      && (forall i, k :: 0 <= i < k < |t| ==>
            t[i].gridX < t[k].gridX || (t[i].gridX == t[k].gridX && t[i].gridY <= t[k].gridY))
      && (forall i :: 0 <= i < |t| ==> t[i].centerX == Center(t[i].gridX) && t[i].centerY == Center(t[i].gridY))
  {
    var d := Dedup(CellsOf(df.rows));
    GridMetaCells(df, gridIdCol);
    CellLeTotalPreorder();
    SortBySorted(d, CellLe);
  }

  /** On the output of add_grid_columns, where the key is a function of the
      indices, no two rows share a cell: the order is strictly increasing. */
  lemma GridMetaStrict<E(!new)>(df: Frame<GridRow<E>>, gridIdCol: string)
    requires BuildGridMeta(df, gridIdCol).Ok?
    requires forall j :: 0 <= j < |df.rows| ==> df.rows[j].gridId == CellId(df.rows[j].gridX, df.rows[j].gridY)
    ensures var t := BuildGridMeta(df, gridIdCol).value.rows;
      forall i, k :: 0 <= i < k < |t| ==>
        t[i].gridX < t[k].gridX || (t[i].gridX == t[k].gridX && t[i].gridY < t[k].gridY)
  {
    var t := BuildGridMeta(df, gridIdCol).value.rows;
    GridMetaOnePerCell(df, gridIdCol);
    GridMetaOrder(df, gridIdCol);
    forall i | 0 <= i < |t| ensures t[i].gridId == CellId(t[i].gridX, t[i].gridY) {
      var c := MetaCell(t[i]);
      assert c in CellsOf(df.rows);
      var j :| 0 <= j < |df.rows| && CellsOf(df.rows)[j] == c;
    }
  }
}
