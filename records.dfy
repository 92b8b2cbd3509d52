/**
 * The feature table as predict_rf and train_rf read it back from CSV:
 * every row has a grid id, and every other column holds a number or NaN.
 */
module Records {
  import opened Common

  /** One row of the feature table; cells maps a column name to its value
      (None for NaN). The month is the "month" cell. */
  datatype Record = Record(gridId: string, cells: map<string, Option<real>>)

  /** row[column]; a column the row does not carry reads as NaN. */
  function Cell(r: Record, column: string): (v: Option<real>)
    ensures column !in r.cells ==> v == None
    ensures column in r.cells ==> v == r.cells[column]
  {
    if column in r.cells then r.cells[column] else None
  }

  /** The row's values for columns, in that order: df[list(columns)]. */
  function Columns(r: Record, columns: seq<string>): (v: seq<Option<real>>)
    ensures |v| == |columns|
    ensures forall c :: 0 <= c < |columns| ==> v[c] == Cell(r, columns[c])
  {
    seq(|columns|, c requires 0 <= c < |columns| => Cell(r, columns[c]))
  }

  /** The month cell equals m (NaN equals nothing). */
  predicate InMonth(r: Record, m: int) {
    Cell(r, "month") == Some(m as real)
  }

  function RecordInGrid(g: string): Record -> bool {
    (r: Record) => r.gridId == g
  }
}
