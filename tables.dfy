/**
 * One worksheet as the converter sees it after `read_excel(..., dtype=str)`:
 * an ordered list of column names and rows of cells, where a cell is either
 * missing (pandas NaN) or a piece of text.
 */
module Tables {

  datatype Cell = Null | Text(s: string)

  type Row = seq<Cell>

  datatype Table = Table(columns: seq<string>, rows: seq<Row>)

  /** Every row has one cell per column. */
  predicate Fits(cols: seq<string>, rows: seq<Row>)
  {
    forall r :: 0 <= r < |rows| ==> |rows[r]| == |cols|
  }

  /** Every row of the table has one cell per column. */
  predicate Rectangular(t: Table)
  {
    Fits(t.columns, t.rows)
  }
}
