/**
 * The values a vehicle-stops table holds, and the one way every cleaning rule
 * walks a column: cell by cell, position by position.
 */
module Cells {

  datatype Option<T> = None | Some(value: T)

  /** The exceptions the cleaning run can end with. */
  datatype Error =
    | ColumnExists(name: string)        // inserting a column whose name is taken
    | KeyNotFound(keys: seq<string>)    // reading or dropping columns that are absent
    | UnparseableDatetime               // a timestamp text that no datetime format reads

  datatype Result<T> = Ok(value: T) | Err(error: Error)

  /** One cell: the missing marker (NaN or NaT), a string, or an integer. */
  datatype Cell = Missing | Str(text: string) | Int(num: int)

  /** A column: its cells in row order. */
  type Column = seq<Cell>

  /**
   * Applies a per-cell rule to a whole column. The result is as long as the
   * column and its cell at each position depends only on the input cell at
   * that same position, so row count and row order are kept.
   */
  function MapCells(f: Cell -> Cell, col: Column): (r: Column)
    ensures |r| == |col|
    ensures forall k :: 0 <= k < |col| ==> r[k] == f(col[k])
  {
    if col == [] then [] else [f(col[0])] + MapCells(f, col[1..])
  }

  /** Mapping an idempotent per-cell rule twice is mapping it once. */
  lemma MapCellsIdempotent(f: Cell -> Cell, col: Column)
    requires forall c :: f(f(c)) == f(c)
    ensures MapCells(f, MapCells(f, col)) == MapCells(f, col)
  {
    var once := MapCells(f, col);
    var twice := MapCells(f, once);
    assert forall k :: 0 <= k < |col| ==> twice[k] == f(f(col[k])) == once[k];
  }
}
