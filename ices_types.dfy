/**
  The grid the iceberg avoiding algorithms work on: a rectangle of cells,
  each open water or an iceberg. Only the view the algorithms use is
  modelled: the dimensions, the raw cell state (`get`) and the step test
  (`may_step`).
 */
module IcesTypes {

  /** The state of one cell; `get(i, j) == 1` in the algorithms means `Iceberg`. */
  datatype Cell = Open | Iceberg

  /** A grid of `rows` by `columns` cells, stored row by row. */
  datatype Grid = Grid(rows: nat, columns: nat, cells: seq<seq<Cell>>) {

    /** The shape every constructed grid has: `rows` rows of `columns` cells each. */
    predicate WellFormed() {
      |cells| == rows && forall r :: 0 <= r < rows ==> |cells[r]| == columns
    }

    /** True when `(r, c)` names a cell of the grid. */
    predicate InBounds(r: int, c: int) {
      0 <= r < rows && 0 <= c < columns
    }

    /** The raw state of an existing cell. */
    function Get(r: nat, c: nat): Cell
      requires WellFormed() && InBounds(r, c)
    {
      cells[r][c]
    }

    /** A step onto `(r, c)` is allowed when the coordinate is on the grid
        and the cell there is not an iceberg; the start cell is no exception. */
    predicate MayStep(r: int, c: int)
      requires WellFormed()
    {
      InBounds(r, c) && Get(r, c) != Iceberg
    }
  }
}
