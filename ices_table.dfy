/**
  The path-count table of the dynamic-programming algorithm, as a
  recurrence, and its meaning: entry `(i, j)` is the number of legal paths
  from the start cell to cell `(i, j)`.
 */
module IcesTable {
  import opened IcesTypes
  import opened IcesPaths

  /** Entry `(i, j)` of the table: 1 at the start cell whatever it holds, 0 on
      any other iceberg, and otherwise the entry above plus the entry to the
      left, a missing neighbour counting 0. */
  function TableEntry(g: Grid, i: nat, j: nat): nat
    requires g.WellFormed() && g.InBounds(i, j)
    decreases i + j
  {
    if i == 0 && j == 0 then 1
    else if g.Get(i, j) == Iceberg then 0
    else (if i > 0 then TableEntry(g, i - 1, j) else 0) + (if j > 0 then TableEntry(g, i, j - 1) else 0)
  }

  /** Entry `(i, j)` counts exactly the legal paths from the start to `(i, j)`. */
  lemma {:induction false} TableEntryCountsPaths(g: Grid, i: nat, j: nat)
    requires g.WellFormed() && g.InBounds(i, j)
    ensures TableEntry(g, i, j) == |Paths(g, i, j)|
    decreases i + j
  {
    if i == 0 && j == 0 {
      StartHasOnePath(g);
    } else if g.Get(i, j) == Iceberg {
      IcebergHasNoPaths(g, i, j);
    } else {
      PathsSplit(g, i, j);
      if i > 0 {
        TableEntryCountsPaths(g, i - 1, j);
        ExtendCard(Paths(g, i - 1, j), Down);
      }
      if j > 0 {
        TableEntryCountsPaths(g, i, j - 1);
        ExtendCard(Paths(g, i, j - 1), Right);
      }
    }
  }

  /** The bottom-right entry is the answer to the iceberg avoiding problem. */
  lemma CornerEntryIsPathCount(g: Grid)
    requires g.WellFormed() && g.rows > 0 && g.columns > 0
    ensures TableEntry(g, g.rows - 1, g.columns - 1) == PathCount(g)
  {
    TableEntryCountsPaths(g, g.rows - 1, g.columns - 1);
  }
}
