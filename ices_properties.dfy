/**
  Consequences of the path count that the two algorithms compute: the
  single-cell grid, a blocked destination, the binomial count of an open
  rectangle, walls, and that adding icebergs never adds paths.
 */
module IcesProperties {
  import opened IcesTypes
  import opened IcesPaths
  import opened IcesMasks
  import opened IcesTable

  /** A grid of one cell has exactly one path, whatever the cell holds. */
  lemma OneByOneHasOnePath(g: Grid)
    requires g.WellFormed() && g.rows == 1 && g.columns == 1
    ensures PathCount(g) == 1
  {
    StartHasOnePath(g);
  }

  /** When the bottom-right cell of a grid larger than one cell is an
      iceberg, there is no path. */
  lemma BlockedDestinationHasNoPaths(g: Grid)
    requires g.WellFormed() && g.rows > 0 && g.columns > 0
    requires g.rows > 1 || g.columns > 1
    requires g.Get(g.rows - 1, g.columns - 1) == Iceberg
    ensures PathCount(g) == 0
  {
    IcebergHasNoPaths(g, g.rows - 1, g.columns - 1);
  }

  /** `n!` */
  function Fact(n: nat): (r: nat)
    ensures r >= 1
  {
    if n == 0 then 1 else n * Fact(n - 1)
  }

  /** A grid without icebergs. */
  ghost predicate NoIcebergs(g: Grid)
    requires g.WellFormed()
  {
    forall r, c :: g.InBounds(r, c) ==> g.Get(r, c) == Open
  }

  /** In a grid without icebergs the number of paths to `(i, j)` is the
      binomial coefficient `(i + j)! / (i! j!)`. */
  lemma {:induction false} OpenGridBinomial(g: Grid, i: nat, j: nat)
    requires g.WellFormed() && NoIcebergs(g) && g.InBounds(i, j)
    ensures TableEntry(g, i, j) * (Fact(i) * Fact(j)) == Fact(i + j)
    decreases i + j
  {
    if i == 0 || j == 0 {
      OpenEdgeHasOnePath(g, i, j);
      assert Fact(0) == 1;
    } else {
      OpenGridBinomial(g, i - 1, j);
      OpenGridBinomial(g, i, j - 1);
      TableSumAlgebra(TableEntry(g, i - 1, j), TableEntry(g, i, j - 1), Fact(i - 1), Fact(j - 1), i, j, Fact(i + j - 1));
    }
  }

  /** In a grid without icebergs, each cell of the top row and of the left
      column has exactly one path. */
  lemma {:induction false} OpenEdgeHasOnePath(g: Grid, i: nat, j: nat)
    requires g.WellFormed() && NoIcebergs(g) && g.InBounds(i, j)
    requires i == 0 || j == 0
    ensures TableEntry(g, i, j) == 1
    decreases i + j
  {
    if i > 0 {
      OpenEdgeHasOnePath(g, i - 1, j);
    } else if j > 0 {
      OpenEdgeHasOnePath(g, i, j - 1);
    }
  }

  /** The arithmetic step of `OpenGridBinomial`: if `x` paths times
      `(i-1)! j!` and `y` paths times `i! (j-1)!` are both `(i+j-1)!`, then
      `x + y` times `i! j!` is `(i+j)!`. */
  lemma TableSumAlgebra(x: int, y: int, a: int, b: int, i: int, j: int, f: int)
    requires x * (a * (j * b)) == f
    requires y * ((i * a) * b) == f
    ensures (x + y) * ((i * a) * (j * b)) == (i + j) * f
  {
    calc {
      (x + y) * ((i * a) * (j * b));
      x * ((i * a) * (j * b)) + y * ((i * a) * (j * b));
      { assert (i * a) * (j * b) == i * (a * (j * b)) == j * ((i * a) * b); }
      x * (i * (a * (j * b))) + y * (j * ((i * a) * b));
      { assert x * (i * (a * (j * b))) == i * (x * (a * (j * b)));
        assert y * (j * ((i * a) * b)) == j * (y * ((i * a) * b)); }
      i * f + j * f;
    }
  }

  /** An open rectangle of `rows` by `columns` cells has
      `(rows + columns - 2)! / ((rows - 1)! (columns - 1)!)` paths. */
  lemma OpenGridPathCount(g: Grid)
    requires g.WellFormed() && g.rows > 0 && g.columns > 0 && NoIcebergs(g)
    ensures PathCount(g) * (Fact(g.rows - 1) * Fact(g.columns - 1)) == Fact(Steps(g))
  {
    OpenGridBinomial(g, g.rows - 1, g.columns - 1);
    CornerEntryIsPathCount(g);
  }

  /** An open 3 by 3 grid has 6 paths. */
  lemma ThreeByThreeOpenHasSixPaths()
    ensures var g := Grid(3, 3, [[Open, Open, Open], [Open, Open, Open], [Open, Open, Open]]);
      g.WellFormed() && PathCount(g) == 6
  {
    var g := Grid(3, 3, [[Open, Open, Open], [Open, Open, Open], [Open, Open, Open]]);
    assert TableEntry(g, 0, 1) == 1 && TableEntry(g, 0, 2) == 1;
    assert TableEntry(g, 1, 0) == 1 && TableEntry(g, 2, 0) == 1;
    assert TableEntry(g, 1, 1) == 2;
    assert TableEntry(g, 1, 2) == 3 && TableEntry(g, 2, 1) == 3;
    assert TableEntry(g, 2, 2) == 6;
    CornerEntryIsPathCount(g);
  }

  /** `icier` is `g` with possibly more icebergs: same shape, and every
      iceberg of `g` is still there. */
  ghost predicate MoreIcebergs(g: Grid, icier: Grid)
    requires g.WellFormed() && icier.WellFormed()
  {
    && icier.rows == g.rows && icier.columns == g.columns
    && forall r, c :: g.InBounds(r, c) && g.Get(r, c) == Iceberg ==> icier.Get(r, c) == Iceberg
  }

  /** A walk that is legal on the icier grid is legal on the original one. */
  lemma {:induction false} WalksWithFewerIcebergs(g: Grid, icier: Grid, m: seq<Move>)
    requires g.WellFormed() && icier.WellFormed() && MoreIcebergs(g, icier)
    requires Walks(icier, m)
    ensures Walks(g, m)
  {
    if m != [] {
      WalksWithFewerIcebergs(g, icier, m[..|m| - 1]);
    }
  }

  /** Adding icebergs never increases the number of paths. */
  lemma MoreIcebergsNeverMorePaths(g: Grid, icier: Grid)
    requires g.WellFormed() && icier.WellFormed() && MoreIcebergs(g, icier)
    requires g.rows > 0 && g.columns > 0
    ensures PathCount(icier) <= PathCount(g)
  {
    var i, j := g.rows - 1, g.columns - 1;
    forall m | m in Paths(icier, i, j)
      ensures m in Paths(g, i, j)
    {
      WalksWithFewerIcebergs(g, icier, m);
    }
    SubsetCard(Paths(icier, i, j), Paths(g, i, j));
  }

  /** A subset is no larger than the set that holds it. */
  lemma {:induction false} SubsetCard(small: set<seq<Move>>, large: set<seq<Move>>)
    requires small <= large
    ensures |small| <= |large|
  {
    if small != {} {
      var m :| m in small;
      SubsetCard(small - {m}, large - {m});
    }
  }

  /** Two rows and three columns with the middle column blocked: no path
      crosses the wall. With a gap at the top of the wall, exactly one path
      gets through. */
  lemma WallOfIcebergs()
    ensures var wall := Grid(2, 3, [[Open, Iceberg, Open], [Open, Iceberg, Open]]);
      wall.WellFormed() && PathCount(wall) == 0
    ensures var gap := Grid(2, 3, [[Open, Open, Open], [Open, Iceberg, Open]]);
      gap.WellFormed() && PathCount(gap) == 1
  {
    var wall := Grid(2, 3, [[Open, Iceberg, Open], [Open, Iceberg, Open]]);
    assert TableEntry(wall, 0, 1) == 0 && TableEntry(wall, 1, 1) == 0;
    assert TableEntry(wall, 0, 2) == 0;
    CornerEntryIsPathCount(wall);
    var gap := Grid(2, 3, [[Open, Open, Open], [Open, Iceberg, Open]]);
    assert TableEntry(gap, 0, 1) == 1 && TableEntry(gap, 1, 1) == 0;
    assert TableEntry(gap, 0, 2) == 1;
    CornerEntryIsPathCount(gap);
  }
}
