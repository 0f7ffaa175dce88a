/**
  What both algorithms count: the right/down move sequences that lead from
  the top-left cell to a given cell without ever landing off the grid or on
  an iceberg.
 */
module IcesPaths {
  import opened IcesTypes

  /** One move of a path. */
  datatype Move = Right | Down

  /** A cell coordinate reached by a walk. */
  datatype Pos = Pos(row: nat, col: nat)

  /** The coordinate one move away from `p`. */
  function Step(p: Pos, m: Move): Pos {
    match m
    case Right => Pos(p.row, p.col + 1)
    case Down => Pos(p.row + 1, p.col)
  }

  /** Where the moves `m` lead when followed from the start cell `(0, 0)`. */
  function EndOf(m: seq<Move>): Pos {
    if m == [] then Pos(0, 0) else Step(EndOf(m[..|m| - 1]), m[|m| - 1])
  }

  /** Following `m` from `(0, 0)` lands on an allowed cell after every move.
      The start cell itself is never tested. */
  predicate Walks(g: Grid, m: seq<Move>)
    requires g.WellFormed()
  {
    m == [] || (Walks(g, m[..|m| - 1]) && g.MayStep(EndOf(m).row, EndOf(m).col))
  }

  /** Every sequence of `S` extended by the move `x`. */
  function Extend(S: set<seq<Move>>, x: Move): set<seq<Move>> {
    set m | m in S :: m + [x]
  }

  /** Every move sequence of length `n`. */
  function AllMoves(n: nat): (r: set<seq<Move>>)
    ensures forall m :: m in r <==> |m| == n
  {
    if n == 0 then {[]}
    else
      var shorter := AllMoves(n - 1);
      ExtendBothWays(shorter, n - 1);
      Extend(shorter, Right) + Extend(shorter, Down)
  }

  /** Extending the sequences of length `n` by either move gives the
      sequences of length `n + 1`. */
  lemma ExtendBothWays(S: set<seq<Move>>, n: nat)
    requires forall m :: m in S <==> |m| == n
    ensures forall m :: m in Extend(S, Right) + Extend(S, Down) <==> |m| == n + 1
  {
    forall m: seq<Move> | |m| == n + 1
      ensures m in Extend(S, Right) + Extend(S, Down)
    {
      var p := m[..n];
      assert m == p + [m[n]] && p in S;
      InExtend(S, p, m[n]);
      if m[n] == Right {
        assert m in Extend(S, Right);
      } else {
        assert m in Extend(S, Down);
      }
    }
  }

  /** A sequence of `S` extended by `x` is in `Extend(S, x)`. */
  lemma InExtend(S: set<seq<Move>>, p: seq<Move>, x: Move)
    requires p in S
    ensures p + [x] in Extend(S, x)
  {
  }

  /** The legal paths from `(0, 0)` to `(i, j)`. */
  function Paths(g: Grid, i: nat, j: nat): set<seq<Move>>
    requires g.WellFormed()
  {
    set m | m in AllMoves(i + j) && Walks(g, m) && EndOf(m) == Pos(i, j)
  }

  /** The number of moves a path from corner to corner makes. */
  function Steps(g: Grid): nat
    requires g.rows > 0 && g.columns > 0
  {
    g.rows + g.columns - 2
  }

  /** The answer to the iceberg avoiding problem: the number of legal paths
      from the top-left to the bottom-right cell. */
  function PathCount(g: Grid): nat
    requires g.WellFormed() && g.rows > 0 && g.columns > 0
  {
    |Paths(g, g.rows - 1, g.columns - 1)|
  }

  /** How often `x` occurs in `m`. */
  function Occurrences(m: seq<Move>, x: Move): nat {
    multiset(m)[x]
  }

  /** A walk ends as many rows down as it has down moves and as many columns
      right as it has right moves. */
  lemma {:induction false} EndOfCountsMoves(m: seq<Move>)
    ensures EndOf(m) == Pos(Occurrences(m, Down), Occurrences(m, Right))
    ensures EndOf(m).row + EndOf(m).col == |m|
  {
    if m != [] {
      var p := m[..|m| - 1];
      EndOfCountsMoves(p);
      assert m == p + [m[|m| - 1]];
      assert multiset(m) == multiset(p) + multiset{m[|m| - 1]};
    }
  }

  /** A legal walk stays legal when cut short. */
  lemma {:induction false} WalksPrefix(g: Grid, m: seq<Move>, k: nat)
    requires g.WellFormed()
    requires k <= |m| && Walks(g, m)
    ensures Walks(g, m[..k])
    decreases |m| - k
  {
    if k < |m| {
      WalksPrefix(g, m[..|m| - 1], k);
      assert m[..|m| - 1][..k] == m[..k];
    } else {
      assert m[..k] == m;
    }
  }

  /** A sequence walks legally exactly when every move of it lands on a cell
      where a step is allowed. */
  lemma {:induction false} WalksEveryMove(g: Grid, m: seq<Move>)
    requires g.WellFormed()
    ensures Walks(g, m) <==> forall k :: 1 <= k <= |m| ==> g.MayStep(EndOf(m[..k]).row, EndOf(m[..k]).col)
  {
    if m != [] {
      var p := m[..|m| - 1];
      WalksEveryMove(g, p);
      assert m[..|m|] == m;
      assert forall k :: 1 <= k <= |p| ==> p[..k] == m[..k];
    }
  }

  /** A legal walk that makes every move of a corner-to-corner path has made
      `columns - 1` right moves and `rows - 1` down moves, so it ends in the
      bottom-right corner: no separate end test is needed. */
  lemma CompletedWalkEndsAtCorner(g: Grid, m: seq<Move>)
    requires g.WellFormed() && g.rows > 0 && g.columns > 0
    requires |m| == Steps(g) && Walks(g, m)
    ensures Occurrences(m, Right) == g.columns - 1 && Occurrences(m, Down) == g.rows - 1
    ensures EndOf(m) == Pos(g.rows - 1, g.columns - 1)
  {
    EndOfCountsMoves(m);
  }

  /** Extending every sequence of a set by one move keeps the set's size. */
  lemma {:induction false} ExtendCard(S: set<seq<Move>>, x: Move)
    ensures |Extend(S, x)| == |S|
  {
    if S != {} {
      var m :| m in S;
      var rest := S - {m};
      ExtendCard(rest, x);
      assert Extend(S, x) == Extend(rest, x) + {m + [x]};
      assert forall p :: (p + [x])[..|p|] == p;
      assert m + [x] !in Extend(rest, x);
    }
  }

  /** There is exactly one path to the start cell, the empty one, whether or
      not the start cell holds an iceberg. */
  lemma StartHasOnePath(g: Grid)
    requires g.WellFormed()
    ensures Paths(g, 0, 0) == {[]}
    ensures |Paths(g, 0, 0)| == 1
  {
    var empty: seq<Move> := [];
    assert empty in AllMoves(0) && Walks(g, empty) && EndOf(empty) == Pos(0, 0);
    assert empty in Paths(g, 0, 0);
  }

  /** No path leads onto an iceberg other than the start cell. */
  lemma IcebergHasNoPaths(g: Grid, i: nat, j: nat)
    requires g.WellFormed() && g.InBounds(i, j) && (i, j) != (0, 0)
    requires g.Get(i, j) == Iceberg
    ensures Paths(g, i, j) == {}
  {
    if m :| m in Paths(g, i, j) {
      assert false;
    }
  }

  /** The paths from above: those to `(i - 1, j)`, each followed by a down move. */
  function FromAbove(g: Grid, i: nat, j: nat): set<seq<Move>>
    requires g.WellFormed()
  {
    if i > 0 then Extend(Paths(g, i - 1, j), Down) else {}
  }

  /** The paths from the left: those to `(i, j - 1)`, each followed by a right move. */
  function FromLeft(g: Grid, i: nat, j: nat): set<seq<Move>>
    requires g.WellFormed()
  {
    if j > 0 then Extend(Paths(g, i, j - 1), Right) else {}
  }

  /** A non-empty legal walk without its last move is still legal, and the
      whole walk ends one step on from where the shorter one ends. */
  lemma LastMove(g: Grid, m: seq<Move>)
    requires g.WellFormed() && m != [] && Walks(g, m)
    ensures Walks(g, m[..|m| - 1])
    ensures EndOf(m) == Step(EndOf(m[..|m| - 1]), m[|m| - 1])
  {
  }

  /** Every path to a cell other than the start arrives either from above or
      from the left. */
  lemma PathsSplitInto(g: Grid, i: nat, j: nat, m: seq<Move>)
    requires g.WellFormed() && (i, j) != (0, 0)
    requires m in Paths(g, i, j)
    ensures m in FromAbove(g, i, j) + FromLeft(g, i, j)
  {
    assert m != [];
    LastMove(g, m);
    var p, x := m[..|m| - 1], m[|m| - 1];
    assert m == p + [x];
    assert p in AllMoves(i + j - 1);
    if x == Down {
      assert p in Paths(g, i - 1, j);
      InExtend(Paths(g, i - 1, j), p, Down);
    } else {
      assert p in Paths(g, i, j - 1);
      InExtend(Paths(g, i, j - 1), p, Right);
    }
  }

  /** A legal walk followed by a move onto an allowed cell is a legal walk
      that ends on that cell. */
  lemma WalkOneStep(g: Grid, p: seq<Move>, x: Move)
    requires g.WellFormed() && Walks(g, p)
    requires g.MayStep(Step(EndOf(p), x).row, Step(EndOf(p), x).col)
    ensures Walks(g, p + [x]) && EndOf(p + [x]) == Step(EndOf(p), x)
  {
    assert (p + [x])[..|p|] == p;
  }

  /** A path to the cell above or to the left of an open cell, followed by
      the move onto it, is a path to that cell. */
  lemma PathsSplitFrom(g: Grid, i: nat, j: nat, m: seq<Move>)
    requires g.WellFormed() && g.InBounds(i, j) && (i, j) != (0, 0)
    requires g.Get(i, j) != Iceberg
    requires m in FromAbove(g, i, j) + FromLeft(g, i, j)
    ensures m in Paths(g, i, j)
  {
    var p: seq<Move>, x: Move;
    if m in FromAbove(g, i, j) {
      p :| p in Paths(g, i - 1, j) && m == p + [Down];
      x := Down;
    } else {
      p :| p in Paths(g, i, j - 1) && m == p + [Right];
      x := Right;
    }
    assert Step(EndOf(p), x) == Pos(i, j);
    WalkOneStep(g, p, x);
    assert m in AllMoves(i + j);
  }

  /** The paths to an open cell other than the start are those from above
      and those from the left, and no path is both. */
  lemma PathsSplit(g: Grid, i: nat, j: nat)
    requires g.WellFormed() && g.InBounds(i, j) && (i, j) != (0, 0)
    requires g.Get(i, j) != Iceberg
    ensures Paths(g, i, j) == FromAbove(g, i, j) + FromLeft(g, i, j)
    ensures FromAbove(g, i, j) !! FromLeft(g, i, j)
  {
    forall m | m in Paths(g, i, j)
      ensures m in FromAbove(g, i, j) + FromLeft(g, i, j)
    {
      PathsSplitInto(g, i, j, m);
    }
    forall m | m in FromAbove(g, i, j) + FromLeft(g, i, j)
      ensures m in Paths(g, i, j)
    {
      PathsSplitFrom(g, i, j, m);
    }
  }
}
