/**
  The two algorithms that solve the iceberg avoiding problem: count the
  right/down paths from the top-left to the bottom-right cell of a grid that
  never step off the grid or onto an iceberg.
 */
module IcesAlgs {
  import opened IcesTypes
  import opened IcesPaths
  import opened IcesMasks
  import opened IcesTable

  /** The character a candidate buffer holds for a move. */
  function Symbol(m: Move): char {
    match m
    case Right => 'r'
    case Down => 'd'
  }

  /** Exhaustive search: every mask below `2^steps` is decoded into a
      candidate `'s'` followed by one `'r'` or `'d'` per move, the candidate is
      walked from `(0, 0)` testing `may_step` before each move, and the walks
      that complete are counted. */
  method IcebergAvoidingExhaustive(g: Grid) returns (countPaths: nat)
    requires g.WellFormed()
    requires g.rows > 0 && g.columns > 0
    requires g.rows + g.columns - 2 < 64
    ensures countPaths == |ValidMasks(g, Pow2(Steps(g)))|
    ensures countPaths <= Pow2(Steps(g))
    ensures countPaths == PathCount(g)
  {
    var steps := g.rows + g.columns - 2;
    assert steps == Steps(g);
    countPaths := 0;
    var candidate := new char[steps + 1];
    var total := Pow2(steps);
    for i := 0 to total
      invariant candidate.Length == steps + 1
      invariant countPaths == |ValidMasks(g, i)|
    {
      var count := BuildCandidate(candidate, i, steps);
      var valid := WalkCandidate(g, candidate, count, Decode(i, steps));
      ValidMasksCountNext(g, i, valid);
      if valid {
        countPaths := countPaths + 1;
      }
    }
    ValidMasksBound(g, total);
    MasksCountPaths(g);
  }

  /** Fills `candidate` with the start marker `'s'` followed by the moves the
      low `steps` bits of the mask `i` select, `'r'` for a set bit and `'d'` for
      a clear one, and returns how many characters were written. */
  method BuildCandidate(candidate: array<char>, i: nat, steps: nat) returns (count: nat)
    requires candidate.Length == steps + 1
    modifies candidate
    ensures count == steps + 1
    ensures candidate[0] == 's'
    ensures forall t :: 0 <= t < steps ==> candidate[t + 1] == Symbol(Decode(i, steps)[t])
  {
    count := 0;
    candidate[count] := 's';
    count := count + 1;
    for j := 0 to steps
      invariant count == j + 1
      invariant candidate[0] == 's'
      invariant forall t :: 0 <= t < j ==> candidate[t + 1] == Symbol(Decode(i, steps)[t])
    {
      var bit := ShiftRight(i, j) % 2;
      DecodeAt(i, steps, j);
      if bit == 1 {
        candidate[count] := 'r';
      } else {
        candidate[count] := 'd';
      }
      count := count + 1;
    }
  }

  /** Walks the moves `candidate[1..count]` from `(0, 0)`, testing `may_step`
      on the cell each move leads to and stopping at the first one that is not
      allowed; the walk is valid exactly when the moves walk legally. */
  method WalkCandidate(g: Grid, candidate: array<char>, count: nat, ghost moves: seq<Move>)
    returns (valid: bool)
    requires g.WellFormed()
    requires count == |moves| + 1 <= candidate.Length
    requires forall t :: 0 <= t < |moves| ==> candidate[t + 1] == Symbol(moves[t])
    ensures valid == Walks(g, moves)
  {
    var row, col := 0, 0;
    valid := true;
    var k := 1;
    while k < count
      invariant 1 <= k <= count
      invariant valid
      invariant 0 <= row && 0 <= col
      invariant Walks(g, moves[..k - 1]) && EndOf(moves[..k - 1]) == Pos(row, col)
    {
      WalkOneMore(g, moves, k);
      if candidate[k] == 'r' {
        if g.MayStep(row, col + 1) {
          col := col + 1;
        } else {
          valid := false;
          NoLegalExtension(g, moves, k);
          break;
        }
      } else if candidate[k] == 'd' {
        if g.MayStep(row + 1, col) {
          row := row + 1;
        } else {
          valid := false;
          NoLegalExtension(g, moves, k);
          break;
        }
      }
      k := k + 1;
    }
    assert valid ==> moves[..k - 1] == moves;
  }

  /** Move `k` of a walk leads one step on from where its first `k - 1`
      moves end, and the first `k` moves are legal exactly when the first
      `k - 1` are and that step is allowed. */
  lemma WalkOneMore(g: Grid, moves: seq<Move>, k: nat)
    requires g.WellFormed()
    requires 1 <= k <= |moves|
    ensures EndOf(moves[..k]) == Step(EndOf(moves[..k - 1]), moves[k - 1])
    ensures Walks(g, moves[..k]) <==>
      Walks(g, moves[..k - 1]) && g.MayStep(EndOf(moves[..k]).row, EndOf(moves[..k]).col)
  {
    assert moves[..k][..k - 1] == moves[..k - 1];
  }

  /** A walk whose first `k` moves are not legal is not legal as a whole. */
  lemma NoLegalExtension(g: Grid, moves: seq<Move>, k: nat)
    requires g.WellFormed()
    requires 1 <= k <= |moves|
    requires !Walks(g, moves[..k])
    ensures !Walks(g, moves)
  {
    if Walks(g, moves) {
      WalksPrefix(g, moves, k);
    }
  }

  /** Dynamic programming: a `rows` by `columns` table filled in row-major
      order, 1 at the start cell, 0 on icebergs, and the entry above plus the
      entry to the left elsewhere; the answer is the bottom-right entry. */
  method IcebergAvoidingDynProg(g: Grid) returns (paths: nat)
    requires g.WellFormed()
    requires g.rows > 0 && g.columns > 0
    ensures paths == TableEntry(g, g.rows - 1, g.columns - 1)
    ensures paths == PathCount(g)
  {
    var a := new nat[g.rows, g.columns];
    a[0, 0] := 1;
    for i := 0 to g.rows
      invariant forall i', j' {:trigger a[i', j']} :: 0 <= i' < i && 0 <= j' < g.columns ==> a[i', j'] == TableEntry(g, i', j')
    {
      for j := 0 to g.columns
        invariant forall i', j' {:trigger a[i', j']} :: 0 <= i' < i && 0 <= j' < g.columns ==> a[i', j'] == TableEntry(g, i', j')
        invariant forall j' {:trigger a[i, j']} :: 0 <= j' < j ==> a[i, j'] == TableEntry(g, i, j')
      {
        if i == 0 && j == 0 {
          a[i, j] := 1;
        } else if g.Get(i, j) == Iceberg {
          a[i, j] := 0;
        } else {
          var fromAbove, fromLeft := 0, 0;
          if i > 0 && a[i - 1, j] != 0 {
            fromAbove := a[i - 1, j];
          }
          if j > 0 && a[i, j - 1] != 0 {
            fromLeft := a[i, j - 1];
          }
          assert fromAbove == (if i > 0 then TableEntry(g, i - 1, j) else 0);
          assert fromLeft == (if j > 0 then TableEntry(g, i, j - 1) else 0);
          if fromLeft == 0 && fromAbove == 0 {
            a[i, j] := 0;
          } else {
            a[i, j] := fromAbove + fromLeft;
          }
        }
        assert a[i, j] == TableEntry(g, i, j);
      }
    }
    paths := a[g.rows - 1, g.columns - 1];
    CornerEntryIsPathCount(g);
  }

  /** Both algorithms solve the same problem: the masks the exhaustive search
      counts are as many as the bottom-right entry of the table. */
  lemma ExhaustiveAgreesWithDynProg(g: Grid)
    requires g.WellFormed() && g.rows > 0 && g.columns > 0
    ensures |ValidMasks(g, Pow2(Steps(g)))| == TableEntry(g, g.rows - 1, g.columns - 1)
  {
    MasksCountPaths(g);
    CornerEntryIsPathCount(g);
  }
}
