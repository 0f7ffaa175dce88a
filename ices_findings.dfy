/**
  Three places where `iceberg_avoiding_exhaustive` as written departs from
  what it evidently intends: the mask loop runs one mask too far, the
  candidate buffer is one character short, and the move loop's bound wraps
  around for a single-cell grid. Each is stated here as written, beside the
  fact about the corrected version that the rest of the model uses.
 */
module IcesFindings {
  import opened IcesTypes
  import opened IcesPaths
  import opened IcesMasks
  import opened IcesProperties

  // The mask loop `i <= 2^steps`: one mask beyond the `2^steps` of `steps` bits.

  /** What the exhaustive search counts as written: the masks `0` to `2^steps`
      inclusive whose walks are legal. */
  ghost function ExhaustiveCountAsWritten(g: Grid): nat
    requires g.WellFormed() && g.rows > 0 && g.columns > 0
  {
    |ValidMasks(g, Pow2(Steps(g)) + 1)|
  }

  /** The mask `0` describes only down moves. */
  lemma {:induction false} ZeroMaskAllDown(n: nat)
    ensures Occurrences(Decode(0, n), Right) == 0
  {
    if n > 0 {
      ZeroMaskAllDown(n - 1);
      assert Decode(0, n) == [Down] + Decode(0, n - 1);
      assert multiset(Decode(0, n)) == multiset{Down} + multiset(Decode(0, n - 1));
    }
  }

  /** The extra mask `2^n` has its low `n` bits clear, so it decodes to the
      same all-down moves as mask `0`. */
  lemma {:induction false} ExtraMaskIsZeroMask(n: nat)
    ensures Decode(Pow2(n), n) == Decode(0, n)
  {
    if n > 0 {
      ExtraMaskIsZeroMask(n - 1);
      assert Pow2(n) % 2 == 0 && Pow2(n) / 2 == Pow2(n - 1);
    }
  }

  /** As written, the search counts every legal path plus the all-down walk
      a second time when that walk is legal. */
  lemma InclusiveBoundCountsAllDownTwice(g: Grid)
    requires g.WellFormed() && g.rows > 0 && g.columns > 0
    ensures ExhaustiveCountAsWritten(g)
      == PathCount(g) + (if Walks(g, Decode(0, Steps(g))) then 1 else 0)
  {
    var n := Steps(g);
    var extra := Pow2(n);
    ExtraMaskIsZeroMask(n);
    assert Decode(extra, n) == Decode(0, n);
    ValidMasksCountNext(g, extra, Walks(g, Decode(0, n)));
    assert ExhaustiveCountAsWritten(g) == |ValidMasks(g, extra + 1)|;
    MasksCountPaths(g);
  }

  /** The all-down walk is legal only in a grid of one column, so that is
      where the extra mask is counted. */
  lemma AllDownWalkNeedsOneColumn(g: Grid)
    requires g.WellFormed() && g.rows > 0 && g.columns > 0
    requires Walks(g, Decode(0, Steps(g)))
    ensures g.columns == 1
  {
    ZeroMaskAllDown(Steps(g));
    CompletedWalkEndsAtCorner(g, Decode(0, Steps(g)));
  }

  /** A free column of two cells has one path, but the search as written
      counts two. */
  lemma InclusiveBoundDoubleCounts()
    ensures var g := Grid(2, 1, [[Open], [Open]]);
      g.WellFormed() && PathCount(g) == 1 && ExhaustiveCountAsWritten(g) == 2
  {
    var g := Grid(2, 1, [[Open], [Open]]);
    assert Decode(0, Steps(g)) == [Down];
    assert [Down][..0] == [];
    assert Walks(g, [Down]);
    assert Decode(1, Steps(g)) == [Right];
    assert ValidMasks(g, 2) == {0} by {
      ValidMasksNext(g, 0);
      ValidMasksNext(g, 1);
    }
    MasksCountPaths(g);
    InclusiveBoundCountsAllDownTwice(g);
  }

  // The buffer `char candidate[steps]`, which receives the start marker and one character per move.

  /** The length of the candidate buffer as written. */
  function CandidateLengthAsWritten(steps: nat): nat {
    steps
  }

  /** The position move `j` of the candidate is written at, after the
      start marker at position 0. */
  function MovePosition(j: nat): nat {
    j + 1
  }

  /** Whenever there is a move, the last one is written one position past the
      end of the buffer as written; a buffer of `steps + 1` characters holds
      every move. */
  lemma CandidateBufferOneShort(steps: nat)
    requires steps > 0
    ensures MovePosition(steps - 1) == CandidateLengthAsWritten(steps)
    ensures forall j :: 0 <= j < steps ==> MovePosition(j) < steps + 1
  {
  }

  // The move loop `j <= steps - 1` with `steps` a `size_t`.

  /** The move loop's bound as written: `steps - 1` computed in 64-bit
      unsigned arithmetic. */
  function MoveBoundAsWritten(steps: nat): nat
    requires steps < 64
  {
    (steps - 1) % 0x1_0000_0000_0000_0000
  }

  /** For a single-cell grid the bound wraps to `2^64 - 1`, which no 32-bit
      unsigned loop counter exceeds, so as written the move loop never ends. */
  lemma SingleCellMoveBoundWraps()
    ensures MoveBoundAsWritten(0) == 0xFFFF_FFFF_FFFF_FFFF
    ensures MoveBoundAsWritten(0) >= 0x1_0000_0000
  {
  }

  /** With the bound `j < steps` a single-cell grid has one candidate, the
      empty walk, and it is counted: the exhaustive count is 1. */
  lemma SingleCellCountsOne(g: Grid)
    requires g.WellFormed() && g.rows == 1 && g.columns == 1
    ensures |ValidMasks(g, Pow2(Steps(g)))| == 1
  {
    MasksCountPaths(g);
    OneByOneHasOnePath(g);
  }
}
