# Iceberg avoiding: a verified model of the two path counters

The iceberg avoiding problem: a rectangular grid of open water and icebergs
is given. Count the paths from the top-left cell `(0, 0)` to the bottom-right
cell `(rows - 1, columns - 1)` that move only right or down and never step
off the grid or onto an iceberg. `ices_algs.hpp` solves it in two ways:

- `iceberg_avoiding_exhaustive` enumerates every bitmask of `steps = rows +
  columns - 2` bits. Bit `j` set means a right move at step `j`; bit `j`
  clear means a down move. It writes the moves into a candidate buffer after
  a start marker `'s'`. It walks the candidate from `(0, 0)`, testing
  `may_step` before each move and abandoning the candidate at the first move
  that is not allowed. It counts the walks that complete.
- `iceberg_avoiding_dyn_prog` fills a table `A` in row-major order. The
  start cell is 1 whatever it holds. Any other iceberg is 0. Every other
  cell is the entry above plus the entry to the left. The answer is the
  bottom-right entry.

The model:

- `ices_types.dfy` (`IcesTypes`): the grid. Its `rows`, `columns`, cell
  states, `Get` (the source's `get`, where 1 means iceberg) and `MayStep`
  (in bounds and not an iceberg).
- `ices_paths.dfy` (`IcesPaths`): the specification both algorithms are
  proved against.
  - `Paths(g, i, j)` is the set of move sequences that lead from `(0, 0)` to
    `(i, j)`, landing on an allowed cell after every move.
  - `PathCount(g)` is the number of such paths to the bottom-right corner.
  - The lemmas show how these paths decompose, the way the table
    recurrence needs them.
- `ices_masks.dfy` (`IcesMasks`): the bitmask encoding.
  - `ShiftRight` models `i >> j`.
  - `Decode` and `Encode` are proved mutually inverse between the masks
    below `2^n` and the sequences of `n` moves.
  - `ValidMasks` is the set of masks the exhaustive search counts. It is
    proved to be exactly as large as `PathCount`.
- `ices_table.dfy` (`IcesTable`): the table recurrence `TableEntry`. Each
  entry is proved to count the paths to its cell.
- `ices_algs.dfy` (`IcesAlgs`): the two algorithms as methods with loops.
  - The exhaustive search keeps the candidate `array<char>` and the
    `'s'`/`'r'`/`'d'` symbols.
  - The dynamic program fills an `array2<nat>` in place.
  - Both methods are proved to return `PathCount(g)`, so they agree.
- `ices_properties.dfy` (`IcesProperties`): consequences of the count.
  - A single cell has one path.
  - A blocked destination has none.
  - An open rectangle has `(i + j)! / (i! j!)` paths to `(i, j)`, for
    example 6 for an open 3 by 3 grid.
  - A wall of icebergs blocks every path; a gap in it lets one through.
  - Adding icebergs never adds paths.
- `ices_findings.dfy` (`IcesFindings`): the three defects of the exhaustive
  search as written (see "## Findings").

The exhaustive search is one C++ function. In the model it is the mask
loop `IcebergAvoidingExhaustive` plus two methods for its two inner phases:
`BuildCandidate` (lines 44-57) and `WalkCandidate` (lines 58-86). The
source's running `count` index starts at 0 for each mask and ends at
`steps + 1`. `BuildCandidate` returns that value.

The model follows the intended behaviour where the code has a defect:
- masks come from the half-open range `[0, 2^steps)`;
- the candidate buffer holds `steps + 1` characters;
- the move loop runs `j < steps`.

The code as written is modelled beside the corrected version in
`IcesFindings`.

## Model

| member | source | states |
|---|---|---|
| `IcesAlgs.IcebergAvoidingExhaustive` | ices_algs.hpp:29-91 | For a non-empty grid with `steps < 64`, the result is the number of masks below `2^steps` whose decoded walk is legal. That number is at most `2^steps`, and it equals the number of legal right/down paths from corner to corner. |
| `IcesAlgs.BuildCandidate` | ices_algs.hpp:44-57 | The candidate holds `'s'` at position 0, then `'r'` or `'d'` at position `t + 1` for move `t` of the mask. It has written `steps + 1` characters. |
| `IcesAlgs.WalkCandidate` | ices_algs.hpp:58-86 | Walks the candidate from `(0, 0)`, stopping at the first move `may_step` refuses. It reports valid exactly when the moves walk legally. |
| `IcesAlgs.WalkOneMore` | ices_algs.hpp:62-81 | Each move goes one cell on from where the previous moves ended, right for `'r'` and down for `'d'`. A prefix stays legal exactly when the cell that move reaches is allowed. |
| `IcesAlgs.NoLegalExtension` | ices_algs.hpp:67-79 | Once one move is refused, the whole candidate cannot be legal. So breaking out at the first refusal loses no path. |
| `IcesAlgs.IcebergAvoidingDynProg` | ices_algs.hpp:97-155 | For a non-empty grid, the result is the bottom-right entry of the row-major table, and it equals the number of legal paths from corner to corner. |
| `IcesAlgs.ExhaustiveAgreesWithDynProg` | ices_algs.hpp:21-29 | The exhaustive count equals the bottom-right table entry on every non-empty grid. |
| `IcesMasks.DecodeAt` | ices_algs.hpp:46-56 | Move `j` of a decoded mask is right exactly when `(i >> j) & 1` is 1, and down otherwise. |
| `IcesMasks.DecodeEncode` | ices_algs.hpp:43-56 | Every sequence of `n` moves is the decoding of its encoding. |
| `IcesMasks.EncodeDecode` | ices_algs.hpp:43-56 | Every mask below `2^n` is the encoding of its decoding, so distinct masks describe distinct candidates. |
| `IcesMasks.EncodeBound` | ices_algs.hpp:43 | Every sequence of `n` moves is encoded by a mask below `2^n`, so the half-open range covers all candidates. |
| `IcesMasks.DecodingsCard` | ices_algs.hpp:43-56 | A set of masks below `2^n` decodes to exactly as many distinct move sequences. |
| `IcesMasks.ValidMasksCountNext` | ices_algs.hpp:84-86 | Looking at one more mask raises the count by one exactly when that mask's walk is legal. |
| `IcesMasks.ValidMasksBound` | ices_algs.hpp:43 | No more masks are counted than were enumerated. |
| `IcesMasks.MaskCountedIff` | ices_algs.hpp:46-86 | A mask is counted if and only if it is below `2^steps` and every move it describes lands where `may_step` holds. Bit `j` set means move `j` is right. |
| `IcesMasks.CountedMaskIsPath` | ices_algs.hpp:58-86 | Every counted mask decodes to a legal path to the bottom-right corner. |
| `IcesMasks.PathIsCountedMask` | ices_algs.hpp:43-86 | Every legal path to the corner is the decoding of a counted mask. |
| `IcesMasks.MasksCountPaths` | ices_algs.hpp:43-90 | The number of counted masks is the number of legal corner-to-corner paths. |
| `IcesPaths.CompletedWalkEndsAtCorner` | ices_algs.hpp:58-82 | A legal walk of all `steps` moves makes exactly `columns - 1` right and `rows - 1` down moves. So it ends in the bottom-right cell, with no end test needed. |
| `IcesPaths.EndOfCountsMoves` | ices_algs.hpp:58-82 | A walk ends as many rows down as it has down moves and as many columns right as it has right moves. |
| `IcesPaths.WalksEveryMove` | ices_algs.hpp:62-82 | A walk is legal exactly when every move lands on a cell where `may_step` holds. The start cell is not tested. |
| `IcesPaths.WalksPrefix` | ices_algs.hpp:62-82 | Every prefix of a legal walk is legal. |
| `IcesPaths.StartHasOnePath` | ices_algs.hpp:119-120 | The start cell has exactly one path, the empty one, whether or not it holds an iceberg. |
| `IcesPaths.IcebergHasNoPaths` | ices_algs.hpp:124-125 | No path ends on an iceberg other than the start cell. |
| `IcesPaths.PathsSplit` | ices_algs.hpp:128-150 | Every path to an open non-start cell arrives from above or from the left, never both, and every such extension is a path. |
| `IcesPaths.PathsSplitInto` | ices_algs.hpp:131-139 | A path to a non-start cell is a path to the cell above followed by a down move, or a path to the cell on the left followed by a right move. |
| `IcesPaths.PathsSplitFrom` | ices_algs.hpp:141-148 | A path to the cell above or on the left, followed by the move onto an open cell, is a path to that cell. |
| `IcesTable.TableEntryCountsPaths` | ices_algs.hpp:115-152 | Table entry `(i, j)` is the number of legal paths to `(i, j)`. The explicit zero tests and the both-zero branch give the plain sum of the neighbours. |
| `IcesTable.CornerEntryIsPathCount` | ices_algs.hpp:154 | The returned bottom-right entry is the number of legal corner-to-corner paths. |
| `IcesProperties.OneByOneHasOnePath` | ices_algs.hpp:119-120 | A one-cell grid has exactly one path, whatever the cell holds. |
| `IcesProperties.BlockedDestinationHasNoPaths` | ices_algs.hpp:124-125 | When the bottom-right cell of a larger grid is an iceberg, there is no path. |
| `IcesProperties.OpenEdgeHasOnePath` | ices_algs.hpp:128-150 | In an open grid, every cell of the top row and of the left column has exactly one path. |
| `IcesProperties.OpenGridBinomial` | ices_algs.hpp:115-152 | In an open grid, entry `(i, j)` times `i! j!` is `(i + j)!`. That is, the entry is the binomial coefficient. |
| `IcesProperties.OpenGridPathCount` | ices_algs.hpp:93-97 | An open `rows` by `columns` grid has `(rows + columns - 2)! / ((rows - 1)! (columns - 1)!)` paths. |
| `IcesProperties.ThreeByThreeOpenHasSixPaths` | ices_algs.hpp:93-97 | An open 3 by 3 grid has 6 paths. |
| `IcesProperties.WallOfIcebergs` | ices_algs.hpp:93-97 | In 2 rows by 3 columns, a blocked middle column leaves 0 paths. With a gap at its top, 1 path remains. |
| `IcesProperties.WalksWithFewerIcebergs` | ices_algs.hpp:62-82 | A walk that is legal with more icebergs is legal with fewer. |
| `IcesProperties.MoreIcebergsNeverMorePaths` | ices_algs.hpp:21-29 | Adding icebergs never increases the number of paths. |
| `IcesFindings.InclusiveBoundCountsAllDownTwice` | ices_algs.hpp:43 | With the inclusive bound `i <= 2^steps`, the count is the true path count plus one more whenever the all-down walk is legal. |
| `IcesFindings.ExtraMaskIsZeroMask` | ices_algs.hpp:43-56 | The extra mask `2^steps` decodes to the same all-down walk as mask 0. |
| `IcesFindings.AllDownWalkNeedsOneColumn` | ices_algs.hpp:43 | The all-down walk, and so the double count, is legal only in a grid of one column. |
| `IcesFindings.InclusiveBoundDoubleCounts` | ices_algs.hpp:43 | An open 2 by 1 grid has 1 path, but the search as written counts 2. |
| `IcesFindings.CandidateBufferOneShort` | ices_algs.hpp:39 | The buffer `candidate[steps]` receives the last move at position `steps`, one past its end. `steps + 1` characters hold every move. |
| `IcesFindings.SingleCellMoveBoundWraps` | ices_algs.hpp:46 | For a 1 by 1 grid, `steps - 1` wraps to `2^64 - 1` as a `size_t`. No 32-bit `unsigned int` counter exceeds that, so the move loop does not end. |
| `IcesFindings.SingleCellCountsOne` | ices_algs.hpp:46 | With the bound `j < steps`, a 1 by 1 grid counts exactly its one, empty, candidate. |

## Findings

| source | as written | input that shows it | evidently intended | confidence | as-written member | corrected member |
|---|---|---|---|---|---|---|
| ices_algs.hpp:43 | `for(int i = 0; i <= pow(2.0, steps); i++)` enumerates `2^steps + 1` masks. The extra mask `2^steps` decodes like mask 0, so a legal all-down walk is counted twice. | A 2 by 1 grid with both cells open: the count is 2, but there is 1 path. | Enumerate the half-open range `[0, 2^steps)`. | not executed | `IcesFindings.InclusiveBoundDoubleCounts` | `IcesAlgs.IcebergAvoidingExhaustive` |
| ices_algs.hpp:39 | `char candidate[steps]` holds `steps` characters. Lines 44-56 write `steps + 1` of them: the start marker and one per move. | Any grid with at least one move, for example 1 by 2: position 1 is written into a buffer of length 1. | A buffer of `steps + 1` characters. | not executed | `IcesFindings.CandidateBufferOneShort` | `IcesAlgs.BuildCandidate` |
| ices_algs.hpp:46 | `j <= steps - 1` with `steps` a `size_t`. For `steps == 0` the bound wraps to `2^64 - 1`, so the 32-bit counter `j` never reaches it. | A 1 by 1 grid. | Run the move loop `j < steps`, so a single cell has one empty candidate and the count is 1. | not executed | `IcesFindings.SingleCellMoveBoundWraps` | `IcesFindings.SingleCellCountsOne` |

## Left out

- The loop bound `pow(2.0, steps)` is a floating-point value. The model uses the integer `2^steps` (`Pow2`).
- Machine integers are not modelled; every count, index and table entry is a `nat`. As written in the source:
  - `int i` and `i >> j` overflow once `steps` reaches 31;
  - the result is an `unsigned int`;
  - the table holds `unsigned` entries;
  - the `int from_above`/`from_left` temporaries can overflow for large counts.
- The fixed table `DIM = 100` (lines 103-104) is not modelled. The model's table is sized exactly `rows` by `columns`, so grids larger than 100 in either dimension are covered too. The vector-of-vectors allocation is not modelled.
- The copy `grid G(setting)` (line 106) is not modelled, because the grid is read-only. The model reads the grid value directly.
- `ices_types.hpp` is not part of this model. The grid's construction, its loading from text and its printing are not modelled. The model's grid is only its dimensions, the cells behind `get` and `may_step`. The rectangular shape every constructed grid has is stated as `WellFormed()`.
- The `assert` checks (lines 32-37, 100-101) are not modelled as aborts. They are preconditions: a non-empty grid, and `steps < 64` for the exhaustive search.
- The start marker `'s'` is written but never read by the walk, which starts at position 1. The model writes it and proves it is in place.
- Determinism is not a separate lemma. Both methods use no hidden state, and their results are fixed by `PathCount(g)`.
