# Connect Four engine, modelled in Dafny

This project models the game engine of a browser Connect Four game
(`script.js`, lines 8–191). The engine has four parts:

- **The line catalogue.** `generateRowMasks` builds `rowMasks`, the 69 masks
  of four cells in a row on the 7×6 grid. There are 21 vertical,
  24 horizontal, 12 rising and 12 falling masks.
- **The `Board` class.** It holds two BigInt bitboards, one per player, and a
  turn flag. Its methods are:
  - `getWinner`: scans the catalogue, player 1 first.
  - `isFull`: compares the union of the two bitboards with `0x3ffffffffff`.
  - `getTop`: finds the lowest empty cell of a column.
  - `placeDisc`: drops a disc for the player that `flags & 1` names.
- **The positional evaluation.** `distributionEval` is a table of 42 cell
  weights. `evalDiscDistribution` subtracts player 2's total weight from
  player 1's.
- **The computer player.** `minimax` is a depth-limited minimax with fail-soft
  alpha-beta pruning. It scans the columns from 6 down to 0.

The model is split into five files:

- `bits.dfy` (module `Bits`): models a bitboard as the set of its 1 bits. `|`
  is union, `&` is intersection and `<<` is `Shift`. The numeric value used by
  `isFull` is `ValueBelow`.
- `lines.dfy` (module `Lines`): the catalogue.
  - `GenerateRowMasks` keeps the source's four loop nests and its bit
    patterns. Its result is proved equal to `RowMasks()`, a catalogue given by
    geometry (start cell and direction).
  - Separate lemmas prove that a catalogue mask lies inside a bitboard exactly
    when the bitboard has four discs in a straight line (`HasFour`).
- `board.dfy` (module `Boards`): positions and the `Board` class.
  - The spec functions are `Winner`, `IsFull`, `Top` and `Drop`.
  - `GetWinner`, `GetTop` and `PlaceDisc` keep the source's loops. Each is
    proved against its spec function.
- `evaluation.dfy` (module `Evaluation`): the weight table, the score
  `DiscScore`, and the two-loop method `EvalDiscDistribution`.
- `search.dfy` (module `Search`): the search.
  - `Search` is the unpruned minimax outcome. It visits columns in the
    engine's order and breaks ties the same way.
  - `Minimax`, `MaxNode`, `MinNode` and `Explore` are the pruned method the
    engine runs on `Board` objects.
  - When `alpha < beta`, `Minimax` is proved to return a fail-soft bound on
    `Search`. The bound is exact, move included, inside the window. For the
    full window `(-Infinity, Infinity)` it equals `Search`.

The model numbers cells as in the source. Cell (col, row) is bit
`col + 7 * row`, with row 0 at the bottom. The page draws bit column c as
screen column 6 − c. This is why the source's comments call the stride-8
diagonal "downward" and the stride-6 diagonal "upward": seen on the board,
they are the model's `Diagonal` (up and to the right) and `AntiDiagonal`
(up and to the left).

## Model

| member | source | states |
|---|---|---|
| Bits.Shift | script.js:12 | `m << k` holds bit j exactly when j ≥ k and m holds bit j − k |
| Bits.ValueBelowMax | script.js:62 | n bits are worth at most 2^n − 1, and exactly 2^n − 1 iff all n bits are set |
| Bits.ValueBelowAdd | script.js:85 | `b \|= 1 << k` for an absent bit k raises the BigInt's value by 2^k |
| Lines.PatternValues | script.js:12-29 | the bit sets of the four patterns are the BigInts `0x204081`, `0xf`, `0x1010101` and `0x208208` |
| Bits.FourValue | script.js:12-29 | a four-bit BigInt is worth the sum of its four powers of two |
| Lines.GenerateRowMasks | script.js:8-33 | the four loop nests, pushing each pattern shifted to each start, return the catalogue in its push order: 21 vertical, 24 horizontal, 12 + 12 diagonal lines |
| Lines.VerticalStep | script.js:11-13 | `0x204081 << i` for i < 21 is the vertical line starting at cell i (column i % 7, row i / 7) |
| Lines.HorizontalStep | script.js:15-19 | `0xf << (i + 7y)` for i < 4 and y < 6 is the horizontal line from (i, y) |
| Lines.DiagonalStep | script.js:21-25 | `0x1010101 << (j + 7i)` is the line rising to the right from (j, i) |
| Lines.AntiDiagonalStep | script.js:27-31 | `0x208208 << (j + 7i)` is the line rising to the left from (j + 3, i) |
| Lines.RowMasks | script.js:35 | the constant `rowMasks`: 69 masks, entry k the mask of the k-th line in push order; RowMaskShape, RowMasksDistinct and RowMasksComplete give its shape |
| Lines.RowMaskShape | script.js:8-35 | every mask of `rowMasks` has exactly four bits, all below 42 |
| Lines.RowMasksDistinct | script.js:8-35 | the 69 masks are pairwise different |
| Lines.RowMasksComplete | script.js:8-35 | every four-cell line on the grid appears in `rowMasks` |
| Lines.IndexOfLineAt | script.js:8-35 | each line of the catalogue lies on the grid and has a unique catalogue position |
| Lines.MaskCells | script.js:8-35 | a line's mask is inside a bitboard iff the bitboard holds that line's four cells; masks never wrap from one row to the next |
| Lines.CoveredIffHasFour | script.js:45-58 | some mask of `rowMasks` is inside b iff b has four discs in a row horizontally, vertically or diagonally |
| Boards.Covers | script.js:47-51 | the scan finds a mask with `(b & m) === m` iff one exists |
| Boards.Winner | script.js:45-58 | 1 iff player 1 has four in a row; −1 iff player 1 has not and player 2 has; 0 iff neither (player 1 is checked first) |
| Boards.Board.GetWinner | script.js:45-58 | the two scanning loops return `Winner` of the board |
| Boards.IsFull | script.js:61-63 | on a board with no bit above 41: full iff all 42 cells are occupied |
| Boards.IsFullIsComparison | script.js:62 | `IsFull` is exactly `(b1 \| b2) >= 0x3ffffffffff` on the BigInt value, for every width that holds the bits |
| Boards.LowestEmptyRow | script.js:68-74 | the scan up a column returns the first empty row at or above its start, or none when all of those cells are occupied |
| Boards.Top | script.js:66-75 | undefined iff the column is full; otherwise a value in 1..6 such that row 6 − value is the column's lowest empty cell |
| Boards.Board.GetTop | script.js:66-75 | the shifting-mask loop returns `Top` of the board |
| Boards.LowestEmptyUnique | script.js:66-75 | a column has at most one lowest empty cell |
| Boards.OpenColumn | script.js:61-75 | a board that is not full has a column whose `getTop` is defined |
| Boards.FullIffNoMove | script.js:61-75 | on a board with no bit above 41: full iff no column's `getTop` is defined |
| Boards.Drop | script.js:78-99 | the effect of `placeDisc`: the position changes iff the column is not full; discs are only added, and only to the mover's bitboard (DropSetsLowestEmpty: exactly the lowest empty cell) |
| Boards.DropSetsLowestEmpty | script.js:78-99 | placing a disc on a full column changes nothing; otherwise it sets exactly the column's lowest empty cell in the mover's bitboard and leaves the other bitboard alone |
| Boards.DropPreservesValid | script.js:78-99 | placing a disc keeps the bitboards disjoint, within bits 0..41 and without floating discs |
| Boards.DropLowersTop | script.js:66-99 | on a board without floating discs, a disc placed in a column lowers its `getTop` by one, and makes it undefined when it was 1 |
| Boards.ReplayValid | script.js:78-99 | every position reached from the empty starting board by drops into columns 0..6 is valid: disjoint, within bits 0..41 and without floating discs |
| Boards.Board.PlaceDisc | script.js:78-99 | the board becomes `Drop` of the old position for the player that `flags & 1` selects; the flags are unchanged |
| Boards.Board.constructor | script.js:38-42 | the new board holds the given bitboards and flags |
| Evaluation.DistributionEval | script.js:103-110 | the table of 42 weights: six copies of the row 10, 15, 20, 22, 20, 15, 10 (RowRepeats, WeightsByColumn) |
| Evaluation.RowRepeats | script.js:103-110 | the table has 42 entries, and the entry of (col, row) equals the row's weight for col and the bottom row's entry |
| Evaluation.WeightsByColumn | script.js:103-110 | a cell's weight depends only on its column, is the same for columns c and 6 − c, grows towards the centre and lies in 10..22 |
| Evaluation.ColumnProfile | script.js:104 | the weights of one row are symmetric, grow towards column 3 and lie in 10..22 |
| Evaluation.Weight | script.js:114-124 | the sum the loops build: the weights of b's cells among cells 0..n − 1, between 0 and 22·n (WeightAdd and WeightRange relate it to other bitboards) |
| Evaluation.WeightRange | script.js:113-126 | a bitboard's total weight lies between 0 and the weight of the full grid |
| Evaluation.GridWeight | script.js:103-110 | the full grid weighs 112 per row, 672 in total |
| Evaluation.DiscScore | script.js:113-126 | the weighted difference of the two players' cells never exceeds 672 in either direction |
| Evaluation.EvalDiscDistribution | script.js:113-126 | the two loops return player 1's weight minus player 2's weight (`DiscScore`) |
| Evaluation.WeightAdd | script.js:115-119 | a new cell adds exactly its own weight to the total |
| Evaluation.DropScore | script.js:78-126 | a disc placed in column x changes the evaluation by that column's weight: up for player 1, down for player 2 |
| Search.Score.Max | script.js:155 | `Math.max` returns an upper bound of both arguments that is one of them |
| Search.Score.Min | script.js:180 | `Math.min` returns a lower bound of both arguments that is one of them |
| Search.LtOrder | script.js:149 | `<` on numbers with ±Infinity is a strict total order: irreflexive, total and transitive |
| Search.Leaf | script.js:133-134 | the leaf value, 100·winner + evaluation ∓ depth, lies within ±(772 + depth) |
| Search.Terminal | script.js:133 | a node is a leaf iff the depth is 0, either player has four in a row, or the board is full |
| Search.CanPlayIsTopPositive | script.js:141 | the legality test `getTop(i) > 0` holds iff column i has an empty cell |
| Search.Column | script.js:140-146 | a column has a value iff it can be played, and that value is finite and within ±(772 + depth) |
| Search.ChildAt | script.js:140-146 | column c's entry is the search of the position after placing a disc in c, or nothing for a full column |
| Search.Pick | script.js:140-152 | the scan of the column values from 6 down, replacing the best only on strict improvement; unless it keeps its starting infinity, its move indexes an entry holding its value (PickFound, PickBest and PickHighestTie state the rest) |
| Search.PickFound | script.js:140-160 | the scan of column values finds a finite best value at a playable column when one exists |
| Search.PickBest | script.js:149-152 | no column has a strictly better value than the one the scan keeps |
| Search.PickHighestTie | script.js:149-152 | among equally good columns the scan keeps the highest index, because it replaces the best only on strict improvement and visits 6 down to 0 |
| Search.Search | script.js:129-191 | the unpruned outcome is finite and bounded; at a leaf it is the leaf formula with move −1; otherwise its move is a playable column |
| Search.SearchIsBestChild | script.js:136-185 | the chosen move reaches the node's value, no playable column is better for the side to move, and ties go to the highest column |
| Search.MaxVisit | script.js:146-158 | one examined child keeps the maximizing loop's invariant, or, on a cut-off, leaves a fail-soft lower bound |
| Search.MinVisit | script.js:171-183 | the same for the minimizing loop, with an upper bound on a cut-off |
| Search.MaxSkip | script.js:140-141 | a full column leaves the maximizing loop's invariant intact |
| Search.MinSkip | script.js:165-166 | a full column leaves the minimizing loop's invariant intact |
| Search.MaxDone | script.js:140-160 | a maximizing loop that ends without a cut-off returns the exact best value and move when they lie in the window, and a bound otherwise |
| Search.MinDone | script.js:165-185 | the same for the minimizing loop |
| Search.Cutoff | script.js:155-158 | a cut-off result outside the window is a fail-soft bound on the node's true value: at or above beta it is a lower bound, at or below alpha an upper bound |
| Search.MaxNode | script.js:136-160 | the maximizing branch returns a playable move and a fail-soft bound on the best child value, exact with its move inside the window |
| Search.MinNode | script.js:161-185 | the minimizing branch, the same with the roles of the bounds swapped |
| Search.Explore | script.js:142-146 | a hypothetical board with the mover's flag gets the disc and is searched by the other side; the result is a fail-soft bound on that child's value |
| Search.Minimax | script.js:129-191 | does not modify the caller's board (no modifies clause); returns a finite value; at a leaf, the leaf formula with move −1; otherwise a playable move; for alpha < beta a fail-soft bound on the unpruned value, exact with its move inside the window; for the full window exactly the unpruned outcome |

## Left out

- The page is not modelled: the canvas drawing, the mouse handlers, the
  score, the reset buttons and the game loop (script.js:193-355). This
  includes the turn swap `flags ^= 1` and the root call
  `placeDisc(minimax(gameBoard, false, 6, -Infinity, Infinity)[1])`.
  Only the pieces that call into the engine are reflected, as preconditions
  on column numbers.
- BigInt bitboards are modelled as sets of bit positions. This covers every
  non-negative BigInt; the engine never builds a negative one.
- JavaScript numbers in the search are modelled as integers plus the two
  infinities (`Score`). Every finite value the search produces is an integer
  of magnitude at most 772 + depth. Floating-point rounding therefore never
  arises and is not modelled.
- `flags & 1` is modelled as `flags % 2 == 1`. On two's-complement integers
  the two agree for every sign, so the model does not limit `flags` to 32
  bits.
- Boards.Board.GetTop: requires a column 0 ≤ x < 7. In the source, x ≥ 7
  starts the scan in a higher row of another column. A negative x gives the
  mask `0n`, so `getTop` returns 6. The page and minimax only ask about
  columns of the grid.
- Boards.Board.PlaceDisc: requires 0 ≤ x < 7, but the page can pass other
  values. The click handler calls `placeDisc(6 - selectedColumn)`
  (script.js:248), and `selectedColumn` is −1 whenever the pointer is above
  or below the grid (script.js:239). A click there calls `placeDisc(7)`.
  A pointer left or right of the grid can also give a `selectedColumn`
  outside 0..6 (script.js:237).
  - For x ≥ 7 the source scans bits x, x + 7, …, x + 35: column x % 7
    upwards from row x / 7. It sets the first empty one. With x = 7 this
    either leaves a floating disc at (0, 1) above an empty (0, 0), or sets
    bit 42, after which `isFull` holds.
  - For x < 0 the mask is `0n` and nothing changes. This includes
    `placeDisc(-1)`, which the page calls when minimax returns move −1 at
    the root.
  - None of these calls is modelled.
- Boards.DropPreservesValid: covers drops into columns 0..6 only, so it
  says nothing about the `placeDisc(7)` call above. The same holds for
  Boards.ReplayValid.
- Boards.Top: the source returns `undefined` for a full column. The model
  returns `None`.
- Search.Minimax: at a leaf with depth > 0 the source calls `getWinner`
  twice, once in the test and once in the formula (script.js:133-134). At
  depth 0, `depth === 0` short-circuits the test, so it is called once. The
  model calls it once in both cases. That gives the same value, because
  `getWinner` has no side effects.
- Search.Minimax: for an empty window (alpha ≥ beta) the contract gives only
  the finiteness, leaf and legal-move facts. The source then stops after the
  first playable column. No call in the engine uses such a window.
