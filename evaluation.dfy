// The positional evaluator: a weighted count of each player's cells.
module Evaluation {
  import opened Bits
  import opened Lines
  import opened Boards

  /** One row of distributionEval: the weight of each column. */
  const RowWeights: seq<int> := [10, 15, 20, 22, 20, 15, 10]

  /**
   * distributionEval: the weight of each cell, bottom row first. script.js
   * spells out all 42 entries; its six rows are identical.
   */
  const DistributionEval: seq<int> :=
    RowWeights + RowWeights + RowWeights + RowWeights + RowWeights + RowWeights

  /** Every row of the table repeats the bottom row. */
  lemma RowRepeats(col: nat, row: nat)
    requires col < 7 && row < 6
    ensures |DistributionEval| == 42
    ensures DistributionEval[col + 7 * row] == RowWeights[col] == DistributionEval[col]
  {
  }

  /**
   * The weights depend only on the column, are the same for columns c and
   * 6 - c, grow towards the centre column 3 and lie between 10 and 22.
   */
  lemma WeightsByColumn(col: nat, row: nat)
    requires col < 7 && row < 6
    ensures |DistributionEval| == 42
    ensures DistributionEval[CellIndex(col, row)] == DistributionEval[col]
    ensures DistributionEval[col] == DistributionEval[6 - col]
    ensures col < 3 ==> DistributionEval[col] < DistributionEval[col + 1]
    ensures 10 <= DistributionEval[col] <= 22
  {
    RowRepeats(col, row);
    ColumnProfile(col);
  }

  /** The bottom row: symmetric, growing towards the centre, between 10 and 22. */
  lemma ColumnProfile(col: nat)
    requires col < 7
    ensures |DistributionEval| == 42
    ensures DistributionEval[col] == DistributionEval[6 - col]
    ensures col < 3 ==> DistributionEval[col] < DistributionEval[col + 1]
    ensures 10 <= DistributionEval[col] <= 22
  {
    RowRepeats(col, 0);
    RowRepeats(6 - col, 0);
    if col < 3 {
      RowRepeats(col + 1, 0);
    }
  }

  /** The total weight of the cells of b among cells 0..n-1. */
  function Weight(b: Bitboard, n: nat): (w: int)
    requires n <= 42
    ensures 0 <= w <= 22 * n
  {
    if n == 0 then 0
    else
      WeightsByColumn((n - 1) % 7, (n - 1) / 7);
      Weight(b, n - 1) + (if n - 1 in b then DistributionEval[n - 1] else 0)
  }

  const AllCells: Bitboard := set i: nat | i < 42

  /** No bitboard weighs less than 0 or more than the whole grid. */
  lemma {:induction false} WeightRange(b: Bitboard, n: nat)
    requires n <= 42
    ensures 0 <= Weight(b, n) <= Weight(AllCells, n)
  {
    if n > 0 {
      WeightRange(b, n - 1);
      WeightsByColumn((n - 1) % 7, (n - 1) / 7);
    }
  }

  /** Cell (col, row) of the full grid adds the weight of column col. */
  lemma CellStep(col: nat, row: nat)
    requires col < 7 && row < 6
    ensures Weight(AllCells, CellIndex(col, row) + 1) == Weight(AllCells, CellIndex(col, row)) + DistributionEval[col]
  {
    RowRepeats(col, row);
    assert CellIndex(col, row) in AllCells;
  }

  /** The first c cells of the bottom row weigh the c-th running total of the weights. */
  lemma {:induction false} BottomRowWeight(c: nat)
    requires c <= 7
    ensures Weight(AllCells, c) == [0, 10, 25, 45, 67, 87, 102, 112][c]
  {
    if c > 0 {
      BottomRowWeight(c - 1);
      CellStep(c - 1, 0);
      WeightsByColumn(c - 1, 0);
    }
  }

  /** Columns 0 to c - 1 of a row of the full grid. */
  lemma {:induction false} RowPrefix(row: nat, c: nat)
    requires row < 6 && c <= 7
    ensures Weight(AllCells, 7 * row + c) == Weight(AllCells, 7 * row) + Weight(AllCells, c)
  {
    if c > 0 {
      RowPrefix(row, c - 1);
      CellStep(c - 1, row);
      CellStep(c - 1, 0);
    }
  }

  /** The whole grid weighs 6 * 112 = 672. */
  lemma {:induction false} GridWeight(rows: nat)
    requires rows <= 6
    ensures Weight(AllCells, 7 * rows) == 112 * rows
  {
    if rows > 0 {
      GridWeight(rows - 1);
      RowPrefix(rows - 1, 7);
      BottomRowWeight(7);
    }
  }

  /**
   * The score of evalDiscDistribution: player 1's weight minus player 2's,
   * so never more than 672 in either direction.
   */
  function DiscScore(pos: Position): (s: int)
    ensures -672 <= s <= 672
  {
    WeightRange(pos.player1, 42);
    WeightRange(pos.player2, 42);
    GridWeight(6);
    Weight(pos.player1, 42) - Weight(pos.player2, 42)
  }

  /** evalDiscDistribution: two passes over the 42 cells, adding, then subtracting. */
  method EvalDiscDistribution(board: Board) returns (eval: int)
    ensures eval == DiscScore(board.Pos())
  {
    eval := 0;
    for i := 0 to 42
      invariant eval == Weight(board.bitboardPlayer1, i)
    {
      if i in board.bitboardPlayer1 {
        eval := eval + DistributionEval[i];
      }
    }
    for i := 0 to 42
      invariant eval == Weight(board.bitboardPlayer1, 42) - Weight(board.bitboardPlayer2, i)
    {
      if i in board.bitboardPlayer2 {
        eval := eval - DistributionEval[i];
      }
    }
  }

  /** A new cell k adds exactly its own weight. */
  lemma {:induction false} WeightAdd(b: Bitboard, k: nat, n: nat)
    requires k < n <= 42 && k !in b
    ensures Weight(b + {k}, n) == Weight(b, n) + DistributionEval[k]
  {
    if n - 1 > k {
      WeightAdd(b, k, n - 1);
    } else {
      WeightSame(b, b + {k}, n - 1);
    }
  }

  lemma {:induction false} WeightSame(a: Bitboard, b: Bitboard, n: nat)
    requires n <= 42 && forall i :: 0 <= i < n ==> (i in a <==> i in b)
    ensures Weight(a, n) == Weight(b, n)
  {
    if n > 0 {
      WeightSame(a, b, n - 1);
    }
  }

  /**
   * A disc dropped into column x moves the score by that column's weight:
   * up for player 1, down for player 2.
   */
  lemma DropScore(pos: Position, playerOne: bool, x: nat)
    requires x < 7 && Top(pos, x).Some?
    ensures DiscScore(Drop(pos, playerOne, x)) ==
      DiscScore(pos) + (if playerOne then DistributionEval[x] else -DistributionEval[x])
  {
    var row: nat := 6 - Top(pos, x).value;
    var cell := CellIndex(x, row);
    DropSetsLowestEmpty(pos, playerOne, x, row);
    WeightsByColumn(x, row);
    if playerOne {
      WeightAdd(pos.player1, cell, 42);
    } else {
      WeightAdd(pos.player2, cell, 42);
    }
  }
}
