// The board: two player bitboards and a turn flag.
//
// What the board's queries and its one update mean is stated on a Position
// value (the two bitboards): Winner, IsFull, Top and Drop. The Board class
// holds the engine's mutable object; its methods getWinner, getTop and
// placeDisc keep the scanning loops and are proved against those functions.
// isFull is a single comparison and is the function IsFull.
module Boards {
  import opened Bits
  import opened Lines

  datatype Option<T> = None | Some(value: T)

  /** The discs of player 1 and of player 2. */
  datatype Position = Position(player1: Bitboard, player2: Bitboard)
  {
    /** `bitboardPlayer1 | bitboardPlayer2` */
    function Occupied(): Bitboard
    {
      player1 + player2
    }
  }

  /** No cell belongs to both players. */
  ghost predicate Disjoint(pos: Position)
  {
    pos.player1 * pos.player2 == {}
  }

  /** No bit above 41 is set. */
  ghost predicate OnBoard(pos: Position)
  {
    forall i :: i in pos.Occupied() ==> i < 42
  }

  /** No disc floats: under every occupied cell above row 0 there is a disc. */
  ghost predicate Gravity(pos: Position)
  {
    forall col: nat, row: nat :: col < 7 && 0 < row < 6 && CellIndex(col, row) in pos.Occupied() ==>
      CellIndex(col, row - 1) in pos.Occupied()
  }

  /** The invariants every board reached by play keeps. */
  ghost predicate Valid(pos: Position)
  {
    Disjoint(pos) && OnBoard(pos) && Gravity(pos)
  }

  // ---------------------------------------------------------------- getWinner

  /** Some mask m of masks has `(b & m) == m`. */
  function Covers(b: Bitboard, masks: seq<Bitboard>): (r: bool)
    ensures r <==> exists k :: 0 <= k < |masks| && masks[k] <= b
  {
    if masks == [] then false
    else if masks[0] <= b then true
    else Covers(b, masks[1..])
  }

  /**
   * The result of getWinner: 1 when player 1 has four in a row, otherwise -1
   * when player 2 has, otherwise 0. Player 1 is checked first.
   */
  function Winner(pos: Position): (w: int)
    ensures w == 1 <==> HasFour(pos.player1)
    ensures w == -1 <==> !HasFour(pos.player1) && HasFour(pos.player2)
    ensures w == 0 <==> !HasFour(pos.player1) && !HasFour(pos.player2)
  {
    CoveredIffHasFour(pos.player1);
    CoveredIffHasFour(pos.player2);
    if Covers(pos.player1, RowMasks()) then 1
    else if Covers(pos.player2, RowMasks()) then -1
    else 0
  }

  // ------------------------------------------------------------------- isFull

  /**
   * isFull: `(bitboardPlayer1 | bitboardPlayer2) >= 0x3ffffffffff`. On the
   * bit set of a non-negative integer this reads: all of bits 0..41 are set,
   * or some bit above 41 is (IsFullIsComparison).
   */
  function IsFull(pos: Position): (r: bool)
    ensures OnBoard(pos) ==> (r <==> forall i :: 0 <= i < 42 ==> i in pos.Occupied())
  {
    (forall i :: 0 <= i < 42 ==> i in pos.Occupied()) || (exists i :: i in pos.Occupied() && i >= 42)
  }

  lemma Pow2FortyTwo()
    ensures Pow2(42) - 1 == 0x3ffffffffff
  {
    Pow2Seven();
    Pow2Add(7, 7);
    Pow2Add(14, 7);
    Pow2Add(21, 21);
  }

  /**
   * IsFull is the source's numeric comparison: for every bit width n that
   * holds the occupied bits, their value is at least 0x3ffffffffff exactly
   * when IsFull holds.
   */
  lemma IsFullIsComparison(pos: Position, n: nat)
    requires n >= 42 && Below(pos.Occupied(), n)
    ensures IsFull(pos) <==> ValueBelow(pos.Occupied(), n) >= 0x3ffffffffff
  {
    var occ := pos.Occupied();
    Pow2FortyTwo();
    ValueBelowMax(occ, 42);
    ValueBelowHighBit(occ, 42, n);
  }

  // ------------------------------------------------------------------- getTop

  /** Every cell of column x is occupied. */
  predicate ColumnFull(occ: Bitboard, x: nat)
  {
    forall row: nat :: row < 6 ==> CellIndex(x, row) in occ
  }

  /** (x, row) is the lowest empty cell of column x. */
  ghost predicate LowestEmpty(occ: Bitboard, x: nat, row: nat)
  {
    row < 6 && CellIndex(x, row) !in occ && forall j: nat :: j < row ==> CellIndex(x, j) in occ
  }

  /** The scan of getTop: the first empty row of column x at or above row `from`. */
  function LowestEmptyRow(occ: Bitboard, x: nat, from: nat): (r: Option<nat>)
    requires from <= 6
    ensures r.Some? ==> from <= r.value < 6 && CellIndex(x, r.value) !in occ &&
                        forall j: nat :: from <= j < r.value ==> CellIndex(x, j) in occ
    ensures r.None? ==> forall j: nat :: from <= j < 6 ==> CellIndex(x, j) in occ
    decreases 6 - from
  {
    if from == 6 then None
    else if CellIndex(x, from) in occ then LowestEmptyRow(occ, x, from + 1)
    else Some(from)
  }

  /**
   * The result of getTop: 6 - r for the lowest empty row r of column x, so a
   * value in 1..6; nothing (JavaScript's undefined) when the column is full.
   */
  function Top(pos: Position, x: nat): (r: Option<int>)
    requires x < 7
    ensures r.None? <==> ColumnFull(pos.Occupied(), x)
    ensures r.Some? ==> 1 <= r.value <= 6 && LowestEmpty(pos.Occupied(), x, 6 - r.value)
  {
    match LowestEmptyRow(pos.Occupied(), x, 0)
    case None => None
    case Some(row) => Some(6 - row)
  }

  /** The lowest empty cell of a column is unique. */
  lemma LowestEmptyUnique(occ: Bitboard, x: nat, r1: nat, r2: nat)
    requires LowestEmpty(occ, x, r1) && LowestEmpty(occ, x, r2)
    ensures r1 == r2
  {
  }

  /** A board that is not full has a column that takes a disc. */
  lemma OpenColumn(pos: Position) returns (col: nat)
    requires !IsFull(pos)
    ensures col < 7 && Top(pos, col).Some?
  {
    var i :| 0 <= i < 42 && i !in pos.Occupied();
    col := i % 7;
    assert CellIndex(col, i / 7) == i;
  }

  /** On a board without stray high bits, full means that no column takes a disc. */
  lemma FullIffNoMove(pos: Position)
    requires OnBoard(pos)
    ensures IsFull(pos) <==> forall col: nat :: col < 7 ==> Top(pos, col).None?
  {
    if IsFull(pos) {
      forall col: nat | col < 7 ensures Top(pos, col).None? {
        forall row: nat | row < 6 ensures CellIndex(col, row) in pos.Occupied() {
          assert CellIndex(col, row) < 42;
        }
      }
    } else {
      var col := OpenColumn(pos);
    }
  }

  // ---------------------------------------------------------------- placeDisc

  /** `flags & 1` is set: the disc goes to player 1. */
  predicate PlayerOneToMove(flags: int)
  {
    flags % 2 == 1
  }

  /**
   * The effect of placeDisc(x): the lowest empty cell of column x goes to
   * player 1 or to player 2; a full column leaves the position as it is.
   */
  function Drop(pos: Position, playerOne: bool, x: nat): (r: Position)
    requires x < 7
    ensures r == pos <==> ColumnFull(pos.Occupied(), x)
    ensures pos.player1 <= r.player1 && pos.player2 <= r.player2
    ensures if playerOne then r.player2 == pos.player2 else r.player1 == pos.player1
  {
    match LowestEmptyRow(pos.Occupied(), x, 0)
    case None => pos
    case Some(row) =>
      if playerOne then pos.(player1 := pos.player1 + {CellIndex(x, row)})
      else pos.(player2 := pos.player2 + {CellIndex(x, row)})
  }

  /**
   * Drop sets exactly one bit, the lowest empty cell of the column, in the
   * mover's bitboard and leaves the other bitboard alone; on a full column it
   * changes nothing.
   */
  lemma DropSetsLowestEmpty(pos: Position, playerOne: bool, x: nat, row: nat)
    requires x < 7
    ensures ColumnFull(pos.Occupied(), x) ==> Drop(pos, playerOne, x) == pos
    ensures LowestEmpty(pos.Occupied(), x, row) ==>
      CellIndex(x, row) !in pos.Occupied() &&
      Drop(pos, playerOne, x) ==
        if playerOne then Position(pos.player1 + {CellIndex(x, row)}, pos.player2)
        else Position(pos.player1, pos.player2 + {CellIndex(x, row)})
  {
    var r := LowestEmptyRow(pos.Occupied(), x, 0);
    if r.Some? && LowestEmpty(pos.Occupied(), x, row) {
      LowestEmptyUnique(pos.Occupied(), x, r.value, row);
    }
  }

  /** Drop keeps the two bitboards disjoint, inside bits 0..41 and free of gaps. */
  lemma DropPreservesValid(pos: Position, playerOne: bool, x: nat)
    requires x < 7 && Valid(pos)
    ensures Valid(Drop(pos, playerOne, x))
  {
    var occ := pos.Occupied();
    var r := LowestEmptyRow(occ, x, 0);
    if r.Some? {
      var row := r.value;
      var cell := CellIndex(x, row);
      var after := Drop(pos, playerOne, x);
      assert after.Occupied() == occ + {cell};
      forall col: nat, row': nat | col < 7 && 0 < row' < 6 && CellIndex(col, row') in after.Occupied()
        ensures CellIndex(col, row' - 1) in after.Occupied()
      {
        if CellIndex(col, row') == cell {
          CellIndexInjective(col, row', x, row);
          assert CellIndex(x, row - 1) in occ;
        }
      }
    }
  }

  /**
   * With gravity, a disc dropped into a column lowers its getTop by one, and
   * a column whose getTop was 1 is full afterwards.
   */
  lemma DropLowersTop(pos: Position, playerOne: bool, x: nat)
    requires x < 7 && Gravity(pos) && Top(pos, x).Some?
    ensures var t := Top(pos, x).value;
      Top(Drop(pos, playerOne, x), x) == if t == 1 then None else Some(t - 1)
  {
    var occ := pos.Occupied();
    var row: nat := 6 - Top(pos, x).value;
    var after := Drop(pos, playerOne, x);
    DropSetsLowestEmpty(pos, playerOne, x, row);
    assert after.Occupied() == occ + {CellIndex(x, row)};
    if row < 5 {
      assert CellIndex(x, row + 1) in occ ==> CellIndex(x, row) in occ;
      assert LowestEmpty(after.Occupied(), x, row + 1);
      LowestEmptyUnique(after.Occupied(), x, 6 - Top(after, x).value, row + 1);
    }
  }

  /**
   * The position after a sequence of moves, each a mover (true for player 1)
   * and a column, played from the empty board `new Board(0n, 0n, 1)`.
   */
  function Replay(moves: seq<(bool, nat)>): (pos: Position)
    requires forall i :: 0 <= i < |moves| ==> moves[i].1 < 7
    ensures |moves| == 0 ==> pos == Position({}, {})
  {
    if |moves| == 0 then Position({}, {})
    else
      var last := moves[|moves| - 1];
      Drop(Replay(moves[..|moves| - 1]), last.0, last.1)
  }

  /**
   * Every position reached by play is valid: the empty board is, and each
   * drop keeps it so.
   */
  lemma {:induction false} ReplayValid(moves: seq<(bool, nat)>)
    requires forall i :: 0 <= i < |moves| ==> moves[i].1 < 7
    ensures Valid(Replay(moves))
  {
    if |moves| > 0 {
      var last := moves[|moves| - 1];
      ReplayValid(moves[..|moves| - 1]);
      DropPreservesValid(Replay(moves[..|moves| - 1]), last.0, last.1);
    }
  }

  /** A game board: the two bitboards and the turn flag. */
  class Board {
    var bitboardPlayer1: Bitboard
    var bitboardPlayer2: Bitboard
    var flags: int

    constructor (board1: Bitboard, board2: Bitboard, flags: int)
      ensures bitboardPlayer1 == board1 && bitboardPlayer2 == board2 && this.flags == flags
    {
      bitboardPlayer1 := board1;
      bitboardPlayer2 := board2;
      this.flags := flags;
    }

    function Pos(): Position
      reads this
    {
      Position(bitboardPlayer1, bitboardPlayer2)
    }

    /**
     * getWinner: scans the line catalogue for a mask covered by player 1's
     * bitboard, then for one covered by player 2's.
     */
    method GetWinner() returns (w: int)
      ensures w == Winner(Pos())
    {
      var masks := RowMasks();
      for i := 0 to |masks|
        invariant forall k :: 0 <= k < i ==> !(masks[k] <= bitboardPlayer1)
      {
        if bitboardPlayer1 * masks[i] == masks[i] {
          return 1;
        }
      }
      for i := 0 to |masks|
        invariant forall k :: 0 <= k < i ==> !(masks[k] <= bitboardPlayer2)
      {
        if bitboardPlayer2 * masks[i] == masks[i] {
          return -1;
        }
      }
      return 0;
    }

    /**
     * getTop: scans column x from the bottom with a one-bit mask and returns
     * 6 - i for the first empty row i; nothing when the column is full.
     */
    method GetTop(x: nat) returns (top: Option<int>)
      requires x < 7
      ensures top == Top(Pos(), x)
    {
      var mask: Bitboard := {x};
      for i := 0 to 6
        invariant mask == {CellIndex(x, i)}
        invariant forall j: nat :: j < i ==> CellIndex(x, j) in Pos().Occupied()
      {
        if (bitboardPlayer1 + bitboardPlayer2) * mask != {} {
          assert CellIndex(x, i) in (bitboardPlayer1 + bitboardPlayer2) * mask;
          mask := Shift(mask, 7);
        } else {
          assert CellIndex(x, i) in mask && CellIndex(x, i) !in (bitboardPlayer1 + bitboardPlayer2) * mask;
          assert LowestEmpty(Pos().Occupied(), x, i);
          LowestEmptyUnique(Pos().Occupied(), x, i, 6 - Top(Pos(), x).value);
          return Some(6 - i);
        }
      }
      assert ColumnFull(Pos().Occupied(), x);
      return None;
    }

    /**
     * placeDisc: scans column x from the bottom with a one-bit mask and sets
     * the first empty cell in the bitboard chosen by `flags & 1`.
     */
    method PlaceDisc(x: nat)
      requires x < 7
      modifies this
      ensures Pos() == Drop(old(Pos()), PlayerOneToMove(old(flags)), x)
      ensures flags == old(flags)
    {
      var mask: Bitboard := {x};
      ghost var occ := Pos().Occupied();
      ghost var placed := false;
      if flags % 2 == 1 {
        for i := 0 to 6
          invariant mask == {CellIndex(x, i)} && !placed
          invariant Pos() == old(Pos())
          invariant forall j: nat :: j < i ==> CellIndex(x, j) in occ
        {
          if (bitboardPlayer1 + bitboardPlayer2) * mask != {} {
            assert CellIndex(x, i) in (bitboardPlayer1 + bitboardPlayer2) * mask;
            mask := Shift(mask, 7);
          } else {
            assert CellIndex(x, i) in mask && CellIndex(x, i) !in (bitboardPlayer1 + bitboardPlayer2) * mask;
            assert LowestEmpty(occ, x, i);
            DropSetsLowestEmpty(old(Pos()), true, x, i);
            bitboardPlayer1 := bitboardPlayer1 + mask;
            placed := true;
            break;
          }
        }
      } else {
        for i := 0 to 6
          invariant mask == {CellIndex(x, i)} && !placed
          invariant Pos() == old(Pos())
          invariant forall j: nat :: j < i ==> CellIndex(x, j) in occ
        {
          if (bitboardPlayer1 + bitboardPlayer2) * mask != {} {
            assert CellIndex(x, i) in (bitboardPlayer1 + bitboardPlayer2) * mask;
            mask := Shift(mask, 7);
          } else {
            assert CellIndex(x, i) in mask && CellIndex(x, i) !in (bitboardPlayer1 + bitboardPlayer2) * mask;
            assert LowestEmpty(occ, x, i);
            DropSetsLowestEmpty(old(Pos()), false, x, i);
            bitboardPlayer2 := bitboardPlayer2 + mask;
            placed := true;
            break;
          }
        }
      }
      if !placed {
        // every cell of the column was occupied
        assert ColumnFull(occ, x);
        DropSetsLowestEmpty(old(Pos()), PlayerOneToMove(flags), x, 0);
      }
    }
  }
}
