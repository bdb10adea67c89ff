// The line catalogue: the 69 four-in-a-row masks of the 7x6 grid.
//
// Cell (col, row), row 0 at the bottom, is bit col + 7 * row of a bitboard;
// only bits 0..41 are cells. A line is described geometrically by the grid
// cell with the lowest bit index and a direction; its mask is the set of its
// four bit indices.
module Lines {
  import opened Bits

  const Columns := 7
  const Rows := 6

  /** The bit index of cell (col, row). */
  function CellIndex(col: nat, row: nat): nat
  {
    col + 7 * row
  }

  predicate OnGrid(col: int, row: int)
  {
    0 <= col < Columns && 0 <= row < Rows
  }

  /** b holds a disc on cell (col, row), which lies on the grid. */
  predicate Filled(b: Bitboard, col: int, row: int)
  {
    OnGrid(col, row) && CellIndex(col, row) in b
  }

  /**
   * Four cells in a straight line, starting at (col, row) and stepping by
   * (dc, dr), all on the grid and all in b. This is the reference notion of
   * "four in a row", independent of any bit arithmetic.
   */
  predicate FourInLine(b: Bitboard, col: int, row: int, dc: int, dr: int)
  {
    Filled(b, col, row) && Filled(b, col + dc, row + dr) &&
    Filled(b, col + 2 * dc, row + 2 * dr) && Filled(b, col + 3 * dc, row + 3 * dr)
  }

  predicate IsStep(dc: int, dr: int)
  {
    -1 <= dc <= 1 && -1 <= dr <= 1 && (dc != 0 || dr != 0)
  }

  /** b has four discs in a row: horizontally, vertically or diagonally. */
  ghost predicate HasFour(b: Bitboard)
  {
    exists col, row, dc, dr :: IsStep(dc, dr) && FourInLine(b, col, row, dc, dr)
  }

  /**
   * The four directions of a line, each taken from its lowest bit upwards:
   * up a column (stride 7), along a row (stride 1), up and to the right
   * (stride 8) and up and to the left (stride 6).
   */
  datatype Direction = Vertical | Horizontal | Diagonal | AntiDiagonal
  {
    function DCol(): int
    {
      match this
      case Vertical => 0
      case Horizontal => 1
      case Diagonal => 1
      case AntiDiagonal => -1
    }

    function DRow(): int
    {
      match this
      case Vertical => 1
      case Horizontal => 0
      case Diagonal => 1
      case AntiDiagonal => 1
    }

    function Stride(): (s: nat)
      ensures s == DCol() + 7 * DRow()
    {
      match this
      case Vertical => 7
      case Horizontal => 1
      case Diagonal => 8
      case AntiDiagonal => 6
    }
  }

  datatype Segment = Segment(col: nat, row: nat, dir: Direction)

  /** All four cells of the segment lie on the grid. */
  predicate ValidSegment(s: Segment)
  {
    OnGrid(s.col, s.row) && OnGrid(s.col + 3 * s.dir.DCol(), s.row + 3 * s.dir.DRow())
  }

  /** Four bits: start and the next three at the given stride. */
  function Four(start: nat, stride: nat): Bitboard
  {
    {start, start + stride, start + 2 * stride, start + 3 * stride}
  }

  /** The mask of a segment: its lowest bit and the next three at its stride. */
  function Mask(s: Segment): Bitboard
  {
    Four(CellIndex(s.col, s.row), s.dir.Stride())
  }

  /** The k-th line of the catalogue, in the order the source pushes them. */
  function LineAt(k: nat): Segment
    requires k < 69
  {
    if k < 21 then Segment(k % 7, k / 7, Vertical)
    else if k < 45 then Segment((k - 21) % 4, (k - 21) / 4, Horizontal)
    else if k < 57 then Segment((k - 45) % 4, (k - 45) / 4, Diagonal)
    else Segment(3 + (k - 57) % 4, (k - 57) / 4, AntiDiagonal)
  }

  /** The value of the constant `rowMasks`. */
  function RowMasks(): (masks: seq<Bitboard>)
    ensures |masks| == 69
  {
    seq(69, k requires 0 <= k < 69 => Mask(LineAt(k)))
  }

  /** The catalogue position of a valid segment: the inverse of LineAt. */
  function IndexOf(s: Segment): (k: nat)
    requires ValidSegment(s)
    ensures k < 69 && LineAt(k) == s
  {
    match s.dir
    case Vertical =>
      assert (s.col + 7 * s.row) % 7 == s.col && (s.col + 7 * s.row) / 7 == s.row;
      s.col + 7 * s.row
    case Horizontal =>
      assert (4 * s.row + s.col) % 4 == s.col && (4 * s.row + s.col) / 4 == s.row;
      21 + 4 * s.row + s.col
    case Diagonal =>
      assert (4 * s.row + s.col) % 4 == s.col && (4 * s.row + s.col) / 4 == s.row;
      45 + 4 * s.row + s.col
    case AntiDiagonal =>
      assert (4 * s.row + (s.col - 3)) % 4 == s.col - 3 && (4 * s.row + (s.col - 3)) / 4 == s.row;
      57 + 4 * s.row + (s.col - 3)
  }

  // The four bit patterns of the source, as bit sets.
  const VerticalPattern: Bitboard := {0, 7, 14, 21}       // 0x204081
  const HorizontalPattern: Bitboard := {0, 1, 2, 3}       // 0xf
  const DiagonalPattern: Bitboard := {0, 8, 16, 24}       // 0x1010101
  const AntiDiagonalPattern: Bitboard := {3, 9, 15, 21}   // 0x208208

  /** The four bit sets are the BigInt literals of the source. */
  lemma PatternValues()
    ensures ValueBelow(VerticalPattern, 42) == 0x204081
    ensures ValueBelow(HorizontalPattern, 42) == 0xf
    ensures ValueBelow(DiagonalPattern, 42) == 0x1010101
    ensures ValueBelow(AntiDiagonalPattern, 42) == 0x208208
  {
    Pow2Seven();
    Pow2Add(7, 7);
    Pow2Add(14, 7);
    Pow2Add(7, 1);
    Pow2Add(8, 8);
    Pow2Add(16, 8);
    Pow2Add(7, 2);
    Pow2Add(14, 1);
    assert Pow2(3) == 8;
    FourValue(0, 7, 14, 21, 42);
    FourValue(0, 1, 2, 3, 42);
    FourValue(0, 8, 16, 24, 42);
    FourValue(3, 9, 15, 21, 42);
  }

  /** masks is a prefix of the catalogue. */
  predicate Catalogued(masks: seq<Bitboard>)
  {
    |masks| <= 69 && forall k :: 0 <= k < |masks| ==> masks[k] == Mask(LineAt(k))
  }

  /** The next line of the catalogue extends a prefix of it. */
  lemma Extend(masks: seq<Bitboard>, m: Bitboard)
    requires Catalogued(masks) && |masks| < 69 && m == Mask(LineAt(|masks|))
    ensures Catalogued(masks + [m])
  {
  }

  /** A prefix of the catalogue of full length is the catalogue. */
  lemma CataloguedWhole(masks: seq<Bitboard>)
    requires Catalogued(masks) && |masks| == 69
    ensures masks == RowMasks()
  {
  }

  // One step of each loop of generateRowMasks appends the next line.

  lemma VerticalStep(masks: seq<Bitboard>, i: nat)
    requires Catalogued(masks) && |masks| == i < 21
    ensures Catalogued(masks + [Shift(VerticalPattern, i)])
  {
    ShiftFour(0, 7, 14, 21, i);
    Extend(masks, Shift(VerticalPattern, i));
  }

  lemma HorizontalStep(masks: seq<Bitboard>, y: nat, i: nat)
    requires y < 6 && i < 4 && Catalogued(masks) && |masks| == 21 + 4 * y + i
    ensures Catalogued(masks + [Shift(HorizontalPattern, i + y * 7)])
  {
    ShiftFour(0, 1, 2, 3, i + y * 7);
    assert (4 * y + i) % 4 == i && (4 * y + i) / 4 == y;
    assert LineAt(21 + 4 * y + i) == Segment(i, y, Horizontal);
    Extend(masks, Shift(HorizontalPattern, i + y * 7));
  }

  lemma DiagonalStep(masks: seq<Bitboard>, i: nat, j: nat)
    requires i < 3 && j < 4 && Catalogued(masks) && |masks| == 45 + 4 * i + j
    ensures Catalogued(masks + [Shift(DiagonalPattern, j + i * 7)])
  {
    ShiftFour(0, 8, 16, 24, j + i * 7);
    assert (4 * i + j) % 4 == j && (4 * i + j) / 4 == i;
    assert LineAt(45 + 4 * i + j) == Segment(j, i, Diagonal);
    Extend(masks, Shift(DiagonalPattern, j + i * 7));
  }

  lemma AntiDiagonalStep(masks: seq<Bitboard>, i: nat, j: nat)
    requires i < 3 && j < 4 && Catalogued(masks) && |masks| == 57 + 4 * i + j
    ensures Catalogued(masks + [Shift(AntiDiagonalPattern, j + i * 7)])
  {
    ShiftFour(3, 9, 15, 21, j + i * 7);
    assert (4 * i + j) % 4 == j && (4 * i + j) / 4 == i;
    assert LineAt(57 + 4 * i + j) == Segment(3 + j, i, AntiDiagonal);
    Extend(masks, Shift(AntiDiagonalPattern, j + i * 7));
  }

  /**
   * generateRowMasks: pushes the four patterns, shifted to every start
   * position, in nested loops.
   */
  method GenerateRowMasks() returns (masks: seq<Bitboard>)
    ensures masks == RowMasks()
  {
    masks := [];
    // Vertical
    for i := 0 to 21
      invariant |masks| == i && Catalogued(masks)
    {
      VerticalStep(masks, i);
      masks := masks + [Shift(VerticalPattern, i)];
    }
    // Horizontal
    for y := 0 to 6
      invariant |masks| == 21 + 4 * y && Catalogued(masks)
    {
      for i := 0 to 4
        invariant |masks| == 21 + 4 * y + i && Catalogued(masks)
      {
        HorizontalStep(masks, y, i);
        masks := masks + [Shift(HorizontalPattern, i + y * 7)];
      }
    }
    // Diagonal, up and to the right
    for i := 0 to 3
      invariant |masks| == 45 + 4 * i && Catalogued(masks)
    {
      for j := 0 to 4
        invariant |masks| == 45 + 4 * i + j && Catalogued(masks)
      {
        DiagonalStep(masks, i, j);
        masks := masks + [Shift(DiagonalPattern, j + i * 7)];
      }
    }
    // Diagonal, up and to the left
    for i := 0 to 3
      invariant |masks| == 57 + 4 * i && Catalogued(masks)
    {
      for j := 0 to 4
        invariant |masks| == 57 + 4 * i + j && Catalogued(masks)
      {
        AntiDiagonalStep(masks, i, j);
        masks := masks + [Shift(AntiDiagonalPattern, j + i * 7)];
      }
    }
    CataloguedWhole(masks);
  }

  /** Every line of the catalogue lies on the grid. */
  lemma CatalogueValid(k: nat)
    requires k < 69
    ensures ValidSegment(LineAt(k))
  {
  }

  /** LineAt is one-to-one: IndexOf undoes it. */
  lemma IndexOfLineAt(k: nat)
    requires k < 69
    ensures ValidSegment(LineAt(k)) && IndexOf(LineAt(k)) == k
  {
    CatalogueValid(k);
  }

  /**
   * The mask of a segment on the grid has exactly four bits, all cells of the
   * grid, and is contained in a bitboard exactly when that bitboard holds the
   * four cells of the segment: no line wraps from one row to the next.
   */
  lemma MaskCells(s: Segment, b: Bitboard)
    requires ValidSegment(s)
    ensures Mask(s) <= b <==> FourInLine(b, s.col, s.row, s.dir.DCol(), s.dir.DRow())
    ensures |Mask(s)| == 4 && forall i :: i in Mask(s) ==> i < 42
  {
    var start, stride := CellIndex(s.col, s.row), s.dir.Stride();
    assert start + 3 * stride < 42;
    FourShape(start, stride);
    SubsetFour(start, stride, b);
    LineCells(b, s.col, s.row, s.dir.DCol(), s.dir.DRow(), start, stride);
  }

  /**
   * The four cells of a line whose ends lie on the grid are on the grid, at
   * bits start + j * stride.
   */
  lemma LineCells(b: Bitboard, col: nat, row: nat, dc: int, dr: int, start: nat, stride: nat)
    requires -1 <= dc <= 1 && 0 <= dr <= 1
    requires OnGrid(col, row) && OnGrid(col + 3 * dc, row + 3 * dr)
    requires start == CellIndex(col, row) && stride == dc + 7 * dr
    ensures FourInLine(b, col, row, dc, dr) <==>
      start in b && start + stride in b && start + 2 * stride in b && start + 3 * stride in b
  {
    assert OnGrid(col + dc, row + dr) && OnGrid(col + 2 * dc, row + 2 * dr);
    assert CellIndex(col + dc, row + dr) == start + stride;
    assert CellIndex(col + 2 * dc, row + 2 * dr) == start + 2 * stride;
    assert CellIndex(col + 3 * dc, row + 3 * dr) == start + 3 * stride;
  }

  lemma SubsetFour(a: nat, d: nat, b: Bitboard)
    ensures Four(a, d) <= b <==> a in b && a + d in b && a + 2 * d in b && a + 3 * d in b
  {
  }

  /** Four bits at a positive stride are four different bits, the highest one last. */
  lemma FourShape(a: nat, d: nat)
    requires d > 0
    ensures |Four(a, d)| == 4 && forall i :: i in Four(a, d) ==> i <= a + 3 * d
  {
    assert Four(a, d) == {a} + {a + d} + {a + 2 * d} + {a + 3 * d};
  }

  /** Two segments on the grid with the same mask are the same segment. */
  lemma MaskInjective(s: Segment, t: Segment)
    requires ValidSegment(s) && ValidSegment(t) && Mask(s) == Mask(t)
    ensures s == t
  {
    SameStartStride(CellIndex(s.col, s.row), s.dir.Stride(), CellIndex(t.col, t.row), t.dir.Stride());
    StrideInjective(s.dir, t.dir);
    CellIndexInjective(s.col, s.row, t.col, t.row);
  }

  /** Four bits at equal spacing determine their start and spacing. */
  lemma SameStartStride(a: nat, d: nat, a': nat, d': nat)
    requires d > 0 && d' > 0 && Four(a, d) == Four(a', d')
    ensures a == a' && d == d'
  {
    // the lowest bit is the start, the next one is start + stride
    assert a in Four(a', d') && a' in Four(a, d);
    assert a + d in Four(a', d') && a' + d' in Four(a, d);
  }

  lemma StrideInjective(d: Direction, e: Direction)
    requires d.Stride() == e.Stride()
    ensures d == e
  {
  }

  lemma CellIndexInjective(c1: nat, r1: nat, c2: nat, r2: nat)
    requires c1 < 7 && c2 < 7 && CellIndex(c1, r1) == CellIndex(c2, r2)
    ensures c1 == c2 && r1 == r2
  {
  }

  /** The catalogue holds 69 pairwise different masks. */
  lemma {:induction false} RowMasksDistinct(j: nat, k: nat)
    requires j < 69 && k < 69 && j != k
    ensures RowMasks()[j] != RowMasks()[k]
  {
    IndexOfLineAt(j);
    IndexOfLineAt(k);
    if RowMasks()[j] == RowMasks()[k] {
      MaskInjective(LineAt(j), LineAt(k));
    }
  }

  /** Every mask of the catalogue has four bits, all of them cells of the grid. */
  lemma RowMaskShape(k: nat)
    requires k < 69
    ensures |RowMasks()[k]| == 4 && forall i :: i in RowMasks()[k] ==> i < 42
  {
    CatalogueValid(k);
    MaskCells(LineAt(k), {});
  }

  /** Every four-cell line of the grid is in the catalogue. */
  lemma RowMasksComplete(s: Segment)
    requires ValidSegment(s)
    ensures Mask(s) in RowMasks()
  {
    assert RowMasks()[IndexOf(s)] == Mask(s);
  }

  /**
   * Four in a row along any of the eight steps is four in a row along the
   * segment that starts at its lowest bit.
   */
  lemma Canonical(b: Bitboard, col: int, row: int, dc: int, dr: int) returns (s: Segment)
    requires IsStep(dc, dr) && FourInLine(b, col, row, dc, dr)
    ensures ValidSegment(s) && Mask(s) <= b
  {
    var c, r, dc', dr' := col, row, dc, dr;
    if dr == -1 || (dr == 0 && dc == -1) {
      // reverse the line: start from its other end
      ReverseLine(b, col, row, dc, dr);
      c, r, dc', dr' := col + 3 * dc, row + 3 * dr, -dc, -dr;
    }
    s := Segment(c, r, Upward(dc', dr'));
    MaskCells(s, b);
  }

  /** The same four cells, read from the other end. */
  lemma ReverseLine(b: Bitboard, col: int, row: int, dc: int, dr: int)
    requires FourInLine(b, col, row, dc, dr)
    ensures FourInLine(b, col + 3 * dc, row + 3 * dr, -dc, -dr)
  {
    assert col + 3 * dc + 3 * -dc == col && row + 3 * dr + 3 * -dr == row;
    assert col + 3 * dc + 2 * -dc == col + dc && row + 3 * dr + 2 * -dr == row + dr;
    assert col + 3 * dc + -dc == col + 2 * dc && row + 3 * dr + -dr == row + 2 * dr;
  }

  /** The direction of an upward (or rightward) step. */
  function Upward(dc: int, dr: int): (d: Direction)
    requires (dr == 1 && -1 <= dc <= 1) || (dr == 0 && dc == 1)
    ensures d.DCol() == dc && d.DRow() == dr
  {
    if dr == 0 then Horizontal
    else if dc == 0 then Vertical
    else if dc == 1 then Diagonal
    else AntiDiagonal
  }

  /** Some mask of the catalogue lies inside b exactly when b has four in a row. */
  lemma CoveredIffHasFour(b: Bitboard)
    ensures (exists k :: 0 <= k < 69 && RowMasks()[k] <= b) <==> HasFour(b)
  {
    if k :| 0 <= k < 69 && RowMasks()[k] <= b {
      var s := LineAt(k);
      CatalogueValid(k);
      MaskCells(s, b);
      assert IsStep(s.dir.DCol(), s.dir.DRow());
    }
    if HasFour(b) {
      var col, row, dc, dr :| IsStep(dc, dr) && FourInLine(b, col, row, dc, dr);
      var s := Canonical(b, col, row, dc, dr);
      assert RowMasks()[IndexOf(s)] <= b;
    }
  }
}
