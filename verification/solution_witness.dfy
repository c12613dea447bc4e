/** A fixed solved Sudoku, used to show that the empty board has a
    completion, so that the filler cannot fail on it. Row `y` holds the
    digits 1..9 rotated left by `3 * (y % 3) + y / 3`. */
module SolutionWitness {
  import opened HashSetNum
  import opened Board

  /** The rotation of row `y`: 0, 3, 6, 1, 4, 7, 2, 5, 8. */
  function RowShift(y: nat): (k: nat)
    requires y < BoardSize
    ensures k < BoardSize
  {
    3 * (y % BlockSize) + y / BlockSize
  }

  /** The digit at column `x` of row `y`. */
  function PatternDigit(x: nat, y: nat): (d: Byte)
    requires x < BoardSize && y < BoardSize
    ensures 1 <= d <= 9
  {
    var s := x + RowShift(y);
    (if s < BoardSize then s else s - BoardSize) + 1
  }

  /** Two cells of one row differ in digit. */
  lemma RowDigitsDiffer(x1: nat, x2: nat, y: nat)
    requires x1 < BoardSize && x2 < BoardSize && y < BoardSize && x1 != x2
    ensures PatternDigit(x1, y) != PatternDigit(x2, y)
  {
  }

  /** Different rows are rotated by different amounts. */
  lemma RowShiftInjective(y1: nat, y2: nat)
    requires y1 < BoardSize && y2 < BoardSize && y1 != y2
    ensures RowShift(y1) != RowShift(y2)
  {
    assert y1 == y1 / BlockSize * BlockSize + y1 % BlockSize;
    assert y2 == y2 / BlockSize * BlockSize + y2 % BlockSize;
  }

  /** Two cells of one column differ in digit. */
  lemma ColumnDigitsDiffer(x: nat, y1: nat, y2: nat)
    requires x < BoardSize && y1 < BoardSize && y2 < BoardSize && y1 != y2
    ensures PatternDigit(x, y1) != PatternDigit(x, y2)
  {
    RowShiftInjective(y1, y2);
  }

  /** Inside the block at (3 * ox, 3 * oy) the digit of slot (i, j) is
      `3 * ox + oy + i + 3 * j`, reduced modulo 9. Two distinct slots give
      offsets `i + 3 * j` that differ by a nonzero amount below 9, so their
      digits differ. */
  lemma BlockSlotsDiffer(ox: nat, oy: nat, i1: nat, j1: nat, i2: nat, j2: nat)
    requires ox < 3 && oy < 3 && i1 < 3 && j1 < 3 && i2 < 3 && j2 < 3 && (i1, j1) != (i2, j2)
    ensures PatternDigit(3 * ox + i1, 3 * oy + j1) != PatternDigit(3 * ox + i2, 3 * oy + j2)
  {
    DivModParts(oy, j1);
    DivModParts(oy, j2);
    assert RowShift(3 * oy + j1) == 3 * j1 + oy;
    assert RowShift(3 * oy + j2) == 3 * j2 + oy;
  }

  /** Two cells of one block differ in digit. */
  lemma BlockDigitsDiffer(c: Coord, d: Coord)
    requires InBounds(c) && InBounds(d) && c != d && ToBlockIndex(c) == ToBlockIndex(d)
    ensures PatternDigit(c.x, c.y) != PatternDigit(d.x, d.y)
  {
    var ox, oy := c.x / 3, c.y / 3;
    assert d.x / 3 == ox && d.y / 3 == oy;
    assert c.x == 3 * ox + c.x % 3 && c.y == 3 * oy + c.y % 3;
    assert d.x == 3 * ox + d.x % 3 && d.y == 3 * oy + d.y % 3;
    BlockSlotsDiffer(ox, oy, c.x % 3, c.y % 3, d.x % 3, d.y % 3);
  }

  /** Peers never share a digit. */
  lemma PeerDigitsDiffer(c: Coord, d: Coord)
    requires InBounds(c) && InBounds(d) && Peers(c, d)
    ensures PatternDigit(c.x, c.y) != PatternDigit(d.x, d.y)
  {
    if c.y == d.y {
      RowDigitsDiffer(c.x, d.x, c.y);
    } else if c.x == d.x {
      ColumnDigitsDiffer(c.x, c.y, d.y);
    } else {
      BlockDigitsDiffer(c, d);
    }
  }

  /** The pattern laid out in all three views. */
  function PatternBoard(): (b: Board)
    ensures WellFormed(b)
    ensures forall c :: InBounds(c) ==> GetTile(b, c) == Filled(PatternDigit(c.x, c.y))
  {
    var rows := seq(BoardSize, (y: int) requires 0 <= y < BoardSize =>
      seq(BoardSize, (x: int) requires 0 <= x < BoardSize => Filled(PatternDigit(x, y))));
    var columns := seq(BoardSize, (x: int) requires 0 <= x < BoardSize =>
      seq(BoardSize, (y: int) requires 0 <= y < BoardSize => Filled(PatternDigit(x, y))));
    var blocks := seq(BoardSize, (bi: int) requires 0 <= bi < BoardSize =>
      seq(BoardSize, (ii: int) requires 0 <= ii < BoardSize =>
        Filled(PatternDigit(FromBlock(bi, ii).x, FromBlock(bi, ii).y))));
    Board(rows, columns, blocks)
  }

  /** The three views of the pattern board agree, and every cell holds a digit 1..9. */
  lemma PatternBoardValid(b: Board)
    requires b == PatternBoard()
    ensures Valid(b) && SudokuDigits(b) && IsComplete(b)
  {
    forall c | InBounds(c) ensures ViewsAgree(b, c) {
      BlockRoundTrip(c);
    }
    assert InRange(b);
  }

  /** The pattern board passes `verify_board`: it is a solved Sudoku. */
  lemma PatternBoardVerifies(b: Board)
    requires b == PatternBoard()
    ensures Valid(b) && VerifyBoard(b)
  {
    PatternBoardValid(b);
    forall c, d | InBounds(c) && InBounds(d) && Peers(c, d) && GetTile(b, c).Filled? && GetTile(b, d).Filled?
      ensures GetTile(b, c).digit != GetTile(b, d).digit
    {
      PeerDigitsDiffer(c, d);
    }
    VerifyBoardMeansCellsDistinct(b);
  }
}
