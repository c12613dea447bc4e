/** The 9x9 Sudoku grid (src/engine/board.rs). The grid is stored three times
    over, as rows, columns and 3x3 blocks, and every write updates all three. */
module Board {
  import opened HashSetNum

  const BoardSize: nat := 9
  const BlockSize: nat := 3
  /** The number of cells on the board. */
  const CellCount: nat := 81

  datatype Tile = Empty | Filled(digit: Byte)

  datatype Coord = Coord(x: Byte, y: Byte)

  /** Callers only ever build coordinates inside the board; the source panics
      on an out-of-range index. */
  predicate InBounds(c: Coord) {
    c.x < BoardSize && c.y < BoardSize
  }

  // ---------------------------------------------------------------------------
  // Coordinate arithmetic
  // ---------------------------------------------------------------------------

  /** `to_vec_position`: the row-major index of the cell. */
  function ToVecPosition(c: Coord): (p: nat)
    requires InBounds(c)
    ensures p < CellCount
    ensures p / BoardSize == c.y && p % BoardSize == c.x
  {
    c.y * BoardSize + c.x
  }

  /** `to_block_index`: which 3x3 block holds the cell, blocks numbered row-major. */
  function ToBlockIndex(c: Coord): (b: nat)
    requires InBounds(c)
    ensures b < BoardSize
    ensures b / BlockSize == c.y / BlockSize && b % BlockSize == c.x / BlockSize
  {
    c.y / BlockSize * BlockSize + c.x / BlockSize
  }

  /** `to_index_in_block`: the position of the cell inside its block, row-major. */
  function ToIndexInBlock(c: Coord): (i: nat)
    requires InBounds(c)
    ensures i < BoardSize
    ensures i / BlockSize == c.y % BlockSize && i % BlockSize == c.x % BlockSize
  {
    c.y % BlockSize * BlockSize + c.x % BlockSize
  }

  /** The cell at slot `i` of block `b`: the inverse of the block map. */
  function FromBlock(b: nat, i: nat): (c: Coord)
    requires b < BoardSize && i < BoardSize
    ensures InBounds(c)
    ensures ToBlockIndex(c) == b && ToIndexInBlock(c) == i
  {
    DivModParts(b % BlockSize, i % BlockSize);
    DivModParts(b / BlockSize, i / BlockSize);
    Coord(b % BlockSize * BlockSize + i % BlockSize, b / BlockSize * BlockSize + i / BlockSize)
  }

  /** Splitting `q * 3 + r` back into its quotient and remainder. */
  lemma DivModParts(q: nat, r: nat)
    requires r < BlockSize
    ensures (q * BlockSize + r) / BlockSize == q && (q * BlockSize + r) % BlockSize == r
  {
  }

  /** Mapping a cell to (block, slot) and back gives the cell again. */
  lemma BlockRoundTrip(c: Coord)
    requires InBounds(c)
    ensures FromBlock(ToBlockIndex(c), ToIndexInBlock(c)) == c
  {
    var b, i := ToBlockIndex(c), ToIndexInBlock(c);
    assert c.x == c.x / BlockSize * BlockSize + c.x % BlockSize;
    assert c.y == c.y / BlockSize * BlockSize + c.y % BlockSize;
  }

  /** (x, y) |-> (block index, index in block) is injective on the board. */
  lemma BlockMapInjective(c: Coord, d: Coord)
    requires InBounds(c) && InBounds(d)
    requires ToBlockIndex(c) == ToBlockIndex(d) && ToIndexInBlock(c) == ToIndexInBlock(d)
    ensures c == d
  {
    BlockRoundTrip(c);
    BlockRoundTrip(d);
  }

  /** The source's unit tests: (3,3) is slot 0 of block 4, (2,3) is slot 2 of block 3. */
  lemma BlockMapExamples()
    ensures ToBlockIndex(Coord(3, 3)) == 4 && ToIndexInBlock(Coord(3, 3)) == 0
    ensures ToBlockIndex(Coord(2, 3)) == 3 && ToIndexInBlock(Coord(2, 3)) == 2
  {
  }

  // ---------------------------------------------------------------------------
  // The board and its invariants
  // ---------------------------------------------------------------------------

  datatype Board = Board(rows: seq<seq<Tile>>, columns: seq<seq<Tile>>, blocks: seq<seq<Tile>>)

  /** A 9x9 array of tiles. */
  predicate IsGrid(g: seq<seq<Tile>>) {
    |g| == BoardSize && forall i :: 0 <= i < BoardSize ==> |g[i]| == BoardSize
  }

  predicate WellFormed(b: Board) {
    IsGrid(b.rows) && IsGrid(b.columns) && IsGrid(b.blocks)
  }

  /** The three views hold the same tile for cell `c`:
      rows[y][x] == columns[x][y] == blocks[blk][idx]. */
  predicate ViewsAgree(b: Board, c: Coord)
    requires WellFormed(b) && InBounds(c)
  {
    b.columns[c.x][c.y] == b.rows[c.y][c.x] &&
    b.blocks[ToBlockIndex(c)][ToIndexInBlock(c)] == b.rows[c.y][c.x]
  }

  /** The three views agree at every cell. */
  ghost predicate Consistent(b: Board)
    requires WellFormed(b)
  {
    forall c {:trigger ViewsAgree(b, c)} :: InBounds(c) ==> ViewsAgree(b, c)
  }

  /** No filled tile holds a digit the digit set cannot index. */
  predicate TilesInRange(ts: seq<Tile>) {
    forall i :: 0 <= i < |ts| ==> ts[i].Filled? ==> ts[i].digit < Capacity
  }

  predicate GridInRange(g: seq<seq<Tile>>) {
    forall i :: 0 <= i < |g| ==> TilesInRange(g[i])
  }

  /** Every view holds only digits the digit set can index. */
  predicate InRange(b: Board) {
    GridInRange(b.rows) && GridInRange(b.columns) && GridInRange(b.blocks)
  }

  /** The invariant every board built by the program keeps. */
  ghost predicate Valid(b: Board) {
    WellFormed(b) && Consistent(b) && InRange(b)
  }

  /** Every filled tile holds a Sudoku digit 1..9. */
  predicate SudokuDigits(b: Board)
    requires WellFormed(b)
  {
    forall x: nat, y: nat :: x < BoardSize && y < BoardSize && b.rows[y][x].Filled? ==>
      1 <= b.rows[y][x].digit <= 9
  }

  /** A tile the digit set can index. */
  predicate TileInRange(t: Tile) {
    t.Filled? ==> t.digit < Capacity
  }

  // ---------------------------------------------------------------------------
  // Reading and writing
  // ---------------------------------------------------------------------------

  /** `get_tile`: reads the row view. On a consistent board the column and
      block views hold the same tile. */
  function GetTile(b: Board, c: Coord): (t: Tile)
    requires WellFormed(b) && InBounds(c)
    ensures Consistent(b) ==> t == b.columns[c.x][c.y]
    ensures Consistent(b) ==> t == b.blocks[ToBlockIndex(c)][ToIndexInBlock(c)]
  {
    assert Consistent(b) ==> ViewsAgree(b, c);
    b.rows[c.y][c.x]
  }

  /** The block view of a consistent board is the row view read through `FromBlock`. */
  lemma BlocksFromRows(b: Board, bi: nat, ii: nat)
    requires WellFormed(b) && Consistent(b)
    requires bi < BoardSize && ii < BoardSize
    ensures b.blocks[bi][ii] == GetTile(b, FromBlock(bi, ii))
  {
    assert ViewsAgree(b, FromBlock(bi, ii));
  }

  /** `set_tile_in_place`: writes the tile into all three views, so the
      views stay consistent. */
  function SetTileInPlace(b: Board, c: Coord, t: Tile): (r: Board)
    requires WellFormed(b) && InBounds(c)
    ensures WellFormed(r)
    ensures r.rows[c.y][c.x] == t && r.columns[c.x][c.y] == t
    ensures r.blocks[ToBlockIndex(c)][ToIndexInBlock(c)] == t
    ensures Consistent(b) ==> Consistent(r)
    ensures Valid(b) && TileInRange(t) ==> Valid(r)
  {
    var bi, ii := ToBlockIndex(c), ToIndexInBlock(c);
    var r := Board(b.rows[c.y := b.rows[c.y][c.x := t]],
                   b.columns[c.x := b.columns[c.x][c.y := t]],
                   b.blocks[bi := b.blocks[bi][ii := t]]);
    assert Consistent(b) ==> Consistent(r) by {
      if Consistent(b) {
        forall d | InBounds(d) ensures ViewsAgree(r, d) {
          assert ViewsAgree(b, d);
          if d != c && ToBlockIndex(d) == bi && ToIndexInBlock(d) == ii {
            BlockMapInjective(c, d);
          }
        }
      }
    }
    r
  }

  /** `set_tile_in_place` touches one slot of each view and nothing else. */
  lemma SetTileInPlaceFrame(b: Board, c: Coord, t: Tile)
    requires WellFormed(b) && InBounds(c)
    ensures var r := SetTileInPlace(b, c, t);
      && (forall i, j :: 0 <= i < BoardSize && 0 <= j < BoardSize && (i, j) != (c.y as int, c.x as int) ==>
            r.rows[i][j] == b.rows[i][j])
      && (forall i, j :: 0 <= i < BoardSize && 0 <= j < BoardSize && (i, j) != (c.x as int, c.y as int) ==>
            r.columns[i][j] == b.columns[i][j])
      && (forall i, j ::
            0 <= i < BoardSize && 0 <= j < BoardSize && (i, j) != (ToBlockIndex(c) as int, ToIndexInBlock(c) as int) ==>
            r.blocks[i][j] == b.blocks[i][j])
  {
  }

  /** `set_tile`: a copy of the receiver with one cell changed. The new cell
      reads back as `t`, every other cell reads back as before. */
  function SetTile(b: Board, c: Coord, t: Tile): (r: Board)
    requires WellFormed(b) && InBounds(c)
    ensures WellFormed(r)
    ensures GetTile(r, c) == t
    ensures forall d :: InBounds(d) && d != c ==> GetTile(r, d) == GetTile(b, d)
    ensures Valid(b) && TileInRange(t) ==> Valid(r)
  {
    SetTileInPlace(b, c, t)
  }

  /** Writing a digit 1..9 keeps every filled tile a Sudoku digit. */
  lemma SetTileSudokuDigits(b: Board, c: Coord, n: Byte)
    requires Valid(b) && InBounds(c) && SudokuDigits(b) && 1 <= n <= 9
    ensures SudokuDigits(SetTile(b, c, Filled(n)))
  {
  }

  /** Two valid boards that agree on every cell are the same board: the row
      view determines the other two. */
  lemma ExtensionalEquality(a: Board, b: Board)
    requires Valid(a) && Valid(b)
    requires forall c :: InBounds(c) ==> GetTile(a, c) == GetTile(b, c)
    ensures a == b
  {
    forall y | 0 <= y < BoardSize ensures a.rows[y] == b.rows[y] {
      forall x | 0 <= x < BoardSize ensures a.rows[y][x] == b.rows[y][x] {
        assert GetTile(a, Coord(x, y)) == GetTile(b, Coord(x, y));
      }
    }
    forall x | 0 <= x < BoardSize ensures a.columns[x] == b.columns[x] {
      forall y | 0 <= y < BoardSize ensures a.columns[x][y] == b.columns[x][y] {
        assert GetTile(a, Coord(x, y)) == GetTile(b, Coord(x, y));
      }
    }
    forall bi | 0 <= bi < BoardSize ensures a.blocks[bi] == b.blocks[bi] {
      forall ii | 0 <= ii < BoardSize ensures a.blocks[bi][ii] == b.blocks[bi][ii] {
        BlocksFromRows(a, bi, ii);
        BlocksFromRows(b, bi, ii);
      }
    }
  }

  /** Writing a cell twice keeps only the second write. */
  lemma SetTileTwice(b: Board, c: Coord, t1: Tile, t2: Tile)
    requires Valid(b) && InBounds(c) && TileInRange(t1) && TileInRange(t2)
    ensures SetTile(SetTile(b, c, t1), c, t2) == SetTile(b, c, t2)
  {
    ExtensionalEquality(SetTile(SetTile(b, c, t1), c, t2), SetTile(b, c, t2));
  }

  /** `Board::default`: every tile of every view is Empty, so the views are consistent. */
  function Default(): (b: Board)
    ensures Valid(b) && SudokuDigits(b)
    ensures forall i, j :: 0 <= i < BoardSize && 0 <= j < BoardSize ==>
      b.rows[i][j] == Empty && b.columns[i][j] == Empty && b.blocks[i][j] == Empty
  {
    var empty := seq(BoardSize, _ => seq(BoardSize, _ => Empty));
    Board(empty, empty, empty)
  }

  // ---------------------------------------------------------------------------
  // Validity checks
  // ---------------------------------------------------------------------------

  /** The meaning of a valid group: no digit occurs in two filled tiles. */
  predicate NoRepeatedDigit(ts: seq<Tile>) {
    forall i, j :: 0 <= i < j < |ts| && ts[i].Filled? && ts[j].Filled? ==> ts[i].digit != ts[j].digit
  }

  /** The digits of the filled tiles of a group. */
  function DigitsOf(ts: seq<Tile>): set<Byte> {
    set i | 0 <= i < |ts| && ts[i].Filled? :: ts[i].digit
  }

  /** `is_valid_tile_set`: true exactly when no digit repeats among the filled
      tiles; Empty tiles never count as a repeat. */
  function IsValidTileSet(ts: seq<Tile>): (r: bool)
    requires TilesInRange(ts)
    ensures r <==> NoRepeatedDigit(ts)
  {
    assert ts[..0] == [];
    ScanTileSetCorrect(ts, 0, New());
    ScanTileSet(ts, 0, New())
  }

  /** The loop of `is_valid_tile_set` from tile `i` on: `seen` holds the
      digits met so far, and a digit already in it is a repeat. */
  function ScanTileSet(ts: seq<Tile>, i: nat, seen: SudokuHashSet): bool
    requires i <= |ts| && TilesInRange(ts) && ValidSet(seen)
    decreases |ts| - i
  {
    if i == |ts| then true
    else
      match ts[i]
      case Empty => ScanTileSet(ts, i + 1, seen)
      case Filled(n) => if Contains(seen, n) then false else ScanTileSet(ts, i + 1, Insert(seen, n))
  }

  /** When `seen` holds exactly the digits before `i` and none of them
      repeats, the scan finds a repeat exactly when the whole group has one. */
  lemma {:induction false} ScanTileSetCorrect(ts: seq<Tile>, i: nat, seen: SudokuHashSet)
    requires i <= |ts| && TilesInRange(ts) && ValidSet(seen)
    requires Elements(seen) == DigitsOf(ts[..i])
    requires NoRepeatedDigit(ts[..i])
    ensures ScanTileSet(ts, i, seen) <==> NoRepeatedDigit(ts)
    decreases |ts| - i
  {
    if i == |ts| {
      assert ts[..i] == ts;
    } else {
      assert ts[..i + 1] == ts[..i] + [ts[i]];
      match ts[i]
      case Empty =>
        assert DigitsOf(ts[..i + 1]) == DigitsOf(ts[..i]);
        ScanTileSetCorrect(ts, i + 1, seen);
      case Filled(n) =>
        if Contains(seen, n) {
          assert n in DigitsOf(ts[..i]);
          var j :| 0 <= j < i && ts[..i][j].Filled? && ts[..i][j].digit == n;
          assert ts[j].digit == ts[i].digit;
        } else {
          assert DigitsOf(ts[..i + 1]) == DigitsOf(ts[..i]) + {n};
          InsertElements(seen, n);
          ScanTileSetCorrect(ts, i + 1, Insert(seen, n));
        }
    }
  }

  /** Whether every group from index `k` on passes `is_valid_tile_set`,
      checked in order with an early exit, as the loops of `verify_board` do. */
  function VerifyGroups(g: seq<seq<Tile>>, k: nat): (r: bool)
    requires IsGrid(g) && GridInRange(g) && k <= BoardSize
    ensures r <==> forall i :: k <= i < BoardSize ==> NoRepeatedDigit(g[i])
    decreases |g| - k
  {
    if k == BoardSize then true
    else if !IsValidTileSet(g[k]) then false
    else VerifyGroups(g, k + 1)
  }

  /** `verify_board`: every row, then every column, then every block passes
      `is_valid_tile_set`. */
  function VerifyBoard(b: Board): (r: bool)
    requires WellFormed(b) && InRange(b)
    ensures r <==> (
      && (forall i :: 0 <= i < BoardSize ==> NoRepeatedDigit(b.rows[i]))
      && (forall i :: 0 <= i < BoardSize ==> NoRepeatedDigit(b.columns[i]))
      && (forall i :: 0 <= i < BoardSize ==> NoRepeatedDigit(b.blocks[i])))
  {
    VerifyGroups(b.rows, 0) && VerifyGroups(b.columns, 0) && VerifyGroups(b.blocks, 0)
  }

  /** The source's unit tests of `is_valid_tile_set`: the digits 1..9 are a
      valid group, and a group with 9 twice is not. */
  lemma TileSetExamples()
    ensures IsValidTileSet([Filled(1), Filled(2), Filled(3), Filled(4), Filled(5),
                            Filled(6), Filled(7), Filled(8), Filled(9)])
    ensures !IsValidTileSet([Filled(1), Filled(2), Filled(3), Filled(4), Filled(5),
                             Filled(6), Filled(7), Filled(9), Filled(9)])
  {
    var bad := [Filled(1), Filled(2), Filled(3), Filled(4), Filled(5), Filled(6), Filled(7), Filled(9), Filled(9)];
    assert bad[7].digit == bad[8].digit;
  }

  /** Two distinct cells that share a row, a column or a block. */
  predicate Peers(c: Coord, d: Coord)
    requires InBounds(c) && InBounds(d)
  {
    c != d && (c.x == d.x || c.y == d.y || ToBlockIndex(c) == ToBlockIndex(d))
  }

  /** The Sudoku rule read cell by cell: two filled peers never hold the same digit. */
  ghost predicate CellsDistinct(b: Board)
    requires WellFormed(b)
  {
    forall c, d :: InBounds(c) && InBounds(d) && Peers(c, d) && GetTile(b, c).Filled? && GetTile(b, d).Filled? ==>
      GetTile(b, c).digit != GetTile(b, d).digit
  }

  /** A verifying board never holds the same digit in two filled peers. */
  lemma VerifiedPeersDiffer(b: Board, c: Coord, d: Coord)
    requires Valid(b) && VerifyBoard(b)
    requires InBounds(c) && InBounds(d) && Peers(c, d) && GetTile(b, c).Filled? && GetTile(b, d).Filled?
    ensures GetTile(b, c).digit != GetTile(b, d).digit
  {
    if c.y == d.y {
      var row := b.rows[c.y];
      assert row[c.x] == GetTile(b, c) && row[d.x] == GetTile(b, d);
      assert NoRepeatedDigit(row);
    } else if c.x == d.x {
      var col := b.columns[c.x];
      assert col[c.y] == GetTile(b, c) && col[d.y] == GetTile(b, d);
      assert NoRepeatedDigit(col);
    } else {
      var blk := b.blocks[ToBlockIndex(c)];
      var i, j := ToIndexInBlock(c), ToIndexInBlock(d);
      assert blk[i] == GetTile(b, c) && blk[j] == GetTile(b, d);
      if i == j { BlockMapInjective(c, d); }
      assert NoRepeatedDigit(blk);
    }
  }

  /** Under the cell-by-cell rule every row passes. */
  lemma CellsDistinctRows(b: Board, k: nat)
    requires Valid(b) && CellsDistinct(b) && k < BoardSize
    ensures NoRepeatedDigit(b.rows[k])
  {
    forall i, j | 0 <= i < j < BoardSize && b.rows[k][i].Filled? && b.rows[k][j].Filled?
      ensures b.rows[k][i].digit != b.rows[k][j].digit
    {
      assert Peers(Coord(i, k), Coord(j, k));
      assert GetTile(b, Coord(i, k)) == b.rows[k][i] && GetTile(b, Coord(j, k)) == b.rows[k][j];
    }
  }

  /** Under the cell-by-cell rule every column passes. */
  lemma CellsDistinctColumns(b: Board, k: nat)
    requires Valid(b) && CellsDistinct(b) && k < BoardSize
    ensures NoRepeatedDigit(b.columns[k])
  {
    forall i, j | 0 <= i < j < BoardSize && b.columns[k][i].Filled? && b.columns[k][j].Filled?
      ensures b.columns[k][i].digit != b.columns[k][j].digit
    {
      assert Peers(Coord(k, i), Coord(k, j));
      assert GetTile(b, Coord(k, i)) == b.columns[k][i] && GetTile(b, Coord(k, j)) == b.columns[k][j];
    }
  }

  /** Under the cell-by-cell rule every block passes. */
  lemma CellsDistinctBlocks(b: Board, k: nat)
    requires Valid(b) && CellsDistinct(b) && k < BoardSize
    ensures NoRepeatedDigit(b.blocks[k])
  {
    forall i, j | 0 <= i < j < BoardSize && b.blocks[k][i].Filled? && b.blocks[k][j].Filled?
      ensures b.blocks[k][i].digit != b.blocks[k][j].digit
    {
      var c, d := FromBlock(k, i), FromBlock(k, j);
      BlocksFromRows(b, k, i);
      BlocksFromRows(b, k, j);
      assert Peers(c, d);
    }
  }

  /** On a valid board, `verify_board` is exactly the cell-by-cell Sudoku rule. */
  lemma VerifyBoardMeansCellsDistinct(b: Board)
    requires Valid(b)
    ensures VerifyBoard(b) <==> CellsDistinct(b)
  {
    if VerifyBoard(b) {
      forall c, d | InBounds(c) && InBounds(d) && Peers(c, d) && GetTile(b, c).Filled? && GetTile(b, d).Filled?
        ensures GetTile(b, c).digit != GetTile(b, d).digit
      {
        VerifiedPeersDiffer(b, c, d);
      }
    }
    if CellsDistinct(b) {
      forall k | 0 <= k < BoardSize
        ensures NoRepeatedDigit(b.rows[k]) && NoRepeatedDigit(b.columns[k]) && NoRepeatedDigit(b.blocks[k])
      {
        CellsDistinctRows(b, k);
        CellsDistinctColumns(b, k);
        CellsDistinctBlocks(b, k);
      }
    }
  }

  /** `sub` agrees with `sup` on every cell `sub` fills. */
  ghost predicate Extends(sub: Board, sup: Board)
    requires WellFormed(sub) && WellFormed(sup)
  {
    forall c :: InBounds(c) && GetTile(sub, c).Filled? ==> GetTile(sup, c) == GetTile(sub, c)
  }

  /** Filling an Empty cell keeps every digit already there. */
  lemma ExtendsSetTile(b: Board, c: Coord, t: Tile)
    requires WellFormed(b) && InBounds(c) && GetTile(b, c).Empty?
    ensures Extends(b, SetTile(b, c, t))
  {
  }

  /** Every board keeps its own digits. */
  lemma ExtendsReflexive(b: Board)
    requires WellFormed(b)
    ensures Extends(b, b)
  {
  }

  /** Emptying a cell keeps every other digit. */
  lemma EmptyingExtends(b: Board, c: Coord)
    requires WellFormed(b) && InBounds(c)
    ensures Extends(SetTile(b, c, Empty), b)
  {
  }

  /** Keeping the digits of a board that keeps the digits of `a` keeps the digits of `a`. */
  lemma ExtendsTransitive(a: Board, b: Board, d: Board)
    requires WellFormed(a) && WellFormed(b) && WellFormed(d)
    requires Extends(a, b) && Extends(b, d)
    ensures Extends(a, d)
  {
  }

  /** Erasing digits never breaks the Sudoku rule: a board whose filled cells
      all agree with a verifying board verifies too. */
  lemma VerifyBoardSubAssignment(sub: Board, sup: Board)
    requires Valid(sub) && Valid(sup) && Extends(sub, sup) && VerifyBoard(sup)
    ensures VerifyBoard(sub)
  {
    VerifyBoardMeansCellsDistinct(sup);
    VerifyBoardMeansCellsDistinct(sub);
  }

  // ---------------------------------------------------------------------------
  // Completeness and enumeration of filled cells
  // ---------------------------------------------------------------------------

  /** `is_complete`: no row holds an Empty tile. */
  function IsComplete(b: Board): (r: bool)
    requires WellFormed(b)
    ensures r <==> forall c :: InBounds(c) ==> GetTile(b, c).Filled?
  {
    var r := !(exists i | 0 <= i < BoardSize :: exists j | 0 <= j < BoardSize :: b.rows[i][j].Empty?);
    assert !r ==> exists c :: InBounds(c) && GetTile(b, c).Empty? by {
      if !r {
        var i, j :| 0 <= i < BoardSize && 0 <= j < BoardSize && b.rows[i][j].Empty?;
        assert GetTile(b, Coord(j, i)).Empty?;
      }
    }
    r
  }

  /** The position of a cell in the column-major scan: x outer, y inner. */
  function ScanIndex(c: Coord): (k: nat)
    requires InBounds(c)
    ensures k < CellCount
  {
    c.x * BoardSize + c.y
  }

  /** The cells at or after scan position (x, y) are the cell (x, y) itself
      and the cells after it. */
  lemma ScanStep(x: nat, y: nat)
    requires x < BoardSize && y < BoardSize
    ensures ScanIndex(Coord(x, y)) == x * BoardSize + y
    ensures forall d :: InBounds(d) && x * BoardSize + y <= ScanIndex(d) ==> d == Coord(x, y) || x * BoardSize + y + 1 <= ScanIndex(d)
  {
    forall d | InBounds(d) && x * BoardSize + y == ScanIndex(d)
      ensures d == Coord(x, y)
    {
      assert d.x == x;
    }
  }

  /** A point the nested scan loops can reach: a cell, the end of a column,
      or the end of the whole scan. */
  predicate ScanPosition(x: nat, y: nat) {
    (x < BoardSize && y <= BoardSize) || (x == BoardSize && y == 0)
  }

  /** 1 for a filled tile, 0 for an empty one. */
  function FilledValue(t: Tile): nat {
    if t.Filled? then 1 else 0
  }

  /** The number of filled cells the scan meets from cell (x, y) on. */
  function CountFilledFrom(b: Board, x: nat, y: nat): nat
    requires WellFormed(b) && ScanPosition(x, y)
    decreases b, BoardSize - x, BoardSize - y
  {
    if x == BoardSize then 0
    else if y == BoardSize then CountFilledFrom(b, x + 1, 0)
    else FilledValue(GetTile(b, Coord(x, y))) + CountFilledFrom(b, x, y + 1)
  }

  /** At most every remaining cell is filled, and all of them are exactly
      when no remaining cell is Empty. */
  lemma {:induction false} CountFilledFromBound(b: Board, x: nat, y: nat)
    requires WellFormed(b) && ScanPosition(x, y)
    ensures CountFilledFrom(b, x, y) <= CellCount - (x * BoardSize + y)
    ensures CountFilledFrom(b, x, y) == CellCount - (x * BoardSize + y) <==>
      forall c :: InBounds(c) && x * BoardSize + y <= ScanIndex(c) ==> GetTile(b, c).Filled?
    decreases BoardSize - x, BoardSize - y
  {
    if x == BoardSize {
    } else if y == BoardSize {
      assert x * BoardSize + y == (x + 1) * BoardSize + 0;
      CountFilledFromBound(b, x + 1, 0);
    } else {
      CountFilledFromBound(b, x, y + 1);
      ScanStep(x, y);
    }
  }

  /** The filled cells the scan meets from cell (x, y) on, in scan order:
      the remaining iterations of the nested loops of `get_filled_tile_coords`. */
  function FilledFrom(b: Board, x: nat, y: nat): (r: seq<Coord>)
    requires WellFormed(b) && ScanPosition(x, y)
    ensures |r| == CountFilledFrom(b, x, y)
    ensures forall i :: 0 <= i < |r| ==> InBounds(r[i]) && GetTile(b, r[i]).Filled? && x * BoardSize + y <= ScanIndex(r[i])
    ensures forall i, j :: 0 <= i < j < |r| ==> ScanIndex(r[i]) < ScanIndex(r[j])
    decreases b, BoardSize - x, BoardSize - y
  {
    if x == BoardSize then []
    else if y == BoardSize then
      assert x * BoardSize + y == (x + 1) * BoardSize + 0;
      FilledFrom(b, x + 1, 0)
    else
      var c := Coord(x, y);
      var rest := FilledFrom(b, x, y + 1);
      ScanStep(x, y);
      if GetTile(b, c).Filled? then [c] + rest else rest
  }

  /** The scan from (x, y) on misses no filled cell. */
  lemma {:induction false} FilledFromListsAll(b: Board, x: nat, y: nat, c: Coord)
    requires WellFormed(b) && ScanPosition(x, y)
    requires InBounds(c) && GetTile(b, c).Filled? && x * BoardSize + y <= ScanIndex(c)
    ensures c in FilledFrom(b, x, y)
    decreases BoardSize - x, BoardSize - y
  {
    if y == BoardSize {
      assert x * BoardSize + y == (x + 1) * BoardSize + 0;
      FilledFromListsAll(b, x + 1, 0, c);
    } else {
      ScanStep(x, y);
      if c != Coord(x, y) {
        FilledFromListsAll(b, x, y + 1, c);
      }
    }
  }

  /** `get_filled_tile_coords`: exactly the filled cells, each once, in
      column-major order (x outer, y inner). */
  function GetFilledTileCoords(b: Board): (r: seq<Coord>)
    requires WellFormed(b)
    ensures forall i :: 0 <= i < |r| ==> InBounds(r[i]) && GetTile(b, r[i]).Filled?
    ensures forall c :: InBounds(c) && GetTile(b, c).Filled? ==> c in r
    ensures forall i, j :: 0 <= i < j < |r| ==> ScanIndex(r[i]) < ScanIndex(r[j])
  {
    var r := FilledFrom(b, 0, 0);
    assert forall c :: InBounds(c) && GetTile(b, c).Filled? ==> c in r by {
      forall c | InBounds(c) && GetTile(b, c).Filled? ensures c in r {
        FilledFromListsAll(b, 0, 0, c);
      }
    }
    r
  }

  /** The number of filled cells, as the source measures it. */
  function FilledCount(b: Board): (n: nat)
    requires WellFormed(b)
    ensures n <= CellCount
  {
    CountFilledFromBound(b, 0, 0);
    |GetFilledTileCoords(b)|
  }

  /** A board is complete exactly when all 81 cells are filled. */
  lemma CompleteIffAllFilled(b: Board)
    requires WellFormed(b)
    ensures IsComplete(b) <==> FilledCount(b) == CellCount
  {
    CountFilledFromBound(b, 0, 0);
  }

  /** Two boards that differ at most in cell `c` have scan counts that differ
      by what they hold at `c`. */
  lemma {:induction false} CountFilledFromDiffer(a: Board, b: Board, c: Coord, x: nat, y: nat)
    requires WellFormed(a) && WellFormed(b) && InBounds(c) && ScanPosition(x, y)
    requires forall d :: InBounds(d) && d != c ==> GetTile(a, d) == GetTile(b, d)
    ensures CountFilledFrom(a, x, y) + (if x * BoardSize + y <= ScanIndex(c) then FilledValue(GetTile(b, c)) else 0)
         == CountFilledFrom(b, x, y) + (if x * BoardSize + y <= ScanIndex(c) then FilledValue(GetTile(a, c)) else 0)
    decreases BoardSize - x, BoardSize - y
  {
    if x == BoardSize {
    } else if y == BoardSize {
      CountFilledFromDiffer(a, b, c, x + 1, 0);
    } else {
      CountFilledFromDiffer(a, b, c, x, y + 1);
    }
  }

  /** Writing a tile changes the filled count by exactly what happened to that
      one cell: filling an empty cell adds one, emptying a filled cell removes one. */
  lemma FilledCountSetTile(b: Board, c: Coord, t: Tile)
    requires WellFormed(b) && InBounds(c)
    ensures FilledCount(SetTile(b, c, t)) + FilledValue(GetTile(b, c)) == FilledCount(b) + FilledValue(t)
  {
    CountFilledFromDiffer(SetTile(b, c, t), b, c, 0, 0);
    assert FilledCount(b) == CountFilledFrom(b, 0, 0);
    assert FilledCount(SetTile(b, c, t)) == CountFilledFrom(SetTile(b, c, t), 0, 0);
  }
}
