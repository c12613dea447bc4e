/** Puzzle generation (src/engine/board_generator.rs): a randomized
    backtracking filler, a greedy carver that empties cells one at a time,
    and `new_board`, which runs the two in sequence. The random source is
    threaded through every call as an explicit `Rng`. */
module BoardGenerator {
  import opened HashSetNum
  import opened Board
  import opened Rand
  import opened SolutionWitness

  /** `BoardGeneratorError`. `MultipleSolutionsAvailable` is declared and
      matched by the source but never built. */
  datatype BoardGeneratorError =
    | NoNumberAvailable
    | MultipleSolutionsAvailable
    | NoDeletionsAvailable(board: Board)

  /** `BoardGeneratorResult<T>`. */
  datatype Result<T> = Ok(value: T) | Err(error: BoardGeneratorError)

  datatype Option<T> = None | Some(value: T)

  // ---------------------------------------------------------------------------
  // What a solution is
  // ---------------------------------------------------------------------------

  /** A solved Sudoku: every cell holds a digit 1..9 and no group repeats one. */
  ghost predicate IsSolution(s: Board) {
    Valid(s) && SudokuDigits(s) && IsComplete(s) && VerifyBoard(s)
  }

  /** Some solved Sudoku agrees with every filled cell of `b`. */
  ghost predicate HasSolution(b: Board)
    requires WellFormed(b)
  {
    exists s :: IsSolution(s) && Extends(b, s)
  }

  /** A board that fails `verify_board` cannot be completed. */
  lemma UnverifiedHasNoSolution(b: Board)
    requires Valid(b) && !VerifyBoard(b)
    ensures !HasSolution(b)
  {
    if HasSolution(b) {
      var s :| IsSolution(s) && Extends(b, s);
      VerifyBoardSubAssignment(b, s);
    }
  }

  // ---------------------------------------------------------------------------
  // Digit collection
  // ---------------------------------------------------------------------------

  /** The `filter_map` of `get_numbers_for_tiles`: the digits of the filled
      tiles, in order. */
  function FilledDigits(tiles: seq<Tile>): (ds: seq<Byte>)
    ensures forall d :: d in ds <==> Filled(d) in tiles
    ensures TilesInRange(tiles) ==> AllDigits(ds)
    decreases |tiles|
  {
    if |tiles| == 0 then []
    else
      var rest := FilledDigits(tiles[1..]);
      assert forall t :: t in tiles <==> t == tiles[0] || t in tiles[1..];
      match tiles[0]
      case Empty => rest
      case Filled(d) => [d] + rest
  }

  /** `get_numbers_for_tiles`: a digit is a member exactly when some tile is
      filled with it. */
  function GetNumbersForTiles(tiles: seq<Tile>): (s: SudokuHashSet)
    requires TilesInRange(tiles)
    ensures ValidSet(s)
    ensures forall d: Byte :: d < Capacity ==> (Contains(s, d) <==> Filled(d) in tiles)
  {
    FromIter(FilledDigits(tiles))
  }

  // ---------------------------------------------------------------------------
  // Filling
  // ---------------------------------------------------------------------------

  /** The digits from `n` to 9 that `excluding` does not hold, ascending:
      the candidate list of `update_board_with_random_number`, which filters
      the range 1..9 by the excluded set, read from `n` on. */
  function DigitsNotIn(excluding: SudokuHashSet, n: nat): (r: seq<Byte>)
    requires ValidSet(excluding) && 1 <= n <= 10
    ensures forall i :: 0 <= i < |r| ==> n <= r[i] <= 9
    decreases |excluding.data| - n
  {
    if n == 10 then []
    else if Contains(excluding, n) then DigitsNotIn(excluding, n + 1)
    else [n as Byte] + DigitsNotIn(excluding, n + 1)
  }

  /** A digit is a candidate exactly when it lies between `n` and 9 and
      `excluding` does not hold it. */
  lemma {:induction false} DigitsNotInMembers(excluding: SudokuHashSet, n: nat, d: Byte)
    requires ValidSet(excluding) && 1 <= n <= 10
    ensures d in DigitsNotIn(excluding, n) <==> n <= d <= 9 && !Contains(excluding, d)
    decreases |excluding.data| - n
  {
    if n < 10 {
      DigitsNotInMembers(excluding, n + 1, d);
    }
  }

  /** The Sudoku digits still open to the filler: the measure of its retry loop. */
  function Untried(excluding: SudokuHashSet): (r: set<Byte>)
    requires ValidSet(excluding)
    ensures forall d: Byte :: d in r <==> 1 <= d <= 9 && !Contains(excluding, d)
  {
    set d: Byte | 1 <= d <= 9 && !Contains(excluding, d)
  }

  /** Whether writing `n` at `coord` leaves a board that passes `verify_board`. */
  predicate Fits(board: Board, coord: Coord, n: Byte)
    requires Valid(board) && InBounds(coord) && 1 <= n <= 9
  {
    VerifyBoard(SetTile(board, coord, Filled(n)))
  }

  /** The digits 1..9 that fit at `coord`. Whether a digit fits does not
      depend on which digits were tried before it, so the loop's early exit
      can be modelled as a search in this set. */
  function FittingDigits(board: Board, coord: Coord): (r: set<Byte>)
    requires Valid(board) && InBounds(coord)
    ensures forall n: Byte :: n in r <==> 1 <= n <= 9 && Fits(board, coord, n)
  {
    set n: Byte | 1 <= n <= 9 && Fits(board, coord, n)
  }

  /** The loop of `update_board_with_random_number`: tries the candidates in
      order and stops at the first in `fits`; the result is its position.
      `PlaceFirstValidIsFirst` shows no earlier candidate is in `fits`. */
  function PlaceFirstValid(nums: seq<Byte>, fits: set<Byte>): (r: Result<nat>)
    ensures r.Ok? ==> r.value < |nums| && nums[r.value] in fits
    ensures r.Err? ==> r.error == NoNumberAvailable
    ensures r.Err? ==> forall i :: 0 <= i < |nums| ==> nums[i] !in fits
    decreases |nums|
  {
    if |nums| == 0 then Err(NoNumberAvailable)
    else if nums[0] in fits then Ok(0)
    else
      match PlaceFirstValid(nums[1..], fits)
      case Ok(i) =>
        assert nums[i + 1] == nums[1..][i];
        Ok(i + 1)
      case Err(e) =>
        assert forall j :: 0 < j < |nums| ==> nums[j] == nums[1..][j - 1];
        Err(e)
  }

  /** Every candidate before the one `PlaceFirstValid` settles on fails. */
  lemma {:induction false} PlaceFirstValidIsFirst(nums: seq<Byte>, fits: set<Byte>, j: nat)
    requires PlaceFirstValid(nums, fits).Ok? && j < PlaceFirstValid(nums, fits).value
    ensures nums[j] !in fits
    decreases |nums|
  {
    if j > 0 {
      PlaceFirstValidIsFirst(nums[1..], fits, j - 1);
      assert nums[1..][j - 1] == nums[j];
    }
  }

  /** `update_board_with_random_number`: shuffles the digits not excluded and
      places the first that keeps the board verifying. It fails exactly when
      every such digit breaks `verify_board`. */
  function UpdateBoardWithRandomNumber(board: Board, coord: Coord, excluding: SudokuHashSet, rng: Rng)
    : (r: (Result<(Byte, Board)>, Rng))
    requires Valid(board) && InBounds(coord) && ValidSet(excluding)
    ensures r.0.Ok? ==> 1 <= r.0.value.0 <= 9 && !Contains(excluding, r.0.value.0)
    ensures r.0.Ok? ==> r.0.value.1 == SetTile(board, coord, Filled(r.0.value.0)) && VerifyBoard(r.0.value.1)
    ensures r.0.Err? ==> r.0.error == NoNumberAvailable
    ensures r.0.Err? ==> forall n: Byte :: 1 <= n <= 9 && !Contains(excluding, n) ==> !Fits(board, coord, n)
  {
    var nums := DigitsNotIn(excluding, 1);
    var (shuffled, rng') := Shuffle(nums, rng);
    assert forall n: Byte :: n in shuffled <==> 1 <= n <= 9 && !Contains(excluding, n) by {
      forall n: Byte ensures n in shuffled <==> 1 <= n <= 9 && !Contains(excluding, n) {
        ShuffleSameElements(nums, rng, n);
        DigitsNotInMembers(excluding, 1, n);
      }
    }
    var fits := FittingDigits(board, coord);
    match PlaceFirstValid(shuffled, fits)
    case Ok(i) =>
      var n := shuffled[i];
      assert n in shuffled;
      (Ok((n, SetTile(board, coord, Filled(n)))), rng')
    case Err(e) =>
      assert forall n: Byte :: 1 <= n <= 9 && !Contains(excluding, n) ==> !Fits(board, coord, n) by {
        forall n: Byte | 1 <= n <= 9 && !Contains(excluding, n) ensures !Fits(board, coord, n) {
          assert n in shuffled;
          var i :| 0 <= i < |shuffled| && shuffled[i] == n;
        }
      }
      (Err(e), rng')
  }

  /** The first Empty cell of the scan from (x, y) on, with `x` in the outer
      loop and `y` in the inner one, as in `try_fill_board`. */
  function FirstEmptyFrom(b: Board, x: nat, y: nat): (r: Option<Coord>)
    requires WellFormed(b) && ScanPosition(x, y)
    ensures r.Some? ==> InBounds(r.value) && GetTile(b, r.value).Empty? && x * BoardSize + y <= ScanIndex(r.value)
    ensures r.Some? ==> forall c :: InBounds(c) && x * BoardSize + y <= ScanIndex(c) < ScanIndex(r.value) ==>
      GetTile(b, c).Filled?
    ensures r.None? <==> forall c :: InBounds(c) && x * BoardSize + y <= ScanIndex(c) ==> GetTile(b, c).Filled?
    decreases b, BoardSize - x, BoardSize - y
  {
    if x == BoardSize then None
    else if y == BoardSize then
      assert x * BoardSize + y == (x + 1) * BoardSize + 0;
      FirstEmptyFrom(b, x + 1, 0)
    else
      var c := Coord(x, y);
      ScanStep(x, y);
      if GetTile(b, c).Empty? then Some(c) else FirstEmptyFrom(b, x, y + 1)
  }

  /** The number of Empty cells: the measure of the filler's recursion. */
  function EmptyCount(b: Board): nat
    requires WellFormed(b)
  {
    CellCount - FilledCount(b)
  }

  /** Filling an Empty cell leaves one Empty cell fewer. */
  lemma FillingShrinksEmpty(b: Board, c: Coord, n: Byte)
    requires Valid(b) && InBounds(c) && GetTile(b, c).Empty? && 1 <= n <= 9
    ensures EmptyCount(SetTile(b, c, Filled(n))) < EmptyCount(b)
  {
    FilledCountSetTile(b, c, Filled(n));
  }

  /** Excluding an untried digit leaves one untried digit fewer. */
  lemma UntriedShrinks(excluding: SudokuHashSet, n: Byte)
    requires ValidSet(excluding) && 1 <= n <= 9 && !Contains(excluding, n)
    ensures |Untried(Insert(excluding, n))| < |Untried(excluding)|
  {
    assert Untried(Insert(excluding, n)) == Untried(excluding) - {n};
  }

  /** `solved` is a finished board that keeps every digit of `board`, and it
      uses only Sudoku digits if `board` does. */
  ghost predicate Completes(board: Board, solved: Board)
    requires WellFormed(board)
  {
    && Valid(solved) && IsComplete(solved) && Extends(board, solved)
    && (SudokuDigits(board) ==> SudokuDigits(solved))
  }

  /** A completion of the board with one more digit written into an Empty
      cell is a completion of the board itself. */
  lemma CompletesAfterSetTile(board: Board, coord: Coord, n: Byte, solved: Board)
    requires Valid(board) && InBounds(coord) && GetTile(board, coord).Empty? && 1 <= n <= 9
    requires Completes(SetTile(board, coord, Filled(n)), solved)
    ensures Completes(board, solved)
  {
    ExtendsSetTile(board, coord, Filled(n));
    ExtendsTransitive(board, SetTile(board, coord, Filled(n)), solved);
    if SudokuDigits(board) {
      SetTileSudokuDigits(board, coord, n);
    }
  }

  /** `try_fill_board`: completes the board by backtracking at the first
      Empty cell in scan order. On success the result is complete, keeps
      every digit of the input, and verifies unless the input was already
      complete (then it is the input itself). The only failure is
      `NoNumberAvailable`; the `panic!` after the loops is unreachable. */
  function TryFillBoard(board: Board, rng: Rng): (r: (Result<Board>, Rng))
    requires Valid(board)
    ensures r.0.Ok? ==> Completes(board, r.0.value)
    ensures r.0.Ok? && !IsComplete(board) ==> VerifyBoard(r.0.value)
    ensures IsComplete(board) ==> r.0 == Ok(board)
    ensures r.0.Err? ==> r.0.error == NoNumberAvailable
    decreases EmptyCount(board), 1, 0
  {
    match FirstEmptyFrom(board, 0, 0)
    case Some(coord) => FillCell(board, coord, New(), rng)
    case None =>
      if IsComplete(board) then (Ok(board), rng)
      else assert false; (Err(NoNumberAvailable), rng)
  }

  /** The retry loop of `try_fill_board` at the Empty cell `coord`: place a
      random digit not yet excluded, recurse, and on `NoNumberAvailable`
      exclude that digit and try again. */
  function FillCell(board: Board, coord: Coord, excluding: SudokuHashSet, rng: Rng): (r: (Result<Board>, Rng))
    requires Valid(board) && InBounds(coord) && GetTile(board, coord).Empty? && ValidSet(excluding)
    ensures r.0.Ok? ==> Completes(board, r.0.value) && VerifyBoard(r.0.value)
    ensures r.0.Err? ==> r.0.error == NoNumberAvailable
    decreases EmptyCount(board), 0, |Untried(excluding)|
  {
    var (placed, rng1) := UpdateBoardWithRandomNumber(board, coord, excluding, rng);
    match placed
    case Err(e) => (Err(e), rng1)
    case Ok((num, next)) =>
      FillingShrinksEmpty(board, coord, num);
      UntriedShrinks(excluding, num);
      var excluding' := Insert(excluding, num);
      var (filled, rng2) := TryFillBoard(next, rng1);
      match filled
      case Ok(solved) =>
        CompletesAfterSetTile(board, coord, num, solved);
        (Ok(solved), rng2)
      case Err(NoNumberAvailable) => FillCell(board, coord, excluding', rng2)
      case Err(e) => (Err(e), rng2)
  }

  // ---------------------------------------------------------------------------
  // The filler is sound and complete
  // ---------------------------------------------------------------------------

  /** A solved board holds a Sudoku digit in every cell. */
  lemma SolutionDigit(s: Board, c: Coord)
    requires IsSolution(s) && InBounds(c)
    ensures GetTile(s, c).Filled? && 1 <= GetTile(s, c).digit <= 9
  {
  }

  /** The digit a completion holds at `coord` fits there, and the completion
      also completes the board with that digit written in. */
  lemma SolutionDigitFits(board: Board, coord: Coord, s: Board)
    requires Valid(board) && InBounds(coord)
    requires IsSolution(s) && Extends(board, s)
    ensures GetTile(s, coord).Filled? && 1 <= GetTile(s, coord).digit <= 9
    ensures Extends(SetTile(board, coord, GetTile(s, coord)), s)
    ensures Fits(board, coord, GetTile(s, coord).digit)
  {
    SolutionDigit(s, coord);
    var next := SetTile(board, coord, GetTile(s, coord));
    assert Extends(next, s);
    VerifyBoardSubAssignment(next, s);
  }

  /** If every completion must hold at `coord` a digit of the empty set,
      there is no completion. */
  lemma NothingExcludedNoSolution(board: Board, coord: Coord)
    requires WellFormed(board) && InBounds(coord)
    requires forall s :: IsSolution(s) && Extends(board, s) ==>
      GetTile(s, coord).Filled? && Contains(New(), GetTile(s, coord).digit)
    ensures !HasSolution(board)
  {
  }

  /** When the filler fails, the board has no completion: the backtracking
      search misses none. */
  lemma {:induction false} TryFillBoardComplete(board: Board, rng: Rng)
    requires Valid(board)
    requires TryFillBoard(board, rng).0.Err?
    ensures !HasSolution(board)
    decreases EmptyCount(board), 1, 0
  {
    var first := FirstEmptyFrom(board, 0, 0);
    if first.Some? {
      FillCellComplete(board, first.value, New(), rng);
      NothingExcludedNoSolution(board, first.value);
    }
  }

  /** When the retry loop at `coord` fails, every completion of the board
      holds at `coord` a digit the loop had already excluded. */
  lemma {:induction false} FillCellComplete(board: Board, coord: Coord, excluding: SudokuHashSet, rng: Rng)
    requires Valid(board) && InBounds(coord) && GetTile(board, coord).Empty? && ValidSet(excluding)
    requires FillCell(board, coord, excluding, rng).0.Err?
    ensures forall s :: IsSolution(s) && Extends(board, s) ==>
      GetTile(s, coord).Filled? && Contains(excluding, GetTile(s, coord).digit)
    decreases EmptyCount(board), 0, |Untried(excluding)|
  {
    var (placed, rng1) := UpdateBoardWithRandomNumber(board, coord, excluding, rng);
    match placed
    case Err(_) =>
      forall s | IsSolution(s) && Extends(board, s)
        ensures GetTile(s, coord).Filled? && Contains(excluding, GetTile(s, coord).digit)
      {
        SolutionDigitFits(board, coord, s);
      }
    case Ok((num, next)) =>
      FillingShrinksEmpty(board, coord, num);
      UntriedShrinks(excluding, num);
      var excluding' := Insert(excluding, num);
      var (filled, rng2) := TryFillBoard(next, rng1);
      assert filled.Err?;
      TryFillBoardComplete(next, rng1);
      assert FillCell(board, coord, excluding', rng2).0.Err?;
      FillCellComplete(board, coord, excluding', rng2);
      forall s | IsSolution(s) && Extends(board, s)
        ensures GetTile(s, coord).Filled? && Contains(excluding, GetTile(s, coord).digit)
      {
        RetryKeepsExclusion(board, coord, excluding, num, s);
      }
  }

  /** A completion that holds a digit of `excluding` plus `num` at `coord`
      holds one of `excluding` when writing `num` there leaves no completion. */
  lemma RetryKeepsExclusion(board: Board, coord: Coord, excluding: SudokuHashSet, num: Byte, s: Board)
    requires Valid(board) && InBounds(coord) && ValidSet(excluding) && 1 <= num <= 9
    requires !HasSolution(SetTile(board, coord, Filled(num)))
    requires IsSolution(s) && Extends(board, s)
    requires GetTile(s, coord).Filled? && Contains(Insert(excluding, num), GetTile(s, coord).digit)
    ensures Contains(excluding, GetTile(s, coord).digit)
  {
    SolutionDigitFits(board, coord, s);
  }

  /** On a board that verifies and uses only Sudoku digits, the filler
      succeeds exactly when the board has a completion. */
  lemma TryFillBoardDecides(board: Board, rng: Rng)
    requires Valid(board) && SudokuDigits(board) && VerifyBoard(board)
    ensures TryFillBoard(board, rng).0.Ok? <==> HasSolution(board)
  {
    var (filled, _) := TryFillBoard(board, rng);
    if filled.Ok? {
      assert IsSolution(filled.value) && Extends(board, filled.value);
    } else {
      TryFillBoardComplete(board, rng);
    }
  }

  // ---------------------------------------------------------------------------
  // Carving
  // ---------------------------------------------------------------------------

  /** The digits 1..9 other than `original`, ascending: the alternatives
      `try_empty_board` tries in place of a cell's digit. */
  function OtherDigits(original: Byte): (r: seq<Byte>)
    requires original < Capacity
    ensures forall d: Byte :: d in r <==> 1 <= d <= 9 && d != original
    ensures forall i :: 0 <= i < |r| ==> 1 <= r[i] <= 9 && r[i] != original
  {
    var r := DigitsNotIn(Insert(New(), original), 1);
    assert forall d: Byte :: d in r <==> 1 <= d <= 9 && d != original by {
      forall d: Byte ensures d in r <==> 1 <= d <= 9 && d != original {
        DigitsNotInMembers(Insert(New(), original), 1, d);
      }
    }
    assert forall i :: 0 <= i < |r| ==> r[i] in r;
    r
  }

  /** Writing `d` at `coord` leaves a board that some solved Sudoku extends. */
  ghost predicate CompletableWith(board: Board, coord: Coord, d: Byte)
    requires Valid(board) && InBounds(coord) && 1 <= d <= 9
  {
    HasSolution(SetTile(board, coord, Filled(d)))
  }

  /** One round of the inner loop of `try_empty_board`: write `d` at
      `coord`; if the board still verifies, ask `try_fill_board` to complete
      it. The result says whether `d` is an option; a filler error other
      than `NoNumberAvailable` would be passed on, and the filler raises none. */
  function TryCandidate(board: Board, coord: Coord, d: Byte, rng: Rng): (r: (Result<bool>, Rng))
    requires Valid(board) && InBounds(coord) && 1 <= d <= 9
    ensures r.0.Ok?
  {
    var updated := SetTile(board, coord, Filled(d));
    if !VerifyBoard(updated) then (Ok(false), rng)
    else
      var (filled, rng1) := TryFillBoard(updated, rng);
      match filled
      case Ok(_) => (Ok(true), rng1)
      case Err(e) =>
        if e == MultipleSolutionsAvailable then (Ok(true), rng1)
        else if e == NoNumberAvailable then (Ok(false), rng1)
        else (Err(e), rng1)
  }

  /** The inner loop of `try_empty_board` for the filled cell `coord`: every
      candidate that is an option appends `coord` to the unreplaceable list
      (once per option) and sets `has_options`; the loop runs through all
      candidates. */
  function CheckAlternatives(board: Board, coord: Coord, digits: seq<Byte>, unreplaceable: seq<Coord>,
                             hasOptions: bool, rng: Rng): (r: (Result<(bool, seq<Coord>)>, Rng))
    requires Valid(board) && InBounds(coord)
    requires forall i :: 0 <= i < |digits| ==> 1 <= digits[i] <= 9
    ensures r.0.Ok?
    ensures r.0.Ok? ==> unreplaceable <= r.0.value.1
    ensures r.0.Ok? ==> forall i :: |unreplaceable| <= i < |r.0.value.1| ==> r.0.value.1[i] == coord
    ensures r.0.Ok? ==> (r.0.value.0 <==> hasOptions || |unreplaceable| < |r.0.value.1|)
    decreases |digits|
  {
    if |digits| == 0 then (Ok((hasOptions, unreplaceable)), rng)
    else
      var (option, rng1) := TryCandidate(board, coord, digits[0], rng);
      match option
      case Err(e) => (Err(e), rng1)
      case Ok(found) =>
        var unreplaceable' := if found then unreplaceable + [coord] else unreplaceable;
        var r := CheckAlternatives(board, coord, digits[1..], unreplaceable', hasOptions || found, rng1);
        assert forall i :: |unreplaceable| <= i < |unreplaceable'| ==> unreplaceable'[i] == coord;
        r
  }

  /** The digits 1..9 that leave a completable board when written at `coord`. */
  ghost function CompletableDigits(board: Board, coord: Coord): (r: set<Byte>)
    requires Valid(board) && InBounds(coord)
    ensures forall d: Byte :: d in r <==> 1 <= d <= 9 && CompletableWith(board, coord, d)
  {
    set d: Byte | 1 <= d <= 9 && CompletableWith(board, coord, d)
  }

  /** A candidate is an option exactly when the board with it written in
      has a completion. */
  lemma CandidateIsOption(board: Board, coord: Coord, d: Byte, rng: Rng)
    requires Valid(board) && InBounds(coord) && SudokuDigits(board) && 1 <= d <= 9
    ensures TryCandidate(board, coord, d, rng).0.value <==> d in CompletableDigits(board, coord)
  {
    var updated := SetTile(board, coord, Filled(d));
    SetTileSudokuDigits(board, coord, d);
    if VerifyBoard(updated) {
      TryFillBoardDecides(updated, rng);
    } else {
      UnverifiedHasNoSolution(updated);
    }
  }

  /** `has_options` ends up set exactly when it was set already or some
      candidate digit at `coord` leaves a completable board. */
  lemma {:induction false} CheckAlternativesMeaning(board: Board, coord: Coord, digits: seq<Byte>,
                                                    unreplaceable: seq<Coord>, hasOptions: bool, rng: Rng)
    requires Valid(board) && InBounds(coord) && SudokuDigits(board)
    requires forall i :: 0 <= i < |digits| ==> 1 <= digits[i] <= 9
    ensures CheckAlternatives(board, coord, digits, unreplaceable, hasOptions, rng).0.value.0 <==>
      hasOptions || exists i :: 0 <= i < |digits| && digits[i] in CompletableDigits(board, coord)
    decreases |digits|
  {
    if |digits| > 0 {
      var rest := digits[1..];
      var (option, rng1) := TryCandidate(board, coord, digits[0], rng);
      CandidateIsOption(board, coord, digits[0], rng);
      var found := option.value;
      CheckAlternativesMeaning(board, coord, rest, if found then unreplaceable + [coord] else unreplaceable,
                               hasOptions || found, rng1);
      assert forall i :: 0 < i < |digits| ==> digits[i] == rest[i - 1];
    }
  }

  /** Every digit other than the one at `coord` leaves a board no solved
      Sudoku extends: the cell is determined by the rest of the board. */
  ghost predicate Forced(board: Board, coord: Coord)
    requires Valid(board) && InBounds(coord) && GetTile(board, coord).Filled?
  {
    CompletableDigits(board, coord) <= {GetTile(board, coord).digit}
  }

  /** The inner loop of `try_empty_board` run over every digit other than
      the one at the filled cell `coord` reports an option. */
  predicate HasOptions(board: Board, coord: Coord, unreplaceable: seq<Coord>, rng: Rng)
    requires Valid(board) && InBounds(coord) && GetTile(board, coord).Filled?
  {
    CheckAlternatives(board, coord, OtherDigits(GetTile(board, coord).digit), unreplaceable, false, rng).0.value.0
  }

  /** The inner loop over all other digits finds an option exactly when the
      cell is not forced, whatever the unreplaceable list and the random source. */
  lemma OptionsIffNotForced(board: Board, coord: Coord, unreplaceable: seq<Coord>, rng: Rng)
    requires Valid(board) && SudokuDigits(board) && InBounds(coord) && GetTile(board, coord).Filled?
    ensures HasOptions(board, coord, unreplaceable, rng) <==> !Forced(board, coord)
  {
    var original := GetTile(board, coord).digit;
    var digits := OtherDigits(original);
    CheckAlternativesMeaning(board, coord, digits, unreplaceable, false, rng);
    if !Forced(board, coord) {
      var d :| d in CompletableDigits(board, coord) && d != original;
      assert d in digits;
    }
  }

  /** The coordinates of `xs` that `ys` does not list, in their original
      order: the filled cells not yet marked unreplaceable. */
  function FilterOut(xs: seq<Coord>, ys: seq<Coord>): (r: seq<Coord>)
    ensures forall c :: c in r <==> c in xs && c !in ys
    ensures |r| <= |xs|
    decreases |xs|
  {
    if |xs| == 0 then []
    else
      assert forall c :: c in xs <==> c == xs[0] || c in xs[1..];
      (if xs[0] in ys then [] else [xs[0]]) + FilterOut(xs[1..], ys)
  }

  /** The `for random_tile_coord in filled_coords` loop of `try_empty_board`:
      runs the inner loop on each candidate in turn and stops at the first
      one without options, which is the cell to empty. The result is that
      cell, if any, and the grown unreplaceable list. Every candidate is a
      filled cell, so the `panic!` on an Empty one is unreachable. */
  function FindRemovable(board: Board, candidates: seq<Coord>, unreplaceable: seq<Coord>, rng: Rng)
    : (r: (Result<(Option<Coord>, seq<Coord>)>, Rng))
    requires Valid(board)
    requires forall i :: 0 <= i < |candidates| ==> InBounds(candidates[i]) && GetTile(board, candidates[i]).Filled?
    ensures r.0.Ok?
    ensures r.0.Ok? && r.0.value.0.Some? ==> r.0.value.0.value in candidates
    ensures r.0.Ok? && r.0.value.0.Some? ==>
      InBounds(r.0.value.0.value) && GetTile(board, r.0.value.0.value).Filled?
    ensures r.0.Ok? ==> unreplaceable <= r.0.value.1
    decreases |candidates|
  {
    if |candidates| == 0 then (Ok((None, unreplaceable)), rng)
    else
      var coord := candidates[0];
      match GetTile(board, coord)
      case Empty => assert false; (Ok((None, unreplaceable)), rng)
      case Filled(original) =>
        var (checked, rng1) := CheckAlternatives(board, coord, OtherDigits(original), unreplaceable, false, rng);
        match checked
        case Err(e) => (Err(e), rng1)
        case Ok((hasOptions, unreplaceable')) =>
          if !hasOptions then (Ok((Some(coord), unreplaceable')), rng1)
          else FindRemovable(board, candidates[1..], unreplaceable', rng1)
  }

  /** One step of the scan: the first candidate either is the cell picked or
      the scan continues on the rest with the grown list and advanced draws. */
  lemma FindRemovableStep(board: Board, candidates: seq<Coord>, unreplaceable: seq<Coord>, rng: Rng,
                          checked: (bool, seq<Coord>), rng1: Rng)
    requires Valid(board) && |candidates| > 0
    requires forall i :: 0 <= i < |candidates| ==> InBounds(candidates[i]) && GetTile(board, candidates[i]).Filled?
    requires (Ok(checked), rng1) ==
      CheckAlternatives(board, candidates[0], OtherDigits(GetTile(board, candidates[0]).digit), unreplaceable, false, rng)
    ensures forall i :: 0 <= i < |candidates| - 1 ==>
      InBounds(candidates[1..][i]) && GetTile(board, candidates[1..][i]).Filled?
    ensures checked.0 == HasOptions(board, candidates[0], unreplaceable, rng)
    ensures !checked.0 ==> FindRemovable(board, candidates, unreplaceable, rng).0.value.0 == Some(candidates[0])
    ensures checked.0 ==>
      FindRemovable(board, candidates, unreplaceable, rng) == FindRemovable(board, candidates[1..], checked.1, rng1)
    ensures FindRemovable(board, candidates, unreplaceable, rng).0.value.0.None? ==>
      checked.0 && FindRemovable(board, candidates[1..], checked.1, rng1).0.value.0.None?
  {
  }

  /** The cell the scan picks had no options for the list and draws it was
      checked with; those are returned. */
  lemma {:induction false} FindRemovableMissed(board: Board, candidates: seq<Coord>, unreplaceable: seq<Coord>, rng: Rng)
    returns (u: seq<Coord>, g: Rng)
    requires Valid(board)
    requires forall i :: 0 <= i < |candidates| ==> InBounds(candidates[i]) && GetTile(board, candidates[i]).Filled?
    requires FindRemovable(board, candidates, unreplaceable, rng).0.value.0.Some?
    ensures !HasOptions(board, FindRemovable(board, candidates, unreplaceable, rng).0.value.0.value, u, g)
    decreases |candidates|
  {
    var (checked, rng1) :=
      CheckAlternatives(board, candidates[0], OtherDigits(GetTile(board, candidates[0]).digit), unreplaceable, false, rng);
    FindRemovableStep(board, candidates, unreplaceable, rng, checked.value, rng1);
    if checked.value.0 {
      u, g := FindRemovableMissed(board, candidates[1..], checked.value.1, rng1);
    } else {
      u, g := unreplaceable, rng;
    }
  }

  /** The scan of `candidates`, all filled cells, picks no cell. */
  ghost predicate ScanFindsNone(board: Board, candidates: seq<Coord>, unreplaceable: seq<Coord>, rng: Rng)
  {
    && Valid(board)
    && (forall i :: 0 <= i < |candidates| ==> InBounds(candidates[i]) && GetTile(board, candidates[i]).Filled?)
    && FindRemovable(board, candidates, unreplaceable, rng).0.value.0.None?
  }

  /** When the scan picks no cell, the first candidate had options. */
  lemma FindRemovableFirstFound(board: Board, candidates: seq<Coord>, unreplaceable: seq<Coord>, rng: Rng)
    requires ScanFindsNone(board, candidates, unreplaceable, rng) && |candidates| > 0
    ensures HasOptions(board, candidates[0], unreplaceable, rng)
  {
    var (checked, rng1) :=
      CheckAlternatives(board, candidates[0], OtherDigits(GetTile(board, candidates[0]).digit), unreplaceable, false, rng);
    FindRemovableStep(board, candidates, unreplaceable, rng, checked.value, rng1);
  }

  /** When the scan picks no cell, the scan of the rest, with the grown list
      and advanced draws returned, picks no cell either; a candidate other
      than the first is among the rest. */
  lemma FindRemovableNext(board: Board, candidates: seq<Coord>, unreplaceable: seq<Coord>, rng: Rng, c: Coord)
    returns (rest: seq<Coord>, unreplaceable': seq<Coord>, rng': Rng)
    requires ScanFindsNone(board, candidates, unreplaceable, rng) && c in candidates && c != candidates[0]
    ensures ScanFindsNone(board, rest, unreplaceable', rng') && c in rest && |rest| < |candidates|
  {
    var (checked, rng1) :=
      CheckAlternatives(board, candidates[0], OtherDigits(GetTile(board, candidates[0]).digit), unreplaceable, false, rng);
    FindRemovableStep(board, candidates, unreplaceable, rng, checked.value, rng1);
    rest, unreplaceable', rng' := candidates[1..], checked.value.1, rng1;
    TailMember(candidates, c);
  }

  /** An element other than the head of a sequence is in its tail. */
  lemma TailMember<T>(s: seq<T>, x: T)
    requires x in s && |s| > 0 && x != s[0]
    ensures x in s[1..]
  {
    assert s == [s[0]] + s[1..];
  }

  /** Every candidate is a filled cell on the board. */
  lemma CandidateFilled(board: Board, candidates: seq<Coord>, unreplaceable: seq<Coord>, rng: Rng, c: Coord)
    requires ScanFindsNone(board, candidates, unreplaceable, rng) && c in candidates
    ensures InBounds(c) && GetTile(board, c).Filled?
  {
  }

  /** When the scan picks no cell, the candidate `c` had options for the
      list and draws it was checked with; those are returned. */
  lemma {:induction false} FindRemovableFound(board: Board, candidates: seq<Coord>, unreplaceable: seq<Coord>, rng: Rng, c: Coord)
    returns (u: seq<Coord>, g: Rng)
    requires ScanFindsNone(board, candidates, unreplaceable, rng) && c in candidates
    ensures InBounds(c) && GetTile(board, c).Filled? && HasOptions(board, c, u, g)
    decreases |candidates|
  {
    CandidateFilled(board, candidates, unreplaceable, rng, c);
    if c == candidates[0] {
      FindRemovableFirstFound(board, candidates, unreplaceable, rng);
      u, g := unreplaceable, rng;
    } else {
      var rest, unreplaceable', rng' := FindRemovableNext(board, candidates, unreplaceable, rng, c);
      u, g := FindRemovableFound(board, rest, unreplaceable', rng', c);
    }
  }

  /** The cell the scan picks is forced. */
  lemma FindRemovableForced(board: Board, candidates: seq<Coord>, unreplaceable: seq<Coord>, rng: Rng)
    requires Valid(board) && SudokuDigits(board)
    requires forall i :: 0 <= i < |candidates| ==> InBounds(candidates[i]) && GetTile(board, candidates[i]).Filled?
    requires FindRemovable(board, candidates, unreplaceable, rng).0.value.0.Some?
    ensures Forced(board, FindRemovable(board, candidates, unreplaceable, rng).0.value.0.value)
  {
    var coord := FindRemovable(board, candidates, unreplaceable, rng).0.value.0.value;
    var u, g := FindRemovableMissed(board, candidates, unreplaceable, rng);
    OptionsIffNotForced(board, coord, u, g);
  }

  /** When the scan picks no cell, no candidate is forced. */
  lemma FindRemovableNoneForced(board: Board, candidates: seq<Coord>, unreplaceable: seq<Coord>, rng: Rng, c: Coord)
    requires Valid(board) && SudokuDigits(board)
    requires forall i :: 0 <= i < |candidates| ==> InBounds(candidates[i]) && GetTile(board, candidates[i]).Filled?
    requires FindRemovable(board, candidates, unreplaceable, rng).0.value.0.None?
    requires c in candidates
    ensures InBounds(c) && GetTile(board, c).Filled? && !Forced(board, c)
  {
    var u, g := FindRemovableFound(board, candidates, unreplaceable, rng, c);
    OptionsIffNotForced(board, c, u, g);
  }

  /** Emptying a forced cell loses no information: every solved Sudoku that
      extends the smaller board extends the board before. */
  lemma EmptiedForcedCell(board: Board, coord: Coord, s: Board)
    requires Valid(board) && InBounds(coord) && GetTile(board, coord).Filled? && Forced(board, coord)
    requires IsSolution(s) && Extends(SetTile(board, coord, Empty), s)
    ensures Extends(board, s)
  {
    SolutionDigit(s, coord);
    var d := GetTile(s, coord).digit;
    var next := SetTile(board, coord, Filled(d));
    assert Extends(next, s);
    assert d in CompletableDigits(board, coord);
  }

  /** Emptying a cell keeps every filled tile a Sudoku digit. */
  lemma EmptyingKeepsSudokuDigits(board: Board, coord: Coord)
    requires Valid(board) && InBounds(coord) && SudokuDigits(board)
    ensures SudokuDigits(SetTile(board, coord, Empty))
  {
  }

  /** The shuffled candidates of a round are filled cells outside the
      unreplaceable list. */
  lemma ShuffledCandidates(board: Board, unreplaceable: seq<Coord>, rng: Rng, shuffled: seq<Coord>)
    requires WellFormed(board)
    requires shuffled == Shuffle(FilterOut(GetFilledTileCoords(board), unreplaceable), rng).0
    ensures forall i :: 0 <= i < |shuffled| ==>
      InBounds(shuffled[i]) && GetTile(board, shuffled[i]).Filled? && shuffled[i] !in unreplaceable
    ensures forall c :: c in shuffled ==> c !in unreplaceable
  {
    var filled := GetFilledTileCoords(board);
    var candidates := FilterOut(filled, unreplaceable);
    forall i | 0 <= i < |shuffled|
      ensures InBounds(shuffled[i]) && GetTile(board, shuffled[i]).Filled? && shuffled[i] !in unreplaceable
    {
      ShuffleSameElements(candidates, rng, shuffled[i]);
      assert shuffled[i] in filled;
    }
  }

  /** One round of `try_empty_board`: list the filled cells, drop the
      unreplaceable ones, shuffle the rest and scan them for a cell without
      options. The cell found is filled, on the board and not unreplaceable. */
  function CarveRound(board: Board, unreplaceable: seq<Coord>, rng: Rng)
    : (r: (Result<(Option<Coord>, seq<Coord>)>, Rng))
    requires Valid(board)
    ensures r.0.Ok?
    ensures r.0.Ok? && r.0.value.0.Some? ==>
      InBounds(r.0.value.0.value) && GetTile(board, r.0.value.0.value).Filled? && r.0.value.0.value !in unreplaceable
    ensures r.0.Ok? ==> unreplaceable <= r.0.value.1
  {
    var (shuffled, rng1) := Shuffle(FilterOut(GetFilledTileCoords(board), unreplaceable), rng);
    ShuffledCandidates(board, unreplaceable, rng, shuffled);
    FindRemovable(board, shuffled, unreplaceable, rng1)
  }

  /** The cell a round picks is forced. */
  lemma CarveRoundForced(board: Board, unreplaceable: seq<Coord>, rng: Rng)
    requires Valid(board) && SudokuDigits(board)
    requires CarveRound(board, unreplaceable, rng).0.value.0.Some?
    ensures Forced(board, CarveRound(board, unreplaceable, rng).0.value.0.value)
  {
    var (shuffled, rng1) := Shuffle(FilterOut(GetFilledTileCoords(board), unreplaceable), rng);
    ShuffledCandidates(board, unreplaceable, rng, shuffled);
    FindRemovableForced(board, shuffled, unreplaceable, rng1);
  }

  /** A round that picks no cell has tested every filled cell outside the
      unreplaceable list and found an option for each: none of them is forced. */
  lemma CarveRoundNoneForced(board: Board, unreplaceable: seq<Coord>, rng: Rng, c: Coord)
    requires Valid(board) && SudokuDigits(board)
    requires CarveRound(board, unreplaceable, rng).0.value.0.None?
    requires InBounds(c) && GetTile(board, c).Filled? && c !in unreplaceable
    ensures !Forced(board, c)
  {
    var (shuffled, rng1) := Shuffle(FilterOut(GetFilledTileCoords(board), unreplaceable), rng);
    ShuffledCandidates(board, unreplaceable, rng, shuffled);
    ShuffleSameElements(FilterOut(GetFilledTileCoords(board), unreplaceable), rng, c);
    FindRemovableNoneForced(board, shuffled, unreplaceable, rng1, c);
  }

  /** `try_empty_board`: empties one forced cell per round, skipping the
      unreplaceable ones, until exactly `desired` cells are filled. A round
      always empties a cell before it compares the count, so a target at or
      above the current count is never met. When no candidate can be
      emptied the result is `NoDeletionsAvailable` with the board of that
      round. */
  function TryEmptyBoard(board: Board, desired: nat, unreplaceable: seq<Coord>, rng: Rng): (r: (Result<Board>, Rng))
    requires Valid(board)
    ensures r.0.Ok? ==> Valid(r.0.value)
    ensures r.0.Err? ==> r.0.error.NoDeletionsAvailable? && Valid(r.0.error.board)
    decreases FilledCount(board)
  {
    var (scan, rng1) := CarveRound(board, unreplaceable, rng);
    match scan
    case Err(e) => (Err(e), rng1)
    case Ok((None, _)) => (Err(NoDeletionsAvailable(board)), rng1)
    case Ok((Some(coord), unreplaceable')) =>
      var next := SetTile(board, coord, Empty);
      FilledCountSetTile(board, coord, Empty);
      if FilledCount(next) == desired then (Ok(next), rng1)
      else TryEmptyBoard(next, desired, unreplaceable', rng1)
  }

  /** The board a carving run ends with: the result on success, the board
      carried by `NoDeletionsAvailable` otherwise. */
  function CarvedBoard(r: Result<Board>): Board
    requires r.Ok? || r.error.NoDeletionsAvailable?
  {
    if r.Ok? then r.value else r.error.board
  }

  /** On success exactly `desired` cells are left, fewer than the input had:
      every round empties one cell before the count is compared. */
  lemma {:induction false} TryEmptyBoardCount(board: Board, desired: nat, unreplaceable: seq<Coord>, rng: Rng)
    requires Valid(board) && TryEmptyBoard(board, desired, unreplaceable, rng).0.Ok?
    ensures FilledCount(TryEmptyBoard(board, desired, unreplaceable, rng).0.value) == desired
    ensures desired < FilledCount(board)
    decreases FilledCount(board)
  {
    var (scan, rng1) := CarveRound(board, unreplaceable, rng);
    var coord := scan.value.0.value;
    var next := SetTile(board, coord, Empty);
    FilledCountSetTile(board, coord, Empty);
    if FilledCount(next) != desired {
      assert TryEmptyBoard(board, desired, unreplaceable, rng) == TryEmptyBoard(next, desired, scan.value.1, rng1);
      TryEmptyBoardCount(next, desired, scan.value.1, rng1);
    }
  }

  /** The carver only erases: the board it ends with, in `Ok` or in
      `NoDeletionsAvailable`, keeps every digit it still shows from the input. */
  lemma {:induction false} TryEmptyBoardErases(board: Board, desired: nat, unreplaceable: seq<Coord>, rng: Rng)
    requires Valid(board)
    ensures Extends(CarvedBoard(TryEmptyBoard(board, desired, unreplaceable, rng).0), board)
    decreases FilledCount(board)
  {
    var (scan, rng1) := CarveRound(board, unreplaceable, rng);
    var out := CarvedBoard(TryEmptyBoard(board, desired, unreplaceable, rng).0);
    if scan.value.0.None? {
      assert out == board;
      ExtendsReflexive(board);
    } else {
      var coord := scan.value.0.value;
      var next := SetTile(board, coord, Empty);
      FilledCountSetTile(board, coord, Empty);
      EmptyingExtends(board, coord);
      if FilledCount(next) == desired {
        assert out == next;
      } else {
        assert TryEmptyBoard(board, desired, unreplaceable, rng) == TryEmptyBoard(next, desired, scan.value.1, rng1);
        TryEmptyBoardErases(next, desired, scan.value.1, rng1);
        ExtendsTransitive(out, next, board);
      }
    }
  }

  /** A cell listed as unreplaceable is never emptied, and the list only grows. */
  lemma {:induction false} TryEmptyBoardKeepsUnreplaceable(board: Board, desired: nat, unreplaceable: seq<Coord>,
                                                            rng: Rng, c: Coord)
    requires Valid(board) && InBounds(c) && c in unreplaceable
    ensures GetTile(CarvedBoard(TryEmptyBoard(board, desired, unreplaceable, rng).0), c) == GetTile(board, c)
    decreases FilledCount(board)
  {
    var (scan, rng1) := CarveRound(board, unreplaceable, rng);
    var out := CarvedBoard(TryEmptyBoard(board, desired, unreplaceable, rng).0);
    if scan.value.0.None? {
      assert out == board;
    } else {
      var coord := scan.value.0.value;
      var next := SetTile(board, coord, Empty);
      FilledCountSetTile(board, coord, Empty);
      assert GetTile(next, c) == GetTile(board, c);
      if FilledCount(next) == desired {
        assert out == next;
      } else {
        assert TryEmptyBoard(board, desired, unreplaceable, rng) == TryEmptyBoard(next, desired, scan.value.1, rng1);
        var i :| 0 <= i < |unreplaceable| && unreplaceable[i] == c;
        assert scan.value.1[i] == c;
        TryEmptyBoardKeepsUnreplaceable(next, desired, scan.value.1, rng1, c);
      }
    }
  }

  /** Carving keeps the set of completions: every solved Sudoku that agrees
      with the board the carver ends with agrees with its input too, because
      each round empties only a forced cell. */
  lemma {:induction false} TryEmptyBoardKeepsSolutions(board: Board, desired: nat, unreplaceable: seq<Coord>,
                                                        rng: Rng, s: Board)
    requires Valid(board) && SudokuDigits(board)
    requires IsSolution(s) && Extends(CarvedBoard(TryEmptyBoard(board, desired, unreplaceable, rng).0), s)
    ensures Extends(board, s)
    decreases FilledCount(board)
  {
    var (scan, rng1) := CarveRound(board, unreplaceable, rng);
    var out := CarvedBoard(TryEmptyBoard(board, desired, unreplaceable, rng).0);
    if scan.value.0.None? {
      assert out == board;
    } else {
      var coord := scan.value.0.value;
      var next := SetTile(board, coord, Empty);
      FilledCountSetTile(board, coord, Empty);
      CarveRoundForced(board, unreplaceable, rng);
      if FilledCount(next) == desired {
        assert out == next;
      } else {
        assert TryEmptyBoard(board, desired, unreplaceable, rng) == TryEmptyBoard(next, desired, scan.value.1, rng1);
        EmptyingKeepsSudokuDigits(board, coord);
        TryEmptyBoardKeepsSolutions(next, desired, scan.value.1, rng1, s);
      }
      EmptiedForcedCell(board, coord, s);
    }
  }

  // ---------------------------------------------------------------------------
  // new_board
  // ---------------------------------------------------------------------------

  /** The empty board has a completion: the pattern board. */
  lemma DefaultHasSolution(e: Board)
    requires e == Default()
    ensures HasSolution(e)
  {
    var p := PatternBoard();
    PatternBoardValid(p);
    PatternBoardVerifies(p);
    assert Extends(e, p);
  }

  /** Filling the empty board always succeeds, so the `unwrap` in `new_board`
      never panics. */
  lemma DefaultFillSucceeds(e: Board, rng: Rng)
    requires e == Default()
    ensures TryFillBoard(e, rng).0.Ok?
  {
    DefaultHasSolution(e);
    VerifyBoardMeansCellsDistinct(e);
    TryFillBoardDecides(e, rng);
  }

  /** `new_board`: fill the empty board into a solved Sudoku, then carve it
      down to `desired` filled cells. The first component is the solved
      board, the second the clue board: it keeps exactly `desired` of the
      solved board's digits, and `desired` is below 81 because carving
      always removes a cell before comparing. The only failure is
      `NoDeletionsAvailable`. */
  function NewBoard(desired: nat, rng: Rng): (r: (Result<(Board, Board)>, Rng))
    ensures r.0.Ok? ==> IsSolution(r.0.value.0)
    ensures r.0.Ok? ==> Valid(r.0.value.1) && Extends(r.0.value.1, r.0.value.0)
    ensures r.0.Ok? ==> FilledCount(r.0.value.1) == desired && desired < CellCount
    ensures r.0.Err? ==> r.0.error.NoDeletionsAvailable?
  {
    var empty := Default();
    DefaultFillSucceeds(empty, rng);
    var (filled, rng1) := TryFillBoard(empty, rng);
    match filled
    case Err(_) => assert false; (Err(NoNumberAvailable), rng1)
    case Ok(solved) =>
      CompleteIffAllFilled(solved);
      TryEmptyBoardErases(solved, desired, [], rng1);
      var (emptied, rng2) := TryEmptyBoard(solved, desired, [], rng1);
      match emptied
      case Err(e) => (Err(e), rng2)
      case Ok(clues) =>
        TryEmptyBoardCount(solved, desired, [], rng1);
        (Ok((solved, clues)), rng2)
  }

  /** The clue board has exactly one completion, the solved board: carving
      keeps the set of completions, and the solved board is its own only
      completion. */
  lemma NewBoardUnique(desired: nat, rng: Rng, s: Board)
    requires NewBoard(desired, rng).0.Ok?
    requires IsSolution(s) && Extends(NewBoard(desired, rng).0.value.1, s)
    ensures s == NewBoard(desired, rng).0.value.0
  {
    var empty := Default();
    DefaultFillSucceeds(empty, rng);
    var (filled, rng1) := TryFillBoard(empty, rng);
    var solved := filled.value;
    assert NewBoard(desired, rng).0.value == (solved, TryEmptyBoard(solved, desired, [], rng1).0.value);
    TryEmptyBoardKeepsSolutions(solved, desired, [], rng1, s);
    ExtensionalEquality(s, solved);
  }
}
