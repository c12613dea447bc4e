# Sudoku generation engine, modelled in Dafny

This project models the puzzle-generation engine of a small Rust Sudoku program. The engine has three parts.

- **Board** (`src/engine/board.rs`), module `Board`:
  - A 9×9 grid of tiles (`Empty` or `Filled(d)`), stored three times over: as rows, columns and 3×3 blocks.
  - Coordinate arithmetic maps `(x, y)` to a block index and an index within that block.
  - Pure checks on the board: `is_valid_tile_set`, `verify_board`, `is_complete` and `get_filled_tile_coords`.
- **SudokuHashSet** (`src/engine/hashsetnum.rs`), module `HashSetNum`: a membership set over the digits 0..9, backed by ten booleans.
- **BoardGenerator** (`src/engine/board_generator.rs`), module `BoardGenerator`:
  - `try_fill_board`, a randomized backtracking completer;
  - `try_empty_board`, a greedy carver that empties one cell per round, and only a cell where no other digit still leaves a completable board;
  - `new_board`, which fills the empty board and then carves it.

The random source is replaced by an explicit value, `Rand.Rng`. It is an arbitrary stream of draws, threaded through every call and returned advanced. `Rand.Shuffle` turns the draws into a rearrangement of its input. The only fact the rest of the model uses is that a shuffle permutes its input, so every property proved here holds for every random source.

Everything is written as pure functions over immutable datatypes:
- Writes to the board return a new board.
- The three-view storage invariant is the ghost predicate `Board.Consistent`.
- Loops become recursive functions:
  - the retry loop of `try_fill_board` is `BoardGenerator.FillCell`;
  - the candidate loop of `try_empty_board` is `BoardGenerator.FindRemovable`;
  - its inner digit loop is `BoardGenerator.CheckAlternatives`.

The two `panic!`s, and the `unwrap()` in `new_board`, are written as `assert false` in their branches. The verifier therefore proves that they are unreachable.

Termination uses these measures:
- the number of Empty cells for filling;
- the number of untried digits for the retry loop;
- the number of filled cells for carving.

On top of the operations, the model proves three facts about the generator:
- **The filler is sound and complete.** On a board that verifies and holds only the digits 1..9, `try_fill_board` succeeds exactly when some solved Sudoku extends the board (`BoardGenerator.TryFillBoardDecides`). This is why the `unwrap()` on the empty board never fails.
- **The carver only erases digits, and only forced ones.** A cell is forced when no other digit leaves a completable board. Started on a board that verifies and holds only the digits 1..9, every board the carver passes through has the same set of completions as its input.
- **The clue board has a unique completion.** The clue board returned by `new_board` keeps exactly `desired` digits of the solved board, and the solved board is its only completion (`BoardGenerator.NewBoardUnique`).
  - The code checks only single-cell substitutions and never builds `MultipleSolutionsAvailable`, yet global uniqueness still follows.
  - The carver's test uses the filler, and the filler decides solvability exactly.
  - So a cell is emptied only when every completion must repeat its digit.
  - Emptying such a cell adds no completion, and a solved board has itself as its only completion.

Module `SolutionWitness` is a proof device, not part of the source. It builds one fixed solved grid, which shows that the empty board has a completion.

Three behaviours of the code worth noting:
- Carving always empties a cell before it compares the filled count with the target. A target at or above the current count, 81 included, is therefore never met. Such a run ends with `NoDeletionsAvailable`, never with the solved board (`BoardGenerator.TryEmptyBoardCount`).
- Both scans, the fill scan and `get_filled_tile_coords`, run with `x` in the outer loop (`Board.ScanIndex` is `9 * x + y`).
- `MultipleSolutionsAvailable` is declared and matched but never constructed.

## Model

| member | source | states |
|---|---|---|
| HashSetNum.New | src/engine/hashsetnum.rs:9-13 | the new set has ten slots and holds no digit |
| HashSetNum.Contains | src/engine/hashsetnum.rs:19-21 | `n` is reported present exactly when it is one of the set's digits, the set slots of the ten-slot array; `n` must index that array |
| HashSetNum.Insert | src/engine/hashsetnum.rs:15-17 | after inserting `n`, `n` is a member and every other digit keeps its membership; `n` must index the ten-slot array |
| HashSetNum.InsertElements | src/engine/hashsetnum.rs:15-17 | the members after insert are the old members plus `n` |
| HashSetNum.InsertIdempotent | src/engine/hashsetnum.rs:15-17 | inserting `n` twice gives the same set as inserting it once |
| HashSetNum.InsertPresent | src/engine/hashsetnum.rs:15-17 | inserting a digit already present leaves the set unchanged |
| HashSetNum.FromIter | src/engine/hashsetnum.rs:24-32 | a digit is a member of the collected set exactly when it occurs among the items |
| Rand.Shuffle | src/engine/board_generator.rs:45 | the shuffled sequence is as long as its input, and the shuffle consumes one draw per item |
| Rand.ShufflePermutes | src/engine/board_generator.rs:45 | the shuffle is a permutation: the result holds every item exactly as often as the input does |
| Rand.ShuffleSameElements | src/engine/board_generator.rs:73 | an item is among the shuffled cells exactly when it was among the cells before |
| Board.ToVecPosition | src/engine/board.rs:37-39 | for an in-bounds coordinate the flat position is below 81, its quotient by 9 is `y` and its remainder is `x` |
| Board.ToBlockIndex | src/engine/board.rs:41-43 | the block index is below 9; its row of blocks is `y / 3` and its column of blocks is `x / 3` |
| Board.ToIndexInBlock | src/engine/board.rs:45-47 | the index in the block is below 9; its row inside the block is `y % 3` and its column is `x % 3` |
| Board.FromBlock | src/engine/board.rs:41-47 | every (block index, index in block) pair below 9 is reached by an in-bounds coordinate, so the block map is onto |
| Board.BlockRoundTrip | src/engine/board.rs:41-47 | going from a coordinate to its block pair and back returns the coordinate |
| Board.BlockMapInjective | src/engine/board.rs:41-47 | two in-bounds coordinates with the same block index and index in block are equal |
| Board.BlockMapExamples | src/engine/board.rs:207-223 | (3,3) maps to block 4, slot 0, and (2,3) maps to block 3, slot 2 |
| Board.GetTile | src/engine/board.rs:54-56 | on a consistent board the tile read from the rows equals the tile in the columns view and in the blocks view |
| Board.BlocksFromRows | src/engine/board.rs:12-16 | on a consistent board every slot of the blocks view holds the tile of the coordinate it stands for |
| Board.SetTileInPlace | src/engine/board.rs:64-68 | the three slots of the coordinate are written, and three-view consistency and tile range are preserved |
| Board.SetTileInPlaceFrame | src/engine/board.rs:64-68 | every other row, column and block slot is left unchanged |
| Board.SetTile | src/engine/board.rs:58-62 | the copy reads the new tile at the coordinate, every other cell reads as before, and the board stays valid |
| Board.SetTileSudokuDigits | src/engine/board.rs:58-62 | writing a digit 1..9 keeps every filled tile a digit 1..9 |
| Board.ExtensionalEquality | src/engine/board.rs:12-16 | two valid boards that read the same at every cell are the same board, all three views included |
| Board.SetTileTwice | src/engine/board_generator.rs:47-54 | a second write to the same cell overrides the first, so reusing one board across candidate digits equals writing each candidate into the original board |
| Board.Default | src/engine/board.rs:171-179 | the default board is consistent and in range, and every slot of every view is Empty |
| Board.IsValidTileSet | src/engine/board.rs:117-134 | true exactly when no digit occurs in two filled tiles; Empty tiles are ignored |
| Board.ScanTileSetCorrect | src/engine/board.rs:117-134 | the scan with a seen-set is correct: starting from a prefix whose digits are seen and repeat-free, it succeeds exactly when the whole group has no repeated digit |
| Board.TileSetExamples | src/engine/board.rs:187-205 | the digits 1..9 pass the group test, and a group with a repeated 9 fails it |
| Board.VerifyGroups | src/engine/board.rs:84-102 | the loop over groups `k..8` succeeds exactly when each of those groups has no repeated digit |
| Board.VerifyBoard | src/engine/board.rs:82-104 | true exactly when every row, every column and every block has no repeated digit |
| Board.VerifiedPeersDiffer | src/engine/board.rs:82-104 | on a verifying board, two filled cells sharing a row, a column or a block hold different digits |
| Board.VerifyBoardMeansCellsDistinct | src/engine/board.rs:82-104 | a board verifies exactly when no two filled peer cells share a digit |
| Board.VerifyBoardSubAssignment | src/engine/board.rs:82-104 | erasing digits from a verifying board leaves a verifying board |
| Board.ExtendsSetTile | src/engine/board.rs:58-62 | writing into an Empty cell keeps every digit already on the board |
| Board.EmptyingExtends | src/engine/board.rs:58-62 | emptying a cell gives a board whose digits all appear in the original |
| Board.IsComplete | src/engine/board.rs:106-115 | true exactly when no cell is Empty |
| Board.GetFilledTileCoords | src/engine/board.rs:136-152 | lists only filled in-bounds cells, lists every filled cell, and lists them in strictly increasing x-outer, y-inner order, so each cell appears once |
| Board.CompleteIffAllFilled | src/engine/board.rs:106-115 | a board is complete exactly when the filled count is 81 |
| Board.FilledCountSetTile | src/engine/board.rs:136-152 | writing one cell changes the filled count by the filled-ness of the new tile minus that of the old one |
| BoardGenerator.FilledDigits | src/engine/board_generator.rs:32-37 | the digits kept by the `filter_map` are exactly the digits of the filled tiles, and they index the ten-slot set |
| BoardGenerator.GetNumbersForTiles | src/engine/board_generator.rs:31-38 | the set holds `d` exactly when some tile is `Filled(d)` |
| BoardGenerator.UnverifiedHasNoSolution | src/engine/board_generator.rs:86-88 | a board that fails `verify_board` has no completion, so skipping the filler on it loses nothing |
| BoardGenerator.DigitsNotIn | src/engine/board_generator.rs:41-43 | every candidate is a digit from `n` to 9 |
| BoardGenerator.DigitsNotInMembers | src/engine/board_generator.rs:41-43 | a digit is a candidate exactly when it lies between `n` and 9 and `excluding` does not hold it |
| BoardGenerator.PlaceFirstValid | src/engine/board_generator.rs:49-57 | on success the index points at a candidate that fits; on failure no candidate fits and the error is `NoNumberAvailable` |
| BoardGenerator.PlaceFirstValidIsFirst | src/engine/board_generator.rs:49-55 | every candidate tried before the chosen one fails |
| BoardGenerator.UpdateBoardWithRandomNumber | src/engine/board_generator.rs:40-58 | on success the digit is 1..9 and not excluded, and the board is the input with that digit written and passes `verify_board`; the error is always `NoNumberAvailable`, and it happens only when every non-excluded digit breaks `verify_board` |
| BoardGenerator.FirstEmptyFrom | src/engine/board_generator.rs:127-131 | finds the first Empty cell in x-outer, y-inner order; every cell scanned before it is filled; there is none exactly when every remaining cell is filled |
| BoardGenerator.FillingShrinksEmpty | src/engine/board_generator.rs:134-138 | the board handed to the recursive call has one Empty cell fewer |
| BoardGenerator.UntriedShrinks | src/engine/board_generator.rs:133-136 | each retry round excludes a fresh digit, so the retry loop runs at most nine rounds |
| BoardGenerator.TryFillBoard | src/engine/board_generator.rs:126-155 | on success the result is complete and valid, keeps every digit of the input, and verifies unless the input was already complete; a complete input is returned as is; the only error is `NoNumberAvailable`; the `panic!` is unreachable |
| BoardGenerator.FillCell | src/engine/board_generator.rs:132-145 | on success the retry loop returns a complete verifying board that keeps every digit of the input; the only error is `NoNumberAvailable` |
| BoardGenerator.TryFillBoardComplete | src/engine/board_generator.rs:126-155 | when the filler fails, no solved Sudoku extends the board |
| BoardGenerator.FillCellComplete | src/engine/board_generator.rs:132-145 | when the retry loop fails, every completion holds at the cell a digit that was already excluded |
| BoardGenerator.TryFillBoardDecides | src/engine/board_generator.rs:126-155 | on a verifying board with digits 1..9 the filler succeeds exactly when the board has a completion |
| BoardGenerator.OtherDigits | src/engine/board_generator.rs:85 | the candidates are exactly the digits 1..9 other than the original one, so no candidate equals the original |
| BoardGenerator.TryCandidate | src/engine/board_generator.rs:86-101 | testing one digit never ends the carver with an error |
| BoardGenerator.CandidateIsOption | src/engine/board_generator.rs:86-101 | a digit counts as an option exactly when the board with it written in has a completion |
| BoardGenerator.CheckAlternatives | src/engine/board_generator.rs:83-105 | the digit loop never errs; the unreplaceable list only grows, and only by entries for this cell; `has_options` is set exactly when it was set before or some entry was appended |
| BoardGenerator.CheckAlternativesMeaning | src/engine/board_generator.rs:83-105 | `has_options` ends up set exactly when it was set before or some candidate digit leaves a completable board |
| BoardGenerator.OptionsIffNotForced | src/engine/board_generator.rs:83-105 | the digit loop over all other digits finds an option exactly when the cell is not forced, whatever the list and the random source |
| BoardGenerator.FilterOut | src/engine/board_generator.rs:69-71 | a cell survives the filter exactly when it is in the listed cells and not in the unreplaceable list; the filter never lengthens the list |
| BoardGenerator.FindRemovable | src/engine/board_generator.rs:78-113 | the candidate loop never errs; the cell it picks is one of the candidates, on the board and filled; the unreplaceable list only grows; the `panic!` on an Empty tile is unreachable |
| BoardGenerator.FindRemovableForced | src/engine/board_generator.rs:78-112 | the cell the candidate loop picks is forced |
| BoardGenerator.FindRemovableNoneForced | src/engine/board_generator.rs:78-117 | when the loop picks no cell, no candidate is forced |
| BoardGenerator.EmptiedForcedCell | src/engine/board_generator.rs:107-108 | emptying a forced cell adds no completion: every solved Sudoku that extends the smaller board extends the board before |
| BoardGenerator.ShuffledCandidates | src/engine/board_generator.rs:69-73 | every shuffled candidate is a filled in-bounds cell outside the unreplaceable list |
| BoardGenerator.CarveRound | src/engine/board_generator.rs:69-113 | a round never errs; the cell it picks is filled, on the board and not unreplaceable; the unreplaceable list only grows |
| BoardGenerator.CarveRoundForced | src/engine/board_generator.rs:69-112 | the cell a round empties is forced: no other digit there leaves a completable board |
| BoardGenerator.CarveRoundNoneForced | src/engine/board_generator.rs:69-117 | a round that finds no cell found an option at every filled cell outside the unreplaceable list, so none of them is forced |
| BoardGenerator.TryEmptyBoard | src/engine/board_generator.rs:68-124 | the result stays valid; the only error is `NoDeletionsAvailable`, carrying a valid board |
| BoardGenerator.TryEmptyBoardCount | src/engine/board_generator.rs:107-121 | on success exactly `desired` cells are filled, and `desired` is below the input's filled count |
| BoardGenerator.TryEmptyBoardErases | src/engine/board_generator.rs:68-124 | the board the carver ends with, in `Ok` or in `NoDeletionsAvailable`, keeps from the input every digit it still shows |
| BoardGenerator.TryEmptyBoardKeepsUnreplaceable | src/engine/board_generator.rs:69-71 | a cell in the unreplaceable list is never emptied |
| BoardGenerator.TryEmptyBoardKeepsSolutions | src/engine/board_generator.rs:68-124 | every solved Sudoku extending the carved board extends the input: carving adds no completion |
| BoardGenerator.DefaultHasSolution | src/engine/board.rs:171-179 | the empty board has a completion |
| BoardGenerator.DefaultFillSucceeds | src/engine/board_generator.rs:61 | filling the empty board always succeeds, so the `unwrap()` never panics |
| BoardGenerator.NewBoard | src/engine/board_generator.rs:60-66 | on success the first board is a solved Sudoku, and the second is a valid sub-assignment of it with exactly `desired` filled cells, `desired` below 81; the only error is `NoDeletionsAvailable` |
| BoardGenerator.NewBoardUnique | src/engine/board_generator.rs:60-66 | the solved board is the only solved Sudoku that extends the clue board |

## Left out

- `src/main.rs` and `src/engine/game.rs` are not part of this model. They hold program start-up, console output and a retry wrapper that takes a global thread-local random generator.
- The `Debug` rendering of a board (`src/engine/board.rs:155-169`) is left out: it is text output only.
- `get_block_for_coord` (`src/engine/board.rs:78-80`) is left out. It indexes `columns` with `(x * y) / 9`, so it is not a block lookup, and nothing in the engine calls it.
- `get_row_for_coord` and `get_column_for_coord` are plain slice reads. `Board.VerifyBoard` reads `rows[k]` and `columns[k]` directly.
- The `thiserror` derives, the `Borrow` generics and `Coord::new` are Rust plumbing and have no counterpart.
- Rand.Shuffle: models no distribution. Any stream of draws is allowed, and only the permutation property is stated, so nothing here depends on how `rand` picks a permutation.
- HashSetNum.Insert: requires `n < 10` where the source would panic on an out-of-bounds index. Every caller in the engine passes a digit 0..9.
- HashSetNum.Contains: the same bound as `Insert`, for the same reason.
- Board.IsValidTileSet: requires every filled tile to hold a digit below 10. The source's membership test would panic otherwise, and no board the engine builds holds a larger digit.
- Board.ToVecPosition: requires an in-bounds coordinate. The source computes `y * 9 + x` in `u8` arithmetic, which would overflow far outside the board; no caller passes such a coordinate.
- Board.ToBlockIndex: requires an in-bounds coordinate. The source computes it in `u8` and returns, for example, 12 for (9, 9). Its only caller, `set_tile_in_place`, writes `rows[y][x]` first, and that write panics on such a coordinate before the block index is used.
- Board.ToIndexInBlock: requires an in-bounds coordinate, for the same reason as `ToBlockIndex`.
- BoardGenerator.UpdateBoardWithRandomNumber: the source writes each candidate into one cloned board in place. The model writes each candidate into the original board instead. These give the same board, because a second write to a cell replaces the first (`Board.SetTileTwice`).
- BoardGenerator.TryCandidate: the source's `MultipleSolutionsAvailable` arm and the pass-through of other errors are modelled as written. They are unreachable, because the filler only ever fails with `NoNumberAvailable`.
