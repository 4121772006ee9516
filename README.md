# Tic-tac-toe engine in Dafny

This project models the game engine of a small Rust tic-tac-toe program. The
engine has four parts:

- a 3x3 board whose cells are written in place;
- the terminal evaluator, which decides whether a player has completed a line
  and whether the game is won, drawn or still in progress;
- an exhaustive, unpruned minimax search (`min_max` and `best_moves`);
- the computer player, which sorts the best moves by the depth at which they
  resolve and plays the first one.

The board is row-major with nine cells. `0` is an empty cell and `1`/`2` are
the players. The cell at `(row, col)` is index `row*3+col`.

`src/game_logic.rs` repeats the board and the evaluator of `src/main.rs`: the
code is the same up to `pub` and the position of the `use std::ops` line
(`src/game_logic.rs:26-91` is `src/main.rs:68-135`, and
`src/game_logic.rs:144-177` is `src/main.rs:188-221`). One Dafny module models
both copies. The table cites whichever copy's lines or tests a member states.

Modules:

- `GameLogic` (`game_logic.dfy`): the board as a value (`Grid`, nine
  `PlayerId`s), `Place` (the effect of `play`), `NoneEmpty`, `AvailableMoves`,
  and `HasWon` built like the source, from line locators and a three-cell
  fold. `CheckWinCondition` and a reference definition of a win over the eight
  winning lines complete the module.
- `BoardState` (`board_state.dfy`): the mutable `Board`, a class over a
  nine-cell array. It has `Play` (writes one cell in place), indexing, and
  `Clone`. Two methods replay the source's play tests on real boards.
- `Search` (`search.dfy`): `MinMaxValue` and `BestMovesValue` are the
  mutually recursive specification of the search. `Scan` is the source's
  running-maximum loop. `MaxValue` and `Keep` give an independent arg-max
  definition. The methods `MinMax` and `BestMoves` run the search as the
  source does, on cloned boards played in place, and are proved equal to the
  specification.
- `Computer` (`computer.dfy`): the stable sort by depth. It is specified as
  insertion sort (`SortByDepth`) and carried out in place on an array
  (`SortCandidates`). `FirstBestMove` is the chosen cell and `ComputerPlay`
  is the computer's move. The optimality lemmas about the chosen cell live
  here.
- `Scenarios` (`scenarios.dfy`): the positions from the source's unit tests,
  derived from the general lemmas.

The recursion of the search terminates because every nested `min_max` is
applied to a board with one empty cell fewer (`PlaceShrinksMoves`).

Search values are `i8` and depths are `u32` in the source. Both are unbounded
integers here. The contracts prove that no wrap-around can occur:

- values are always -100, 0 or 100 (`IsValue`);
- a depth never exceeds the starting depth plus the number of empty cells.

`best_moves` starts its running maximum at -100, the lowest score, not below
it (`src/main.rs:377`). A move that loses still joins the candidates through
the equality branch. The result is therefore the true arg-max whenever a
move exists (`ScanIsArgmax`). With no empty cell the result is `(-100, [])`.
`min_max` only recurses on a board that is not full, so the `unwrap` of the
minimum depth (`src/main.rs:371`) is always applied to a non-empty list.
`MinDepth` requires a non-empty list, and `MinMaxValue` proves it holds.

## Model

| member | source | states |
|---|---|---|
| `GameLogic.EmptyGrid` | src/main.rs:69-71 | a new board has all nine cells empty |
| `GameLogic.RowColCoversEveryCell` | src/main.rs:109-114 | indexing by `(row, col)` (the function `GameLogic.AtRowCol`, which has no contract of its own) with both below 3 reads cell `row*3+col`; every cell 0..8 is reached by exactly one such pair |
| `GameLogic.Place` | src/main.rs:77-88 | a play succeeds exactly when the cell is empty. On success it writes the player's id there and leaves the other eight cells unchanged. Otherwise the board is unchanged and the error carries the (non-zero) occupant |
| `GameLogic.NoneEmpty` | src/main.rs:90-92 | true when no cell is 0; `NoneEmptyIffNoMoves` states that this holds exactly when no move is available and no cell holds 0 |
| `GameLogic.AvailableMoves` | src/main.rs:94-96 | only empty cells are listed, in strictly ascending order, and there are as many as there are zero cells |
| `GameLogic.AvailableMovesComplete` | src/game_logic.rs:52-54 | every empty cell is listed as an available move |
| `GameLogic.NoneEmptyIffNoMoves` | src/main.rs:90-92 | `none_empty` holds exactly when no move is available, exactly when no cell holds 0 |
| `GameLogic.PlaceShrinksMoves` | src/main.rs:82-84 | a successful play removes exactly the played cell from the available moves, so their number drops by one (the measure the search recurses on) |
| `GameLogic.FullBoardRejectsEveryPlay` | src/main.rs:160-171 | on a full board every position is refused, naming the occupant, and the board does not change |
| `GameLogic.Locate` | src/main.rs:192-195 | the four locator closures `row`, `column`, `diag1`, `diag2`; `HasWonIffCompleteLine` states which cells they trace |
| `GameLogic.CellValue` | src/main.rs:190 | the indicator closure `cell_value`: 1 for the player's cell, else 0; `FullIffThreeCells` states its use |
| `GameLogic.LineSum` | src/main.rs:199 | the fold summing the indicators of a traced line; `FullIffThreeCells` states its value |
| `GameLogic.Full` | src/main.rs:197-201 | the `full` closure: the fold of a line reaches 3; `FullIffThreeCells` states it holds exactly when all three cells are the player's |
| `GameLogic.AnyFull` | src/main.rs:203-206 | the `any` closure over line numbers 0..2; `HasWonIffCompleteLine` states its meaning for rows and columns |
| `GameLogic.FullIffThreeCells` | src/main.rs:197-201 | the fold over a traced line reaches 3 exactly when all three of its cells belong to the player |
| `GameLogic.HasWon` | src/main.rs:208 | any full row, any full column, or a full diagonal; `HasWonIffCompleteLine` states that this is ownership of one of the eight lines |
| `GameLogic.HasWonIffCompleteLine` | src/main.rs:188-209 | `has_won` holds exactly when the player owns one of the eight lines (three rows, three columns, two diagonals) |
| `GameLogic.CheckWinCondition` | src/main.rs:211-221 | Won(id) if `has_won`, else Draw if `none_empty`, else InProgress; `CheckWinConditionClassifies` and `CheckWinConditionIgnoresOtherCells` state its properties |
| `GameLogic.CheckWinConditionClassifies` | src/main.rs:211-221 | the status is Won(id) exactly when the player owns a line; otherwise Draw exactly when no move is available; otherwise InProgress |
| `GameLogic.CheckWinConditionIgnoresOtherCells` | src/game_logic.rs:167-177 | the status depends only on which cells are the player's and which are empty: the other player's lines are never inspected |
| `BoardState.Board.constructor` | src/game_logic.rs:27-29 | a new board has nine empty cells, in a fresh array |
| `BoardState.Board.FromGrid` | src/main.rs:60 | a board built from nine cells holds exactly those cells |
| `BoardState.Board.At` | src/main.rs:101-107 | indexing by position reads that cell of the board |
| `BoardState.Board.AtRowCol` | src/main.rs:109-114 | indexing by `(row, col)` reads cell `row*3+col` |
| `BoardState.Board.Play` | src/game_logic.rs:35-46 | the in-place play leaves the board and the outcome exactly as `Place` describes |
| `BoardState.Board.Clone` | src/main.rs:350-351 | the copy is a new board over a new array with the same cells, so playing on it cannot touch the original |
| `BoardState.FillInOrder` | src/game_logic.rs:99-114 | playing cells 0..8 in turn with ids `i%2+1` on a new board succeeds every time and ends with 1,2,1,2,1,2,1,2,1 |
| `BoardState.PlayEveryCellOfFullBoard` | src/game_logic.rs:116-127 | every play on the full board 1,1,1,2,1,1,2,1,1 fails, naming the occupant, and the board is unchanged |
| `Search.Opponent` | src/main.rs:348 | `3 - player` is the other player |
| `Search.MinMaxValue` | src/main.rs:346-374 | the score of a move is -100, 0 or 100. It resolves at a depth no lower than the move's own and below it plus the number of empty cells |
| `Search.Outcomes` | src/main.rs:380-381 | the empty cells are scored in their listed order, one level deeper, each with a legal score and depth |
| `Search.BestMovesValue` | src/main.rs:376-392 | the best score is legal; a full board gives (-100, []); any empty cell gives a non-empty candidate list; every candidate resolves at least one level deeper |
| `Search.MinDepth` | src/main.rs:371 | the minimum is one of the candidates' depths and no candidate's depth is below it |
| `Search.Scan` | src/main.rs:377-389 | the running-maximum loop over scored moves; `ScanIsArgmax` states that it computes the arg-max, and `Search.BestMoves` that the loop computes it |
| `Search.ScanIsArgmax` | src/main.rs:377-389 | the running-maximum loop that starts at -100 computes the largest score and exactly the moves reaching it, in order |
| `Search.BestMovesValueIsUpperBound` | src/main.rs:383-385 | no empty cell scores above the best score |
| `Search.BestMovesValueIsReached` | src/main.rs:383-388 | when a cell is empty, some empty cell reaches the best score |
| `Search.BestMovesCandidateSound` | src/main.rs:384-387 | every candidate is an empty cell whose score is the best score, listed with the depth its branch resolves at |
| `Search.BestMovesCandidateComplete` | src/main.rs:386-388 | every empty cell with the best score is a candidate |
| `Search.BestMovesCandidatesAscending` | src/main.rs:380 | candidates are listed in ascending cell order |
| `Search.ImmediateResolution` | src/main.rs:363-368 | a move resolves at its own depth exactly when it wins or fills the board, and it scores 100 there exactly when it wins |
| `Search.MinMax` | src/main.rs:346-374 | scoring a move on a clone of the board returns exactly `MinMaxValue` |
| `Search.BestMoves` | src/main.rs:376-392 | the loop over the empty cells returns exactly `BestMovesValue` |
| `Computer.Insert` | src/main.rs:341 | one step of the stable sort by depth; `InsertSorted`, `InsertPermutes` and `InsertKeepsOrder` state that it keeps order, contents and stability |
| `Computer.SortByDepth` | src/main.rs:341 | `sort_by_key` on the depth; `SortByDepthSorts` and `SortByDepthIsStable` state its properties |
| `Computer.SortByDepthSorts` | src/main.rs:341 | the sort by depth orders the candidates by depth and is a permutation of them |
| `Computer.SortByDepthIsStable` | src/main.rs:341 | the sort is stable: the candidates of each depth keep their relative order |
| `Computer.SortedHead` | src/main.rs:341-342 | the first sorted candidate is the earliest of those of least depth |
| `Computer.SortCandidates` | src/main.rs:341 | sorting the array in place leaves it equal to `SortByDepth` of its old contents |
| `Computer.InsertAt` | src/main.rs:341 | moving one element left past every element of greater depth leaves the prefix equal to `Insert` of the old prefix and that element, and the rest of the array unchanged |
| `Computer.FirstBestMove` | src/main.rs:338-343 | the chosen cell is an empty cell of the board |
| `Computer.FirstAfterSort` | src/main.rs:341-342 | sorting a copy of the candidates and taking the first gives the head of `SortByDepth` |
| `Computer.ComputerPlay` | src/main.rs:338-343 | the computer's move from depth 0 on a board with an empty cell is `FirstBestMove` of the board |
| `Computer.ChoiceIsHeadCandidate` | src/main.rs:339-342 | the chosen cell is the earliest best candidate among those that resolve soonest |
| `Computer.FirstBestMoveScoresBest` | src/main.rs:338-343 | no empty cell scores above the chosen cell |
| `Computer.FirstBestMoveResolvesSoonest` | src/main.rs:341-342 | among equally scored cells the chosen cell resolves soonest, and every lower-numbered cell with that score resolves strictly later |
| `Computer.FirstBestMoveWinsImmediately` | src/main.rs:436-457 | when some empty cell wins at once, the chosen cell wins at once too |
| `Scenarios.FourMovesAvailable` | src/game_logic.rs:93-97 | the board 1,0,1,1,0,2,2,0,0 has exactly the moves 1, 4, 7 and 8 (four of them) |
| `Scenarios.NoneEmptyExamples` | src/game_logic.rs:129-133 | a board with empty cells is not full; the board of nine 1s is |
| `Scenarios.EveryLineWins` | src/game_logic.rs:181-200 | each of the eight lines, filled by either player, wins for that player |
| `Scenarios.NearMissesDoNotWin` | src/game_logic.rs:202-209 | the three tested near-misses are not wins for either player |
| `Scenarios.LastCellIsTheOnlyBestMove` | src/main.rs:396-401 | on 1,2,1,2,0,2,1,2,1 player 1's best score is 100, with cell 4 as the only candidate |
| `Scenarios.EveryWinningCellIsKept` | src/main.rs:403-411 | on 1,1,0,1,1,0,0,1,0 player 1's best score is 100, with candidates 2, 5, 6 and 8, in that order |
| `Scenarios.BlocksTheLoss` | src/main.rs:425-426 | on 1,2,2,2,1,0,1,1,0 player 2 has cells 5 and 8; the best score is 0 (a draw), with cell 8 alone as candidate, resolving two levels down |
| `Scenarios.ComputerBlocksTheLoss` | src/main.rs:425-426 | on that board the computer playing 2 picks cell 8, which blocks player 1's bottom row |
| `Scenarios.LastReply` | src/main.rs:363-373 | a move that does not win and leaves one empty cell scores -100 when the opponent's forced reply wins and 0 otherwise, resolving one level deeper |
| `Scenarios.SingleMoveBest` | src/main.rs:376-392 | with a single empty cell the best score is that cell's score and the candidate list is that cell alone |
| `Scenarios.SecondMoveBetter` | src/main.rs:383-388 | with two empty cells where the second scores strictly higher, the best score is the second's and the first is dropped from the candidates |
| `Scenarios.WinningCellWins` | src/main.rs:436-457 | when an empty cell completes a line for player 1, the computer's move from depth 0 wins |
| `Scenarios.ComputerTakesTheWin` | src/main.rs:437-456 | on the three tested positions the computer's move for player 1 is legal and wins |

## Left out

- `print_board`, `get_player_representation` (src/main.rs:5-52): console output.
- `Human::play`, `process_player_turn`, `run_game_loop`, `main`: they read from
  standard input, print, and loop over turns. They drive the engine and are
  not part of it.
- `Board::len`: it always returns 9, which the `Grid` type and `Board.Valid`
  fix.
- The `Player` trait and its dynamic dispatch. `Board::play` asks its player
  for a position. Here the id and the position are passed directly, as the
  source's `Dummy` player supplies them.
- The `assert!`s on the position and the id in `play`, and the panic in
  `min_max` on an occupied cell. They are preconditions here. The source's
  callers never trigger them: the search only plays empty cells and only for
  players 1 and 2.
- Computer.ComputerPlay and Computer.FirstBestMove: require a board with an
  empty cell. On a full board the candidate list is empty and `moves[0]`
  (src/main.rs:342) panics. `run_game_loop` only lets a player move after
  `check_win_condition` returns InProgress (src/main.rs:260-264), so the board
  always has an empty cell there.
- BoardState.Board.At and BoardState.Board.AtRowCol: require an index below 9.
  The source's array indexing (src/main.rs:105, src/main.rs:112) panics
  otherwise, and every caller in the engine indexes only cells 0..8.
- The text of the error and panic messages. An error is modelled as carrying
  the occupant.
- Search.BestMovesValue: requires the player to be 1 or 2 even on a full
  board. On a full board the source returns (-100, []) for any id without
  checking it.
- Computer.SortCandidates: Rust's library stable sort is modelled as an
  in-place insertion sort. Any stable sort by the same key gives the same
  output, and the model proves both ordering and stability.
- The third `best_moves` case (src/main.rs:413-420) and the second and third
  boards of `ai_should_never_lose` (src/main.rs:428-432) are not restated as
  lemmas. Each has five or six empty cells, so its answer depends on searching
  a game tree several moves deep, which the model defines but whose concrete
  values are too large to evaluate within the proof. Their general guarantees
  are stated by `FirstBestMoveScoresBest` and `FirstBestMoveResolvesSoonest`.
  The first board of `ai_should_never_lose`, with two empty cells, is
  `Scenarios.ComputerBlocksTheLoss`.
- Whole-tree facts such as "the empty board is a forced draw" are not stated,
  for the same reason.
