# Gomoku (five in a row) — win detection and move history

This project models the logic at the heart of a browser Gomoku game on a
15 x 15 board, in `src/App.js`:

- **Win detection** (`calculateWinner`). The board is 225 cells stored row by
  row, with cell index `row * 15 + col`. The scan visits the cells in raster
  order and skips empty ones. From each occupied cell it tests four forward
  directions, in order: horizontal, vertical, diagonal and anti-diagonal.
  Each test sits behind a guard that keeps the five cells inside the grid.
  The scan returns the mark of the first cell that starts five equal marks,
  or no mark at all ("null").
- **The game state** (`Game`). The state is three fields:
  - `history`: the sequence of board snapshots, each with the 1-based
    position of the move that produced it;
  - `stepNumber`: the cursor into `history`;
  - `isBlackNext`: whose turn it is.

  A click on a cell is rejected when the board on display has a winner or
  the cell is taken; a rejected click changes nothing, and in particular
  keeps the snapshots after the cursor. An accepted click drops the
  snapshots after the cursor, appends a copy of the board with the mover's
  stone on that cell, advances the cursor and passes the turn. A click on a
  history entry moves the cursor and sets the turn from the step's parity.

The project is three files:

- `win_detector.dfy` (module `WinDetector`):
  - the marks (`Empty` stands for the source's `null`, `Black` for `●`,
    `White` for `○`);
  - `CalculateWinner`, the scan as a method with the source's nested loops,
    `continue`, `break` and early `return`; it checks each direction with
    `CheckRun`, and `Index` computes the source's four index expressions;
  - `Winner`, the specification function of the scan;
  - `HasFive`, an independent geometric definition of "five in a line";
  - the soundness and completeness lemmas that connect the two, lemmas that
    count stones, and example boards.
- `win_symmetry.dfy` (module `WinSymmetry`): win detection is unchanged by
  mirroring, flipping, transposing or rotating the board.
- `game.dfy` (module `GameState`): the class `Game` with its invariant
  `Valid()`. It also holds the history predicate `ValidHistory`, the
  transitions `HandleClick` (with its accepted part `Place`) and `JumpTo`,
  the status query, and lemmas about histories. Module `GameExample`
  plays short games against the class's contracts.

The model of the game state keeps these invariants:
- every snapshot in the history follows from the one before it by one move
  of the player whose turn it was;
- the first snapshot is the empty board;
- no move was ever made on a board with a winner;
- the cursor is inside the history;
- Black is to move exactly at even steps.

`HandleClick`, `Place`, `JumpTo` and the constructor prove that `Valid()`
holds and is kept. `StepChangesOneCell` and `OnlyLastSnapshotWon` read
single facts back out of that invariant; they are not separate results.
`StonesAtStep` and `NoEarlyWin` are proved from it by induction.

## Model

| member | source | states |
|---|---|---|
| WinDetector.Guard | src/App.js:129-165 | The four bounds tests in source order: horizontal `col <= 10`, vertical `row <= 10`, diagonal both of these, anti-diagonal `row <= 10` and `col >= 4`. |
| WinDetector.RunAt | src/App.js:129-174 | One directional test: its guard holds and the four cells read by the inner loop equal the start cell. `CheckRun` computes it; `RunAtIsLine` relates it to a geometric five. |
| WinDetector.StartsRun | src/App.js:126-174 | The start cell is occupied (the empty-cell `continue`), and at least one of the four directional tests succeeds there. |
| WinDetector.FirstFrom | src/App.js:124-177 | The raster scan from cell `p`: the mark of the first cell that starts a run, or `Empty` after the last cell. `ScanFrom` states what it finds. |
| WinDetector.Winner | src/App.js:120-178 | The result of the whole scan, from cell 0. `CalculateWinner` computes it. `WinnerSound`, `WinnerComplete` and `WinnerExists` prove it right against `HasFive`. |
| WinDetector.HasFive | src/App.js:124-177 | The independent definition of a win: the mark fills five cells on the board in one of the four directions. |
| WinDetector.CalculateWinner | src/App.js:120-178 | The scan returns exactly `Winner(squares)`. A non-empty result has five in a row. The result is empty if and only if neither Black nor White has five in a row. |
| WinDetector.CheckRun | src/App.js:129-174 | One inner loop with early break. It is true exactly when the four cells after the start in direction `d` all equal the start cell (`RunAt`). |
| WinDetector.Index | src/App.js:129-174 | Under the direction's guard, each of the four index expressions is in 0..224, lands on the board and names the cell `i` steps along the line. |
| WinDetector.ScanFrom | src/App.js:124-177 | The scan from cell `p` returns the mark of the first cell at or after `p` that starts a run. It returns empty only if no cell from `p` on starts one. |
| WinDetector.RunAtIsLine | src/App.js:126-174 | A guarded run found by the scan from an occupied cell is the same as a geometric five in a row of that cell's mark starting there. |
| WinDetector.WinnerSound | src/App.js:129-174 | A reported winner really has five in a row on the board. |
| WinDetector.WinnerComplete | src/App.js:124-177 | Any five equal marks in a line, in any of the four directions, make the scan report a winner. |
| WinDetector.WinnerExists | src/App.js:124-177 | The scan reports a winner if and only if Black or White has five in a row. |
| WinDetector.WinnerIsOnBoard | src/App.js:124-177 | A reported winner is the mark of some cell of the board. |
| WinDetector.EmptyBoardHasNoWinner | src/App.js:124-177 | The all-empty board has no winner. |
| WinDetector.EmptyBoard | src/App.js:44 | The initial board has 225 cells, all empty. |
| WinDetector.LineCell | src/App.js:129-174 | Each of the five cells of a line is on the board and holds the line's mark. |
| WinDetector.Count | src/App.js:59 | The number of cells holding a mark, at most the board size. Tracks the stones placed by line 59; supports `StonesAtStep` and `WinnerNeedsFiveStones`. |
| WinDetector.CountAfterPlace | src/App.js:59 | Writing one cell changes each mark's count by what left and what arrived. |
| WinDetector.CountNone | src/App.js:44 | A board without a mark, such as the initial one, counts none of it. Supports `StonesAtStep`. |
| WinDetector.CountSplit | src/App.js:124-177 | Counts add up over the two parts of a split board. Supporting lemma for `CountAtLeast` and `WinnerNeedsFiveStones`. |
| WinDetector.CountAtLeast | src/App.js:129-174 | Cells at distinct, increasing indices that hold a mark are all counted. Supporting lemma for `FiveNeedsFiveStones`. |
| WinDetector.FiveNeedsFiveStones | src/App.js:129-174 | A five in a row means at least five stones of its mark. |
| WinDetector.WinnerNeedsFiveStones | src/App.js:124-177 | A reported winner has at least five stones on the board. |
| WinDetector.RowOfFourHasNoWinner | src/App.js:129-138 | Four in a row do not win. |
| WinDetector.RowOfFiveWins | src/App.js:129-138 | A fifth stone at column 4 makes Black the winner. |
| WinDetector.DiagonalWins | src/App.js:153-162 | Black at (2,2), (3,3), (4,4), (5,5) and (6,6) wins along the diagonal. |
| WinDetector.AntiDiagonalWins | src/App.js:165-174 | White at (2,6), (3,5), (4,4), (5,3) and (6,2) wins along the anti-diagonal. |
| WinDetector.WrappedRunHasNoWinner | src/App.js:129-138 | Five consecutive indices that wrap from row 0 into row 1 are not a win. |
| WinSymmetry.MirrorStone | src/App.js:120-178 | The mirrored board holds at (r, c) the stone of (r, 14 - c). Supporting lemma for `WinnerSymmetric`; the source never transforms a board. |
| WinSymmetry.TransposeStone | src/App.js:120-178 | The transposed board holds at (r, c) the stone of (c, r). Supporting lemma for `WinnerSymmetric`; the source never transforms a board. |
| WinSymmetry.RotateStone | src/App.js:120-178 | The quarter-turned board holds at (r, c) the stone of (14 - c, r). Supporting lemma for `WinnerSymmetric`; the source never transforms a board. |
| WinSymmetry.FlipStone | src/App.js:120-178 | The flipped board holds at (r, c) the stone of (14 - r, c). Supporting lemma for `WinnerSymmetric`; the source never transforms a board. |
| WinSymmetry.SameStones | src/App.js:120-178 | Two boards with the same stone on every cell are equal. Supporting lemma for `WinnerSymmetric`. |
| WinSymmetry.MirrorTwice | src/App.js:120-178 | Mirroring twice gives the board back. Supporting lemma for `WinnerSymmetric`; the source never transforms a board. |
| WinSymmetry.TransposeTwice | src/App.js:120-178 | Transposing twice gives the board back. Supporting lemma for `WinnerSymmetric`; the source never transforms a board. |
| WinSymmetry.MirrorLine | src/App.js:129-174 | A mirrored five is a five of the same mark, starting at the mirrored column, with diagonal and anti-diagonal swapped. |
| WinSymmetry.TransposeLine | src/App.js:129-174 | A transposed five is a five of the same mark, with horizontal and vertical swapped. |
| WinSymmetry.MirrorKeepsFive | src/App.js:124-177 | A mark with five in a row still has one after mirroring. |
| WinSymmetry.TransposeKeepsFive | src/App.js:124-177 | A mark with five in a row still has one after transposing. |
| WinSymmetry.MirrorPreservesFive | src/App.js:124-177 | A mark has five in a row if and only if it has one on the mirrored board. |
| WinSymmetry.TransposePreservesFive | src/App.js:124-177 | A mark has five in a row if and only if it has one on the transposed board. |
| WinSymmetry.RotatePreservesFive | src/App.js:124-177 | A mark has five in a row if and only if it has one on the quarter-turned board. |
| WinSymmetry.FlipPreservesFive | src/App.js:124-177 | A mark has five in a row if and only if it has one on the flipped board. |
| WinSymmetry.WinnerSymmetric | src/App.js:120-178 | The scan reports a winner on a board exactly when it reports one on the board mirrored, flipped, transposed or turned by a quarter turn. |
| GameState.InitialSnapshot | src/App.js:43-46 | The first snapshot: the all-empty board with no position. |
| GameState.Playable | src/App.js:55 | The rejection test, negated: the board has no winner and cell `i` is empty. `HandleClick` changes nothing exactly when it fails. |
| GameState.FollowsFrom | src/App.js:51-66 | One accepted move: the recorded position is inside 1..15, its cell was empty, and the new board is the old one with the mover's stone (Black at even steps) on that cell. |
| GameState.ValidHistory | src/App.js:43-68 | A history the game can build: it starts with `InitialSnapshot`, each later snapshot follows from the one before, and no move was made on a board with a winner. |
| GameState.Game.Valid | src/App.js:43-48 | The class invariant: a valid history, the cursor inside it, and Black to move exactly at even steps. The invariant is set up at lines 43-48 and kept by lines 67-68 and 72-73. |
| GameState.MarkFor | src/App.js:59 | The stone put down is never empty, and it is Black exactly when Black is to move. |
| GameState.PositionOf | src/App.js:62-65 | The recorded position is 1-based, inside 1..15, and names cell `i` and no other. |
| GameState.Game.Current | src/App.js:76 | The snapshot on display has a 225-cell board. |
| GameState.Game.constructor | src/App.js:43-48 | A new game has one snapshot, the empty board with no position, the cursor at 0 and Black to move. This state satisfies the invariant. |
| GameState.Game.HandleClick | src/App.js:50-69 | There are two cases. If the board on display has a winner or cell `i` is taken, nothing changes. Otherwise: the history becomes the old history up to the cursor plus one snapshot, so its length is the old cursor plus 2; the cursor advances by one; the turn flips; the new board has the mover's stone at `i` and equals the old board everywhere else; the recorded position is `(i / 15 + 1, i % 15 + 1)`. The invariant is kept. |
| GameState.Game.Place | src/App.js:51-68 | The accepted click: the truncated history plus the new snapshot, the cursor advanced, the turn flipped, the invariant kept. |
| GameState.Game.JumpTo | src/App.js:71-74 | The history is unchanged, the cursor is `step`, and Black is to move exactly when `step` is even. The invariant is kept. |
| GameState.Game.GetStatus | src/App.js:76-101 | The status is the winner of the board on display if there is one, with five in a row. Otherwise it is the player to move, who is Black exactly at even steps. |
| GameState.ExtendHistory | src/App.js:51-66 | Cutting a history after the cursor and appending a snapshot that follows from the one there keeps the history one the game can build. |
| GameState.AcceptedMove | src/App.js:51-66 | The snapshot an accepted click appends follows from the one on display, and the extended history is valid. |
| GameState.StepCounts | src/App.js:59-61 | One move adds one stone of the player to move and none of the other. |
| GameState.StonesAtStep | src/App.js:43-68 | The board at step `k` holds exactly `k` stones: Black's `(k + 1) / 2` and White's `k / 2`. |
| GameState.NoEarlyWin | src/App.js:120-178 | No board up to step 8 has a winner. |
| GameState.StepChangesOneCell | src/App.js:53-66 | Consecutive snapshots differ in exactly one cell, the one the later snapshot's position names. It was empty before and holds the mover's stone after. |
| GameState.OnlyLastSnapshotWon | src/App.js:55-57 | Only the last snapshot of a history can have a winner. |

## Left out

- The rendering components `Square` and `Board` and all JSX (src/App.js:4-40, 79-94, 103-117). They are presentation only.
- The text of the status line and the history buttons, including the Chinese labels (src/App.js:80-83, 96-101). `GetStatus` models only the choice between "winner" and "next player".
- React's `useState` batching and re-rendering, and the CSS import (src/App.js:1-2). The three setters of a click are modelled as assignments that take effect together, at the end of a synchronous method.
- GameState.Game.HandleClick: the copy `current.squares.slice()` followed by `squares[i] = …` is modelled as the update of an immutable sequence. Snapshots are values, so the model does not show that the copy shares nothing with earlier snapshots.
- GameState.Game.HandleClick: requires `0 <= i < 225`, because the board only dispatches clicks for its 225 cells. What the source does with other indices is not modelled.
- GameState.Game.JumpTo: requires `step < |history|`, because the history list only shows buttons for existing steps. A jump outside the history would leave the source's cursor dangling; this is not modelled.
- WinDetector.CalculateWinner: takes a sequence of exactly 225 marks. The source's JavaScript array could have other lengths or hold other values; callers always pass 225-cell boards of `null`, `●` and `○`.
- GameExample plays only the first two moves of the alternating scenario and does not play a game through to a win. Longer concrete games cost too much to verify. `GameState.StonesAtStep`, `GameState.OnlyLastSnapshotWon` and `HandleClick`'s contract state these properties for every history.
