# Tic-tac-toe with move history: a verified model

This project models the game logic of a 3×3 tic-tac-toe web app (`src/App.js`)
that keeps a history of board snapshots and allows "time travel" to any earlier
move. Three parts are modelled and proved:

- **Win detection** (`WinDetector`, `win_detector.dfy`): `calculateWinner` scans the
  eight lines (three rows, three columns, two diagonals, in that order) and returns
  the first whose three squares hold the same mark. `Winner` is the specification
  function and `CalculateWinner` is the scanning loop with its early return, proved
  equal to it.
- **Board logic** (`BoardLogic`, `board.dfy`): `Board.handleClick` ignores a click
  when the board already has a winner or the square is taken. Otherwise it copies
  the squares and writes `X` or `O` into the clicked one. `HandleClick` keeps the
  array copy and is proved equal to the function `Click`. The status line
  ("Winner: …", "Result: Draw", "Next player: …") is `Status`.
- **History and cursor** (`GameHistory`, `game_history.dfy`, and `GameComponent`,
  `game.dfy`): the `Game` component's state is `history`, `positions` and
  `currentMove`. `GameHistory` states the transitions on values: `handlePlay`
  truncates both sequences after the cursor, appends, and moves the cursor to the
  new end; `jumpTo` moves only the cursor. It also states the invariant
  `ValidHistory` and proves it is preserved. The class `GameComponent.Game` holds the
  same three fields, and its methods `Play`, `HandlePlay` and `JumpTo` reassign them
  and are proved to perform exactly those transitions. `TopRowWin` (with
  `TopRowCompleted`) and `JumpAndBranch` are client methods that replay two short games through the class.

Squares are `Cell = Empty | X | O`; `Empty` stands for the source's `null`. A board
is a sequence of nine cells, indexed row-major (`index == row * 3 + column`).

## Model

| member | source | states |
|---|---|---|
| WinDetector.FirstCompleted | src/App.js:138-144 | the scan from line k returns the first completed line at or after k, or the end; every line skipped is not completed |
| WinDetector.Winner | src/App.js:127-145 | None exactly when no line of the 8 is completed; a returned line is one of the 8 and its three squares are non-empty and equal; when several lines qualify, the result is the first in the order rows, columns, diagonals |
| WinDetector.CalculateWinner | src/App.js:127-145 | the indexed loop with early return yields the same result as `Winner` |
| WinDetector.EmptyBoardHasNoWinner | src/App.js:62 | the all-empty start board has no winner |
| WinDetector.LineDistinct | src/App.js:128-137 | each of the 8 lines names three distinct squares |
| WinDetector.CompletedLineNeedsThree | src/App.js:140 | a completed line means its mark occupies at least three squares |
| BoardLogic.Mark | src/App.js:17-21 | the written mark is never empty, and it is X exactly when X is next |
| BoardLogic.Symbol | src/App.js:28-30 | the text of a mark is one character, "X" exactly for X and "O" exactly for O |
| BoardLogic.Click | src/App.js:12-21 | the click is ignored exactly when some line is completed or square i is taken; otherwise the new board holds the mover's mark at i and equals the old board everywhere else |
| BoardLogic.HandleClick | src/App.js:12-22 | the guard followed by copy-into-array and one write yields exactly `Click` |
| BoardLogic.Status | src/App.js:25-34 | the status is always one of "Winner: X", "Winner: O", "Result: Draw", "Next player: X", "Next player: O"; which one is fixed by `StatusMeaning` |
| BoardLogic.StatusMeaning | src/App.js:25-34 | "Result: Draw" exactly when every square is taken and no line is completed; when some line is completed the status is "Winner: " followed by the mark on the first completed line in scan order (the source's `squares[winner[0]]`), so a completed line never reads as a draw; "Next player: X" or "Next player: O" exactly when no line is completed, some square is empty, and X is next or not |
| BoardLogic.DrawnBoardStatus | src/App.js:32-34 | the full board X X O / O O X / X O X has no completed line and its status is "Result: Draw" |
| GameHistory.Label | src/App.js:84 | the label (row, column) of square p has both parts in 0..2 and row * 3 + column == p |
| GameHistory.MoveLabel | src/App.js:81-87 | entry 0 has no position label ("game start"); every later entry is labelled with the row and column of the square recorded for it |
| GameHistory.Initial | src/App.js:62-65 | the start state has one snapshot, the empty board, which has no winner, its cursor is 0, and it satisfies the invariant |
| GameHistory.XIsNextMeaning | src/App.js:66 | X moves at cursor 0, and in a valid state X is next exactly when X and O have placed equally many marks on the current board |
| GameHistory.CurrentSquaresFilled | src/App.js:67 | the current board of a valid state has exactly `currentMove` squares taken |
| GameHistory.HandlePlay | src/App.js:69-75 | both new sequences have length c + 2 from cursor c; their first c + 1 entries are unchanged; the last entries are the new board and its square; the cursor becomes c + 1, the new last index |
| GameHistory.Play | src/App.js:12-22 | a click on a board with a winner, or on a taken square, returns the state unchanged; an accepted click advances the cursor to the new last entry, which is the current board with square i filled by the mover's mark |
| GameHistory.JumpTo | src/App.js:77-79 | the cursor becomes the requested move; history and positions are unchanged |
| GameHistory.PlayAccepted | src/App.js:16-22 | from cursor c an accepted click gives histories of length c + 2 whose first c + 1 entries are unchanged and whose last board fills square i with the mover's mark; positions gets i at index c + 1; the cursor becomes c + 1, the new last index; the turn owner flips |
| GameHistory.PrefixValid | src/App.js:70 | cutting a valid history and its positions back to a non-empty prefix keeps them valid |
| GameHistory.HandlePlayPreservesValid | src/App.js:69-75 | handing `handlePlay` a legal move (one empty square of a board with no winner, filled with the mark of the cursor's parity) keeps the invariant |
| GameHistory.PlayPreservesValid | src/App.js:69-75 | every click keeps the invariant: history starts empty, runs parallel to positions, each step fills one empty square of a board with no winner, at the recorded position, with the mark of the cursor's parity |
| GameHistory.JumpToProperties | src/App.js:77-79 | jumping to m keeps the invariant, makes history[m] the current board, leaves history and positions unchanged, and repeating the jump changes nothing |
| GameHistory.BranchDiscardsFuture | src/App.js:70-75 | jumping back to m and playing an accepted move leaves exactly m + 2 entries: entries 0..m are kept and the new board replaces the former entries after m |
| GameHistory.MoveCells | src/App.js:16-21 | one move takes its square out of the empty squares and adds it to the mover's squares; the other mark's squares are unchanged |
| GameHistory.EmptyBoardCells | src/App.js:62 | the start board has nine empty squares and no marks |
| GameHistory.MoveCounts | src/App.js:66 | the board at history index m has exactly 9 − m empty squares, (m + 1) / 2 X's and m / 2 O's |
| GameHistory.HistoryBounded | src/App.js:62-75 | a valid history has at most ten snapshots |
| GameHistory.NoEarlyWinner | src/App.js:127-145 | no board among the first five snapshots has a winner |
| GameHistory.LastMoverWins | src/App.js:13-22 | every completed line on snapshot m belongs to the player who made move m and passes through the square that move filled |
| GameHistory.WinnerNamesLastMover | src/App.js:25-28 | in a reachable state with a completed line on the current board, the cursor is at least 1 and the status is "Winner: " followed by the mark of the player who made the last move |
| GameComponent.Game.constructor | src/App.js:62-65 | the game starts with one empty board, one absent position and cursor 0, and satisfies the invariant |
| GameComponent.Game.HandlePlay | src/App.js:69-75 | history and positions are cut after the cursor and extended by the new board and its square; the cursor becomes the new last index; handed a legal move from a valid state with no winner, it keeps the invariant |
| GameComponent.Game.Play | src/App.js:12-22 | `handleClick` passing its board to `handlePlay` (through `onPlay`, line 117): a click keeps the invariant and performs `GameHistory.Play`; a rejected click leaves all three fields unchanged |
| GameComponent.Game.JumpTo | src/App.js:77-79 | only the cursor changes, to the requested move, and the current board becomes the snapshot stored at that index |

## Left out

- Rendering: `Square`, the row and column loops that build the board elements, the `<li>`/`<button>` list items and the CSS highlight of the winning squares. These are presentation only.
- The move-list text ("Go to move #…", "You are at move #…"): only the (row, column) pair inside it is modelled, as `Label` and `MoveLabel`.
- The `sortAsc` toggle and `moves.reverse()`: they change only the display order of the move list, never the history or the cursor.
- React's `useState` and re-rendering: each handler is one method that assigns the fields. `HandlePlay` computes both new sequences from the cursor before assigning, which matches the source, where state updates take effect only on the next render.
- The `rows`/`cols` props: they are always 3 and 3, and the win lines are fixed for a 3×3 board.
- The value stored in `positions[0]`: the source stores an unused array there; the model stores `None`, because entry 0 is always labelled "game start".
- GameHistory.HandlePlay: requires the cursor to index both sequences. JavaScript's `slice` would clamp a larger cursor, but the cursor is always in range, so the clamp is never exercised.
- GameComponent.Game.JumpTo: requires an index inside the history. The source only calls it with indices it generates from the history itself. The value-level `GameHistory.JumpTo` accepts any cursor, as the source does.
- A drawn game is stated at board level: the full board of a drawn game has status "Result: Draw" (`DrawnBoardStatus`); no client method replays the nine moves through the class.
