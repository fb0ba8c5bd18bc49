# Ultimate Tic-Tac-Toe rules engine

This project models the rules engine of a browser Ultimate Tic-Tac-Toe game, `script.js`, and proves properties of it in Dafny.
The game has nine tic-tac-toe sub-boards laid out in a 3x3 meta-grid. Where a player moves inside a sub-board decides which sub-board the opponent must play in next.

The model keeps the source's shape:

- `rules.dfy`, module `Rules`, holds the pure part:
  - the marks `Cell` (`null`/`'X'`/`'O'`) and the outcomes `Outcome` (`null`/`'X'`/`'O'`/`'draw'`);
  - the fixed table of eight lines (rows, then columns, then diagonals);
  - the line scan `WinnerFrom`, which returns the first complete line's value;
  - the four outcome checks as specification functions: `SmallBoardWin`, `SmallBoardDraw`, `UltimateWin` and `UltimateDraw`;
  - lemmas about these functions.
- `game.dfy`, module `Game`, holds the mutable state as the class `UltimateGame`:
  - `ultimateBoard` is an `array4<Cell>` and `bigBoardWins` is an `array2<Outcome>`;
  - `currentPlayer` is a field;
  - `activeBigBoard` is `Anywhere` (the source's `null`) or `Board(row, col)`.
  - `InitializeGame` resets the state. `HandleCellClick` is the move logic of the click handler.
  - The four `check*` functions are read-only methods. Each runs the source's loop with early return, and each is proved equal to its specification function.
  - The invariant `Valid()` says that every recorded sub-board outcome equals the outcome of that sub-board's cells, and that an active sub-board is undecided. Every move preserves it.
- `properties.dfy`, module `GameProperties`, holds clients that rely only on the contracts above:
  - a move never decides anything in the opponent's favour;
  - a game that `checkUltimateWin` ended stays over, and the turn never passes again. `checkUltimateWin` keeps returning a value, though a drawn line earlier in the table can turn `'X'` into `'draw'`;
  - a game that `checkUltimateDraw` ended refuses every further click;
  - the opening move `(0,0,1,1)` restricts the reply to the centre board: every reply in another board is refused.

The model follows the code as written, including two quirks:

- **A line of three drawn sub-boards wins.** `checkUltimateWin` treats `'draw'` like a player's mark. Three drawn sub-boards in a line make it return `'draw'` when no earlier line in the table is complete. The click handler then announces a winner instead of a draw. `Rules.DrawnLineWinsUltimate` and `Rules.AllDrawnIsNotADraw` state this.
- **No game-over guard.** The move logic never checks whether the game is already over. The only freeze in the source removes the click listeners, and the re-render that follows at once adds them back. After a win, `currentPlayer` is not toggled, but moves are still accepted while some sub-board is undecided. `HandleCellClick` therefore has no game-over precondition. `Game.UltimateGame.VerdictPlayed` shows that acceptance depends only on the active board, the cell and the sub-board's outcome. `GameProperties.ClickAfterWinKeepsPlayer` shows that a game `checkUltimateWin` ended stays over and the turn never passes again, so the player who made the ending move keeps moving. `GameProperties.ClickAfterDrawIsRefused` shows that after a draw every sub-board is decided, so every click is refused.

## Model

| member | source | states |
|---|---|---|
| `Game.UltimateGame.constructor` | script.js:5-20 | Loading the script leaves every cell empty, every sub-board undecided, X to move and no active board, in freshly allocated arrays. The invariant holds. |
| `Game.UltimateGame.InitializeGame` | script.js:10-18 | A reset allocates fresh 3x3x3x3 and 3x3 grids, all `null`. It sets X to move and no active board, and establishes the invariant. |
| `Game.UltimateGame.InitialIsValid` | script.js:10-18 | The initial state satisfies the invariant: every recorded `null` matches an empty sub-board. |
| `Rules.EmptyBoardUndecided` | script.js:153-171 | An empty sub-board has neither a winner nor a draw. |
| `Game.UltimateGame.HandleCellClick` | script.js:84-132 | The result is the verdict of the two guards. A refused move changes nothing. An accepted move writes the mover's mark into exactly the target cell and recomputes only the target sub-board's outcome. It sets the next active board to `(sr, sc)` if that board is undecided, and to none otherwise. It toggles the player exactly when the ultimate checks find neither a winner nor a draw. Occupied cells and decided boards never change. The invariant is preserved. |
| `Game.UltimateGame.Verdict` | script.js:85-97 | `NotActiveBoard` when another, undecided board is active. Otherwise `Unavailable` when the cell is taken or its board is decided. Otherwise `Played`. Its meaning in a valid state is proved by `VerdictPlayed`. |
| `Game.UltimateGame.VerdictPlayed` | script.js:85-97 | In a valid state a move is accepted iff no other board is active, the cell is empty and its sub-board is undecided. Whether the game is over plays no part. |
| `Game.UltimateGame.PlaceMark` | script.js:99 | The current player's mark is written into the target cell alone. The sub-board becomes the old one with that one cell replaced. |
| `Game.UltimateGame.RecordSmallBoardOutcome` | script.js:104-110 | The target sub-board's entry becomes its winner, or `'draw'` if it is full, and otherwise keeps its old value. The other entries are unchanged. |
| `Game.UltimateGame.ChooseActiveBoard` | script.js:112-118 | The next active board is `(sr, sc)` if that sub-board is undecided, and none otherwise. |
| `Game.UltimateGame.PassTurn` | script.js:121-132 | The player toggles exactly when `checkUltimateWin` finds nothing and `checkUltimateDraw` is false. Otherwise it is unchanged. |
| `Rules.Other` | script.js:130 | Toggling always yields the other player. |
| `Rules.Lines` | script.js:139-151 | The eight lines in the order the source scans them: rows 0-2, columns 0-2, the main diagonal, the anti-diagonal. The same table is used at both levels. |
| `Rules.WinnerFrom` | script.js:153-159 | The value of the first complete line from entry k on, or the blank value. The same scan is used at both levels. Its meaning is proved by `Rules.WinnerFromSpec`. |
| `Rules.SmallBoardWin` | script.js:137-160 | The pure form of `checkSmallBoardWin`: the line scan of a sub-board with `null` as blank. Its meaning is proved by `Rules.WinnerFromSpec` and `Rules.SubBoardOutcomeSpec`. |
| `Rules.SmallBoardDraw` | script.js:162-172 | The pure form of `checkSmallBoardDraw`: all nine cells taken and `SmallBoardWin` finds nothing. |
| `Rules.SubBoardOutcome` | script.js:104-110 | The value the click handler records for a sub-board: its winner, else `'draw'` when `SmallBoardDraw` holds, else `null`. Its meaning is proved by `Rules.SubBoardOutcomeSpec`. |
| `Rules.UltimateWin` | script.js:174-196 | The pure form of `checkUltimateWin`: the line scan of the meta-grid with `null` as blank, so `'draw'` counts as a value. Its meaning is proved by `Rules.WinnerFromSpec` and `Rules.WinnerIsFirstLine`. |
| `Rules.UltimateDraw` | script.js:198-207 | The pure form of `checkUltimateDraw`: all nine entries decided and `UltimateWin` finds nothing. Its meaning is proved by `Rules.UltimateDrawSpec`. |
| `Game.UltimateGame.CheckSmallBoardWin` | script.js:137-160 | The loop over the eight lines returns exactly the line scan of the sub-board's cells. |
| `Game.UltimateGame.CheckSmallBoardDraw` | script.js:162-172 | The nested loop returns true iff all nine cells are taken and `checkSmallBoardWin` finds no line. |
| `Game.UltimateGame.CheckUltimateWin` | script.js:174-196 | The loop returns exactly the line scan of the meta-grid, with `'draw'` counted as a value. |
| `Game.UltimateGame.CheckUltimateDraw` | script.js:198-207 | The nested loop returns true iff all nine sub-boards are decided and `checkUltimateWin` finds nothing. |
| `Rules.WinnerFromSpec` | script.js:153-159 | The scan returns the blank value iff no line is complete. Otherwise it returns the value of a complete line with no complete line before it in table order. |
| `Rules.WinnerIsFirstLine` | script.js:189-195 | If line k is the first complete line, the scan returns that line's value, whatever the value is. |
| `Rules.SubBoardOutcomeSpec` | script.js:104-110 | The recorded outcome is a win iff some line is complete, and the win names the first complete line's mark. It is `'draw'` iff the board is full with no complete line. It is `null` iff the board is not full and has no complete line. |
| `Rules.UltimateDrawSpec` | script.js:198-207 | The ultimate draw holds iff all nine sub-boards are decided and no line holds three equal decided outcomes. Three draws count as such a line. |
| `Rules.DrawnLineWinsUltimate` | script.js:189-195 | If the first complete meta-line holds three drawn sub-boards, `checkUltimateWin` returns `'draw'` and `checkUltimateDraw` is false. |
| `Rules.AllDrawnIsNotADraw` | script.js:198-207 | With all nine sub-boards drawn, the game is reported as won by `'draw'` and never as a draw. |
| `Rules.WriteCompletesOnly` | script.js:153-159 | Writing v into a blank cell of a grid with no complete line can only complete lines of v. |
| `Rules.MoveNeverWinsForOpponent` | script.js:99-110 | A move by p into an undecided sub-board never makes that sub-board won by the other player. |
| `Rules.RecordCompletesOnly` | script.js:107-122 | If the meta-grid had no complete line, recording outcome o for one undecided sub-board lets `checkUltimateWin` return only `null` or o. |
| `Rules.OverStaysOver` | script.js:189-195 | If some meta-line is complete and no decided entry changes, `checkUltimateWin` still returns a value. |
| `GameProperties.ClickAfterWinKeepsPlayer` | script.js:95-132 | A click in an ended game, whether accepted or refused, keeps `checkUltimateWin` returning a value (not necessarily the same one) and leaves `currentPlayer` unchanged. |
| `GameProperties.ClickAfterDrawIsRefused` | script.js:95-97 | In a game that `checkUltimateDraw` ended, every click is refused, `currentPlayer` is unchanged and the draw still holds. |
| `GameProperties.ClickFavoursMover` | script.js:99-123 | After an accepted move, the target sub-board is not won by the opponent. If no meta-line was complete before, the ultimate winner is `null` or the outcome just recorded. |

## Left out

- The DOM: building and styling the board (`renderBoard`), `disableAllCells`, the status text and the `alert`. These are display only, and nothing in the model depends on them.
- Event wiring and reading the four indices from the cell's dataset with `parseInt`. The indices are parameters of type `Idx` (0 to 2), as the rendered cells always provide.
- `disableAllCells` after a win or a draw. It is undone by the `renderBoard` call right after it, so it does not change which moves are accepted. The model has no game-over guard.
- No concrete scenario plays a full game to a win. The behaviour after a win is stated for every valid state by `VerdictPlayed` and `ClickAfterWinKeepsPlayer`.
- The sub-steps of the click handler (writing the mark, recording the outcome, choosing the active board, passing the turn) are separate methods in the model. The source writes them inline in one function. Their order and effects are the same.
