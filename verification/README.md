# Falling-block game engine in Dafny

This project models the game-state engine of a browser falling-block game (`script.js`).
It covers the seven-piece catalogue, the placement check `isValid`, rotation, spawning, sideways moves, and the gravity step `drop`.
The gravity step locks the piece, clears full lines and spawns the next piece.
The model also covers the score/level/drop-interval counters, `reset`, and the command dispatch `handleMovement`.
Everything is pure functions over immutable values:

- `pieces.dfy` (module `Pieces`): shapes as `seq<seq<int>>`, and the catalogue.
- `rotation.dfy` (module `Rotation`): transpose-then-reverse rotation.
- `board.dfy` (module `Board`): the board, the placement check and the lock.
- `lines.dfy` (module `Lines`): line clearing, modelled as the source does it.
  It first collects the indices of the full rows, then splices each one out and unshifts an empty row.
- `progression.dfy` (module `Progression`): score, level and drop interval.
- `game.dfy` (module `Game`): the session state, spawn/reset/move/rotate/drop, the timer tick, the command dispatch, and runs of events.

Board dimensions are a parameter, `Board.Config(width, height)`.
The game itself uses `Board.Standard`, which is 12 × 20.
Results about whole games assume `Playable()`: width ≥ 4 and height ≥ 2.
On such a board every catalogue piece spawns inside the board.
The random piece choice is an input `idx < 7`, an index into the catalogue.

Main results:

- The placement check is true exactly when every occupied shape cell lands inside the board on an empty cell (`Board.Fits`).
  Empty shape cells may project outside the board.
- Rotation maps an R × C matrix to a C × R matrix with `new[i][j] = old[j][C-1-i]`.
  Four rotations give back the original matrix.
- Line clearing equals "k empty rows, then the non-full rows in their original order", where k is the number of full rows.
  Afterwards no row is full.
- A rejected move or rotation leaves the state unchanged.
  An accepted one changes only x, or only the shape.
- `Game.Invariant` holds after a reset and is kept by every tick, command and restart.
  It says: board dimensions are kept, the active piece lies inside the board, and while the game runs its placement is legal.
  The counters also stay in range: the drop interval is a multiple of 100 within [100, 1000].

Facts about `script.js` that the model keeps as written:

- **Rotation direction.** `rotate` (script.js:107) computes `new[i][j] = old[j][C-1-i]`.
  That is a counter-clockwise quarter turn on a board whose row 0 is the top.
  `Rotation.Rotate` states the index formula.
- **Game-over guard.** Only the two timer callbacks (script.js:152 and script.js:259) check `gameOver` before calling `drop`.
  `handleMovement` (script.js:159-178) has no such check, so commands still act after game over.
  `Game.HandleMovement` has no guard, and `Game.Tick` is the guarded wrapper.
  `Game.DownAfterGameOverStillScores` shows a `Down` command after game over that still locks a piece, clears a line and scores it.
- **Spawn and the game-over flag.** `newPiece` (script.js:60-68) only ever sets `gameOver`; it never clears it.
  A spawn after game over therefore leaves the game over, even if the new placement is legal.

## Model

| member | source | states |
|---|---|---|
| `Pieces.CatalogueShapes` | script.js:14-22 | each of the seven pieces is a 0/1 matrix with 1–2 rows and 2–4 columns, and its second top-row cell is occupied |
| `Rotation.Rotate` | script.js:106-108 | an R×C matrix becomes C×R with `new[i][j] == old[j][C-1-i]`; rotating a 0/1 shape gives a 0/1 shape |
| `Rotation.RotateTwiceIsHalfTurn` | script.js:106-108 | two rotations give the half turn: same dimensions, `h[i][j] == s[R-1-i][C-1-j]` |
| `Rotation.RotateFourTimesIsIdentity` | script.js:106-108 | four rotations give back the original matrix |
| `Rotation.RotateFixesOPiece` | script.js:106-108 | the 2×2 all-ones O piece is a fixed point of rotation |
| `Rotation.RotateIPieceTwice` | script.js:106-108 | the 1×4 I piece rotates to 4×1 and, rotated again, gives back the same footprint |
| `Board.StandardIsPlayable` | script.js:3-4 | the game's own 12 × 20 board is playable, so every result stated for playable boards applies to it |
| `Board.EmptyBoard` | script.js:49 | the reset board has the configured dimensions and every cell is 0 |
| `Board.RowOk` | script.js:72-79 | the inner `every` over one shape row is true iff each of its cells passes the cell test |
| `Board.RowsOk` | script.js:71-80 | the outer `every` over the shape rows is true iff every cell of every row passes the cell test |
| `Board.IsValid` | script.js:70-81 | true iff every occupied cell lands inside [0,W)×[0,H) on a board cell equal to 0; true implies the placement is in bounds |
| `Board.IsValidIgnoresEmptyCells` | script.js:75-77 | shapes with the same occupied cells get the same verdict, whatever their empty cells |
| `Board.StampRow` | script.js:94-98 | writing one shape row sets exactly the board cells under its occupied cells to their values and keeps every other cell and all dimensions |
| `Board.Stamp` | script.js:93-99 | writing the shape rows from `dy` down changes exactly the board cells under their occupied cells |
| `Board.Lock` | script.js:93-99 | the locked board has the same dimensions; a cell under an occupied shape cell takes that cell's value (1 for a 0/1 shape), and every other cell is unchanged |
| `Lines.FullIndices` | script.js:111-116 | every collected index is within the scanned rows |
| `Lines.FullIndicesAreFullRows` | script.js:111-116 | the collected indices are strictly ascending, and an index is collected iff its row is full |
| `Lines.SpliceUnshift` | script.js:118-119 | removing one row and unshifting an empty row keeps the row count |
| `Lines.SpliceAll` | script.js:117-121 | splicing out every listed index in turn keeps the row count |
| `Lines.SpliceAllFullIndices` | script.js:110-121 | after the full rows among the first n are spliced out in ascending order, the board is: one empty row per removal, then the non-full rows of that prefix in order, then the rest of the board unchanged |
| `Lines.Survivors` | script.js:112-119 | the rows kept by a clear are never full and are no more numerous than the rows of the board |
| `Lines.SurvivorsKeepWidth` | script.js:112-119 | rows kept by a clear have the board's width |
| `Lines.ClearLines` | script.js:110-121 | the result is k empty rows followed by the non-full rows in their original order, with k = the number of full rows; the row count and widths are kept; no row is full afterwards when W > 0 |
| `Progression.AddLineScores` | script.js:117-121 | one 100-point increment per removed line adds exactly 100·k |
| `Progression.LevelUp` | script.js:140-142 | the level rises by one and the interval becomes at least 100 and no larger than before; above 100 it strictly shrinks |
| `Progression.OnLinesCleared` | script.js:117-128 | a clear of k lines adds 100·k to the score; the level rises by 1 iff k > 0, whatever k is; the interval becomes max(100, old − 100) iff k > 0; a clear of no lines changes nothing |
| `Progression.InitialWellFormed` | script.js:50-52 | the reset counters (0, 1, 1000) are in range |
| `Progression.OnLinesClearedPreserves` | script.js:140-142 | a clear keeps level ≥ 1 and the interval a multiple of 100 within [100, 1000]; score and level do not fall and the interval does not rise |
| `Progression.IntervalAfterLevelUps` | script.js:140-142 | after n clear events of `lines` > 0 rows each, from a reset, the score is 100·lines·n, the level is 1 + n and the interval is max(100, 1000 − 100·n), never below 100 |
| `Game.SpawnInBounds` | script.js:60-63 | on a board at least 4 wide and 2 high, every catalogue piece at its spawn anchor lies inside the board |
| `Game.Spawn` | script.js:60-68 | the new piece is catalogue piece idx at x = ⌊W/2⌋ − ⌊width of row 0 / 2⌋, y = 0; board and counters unchanged; the game is over iff it was already over or that placement fails the check |
| `Game.SpawnOnFullTopRowEndsGame` | script.js:64-67 | a spawn onto a board whose top row is full always ends the game and leaves the board as it was |
| `Game.Reset` | script.js:48-57 | after a reset the board is empty, the counters are (0, 1, 1000), the game is not over, catalogue piece idx sits at its spawn anchor (x = ⌊W/2⌋ − ⌊width/2⌋, y = 0), and the invariant holds |
| `Game.Move` | script.js:83-87 | if the shifted placement is legal only x changes, by `dir`; otherwise the state is unchanged |
| `Game.TryRotate` | script.js:161-165 | if the rotated shape is legal at the same anchor only the shape changes; otherwise the state is unchanged |
| `Game.Drop` | script.js:89-102 | if one row lower is legal only y changes, by +1; otherwise the board becomes the cleared locked board, the counters advance by its full-row count and piece idx spawns at its spawn anchor, and the game is then over iff it was already over or the new placement fails the check; a game over stays over; unless over, the new placement is legal |
| `Game.Tick` | script.js:258-262 | a timer tick does nothing once the game is over and is a gravity step otherwise |
| `Game.HandleMovement` | script.js:159-178 | `Left` and `Right` shift x by one column iff the shifted placement is legal and otherwise change nothing; `Up` replaces the shape by its rotation iff that is legal at the same anchor and otherwise changes nothing; `Down` is exactly one gravity step; every command keeps the piece in bounds, and only `Down` can change board, counters or the game-over flag, never clearing it |
| `Game.Step` | script.js:151-264 | a timer tick does nothing once the game is over and is one gravity step otherwise; an input is exactly the command dispatch; a restart is exactly a reset; every event keeps the active piece inside the board |
| `Game.Run` | script.js:253-264 | any run of events keeps the active piece inside the board |
| `Game.HandleMovementPreservesInvariant` | script.js:159-178 | every command keeps the play invariant: dimensions, piece in bounds, counters in range, and a legal placement while the game runs |
| `Game.StepPreservesInvariant` | script.js:151-264 | a tick, command or restart keeps the play invariant |
| `Game.RunPreservesInvariant` | script.js:253-264 | from a state satisfying the invariant, such as one just after a reset, every run of events keeps it |
| `Game.StepIsMonotone` | script.js:89-102 | within a game, score and level never fall, the interval never rises, and a game over stays over |
| `Game.LockExample` | script.js:93-99 | on a concrete 4×2 board, locking the I piece at the top-left fills the top row |
| `Game.ClearExample` | script.js:110-121 | on the same board the one full row is cleared and replaced by an empty top row |
| `Game.DownAfterGameOverStillScores` | script.js:167-169 | a `Down` command on a game that is already over still locks the piece, clears a line and adds 100 points |

## Left out

- Rendering (`draw`, lines 24-46, and its calls) is left out. It only reads the state.
- DOM updates are left out: score and level text, game-over, message and level-up overlays, and their `setTimeout` auto-hide. They are display side effects only.
- Timer scheduling is left out: the `setInterval`/`clearInterval` rescheduling in `levelUp` and at load.
  A timer firing is modelled as `Game.Tick`. The model keeps the new interval but not the timer itself.
  `reset` (script.js:48-57) sets `dropInterval` back to 1000 but does not restart the timer.
  After a restart the real tick period therefore stays at the last level-up period, while `Progress.dropInterval` says 1000.
- Keyboard, touch-key and swipe listeners, and `isMobileDevice`, are left out.
  They only translate raw events into the four commands of `Game.Command`.
- `Math.random` is left out. The next piece is the input `idx`.
- `handleMovement` ignores a direction string other than the four listed.
  This case is left out because every caller passes one of the four.
- The state before the first `reset()` is left out. The active piece is undefined there, and the script calls `reset()` at load.
- `Game.Drop`, `Game.Tick`, `Game.HandleMovement`: these require `Game.Consistent`.
  That means a playable board of the configured dimensions, and an active piece that is a 0/1 matrix lying inside it.
  The source writes the locked cells without a bounds check. `Game.Run` and `Game.RunPreservesInvariant` show that every reachable state meets the requirement.
- Score and level are unbounded integers. JavaScript numbers are exact far beyond any reachable score.
- Timing and score constants (1000, 100, 100, 100) are named constants. They are not configuration parameters, because the source hard-codes them.
