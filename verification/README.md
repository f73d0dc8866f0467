# Tetris game core in Dafny

This project models the game logic of a small pygame Tetris (`Main.py`,
class `TetrisGame`). The model covers:

- a 16 × 24 grid of cells, each empty or holding a block colour;
- a falling piece, which is a footprint of booleans with a colour and a
  grid position;
- moves, clockwise rotation, spawning and locking of pieces;
- clearing of full rows, with score, level and speed;
- the key handling of a frame, including the acceleration of held keys;
- the lock delay that lets a resting piece be adjusted before it locks.

Everything is pure: a game is an immutable `Game` value, and one frame of
the game loop is the function `Tetris.RunTick`.

The modules follow the parts of `TetrisGame`:

| module | file | covers |
|---|---|---|
| `Catalog` | catalog.dfy | the shape catalog, the palette, rotation by zipping the reversed rows |
| `Playfield` | playfield.dfy | grid dimensions, the placement rule, full-row detection and clearing |
| `Pieces` | pieces.dfy | the active piece: move, rotate, spawn, lock |
| `Progression` | progression.dfy | score, row counter, level and speed |
| `Timing` | timing.dfy | the lock-delay schedule of the game loop and the held-key acceleration |
| `Tetris` | game.dfy | the game state, key events, input handling and the frame |

Some details of how the model matches the code:

- **Rows clearing.** The clearing loop of `clear_rows` has a bug, described
  under Findings. The game model uses the corrected `Playfield.ClearRows`.
  The loop as written is kept as `Playfield.ClearRowsAsWritten`, and lemmas
  show where the two agree and where they differ. Finding the full rows and
  deleting them only ever ask whether a row is full, so those functions and
  their lemmas take the row type and the fullness test as parameters, and
  the grid's versions pass `IsFull`.
- **Game over.** After a lock the code checks whether the new piece fits and
  then does nothing with the answer. The model follows the code: it records
  the answer in `Game.blocked`, and play goes on.
- **Lock delay.** `lock_delay` and `allow_adjustment` are locals of `run`.
  The model keeps them in `Game.delay`. As in the code, they reset only when
  the loop itself locks a piece, and not when the piece falls again or when
  the down key locks it. `Timing.Schedule` states this: a fall leaves the
  delay state unchanged. So frames a piece has already waited still count
  after it falls further.
- **Held keys.** `keys_held` stores `False`, `0`, `-1` and `1`, and the
  code compares with `-1` or `1`. Only those values are ever stored, so each
  key is modelled as a boolean.
- **Rounds of input handling.** The acceleration count goes up once per
  call of `handle_input`, not once per frame. The first resting frame after
  a lock by the loop calls it twice (Main.py:237 and 243), so that frame
  counts two rounds (`Tetris.RestingFrameCountsTwice`). The acceleration
  rule and `Timing.HeldAttempts` are stated per round.
- **Events.** The events read by the extra round of input handling in the
  lock delay are a separate parameter `late`. A real program reads them from
  the event queue at that moment.

## Model

| member | source | states |
|---|---|---|
| Catalog.CatalogShapes | Main.py:27-45 | seven shapes and seven colours; every shape is a rectangle 1–2 rows high and 1–4 columns wide |
| Catalog.CatalogDuplicates | Main.py:27-35 | entries 2 and 5, and entries 4 and 6, are the same footprint; all other entries are distinct |
| Catalog.ZipLength | Main.py:132 | zipping the rows yields as many tuples as the shortest row has cells; no rows yields nothing |
| Catalog.Rotate | Main.py:132 | the turned footprint has one row per zipped tuple, each as long as the footprint is high |
| Catalog.ZipLengthOfRect | Main.py:132 | for a rectangle, the zip keeps every column |
| Catalog.RotateRect | Main.py:132 | a quarter turn of an h × w rectangle is a w × h rectangle; cell (i, j) moves to (j, h-1-i), which is a clockwise turn |
| Catalog.HalfTurn | Main.py:132 | two quarter turns read the rectangle backwards in both directions |
| Catalog.RotateFourTimes | Main.py:132 | four quarter turns give back the original footprint |
| Playfield.Dimensions | Main.py:5-14 | the grid is 200/25·2 = 16 columns by 300/25·2 = 24 rows; a new grid is that size and all empty |
| Playfield.ScanRow | Main.py:139-145 | the scan of one footprint row accepts iff every occupied cell from that column on lands inside the grid on an empty cell |
| Playfield.ScanRows | Main.py:138-146 | the scan of the rows from i on accepts iff every occupied cell in them does |
| Playfield.IsValidPlacement | Main.py:136-146 | a placement is accepted iff every occupied cell of the footprint lands inside the grid on an empty cell |
| Playfield.FullRowsAbove | Main.py:149-152 | the recorded indices of the top n rows are in range, with room below each for the indices after it |
| Playfield.FullRowsAboveExact | Main.py:149-152 | among the top n rows, the recorded indices ascend and name exactly the full rows |
| Playfield.FullRowsExact | Main.py:149-152 | the recorded indices ascend, and they are exactly the full rows of the grid |
| Playfield.SurvivorsAbove | Main.py:149-152 | the rows that are not full among the top n: as many as there are rows minus full rows |
| Playfield.SurvivorsAboveRows | Main.py:149-152 | every surviving row is a row of the grid and none of them is full |
| Playfield.AboveDependsOnTop | Main.py:149-152 | which of the top n rows are full, and which survive, depends on those n rows alone |
| Playfield.ClearRowsAsWritten | Main.py:154-177 | the as-written clearing of a grid keeps its height |
| Playfield.ClearRows | Main.py:148-177 | clearing removes every full row, keeps the others in order, puts one empty row on top per removed row, keeps the dimensions, and leaves no full row |
| Playfield.DeletingFullRowsLeavesSurvivors | Main.py:154-177 | deleting the recorded rows, bottom one first, leaves exactly the rows that were not full |
| Playfield.AsWrittenAgreesOnOneRow | Main.py:154-177 | with at most one full row, the loop as written gives the correct result |
| Playfield.ClearRowsKeepsClearGrid | Main.py:148-153 | a grid without a full row is left unchanged, with nothing counted |
| Playfield.BottomTwoFullFound | Main.py:149-152 | when only rows 22 and 23 are full, the recorded indices are [22, 23] |
| Playfield.ClearRowsAsWrittenLosesRow | Main.py:154-177 | with rows 22 and 23 full, the loop as written drops row 21 and leaves full row 22 at the bottom |
| Playfield.AsWrittenTwoIndices | Main.py:154-177 | with two recorded rows a < b, the loop as written deletes row b and then the row the insertion moved to index a: for a > 0 row a − 1 is lost and full row a stays at index a + 1; for a = 0 the empty row just put on top is deleted, so full row 0 stays under one empty row |
| Playfield.ClearRowsKeepsRowAbove | Main.py:154-177 | on the same grid, the corrected clearing keeps rows 0–21 below two empty rows |
| Playfield.LosesPartialRow | Main.py:154-177 | on any grid whose only full rows are 22 and 23, with a row 21 that is not empty and empty rows above it, the loop as written ends in a full row and no longer holds row 21; the corrected clearing ends with row 21 |
| Playfield.TwoFullRowsDiffer | Main.py:154-177 | on a concrete grid, the as-written result ends in a full row and has lost the block row; the corrected result has that row at the bottom |
| Pieces.ValidInBounds | Main.py:143-145 | a valid placement lies inside the grid |
| Pieces.TryMove | Main.py:124-129 | a move succeeds iff the shifted piece passes the placement rule; on success the piece moves by exactly (dx, dy), otherwise it is unchanged |
| Pieces.MoveKeepsPlacement | Main.py:124-146 | moves keep shape and colour, never make a valid piece invalid, never take a piece out of the grid, and only ever reach valid positions |
| Pieces.TryRotate | Main.py:131-137 | a turn keeps position and colour; it is committed only if it fits (an empty turned footprint falls back to checking the current one); a rejected turn changes nothing; rectangles stay rectangles |
| Pieces.RotateOutcome | Main.py:131-134 | for a rectangular piece, the turn is committed iff the turned footprint fits, which swaps its dimensions; otherwise nothing changes |
| Pieces.Spawn | Main.py:185-189 | a new piece is the drawn shape and colour in row 0, horizontally centred (the right margin minus the left margin is 0 or 1), inside the grid |
| Pieces.SpawnFitsEmptyGrid | Main.py:185-189 | every catalog shape spawns in a valid placement on an empty grid |
| Pieces.Paint | Main.py:266 | writing one cell changes that cell only |
| Pieces.PaintRow | Main.py:262-266 | painting one footprint row writes the colour into exactly that row's occupied cells |
| Pieces.PaintRows | Main.py:261-266 | painting the footprint rows from i on writes the colour into exactly the cells they cover |
| Pieces.Lock | Main.py:260-266 | locking writes the piece's colour into exactly the cells it covers; every other cell and the dimensions stay |
| Progression.AfterRows | Main.py:178-183 | the progress after n cleared rows accounts for exactly n rows |
| Progression.ValidIsAfterRows | Main.py:66-69 | a reachable progress is exactly the progress of its number of cleared rows (score 100 per row, level 1 + rows/40, speed 10 + level − 1) |
| Progression.CreditRow | Main.py:178-183 | one row adds 100 to the score and one cleared row; the level rises by one, with the counter back at 0, exactly when the threshold is reached; speed keeps pace with level; validity is kept |
| Progression.CreditRows | Main.py:154-183 | k rows add 100·k to the score and k cleared rows; level and speed never go down; validity is kept |
| Progression.CreditRowsIsAfterRows | Main.py:178-183 | crediting k rows lands where clearing the combined number of rows from a new game lands |
| Progression.InitialIsValid | Main.py:66-69 | a new game's progress is valid and is that of zero cleared rows |
| Timing.Schedule | Main.py:239-250 | a frame locks iff the piece could not fall and the delay is used up; a resting frame with delay left waits, counts one frame and uses up the adjustment; a lock resets the delay; a fall leaves it alone |
| Timing.StalledPieceLocks | Main.py:239-250 | a piece that cannot fall waits out the rest of the delay and locks on the next frame, leaving the delay reset |
| Timing.AtMostOneAdjustment | Main.py:240-244 | between two locks the extra round of input handling happens at most once, and not at all once it has been used |
| Timing.HeldAttemptsClosedForm | Main.py:216-224 | holding a key for n rounds of input handling from count c attempts n + (c+n)/10 − c/10 steps |
| Tetris.Draw | Main.py:185-189 | a drawn piece is a rectangle inside the grid |
| Tetris.Start | Main.py:55-82 | a new game has an empty 16 × 24 grid, the first drawn piece in a valid position, nothing scored, level 1, speed 10, no keys held, an idle lock delay, and satisfies the invariant |
| Tetris.ApplyEvent | Main.py:196-214 | a press of Up turns the piece; a press of another arrow key holds it; a release of a held key frees it and restarts the acceleration count; any other event, or the release of a key not held, changes nothing; events never touch the grid, progress or delay; the invariant is kept |
| Tetris.ApplyEvents | Main.py:192-214 | a frame's events keep the grid, progress, delay and the piece's position and colour, and keep the invariant |
| Tetris.PressAndRelease | Main.py:196-214 | pressing and releasing the left, right or down key within one frame moves nothing; it only leaves the key free and restarts the count |
| Tetris.Shift | Main.py:217-224 | repeated sideways attempts move the piece by at most one column each, in the key's direction, and never to an invalid or out-of-grid position |
| Tetris.ShiftBlocked | Main.py:124-129 | a piece blocked on one side does not move to that side however often it tries |
| Tetris.LockPiece | Main.py:260-273 | a lock writes exactly the piece's cells, draws the next piece, records whether that piece fails the placement rule, and keeps the invariant |
| Tetris.Steer | Main.py:216-224 | steering counts the round of input handling and moves the piece sideways only; with no sideways key held the piece stays |
| Tetris.InputTick | Main.py:216-228 | a tick counts the round of input handling or restarts the count; it locks at most once, only while the down key is held, and then restarts the count; with no key held it only counts the round; the invariant is kept |
| Tetris.DownKeyLocks | Main.py:225-228 | holding only the down key over a piece that cannot go down locks it and restarts the count |
| Tetris.LeftKeyAccelerates | Main.py:216-220 | holding only the left key with room for the steps it attempts moves the piece one column left, and two on rounds of input handling whose count is a multiple of 10 |
| Tetris.HeldLeftKey | Main.py:216-220 | holding only the left key for n rounds of steering with the piece's row fixed, and the columns passed open, moves the piece Timing.HeldAttempts(acc, n) columns left (n plus one per multiple of 10 the count passes) and adds n to the count |
| Tetris.RightKeyAccelerates | Main.py:216-224 | holding only the right key with room for the steps it attempts moves the piece one column right, and two on rounds of input handling whose count is a multiple of 10 |
| Tetris.DownKeyFalls | Main.py:216-226 | holding only the down key with room below moves the piece down one row and counts the round; nothing else changes |
| Tetris.HandleInput | Main.py:191-228 | input handling keeps progress, delay and the invariant, and draws at most one piece; with no events and no keys held it only counts the round |
| Tetris.ClearStep | Main.py:148-183 | with the corrected clearing (see Findings), clearing leaves no full row, replaces the full rows with empty rows on top, adds 100 per removed row to the score and credits each removed row to the level; the piece and counters stay |
| Tetris.ClearStepIdle | Main.py:148-153 | a grid without a full row is left alone and scores nothing |
| Tetris.Settle | Main.py:239-250 | the fall-or-rest step keeps the invariant and progress, and draws at most one piece |
| Tetris.SettleFalls | Main.py:239 | a piece with room below falls one row, and nothing else changes |
| Tetris.SettleLocks | Main.py:247-250 | a resting piece with the delay used up locks, and the delay resets |
| Tetris.SettleWaits | Main.py:240-246 | a resting piece with delay left waits one frame; input is handled again only if the adjustment is still allowed |
| Tetris.RunTick | Main.py:236-252 | a frame, with the corrected clearing (see Findings), keeps the invariant, leaves no full row, never lowers score, level or speed, and draws at most two pieces |
| Tetris.QuietFall | Main.py:236-252 | with no input and room below, a frame moves the piece down one row and counts one round of input handling, nothing else |
| Tetris.StuckPieceLocks | Main.py:236-252 | with no input, a piece that cannot fall and has used up its delay is locked; the next piece is drawn and the delay resets |
| Tetris.RestingFrameCountsTwice | Main.py:236-246 | with no input, the first resting frame after a lock by the loop runs two rounds of input handling and adds two to the acceleration count |
| Tetris.FirstRestAdjusts | Main.py:236-252 | with no input, the first resting frame after a lock handles the late events; the loop itself does not lock the piece (a Down press among the late events still can) |

## Left out

- Drawing: `draw_grid`, `draw_tetromino`, the highlight column, window setup and the frame-rate clock (Main.py:56-59, 83-122, 254-258). These are output only. `speed` is modelled as a number; the pacing it sets is not.
- The strobe effect in `clear_rows` (Main.py:155-175). It repaints the row at the recorded index with random colours and waits between frames. After the first deletion that row is not always the one recorded (see Findings). Whichever row it repaints is deleted right after, so the strobe does not change the resulting grid.
- The quit event (Main.py:193-195). It ends the process. All other non-key events are `OtherEvent` and change nothing.
- Randomness (Main.py:186-187). It is the parameter `rng` of the game functions: the n-th piece of a game is drawn from `rng(n)`.
- `locked_tetromino` (Main.py:73, 268). It is stored and never read.
- Game over (Main.py:271-273). Only the result of the check is kept, in `Game.blocked`. The code takes no action, so nothing ends the game in the model either.
- Tetris.ClearStep: it uses the corrected `Playfield.ClearRows`, not the loop as written at Main.py:154-177. With two or more full rows the program's frame leaves a full row in the grid. For two full rows a < b, row a stays, at index a + 1, and row a − 1 is lost; when a = 0 no row is lost, but only one empty row ends up on top (Playfield.AsWrittenTwoIndices). The next frame clears and scores the leftover row again, so two full rows earn 300 points and count 3 cleared rows instead of 200 and 2. The model does not reproduce this.
- Tetris.RunTick: its `NoFullRow` result holds because the frame uses the corrected clearing; the program's frame can end with a full row left in the grid (see Tetris.ClearStep above). The contract states only invariants, monotone progress and the spawn bound. The exact outcome of a frame is stated case by case, for frames without input, by Tetris.QuietFall, Tetris.StuckPieceLocks and Tetris.FirstRestAdjusts, and in general by the Settle lemmas.
- Catalog.Rotate: the contract states only the dimensions of the turned footprint. Catalog.RotateRect states where each cell goes.
- Playfield.ClearRowsAsWritten: the contract states only that the height is kept. Its outcome is stated by Playfield.ClearRowsAsWrittenLosesRow and Playfield.AsWrittenAgreesOnOneRow.
- Tetris.Shift: the direction and distance bounds are stated for steps of −1 and +1 only, the only ones the code uses.
- Integer widths: Python integers are unbounded, and the model uses unbounded integers too. No counter wraps.

## Findings

| source | as written | input that shows it | evidently intended | confidence | as-written member | corrected member |
|---|---|---|---|---|---|---|
| Main.py:154-177 | The loop deletes each recorded row at its recorded index, bottom one first, but inserts an empty row at the top after every deletion. After j deletions every row above them has moved down j places, so the j-th later index names the row j places above the one recorded, or, when the recorded index is less than j, one of the empty rows inserted at the top. | A grid whose rows 22 and 23 are full and whose row 21 holds a single block (`Playfield.TwoFullRows`). The loop deletes row 23, then deletes the old row 21, now at index 22. Full row 22 stays at the bottom and the block of row 21 is lost. | All recorded full rows are removed, the other rows keep their order, and one empty row per removed row is added on top | not executed | Playfield.ClearRowsAsWrittenLosesRow | Playfield.ClearRows |
