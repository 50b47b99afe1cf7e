# ASCII Tetris simulation core in Dafny

This project models the simulation core of a console falling-block game. The
core has three layers:

- **`Pieces`** (`pieces.dfy`) covers the seven 4x4 tetromino templates, piece
  creation and clockwise rotation.
- **`Board`** (`board.dfy`) covers the 10x20 grid. Cells hold 0 (empty), 1
  (locked) or 2 (display overlay of the falling piece). The module has the
  collision query, lock, overlay draw and removal, and full-row removal with
  downward compaction. Row removal is given twice: as a declarative function,
  and as a method that follows the source's top-down pass. The method is
  proved equal to the function.
- **`GameLoop`** (`game.dfy`) covers the game state, the constructor, hard
  drop, rotation with wall kicks and one iteration of the main loop as a pure
  function `Step`. `Play` and `Run` repeat `Step` over a sequence of inputs.

The grid is a `seq` of 20 rows of 10 `Cell`s. A `Cell` is `Empty`, `Locked`
or `Falling`, standing for codes 0, 1 and 2. Shapes are 4x4 `seq`s of `int`,
like the source's `int shape[4][4]`. A shape cell counts as occupied when it
equals 1.

Two things in the source are not computed inside the model:

- Keyboard polling becomes an `Input` parameter, either `NoKey` or `Key(c)`.
- The random template choice `rand() % 7` becomes a `ShapeIndex` parameter.

One loop iteration can respawn twice. A hard drop respawns, and when the tick
is a multiple of 10, gravity can then lock the new piece and respawn again.
So `Step` takes two draws: `first` for the first respawn and `second` for the
one after a hard drop.

Behaviour of the code that the model keeps:

- Gravity still runs in an iteration whose hard drop has just set
  `gameOver`.
- `gameOver` is only ever raised, never reset.
- The collision test treats overlay cells (2) as blocking, like locked
  cells.
- Drawing the overlay over a locked cell overwrites it.
  `DrawOverLockedLosesBlock` shows, for any grid, any piece and any on-grid
  locked cell the piece covers, that the cell becomes 2 and that removing
  the overlay then leaves a 0 where the 1 was. `DrawThenClearExact` shows
  that the round trip restores a grid without overlay exactly when the
  piece covers no locked on-grid cell; a piece partly off the grid may
  collide and still round-trip. In the loop this can only happen on the final frame,
  after the game is over.
- Row removal increments the row index after each removal, so a removed
  row's index is not scanned again. The result is still the same as
  removing all full rows at once: blank rows on top, then the rows that were
  not full, in their old order.

## Model

| member | source | states |
|---|---|---|
| Pieces.TemplatesAreTetrominoes | src/tetromino.cpp:5-55 | each of the seven templates has exactly four entries equal to 1, only 0/1 entries, and all occupied entries in rows 0 and 1 |
| Pieces.CreatePiece | src/tetromino.cpp:57-69 | the new piece is a copy of the chosen template at (0, 0), and so a four-cell 0/1 shape |
| Pieces.Rotate | src/tetromino.cpp:72-82 | the rotated matrix has `new[j][3-i] == old[i][j]` for all i, j in 0..3 |
| Pieces.RotatePiece | src/tetromino.cpp:72-82 | rotating a piece rotates its shape and keeps `x` and `y` |
| Pieces.RotateTwice | src/tetromino.cpp:75-77 | two rotations map entry (i, j) to (3-i, 3-j), a half turn |
| Pieces.RotateFourTimes | src/tetromino.cpp:75-77 | four rotations give back the original matrix (rotation has order 4) |
| Pieces.RotatePreservesCells | src/tetromino.cpp:73-81 | rotation keeps the number of occupied cells, and a 0/1 matrix stays 0/1 |
| Board.EmptyGrid | src/board.cpp:4-8 | a freshly constructed board has every cell empty |
| Board.ScanCollidesIff | src/board.cpp:51-68 | `ScanCollides`, the collision test written as the source's row-major loop with early exit (it has no ensures of its own), started from cell (i, j) reports a collision iff an occupied cell at or after (i, j) lands off the grid or on a non-zero cell |
| Board.CollidesIff | src/board.cpp:51-68 | `Collides`, the model of `Board::collides` (the scan started at (0, 0), with no ensures of its own), is true iff one of the piece's occupied cells lands outside [0,10)x[0,20) or on a cell that is not 0 |
| Board.OffGridCollides | src/board.cpp:58-60 | an occupied cell outside the grid makes the piece collide |
| Board.OnGridCollides | src/board.cpp:62-67 | for a piece fully on the grid, collision means an occupied cell over a locked cell or an overlay (2) cell |
| Board.ScanPaint | src/board.cpp:70-80 | the cell-by-cell write sets exactly the on-grid cells covered by occupied shape cells, skips off-grid ones, and leaves every other cell unchanged |
| Board.Lock | src/board.cpp:70-80 | exactly the on-grid cells under the piece's occupied cells become locked; all others are unchanged; no overlay cell appears |
| Board.DrawPiece | src/board.cpp:30-42 | exactly the on-grid cells under the piece's occupied cells become overlay (2); all others are unchanged |
| Board.ClearPiece | src/board.cpp:44-49 | every overlay cell becomes 0, 0 and 1 cells are untouched, and no overlay remains |
| Board.ClearPieceIdempotent | src/board.cpp:44-49 | removing the overlay twice equals removing it once |
| Board.ClearPieceNoFalling | src/board.cpp:44-49 | on a grid without overlay, removing the overlay changes nothing |
| Board.DrawThenClear | src/board.cpp:30-49 | on a grid without overlay, drawing a piece that fits and removing the overlay restores the grid exactly |
| Board.DrawOverLockedLosesBlock | src/board.cpp:30-49 | on any grid, an on-grid locked cell covered by any piece becomes 2 when the piece is drawn and 0 once the overlay is removed, so the restore needs the piece to cover no locked cell |
| Board.DrawThenClearExact | src/board.cpp:30-49 | on a grid without overlay, drawing a piece and removing the overlay gives back the grid iff every on-grid cell the piece covers is empty; off-grid cells of the piece do not matter |
| Board.OffGridPieceRoundTrips | src/board.cpp:30-49 | an I piece one column off the left edge collides, yet drawing and removing it leaves the empty grid unchanged |
| Board.Survivors | src/board.cpp:85-104 | the kept rows are all non-full, and their number plus the number of full rows is the number of rows |
| Board.ClearLines | src/board.cpp:82-108 | the count is the number of full rows; afterwards no row is full, the top `count` rows are empty, and below them come the non-full rows in their original order; no overlay cell appears |
| Board.ClearLinesNoFullRow | src/board.cpp:82-108 | with no full row, the count is 0 and the grid is unchanged |
| Board.ClearLinesOneFullRow | src/board.cpp:95-104 | with exactly one full row r: count 1, row 0 empty, rows 1..r hold the old rows 0..r-1, and rows below r are unchanged |
| Board.RowIsFull | src/board.cpp:86-93 | the scan with early exit at the first 0 cell reports exactly whether the row is full |
| Board.RemoveRow | src/board.cpp:98-103 | copying each row above `y` one down, bottom up, then blanking row 0 gives a blank row, then rows 0..y-1, then rows below y |
| Board.TopDownRow | src/board.cpp:86-104 | one iteration of the row loop removes and counts row y exactly when it is full and otherwise keeps it, taking the grid from blank rows + survivors above y + unseen rows to the same shape one row further |
| Board.ClearLinesTopDown | src/board.cpp:82-108 | the source's single top-down pass returns the same grid and count as `ClearLines` |
| GameLoop.Spawn | src/game.cpp:10-11 | a spawned piece keeps its shape and sits at column 10/2-2 = 3, row 0 |
| GameLoop.NewGame | src/game.cpp:8-14 | the constructor gives an empty board, `current` = first template at (3, 0), `next` = second template at (0, 0), `gameOver` false and tick 0 |
| GameLoop.SpawnFitsEmptyBoard | src/game.cpp:8-14 | every template placed at (3, 0) fits on an empty board |
| GameLoop.TryMove | src/game.cpp:57-67 | a translated piece replaces the current one iff it fits; otherwise the piece is unchanged |
| GameLoop.FirstKick | src/game.cpp:74-84 | the search returns the first kick position from k on whose candidate fits (all earlier ones collide), or 6 when none fits |
| GameLoop.RotateWithKicks | src/game.cpp:68-85 | the plain rotation wins if it fits; otherwise the first fitting candidate in kick order -1, +1, -2, +2, -3, +3 from the original x wins; if none fits the piece is unchanged; the result fits unless it is the old piece, and it keeps the cell count |
| GameLoop.DropTarget | src/game.cpp:34-41 | the landing piece has the same shape and x, is not higher than the start, and one row lower collides |
| GameLoop.DropPathFits | src/game.cpp:36-41 | every row passed on the way down, the landing row included, fits |
| GameLoop.DropPathAllFits | src/game.cpp:36-41 | all rows strictly below the start, down to the landing row, fit at once |
| GameLoop.DropLandsFitting | src/game.cpp:34-43 | a piece that fits before the drop fits where it lands |
| GameLoop.HardDrop | src/game.cpp:33-46 | the piece lands at the same x, not above its start; every row passed below the start, down to the landing row, fits, and one more step down collides, so it stops at the first such row; it fits there if it fitted before, and is locked there before full rows are removed |
| GameLoop.Respawn | src/game.cpp:104-108 | the current piece becomes `next`'s shape at (3, 0), a new `next` is drawn, and `gameOver` becomes true iff it was already true or the spawned piece collides |
| GameLoop.HandleKey | src/game.cpp:55-94 | `a`/`d`/`s` change only the current piece, moving it iff the moved piece fits; `w` rotates with kicks; space hard-drops and respawns; other keys change nothing; a piece that fitted still fits unless the game ended; no overlay appears; pieces stay tetrominoes |
| GameLoop.Gravity | src/game.cpp:96-110 | off every tenth tick nothing changes; on it the piece moves down one row if that fits, else it is locked, full rows are removed and the next piece spawns in the same iteration; `gameOver` is never lowered |
| GameLoop.Settle | src/game.cpp:53-110 | after overlay removal, input and gravity, the grid has no overlay, a piece that fitted still fits unless the game ended, and both pieces stay tetrominoes |
| GameLoop.Step | src/game.cpp:52-118 | each loop iteration advances the tick by exactly one |
| GameLoop.NewGameInvariant | src/game.cpp:8-14 | the constructed state satisfies the loop invariant |
| GameLoop.StepPreservesInvariant | src/game.cpp:52-118 | while not game over, an iteration keeps the invariant (tetromino pieces; the current piece fits the overlay-free grid) and leaves a grid from which removing the overlay gives back the settled grid, and which is that grid with exactly the current piece drawn |
| GameLoop.Play | src/game.cpp:52-118 | the loop keeps the invariant, runs at most one iteration per input, and runs all of them unless the game ends |
| GameLoop.Run | src/game.cpp:8-14 | a whole session from the constructor keeps the invariant, and unless the game ends its tick equals the number of inputs |

## Left out

- Console output is not modelled: `Board::draw`, `Game::drawNextPiece`, the cursor and screen escape sequences and the final message are display only.
- The 50 ms `sleep_for` per iteration is not modelled. It is timing only.
- `platform::kbhit`/`getch` and the Windows console setup (src/platform.cpp) are foreign I/O. Input is the `Input` parameter of `Step`.
- `rand()` and its seeding from the clock are nondeterministic. Each draw is a `ShapeIndex` parameter.
- The value returned by `Board::clearLines` is ignored by the game. The model computes it (`Cleared.count`) but does no scoring with it. Scoring, levels, speed effects and mode power-ups do not exist in this code.
- The highscore file, the menu, the mode name strings and `main.cpp` are left out. They are I/O, UI or wiring, and `main.cpp` calls members that `include/game.hpp` does not declare.
- GameLoop.Step: `tick` is an unbounded `nat`. The source's `int` would overflow after 2^31 iterations, about three years of play at 50 ms each.
- GameLoop.DropTarget: requires a shape with at least one occupied cell. With an empty shape the source's drop loop never ends. Every reachable piece has four cells (`Invariant`).
- GameLoop.Step: requires a non-empty current piece, for the same hard-drop reason, and a running game, as the loop condition does. A game-over state takes no further iterations.
