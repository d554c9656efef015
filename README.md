# Matrix Tetris: the game engine

This project models the game-simulation core of `script.js`, a browser Tetris with a
"Matrix" look. The core is a sequential state machine over a 20-row by 10-column arena of
squares plus one falling piece. It also keeps a preview piece, score, lines, level, a gravity
interval and the started / over / paused flags.

- `pieces.dfy` (module `Pieces`) holds the seven-shape table, `createPiece`, the colour
  table and `rotate`. It proves that `rotate` is a quarter turn: it keeps a piece tight,
  keeps its cell count, and four turns give the piece back.
- `board.dfy` (module `Board`) holds the arena, `createMatrix` and `collide`. It also holds
  the specifications of `merge` and `arenaSweep` and the searches behind the hard-drop loop
  and the rotation wall kick.
- `scoring.dfy` (module `Scoring`) holds the level and gravity-interval rule of `arenaSweep`.
- `game.dfy` (module `Game`) holds class `Game`. Its fields are the source's globals and
  the player record. Its methods are `startGame`, `playerReset`, `playerMove`,
  `playerRotate`, `merge`, `arenaSweep`, `playerDrop`, `playerHardDrop`, `endGame` and the
  keydown handler.

`collide` and `createPiece` are pure queries and are functions. Everything that updates the
globals is a method of `Game`, proved against specification functions. For example,
`Merge` is proved against `Merged`, `ClearFullRows` against `Swept`, `Fall` against
`FirstHit` and `RotatePiece` against `KickTarget`.

The class invariant `Valid()` holds after `Start`, and every method keeps it. It says:
- the arena stays 20 by 10;
- the counters are not negative;
- the level is the one the cleared lines earn;
- the falling piece is a tight matrix (no empty outer row or column) whose columns lie inside the
  arena.
The methods require `Valid()` because it describes every reachable state.

Cell contents follow the source. A piece cell holds 0 or its type tag (`Block`). An arena
square holds 0 or the colour string that `merge` writes (`Square`). `collide` and
`arenaSweep` only ask whether a value is zero.

Source behaviour that the model keeps as written:
- The hard-drop loop adds 2 points for every step, including the step that ends in a
  collision. A descent of d rows therefore scores 2(d+1).
- When a piece locks, `playerReset` runs before `arenaSweep`. The game-over check
  therefore sees the merged board before the sweep.
- Because of that order, the piece spawned by a lock that clears rows can overlap squares
  that the sweep moved down, while the game is not over. A hard drop from such a state
  runs zero loop steps and moves the piece to row -1. `merge` then indexes a row that does
  not exist and throws before writing anything. Every row of a tetromino holds a block, so
  the first write is the one that fails. The model keeps this path as the `threw` result
  of `Merge`, `Lock`, `Drop`, `HardDrop` and `Press`. When `threw` is true, only the
  drop's own changes to the piece's row and the score remain.
- The level rule is `min(1000, lines / 10 + 1)`, applied only when it is higher than the
  current level. The interval rule is `max(100, 1000 - 5 (level - 1))`. The constants
  `INITIAL_SPEED` and `FINAL_SPEED` are declared at `script.js:26-27` but unused.
- Pressing P flips `paused`. The keydown handler does not itself check `paused`.

## Model

| member | source | states |
|---|---|---|
| Pieces.Shape | script.js:30-38 | every shape of the table is a rectangle of at most 2 rows of at most 4 cells, each cell 0 or 1 |
| Pieces.Color | script.js:40-48 | every colour is a 7-character '#' hex string |
| Pieces.ColorsDistinct | script.js:40-48 | two different piece types have different colours |
| Pieces.CreatePiece | script.js:359-362 | every piece matrix has 1 or 2 rows of 2 to 4 cells |
| Pieces.PieceIsTetromino | script.js:359-362 | createPiece keeps the shape's layout, puts the type tag exactly where the shape has a 1, and yields a tight 1..2 by 2..4 rectangle |
| Pieces.Rotate | script.js:496-512 | the N x M matrix becomes M x N with r[i][j] = m[N-1-j][i], i.e. the clockwise quarter turn Rotated(m) |
| Pieces.RotatedTight | script.js:496-512 | a turned tight piece is tight, with width and height swapped |
| Pieces.RotatedTwice | script.js:496-512 | two turns map every cell to its point-mirrored position |
| Pieces.RotatedFourTimes | script.js:496-512 | four turns give back the original matrix |
| Pieces.RotatedCellCount | script.js:496-512 | the occupied cells of the turned matrix are the turned occupied cells, so their number is unchanged |
| Board.CreateMatrix | script.js:351-357 | h rows, each of w zeros |
| Board.RowCollidesSpec | script.js:474-481 | RowCollides, the inner loop, reports a hit exactly when some non-zero cell of the row from column j on is blocked |
| Board.RowsCollideSpec | script.js:473-483 | RowsCollide, the outer loop, reports a hit exactly when some non-zero cell from piece row i on is blocked |
| Board.CollidesSpec | script.js:471-484 | Collides, the model of collide, is true exactly when some non-zero piece cell lands outside the rows or columns of the arena or on a non-zero square |
| Board.ClearPlacementInBounds | script.js:471-484 | a tight piece at a position where collide is false lies wholly inside the arena |
| Board.MergeFillsPiece | script.js:486-494 | every square under a block of a non-colliding piece was 0 and is non-zero after merge |
| Board.MergedSquareSource | script.js:486-494 | a square that is non-zero after merge was non-zero before or lies under a block |
| Board.MergeAddsOnlyPiece | script.js:486-494 | merge makes no square non-zero other than those under the piece |
| Board.MergeOccupies | script.js:486-494 | the occupied squares after merge are the old ones plus the piece's squares, disjointly, so their number grows by the piece's cell count |
| Board.IsFull | script.js:623-627 | the row scan finds no 0 exactly when the row is full |
| Board.KeptRows | script.js:620-636 | the rows a sweep keeps are exactly the rows that are not full, and kept plus full rows make up the arena |
| Board.SweptShape | script.js:620-636 | after a sweep the arena is still 20 by 10 and no row is full |
| Board.KeptOneRow | script.js:620-636 | with a single full row, the sweep counts one full row and keeps every other row in order |
| Board.SweepOneRow | script.js:620-636 | a single full row counts as one cleared row; it is removed, the rows above it move down one, and an empty row appears on top |
| Board.SweepChangesIffFull | script.js:620-636 | a sweep changes the arena if and only if some row is full |
| Board.SweepIdempotent | script.js:620-636 | sweeping a swept arena changes nothing |
| Board.AboveFloor | script.js:578-581 | a tight piece that does not collide lies above the floor, so the hard-drop loop ends |
| Board.FirstHit | script.js:578-581 | the first row at or below the start where the piece collides; at every row in between it does not collide |
| Board.FirstFit | script.js:525-554 | the first offset index from i on at which the piece fits; every earlier offset collides |
| Board.FirstFitOfKicks | script.js:525-554 | over the offsets 0, -1, +1, +2 the search gives 0..3 by the first offset that fits, and 4 when none does |
| Board.KickTarget | script.js:525-554 | a found position does not collide and keeps the row; no position is found exactly when all four offsets collide |
| Board.KickTargetIsFirstFit | script.js:525-554 | the kick chain returns the position of the first fitting offset of 0, -1, +1, +2 |
| Scoring.LevelFor | script.js:642 | the level lies in 1..1000 and is lines / 10 + 1 below the cap |
| Scoring.DropInterval | script.js:645 | the interval lies in 100..1000 ms, is 1000 exactly at level 1, and is 1000 - 5 (level - 1) above the floor |
| Scoring.LevelForMonotone | script.js:642 | more lines never earn a lower level |
| Scoring.DropIntervalMonotone | script.js:645 | a higher level never has a longer interval |
| Scoring.LevelUpRule | script.js:642-643 | taking the new level only when it is higher keeps the level equal to the one the lines earn |
| Game.SpawnPos | script.js:604-605 | a new piece starts at row 0, centred: the columns left of it equal those right of it, or exceed them by one |
| Game.SpawnPosInBounds | script.js:604-605 | a new piece at row 0, column 5 - width / 2, lies inside the arena |
| Game.SpawnFitsEmptyArena | script.js:698-713 | on the fresh empty arena the first piece never collides, so a new game is not over |
| Game.Game.Start | script.js:685-716 | empty 20 by 10 arena, zeroed counters at level 1, the given interval, the first piece spawned and the next one previewed, running and not over |
| Game.Game.EndGame | script.js:669-671 | the game is over and no longer started |
| Game.Game.Spawn | script.js:590-618 | the preview (or the first draw) becomes the piece at row 0, centred, with rotation 0; the new draw becomes the preview; the game ends exactly when the new piece collides |
| Game.Game.Move | script.js:570-575 | the piece shifts by dir columns when it fits there, otherwise nothing moves; nothing else changes |
| Game.Game.RotatePiece | script.js:514-555 | an O piece stays; another piece turns and takes the kick position, or keeps its matrix and position when no kick fits; a changed placement never collides |
| Game.Game.PaintRow | script.js:487-493 | one pass of merge's inner loop paints exactly the squares under the blocks of one piece row with the piece's colour and leaves every other square as it was |
| Game.Game.Merge | script.js:486-494 | the arena becomes the merged arena, or is unchanged and the call fails when the piece's top lies above the arena |
| Game.Game.ClearFullRows | script.js:620-635 | the bottom-up loop with re-examination removes exactly the full rows, leaving the swept arena, and adds 100 per row |
| Game.Game.RemoveRow | script.js:629-630 | the row at y is taken out, emptied and put back on top; the other rows keep their order |
| Game.Game.Sweep | script.js:620-650 | the swept arena, 100 n + 100 n^2 points and n lines for n full rows, and a level and interval update only when the new level is higher |
| Game.Game.Settle | script.js:562-563 | playerReset on the merged board, then arenaSweep; the spawn check sees the board before the sweep |
| Game.Game.Lock | script.js:560-563 | merge, playerReset, arenaSweep; merge throws exactly when the piece's top lies above the arena, and then nothing changes |
| Game.Game.Drop | script.js:557-568 | the piece moves down a row when it fits there and nothing else changes; otherwise it locks where it is |
| Game.Game.Fall | script.js:578-582 | the piece ends one row above its first colliding row, and the score grows by 2 per loop step including the colliding one |
| Game.Game.HardDrop | script.js:577-588 | the piece locks at the lowest row reached without a collision, with 2 (d + 1) points for a descent of d rows |
| Game.Game.Press | script.js:753-775 | nothing happens unless the game is running and not over; then left and right do what Move(-1) and Move(+1) do, down what Drop does, up what RotatePiece does, space what HardDrop does, P flips the pause flag and nothing else changes, and any other key does nothing |

## Left out

- Rendering, the matrix rain, explosions and level-up particles (`script.js:78-244`, `364-469`), `updateScore`, `drawNext` and `triggerGlitch`: canvas and DOM output only.
- Audio (`initAudio`, `playSound`): Web Audio and network calls; every sound cue is a no-op here.
- Highscores (`loadHighscores`, `saveHighscore`, `displayHighscores`) and `save_highscore.php`: network, storage and DOM I/O.
- The `update` loop (`script.js:732-750`): it depends on frame timestamps. Gravity is a call of `Drop`, and `dropCounter` is not modelled.
- The initial drop interval is a parameter of `Start`, because `calculateDropInterval` is called but not defined in `script.js`.
- Random piece choice (`script.js:594`, `script.js:607`): the draws are the parameters `first` (used only when there is no preview yet) and `upcoming`.
- `backToStart` and the start-screen handlers: DOM wiring.
- Game.Game.EndGame: models only `endGame`'s synchronous part. The awaited highscore save and display that follow are I/O.
- Game.Game.Move: `playerMove`, `playerDrop` and `playerRotate` bump `player.pos` and revert it. The model tests the shifted position and then commits it. `collide` is pure, so the outcome is the same.
- Pieces.Rotate: `rotate` refills the player's matrix array in place. The model computes the turned matrix as a value, which `RotatePiece` stores in the `matrix` field. No other object shares the player's matrix array once `playerReset` has drawn a new preview, so aliasing plays no part.
- Game.Game.Press: `Press` does not model `preventDefault` on space or the `lastTime` reset on unpausing. Both concern the browser and the timer only.
