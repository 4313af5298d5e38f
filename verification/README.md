# Falling-block game core, modelled in Dafny

This project models the simulation at the heart of a small browser
falling-block puzzle (`js/script.js`): a 20 x 15 field of cells, seven
0/1 piece shapes, quarter-turn rotation, the collision test, locking a
piece into the field, the bottom-up row-clearing scan, score and level
bookkeeping, the fall-speed curve, and the piece steps triggered by the
arrow keys and the game clock.

Everything is pure: the game state is an immutable `Game.State` record
(field, falling piece, score/level), and every step is a function from
the old state to the new one.

Modules:

- `Catalog` (`catalog.dfy`): `ROWS = 20`, `COLS = 15`, the seven-colour
  palette, the seven shapes (I, T, S, Z, O, L, J) and the colour lookup.
- `Rotation` (`rotation.dfy`): the clockwise quarter turn and its
  properties: dimensions swap, period four, filled-cell count kept.
- `Grid` (`grid.dfy`): the field, the collision test and the lock write.
- `Scoring` (`scoring.dfy`): 100 points per row, level check after every
  row, the speed curve.
- `Lines` (`lines.dfy`): the row-clearing scan exactly as the game runs it,
  and a reference description of its outcome in terms of the field before
  the pass (`Removed`, `KeptFrom`, `CountBelow`), proved equal to it.
- `Game` (`game.dfy`): pieces, spawning, new game, left/right/down/rotate,
  lock-and-respawn, and the state invariant over whole input sequences.

Modelling choices:

- Colours are carried as palette positions 0..6; a settled cell holds
  `colour + 1`, so cells are 0 (empty) or 1..7. The game turns its colour
  name into that number with `COLORS.indexOf`; `Catalog.ColourIndexRoundTrip`
  shows the lookup gives back the palette position.
- The random choice of the next shape and colour is a `Game.Draw` argument.
- The collision test is only defined for `y >= 0`. The game never uses a
  negative row: a piece starts at row 0 and only moves down. The test's
  disjuncts keep the game's short-circuit order, so the field is read only at
  valid indices.
- Locking requires the piece to lie inside the field, not to be free of
  collisions. After a spawn that does not fit, play goes on and the piece may
  sit on settled blocks; locking it then overwrites them, as the game does.
- The row-clearing scan is modelled as written. After a full row is spliced
  out, the scan moves up one index, so the row that slid down into the
  cleared index is not examined in the same pass. One pass never clears both
  of two adjacent full rows, and a full row survives exactly when the row
  just below it was removed (`Lines.RemovedRowsAreFullAndApart`,
  `Lines.FullRowKeptOnlyAboveRemoved`). With only rows 18 and 19 full, row 19
  goes and row 18 stays (`Lines.AdjacentFullRowsClearOnlyOne`); with rows 17,
  18 and 19 full, rows 19 and 17 go and row 18 stays. A surviving full row
  waits for a later pass.
- The code has no game-over state: `placeShape` returns `false` when the new
  piece does not fit, the caller ignores it, and the loop keeps running. The
  model keeps only the boolean (`Game.Placed.fits`) and has no halting state.

## Model

| member | source | states |
|---|---|---|
| `Catalog.CatalogShapes` | js/script.js:8-16 | every catalogue shape is a non-degenerate rectangle of 0/1 cells, at most 2 rows by 4 columns |
| `Catalog.IndexOf` | js/script.js:149 | the result is -1 exactly when the name is absent; otherwise it is the position of the first occurrence |
| `Catalog.ColourIndexRoundTrip` | js/script.js:6 | looking up the palette name at position `i` gives back `i`, because the seven names are distinct |
| `Rotation.Rotate` | js/script.js:118-127 | an R x C shape becomes a C x R shape |
| `Rotation.RotateWellFormed` | js/script.js:118-127 | a well-formed shape stays well formed after rotation, and its height and width swap |
| `Rotation.RotateTwice` | js/script.js:118-127 | two quarter turns are a half turn: cell `[a][b]` is the original `[R-1-a][C-1-b]` |
| `Rotation.RotateFourTimes` | js/script.js:118-127 | four quarter turns give back the original shape |
| `Rotation.RotateMovesCells` | js/script.js:118-127 | each filled cell `(row, col)` moves to `(col, R-1-row)`, and no other cell becomes filled |
| `Rotation.RotateKeepsFilledCount` | js/script.js:118-127 | rotation keeps the number of filled cells |
| `Grid.Collides` | js/script.js:129-143 | true iff some filled cell lands left of column 0, at column COLS or beyond, at row ROWS or below, or on a non-empty cell; the field is read only at valid indices |
| `Grid.CollidesIffBlocked` | js/script.js:129-143 | with `y >= 0`, a collision means exactly "some filled cell is off the field" or "some filled cell covers a settled block" |
| `Grid.NoCollisionInBounds` | js/script.js:129-143 | a position that passes the collision test puts every filled cell inside the field |
| `Grid.EmptyBoardCollision` | js/script.js:129-143 | on the empty field, a shape collides exactly when it sticks out of the field |
| `Grid.Lock` | js/script.js:146-152 | exactly the cells under the piece's filled cells become `colour + 1`; every other cell keeps its value; the field stays ROWS x COLS |
| `Grid.LockKeepsWellFormed` | js/script.js:146-152 | after locking, every cell is still in 0..7 |
| `Scoring.AddRow` | js/script.js:170-175 | one row adds exactly 100 points and raises the level by at most one |
| `Scoring.AddRowKeepsConsistent` | js/script.js:170-175 | from a consistent score and level, one row keeps the score a multiple of 100 and the level equal to `1 + score / 300` |
| `Scoring.AddRows` | js/script.js:166-177 | `n` rows booked one at a time add exactly `100 * n` points and raise the level by at most `n` |
| `Scoring.AddRowsKeepsConsistent` | js/script.js:166-177 | any number of rows keeps `score % 100 == 0` and `level == 1 + score / 300` |
| `Scoring.LevelUpAtMultiple` | js/script.js:170-175 | from 200 points at level 1, a row gives 300 points at level 2; the next row gives 400 points and stays at level 2 |
| `Scoring.Speed` | js/script.js:45-48 | the interval is `700 - (level - 1) * 100` ms below level 7 (700 ms at level 1, 600 ms at level 2, ...) and exactly 100 ms from level 7 on; never below 100 ms |
| `Scoring.SpeedNonIncreasing` | js/script.js:45-48 | a higher level never gives a longer interval |
| `Scoring.SpeedStrictUntilFloor` | js/script.js:45-48 | above the 100 ms floor, each higher level gives a strictly shorter interval |
| `Lines.ClearLines` | js/script.js:165-178 | the scan's result equals the reference outcome: one empty row per removed row on top, then the kept rows in their original order; points and levels are booked once per removed row; the field keeps ROWS rows |
| `Lines.ScanMatches` | js/script.js:166-169 | the scan invariant: in the middle of the pass, the rest of the scan produces the reference outcome |
| `Lines.RemovedRowsAreFullAndApart` | js/script.js:166-169 | only full rows are removed, and never two adjacent rows in one pass |
| `Lines.FullRowKeptOnlyAboveRemoved` | js/script.js:166-169 | a full row survives a pass only when the row just below it was removed |
| `Lines.ClearLinesKeepsWellFormed` | js/script.js:165-169 | after clearing, the field is still ROWS rows of COLS cells, each in 0..7 |
| `Lines.ClearLinesKeepsFramed` | js/script.js:165-169 | after clearing, the field is still ROWS rows of COLS cells |
| `Lines.NothingFullNothingCleared` | js/script.js:165-178 | a field with no full row, and its score, come out unchanged |
| `Lines.SingleFullRow` | js/script.js:165-176 | with exactly one full row, that row goes, one empty row is pushed on top, every other row keeps its order, and 100 points are booked |
| `Lines.AdjacentFullRowsClearOnlyOne` | js/script.js:166-169 | with only the two bottom rows full, one pass removes one row, books 100 points, and leaves a full row at the bottom |
| `Game.Spawn` | js/script.js:154-157 | the new piece has the drawn shape and colour, starts at column `COLS/2 - width/2` (both halves rounded down) and row 0, and lies inside the field |
| `Game.Start` | js/script.js:50-58 | a new game has an empty field, score 0, level 1, and the drawn piece at its spawn position; it satisfies the state invariant, and its piece does not collide |
| `Game.Shift` | js/script.js:191-200 | a sideways move is taken exactly when the shifted piece does not collide, and changes only the column |
| `Game.TurnPiece` | js/script.js:204-209 | the rotated shape is taken when it does not collide at the same position, otherwise nothing changes; position and colour never change |
| `Game.PlaceShape` | js/script.js:145-163 | the field becomes the locked field after one clearing pass; score and level are booked as `AddRows` over the removed rows, so the score grows by 100 per removed row; the drawn piece spawns at column `COLS/2 - width/2`, row 0; the result is false exactly when that piece collides |
| `Game.MoveDown` | js/script.js:181-187 | without a collision one row lower the piece drops one row and nothing else changes; otherwise the lock-and-respawn step runs; the score never goes down |
| `Game.HandleKey` | js/script.js:189-212 | left runs `Shift(-1)`, right runs `Shift(+1)`, down runs `MoveDown`, up runs `TurnPiece`; other keys change nothing; only the down key can change the field or the score; the score never goes down |
| `Game.ValidIsPlaceable` | js/script.js:129-152 | the state invariant gives what the collision test and the lock write need |
| `Game.ShiftKeepsValid` | js/script.js:191-200 | a sideways move keeps the state invariant; the piece stays inside the field |
| `Game.TurnKeepsValid` | js/script.js:204-209 | a rotation keeps the state invariant |
| `Game.PlaceShapeKeepsValid` | js/script.js:145-163 | lock, clear and respawn keep the state invariant, whether or not the new piece fits |
| `Game.MoveDownKeepsValid` | js/script.js:181-187 | a step down keeps the state invariant |
| `Game.Step` | js/script.js:219-229 | a tick runs `MoveDown` and a key press runs the key handler, both with the caller's draw; every step keeps the state invariant and never lowers the score |
| `Game.Run` | js/script.js:219-231 | over any sequence of ticks and key presses the state invariant holds and the score never goes down |
| `Game.ReachableStatesValid` | js/script.js:50-58 | every state reachable from a new game satisfies the invariant, including `score % 100 == 0` and `level == 1 + score / 300` |
| `Game.OPieceFallsToFloor` | js/script.js:181-187 | on the empty field an O piece falls one row per step until its top row is row 18, and the next step locks it |

The state invariant (`Game.Valid`): the field is ROWS x COLS with every cell
in 0..7; the piece's shape is a non-degenerate 0/1 rectangle; the piece lies
inside the field with `y >= 0`; and `score >= 0`, `score % 100 == 0`,
`level == 1 + score / 300`.

## Left out

- Drawing (`drawBlock`, `drawShape`, `clearBoard`, `drawBoard`, `draw`) and the canvas sizing in `startGame`: display only.
- Modals, the score and level text updates, `showGameOver`, `restartGame`'s modal handling: user interface only. A restart is `Game.Start` again.
- The `requestAnimationFrame` timing in `gameLoop` and the event-listener wiring: an external clock and input plumbing. Only the `moveDown` a tick triggers is modelled (`Game.Event.Tick`); `Scoring.Speed` gives the interval but nothing waits on it.
- `Math.random` in `getRandomShape` and `getRandomColor`: replaced by the caller-supplied `Game.Draw`.
- A game-over state: the code has none, so none is modelled; see the modelling choices above.
- Rotation.Rotate: requires a rectangular shape with at least one row. The game only rotates catalogue shapes and their rotations, which are all rectangular; a ragged shape would read missing cells.
- Grid.Collides: requires `y >= 0`. With a negative row the code would read a missing row of the field; the game never produces one.
- JavaScript numbers are doubles; score and level are modelled as unbounded integers, since the score would need about 9 * 10^13 cleared rows to lose precision.
