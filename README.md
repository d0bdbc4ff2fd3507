# Falling-block game engine (script.js), modelled in Dafny

This project models the simulation engine of a browser falling-block game
(Tetris-style). The game keeps a 12 by 20 grid of integers called the arena:
0 is an empty cell and 1 to 7 is a locked cell of that piece id. It also keeps
one active piece, a small square matrix at a column and row. The player moves
the piece, turns it with wall kicks, and drops it softly or all the way down.
A piece that can fall no further is merged into the arena. Full rows are then
swept away and scored, and the next piece is spawned. The game is over when a
new piece collides at its spawn position.

The model follows the imperative shape of the source:

- `Matrix` (matrix.dfy): the piece matrix as an `array2<int>` that
  `RotateMatrix` rotates in place. It transposes with cell swaps, then
  reverses each row or the order of the rows. `Holds(m, s)` relates the array
  to the matrix value `s`. A quarter turn is specified on values by `Rotated`.
- `Pieces` (pieces.dfy): the seven templates, the piece ids, and the painted
  matrix a new piece starts from.
- `Board` (board.dfy): the arena's dimensions, the collision rule `Collides`
  and the loop that decides it (`Collide`). It also holds the specification
  of merging (`Merged`) and of sweeping: `Kept`, `FullCount` and `Swept`.
- `Scoring` (scoring.dfy): `updateScore` as a function on the tally of
  score, lines, level and drop interval.
- `Rules` (rules.dfy): the loops the game runs over the arena value and the
  piece array. These are the spawn, the wall-kick search, the merge, the row
  sweep, the hard-drop fall and the clearing of the arena. Each is proved
  against a specification function, with lemmas about those functions.
- `Engine` (game.dfy): class `Game`, holding the globals of script.js.
  - Its methods are `playerReset`, `playerMove`, `rotatePlayer`, `merge`,
    `updateScore`, `arenaSweep`, `playerDrop` and `hardDrop`.
  - It also models the drop-counter half of `update`, the pause key, and
    the body of the game-over recovery.
  - The invariant `Valid()` says:
    - the array holds the ghost matrix `cells`;
    - the arena is 20 by 12 with legal cell values;
    - the level is lines / 10;
    - no row of the arena is full (every lock is followed by a sweep);
    - the drop interval is at least 120 ms;
    - while the game is not over, the active piece does not collide.

Three behaviours follow the code as written:

- Rows above the top of the arena count as collisions (script.js:169).
- A level-up always subtracts exactly 60 ms from the drop interval before
  the 120 ms floor applies. `level` is assigned before `newLevel - level + 1`
  is computed, so that factor is always 1 (script.js:253-255). From 1000 ms
  the interval reaches 160 ms at level 14; level 15 takes it to the floor,
  40 ms lower, and later level-ups leave it there. `OneLevelAtATime` shows that clearing at most
  four lines gains at most one level. `MergedFullRows` shows that a lock
  into an arena with no full row completes at most as many rows as the
  piece matrix has, at most four, so `LockPiece` clears at most four lines
  and gains at most one level: one 60 ms step per level gained.
- The wall-kick loop gives up without testing the last column it shifts to
  (script.js:202-205). The columns tried are x, x+1, x-1, x+2, ..., w + 1 of
  them for a piece w wide (`KickShift`, `FirstKick`).

## Model

| member | source | states |
|---|---|---|
| Matrix.RotateMatrix | script.js:178-192 | after the call the array holds the quarter turn `Rotated(s, dir)` of the matrix it held: clockwise for dir > 0, counter-clockwise otherwise |
| Matrix.Transpose | script.js:180-184 | the swap loop leaves the array holding the transpose of its old contents |
| Matrix.ReverseRow | script.js:187 | reversing one row in place changes that row into its reverse and no other row |
| Matrix.ReverseEachRow | script.js:187 | the array ends up holding every row of the old matrix reversed |
| Matrix.ReverseRowOrder | script.js:190 | the array ends up holding the rows of the old matrix in reverse order |
| Matrix.RotatedSteps | script.js:178-192 | transpose then reverse each row is the clockwise quarter turn; transpose then reverse the row order is the counter-clockwise one |
| Matrix.Rotated | script.js:178-192 | a quarter turn of a square matrix is square with the same size |
| Matrix.RotateInverse | script.js:178-192 | turning one way and then the other restores the matrix |
| Matrix.ThreeTurns | script.js:178-192 | three clockwise turns equal one counter-clockwise turn |
| Matrix.FourTurns | script.js:178-192 | four clockwise turns are the identity |
| Matrix.RowCountBag | script.js:180-184 | the number of cells of a row prefix holding `v` is the multiplicity of `v` in that prefix |
| Matrix.PrefixCount | script.js:180-184 | counting `v` row by row over the first rows gives its multiplicity in those rows |
| Matrix.RowsColsCount | script.js:180-184 | counting `v` row by row and column by column gives the same number |
| Matrix.TransposedRowCount | script.js:180-184 | row `i` of the transpose holds `v` as often as column `i` of the matrix |
| Matrix.TransposedRowsCount | script.js:180-184 | counting `v` over the rows of the transpose equals counting it over the columns of the matrix |
| Matrix.TransposedBag | script.js:180-184 | transposing keeps the multiset of cell values |
| Matrix.MirroredBag | script.js:187 | reversing every row keeps the multiset of cell values |
| Matrix.FlippedBag | script.js:190 | reversing the row order keeps the multiset of cell values |
| Matrix.RotatedBag | script.js:178-192 | a quarter turn keeps the multiset of cell values |
| Pieces.CreatePiece | script.js:124-137 | a template exists exactly for the seven letters; it is square with 0/1 cells, 4 wide for I, 2 for O and 3 for the others |
| Pieces.TemplateCells | script.js:125-133 | every template has exactly four occupied cells, one of them at row 1, column 1 |
| Pieces.TemplateCellsI | script.js:130 | the I template has exactly four occupied cells |
| Pieces.PieceId | script.js:271 | the painted id is between 1 and 7, and 1 for a letter outside the table |
| Pieces.PieceIdsDistinct | script.js:151 | distinct piece types get distinct ids |
| Pieces.PaintedOccupied | script.js:272-276 | rewriting the occupied cells to a non-zero id keeps their number |
| Pieces.SpawnShape | script.js:268-276 | a spawned piece is a legal square matrix, 2 to 4 wide, with four occupied cells, each 0 or the type's id |
| Pieces.RotatedPiece | script.js:198 | a quarter turn of a piece matrix is still square, 2 to 4 wide, legal and non-empty |
| Board.Collide | script.js:162-175 | the result is true exactly when some non-zero piece cell lands outside the 20 by 12 board (rows above the top included) or on a non-zero arena cell; empty piece cells never matter |
| Board.AboveTopCollides | script.js:169 | a placement with an occupied cell above row 0 collides |
| Board.NoCollisionRows | script.js:162-175 | a non-empty piece that does not collide has its row strictly between -size and 20 |
| Board.MergeWritesPiece | script.js:217-225 | merging a non-colliding placement writes each occupied piece cell at its board position, and every other cell keeps its value |
| Board.MergeKeepsLocked | script.js:217-225 | merging a non-colliding placement never overwrites a locked cell |
| Board.MergedCollides | script.js:217-225 | after merging, the same placement collides with the cells just written |
| Board.MergedLegal | script.js:217-225 | merging keeps the arena 20 by 12 with values 0 to 7 |
| Board.CreateMatrix | script.js:119-121 | `h` rows of `w` zeros |
| Board.KeptSize | script.js:227-238 | each row is either kept or counted as full |
| Board.KeptRows | script.js:227-238 | the kept rows are not full and keep their width and legal values |
| Board.KeptMembers | script.js:227-238 | a row is kept exactly when it is a row of the arena that is not full |
| Board.EmptyNoFullRow | script.js:119-121 | an empty arena has no full row |
| Board.MergedFullRows | script.js:217-238 | merging a piece into an arena with no full row completes at most as many rows as the piece matrix has; only the rows it spans change |
| Board.NothingFull | script.js:227-238 | an arena with no full row is left as it is, with nothing counted |
| Board.SweptBoard | script.js:227-238 | the swept arena is 20 by 12 with legal values and no full row |
| Board.SweepIdempotent | script.js:227-238 | sweeping a swept arena clears nothing and changes nothing |
| Scoring.AwardExamples | script.js:247-248 | one line at level 0 scores 40, four lines 1200, one line at level 2 scores 120, and counts outside 0 to 4 score nothing |
| Scoring.LevelFollowsLines | script.js:249-253 | when the level was lines / 10 it still is afterwards, and it never decreases |
| Scoring.OneLevelAtATime | script.js:249-255 | clearing at most four lines raises the level by at most one |
| Scoring.IntervalRamp | script.js:252-256 | the interval never grows and never falls below 120; a level-up sets it to max(120, interval - 60) |
| Scoring.ZeroClearedNoop | script.js:240-242 | scoring zero lines changes nothing, so skipping the call loses nothing |
| Rules.KickSumClosedForm | script.js:200-204 | the offsets +1, -2, +3, ... added up give the shifts 0, +1, -1, +2, -2, ... |
| Rules.KickStep | script.js:202-205 | one kick adds the offset to the shift; the next offset is the current one negated and stepped away from zero; the k-th offset has magnitude k + 1 |
| Rules.KickShiftDistinct | script.js:200-211 | the kicks never return to a column already tried |
| Rules.FirstKickStep | script.js:200-211 | the search skips a kick that collides, stops at one that fits, and finds nothing past the last tested kick |
| Rules.FirstKickFound | script.js:200-211 | a found kick fits, lies within the tested range, and every kick before it collides |
| Rules.FirstKickNone | script.js:200-211 | when no kick is found, every tested kick collides |
| Rules.FirstHitLanding | script.js:316-319 | from a free placement the piece falls freely down to the row above its first hit, and that row collides |
| Rules.SpawnFitsEmpty | script.js:289-295 | every piece fits at its spawn position on an empty arena |
| Rules.SpawnO | script.js:127 | a spawned O piece is the 2 by 2 block painted with its id 2 |
| Rules.ODropsToRow18 | script.js:316-319 | an O spawns at column 5, and on an empty arena a hard drop lands it on row 18 |
| Rules.NewPiece | script.js:268-276 | the new array is fresh, square, and holds the template with every occupied cell rewritten to the type's id |
| Rules.SpawnPiece | script.js:268-284 | the new piece is a fresh painted template at column floor(12/2) - floor(w/2), and `hit` says whether row 0 there collides |
| Rules.KickSearch | script.js:200-211 | the loop ends at the first tested kick that fits, or gives up exactly when all w + 1 tested kicks collide |
| Rules.RotateBack | script.js:207 | turning back the other way restores the matrix from before the turn |
| Rules.TurnedCases | script.js:195-212 | either the turned piece sits at the first tested column where it fits, all earlier ones colliding; or the piece and its column are restored, all tested columns colliding |
| Rules.TurnedFits | script.js:195-212 | turning keeps a piece matrix legal, and a piece that did not collide still does not |
| Rules.RotateWithKicks | script.js:196-212 | the array and the column end up as `Turned` says: the turned piece at the first free kick, or the piece unchanged at its column |
| Rules.MergePiece | script.js:217-225 | the loop produces the merged arena `Merged` |
| Rules.ScanRow | script.js:230-232 | the inner loop reports a full row exactly when every cell of the row is non-zero |
| Rules.StageTop | script.js:228-238 | once the scan has passed the top row, the rows it puts on top are empty, so none of them is full |
| Rules.StageClear | script.js:234-237 | cutting a full row out of the scan and putting an empty row on top moves the scan one row up with one more row cleared |
| Rules.StageKeep | script.js:230-232 | a row that is not full stays where it is |
| Rules.ScanStart | script.js:228 | before the row loop nothing is scanned, no row is cleared, and the index is the bottom row |
| Rules.ScanStep | script.js:229-237 | one pass: a full row is cut out and an empty row put on top with the same index checked again, any other row moves the index up, and the scan state is kept either way |
| Rules.ScanDone | script.js:228-238 | once the index passes the top, the arena is the swept one and the count is the number of full rows |
| Rules.SweepRows | script.js:228-238 | the loop produces the swept arena (cleared rows as empty rows on top, the other rows in order) and counts the full rows |
| Rules.Fall | script.js:316-319 | the loop stops on the row above the first collision, a free row at or below the start |
| Rules.ClearArena | script.js:289 | every arena cell becomes 0 |
| Engine.Game.constructor | script.js:46-62 | the globals start as declared: an empty arena, no piece, score 0, level 0, interval 1000 |
| Engine.Game.PlayerReset | script.js:263-287 | the queued type (or a drawn one) is spawned at its spawn column on row 0, its cells the template painted with the type's id, a new type is queued, and the game is over exactly when it already was or the spawn collides |
| Engine.Game.Start | script.js:466-478 | the first piece is spawned with the second queued, and the clock starts at `now` |
| Engine.Game.Move | script.js:326-330 | while over or paused nothing moves; otherwise x shifts by `dir` unless that collides |
| Engine.Game.RotatePlayer | script.js:195-212 | no-op without a piece; otherwise the piece and its column become `Turned`; the row never changes; the invariant is kept |
| Engine.Game.Merge | script.js:217-225 | the arena becomes `Merged` of the piece at its position |
| Engine.Game.UpdateScore | script.js:245-256 | for a non-negative count the tally becomes `Scored(old tally, cleared)`, the level stays lines / 10 and the interval stays at least 120 |
| Engine.Game.Sweep | script.js:227-243 | the arena becomes `Swept`, and the tally is scored with the number of full rows only when that number is positive; the drop interval never grows and stays at least 120 |
| Engine.Game.LockPiece | script.js:305-308 | merge, sweep and score, then spawn; the game is over exactly when the new piece collides; at most four lines are cleared and at most one level is gained; the drop interval never grows |
| Engine.Game.Drop | script.js:301-311 | while over or paused nothing changes, not even the drop counter; otherwise one row down if free, else lock, sweep, score and spawn, keeping the same matrix when it only moves down; the counter is reset; at most four lines and one level are gained; the drop interval never grows |
| Engine.Game.HardDrop | script.js:314-324 | while over or paused nothing changes; otherwise the piece locks on the last free row at or below it; the counter is reset; at most four lines and one level are gained; the drop interval never grows |
| Engine.Game.Tick | script.js:400-409 | the elapsed time is added to the drop counter, and a soft drop runs only when the counter exceeds the interval and the game is neither over nor paused; the drop interval never grows |
| Engine.Game.TogglePause | script.js:439-441 | the pause flag flips |
| Engine.Game.Restart | script.js:289-295 | the arena is emptied, score, lines and level are zeroed, the game resumes, and the next piece always fits |

## Left out

- Rendering, the canvas, the next-piece preview, the settings panel and the
  DOM score display are not modelled: they only draw or wire up the page.
- Timers are not modelled. `Tick` receives the frame time as an integer; the
  render throttle and `requestAnimationFrame` are left out.
- The 800 ms game-over timeout is not modelled. Its body is `Restart`, a
  method the caller invokes.
- The speed slider is not modelled: it is UI plumbing with a debounce timer.
  It also sets `dropInterval` to the slider's value without a clamp
  (script.js:109, 114). The bound `dropInterval >= 120` in the invariant and
  every "the interval never grows" promise hold only without it; a slider
  value below 120 would be raised back to 120 at the next level-up
  (script.js:255).
- `randomPieceType` is not modelled: the drawn piece types are parameters
  (`fallback`, `draw`), any of the seven letters.
- Keyboard and touch bindings are left out, except the pause key
  (`TogglePause`).
- Engine.Game.RotatePlayer: requires `dir != 0`. The game only calls it
  with 1. With 0 the give-up branch would turn the piece
  counter-clockwise a second time, not back.
- Engine.Game.PlayerReset: does not promise that the new piece's array is
  newly allocated (`NewPiece` and `SpawnPiece` do), to keep the proofs of
  the session methods small. The same holds for `Start`, `LockPiece` and
  `Restart`, so a caller cannot conclude that turning the piece leaves an
  unrelated array it holds untouched.
- Engine.Game.Move: requires a piece while the game is running. The source
  would fail on a null matrix, which only happens before `init`. The same
  holds for `Drop`, `HardDrop` and `Tick`.
- The arena is a `seq` of rows that the methods reassign, not a shared array
  of arrays. Aliasing between rows cannot happen in the source either,
  because a swept row is reused as the new empty top row.
- `arenaSweep` cuts out the full row and reinserts it emptied. The model puts
  a fresh empty row on top instead; the rows' values are the same.
- `row.reverse()` and `matrix.reverse()` are modelled as cell swaps on the
  two-dimensional array. The source swaps whole row objects in
  `matrix.reverse()`; the resulting cells are the same.
- Turning a piece is not blocked while the game is over or paused, as in the
  source, so `RotatePlayer` has no such guard.
