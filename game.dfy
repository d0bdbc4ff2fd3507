/** The game session: the state script.js keeps in globals, and the
    operations that spawn, move, turn, drop and lock the active piece. */
module Engine {
  import opened Matrix
  import opened Pieces
  import opened Board
  import opened Scoring
  import opened Rules

  /** The globals of script.js that the game logic reads and writes: the
      arena, the active piece (`player.matrix`, `player.pos`), the queued
      piece type, the tally, the drop timer and the two flags. */
  class Game {
    var arena: seq<seq<int>>
    /** The active piece's matrix; null until the first piece is spawned. */
    var matrix: array2?<int>
    /** The cells of `matrix`, for the specifications. */
    ghost var cells: seq<seq<int>>
    var x: int
    var y: int
    var nextPiece: Option<char>
    var score: int
    var lines: int
    var level: int
    var dropInterval: int
    var dropCounter: int
    var lastTime: int
    var gameOver: bool
    var paused: bool

    ghost function Scores(): Tally
      reads this`score, this`lines, this`level, this`dropInterval
    {
      Tally(score, lines, level, dropInterval)
    }

    /** What holds between operations, except that the piece may overlap
        the arena (as it does right after it is merged). The drop interval
        starts at 1000 and a level-up never takes it below MIN_INTERVAL. */
    ghost predicate Consistent()
      reads this, matrix
    {
      (matrix != null ==> Holds(matrix, cells)) && dropInterval >= MIN_INTERVAL &&
      Settled(arena, cells, matrix != null, nextPiece, lines, level)
    }

    /** The session invariant: no row of the arena is full (each lock is
        followed by a sweep), and while the game is not over, the active
        piece does not collide. */
    ghost predicate Valid()
      reads this, matrix
    {
      Consistent() && NoFullRow(arena) && (matrix != null && !gameOver ==> !Collides(arena, cells, x, y))
    }

    /** The active piece is a fresh `kind` at its spawn position, and `draw`
        is queued next. */
    ghost predicate Spawned(kind: char, draw: char)
      requires kind in KINDS
      reads this`matrix, this`cells, this`x, this`y, this`nextPiece
    {
      matrix != null && cells == Spawn(kind) && x == SpawnX(|Spawn(kind)|) && y == 0 &&
      nextPiece == Some(draw)
    }

    /** The state after locking `s` at (px, py) into arena `a` with tally `t`
        and spawning `kind`: full rows of the merged arena are cleared and
        scored, and the game is over exactly when the new piece collides. */
    ghost predicate Locked(a: seq<seq<int>>, t: Tally, s: seq<seq<int>>, px: int, py: int, kind: char, draw: char)
      requires IsBoard(a) && kind in KINDS
      reads this`arena, this`score, this`lines, this`level, this`dropInterval
      reads this`matrix, this`cells, this`x, this`y, this`nextPiece, this`gameOver
    {
      var b := Merged(a, s, px, py);
      var c := FullCount(b);
      arena == Swept(b) && IsBoard(arena) &&
      Scores() == (if c > 0 then Scored(t, c) else t) &&
      Spawned(kind, draw) &&
      gameOver == Collides(arena, cells, x, y)
    }

    /** The outcome of a soft drop of piece `pm` (cells `s`) from (px, py):
        one row down when that does not collide, otherwise the piece locks
        where it is. */
    ghost predicate SoftDropped(a: seq<seq<int>>, t: Tally, pm: array2?<int>, s: seq<seq<int>>, px: int, py: int,
                                queued: Option<char>, draw: char)
      requires IsBoard(a) && (queued.Some? ==> queued.value in KINDS)
      reads this`arena, this`score, this`lines, this`level, this`dropInterval
      reads this`matrix, this`cells, this`x, this`y, this`nextPiece, this`gameOver
    {
      if !Collides(a, s, px, py + 1) then
        arena == a && matrix == pm && matrix != null && cells == s && x == px && y == py + 1 &&
        Scores() == t && nextPiece == queued && !gameOver
      else
        queued.Some? && Locked(a, t, s, px, py, queued.value, draw)
    }

    /** The globals as script.js declares them (lines 46-62), before `init`. */
    constructor ()
      ensures Valid()
      ensures arena == CreateMatrix(COLS, ROWS) && matrix == null && nextPiece == None
      ensures x == 0 && y == 0 && Scores() == Tally(0, 0, 0, 1000)
      ensures dropCounter == 0 && lastTime == 0 && !gameOver && !paused
    {
      arena := CreateMatrix(COLS, ROWS);
      matrix := null;
      cells := [];
      x, y := 0, 0;
      nextPiece := None;
      score, lines, level := 0, 0, 0;
      dropInterval := 1000;
      dropCounter, lastTime := 0, 0;
      gameOver, paused := false, false;
      EmptyNoFullRow(COLS, ROWS);
    }

    /** script.js `playerReset`: takes the queued piece type (drawing
        `fallback` when none is queued), paints a fresh copy of its template
        with its id, places it at its spawn position, queues `draw`, and sets
        `gameOver` when the new piece collides. The arena is not touched. */
    method PlayerReset(fallback: char, draw: char)
      requires Consistent() && NoFullRow(arena) && fallback in KINDS && draw in KINDS
      modifies this`matrix, this`cells, this`x, this`y, this`nextPiece, this`gameOver
      ensures Valid()
      ensures Spawned(Upcoming(old(nextPiece), fallback), draw)
      ensures gameOver == (old(gameOver) || Collides(arena, cells, x, y))
    {
      var kind := Upcoming(nextPiece, fallback);
      var m, px, hit := SpawnPiece(arena, kind);
      SpawnSettled(arena, cells, matrix != null, nextPiece, lines, level, kind, draw);
      matrix, cells, x, y, nextPiece, gameOver := m, Spawn(kind), px, 0, Some(draw), gameOver || hit;
      assert Holds(matrix, cells) && Settled(arena, cells, true, nextPiece, lines, level);
    }

    /** script.js `init` (lines 473-474, 478): queues `first`, spawns it with
        `second` queued next, and starts the clock at `now`. */
    method Start(first: char, second: char, now: int)
      requires Valid() && first in KINDS && second in KINDS
      modifies this`matrix, this`cells, this`x, this`y, this`nextPiece, this`gameOver, this`lastTime
      ensures Valid() && Spawned(first, second) && lastTime == now
      ensures gameOver == (old(gameOver) || Collides(arena, cells, x, y))
    {
      nextPiece := Some(first);
      PlayerReset(first, second);
      lastTime := now;
    }

    /** script.js `playerMove`: shifts the piece `dir` columns unless that
        collides; does nothing while the game is over or paused. */
    method Move(dir: int)
      requires Valid() && (gameOver || paused || matrix != null)
      modifies this`x
      ensures Valid()
      ensures old(gameOver || paused) ==> x == old(x)
      ensures !old(gameOver || paused) ==>
        x == if Collides(arena, cells, old(x) + dir, y) then old(x) else old(x) + dir
    {
      if gameOver || paused {
        return;
      }
      x := x + dir;
      var hit := Collide(arena, matrix, cells, x, y);
      if hit {
        x := x - dir;
      }
    }

    /** script.js `rotatePlayer`: turns the piece a quarter (`dir` 1
        clockwise, -1 counter-clockwise) and kicks it sideways to the first
        column that fits, or restores it when none does (`Turned`). The row
        never changes, and nothing happens without a piece. Unlike moves and
        drops, a turn is not blocked while the game is over or paused. */
    method RotatePlayer(dir: int)
      requires Valid() && dir != 0
      modifies this`x, this`cells, matrix
      ensures Valid() && y == old(y)
      ensures matrix == null ==> x == old(x) && cells == old(cells)
      ensures matrix != null ==> (cells, x) == Turned(arena, old(cells), old(x), y, dir)
    {
      if matrix == null {
        return;
      }
      TurnedFits(arena, cells, x, y, dir);
      ghost var turned := Turned(arena, cells, x, y, dir);
      x := RotateWithKicks(arena, matrix, cells, x, y, dir);
      cells := turned.0;
    }

    /** script.js `merge`: writes every occupied cell of the piece into the
        arena at the piece's position. The caller has checked that the
        placement does not collide. */
    method Merge()
      requires Consistent() && matrix != null && !Collides(arena, cells, x, y)
      modifies this`arena
      ensures Consistent()
      ensures arena == Merged(old(arena), cells, x, y)
    {
      MergedLegal(arena, cells, x, y);
      arena := MergePiece(arena, matrix, cells, x, y);
    }

    /** script.js `updateScore`, as written: `level` is assigned before the
        interval is recomputed, so `newLevel - level + 1` is always 1. */
    method UpdateScore(cleared: int)
      requires Consistent() && cleared >= 0
      modifies this`score, this`lines, this`level, this`dropInterval
      ensures Consistent()
      ensures Scores() == Scored(old(Scores()), cleared)
    {
      LevelFollowsLines(Scores(), cleared);
      IntervalRamp(Scores(), cleared);
      score := score + LineScore(cleared) * (level + 1);
      lines := lines + cleared;
      var newLevel := lines / 10;
      if newLevel > level {
        level := newLevel;
        dropInterval := Max(MIN_INTERVAL, dropInterval - 60 * (newLevel - level + 1));
      }
    }

    /** script.js `arenaSweep`: clears the full rows (`SweepRows`) and
        scores them when there are any. */
    method Sweep()
      requires Consistent()
      modifies this`arena, this`score, this`lines, this`level, this`dropInterval
      ensures Consistent()
      ensures arena == Swept(old(arena))
      ensures Scores() == if FullCount(old(arena)) > 0 then Scored(old(Scores()), FullCount(old(arena))) else old(Scores())
      ensures dropInterval <= old(dropInterval) && NoFullRow(arena)
    {
      SweptBoard(arena);
      var linesCleared;
      arena, linesCleared := SweepRows(arena);
      if linesCleared > 0 {
        IntervalRamp(Scores(), linesCleared);
        UpdateScore(linesCleared);
      }
    }

    /** Merge, sweep and spawn, the tail both drops share (script.js:306-308
        and 320-322). */
    method LockPiece(draw: char)
      requires Valid() && draw in KINDS && matrix != null && !gameOver
      modifies this`arena, this`score, this`lines, this`level, this`dropInterval
      modifies this`matrix, this`cells, this`x, this`y, this`nextPiece, this`gameOver
      ensures Valid()
      ensures Locked(old(arena), old(Scores()), old(cells), old(x), old(y), old(nextPiece).value, draw)
      ensures dropInterval <= old(dropInterval) && lines <= old(lines) + 4 && level <= old(level) + 1
    {
      MergedFullRows(arena, cells, x, y);
      OneLevelAtATime(Scores(), FullCount(Merged(arena, cells, x, y)));
      ghost var merged := Merged(arena, cells, x, y);
      ghost var kind := nextPiece.value;
      Merge();
      assert arena == merged && nextPiece == Some(kind);
      Sweep();
      PlayerReset(draw, draw);
    }

    /** script.js `playerDrop`: moves the piece one row down, or, when that
        collides, locks it, clears and scores full rows and spawns the queued
        piece with `draw` queued next. Resets the drop counter. Does nothing,
        not even to the counter, while the game is over or paused. */
    method Drop(draw: char)
      requires Valid() && draw in KINDS && (gameOver || paused || matrix != null)
      modifies this`arena, this`score, this`lines, this`level, this`dropInterval, this`dropCounter
      modifies this`matrix, this`cells, this`x, this`y, this`nextPiece, this`gameOver
      ensures Valid() && dropInterval <= old(dropInterval)
      ensures lines <= old(lines) + 4 && level <= old(level) + 1
      ensures old(gameOver || paused) ==> unchanged(this)
      ensures !old(gameOver || paused) ==>
        dropCounter == 0 && SoftDropped(old(arena), old(Scores()), old(matrix), old(cells), old(x), old(y), old(nextPiece), draw)
    {
      if gameOver || paused {
        return;
      }
      y := y + 1;
      var hit := Collide(arena, matrix, cells, x, y);
      if hit {
        y := y - 1;
        LockPiece(draw);
      }
      dropCounter := 0;
    }

    /** script.js `hardDrop`: lowers the piece while it does not collide, backs
        up one row and locks it there, on the last free row at or below where
        it was. Resets the drop counter; does nothing while the game is over
        or paused. */
    method HardDrop(draw: char)
      requires Valid() && draw in KINDS && (gameOver || paused || matrix != null)
      modifies this`arena, this`score, this`lines, this`level, this`dropInterval, this`dropCounter
      modifies this`matrix, this`cells, this`x, this`y, this`nextPiece, this`gameOver
      ensures Valid() && dropInterval <= old(dropInterval)
      ensures lines <= old(lines) + 4 && level <= old(level) + 1
      ensures old(gameOver || paused) ==> unchanged(this)
      ensures !old(gameOver || paused) ==> dropCounter == 0
      ensures !old(gameOver || paused) ==>
        Locked(old(arena), old(Scores()), old(cells), old(x),
               FirstHit(old(arena), old(cells), old(x), old(y)) - 1, old(nextPiece).value, draw)
    {
      if gameOver || paused {
        return;
      }
      ghost var a0, t0, s0, x0, k0 := arena, Scores(), cells, x, nextPiece.value;
      ghost var landing := FirstHit(arena, cells, x, y) - 1;
      y := Fall(arena, matrix, cells, x, y);
      assert y == landing;
      LockPiece(draw);
      assert Locked(a0, t0, s0, x0, landing, k0, draw);
      dropCounter := 0;
    }

    /** The drop-counter half of script.js `update` (lines 401-409): the
        time since the last tick is added to the counter, and a soft drop
        runs once the counter exceeds the drop interval. */
    method Tick(time: int, draw: char)
      requires Valid() && draw in KINDS && (gameOver || paused || matrix != null)
      modifies this`arena, this`score, this`lines, this`level, this`dropInterval, this`dropCounter
      modifies this`matrix, this`cells, this`x, this`y, this`nextPiece, this`gameOver, this`lastTime
      ensures Valid() && lastTime == time && dropInterval <= old(dropInterval)
      ensures var counter := old(dropCounter) + time - (if old(lastTime) == 0 then time else old(lastTime));
        if counter > old(dropInterval) && !old(gameOver || paused) then
          dropCounter == 0 &&
          SoftDropped(old(arena), old(Scores()), old(matrix), old(cells), old(x), old(y), old(nextPiece), draw)
        else
          dropCounter == counter && arena == old(arena) && matrix == old(matrix) && cells == old(cells) &&
          x == old(x) && y == old(y) && Scores() == old(Scores()) && nextPiece == old(nextPiece) &&
          gameOver == old(gameOver)
    {
      if lastTime == 0 {
        lastTime := time;
      }
      var delta := time - lastTime;
      lastTime := time;
      dropCounter := dropCounter + delta;
      if dropCounter > dropInterval {
        Drop(draw);
      }
    }

    /** The "p" key (script.js:441). */
    method TogglePause()
      requires Valid()
      modifies this`paused
      ensures Valid() && paused == !old(paused)
    {
      paused := !paused;
    }

    /** The body of the delayed game-over recovery (script.js:289-295):
        empties the arena, zeroes score, lines and level, clears `gameOver`
        and spawns the queued piece. The drop interval is kept, and the new
        piece always fits. */
    method Restart(draw: char)
      requires Consistent() && draw in KINDS
      modifies this`arena, this`score, this`lines, this`level
      modifies this`matrix, this`cells, this`x, this`y, this`nextPiece, this`gameOver
      ensures Valid() && !gameOver
      ensures arena == CreateMatrix(COLS, ROWS) && Scores() == Tally(0, 0, 0, old(dropInterval))
      ensures Spawned(if old(nextPiece).Some? then old(nextPiece).value else draw, draw)
    {
      arena := ClearArena(arena);
      score, lines, level := 0, 0, 0;
      gameOver := false;
      ghost var kind := if nextPiece.Some? then nextPiece.value else draw;
      SpawnFitsEmpty(kind);
      EmptyNoFullRow(COLS, ROWS);
      PlayerReset(draw, draw);
    }
  }
}
