/** The rules of play on values, and the loops script.js runs over the
    arena and the active piece: spawning, the wall-kick search, merging,
    sweeping full rows and the hard-drop fall. */
module Rules {
  import opened Matrix
  import opened Pieces
  import opened Board

  /** script.js:279: the column a piece `w` cells wide starts at, centred
      on the board. */
  function SpawnX(w: int): int {
    COLS / 2 - w / 2
  }

  /** The offset of the `k`-th wall kick, counting from 0: +1, -2, +3, -4,
      ... (script.js:202-204). */
  function KickOffset(k: nat): int {
    if k % 2 == 0 then k + 1 else -(k as int + 1)
  }

  /** The kick offsets before the `k`-th added up: how far `k` kicks have
      shifted the piece. */
  function KickSum(k: nat): int {
    if k == 0 then 0 else KickSum(k - 1) + KickOffset(k - 1)
  }

  /** The column shift after `k` kicks in closed form: the kicks visit the
      columns nearest to the start first, right before left: 0, +1, -1, +2,
      -2, ... */
  function KickShift(k: nat): int {
    if k % 2 == 1 then (k + 1) / 2 else -(k / 2)
  }

  /** The closed form is the running sum of the offsets. */
  lemma {:induction false} KickSumClosedForm(k: nat)
    ensures KickSum(k) == KickShift(k)
  {
    if k > 0 {
      KickSumClosedForm(k - 1);
    }
  }

  /** The search moves past a kick that collides and stops at one that does
      not. */
  lemma FirstKickStep(a: seq<seq<int>>, s: seq<seq<int>>, x: int, y: int, k: nat, w: nat)
    requires IsBoard(a) && k <= w
    ensures Collides(a, s, x + KickShift(k), y) ==> FirstKick(a, s, x, y, k, w) == FirstKick(a, s, x, y, k + 1, w)
    ensures !Collides(a, s, x + KickShift(k), y) ==> FirstKick(a, s, x, y, k, w) == Some(k)
    ensures FirstKick(a, s, x, y, w + 1, w) == None
  {
  }

  /** One kick: the shift grows by the offset, the next offset is the
      negation of the current one stepped away from zero, and the `k`-th
      offset has magnitude k + 1. */
  lemma KickStep(k: nat)
    ensures KickShift(k + 1) == KickShift(k) + KickOffset(k)
    ensures KickOffset(k + 1) == -(KickOffset(k) + (if KickOffset(k) > 0 then 1 else -1))
    ensures (if KickOffset(k) < 0 then -KickOffset(k) else KickOffset(k)) == k + 1
  {
  }

  /** The kicks never return to a column already tried. */
  lemma KickShiftDistinct(i: nat, j: nat)
    requires i != j
    ensures KickShift(i) != KickShift(j)
  {
  }

  /** The first kick count, from `from` up to `w`, after which the placement
      of `s` does not collide; `None` when every one collides. */
  ghost function FirstKick(a: seq<seq<int>>, s: seq<seq<int>>, x: int, y: int, from: nat, w: nat): Option<nat>
    requires IsBoard(a)
    decreases w + 1 - from
  {
    if from > w then None
    else if !Collides(a, s, x + KickShift(from), y) then Some(from)
    else FirstKick(a, s, x, y, from + 1, w)
  }

  /** A kick that is found does not collide, and every kick tried before it
      does. */
  lemma {:induction false} FirstKickFound(a: seq<seq<int>>, s: seq<seq<int>>, x: int, y: int, from: nat, w: nat)
    requires IsBoard(a) && FirstKick(a, s, x, y, from, w).Some?
    ensures var k := FirstKick(a, s, x, y, from, w).value;
      from <= k <= w && !Collides(a, s, x + KickShift(k), y) &&
      forall j :: from <= j < k ==> Collides(a, s, x + KickShift(j), y)
    decreases w + 1 - from
  {
    if Collides(a, s, x + KickShift(from), y) {
      FirstKickFound(a, s, x, y, from + 1, w);
    }
  }

  /** When no kick is found, every kick from `from` up to `w` collides. */
  lemma {:induction false} FirstKickNone(a: seq<seq<int>>, s: seq<seq<int>>, x: int, y: int, from: nat, w: nat)
    requires IsBoard(a) && FirstKick(a, s, x, y, from, w).None?
    ensures forall k :: from <= k <= w ==> Collides(a, s, x + KickShift(k), y)
    decreases w + 1 - from
  {
    if from <= w {
      FirstKickNone(a, s, x, y, from + 1, w);
    }
  }

  /** The first row, from `y` down, at which the placement of `s` collides. */
  ghost function FirstHit(a: seq<seq<int>>, s: seq<seq<int>>, x: int, y: int): int
    requires IsBoard(a) && HasCell(s)
    decreases ROWS - y
  {
    if Collides(a, s, x, y) then y
    else NoCollisionRows(a, s, x, y); FirstHit(a, s, x, y + 1)
  }

  /** From a placement that does not collide, the piece can fall to the row
      above the first hit without colliding anywhere on the way, and the row
      of the first hit collides. */
  lemma {:induction false} FirstHitLanding(a: seq<seq<int>>, s: seq<seq<int>>, x: int, y: int)
    requires IsBoard(a) && HasCell(s) && !Collides(a, s, x, y)
    ensures y < FirstHit(a, s, x, y)
    ensures Collides(a, s, x, FirstHit(a, s, x, y))
    ensures forall k :: y <= k < FirstHit(a, s, x, y) ==> !Collides(a, s, x, k)
    decreases ROWS - y
  {
    NoCollisionRows(a, s, x, y);
    if !Collides(a, s, x, y + 1) {
      FirstHitLanding(a, s, x, y + 1);
    }
  }

  /** A spawned piece never collides with an empty arena, so the game-over
      reset always resumes play. */
  lemma SpawnFitsEmpty(kind: char)
    requires kind in KINDS
    ensures !Collides(CreateMatrix(COLS, ROWS), Spawn(kind), SpawnX(|Spawn(kind)|), 0)
  {
    var s := Spawn(kind);
    var e := CreateMatrix(COLS, ROWS);
    forall i, j
      ensures !CellBlocked(e, s, SpawnX(|s|), 0, i, j)
    {
    }
  }

  /** On an empty arena an O piece spawns at column 5, row 0, and a hard
      drop lands it on row 18. */
  lemma ODropsToRow18()
    ensures SpawnX(|Spawn('O')|) == 5
    ensures HasCell(Spawn('O')) && FirstHit(CreateMatrix(COLS, ROWS), Spawn('O'), 5, 0) - 1 == 18
  {
    OFallsFrom(0);
  }

  /** A spawned O piece is the 2 by 2 block painted with id 2. */
  lemma SpawnO()
    ensures Spawn('O') == [[2, 2], [2, 2]]
  {
    var s := Spawn('O');
    assert |s| == 2 && s[0] == [2, 2] && s[1] == [2, 2];
  }

  /** From any row of an empty arena, an O piece at column 5 first hits at
      row 19, the floor. */
  lemma {:induction false} OFallsFrom(y: int)
    requires 0 <= y <= 19
    ensures HasCell(Spawn('O')) && FirstHit(CreateMatrix(COLS, ROWS), Spawn('O'), 5, y) == 19
    decreases 19 - y
  {
    var s := Spawn('O');
    var e := CreateMatrix(COLS, ROWS);
    SpawnO();
    if y < 19 {
      forall i, j
        ensures !CellBlocked(e, s, 5, y, i, j)
      {
      }
      OFallsFrom(y + 1);
    } else {
      assert CellBlocked(e, s, 5, y, 1, 0);
    }
  }

  /** The matrix script.js:268-276 builds for a new piece: a fresh array
      holding the template of `kind` with every occupied cell rewritten to
      the type's id. */
  method NewPiece(kind: char) returns (m: array2<int>)
    requires kind in KINDS
    ensures fresh(m) && m.Length0 == m.Length1 && Holds(m, Spawn(kind))
  {
    var shape := CreatePiece(kind).value;
    var n := |shape|;
    m := new int[n, n]((i, j) requires 0 <= i < n && 0 <= j < n => shape[i][j]);
    var id := PieceId(kind);
    var i := 0;
    while i < n
      invariant 0 <= i <= n
      invariant forall i', j' :: 0 <= i' < n && 0 <= j' < n ==>
        m[i', j'] == if i' < i && shape[i'][j'] != 0 then id else shape[i'][j']
    {
      var j := 0;
      while j < n
        invariant 0 <= j <= n
        invariant forall i', j' :: 0 <= i' < n && 0 <= j' < n ==>
          m[i', j'] == if (i' < i || (i' == i && j' < j)) && shape[i'][j'] != 0 then id else shape[i'][j']
      {
        if m[i, j] != 0 {
          m[i, j] := id;
        }
        j := j + 1;
      }
      i := i + 1;
    }
  }

  /** The spawn step of script.js `playerReset` (lines 268-284): the new
      piece matrix, the column it starts at, and whether row 0 there
      collides. */
  method SpawnPiece(a: seq<seq<int>>, kind: char) returns (m: array2<int>, px: int, hit: bool)
    requires IsBoard(a) && kind in KINDS
    ensures fresh(m) && m.Length0 == m.Length1 && Holds(m, Spawn(kind)) && PieceShape(Spawn(kind))
    ensures px == SpawnX(|Spawn(kind)|)
    ensures hit == Collides(a, Spawn(kind), px, 0)
  {
    m := NewPiece(kind);
    SpawnShape(kind);
    px := COLS / 2 - m.Length1 / 2;
    hit := Collide(a, m, Spawn(kind), px, 0);
  }

  /** The wall-kick loop of script.js `rotatePlayer` (lines 200-211) on a
      piece `m` already turned at column `x0`: while the piece collides, it
      shifts by the next offset of +1, -2, +3, ...; once the offset after
      that would exceed the width plus one, it gives up without testing the
      column it has just moved to. The result is the first kick that fits,
      or `gaveUp` when none of the first width + 1 positions fits. */
  method KickSearch(a: seq<seq<int>>, m: array2<int>, ghost s: seq<seq<int>>, x0: int, y: int) returns (x: int, gaveUp: bool)
    requires IsBoard(a) && Holds(m, s)
    ensures match FirstKick(a, s, x0, y, 0, m.Length1)
      case Some(k) => !gaveUp && x == x0 + KickShift(k)
      case None => gaveUp
  {
    x := x0;
    var offset := 1;
    ghost var k: nat := 0;
    var hit := Collide(a, m, s, x, y);
    while hit
      invariant 0 <= k <= m.Length1
      invariant x == x0 + KickShift(k)
      invariant offset == KickOffset(k)
      invariant hit == Collides(a, s, x, y)
      invariant FirstKick(a, s, x0, y, 0, m.Length1) == FirstKick(a, s, x0, y, k, m.Length1)
      decreases m.Length1 - k
    {
      FirstKickStep(a, s, x0, y, k, m.Length1);
      KickStep(k);
      KickStep(k + 1);
      x := x + offset;
      offset := -(offset + (if offset > 0 then 1 else -1));
      k := k + 1;
      if (if offset < 0 then -offset else offset) > m.Length1 + 1 {
        return x, true;
      }
      hit := Collide(a, m, s, x, y);
    }
    FirstKickStep(a, s, x0, y, k, m.Length1);
    return x, false;
  }

  /** The give-up step of script.js `rotatePlayer` (line 207): turning `m`
      the other way restores the matrix it was turned from. */
  method RotateBack(m: array2<int>, dir: int, ghost s: seq<seq<int>>)
    requires m.Length0 == m.Length1 && Square(s) && dir != 0 && Holds(m, Rotated(s, dir))
    modifies m
    ensures Holds(m, s)
  {
    RotateMatrix(m, Rotated(s, dir), -dir);
    RotateInverse(s, dir);
  }

  /** script.js `rotatePlayer` on values: the piece `s` at column `x` turned
      a quarter by `dir` and kicked to the first column that fits; the
      unturned piece at its column when no kick fits. */
  ghost function Turned(a: seq<seq<int>>, s: seq<seq<int>>, x: int, y: int, dir: int): (seq<seq<int>>, int)
    requires IsBoard(a) && Square(s)
  {
    var r := Rotated(s, dir);
    match FirstKick(a, r, x, y, 0, |s|)
    case Some(k) => (r, x + KickShift(k))
    case None => (s, x)
  }

  /** Either the turned piece lands at the first of the columns x + 0, x + 1,
      x - 1, x + 2, ... (at most |s| + 1 of them) where it does not collide,
      every column tried before colliding; or the turned piece collides at
      all of them and the piece and its column are kept. */
  lemma TurnedCases(a: seq<seq<int>>, s: seq<seq<int>>, x: int, y: int, dir: int)
    requires IsBoard(a) && Square(s)
    ensures var (t, tx) := Turned(a, s, x, y, dir);
      var r := Rotated(s, dir);
      || (t == r &&
          exists k :: 0 <= k <= |s| && tx == x + KickShift(k) && !Collides(a, r, tx, y) &&
            forall j :: 0 <= j < k ==> Collides(a, r, x + KickShift(j), y))
      || (t == s && tx == x && forall k :: 0 <= k <= |s| ==> Collides(a, r, x + KickShift(k), y))
  {
    var r := Rotated(s, dir);
    match FirstKick(a, r, x, y, 0, |s|)
    case Some(k) =>
      FirstKickFound(a, r, x, y, 0, |s|);
    case None =>
      FirstKickNone(a, r, x, y, 0, |s|);
  }

  /** Turning keeps a piece matrix a piece matrix, and a piece that did not
      collide still does not. */
  lemma TurnedFits(a: seq<seq<int>>, s: seq<seq<int>>, x: int, y: int, dir: int)
    requires IsBoard(a) && PieceShape(s)
    ensures PieceShape(Turned(a, s, x, y, dir).0)
    ensures !Collides(a, s, x, y) ==> !Collides(a, Turned(a, s, x, y, dir).0, Turned(a, s, x, y, dir).1, y)
  {
    RotatedPiece(s, dir);
    if FirstKick(a, Rotated(s, dir), x, y, 0, |s|).Some? {
      FirstKickFound(a, Rotated(s, dir), x, y, 0, |s|);
    }
  }

  /** The body of script.js `rotatePlayer` (lines 198-212) for a piece `m` at
      column `x0`: turns it in place, searches for a kick, and turns it back
      when the search gives up. */
  method RotateWithKicks(a: seq<seq<int>>, m: array2<int>, ghost s: seq<seq<int>>, x0: int, y: int, dir: int) returns (x: int)
    requires IsBoard(a) && Holds(m, s) && PieceShape(s) && dir != 0
    modifies m
    ensures Holds(m, Turned(a, s, x0, y, dir).0) && x == Turned(a, s, x0, y, dir).1
  {
    assert |s[0]| == |s|;
    RotateMatrix(m, s, dir);
    var gaveUp;
    x, gaveUp := KickSearch(a, m, Rotated(s, dir), x0, y);
    if gaveUp {
      RotateBack(m, dir, s);
      x := x0;
    }
  }

  /** script.js `merge` (lines 217-225) on the arena value `a`: every
      occupied cell of `m`, placed at (x, y), is written into the arena. The
      callers only merge a placement that does not collide, so every write
      is on the board. */
  method MergePiece(a: seq<seq<int>>, m: array2<int>, ghost s: seq<seq<int>>, x: int, y: int) returns (b: seq<seq<int>>)
    requires IsBoard(a) && Holds(m, s) && !Collides(a, s, x, y)
    ensures b == Merged(a, s, x, y)
  {
    MergeWritesPiece(a, s, x, y);
    b := a;
    var i := 0;
    while i < m.Length0
      invariant 0 <= i <= m.Length0
      invariant |b| == ROWS && forall r :: 0 <= r < ROWS ==> |b[r]| == COLS
      invariant forall r, c :: 0 <= r < ROWS && 0 <= c < COLS ==>
        b[r][c] == if 0 <= r - y < i && 0 <= c - x < m.Length1 && s[r - y][c - x] != 0 then s[r - y][c - x] else a[r][c]
    {
      var j := 0;
      while j < m.Length1
        invariant 0 <= j <= m.Length1
        invariant |b| == ROWS && forall r :: 0 <= r < ROWS ==> |b[r]| == COLS
        invariant forall r, c :: 0 <= r < ROWS && 0 <= c < COLS ==>
          b[r][c] == if (0 <= r - y < i || (r - y == i && c - x < j)) && 0 <= c - x < m.Length1 && s[r - y][c - x] != 0
                     then s[r - y][c - x] else a[r][c]
      {
        if m[i, j] != 0 {
          assert s[i][j] != 0;
          b := b[i + y := b[i + y][j + x := m[i, j]]];
        }
        j := j + 1;
      }
      i := i + 1;
    }
    ghost var merged := Merged(a, s, x, y);
    forall r | 0 <= r < ROWS
      ensures b[r] == merged[r]
    {
      assert forall c :: 0 <= c < COLS ==> b[r][c] == merged[r][c];
    }
  }

  /** The arena while `arenaSweep` scans it upwards: the rows already
      cleared as empty rows on top, the rows `a[..i]` not yet scanned, then
      the kept rows of the scanned part. */
  ghost function Stage(a: seq<seq<int>>, i: nat, n: nat): seq<seq<int>>
    requires i <= |a|
  {
    CreateMatrix(COLS, n) + a[..i] + Kept(a[i..])
  }

  /** Clearing the full row `a[i - 1]` of a stage: drop it and put an empty
      row on top. */
  lemma StageClear(a: seq<seq<int>>, i: nat, n: nat)
    requires 0 < i <= |a| && IsFull(a[i - 1])
    ensures |Stage(a, i, n)| > n + i - 1 && Stage(a, i, n)[n + i - 1] == a[i - 1]
    ensures [seq(COLS, _ => 0)] + Stage(a, i, n)[..n + i - 1] + Stage(a, i, n)[n + i..] == Stage(a, i - 1, n + 1)
    ensures FullCount(a[i - 1..]) == FullCount(a[i..]) + 1
  {
    var s := Stage(a, i, n);
    assert a[i - 1..][0] == a[i - 1] && a[i - 1..][1..] == a[i..];
    assert s[..n + i - 1] == CreateMatrix(COLS, n) + a[..i - 1];
    assert s[n + i..] == Kept(a[i..]);
    assert [seq(COLS, _ => 0)] + CreateMatrix(COLS, n) == CreateMatrix(COLS, n + 1);
  }

  /** A row that is not full stays where it is. */
  lemma StageKeep(a: seq<seq<int>>, i: nat, n: nat)
    requires 0 < i <= |a| && !IsFull(a[i - 1])
    ensures |Stage(a, i, n)| > n + i - 1 && Stage(a, i, n)[n + i - 1] == a[i - 1]
    ensures Stage(a, i, n) == Stage(a, i - 1, n)
    ensures FullCount(a[i - 1..]) == FullCount(a[i..])
  {
    assert a[i - 1..][0] == a[i - 1] && a[i - 1..][1..] == a[i..];
    assert a[..i] == a[..i - 1] + [a[i - 1]];
  }

  /** The empty rows a stage has put on top are not full. */
  lemma StageTop(a: seq<seq<int>>, n: nat, r: int)
    requires 0 <= r < n
    ensures |Stage(a, 0, n)| > r && !IsFull(Stage(a, 0, n)[r])
  {
    assert Stage(a, 0, n)[r] == CreateMatrix(COLS, n)[r];
    assert Stage(a, 0, n)[r][0] == 0;
  }

  /** The inner loop of script.js `arenaSweep` (lines 230-232): scans the
      row for an empty cell; the row is full when there is none. */
  method ScanRow(row: seq<int>) returns (full: bool)
    ensures full <==> IsFull(row)
  {
    var c := 0;
    while c < |row| && row[c] != 0
      invariant 0 <= c <= |row|
      invariant forall c' :: 0 <= c' < c ==> row[c'] != 0
    {
      c := c + 1;
    }
    full := c == |row|;
  }

  /** The state of the row loop of script.js `arenaSweep` after the rows
      `a[i..]` have been scanned: `n` of them were full, `b` is `Stage`, and
      `r` is the index to check next (the empty rows on top are rescanned
      once every row of `a` has been passed). */
  ghost predicate Scanned(a: seq<seq<int>>, b: seq<seq<int>>, n: nat, r: int, i: nat) {
    i <= |a| && n == FullCount(a[i..]) && |Kept(a[i..])| + n == |a| - i &&
    b == Stage(a, i, n) && -1 <= r <= n + i - 1 && (i > 0 ==> r == n + i - 1)
  }

  /** Before the loop nothing is scanned and the index is the bottom row. */
  lemma ScanStart(a: seq<seq<int>>)
    ensures Scanned(a, a, 0, |a| - 1, |a|)
  {
    KeptSize(a);
    assert a[|a|..] == [];
    assert a[..|a|] == a;
  }

  /** One pass of the loop body: a full row at index `r` is cut out and an
      empty row put on top, with the same index checked again; any other
      row moves the index up. */
  lemma ScanStep(a: seq<seq<int>>, b: seq<seq<int>>, n: nat, r: int, i: nat)
    requires IsBoard(a) && Scanned(a, b, n, r, i) && 0 <= r
    ensures r < |b|
    ensures IsFull(b[r]) ==>
      i > 0 && Scanned(a, [seq(|b[r]|, _ => 0)] + b[..r] + b[r + 1..], n + 1, r, i - 1)
    ensures !IsFull(b[r]) ==> Scanned(a, b, n, r - 1, if i > 0 then i - 1 else 0)
  {
    if i == 0 {
      StageTop(a, n, r);
    } else if IsFull(a[i - 1]) {
      StageClear(a, i, n);
    } else {
      StageKeep(a, i, n);
    }
  }

  /** Once the index has passed the top, every row has been scanned. */
  lemma ScanDone(a: seq<seq<int>>, b: seq<seq<int>>, n: nat, r: int, i: nat)
    requires Scanned(a, b, n, r, i) && r < 0
    ensures b == Swept(a) && n == FullCount(a)
  {
    assert a[0..] == a;
  }

  /** The row loop of script.js `arenaSweep` (lines 228-238) on the arena
      value `a`: scanning from the bottom, a full row is cut out and put
      back emptied on top, and the same index is checked again. The result
      is the swept arena and the number of rows cleared. */
  method SweepRows(a: seq<seq<int>>) returns (b: seq<seq<int>>, linesCleared: nat)
    requires IsBoard(a)
    ensures b == Swept(a) && linesCleared == FullCount(a)
  {
    b := a;
    linesCleared := 0;
    var r := |b| - 1;
    ghost var i: nat := |a|;
    ScanStart(a);
    while r >= 0
      invariant Scanned(a, b, linesCleared, r, i)
      decreases r + i
    {
      ScanStep(a, b, linesCleared, r, i);
      var full := ScanRow(b[r]);
      if full {
        b := [seq(|b[r]|, _ => 0)] + b[..r] + b[r + 1..];
        linesCleared := linesCleared + 1;
        i := i - 1;
      } else {
        r := r - 1;
        if i > 0 {
          i := i - 1;
        }
      }
    }
    ScanDone(a, b, linesCleared, r, i);
  }

  /** The loop of script.js `hardDrop` (lines 316-319): lowers the piece
      from row `y0` until it collides, then backs up one row. */
  method Fall(a: seq<seq<int>>, m: array2<int>, ghost s: seq<seq<int>>, x: int, y0: int) returns (y: int)
    requires IsBoard(a) && Holds(m, s) && HasCell(s) && !Collides(a, s, x, y0)
    ensures y == FirstHit(a, s, x, y0) - 1
    ensures y0 <= y && !Collides(a, s, x, y)
  {
    FirstHitLanding(a, s, x, y0);
    y := y0;
    var hit := Collide(a, m, s, x, y);
    while !hit
      invariant y0 <= y <= FirstHit(a, s, x, y0)
      invariant hit == Collides(a, s, x, y) && hit == (y == FirstHit(a, s, x, y0))
      decreases ROWS - y
    {
      NoCollisionRows(a, s, x, y);
      y := y + 1;
      hit := Collide(a, m, s, x, y);
    }
    y := y - 1;
  }

  /** `arena.forEach(row => row.fill(0))` (script.js:289) on the arena value
      `a`: every cell becomes 0. */
  method ClearArena(a: seq<seq<int>>) returns (b: seq<seq<int>>)
    requires IsBoard(a)
    ensures b == CreateMatrix(COLS, ROWS)
  {
    b := a;
    var r := 0;
    while r < |b|
      invariant 0 <= r <= ROWS && |b| == ROWS
      invariant forall k :: 0 <= k < r ==> b[k] == seq(COLS, _ => 0)
      invariant forall k :: r <= k < ROWS ==> |b[k]| == COLS
    {
      b := b[r := seq(|b[r]|, _ => 0)];
      r := r + 1;
    }
    assert b == CreateMatrix(COLS, ROWS);
  }

  /** The type `playerReset` spawns: the queued one, or `fallback` when
      nothing is queued. */
  function Upcoming(queued: Option<char>, fallback: char): char {
    if queued.Some? then queued.value else fallback
  }

  /** What holds of the session between operations, on values. */
  ghost predicate Settled(arena: seq<seq<int>>, cells: seq<seq<int>>, hasPiece: bool, nextPiece: Option<char>, lines: int, level: int) {
    IsBoard(arena) && LegalCells(arena) &&
    (nextPiece.Some? ==> nextPiece.value in KINDS) &&
    (hasPiece ==> PieceShape(cells) && nextPiece.Some?) &&
    0 <= lines && level == lines / 10
  }

  lemma SpawnSettled(arena: seq<seq<int>>, cells: seq<seq<int>>, hasPiece: bool, nextPiece: Option<char>, lines: int, level: int, kind: char, draw: char)
    requires Settled(arena, cells, hasPiece, nextPiece, lines, level) && kind in KINDS && draw in KINDS
    ensures Settled(arena, Spawn(kind), true, Some(draw), lines, level)
  {
    SpawnShape(kind);
  }
}
