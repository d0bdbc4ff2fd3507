/** The 12 by 20 arena (script.js `arena`), collision of a piece placement
    against it (`collide`), locking a piece into it (`merge`) and the
    specification of clearing its full rows (`arenaSweep`). */
module Board {
  import opened Matrix
  import opened Pieces

  const COLS := 12
  const ROWS := 20

  /** `a` has the arena's dimensions, ROWS rows of COLS cells. */
  ghost predicate IsBoard(a: seq<seq<int>>) {
    |a| == ROWS && forall r :: 0 <= r < |a| ==> |a[r]| == COLS
  }

  predicate OnBoard(r: int, c: int) {
    0 <= r < ROWS && 0 <= c < COLS
  }

  /** A piece cell may not land on (r, c): it lies outside the board, rows
      above the top included, or the arena cell there is occupied. */
  ghost predicate Blocked(a: seq<seq<int>>, r: int, c: int)
    requires IsBoard(a)
  {
    !OnBoard(r, c) || a[r][c] != 0
  }

  /** Cell (i, j) of `s`, placed with its top-left corner at column `x`,
      row `y`, is occupied and blocked. */
  ghost predicate CellBlocked(a: seq<seq<int>>, s: seq<seq<int>>, x: int, y: int, i: int, j: int)
    requires IsBoard(a)
  {
    0 <= i < |s| && 0 <= j < |s[i]| && s[i][j] != 0 && Blocked(a, i + y, j + x)
  }

  /** Placing `s` with its top-left corner at column `x`, row `y` collides:
      some occupied cell of `s` is blocked. Empty cells of `s` never count. */
  ghost predicate Collides(a: seq<seq<int>>, s: seq<seq<int>>, x: int, y: int)
    requires IsBoard(a)
  {
    exists i, j :: CellBlocked(a, s, x, y, i, j)
  }

  /** script.js `collide`: scans the piece matrix row by row and reports the
      first occupied cell that leaves the board or meets a locked cell. */
  method Collide(a: seq<seq<int>>, m: array2<int>, ghost s: seq<seq<int>>, x: int, y: int) returns (hit: bool)
    requires IsBoard(a) && Holds(m, s)
    ensures hit <==> Collides(a, s, x, y)
  {
    var i := 0;
    while i < m.Length0
      invariant 0 <= i <= m.Length0
      invariant forall i', j' :: 0 <= i' < i ==> !CellBlocked(a, s, x, y, i', j')
    {
      var j := 0;
      while j < m.Length1
        invariant 0 <= j <= m.Length1
        invariant forall i', j' :: 0 <= i' < i ==> !CellBlocked(a, s, x, y, i', j')
        invariant forall j' :: j' < j ==> !CellBlocked(a, s, x, y, i, j')
      {
        if m[i, j] != 0 {
          var ay := i + y;
          var ax := j + x;
          if ay < 0 || ay >= |a| || ax < 0 || ax >= |a[0]| {
            assert CellBlocked(a, s, x, y, i, j);
            return true;
          }
          if a[ay][ax] != 0 {
            assert CellBlocked(a, s, x, y, i, j);
            return true;
          }
        }
        j := j + 1;
      }
      i := i + 1;
    }
    return false;
  }

  /** A placement whose occupied cell lies above the top row collides:
      script.js:169 tests `ay < 0`. */
  lemma AboveTopCollides(a: seq<seq<int>>, s: seq<seq<int>>, x: int, y: int, i: int, j: int)
    requires IsBoard(a)
    requires 0 <= i < |s| && 0 <= j < |s[i]| && s[i][j] != 0 && i + y < 0
    ensures Collides(a, s, x, y)
  {
    assert CellBlocked(a, s, x, y, i, j);
  }

  /** A placement of a non-empty piece that does not collide lies within the
      rows of the board: it starts below row -|s| and above the floor. */
  lemma NoCollisionRows(a: seq<seq<int>>, s: seq<seq<int>>, x: int, y: int)
    requires IsBoard(a) && HasCell(s) && !Collides(a, s, x, y)
    ensures -|s| < y < ROWS
  {
    var i, j :| 0 <= i < |s| && 0 <= j < |s[i]| && s[i][j] != 0;
    assert !CellBlocked(a, s, x, y, i, j);
  }

  /** The arena after writing every occupied cell of `s`, placed at (x, y),
      into it; all other cells keep their value. */
  ghost function Merged(a: seq<seq<int>>, s: seq<seq<int>>, x: int, y: int): (b: seq<seq<int>>)
    ensures |b| == |a| && forall r :: 0 <= r < |a| ==> |b[r]| == |a[r]|
  {
    seq(|a|, r requires 0 <= r < |a| =>
      seq(|a[r]|, c requires 0 <= c < |a[r]| =>
        if 0 <= r - y < |s| && 0 <= c - x < |s[r - y]| && s[r - y][c - x] != 0
        then s[r - y][c - x] else a[r][c]))
  }

  /** Merging a placement that does not collide writes each occupied cell of
      the piece onto the board, and only there. */
  lemma MergeWritesPiece(a: seq<seq<int>>, s: seq<seq<int>>, x: int, y: int)
    requires IsBoard(a) && !Collides(a, s, x, y)
    ensures forall i, j :: 0 <= i < |s| && 0 <= j < |s[i]| && s[i][j] != 0 ==>
      OnBoard(i + y, j + x) && Merged(a, s, x, y)[i + y][j + x] == s[i][j]
    ensures forall r, c ::
      0 <= r < ROWS && 0 <= c < COLS && !(0 <= r - y < |s| && 0 <= c - x < |s[r - y]| && s[r - y][c - x] != 0)
      ==> Merged(a, s, x, y)[r][c] == a[r][c]
  {
    forall i, j | 0 <= i < |s| && 0 <= j < |s[i]| && s[i][j] != 0
      ensures OnBoard(i + y, j + x) && Merged(a, s, x, y)[i + y][j + x] == s[i][j]
    {
      assert !CellBlocked(a, s, x, y, i, j);
    }
  }

  /** Merging a placement that does not collide never overwrites a locked
      cell. */
  lemma MergeKeepsLocked(a: seq<seq<int>>, s: seq<seq<int>>, x: int, y: int)
    requires IsBoard(a) && !Collides(a, s, x, y)
    ensures forall r, c :: 0 <= r < ROWS && 0 <= c < COLS && a[r][c] != 0 ==>
      Merged(a, s, x, y)[r][c] == a[r][c]
  {
    forall r, c | 0 <= r < ROWS && 0 <= c < COLS && a[r][c] != 0
      ensures Merged(a, s, x, y)[r][c] == a[r][c]
    {
      if 0 <= r - y < |s| && 0 <= c - x < |s[r - y]| && s[r - y][c - x] != 0 {
        assert CellBlocked(a, s, x, y, r - y, c - x);
      }
    }
  }

  /** Once merged, the same placement collides with its own cells. */
  lemma MergedCollides(a: seq<seq<int>>, s: seq<seq<int>>, x: int, y: int)
    requires IsBoard(a) && HasCell(s) && !Collides(a, s, x, y)
    ensures IsBoard(Merged(a, s, x, y)) && Collides(Merged(a, s, x, y), s, x, y)
  {
    var i, j :| 0 <= i < |s| && 0 <= j < |s[i]| && s[i][j] != 0;
    MergeWritesPiece(a, s, x, y);
    assert CellBlocked(Merged(a, s, x, y), s, x, y, i, j);
  }

  /** Merging legal piece values into a legal board keeps it legal. */
  lemma MergedLegal(a: seq<seq<int>>, s: seq<seq<int>>, x: int, y: int)
    requires IsBoard(a) && LegalCells(a) && LegalCells(s)
    ensures IsBoard(Merged(a, s, x, y)) && LegalCells(Merged(a, s, x, y))
  {
  }

  /** Every cell of the row is occupied. */
  predicate IsFull(row: seq<int>) {
    forall c :: 0 <= c < |row| ==> row[c] != 0
  }

  /** The rows of `a` that are not full, in their order. */
  ghost function Kept(a: seq<seq<int>>): seq<seq<int>> {
    if a == [] then [] else (if IsFull(a[0]) then [] else [a[0]]) + Kept(a[1..])
  }

  /** The number of full rows of `a`. */
  ghost function FullCount(a: seq<seq<int>>): nat {
    if a == [] then 0 else (if IsFull(a[0]) then 1 else 0) + FullCount(a[1..])
  }

  /** script.js `createMatrix`: `h` rows of `w` empty cells. */
  function CreateMatrix(w: nat, h: nat): (m: seq<seq<int>>)
    ensures |m| == h && forall r :: 0 <= r < h ==> |m[r]| == w
    ensures forall r, c :: 0 <= r < h && 0 <= c < w ==> m[r][c] == 0
  {
    seq(h, _ => seq(w, _ => 0))
  }

  /** The arena after clearing its full rows: as many empty rows on top as
      were cleared, then the other rows in their order. */
  ghost function Swept(a: seq<seq<int>>): seq<seq<int>> {
    CreateMatrix(COLS, FullCount(a)) + Kept(a)
  }

  /** Every row is either kept or counted as full. */
  lemma {:induction false} KeptSize(a: seq<seq<int>>)
    ensures |Kept(a)| + FullCount(a) == |a|
  {
    if a != [] {
      KeptSize(a[1..]);
    }
  }

  /** The kept rows are not full and keep the width and the legal values of
      the rows they come from. */
  lemma {:induction false} KeptRows(a: seq<seq<int>>)
    requires forall r :: 0 <= r < |a| ==> |a[r]| == COLS
    requires LegalCells(a)
    ensures forall r :: 0 <= r < |Kept(a)| ==> |Kept(a)[r]| == COLS && !IsFull(Kept(a)[r])
    ensures LegalCells(Kept(a))
  {
    if a != [] {
      KeptRows(a[1..]);
    }
  }

  /** The kept rows are exactly the rows of `a` that are not full. */
  lemma {:induction false} KeptMembers(a: seq<seq<int>>)
    ensures forall row :: row in Kept(a) <==> row in a && !IsFull(row)
  {
    if a != [] {
      KeptMembers(a[1..]);
      assert a == [a[0]] + a[1..];
    }
  }

  /** A board without full rows has nothing to clear. */
  lemma {:induction false} NothingFull(a: seq<seq<int>>)
    requires forall r :: 0 <= r < |a| ==> !IsFull(a[r])
    ensures FullCount(a) == 0 && Kept(a) == a
  {
    if a != [] {
      NothingFull(a[1..]);
    }
  }

  /** No row of `a` is full: what every sweep leaves behind. */
  ghost predicate NoFullRow(a: seq<seq<int>>) {
    forall r :: 0 <= r < |a| ==> !IsFull(a[r])
  }

  /** An empty arena has no full row. */
  lemma EmptyNoFullRow(w: nat, h: nat)
    requires w > 0
    ensures NoFullRow(CreateMatrix(w, h))
  {
    forall r | 0 <= r < h
      ensures !IsFull(CreateMatrix(w, h)[r])
    {
      assert CreateMatrix(w, h)[r][0] == 0;
    }
  }

  lemma {:induction false} FullCountConcat(a: seq<seq<int>>, b: seq<seq<int>>)
    ensures FullCount(a + b) == FullCount(a) + FullCount(b)
  {
    if a != [] {
      FullCountConcat(a[1..], b);
      assert (a + b)[0] == a[0] && (a + b)[1..] == a[1..] + b;
    } else {
      assert a + b == b;
    }
  }

  lemma {:induction false} FullCountAtMost(a: seq<seq<int>>)
    ensures FullCount(a) <= |a|
  {
    if a != [] {
      FullCountAtMost(a[1..]);
    }
  }

  /** Merging a piece into an arena with no full row completes at most as
      many rows as the piece matrix has: only the rows it spans change. */
  lemma MergedFullRows(a: seq<seq<int>>, s: seq<seq<int>>, x: int, y: int)
    requires IsBoard(a) && NoFullRow(a)
    ensures FullCount(Merged(a, s, x, y)) <= |s|
  {
    var b := Merged(a, s, x, y);
    var lo := if y < 0 then 0 else if y > |b| then |b| else y;
    var hi := if y + |s| < lo then lo else if y + |s| > |b| then |b| else y + |s|;
    forall r | 0 <= r < |b| && !(lo <= r < hi)
      ensures !IsFull(b[r])
    {
      assert b[r] == a[r];
    }
    assert b == b[..lo] + b[lo..hi] + b[hi..];
    NothingFull(b[..lo]);
    NothingFull(b[hi..]);
    FullCountConcat(b[..lo] + b[lo..hi], b[hi..]);
    FullCountConcat(b[..lo], b[lo..hi]);
    FullCountAtMost(b[lo..hi]);
  }

  /** Sweeping keeps the arena ROWS by COLS with legal values and leaves no
      full row. */
  lemma SweptBoard(a: seq<seq<int>>)
    requires IsBoard(a) && LegalCells(a)
    ensures IsBoard(Swept(a)) && LegalCells(Swept(a))
    ensures forall r :: 0 <= r < ROWS ==> !IsFull(Swept(a)[r])
  {
    KeptSize(a);
    KeptRows(a);
    var b := Swept(a);
    var k := FullCount(a);
    forall r | 0 <= r < ROWS
      ensures |b[r]| == COLS && !IsFull(b[r])
    {
      if r < k {
        assert b[r] == seq(COLS, _ => 0);
        assert b[r][0] == 0;
      } else {
        assert b[r] == Kept(a)[r - k];
      }
    }
  }

  /** Sweeping twice clears nothing more. */
  lemma SweepIdempotent(a: seq<seq<int>>)
    requires IsBoard(a) && LegalCells(a)
    ensures FullCount(Swept(a)) == 0 && Swept(Swept(a)) == Swept(a)
  {
    SweptBoard(a);
    NothingFull(Swept(a));
  }
}
