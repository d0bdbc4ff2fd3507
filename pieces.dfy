/** The piece catalog (script.js `createPiece`, `PIECE_IDS`) and the matrix a
    new active piece starts from. */
module Pieces {
  import opened Matrix

  datatype Option<T> = None | Some(value: T)

  /** The seven piece types, as `randomPieceType` lists them. */
  const KINDS: string := "ILJOTSZ"

  /** Some cell is non-zero. */
  ghost predicate HasCell(s: seq<seq<int>>) {
    exists i, j :: 0 <= i < |s| && 0 <= j < |s[i]| && s[i][j] != 0
  }

  /** Every cell is empty (0) or a piece id (1 to 7). */
  ghost predicate LegalCells(s: seq<seq<int>>) {
    forall i, j :: 0 <= i < |s| && 0 <= j < |s[i]| ==> 0 <= s[i][j] <= 7
  }

  /** What every active piece matrix satisfies: square, 2 to 4 wide,
      legal cell values, and at least one occupied cell. */
  ghost predicate PieceShape(s: seq<seq<int>>) {
    Square(s) && 2 <= |s| <= 4 && LegalCells(s) && HasCell(s)
  }

  /** The number of non-zero cells in a row. */
  function RowOccupied(row: seq<int>): nat {
    if row == [] then 0 else (if row[0] != 0 then 1 else 0) + RowOccupied(row[1..])
  }

  /** The number of non-zero cells in a matrix. */
  function Occupied(s: seq<seq<int>>): nat {
    if s == [] then 0 else RowOccupied(s[0]) + Occupied(s[1..])
  }

  /** script.js `createPiece`: a fresh copy of the 0/1 template of `kind`, or
      `None` for a letter outside the catalog. I is 4 by 4, O is 2 by 2 and
      the other five are 3 by 3. */
  function CreatePiece(kind: char): (r: Option<seq<seq<int>>>)
    ensures r.Some? <==> kind in KINDS
    ensures r.Some? ==> Square(r.value)
    ensures r.Some? ==> |r.value| == (if kind == 'I' then 4 else if kind == 'O' then 2 else 3)
    ensures r.Some? ==> forall i, j :: 0 <= i < |r.value| && 0 <= j < |r.value| ==> 0 <= r.value[i][j] <= 1
  {
    match kind
    case 'T' => Some([[0, 1, 0], [1, 1, 1], [0, 0, 0]])
    case 'O' => Some([[1, 1], [1, 1]])
    case 'L' => Some([[0, 0, 1], [1, 1, 1], [0, 0, 0]])
    case 'J' => Some([[1, 0, 0], [1, 1, 1], [0, 0, 0]])
    case 'I' => Some([[0, 0, 0, 0], [1, 1, 1, 1], [0, 0, 0, 0], [0, 0, 0, 0]])
    case 'S' => Some([[0, 1, 1], [1, 1, 0], [0, 0, 0]])
    case 'Z' => Some([[1, 1, 0], [0, 1, 1], [0, 0, 0]])
    case _ => None
  }

  /** script.js `PIECE_IDS[type] || 1`: the cell value a piece is painted
      with; a letter outside the table falls back to 1. */
  function PieceId(kind: char): (id: int)
    ensures 1 <= id <= 7
    ensures kind !in KINDS ==> id == 1
  {
    match kind
    case 'I' => 1
    case 'O' => 2
    case 'T' => 3
    case 'S' => 4
    case 'Z' => 5
    case 'J' => 6
    case 'L' => 7
    case _ => 1
  }

  /** Distinct piece types get distinct ids. */
  lemma PieceIdsDistinct(k1: char, k2: char)
    requires k1 in KINDS && k2 in KINDS && k1 != k2
    ensures PieceId(k1) != PieceId(k2)
  {
  }

  /** The occupied cells of `s` rewritten to `id` (script.js:272-276). */
  function Painted(s: seq<seq<int>>, id: int): (p: seq<seq<int>>)
    ensures |p| == |s| && forall i :: 0 <= i < |s| ==> |p[i]| == |s[i]|
  {
    seq(|s|, i requires 0 <= i < |s| =>
      seq(|s[i]|, j requires 0 <= j < |s[i]| => if s[i][j] != 0 then id else s[i][j]))
  }

  /** The matrix a freshly spawned piece of type `kind` holds. */
  function Spawn(kind: char): seq<seq<int>>
    requires kind in KINDS
  {
    Painted(CreatePiece(kind).value, PieceId(kind))
  }

  /** The I template, the only 4 by 4 one, has four occupied cells. */
  lemma TemplateCellsI()
    ensures Occupied(CreatePiece('I').value) == 4
  {
    var s := CreatePiece('I').value;
    assert s[1..][1..][1..] == [[0, 0, 0, 0]];
  }

  /** Every template has exactly four occupied cells, one of them at row 1,
      column 1. */
  lemma TemplateCells(kind: char)
    requires kind in KINDS
    ensures Occupied(CreatePiece(kind).value) == 4
    ensures CreatePiece(kind).value[1][1] == 1
  {
    if kind == 'I' {
      TemplateCellsI();
    } else if kind == 'L' {
    } else if kind == 'J' {
    } else if kind == 'O' {
    } else if kind == 'T' {
    } else if kind == 'S' {
    } else {
    }
  }

  /** Painting a row with a non-zero id keeps its number of occupied cells. */
  lemma {:induction false} PaintedRowOccupied(row: seq<int>, id: int)
    requires id != 0
    ensures RowOccupied(seq(|row|, j requires 0 <= j < |row| => if row[j] != 0 then id else row[j]))
         == RowOccupied(row)
  {
    var p := seq(|row|, j requires 0 <= j < |row| => if row[j] != 0 then id else row[j]);
    if row != [] {
      var q := seq(|row[1..]|, j requires 0 <= j < |row[1..]| => if row[1..][j] != 0 then id else row[1..][j]);
      assert p[1..] == q;
      PaintedRowOccupied(row[1..], id);
    }
  }

  /** Painting with a non-zero id keeps the number of occupied cells. */
  lemma {:induction false} PaintedOccupied(s: seq<seq<int>>, id: int)
    requires id != 0
    ensures Occupied(Painted(s, id)) == Occupied(s)
  {
    if s != [] {
      assert Painted(s, id)[1..] == Painted(s[1..], id);
      PaintedRowOccupied(s[0], id);
      PaintedOccupied(s[1..], id);
    }
  }

  /** Every spawned piece is a legal piece matrix of four cells, all equal to
      the type's id. */
  lemma SpawnShape(kind: char)
    requires kind in KINDS
    ensures PieceShape(Spawn(kind))
    ensures Occupied(Spawn(kind)) == 4
    ensures forall i, j :: 0 <= i < |Spawn(kind)| && 0 <= j < |Spawn(kind)| ==>
      Spawn(kind)[i][j] == 0 || Spawn(kind)[i][j] == PieceId(kind)
  {
    var s := Spawn(kind);
    TemplateCells(kind);
    PaintedOccupied(CreatePiece(kind).value, PieceId(kind));
    assert s[1][1] != 0;
  }

  /** A quarter turn keeps a piece matrix a piece matrix. */
  lemma RotatedPiece(s: seq<seq<int>>, dir: int)
    requires PieceShape(s)
    ensures PieceShape(Rotated(s, dir))
  {
    var r := Rotated(s, dir);
    var n := |s|;
    var i, j :| 0 <= i < n && 0 <= j < n && s[i][j] != 0;
    if dir > 0 {
      assert r[j][n - 1 - i] == s[i][j];
    } else {
      assert r[n - 1 - j][i] == s[i][j];
    }
  }
}
