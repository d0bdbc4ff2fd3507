/** The active piece's shape matrix: a square two-dimensional array that is
    rotated in place (script.js `rotateMatrix`), the sequence of rows it
    holds, and the closed-form specification of a quarter turn. */
module Matrix {

  /** The array `m` holds the matrix `s`: as many rows, each as long as `m`
      is wide, and the same value in every cell. */
  ghost predicate Holds(m: array2<int>, s: seq<seq<int>>)
    reads m
  {
    m.Length0 == |s| && (forall i :: 0 <= i < |s| ==> |s[i]| == m.Length1) &&
    forall i, j :: 0 <= i < m.Length0 && 0 <= j < m.Length1 ==> m[i, j] == s[i][j]
  }

  /** Two matrices with the same shape and the same cells are equal. */
  lemma SameCells(s: seq<seq<int>>, t: seq<seq<int>>)
    requires |s| == |t| && forall i :: 0 <= i < |s| ==> |s[i]| == |t[i]|
    requires forall i, j :: 0 <= i < |s| && 0 <= j < |s[i]| ==> s[i][j] == t[i][j]
    ensures s == t
  {
    forall i | 0 <= i < |s|
      ensures s[i] == t[i]
    {
    }
  }

  /** Every row is as long as there are rows. */
  ghost predicate Square(s: seq<seq<int>>) {
    forall i :: 0 <= i < |s| ==> |s[i]| == |s|
  }

  /** A quarter turn of a square matrix: clockwise when `dir > 0`,
      counter-clockwise otherwise. */
  ghost function Rotated(s: seq<seq<int>>, dir: int): (r: seq<seq<int>>)
    requires Square(s)
    ensures |r| == |s| && Square(r)
  {
    var n := |s|;
    if dir > 0 then
      seq(n, i requires 0 <= i < n => seq(n, j requires 0 <= j < n => s[n - 1 - j][i]))
    else
      seq(n, i requires 0 <= i < n => seq(n, j requires 0 <= j < n => s[j][n - 1 - i]))
  }

  /** Turning one way and then the other restores the matrix. */
  lemma RotateInverse(s: seq<seq<int>>, dir: int)
    requires Square(s) && dir != 0
    ensures Rotated(Rotated(s, dir), -dir) == s
  {
    var b := Rotated(Rotated(s, dir), -dir);
    forall i | 0 <= i < |s|
      ensures b[i] == s[i]
    {
      assert forall j :: 0 <= j < |s| ==> b[i][j] == s[i][j];
    }
  }

  /** Three clockwise quarter turns make one counter-clockwise turn. */
  lemma ThreeTurns(s: seq<seq<int>>)
    requires Square(s)
    ensures Rotated(Rotated(Rotated(s, 1), 1), 1) == Rotated(s, -1)
  {
    var b := Rotated(Rotated(Rotated(s, 1), 1), 1);
    var c := Rotated(s, -1);
    forall i | 0 <= i < |s|
      ensures b[i] == c[i]
    {
      assert forall j :: 0 <= j < |s| ==> b[i][j] == c[i][j];
    }
  }

  /** Four clockwise quarter turns are the identity. */
  lemma FourTurns(s: seq<seq<int>>)
    requires Square(s)
    ensures Rotated(Rotated(Rotated(Rotated(s, 1), 1), 1), 1) == s
  {
    ThreeTurns(s);
    RotateInverse(s, -1);
  }

  /** The matrix mirrored in its main diagonal. */
  ghost function Transposed(s: seq<seq<int>>): (t: seq<seq<int>>)
    requires Square(s)
    ensures |t| == |s| && Square(t)
  {
    seq(|s|, i requires 0 <= i < |s| => seq(|s|, j requires 0 <= j < |s| => s[j][i]))
  }

  /** A row in reverse order. */
  ghost function Reversed(row: seq<int>): (r: seq<int>)
    ensures |r| == |row| && forall j :: 0 <= j < |row| ==> r[j] == row[|row| - 1 - j]
  {
    seq(|row|, j requires 0 <= j < |row| => row[|row| - 1 - j])
  }

  /** Every row reversed. */
  ghost function Mirrored(s: seq<seq<int>>): (t: seq<seq<int>>)
    ensures |t| == |s| && forall i :: 0 <= i < |s| ==> t[i] == Reversed(s[i])
  {
    seq(|s|, i requires 0 <= i < |s| => Reversed(s[i]))
  }

  /** The rows in reverse order. */
  ghost function Flipped(s: seq<seq<int>>): (t: seq<seq<int>>)
    ensures |t| == |s| && forall i :: 0 <= i < |s| ==> t[i] == s[|s| - 1 - i]
  {
    seq(|s|, i requires 0 <= i < |s| => s[|s| - 1 - i])
  }

  /** The two steps of script.js `rotateMatrix` make the quarter turn:
      transposing and then reversing each row turns clockwise, transposing
      and then reversing the row order turns counter-clockwise. */
  lemma RotatedSteps(s: seq<seq<int>>, dir: int)
    requires Square(s)
    ensures Rotated(s, dir) == if dir > 0 then Mirrored(Transposed(s)) else Flipped(Transposed(s))
  {
    var t := if dir > 0 then Mirrored(Transposed(s)) else Flipped(Transposed(s));
    SameCells(Rotated(s, dir), t);
  }

  /** Transposes a square array in place, swapping each cell below the
      diagonal with its mirror image (script.js:180-184). */
  method Transpose(m: array2<int>, ghost s: seq<seq<int>>)
    requires m.Length0 == m.Length1 && Holds(m, s)
    modifies m
    ensures Holds(m, Transposed(s))
  {
    var n := m.Length0;
    var y := 0;
    while y < n
      invariant 0 <= y <= n
      invariant forall i, j {:trigger m[i, j]} :: 0 <= i < n && 0 <= j < n ==>
        m[i, j] == if i < y && j < y then s[j][i] else s[i][j]
    {
      var x := 0;
      while x < y
        invariant 0 <= x <= y
        invariant forall i, j {:trigger m[i, j]} :: 0 <= i < n && 0 <= j < n ==>
          m[i, j] == if (i < y && j < y) || (i == y && j < x) || (j == y && i < x) then s[j][i] else s[i][j]
      {
        m[x, y], m[y, x] := m[y, x], m[x, y];
        x := x + 1;
      }
      y := y + 1;
    }
  }

  /** Reverses row `r` in place (`row.reverse()`). */
  method ReverseRow(m: array2<int>, ghost s: seq<seq<int>>, r: int)
    requires Holds(m, s) && 0 <= r < m.Length0
    modifies m
    ensures Holds(m, s[r := Reversed(s[r])])
  {
    var n := m.Length1;
    var k := 0;
    while k < n / 2
      invariant 0 <= k <= n / 2
      invariant forall i, j {:trigger m[i, j]} :: 0 <= i < m.Length0 && 0 <= j < n ==>
        m[i, j] == if i == r && (j < k || n - 1 - k < j) then s[r][n - 1 - j] else s[i][j]
    {
      m[r, k], m[r, n - 1 - k] := m[r, n - 1 - k], m[r, k];
      k := k + 1;
    }
  }

  /** Reverses every row in place (`matrix.forEach(row => row.reverse())`). */
  method ReverseEachRow(m: array2<int>, ghost s: seq<seq<int>>)
    requires Holds(m, s)
    modifies m
    ensures Holds(m, Mirrored(s))
  {
    ghost var t := s;
    var r := 0;
    while r < m.Length0
      invariant 0 <= r <= m.Length0
      invariant Holds(m, t) && |t| == |s|
      invariant forall i :: 0 <= i < |s| ==> t[i] == if i < r then Reversed(s[i]) else s[i]
    {
      ReverseRow(m, t, r);
      t := t[r := Reversed(t[r])];
      r := r + 1;
    }
    assert t == Mirrored(s);
  }

  /** Reverses the order of the rows in place (`matrix.reverse()`), swapping
      the cells of each pair of rows column by column. */
  method ReverseRowOrder(m: array2<int>, ghost s: seq<seq<int>>)
    requires Holds(m, s)
    modifies m
    ensures Holds(m, Flipped(s))
  {
    var n := m.Length0;
    var k := 0;
    while k < n / 2
      invariant 0 <= k <= n / 2
      invariant forall i, j {:trigger m[i, j]} :: 0 <= i < n && 0 <= j < m.Length1 ==>
        m[i, j] == if i < k || n - 1 - k < i then s[n - 1 - i][j] else s[i][j]
    {
      var c := 0;
      while c < m.Length1
        invariant 0 <= c <= m.Length1
        invariant forall i, j {:trigger m[i, j]} :: 0 <= i < n && 0 <= j < m.Length1 ==>
          m[i, j] == if i < k || n - 1 - k < i || ((i == k || i == n - 1 - k) && j < c)
                     then s[n - 1 - i][j] else s[i][j]
      {
        m[k, c], m[n - 1 - k, c] := m[n - 1 - k, c], m[k, c];
        c := c + 1;
      }
      k := k + 1;
    }
  }

  /** script.js `rotateMatrix`: transpose, then reverse each row (clockwise,
      `dir > 0`) or the order of the rows (otherwise). The array ends up
      holding the quarter turn `Rotated`. */
  method RotateMatrix(m: array2<int>, ghost s: seq<seq<int>>, dir: int)
    requires m.Length0 == m.Length1 && Holds(m, s)
    modifies m
    ensures Holds(m, Rotated(s, dir))
  {
    Transpose(m, s);
    if dir > 0 {
      ReverseEachRow(m, Transposed(s));
    } else {
      ReverseRowOrder(m, Transposed(s));
    }
    RotatedSteps(s, dir);
  }

  /** The multiset of all cell values, row by row. */
  ghost function Bag(s: seq<seq<int>>): multiset<int> {
    if s == [] then multiset{} else multiset(s[0]) + Bag(s[1..])
  }

  /** The cells of two stacked matrices are the cells of both. */
  lemma {:induction false} BagConcat(a: seq<seq<int>>, b: seq<seq<int>>)
    ensures Bag(a + b) == Bag(a) + Bag(b)
  {
    if a != [] {
      assert (a + b)[1..] == a[1..] + b;
      BagConcat(a[1..], b);
    } else {
      assert a + b == b;
    }
  }

  /** Reversing a row keeps its multiset of values. */
  lemma {:induction false} ReversedBag(row: seq<int>)
    ensures multiset(Reversed(row)) == multiset(row)
  {
    if row != [] {
      assert Reversed(row) == Reversed(row[1..]) + [row[0]];
      assert row == [row[0]] + row[1..];
      ReversedBag(row[1..]);
    }
  }

  /** Reversing every row keeps the multiset of cells. */
  lemma {:induction false} MirroredBag(s: seq<seq<int>>)
    ensures Bag(Mirrored(s)) == Bag(s)
  {
    if s != [] {
      assert Mirrored(s)[1..] == Mirrored(s[1..]);
      ReversedBag(s[0]);
      MirroredBag(s[1..]);
    }
  }

  /** Reversing the order of the rows keeps the multiset of cells. */
  lemma {:induction false} FlippedBag(s: seq<seq<int>>)
    ensures Bag(Flipped(s)) == Bag(s)
  {
    if s != [] {
      assert Flipped(s) == Flipped(s[1..]) + [s[0]];
      BagConcat(Flipped(s[1..]), [s[0]]);
      assert Bag([s[0]]) == multiset(s[0]);
      FlippedBag(s[1..]);
    }
  }

  /** How often `v` occurs among the first `cols` cells of a row. */
  ghost function RowCount(row: seq<int>, cols: int, v: int): nat
    requires 0 <= cols <= |row|
  {
    if cols == 0 then 0 else RowCount(row, cols - 1, v) + (if row[cols - 1] == v then 1 else 0)
  }

  /** The count is the multiplicity in the row's multiset. */
  lemma {:induction false} RowCountBag(row: seq<int>, cols: int, v: int)
    requires 0 <= cols <= |row|
    ensures multiset(row[..cols])[v] == RowCount(row, cols, v)
  {
    if cols > 0 {
      assert row[..cols] == row[..cols - 1] + [row[cols - 1]];
      RowCountBag(row, cols - 1, v);
    }
  }

  /** How often `v` occurs among the cells s[i][j] with i < rows and
      j < cols, counted row by row. */
  ghost function RowsCount(s: seq<seq<int>>, rows: int, cols: int, v: int): nat
    requires Square(s) && 0 <= rows <= |s| && 0 <= cols <= |s|
  {
    if rows == 0 then 0 else RowsCount(s, rows - 1, cols, v) + RowCount(s[rows - 1], cols, v)
  }

  /** How often `v` occurs among the cells s[i][j] with i < rows, of
      column j. */
  ghost function ColumnCount(s: seq<seq<int>>, j: int, rows: int, v: int): nat
    requires Square(s) && 0 <= j < |s| && 0 <= rows <= |s|
  {
    if rows == 0 then 0 else ColumnCount(s, j, rows - 1, v) + (if s[rows - 1][j] == v then 1 else 0)
  }

  /** The same count as `RowsCount`, taken column by column. */
  ghost function ColsCount(s: seq<seq<int>>, rows: int, cols: int, v: int): nat
    requires Square(s) && 0 <= rows <= |s| && 0 <= cols <= |s|
  {
    if cols == 0 then 0 else ColsCount(s, rows, cols - 1, v) + ColumnCount(s, cols - 1, rows, v)
  }

  /** Counting row by row over a prefix of the rows gives the multiplicity
      in their bag of cells. */
  lemma {:induction false} PrefixCount(s: seq<seq<int>>, rows: int, v: int)
    requires Square(s) && 0 <= rows <= |s|
    ensures Bag(s[..rows])[v] == RowsCount(s, rows, |s|, v)
  {
    if rows > 0 {
      assert s[..rows] == s[..rows - 1] + [s[rows - 1]];
      BagConcat(s[..rows - 1], [s[rows - 1]]);
      assert Bag([s[rows - 1]]) == multiset(s[rows - 1]);
      RowCountBag(s[rows - 1], |s|, v);
      assert s[rows - 1][..|s|] == s[rows - 1];
      PrefixCount(s, rows - 1, v);
    }
  }

  /** Counting over no rows column by column counts nothing. */
  lemma {:induction false} ColsCountEmpty(s: seq<seq<int>>, cols: int, v: int)
    requires Square(s) && 0 <= cols <= |s|
    ensures ColsCount(s, 0, cols, v) == 0
  {
    if cols > 0 {
      ColsCountEmpty(s, cols - 1, v);
    }
  }

  /** One more row, counted column by column, adds that row's count. */
  lemma {:induction false} ColsCountStep(s: seq<seq<int>>, rows: int, cols: int, v: int)
    requires Square(s) && 0 < rows <= |s| && 0 <= cols <= |s|
    ensures ColsCount(s, rows, cols, v) == ColsCount(s, rows - 1, cols, v) + RowCount(s[rows - 1], cols, v)
  {
    if cols > 0 {
      ColsCountStep(s, rows, cols - 1, v);
    }
  }

  /** Row by row and column by column count the same. */
  lemma {:induction false} RowsColsCount(s: seq<seq<int>>, rows: int, cols: int, v: int)
    requires Square(s) && 0 <= rows <= |s| && 0 <= cols <= |s|
    ensures RowsCount(s, rows, cols, v) == ColsCount(s, rows, cols, v)
  {
    if rows == 0 {
      ColsCountEmpty(s, cols, v);
    } else {
      RowsColsCount(s, rows - 1, cols, v);
      ColsCountStep(s, rows, cols, v);
    }
  }

  /** A row of the transpose counts like a column. */
  lemma {:induction false} TransposedRowCount(s: seq<seq<int>>, i: int, cols: int, v: int)
    requires Square(s) && 0 <= i < |s| && 0 <= cols <= |s|
    ensures RowCount(Transposed(s)[i], cols, v) == ColumnCount(s, i, cols, v)
  {
    if cols > 0 {
      TransposedRowCount(s, i, cols - 1, v);
    }
  }

  /** The rows of the transpose count like the columns of the matrix. */
  lemma {:induction false} TransposedRowsCount(s: seq<seq<int>>, rows: int, cols: int, v: int)
    requires Square(s) && 0 <= rows <= |s| && 0 <= cols <= |s|
    ensures RowsCount(Transposed(s), rows, cols, v) == ColsCount(s, cols, rows, v)
  {
    if rows > 0 {
      TransposedRowsCount(s, rows - 1, cols, v);
      TransposedRowCount(s, rows - 1, cols, v);
    }
  }

  /** Transposing keeps the multiset of cells. */
  lemma TransposedBag(s: seq<seq<int>>)
    requires Square(s)
    ensures Bag(Transposed(s)) == Bag(s)
  {
    var t := Transposed(s);
    assert s[..|s|] == s && t[..|t|] == t;
    forall v
      ensures Bag(t)[v] == Bag(s)[v]
    {
      PrefixCount(s, |s|, v);
      PrefixCount(t, |t|, v);
      TransposedRowsCount(s, |s|, |s|, v);
      RowsColsCount(s, |s|, |s|, v);
    }
  }

  /** A quarter turn neither gains nor loses a cell value. */
  lemma RotatedBag(s: seq<seq<int>>, dir: int)
    requires Square(s)
    ensures Bag(Rotated(s, dir)) == Bag(s)
  {
    RotatedSteps(s, dir);
    TransposedBag(s);
    if dir > 0 {
      MirroredBag(Transposed(s));
    } else {
      FlippedBag(Transposed(s));
    }
  }
}
