/**
 * The collision check Game.isValidPlacement (back/Game.js).
 *
 * The check does not look at every 1 of the shape: for 'down' it tests the
 * lowest 1 of each shape column, for 'left' the first 1 of each shape row
 * and for 'right' the last 1 of each shape row. The lemmas at the end show
 * why this suffices in play: when the piece itself is drawn on the grid and
 * moves one step, the cells behind its leading edge are its own cells.
 */
module Placement {
  import opened Board

  /** The `direction` argument; `Other` stands for any other string. */
  datatype Direction = Down | Left | Right | Other

  /** A non-empty grid whose rows all have the first row's length. */
  predicate IsRect(g: Grid) {
    |g| > 0 && forall r :: 0 <= r < |g| ==> |g[r]| == |g[0]|
  }

  /** `lowestPoints[col]` after the scan of rows 0 .. n-1: the last of them with a 1 in `col`, or -1. */
  function Lowest(s: Shape, col: int, n: int): (row: int)
    requires IsShape(s) && 0 <= col < |s[0]| && 0 <= n <= |s|
    ensures -1 <= row < n
  {
    if n == 0 then -1 else if s[n - 1][col] == 1 then n - 1 else Lowest(s, col, n - 1)
  }

  /** `leftmostPoints[row]`: the first column at or after `from` with a 1, or -1. */
  function Leftmost(s: Shape, row: int, from: int): (col: int)
    requires 0 <= row < |s| && 0 <= from <= |s[row]|
    ensures col == -1 || from <= col < |s[row]|
    decreases |s[row]| - from
  {
    if from == |s[row]| then -1 else if s[row][from] == 1 then from else Leftmost(s, row, from + 1)
  }

  /** `rightmostPoints[row]`: scanning columns n-1 down to 0, the first with a 1, or -1. */
  function Rightmost(s: Shape, row: int, n: int): (col: int)
    requires 0 <= row < |s| && 0 <= n <= |s[row]|
    ensures -1 <= col < n
  {
    if n == 0 then -1 else if s[row][n - 1] == 1 then n - 1 else Rightmost(s, row, n - 1)
  }

  /** The test of the 'down' and 'left' branches: outside the grid, or on a filled cell. */
  predicate Collides(g: Grid, gx: int, gy: int)
    requires |g| > 0
  {
    gy >= |g| || gx >= |g[0]| || gx < 0 || gy < 0 || (gx < |g[gy]| && g[gy][gx].filled)
  }

  /**
   * The test of the 'right' branch, which has no `gridX < 0` comparison:
   * a negative column reads no cell and so does not collide.
   */
  predicate CollidesRight(g: Grid, gx: int, gy: int)
    requires |g| > 0
  {
    gx >= |g[0]| || gy < 0 || gy >= |g| || (0 <= gx < |g[gy]| && g[gy][gx].filled)
  }

  /** isValidPlacement(grid, shape, {x, y}, direction). */
  predicate IsValidPlacement(g: Grid, s: Shape, x: int, y: int, dir: Direction)
    requires |g| > 0 && IsShape(s)
  {
    match dir
    case Down =>
      forall col :: 0 <= col < |s[0]| ==>
        Lowest(s, col, |s|) == -1 || !Collides(g, x + col, y + Lowest(s, col, |s|))
    case Left =>
      forall row :: 0 <= row < |s| ==>
        Leftmost(s, row, 0) == -1 || !Collides(g, x + Leftmost(s, row, 0), y + row)
    case Right =>
      forall row :: 0 <= row < |s| ==>
        Rightmost(s, row, |s[row]|) == -1 || !CollidesRight(g, x + Rightmost(s, row, |s[row]|), y + row)
    case Other => true
  }

  // ---------------------------------------------------------------------
  // Reference definitions

  /** Grid cell (gx, gy) exists and is not filled. */
  predicate Free(g: Grid, gx: int, gy: int)
    requires IsRect(g)
  {
    0 <= gy < |g| && 0 <= gx < |g[0]| && !g[gy][gx].filled
  }

  /** (row, col) holds the lowest 1 of its shape column. */
  predicate IsLowest(s: Shape, row: int, col: int)
    requires IsShape(s) && 0 <= row < |s| && 0 <= col < |s[0]|
  {
    s[row][col] == 1 && forall r :: row < r < |s| ==> s[r][col] == 0
  }

  /** (row, col) holds the first 1 of its shape row. */
  predicate IsLeftmost(s: Shape, row: int, col: int)
    requires 0 <= row < |s| && 0 <= col < |s[row]|
  {
    s[row][col] == 1 && forall c :: 0 <= c < col ==> s[row][c] == 0
  }

  /** (row, col) holds the last 1 of its shape row. */
  predicate IsRightmost(s: Shape, row: int, col: int)
    requires 0 <= row < |s| && 0 <= col < |s[row]|
  {
    s[row][col] == 1 && forall c :: col < c < |s[row]| ==> s[row][c] == 0
  }

  /** Every 1 of the shape lands on a free grid cell: the full collision check. */
  predicate Fits(g: Grid, s: Shape, x: int, y: int)
    requires IsRect(g)
  {
    forall row, col :: 0 <= row < |s| && 0 <= col < |s[row]| && s[row][col] == 1 ==>
      Free(g, x + col, y + row)
  }

  /** No shape column has a 0 between two 1s. */
  predicate ColumnsContiguous(s: Shape)
    requires IsShape(s)
  {
    forall r1, r, r2, c :: 0 <= r1 < r < r2 < |s| && 0 <= c < |s[0]| && s[r1][c] == 1 && s[r2][c] == 1 ==>
      s[r][c] == 1
  }

  /** No shape row has a 0 between two 1s. */
  predicate RowsContiguous(s: Shape)
    requires IsShape(s)
  {
    forall r, c1, c, c2 :: 0 <= r < |s| && 0 <= c1 < c < c2 < |s[r]| && s[r][c1] == 1 && s[r][c2] == 1 ==>
      s[r][c] == 1
  }

  // ---------------------------------------------------------------------
  // What the scans compute

  lemma {:induction false} LowestIsLowest(s: Shape, col: int, n: int)
    requires IsShape(s) && 0 <= col < |s[0]| && 0 <= n <= |s|
    ensures var row := Lowest(s, col, n);
      && (row == -1 <==> forall r :: 0 <= r < n ==> s[r][col] == 0)
      && (row != -1 ==> s[row][col] == 1 && forall r :: row < r < n ==> s[r][col] == 0)
  {
    if n > 0 && s[n - 1][col] != 1 {
      LowestIsLowest(s, col, n - 1);
    }
  }

  lemma {:induction false} LeftmostIsLeftmost(s: Shape, row: int, from: int)
    requires 0 <= row < |s| && 0 <= from <= |s[row]|
    ensures var col := Leftmost(s, row, from);
      && (col == -1 <==> forall c :: from <= c < |s[row]| ==> s[row][c] == 0)
      && (col != -1 ==> s[row][col] == 1 && forall c :: from <= c < col ==> s[row][c] == 0)
    decreases |s[row]| - from
  {
    if from < |s[row]| && s[row][from] != 1 {
      LeftmostIsLeftmost(s, row, from + 1);
    }
  }

  lemma {:induction false} RightmostIsRightmost(s: Shape, row: int, n: int)
    requires 0 <= row < |s| && 0 <= n <= |s[row]|
    ensures var col := Rightmost(s, row, n);
      && (col == -1 <==> forall c :: 0 <= c < n ==> s[row][c] == 0)
      && (col != -1 ==> s[row][col] == 1 && forall c :: col < c < n ==> s[row][c] == 0)
  {
    if n > 0 && s[row][n - 1] != 1 {
      RightmostIsRightmost(s, row, n - 1);
    }
  }

  /**
   * 'down' is false exactly when the lowest 1 of some shape column lands
   * outside the grid or on a filled cell.
   */
  lemma DownCheckTestsLowestCells(g: Grid, s: Shape, x: int, y: int)
    requires IsRect(g) && IsShape(s)
    ensures IsValidPlacement(g, s, x, y, Down) <==>
      forall row, col :: 0 <= row < |s| && 0 <= col < |s[0]| && IsLowest(s, row, col) ==>
        Free(g, x + col, y + row)
  {
    forall col | 0 <= col < |s[0]| {
      LowestIsLowest(s, col, |s|);
    }
    if IsValidPlacement(g, s, x, y, Down) {
      forall row, col | 0 <= row < |s| && 0 <= col < |s[0]| && IsLowest(s, row, col)
        ensures Free(g, x + col, y + row)
      {
        var low := Lowest(s, col, |s|);
        assert low != -1;
        assert low == row;
      }
    } else {
      var col :| 0 <= col < |s[0]| && Lowest(s, col, |s|) != -1 &&
        Collides(g, x + col, y + Lowest(s, col, |s|));
      var row := Lowest(s, col, |s|);
      assert IsLowest(s, row, col) && !Free(g, x + col, y + row);
    }
  }

  /**
   * 'left' is false exactly when the first 1 of some shape row lands
   * outside the grid or on a filled cell.
   */
  lemma LeftCheckTestsLeftmostCells(g: Grid, s: Shape, x: int, y: int)
    requires IsRect(g) && IsShape(s)
    ensures IsValidPlacement(g, s, x, y, Left) <==>
      forall row, col :: 0 <= row < |s| && 0 <= col < |s[row]| && IsLeftmost(s, row, col) ==>
        Free(g, x + col, y + row)
  {
    forall row | 0 <= row < |s| {
      LeftmostIsLeftmost(s, row, 0);
    }
    if IsValidPlacement(g, s, x, y, Left) {
      forall row, col | 0 <= row < |s| && 0 <= col < |s[row]| && IsLeftmost(s, row, col)
        ensures Free(g, x + col, y + row)
      {
        var left := Leftmost(s, row, 0);
        assert left != -1;
        assert left == col;
      }
    } else {
      var row :| 0 <= row < |s| && Leftmost(s, row, 0) != -1 &&
        Collides(g, x + Leftmost(s, row, 0), y + row);
      var col := Leftmost(s, row, 0);
      assert IsLeftmost(s, row, col) && !Free(g, x + col, y + row);
    }
  }

  /**
   * 'right' is false exactly when the last 1 of some shape row lands
   * outside the grid or on a filled cell, except that a cell left of
   * column 0 (inside the grid's rows) is never reported.
   */
  lemma RightCheckTestsRightmostCells(g: Grid, s: Shape, x: int, y: int)
    requires IsRect(g) && IsShape(s)
    ensures IsValidPlacement(g, s, x, y, Right) <==>
      forall row, col :: 0 <= row < |s| && 0 <= col < |s[row]| && IsRightmost(s, row, col) ==>
        Free(g, x + col, y + row) || (x + col < 0 && 0 <= y + row < |g|)
  {
    forall row | 0 <= row < |s| {
      RightmostIsRightmost(s, row, |s[row]|);
    }
    if IsValidPlacement(g, s, x, y, Right) {
      forall row, col | 0 <= row < |s| && 0 <= col < |s[row]| && IsRightmost(s, row, col)
        ensures Free(g, x + col, y + row) || (x + col < 0 && 0 <= y + row < |g|)
      {
        var right := Rightmost(s, row, |s[row]|);
        assert right != -1;
        assert right == col;
      }
    } else {
      var row :| 0 <= row < |s| && Rightmost(s, row, |s[row]|) != -1 &&
        CollidesRight(g, x + Rightmost(s, row, |s[row]|), y + row);
      var col := Rightmost(s, row, |s[row]|);
      assert IsRightmost(s, row, col);
      assert !(Free(g, x + col, y + row) || (x + col < 0 && 0 <= y + row < |g|));
    }
  }

  /** A valid 'down' placement of a shape with a block starts above the bottom row. */
  lemma ValidDownIsAboveBottom(g: Grid, s: Shape, x: int, y: int)
    requires IsRect(g) && IsShape(s) && HasBlock(s)
    requires IsValidPlacement(g, s, x, y, Down)
    ensures y < |g|
  {
    var row, col :| 0 <= row < |s| && 0 <= col < |s[row]| && s[row][col] == 1;
    LowestIsLowest(s, col, |s|);
    var low := Lowest(s, col, |s|);
    assert low != -1;
    assert !Collides(g, x + col, y + low);
  }

  // ---------------------------------------------------------------------
  // The leading-edge check is exact for a drawn piece moving one step

  /**
   * `g` is `base` with the shape drawn at (x, y): same dimensions, and a
   * cell is free on `g` exactly when it is free on `base` and not under a 1.
   */
  ghost predicate DrawnOver(g: Grid, base: Grid, s: Shape, x: int, y: int) {
    && IsRect(g) && IsRect(base) && |g| == |base| && |g[0]| == |base[0]|
    && forall gx, gy :: Free(g, gx, gy) == (Free(base, gx, gy) && !Covers(s, x, y, gy, gx))
  }

  /** Drawing a piece keeps the grid's dimensions and frees no cell. */
  lemma StampDrawsOver(base: Grid, s: Shape, color: Color, x: int, y: int)
    requires IsRect(base)
    ensures DrawnOver(Stamp(base, s, color, x, y), base, s, x, y)
  {
  }

  /**
   * When a piece with gap-free columns is drawn at (x, y) over a stack
   * `base` it fits on (as Stamp draws it, by StampDrawsOver), the 'down'
   * check at (x, y + 1) on the drawn grid succeeds exactly when every 1 of
   * the shape lands on a free cell of the stack one row lower.
   */
  lemma DownCheckOnDrawnPiece(g: Grid, base: Grid, s: Shape, x: int, y: int)
    requires DrawnOver(g, base, s, x, y) && IsShape(s) && ColumnsContiguous(s) && Fits(base, s, x, y)
    ensures IsValidPlacement(g, s, x, y + 1, Down) <==> Fits(base, s, x, y + 1)
  {
    DownCheckTestsLowestCells(g, s, x, y + 1);
    if IsValidPlacement(g, s, x, y + 1, Down) {
      DownDrawnComplete(g, base, s, x, y);
    }
    if Fits(base, s, x, y + 1) {
      DownDrawnSound(g, base, s, x, y);
    }
  }

  lemma DownDrawnComplete(g: Grid, base: Grid, s: Shape, x: int, y: int)
    requires DrawnOver(g, base, s, x, y) && IsShape(s) && ColumnsContiguous(s) && Fits(base, s, x, y)
    requires forall row, col :: 0 <= row < |s| && 0 <= col < |s[0]| && IsLowest(s, row, col) ==>
      Free(g, x + col, y + 1 + row)
    ensures Fits(base, s, x, y + 1)
  {
    forall row, col | 0 <= row < |s| && 0 <= col < |s[row]| && s[row][col] == 1
      ensures Free(base, x + col, y + 1 + row)
    {
      LowestIsLowest(s, col, |s|);
      var low := Lowest(s, col, |s|);
      if row == low {
        assert IsLowest(s, row, col);
        assert Free(g, x + col, y + 1 + row);
      } else {
        assert s[row + 1][col] == 1 by {
          if row + 1 < low { assert s[low][col] == 1; }
        }
        assert Free(base, x + col, y + (row + 1));
      }
    }
  }

  lemma DownDrawnSound(g: Grid, base: Grid, s: Shape, x: int, y: int)
    requires DrawnOver(g, base, s, x, y) && IsShape(s) && Fits(base, s, x, y + 1)
    ensures forall row, col :: 0 <= row < |s| && 0 <= col < |s[0]| && IsLowest(s, row, col) ==>
      Free(g, x + col, y + 1 + row)
  {
    forall row, col | 0 <= row < |s| && 0 <= col < |s[0]| && IsLowest(s, row, col)
      ensures Free(g, x + col, y + 1 + row)
    {
      assert Free(base, x + col, y + 1 + row);
      assert !Covers(s, x, y, y + 1 + row, x + col);
    }
  }

  /**
   * The same for 'left' and a shape with gap-free rows: the check at
   * (x - 1, y) on the drawn grid is the full check one column left.
   */
  lemma LeftCheckOnDrawnPiece(g: Grid, base: Grid, s: Shape, x: int, y: int)
    requires DrawnOver(g, base, s, x, y) && IsShape(s) && RowsContiguous(s) && Fits(base, s, x, y)
    ensures IsValidPlacement(g, s, x - 1, y, Left) <==> Fits(base, s, x - 1, y)
  {
    LeftCheckTestsLeftmostCells(g, s, x - 1, y);
    if IsValidPlacement(g, s, x - 1, y, Left) {
      LeftDrawnComplete(g, base, s, x, y);
    } else {
      var row, col :| 0 <= row < |s| && 0 <= col < |s[row]| && IsLeftmost(s, row, col) &&
        !Free(g, x - 1 + col, y + row);
      assert !Covers(s, x, y, y + row, x - 1 + col);
      assert !Free(base, x - 1 + col, y + row);
    }
  }

  lemma LeftDrawnComplete(g: Grid, base: Grid, s: Shape, x: int, y: int)
    requires DrawnOver(g, base, s, x, y) && IsShape(s) && RowsContiguous(s) && Fits(base, s, x, y)
    requires forall row, col :: 0 <= row < |s| && 0 <= col < |s[row]| && IsLeftmost(s, row, col) ==>
      Free(g, x - 1 + col, y + row)
    ensures Fits(base, s, x - 1, y)
  {
    forall row, col | 0 <= row < |s| && 0 <= col < |s[row]| && s[row][col] == 1
      ensures Free(base, x - 1 + col, y + row)
    {
      LeftmostIsLeftmost(s, row, 0);
      var left := Leftmost(s, row, 0);
      if col == left {
        assert IsLeftmost(s, row, col);
        assert Free(g, x - 1 + col, y + row);
      } else {
        assert s[row][col - 1] == 1 by {
          if left < col - 1 { assert s[row][left] == 1; }
        }
        assert Free(base, x + (col - 1), y + row);
      }
    }
  }

  /**
   * The same for 'right': on a drawn piece that fits, the missing
   * `gridX < 0` comparison cannot matter, and the check at (x + 1, y) is
   * the full check one column right.
   */
  lemma RightCheckOnDrawnPiece(g: Grid, base: Grid, s: Shape, x: int, y: int)
    requires DrawnOver(g, base, s, x, y) && IsShape(s) && RowsContiguous(s) && Fits(base, s, x, y)
    ensures IsValidPlacement(g, s, x + 1, y, Right) <==> Fits(base, s, x + 1, y)
  {
    RightCheckTestsRightmostCells(g, s, x + 1, y);
    if IsValidPlacement(g, s, x + 1, y, Right) {
      RightDrawnComplete(g, base, s, x, y);
    } else {
      var row, col :| 0 <= row < |s| && 0 <= col < |s[row]| && IsRightmost(s, row, col) &&
        !(Free(g, x + 1 + col, y + row) || (x + 1 + col < 0 && 0 <= y + row < |g|));
      assert !Covers(s, x, y, y + row, x + 1 + col);
      assert !Free(base, x + 1 + col, y + row);
    }
  }

  lemma RightDrawnComplete(g: Grid, base: Grid, s: Shape, x: int, y: int)
    requires DrawnOver(g, base, s, x, y) && IsShape(s) && RowsContiguous(s) && Fits(base, s, x, y)
    requires forall row, col :: 0 <= row < |s| && 0 <= col < |s[row]| && IsRightmost(s, row, col) ==>
      Free(g, x + 1 + col, y + row) || (x + 1 + col < 0 && 0 <= y + row < |g|)
    ensures Fits(base, s, x + 1, y)
  {
    forall row, col | 0 <= row < |s| && 0 <= col < |s[row]| && s[row][col] == 1
      ensures Free(base, x + 1 + col, y + row)
    {
      RightmostIsRightmost(s, row, |s[row]|);
      var right := Rightmost(s, row, |s[row]|);
      if col == right {
        assert IsRightmost(s, row, col);
        assert Free(base, x + col, y + row);
        assert !Covers(s, x, y, y + row, x + 1 + col);
        assert Free(g, x + 1 + col, y + row);
      } else {
        assert s[row][col + 1] == 1 by {
          if col + 1 < right { assert s[row][right] == 1; }
        }
        assert Free(base, x + (col + 1), y + row);
      }
    }
  }

  // ---------------------------------------------------------------------
  // Where the leading-edge check is weaker than the full check

  /**
   * On a grid where the piece is not drawn, the 'down' check misses a
   * filled cell under a 1 that is not the lowest of its column: a vertical
   * domino over a filled cell with a free cell below is accepted.
   */
  lemma DownCheckMissesUpperCells(g: Grid)
    requires IsRect(g) && |g| >= 2 && |g[0]| >= 1
    requires g[0][0].filled && !g[1][0].filled
    ensures IsValidPlacement(g, [[1], [1]], 0, 0, Down)
    ensures !Fits(g, [[1], [1]], 0, 0)
  {
    var s: Shape := [[1], [1]];
    assert Lowest(s, 0, 2) == 1;
    assert !Free(g, 0, 0);
  }

  /** The 'right' check accepts a one-cell shape left of the grid. */
  lemma RightCheckMissesLeftEdge(g: Grid, x: int)
    requires IsRect(g) && x < 0
    ensures IsValidPlacement(g, [[1]], x, 0, Right)
    ensures !Fits(g, [[1]], x, 0)
  {
    var s: Shape := [[1]];
    assert Rightmost(s, 0, 1) == 0;
    assert !Free(g, x, 0);
  }
}
