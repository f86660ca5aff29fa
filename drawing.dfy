/**
 * The two cell-writing loops that Game.updateGrid and Game.rotate run
 * over a piece's shape (back/Game.js): one lifts the piece off the grid,
 * the other paints it in its colour. Out-of-grid cells are skipped.
 */
module Drawing {
  import opened Board

  /** Cell (r, c) is under a 1 of `s` that the loops have visited before entry (dy, dx). */
  predicate Visited(s: Shape, x: int, y: int, r: int, c: int, dy: int, dx: int) {
    Covers(s, x, y, r, c) && (r - y < dy || (r - y == dy && c - x < dx))
  }

  /** The first loop of updateGrid: every in-grid cell under a 1 becomes empty and transparent. */
  method ErasePiece(g: Grid, s: Shape, x: int, y: int) returns (e: Grid)
    requires IsGrid(g)
    ensures e == Erase(g, s, x, y)
  {
    e := g;
    var dy := 0;
    while dy < |s|
      invariant 0 <= dy <= |s|
      invariant IsGrid(e)
      invariant forall r, c :: 0 <= r < Rows && 0 <= c < Cols ==>
        e[r][c] == if Visited(s, x, y, r, c, dy, 0) then Cleared(g[r][c]) else g[r][c]
    {
      var dx := 0;
      while dx < |s[dy]|
        invariant 0 <= dx <= |s[dy]|
        invariant IsGrid(e)
        invariant forall r, c :: 0 <= r < Rows && 0 <= c < Cols ==>
          e[r][c] == if Visited(s, x, y, r, c, dy, dx) then Cleared(g[r][c]) else g[r][c]
      {
        if s[dy][dx] == 1 {
          var gx, gy := dx + x, dy + y;
          if 0 <= gx < Cols && 0 <= gy < Rows {
            e := e[gy := e[gy][gx := Cleared(e[gy][gx])]];
          }
        }
        dx := dx + 1;
      }
      dy := dy + 1;
    }
    assert forall r, c :: 0 <= r < Rows && 0 <= c < Cols ==>
      (Visited(s, x, y, r, c, |s|, 0) <==> Covers(s, x, y, r, c));
    SameGrid(e, Erase(g, s, x, y));
  }

  /** The second loop of updateGrid: every in-grid cell under a 1 is painted `color`. */
  method DrawPiece(g: Grid, s: Shape, color: Color, x: int, y: int) returns (e: Grid)
    requires IsGrid(g)
    ensures e == Stamp(g, s, color, x, y)
  {
    e := g;
    var dy := 0;
    while dy < |s|
      invariant 0 <= dy <= |s|
      invariant IsGrid(e)
      invariant forall r, c :: 0 <= r < Rows && 0 <= c < Cols ==>
        e[r][c] == if Visited(s, x, y, r, c, dy, 0) then Painted(g[r][c], color) else g[r][c]
    {
      var dx := 0;
      while dx < |s[dy]|
        invariant 0 <= dx <= |s[dy]|
        invariant IsGrid(e)
        invariant forall r, c :: 0 <= r < Rows && 0 <= c < Cols ==>
          e[r][c] == if Visited(s, x, y, r, c, dy, dx) then Painted(g[r][c], color) else g[r][c]
      {
        if s[dy][dx] == 1 {
          var gx, gy := dx + x, dy + y;
          if 0 <= gx < Cols && 0 <= gy < Rows {
            e := e[gy := e[gy][gx := Painted(e[gy][gx], color)]];
          }
        }
        dx := dx + 1;
      }
      dy := dy + 1;
    }
    assert forall r, c :: 0 <= r < Rows && 0 <= c < Cols ==>
      (Visited(s, x, y, r, c, |s|, 0) <==> Covers(s, x, y, r, c));
    SameGrid(e, Stamp(g, s, color, x, y));
  }

  /** Two grids of the engine's size with the same cells are equal. */
  lemma SameGrid(a: Grid, b: Grid)
    requires IsGrid(a) && IsGrid(b)
    requires forall r, c :: 0 <= r < Rows && 0 <= c < Cols ==> a[r][c] == b[r][c]
    ensures a == b
  {
    forall r | 0 <= r < Rows ensures a[r] == b[r] {
    }
  }
}
