/**
 * Cells, grids and piece shapes of the game engine (back/Game.js).
 *
 * A grid is a sequence of rows, each a sequence of cells; a shape is a
 * rectangular 0/1 matrix. Both are values: the engine always replaces a
 * cell by a new cell object and a shape by a new matrix, it never mutates
 * one in place, so sharing a cell or a shape between rows or pieces is
 * unobservable.
 */
module Board {

  type Color = string

  /** One grid cell `{filled, color, indestructible}`. */
  datatype Cell = Cell(filled: bool, color: Color, indestructible: bool)

  /** The engine's fixed grid size (`this.rows`, `this.cols`). */
  const Rows: nat := 20
  const Cols: nat := 10

  /** An entry of a shape matrix. */
  type Bit = b: int | 0 <= b <= 1

  type Shape = seq<seq<Bit>>

  type Grid = seq<seq<Cell>>

  /** A position `{x, y}` held by value: column and row of a shape's top-left entry. */
  datatype Point = Point(x: int, y: int)

  /** A piece description `{shape, color, position}` held by value. */
  datatype Template = Template(shape: Shape, color: Color, position: Point)

  /** The cell every fresh grid and every cleared row is made of. */
  const EmptyCell := Cell(false, "transparent", false)

  /** A non-empty rectangular shape; every shape the engine builds is one. */
  predicate IsShape(s: Shape) {
    |s| > 0 && |s[0]| > 0 && forall r :: 0 <= r < |s| ==> |s[r]| == |s[0]|
  }

  /** The shape has at least one 1. */
  predicate HasBlock(s: Shape) {
    exists r, c :: 0 <= r < |s| && 0 <= c < |s[r]| && s[r][c] == 1
  }

  /** A grid of the engine's size. */
  predicate IsGrid(g: Grid) {
    |g| == Rows && forall r :: 0 <= r < |g| ==> |g[r]| == Cols
  }

  /** A row of `Cols` empty cells. */
  function EmptyRow(): (row: seq<Cell>)
    ensures |row| == Cols
  {
    seq(Cols, _ => EmptyCell)
  }

  /** createEmptyGrid: a fresh 20 x 10 grid of empty, destructible cells. */
  function CreateEmptyGrid(): (g: Grid)
    ensures IsGrid(g)
    ensures forall r, c :: 0 <= r < |g| && 0 <= c < |g[r]| ==> g[r][c] == EmptyCell
  {
    seq(Rows, _ => EmptyRow())
  }

  /** Concatenation is associative (stated generically, so that the solver need not look inside the sequences); a proof step with no counterpart in the source. */
  lemma AppendAssoc<X>(a: seq<X>, b: seq<X>, c: seq<X>)
    ensures (a + b) + c == a + (b + c)
  {
  }

  /**
   * Grid cell (row r, column c) lies under a 1 of `s` when the shape's
   * top-left entry is at (x, y): the piece's footprint.
   */
  predicate Covers(s: Shape, x: int, y: int, r: int, c: int) {
    0 <= r - y < |s| && 0 <= c - x < |s[r - y]| && s[r - y][c - x] == 1
  }

  /** The cell left behind when a piece is lifted off it: empty, flag kept. */
  function Cleared(cell: Cell): Cell {
    Cell(false, "transparent", cell.indestructible)
  }

  /** The cell a piece of colour `color` leaves when drawn on it: flag kept. */
  function Painted(cell: Cell, color: Color): Cell {
    Cell(true, color, cell.indestructible)
  }

  /** The grid with the in-bounds footprint of `s` at (x, y) cleared. */
  function Erase(g: Grid, s: Shape, x: int, y: int): (e: Grid)
    ensures |e| == |g| && forall r :: 0 <= r < |g| ==> |e[r]| == |g[r]|
  {
    seq(|g|, r requires 0 <= r < |g| =>
      seq(|g[r]|, c requires 0 <= c < |g[r]| =>
        if Covers(s, x, y, r, c) then Cleared(g[r][c]) else g[r][c]))
  }

  /** The grid with the in-bounds footprint of `s` at (x, y) painted `color`. */
  function Stamp(g: Grid, s: Shape, color: Color, x: int, y: int): (e: Grid)
    ensures |e| == |g| && forall r :: 0 <= r < |g| ==> |e[r]| == |g[r]|
  {
    seq(|g|, r requires 0 <= r < |g| =>
      seq(|g[r]|, c requires 0 <= c < |g[r]| =>
        if Covers(s, x, y, r, c) then Painted(g[r][c], color) else g[r][c]))
  }

  /**
   * Redrawing a piece (erase at the old position, paint at the new one)
   * touches only the two footprints: new-footprint cells are filled with
   * the piece's colour, cells only in the old footprint become empty and
   * transparent, every other cell is unchanged, and no cell's
   * indestructible flag changes.
   */
  lemma RedrawFrame(g: Grid, s: Shape, color: Color, ox: int, oy: int, nx: int, ny: int)
    requires IsGrid(g)
    ensures var e := Stamp(Erase(g, s, ox, oy), s, color, nx, ny);
      && IsGrid(e)
      && forall r, c :: 0 <= r < Rows && 0 <= c < Cols ==>
        && e[r][c].indestructible == g[r][c].indestructible
        && (Covers(s, nx, ny, r, c) ==> e[r][c].filled && e[r][c].color == color)
        && (!Covers(s, nx, ny, r, c) && Covers(s, ox, oy, r, c) ==>
              !e[r][c].filled && e[r][c].color == "transparent")
        && (!Covers(s, nx, ny, r, c) && !Covers(s, ox, oy, r, c) ==> e[r][c] == g[r][c])
  {
  }

  /** Painting again after lifting a piece in place is the same as painting it. */
  lemma RedrawInPlace(g: Grid, s: Shape, color: Color, x: int, y: int)
    ensures Stamp(Erase(g, s, x, y), s, color, x, y) == Stamp(g, s, color, x, y)
  {
    var a, b := Stamp(Erase(g, s, x, y), s, color, x, y), Stamp(g, s, color, x, y);
    forall r | 0 <= r < |g| ensures a[r] == b[r] {
    }
  }

  /**
   * A piece drawn on a grid whose footprint cells are empty and transparent
   * can be lifted off again without a trace.
   */
  lemma EraseUndoesStamp(g: Grid, s: Shape, color: Color, x: int, y: int)
    requires forall r, c :: 0 <= r < |g| && 0 <= c < |g[r]| && Covers(s, x, y, r, c) ==>
      !g[r][c].filled && g[r][c].color == "transparent"
    ensures Erase(Stamp(g, s, color, x, y), s, x, y) == g
  {
    var a := Erase(Stamp(g, s, color, x, y), s, x, y);
    forall r | 0 <= r < |g| ensures a[r] == g[r] {
    }
  }
}
