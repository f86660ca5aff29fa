/**
 * The spectrum sent to opponents (the grid computed in Game.checkSommet,
 * back/Game.js): each column filled gray from its topmost filled cell down.
 */
module Spectrum {
  import opened Board

  /** The column-walk flag `firstFilledFound` after visiting rows 0 .. row. */
  function {:induction false} FilledAtOrAbove(g: Grid, row: nat, col: nat): (found: bool)
    requires IsGrid(g) && row < Rows && col < Cols
    ensures found <==> exists r :: 0 <= r <= row && g[r][col].filled
  {
    if row == 0 then g[0][col].filled
    else FilledAtOrAbove(g, row - 1, col) || g[row][col].filled
  }

  /** The cell of the spectrum at (row, col). */
  function SpectrumCell(g: Grid, row: nat, col: nat): Cell
    requires IsGrid(g) && row < Rows && col < Cols
  {
    if FilledAtOrAbove(g, row, col) then Cell(true, "gray", g[row][col].indestructible) else EmptyCell
  }

  /** The spectrum grid: an empty grid with the cells below each column's top painted gray. */
  function Spectrum(g: Grid): (s: Grid)
    requires IsGrid(g)
    ensures IsGrid(s)
  {
    seq(Rows, r requires 0 <= r < Rows => seq(Cols, c requires 0 <= c < Cols => SpectrumCell(g, r, c)))
  }

  /**
   * In a column whose topmost filled cell is at row `top`, the spectrum is
   * filled gray from `top` to the bottom, keeping each cell's
   * indestructible flag, and empty above.
   */
  lemma ColumnFromTop(g: Grid, col: nat, top: nat)
    requires IsGrid(g) && col < Cols && top < Rows
    requires g[top][col].filled && forall r :: 0 <= r < top ==> !g[r][col].filled
    ensures forall r :: 0 <= r < Rows ==>
      Spectrum(g)[r][col] == if r >= top then Cell(true, "gray", g[r][col].indestructible) else EmptyCell
  {
    var s := Spectrum(g);
    forall r | 0 <= r < Rows
      ensures s[r][col] == if r >= top then Cell(true, "gray", g[r][col].indestructible) else EmptyCell
    {
      assert s[r][col] == SpectrumCell(g, r, col);
      if r >= top {
        assert 0 <= top <= r && g[top][col].filled;
      }
    }
  }

  /** A column with no filled cell stays empty. */
  lemma EmptyColumn(g: Grid, col: nat)
    requires IsGrid(g) && col < Cols
    requires forall r :: 0 <= r < Rows ==> !g[r][col].filled
    ensures forall r :: 0 <= r < Rows ==> Spectrum(g)[r][col] == EmptyCell
  {
    var s := Spectrum(g);
    forall r | 0 <= r < Rows ensures s[r][col] == EmptyCell {
      assert s[r][col] == SpectrumCell(g, r, col);
    }
  }

  /** Every filled cell of the grid is filled in the spectrum. */
  lemma CoversGrid(g: Grid)
    requires IsGrid(g)
    ensures forall r, c :: 0 <= r < Rows && 0 <= c < Cols && g[r][c].filled ==> Spectrum(g)[r][c].filled
  {
    var s: Grid := Spectrum(g);
    forall r: nat, c: nat | r < Rows && c < Cols && g[r][c].filled ensures s[r][c].filled {
      assert s[r][c] == SpectrumCell(g, r, c);
    }
  }
}
