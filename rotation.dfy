/**
 * Quarter-turn rotation of a shape matrix (Game.rotateMatrix in back/Game.js).
 */
module Rotation {
  import opened Board

  /**
   * Rotates an r x c shape into a c x r shape; where each entry goes is
   * stated by ClockwiseEntry and CounterClockwiseEntry below.
   */
  function RotateMatrix(m: Shape, clockwise: bool): (out: Shape)
    requires IsShape(m)
    ensures IsShape(out)
    ensures |out| == |m[0]| && forall i :: 0 <= i < |out| ==> |out[i]| == |m|
  {
    var rows, cols := |m|, |m[0]|;
    if clockwise then
      seq(cols, i requires 0 <= i < cols => seq(rows, j requires 0 <= j < rows => m[rows - 1 - j][i]))
    else
      seq(cols, i requires 0 <= i < cols => seq(rows, j requires 0 <= j < rows => m[j][cols - 1 - i]))
  }

  /** Two matrices of the same dimensions with the same entries are equal. */
  lemma SameEntries(a: Shape, b: Shape)
    requires IsShape(a) && IsShape(b) && |a| == |b| && |a[0]| == |b[0]|
    requires forall i, j :: 0 <= i < |a| && 0 <= j < |a[0]| ==> a[i][j] == b[i][j]
    ensures a == b
  {
    forall i | 0 <= i < |a| ensures a[i] == b[i] {
      assert |a[i]| == |b[i]|;
    }
  }

  /** Clockwise, entry (row, col) of an r-row shape moves to (col, r-1-row). */
  lemma ClockwiseEntry(m: Shape, row: nat, col: nat)
    requires IsShape(m) && row < |m| && col < |m[0]|
    ensures RotateMatrix(m, true)[col][|m| - 1 - row] == m[row][col]
  {
  }

  /** Counter-clockwise, entry (row, col) of a c-column shape moves to (c-1-col, row). */
  lemma CounterClockwiseEntry(m: Shape, row: nat, col: nat)
    requires IsShape(m) && row < |m| && col < |m[0]|
    ensures RotateMatrix(m, false)[|m[0]| - 1 - col][row] == m[row][col]
  {
  }

  /** A counter-clockwise turn undoes a clockwise turn. */
  lemma CounterClockwiseUndoesClockwise(m: Shape)
    requires IsShape(m)
    ensures RotateMatrix(RotateMatrix(m, true), false) == m
  {
    var cw := RotateMatrix(m, true);
    var a := RotateMatrix(cw, false);
    forall i, j | 0 <= i < |m| && 0 <= j < |m[0]| ensures a[i][j] == m[i][j] {
      CounterClockwiseEntry(cw, j, |m| - 1 - i);
      ClockwiseEntry(m, i, j);
    }
    SameEntries(a, m);
  }

  /** A clockwise turn undoes a counter-clockwise turn. */
  lemma ClockwiseUndoesCounterClockwise(m: Shape)
    requires IsShape(m)
    ensures RotateMatrix(RotateMatrix(m, false), true) == m
  {
    var ccw := RotateMatrix(m, false);
    var b := RotateMatrix(ccw, true);
    forall i, j | 0 <= i < |m| && 0 <= j < |m[0]| ensures b[i][j] == m[i][j] {
      ClockwiseEntry(ccw, |m[0]| - 1 - j, i);
      CounterClockwiseEntry(m, i, j);
    }
    SameEntries(b, m);
  }

  /** Two clockwise turns turn the shape upside down. */
  lemma RotateTwice(m: Shape)
    requires IsShape(m)
    ensures var h := RotateMatrix(RotateMatrix(m, true), true);
      && IsShape(h) && |h| == |m| && |h[0]| == |m[0]|
      && forall i, j :: 0 <= i < |m| && 0 <= j < |m[0]| ==> h[i][j] == m[|m| - 1 - i][|m[0]| - 1 - j]
  {
    var q := RotateMatrix(m, true);
    var h := RotateMatrix(q, true);
    forall i, j | 0 <= i < |m| && 0 <= j < |m[0]|
      ensures h[i][j] == m[|m| - 1 - i][|m[0]| - 1 - j]
    {
      ClockwiseEntry(q, |q| - 1 - j, i);
      ClockwiseEntry(m, |m| - 1 - i, |m[0]| - 1 - j);
    }
  }

  /** Four clockwise turns give back the original shape. */
  lemma RotateFourTimes(m: Shape)
    requires IsShape(m)
    ensures RotateMatrix(RotateMatrix(RotateMatrix(RotateMatrix(m, true), true), true), true) == m
  {
    var h := RotateMatrix(RotateMatrix(m, true), true);
    RotateTwice(m);
    RotateTwice(h);
    var f := RotateMatrix(RotateMatrix(h, true), true);
    forall i, j | 0 <= i < |m| && 0 <= j < |m[0]| ensures f[i][j] == m[i][j] {
      var i', j' := |m| - 1 - i, |m[0]| - 1 - j;
      assert f[i][j] == h[i'][j'];
      assert h[i'][j'] == m[|m| - 1 - i'][|m[0]| - 1 - j'];
    }
    SameEntries(f, m);
  }

  /** Rotation keeps a shape's 1s: a shape with a block still has one. */
  lemma RotateKeepsBlock(m: Shape, clockwise: bool)
    requires IsShape(m) && HasBlock(m)
    ensures HasBlock(RotateMatrix(m, clockwise))
  {
    var out := RotateMatrix(m, clockwise);
    var row, col :| 0 <= row < |m| && 0 <= col < |m[row]| && m[row][col] == 1;
    if clockwise {
      ClockwiseEntry(m, row, col);
      assert out[col][|m| - 1 - row] == 1;
    } else {
      CounterClockwiseEntry(m, row, col);
      assert out[|m[0]| - 1 - col][row] == 1;
    }
  }
}
