/**
 * The seven piece forms and the clockwise rotation of back/Pieces.js.
 */
module Pieces {
  import opened Board
  import Rotation

  /** A form `{shape, color}` of the table. */
  datatype Form = Form(shape: Shape, color: Color)

  /** FORMS: I, O, T, J, L, S, Z. */
  const Forms: seq<Form> := [
    Form([[1, 1, 1, 1]], "cyan"),
    Form([[1, 1], [1, 1]], "yellow"),
    Form([[0, 1, 0], [1, 1, 1]], "purple"),
    Form([[1, 0, 0], [1, 1, 1]], "orange"),
    Form([[0, 0, 1], [1, 1, 1]], "blue"),
    Form([[0, 1, 1], [1, 1, 0]], "red"),
    Form([[1, 1, 0], [0, 1, 1]], "green")
  ]

  /** The table has seven well-formed forms, each with a block and its own colour. */
  lemma FormsWellFormed()
    ensures |Forms| == 7
    ensures forall i :: 0 <= i < |Forms| ==> IsShape(Forms[i].shape) && HasBlock(Forms[i].shape)
    ensures forall i, j :: 0 <= i < j < |Forms| ==> Forms[i].color != Forms[j].color
  {
    forall i | 0 <= i < |Forms| ensures HasBlock(Forms[i].shape) {
      assert Forms[i].shape[1 % |Forms[i].shape|][1] == 1;
    }
  }

  /** Array.prototype.reverse on a fresh array. */
  function {:induction false} Reverse<T>(s: seq<T>): (r: seq<T>)
    ensures |r| == |s|
    ensures forall i :: 0 <= i < |s| ==> r[i] == s[|s| - 1 - i]
  {
    if s == [] then [] else Reverse(s[1..]) + [s[0]]
  }

  /** Column `i` of `p`, top to bottom (`piece.map(row => row[index])`). */
  function Column(p: Shape, i: nat): seq<Bit>
    requires IsShape(p) && i < |p[0]|
  {
    seq(|p|, j requires 0 <= j < |p| => p[j][i])
  }

  /**
   * rotate: row i of the result is column i of `p` read bottom-up, so an
   * r x c shape becomes a c x r shape with `out[i][j] == p[r-1-j][i]`.
   */
  function Rotate(p: Shape): (out: Shape)
    requires IsShape(p)
    ensures IsShape(out)
    ensures |out| == |p[0]| && forall i :: 0 <= i < |out| ==> |out[i]| == |p|
    ensures forall i, j :: 0 <= i < |p[0]| && 0 <= j < |p| ==> out[i][j] == p[|p| - 1 - j][i]
  {
    seq(|p[0]|, i requires 0 <= i < |p[0]| => Reverse(Column(p, i)))
  }

  /** rotate is the engine's clockwise rotateMatrix. */
  lemma RotateIsClockwise(p: Shape)
    requires IsShape(p)
    ensures Rotate(p) == Rotation.RotateMatrix(p, true)
  {
    var a, b := Rotate(p), Rotation.RotateMatrix(p, true);
    forall i, j | 0 <= i < |a| && 0 <= j < |a[0]| ensures a[i][j] == b[i][j] {
      Rotation.ClockwiseEntry(p, |p| - 1 - j, i);
    }
    Rotation.SameEntries(a, b);
  }

  /** Four turns give back the original shape. */
  lemma RotateFourTimes(p: Shape)
    requires IsShape(p)
    ensures Rotate(Rotate(Rotate(Rotate(p)))) == p
  {
    var p1 := Rotate(p);
    var p2 := Rotate(p1);
    var p3 := Rotate(p2);
    RotateIsClockwise(p);
    RotateIsClockwise(p1);
    RotateIsClockwise(p2);
    RotateIsClockwise(p3);
    Rotation.RotateFourTimes(p);
  }

  /**
   * getRandomPiece with the random index `i` as a parameter: the shape and
   * colour of a form of the table, at the spawn position (5, 0).
   */
  function GetRandomPiece(i: nat): (t: Template)
    requires i < |Forms|
    ensures Form(t.shape, t.color) in Forms
    ensures IsShape(t.shape) && HasBlock(t.shape)
    ensures t.position == Point(5, 0)
  {
    FormsWellFormed();
    Template(Forms[i].shape, Forms[i].color, Point(5, 0))
  }
}
