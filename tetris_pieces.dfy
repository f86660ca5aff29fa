/**
 * The second copy of the piece table in back/tetris/pieces.js, with its
 * own rotation and a getRandomPiece that always hands out the I piece.
 */
module TetrisPieces {
  import opened Board
  import Pieces
  import Rotation

  /** FORMS, written out again in this file. */
  const Forms: seq<Pieces.Form> := [
    Pieces.Form([[1, 1, 1, 1]], "cyan"),
    Pieces.Form([[1, 1], [1, 1]], "yellow"),
    Pieces.Form([[0, 1, 0], [1, 1, 1]], "purple"),
    Pieces.Form([[1, 0, 0], [1, 1, 1]], "orange"),
    Pieces.Form([[0, 0, 1], [1, 1, 1]], "blue"),
    Pieces.Form([[0, 1, 1], [1, 1, 0]], "red"),
    Pieces.Form([[1, 1, 0], [0, 1, 1]], "green")
  ]

  /** The two tables are the same. */
  lemma SameForms()
    ensures Forms == Pieces.Forms
  {
  }

  /** The transpose `piece[0].map((val, index) => piece.map(row => row[index]))`. */
  function Transpose(p: Shape): seq<seq<Bit>>
    requires IsShape(p)
  {
    seq(|p[0]|, i requires 0 <= i < |p[0]| => seq(|p|, j requires 0 <= j < |p| => p[j][i]))
  }

  /**
   * rotate: the transpose with every row reversed. The reversal acts on the
   * freshly built transpose, so the argument is left as it was.
   */
  function Rotate(p: Shape): (out: Shape)
    requires IsShape(p)
    ensures IsShape(out)
    ensures |out| == |p[0]| && forall i :: 0 <= i < |out| ==> |out[i]| == |p|
  {
    var t := Transpose(p);
    seq(|t|, i requires 0 <= i < |t| => Pieces.Reverse(t[i]))
  }

  /** This rotation is the one of back/Pieces.js, hence the engine's clockwise turn. */
  lemma AgreesWithPieces(p: Shape)
    requires IsShape(p)
    ensures Rotate(p) == Pieces.Rotate(p)
    ensures Rotate(p) == Rotation.RotateMatrix(p, true)
  {
    var a, b := Rotate(p), Pieces.Rotate(p);
    forall i | 0 <= i < |a| ensures a[i] == b[i] {
      assert Transpose(p)[i] == Pieces.Column(p, i);
    }
    Pieces.RotateIsClockwise(p);
  }

  /** The T-like example: [[1,0],[1,1],[1,0]] turns into [[1,1,1],[0,1,0]]. */
  lemma RotateExample()
    ensures Rotate([[1, 0], [1, 1], [1, 0]]) == [[1, 1, 1], [0, 1, 0]]
  {
    var p: Shape := [[1, 0], [1, 1], [1, 0]];
    AgreesWithPieces(p);
    var out := Rotate(p);
    assert out[0] == [p[2][0], p[1][0], p[0][0]];
    assert out[1] == [p[2][1], p[1][1], p[0][1]];
  }

  /**
   * getRandomPiece: the draw is made and ignored; the result is always a
   * copy of the cyan I form at (5, 0), and the table is not changed.
   */
  function GetRandomPiece(randomIndex: nat): (t: Template)
    requires randomIndex < |Forms|
    ensures t.shape == [[1, 1, 1, 1]] && t.color == "cyan" && t.position == Point(5, 0)
    ensures Pieces.Form(t.shape, t.color) in Forms
  {
    var piece := Forms[0];
    Template(piece.shape, piece.color, Point(5, 0))
  }
}
