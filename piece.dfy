/**
 * The Piece class (back/Piece.js): a shape, a colour and a position
 * object that the constructor copies, so that a piece never shares its
 * position with a template or with the caller.
 */
module Piece {
  import opened Board

  /** A mutable `{x, y}` object. */
  class Position {
    var x: int
    var y: int

    constructor (x: int, y: int)
      ensures this.x == x && this.y == y
    {
      this.x := x;
      this.y := y;
    }
  }

  class Piece {
    /** The shape matrix; the engine replaces it, never edits it. */
    var shape: Shape
    const color: Color
    var position: Position

    /** The shape is one the engine can place and drop: rectangular, non-empty, with a 1. */
    ghost predicate Playable()
      reads this`shape
    {
      IsShape(shape) && HasBlock(shape)
    }

    /** new Piece(shape, color, position): shape and colour as given, the position copied. */
    constructor (shape: Shape, color: Color, position: Position)
      ensures this.shape == shape && this.color == color
      ensures fresh(this.position)
      ensures this.position.x == position.x && this.position.y == position.y
    {
      this.shape := shape;
      this.color := color;
      this.position := new Position(position.x, position.y);
    }

    /** Piece.createFromTemplate(template): a new piece with the template's fields. */
    static method CreateFromTemplate(t: Template) returns (p: Piece)
      ensures fresh(p) && fresh(p.position)
      ensures p.shape == t.shape && p.color == t.color
      ensures p.position.x == t.position.x && p.position.y == t.position.y
    {
      var position := new Position(t.position.x, t.position.y);
      p := new Piece(t.shape, t.color, position);
    }
  }

  /**
   * Changing the position object after handing it to the constructor does
   * not move the piece: it reports the position it was built with.
   */
  method ConstructorCopiesPosition(shape: Shape, color: Color, x: int, y: int, x': int, y': int)
    returns (pieceX: int, pieceY: int, argX: int, argY: int)
    ensures pieceX == x && pieceY == y
    ensures argX == x' && argY == y'
  {
    var position := new Position(x, y);
    var p := new Piece(shape, color, position);
    position.x, position.y := x', y';
    pieceX, pieceY := p.position.x, p.position.y;
    argX, argY := position.x, position.y;
  }

  /**
   * Two pieces made from one template do not share a position: moving the
   * first leaves the second where the template says.
   */
  method TemplatePiecesAreIndependent(t: Template, dx: int, dy: int)
    returns (firstX: int, firstY: int, secondX: int, secondY: int)
    ensures firstX == t.position.x + dx && firstY == t.position.y + dy
    ensures secondX == t.position.x && secondY == t.position.y
  {
    var first := Piece.CreateFromTemplate(t);
    var second := Piece.CreateFromTemplate(t);
    first.position.x := first.position.x + dx;
    first.position.y := first.position.y + dy;
    firstX, firstY := first.position.x, first.position.y;
    secondX, secondY := second.position.x, second.position.y;
  }
}
