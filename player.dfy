/** The Player record of back/Player.js, whose fields the game updates in place. */
module Player {
  import Piece

  /**
   * The player's drop interval: `Stopped` once cleared (or before one is
   * set), otherwise the period in milliseconds of the running interval.
   */
  datatype Timer = Stopped | Every(ms: nat)

  class Player {
    /** Never reassigned after construction. */
    const username: string
    const socketId: string
    var isOwner: bool
    var currentPieceIndex: nat
    var currentPiece: Piece.Piece?
    var score: int
    var dropped: bool
    var fall: bool
    var updateInterval: Timer
    var dropInterval: int

    /** new Player(username, socketId): the given names and the default state. */
    constructor (username: string, socketId: string)
      ensures this.username == username && this.socketId == socketId
      ensures !isOwner && score == 0
      ensures currentPieceIndex == 0 && currentPiece == null
      ensures !dropped && !fall && updateInterval == Stopped && dropInterval == 0
    {
      this.username := username;
      this.socketId := socketId;
      isOwner := false;
      currentPieceIndex := 0;
      currentPiece := null;
      score := 0;
      dropped := false;
      fall := false;
      updateInterval := Stopped;
      dropInterval := 0;
    }
  }
}
