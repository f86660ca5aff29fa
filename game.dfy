/**
 * The game room engine, class Game of back/Game.js: the roster, the
 * shared piece queue, one grid and one falling piece per socket id, and
 * the pending penalty counts.
 *
 * Grids are values stored in `grids`; where the source passes a grid
 * object around and mutates it, the model passes the socket id it is
 * stored under and writes the new grid back. Socket.io emissions, console
 * output and real timers are not modelled (see the README); `onDelete`
 * is modelled by counting its calls.
 */
module Game {
  import opened Board
  import Rotation
  import opened Placement
  import LineClear
  import Penalty
  import Spectrum
  import Bag
  import Drawing
  import opened Piece
  import opened Player
  import opened Roster

  /**
   * A piece of shape `s` in column `x` dropped from row `y` comes to rest at
   * row `landingY`: the down check passes at every row below `y` down to
   * `landingY` and fails one row lower.
   */
  predicate LandsAt(g: Grid, s: Shape, x: int, y: int, landingY: int)
    requires |g| > 0 && IsShape(s)
  {
    && y <= landingY
    && (forall y' :: y < y' <= landingY ==> IsValidPlacement(g, s, x, y', Down))
    && !IsValidPlacement(g, s, x, landingY + 1, Down)
  }

  /**
   * The hard-drop loop of dropPiece: move `pos` down one row at a time
   * while the down check passes one row lower. It stops above the
   * grid's bottom edge.
   */
  method SlideDown(g: Grid, s: Shape, pos: Position)
    requires IsGrid(g) && IsShape(s) && HasBlock(s)
    modifies pos
    ensures pos.x == old(pos.x) && LandsAt(g, s, pos.x, old(pos.y), pos.y)
  {
    while IsValidPlacement(g, s, pos.x, pos.y + 1, Down)
      invariant pos.x == old(pos.x) && old(pos.y) <= pos.y
      invariant forall y :: old(pos.y) < y <= pos.y ==> IsValidPlacement(g, s, pos.x, y, Down)
      decreases |g| - pos.y
    {
      ValidDownIsAboveBottom(g, s, pos.x, pos.y + 1);
      pos.y := pos.y + 1;
    }
  }

  /** One entry of getRoomData's `players`. */
  datatype PlayerInfo = PlayerInfo(name: string, socketId: string, isOwner: bool)

  /** getRoomData's result. */
  datatype RoomData = RoomData(roomName: string, players: seq<PlayerInfo>, owner: string)

  /** The size generatePieces defaults to and getNextPiece refills to. */
  const QueueSize: nat := 1000

  /**
   * getNextPiece can deal from `queue` to a player at `cursor`: the cursor
   * is inside the queue, or the refill to 1000 pieces (with enough oracle
   * values for it) reaches past it. Otherwise the source reads past the
   * queue's end and crashes.
   */
  predicate CanDeal(cursor: nat, queue: seq<Template>, oracle: seq<nat>) {
    cursor < |queue| || (cursor < QueueSize && QueueSize - |queue| <= |oracle|)
  }

  /** The pieces getNextPiece appends before dealing. */
  function Refill(cursor: nat, queue: seq<Template>, oracle: seq<nat>): seq<Template>
    requires CanDeal(cursor, queue, oracle)
  {
    if cursor < |queue| then [] else Bag.Fill(Bag.Templates, QueueSize - |queue|, oracle)
  }

  /**
   * The inner loop of generatePieces: splice templates out of a fresh copy
   * of `full` at the oracle's indices and push them, until the bag is
   * empty or the queue holds `count` pieces.
   */
  method DealBag<X>(queue: seq<X>, count: int, full: seq<X>, o: seq<nat>)
    returns (dealt: seq<X>, drawn: nat)
    requires |queue| < count && count - |queue| <= |o|
    ensures drawn == if count - |queue| < |full| then count - |queue| else |full|
    ensures |dealt| == |queue| + drawn
    ensures dealt == queue + Bag.Drawn(full, drawn, o)
  {
    var bag := full;
    dealt, drawn := queue, 0;
    while |bag| > 0 && |dealt| < count
      invariant drawn <= |full| && drawn <= count - |queue|
      invariant |dealt| == |queue| + drawn
      invariant bag == Bag.Rest(full, drawn, o)
      invariant dealt == queue + Bag.Drawn(full, drawn, o)
      decreases |bag|
    {
      var i := o[drawn] % |bag|;
      Bag.DrawStep(full, drawn, o);
      AppendAssoc(queue, Bag.Drawn(full, drawn, o), [bag[i]]);
      dealt := dealt + [bag[i]];
      bag := Bag.Remove(bag, i);
      drawn := drawn + 1;
    }
  }

  /** The pieces of `used == 7 * bags` (whole bags) and one more bag of `drawn` draws, after `queue`. */
  lemma DealtBag<X>(queue: seq<X>, full: seq<X>, bags: nat, used: nat, drawn: nat, oracle: seq<nat>)
    requires |full| == 7 && used == 7 * bags && 0 < drawn <= 7 && used + drawn <= |oracle|
    ensures queue + Bag.Fill(full, used + drawn, oracle) ==
      (queue + Bag.Fill(full, used, oracle)) + Bag.Drawn(full, drawn, oracle[used..])
  {
    Bag.FillStep(full, bags, drawn, oracle);
    AppendAssoc(queue, Bag.Fill(full, used, oracle), Bag.Drawn(full, drawn, oracle[used..]));
  }

  /** The outer loop of generatePieces: one fresh bag of `full` after another until `count` pieces. */
  method Deal<X>(queue: seq<X>, count: int, full: seq<X>, oracle: seq<nat>) returns (q: seq<X>)
    requires |full| == 7 && count - |queue| <= |oracle|
    ensures q == queue + Bag.Fill(full, if count > |queue| then count - |queue| else 0, oracle)
  {
    q := queue;
    var used := 0;
    ghost var bags := 0;
    while |q| < count
      invariant |q| == |queue| + used && used <= |oracle|
      invariant |q| < count ==> used == 7 * bags
      invariant count > |queue| ==> |q| <= count
      invariant count <= |queue| ==> used == 0
      invariant q == queue + Bag.Fill(full, used, oracle)
      decreases count - |q|
    {
      var dealt, drawn := DealBag(q, count, full, oracle[used..]);
      DealtBag(queue, full, bags, used, drawn, oracle);
      assert dealt == queue + Bag.Fill(full, used + drawn, oracle);
      q := dealt;
      used := used + drawn;
      bags := bags + 1;
    }
  }

  /** After the refill the cursor is inside the queue. */
  lemma RefillReachesCursor(cursor: nat, queue: seq<Template>, oracle: seq<nat>)
    requires CanDeal(cursor, queue, oracle)
    ensures cursor < |queue + Refill(cursor, queue, oracle)|
    ensures |queue| <= cursor ==> |queue + Refill(cursor, queue, oracle)| == QueueSize
  {
  }

  /** The pending counts after `clearer` cleared `n` rows in a roster with socket ids `ids`. */
  function PendingAfterClear(pending: map<string, nat>, ids: seq<string>, clearer: string, n: nat): map<string, nat> {
    if n > 1 then Penalty.Queued(pending, ids, clearer, n - 1) else pending
  }

  /** A second update of the same key overrides the first; a map-algebra proof step with no counterpart in the source. */
  lemma UpdateTwice<K, V>(m: map<K, V>, k: K, a: V, b: V)
    ensures m[k := a][k := b] == m[k := b]
  {
  }

  /** Removing keys that are already gone changes nothing; a map-algebra proof step with no counterpart in the source. */
  lemma MinusAgain<K, V>(m: map<K, V>, a: set<K>, b: set<K>)
    ensures (m - a) - b == m - (a + b) == (m - a) - (a + b)
    ensures m - a == m - (a + {}) == (m - a) - (a + {})
  {
  }

  /** `piece` is a copy of template `t`: its shape, colour and spawn position. */
  predicate DealtPiece(piece: Piece, t: Template)
    reads piece`shape, piece`position, piece.position
  {
    && piece.shape == t.shape && piece.color == t.color
    && piece.position.x == t.position.x && piece.position.y == t.position.y
  }

  /** Updating an overlay updates its top map; a map-algebra proof step with no counterpart in the source. */
  lemma OverlayStep<K, V>(m: map<K, V>, d: map<K, V>, k: K, v: V)
    ensures (m + d)[k := v] == m + d[k := v]
  {
  }

  /**
   * What startGame's loop has recorded after its first `i` players: `dealt`
   * holds a piece and `started` an empty grid for each of their socket ids
   * and for no id outside the roster, and `dealtAt` holds, for each id, the
   * cursor of the last of them with that id.
   */
  ghost predicate DealsRecorded<P>(ps: seq<Player>, i: nat, cursors: seq<nat>, started: map<string, Grid>,
                                   dealt: map<string, P>, dealtAt: map<string, nat>)
    requires i <= |ps| == |cursors|
  {
    && started.Keys == dealt.Keys == dealtAt.Keys
    && (forall id :: id in started ==> id in SocketIds(ps) && started[id] == CreateEmptyGrid())
    && (forall j :: 0 <= j < i ==> ps[j].socketId in dealt)
    && (forall j :: 0 <= j < i && LastWithIdIn(ps, j, i) ==> dealtAt[ps[j].socketId] == cursors[j])
  }

  /** Recording the start of player `i` under its socket id. */
  lemma RecordDeal<P>(ps: seq<Player>, i: nat, cursors: seq<nat>, started: map<string, Grid>,
                      dealt: map<string, P>, dealtAt: map<string, nat>, piece: P)
    requires i < |ps| == |cursors| && DealsRecorded(ps, i, cursors, started, dealt, dealtAt)
    ensures DealsRecorded(ps, i + 1, cursors, started[ps[i].socketId := CreateEmptyGrid()],
      dealt[ps[i].socketId := piece], dealtAt[ps[i].socketId := cursors[i]])
  {
    var d := dealtAt[ps[i].socketId := cursors[i]];
    assert SocketIds(ps)[i] == ps[i].socketId;
    forall j | 0 <= j < i + 1 && LastWithIdIn(ps, j, i + 1)
      ensures d[ps[j].socketId] == cursors[j]
    {
      if j < i {
        assert LastWithIdIn(ps, j, i) && ps[j].socketId != ps[i].socketId;
      }
    }
  }

  /** Every piece recorded in `dealt` is a copy of the entry of `queue` that `dealtAt` records for its id. */
  ghost predicate PiecesCopied(queue: seq<Template>, dealt: map<string, Piece>, dealtAt: map<string, nat>)
    reads dealt.Values, set p | p in dealt.Values :: p.position
  {
    forall id :: id in dealt ==> id in dealtAt && dealtAt[id] < |queue| && DealtPiece(dealt[id], queue[dealtAt[id]])
  }

  /**
   * After startGame's loop has handled the first `i` players of `ps`, whose
   * cursors were `cursors`: their cursors are advanced and their intervals
   * run, the other players' cursors are untouched.
   */
  ghost predicate CursorsStarted(ps: seq<Player>, i: nat, cursors: seq<nat>)
    requires i <= |ps|
    reads ps
  {
    && |cursors| == |ps|
    && (forall j :: i <= j < |ps| ==> ps[j].currentPieceIndex == cursors[j])
    && (forall j :: 0 <= j < i ==> ps[j].currentPieceIndex == cursors[j] + 1)
    && (forall j :: 0 <= j < i ==> ps[j].updateInterval == Every(1000))
  }

  /** Recording a copy of queue entry `k` under `id` keeps every recorded piece a copy of its entry. */
  lemma CopiedStep(queue: seq<Template>, dealt: map<string, Piece>, dealtAt: map<string, nat>, id: string, piece: Piece, k: nat)
    requires PiecesCopied(queue, dealt, dealtAt) && k < |queue| && DealtPiece(piece, queue[k])
    ensures PiecesCopied(queue, dealt[id := piece], dealtAt[id := k])
  {
  }

  class Game {
    const roomName: string
    var players: seq<Player>
    var owner: Player?
    /** The shared queue of piece templates (Piece objects in the source, never changed once queued). */
    var pieceQueue: seq<Template>
    var grids: map<string, Grid>
    var currentPieces: map<string, Piece>
    var pendingPenalties: map<string, nat>
    /** How many times `onDelete(roomName)` has been called. */
    var deleteCalls: nat

    /** The state every operation keeps. */
    ghost predicate Valid()
      reads this`grids, this`currentPieces, this`pieceQueue, this`players, currentPieces.Values`shape
    {
      && (forall id :: id in grids ==> IsGrid(grids[id]))
      && currentPieces.Keys <= grids.Keys
      && (forall id :: id in currentPieces ==> currentPieces[id].Playable())
      && (forall t :: t in pieceQueue ==> t in Bag.Templates)
      && Distinct(players)
    }

    /** The falling piece of `id`, as a frame. */
    function PieceOf(id: string): set<Piece>
      reads this
    {
      if id in currentPieces then {currentPieces[id]} else {}
    }

    /** new Game(roomName, onDelete): an empty room. */
    constructor (roomName: string)
      ensures Valid()
      ensures this.roomName == roomName && players == [] && owner == null && pieceQueue == []
      ensures grids == map[] && currentPieces == map[] && pendingPenalties == map[] && deleteCalls == 0
    {
      this.roomName := roomName;
      players := [];
      owner := null;
      pieceQueue := [];
      grids := map[];
      currentPieces := map[];
      pendingPenalties := map[];
      deleteCalls := 0;
    }

    /**
     * addPlayer: append a new player; it becomes the owner when flagged or
     * when the room was empty (the previous owner keeps its own flag).
     */
    method AddPlayer(username: string, socketId: string, isOwner: bool)
      requires Valid()
      modifies this`players, this`owner
      ensures Valid()
      ensures |players| == |old(players)| + 1 && players[..|old(players)|] == old(players)
      ensures var p := players[|old(players)|];
        && fresh(p) && p.username == username && p.socketId == socketId
        && p.isOwner == (isOwner || old(players) == [])
        && owner == (if isOwner || old(players) == [] then p else old(owner))
        && p.currentPieceIndex == 0 && p.score == 0 && p.updateInterval == Stopped
    {
      var player := new Player(username, socketId);
      if isOwner || |players| == 0 {
        player.isOwner := true;
        owner := player;
      }
      players := players + [player];
    }

    /**
     * removePlayer: drop every player with the socket id, its grid and its
     * piece; pending penalties stay. onDelete fires exactly when nobody is left.
     */
    method RemovePlayer(socketId: string)
      requires Valid()
      modifies this`players, this`grids, this`currentPieces, this`deleteCalls
      ensures Valid()
      ensures players == WithoutSocket(old(players), socketId)
      ensures grids == old(grids) - {socketId} && currentPieces == old(currentPieces) - {socketId}
      ensures deleteCalls == old(deleteCalls) + (if players == [] then 1 else 0)
    {
      WithoutSocketDistinct(players, socketId);
      players := WithoutSocket(players, socketId);
      grids := grids - {socketId};
      currentPieces := currentPieces - {socketId};
      if |players| == 0 {
        deleteCalls := deleteCalls + 1;
      }
    }

    /** getRoomData: the room name, each player's name, id and flag in roster order, the owner's name. */
    method GetRoomData() returns (data: RoomData)
      requires owner != null
      ensures data.roomName == roomName && data.owner == owner.username
      ensures |data.players| == |players|
      ensures forall i :: 0 <= i < |players| ==>
        data.players[i] == PlayerInfo(players[i].username, players[i].socketId, players[i].isOwner)
    {
      var infos: seq<PlayerInfo> := [];
      for i := 0 to |players|
        invariant |infos| == i
        invariant forall j :: 0 <= j < i ==>
          infos[j] == PlayerInfo(players[j].username, players[j].socketId, players[j].isOwner)
      {
        infos := infos + [PlayerInfo(players[i].username, players[i].socketId, players[i].isOwner)];
      }
      data := RoomData(roomName, infos, owner.username);
    }

    /**
     * generatePieces(count): deal bags of the seven templates until the
     * queue holds `count` pieces; draw k of the call reads `oracle[k]`.
     */
    method GeneratePieces(count: int, oracle: seq<nat>)
      requires Valid()
      requires count - |pieceQueue| <= |oracle|
      modifies this`pieceQueue
      ensures Valid()
      ensures pieceQueue == old(pieceQueue) +
        Bag.Fill(Bag.Templates, if count > |old(pieceQueue)| then count - |old(pieceQueue)| else 0, oracle)
    {
      var n := if count > |pieceQueue| then count - |pieceQueue| else 0;
      Bag.TemplatesWellFormed();
      pieceQueue := Deal(pieceQueue, count, Bag.Templates, oracle);
      Bag.FillFromBag(Bag.Templates, n, oracle);
    }

    /**
     * getNextPiece: refill the queue when the player's cursor has reached
     * its end, then hand out a new piece copied from the template under the
     * cursor and advance the cursor.
     */
    method GetNextPiece(player: Player, oracle: seq<nat>) returns (piece: Piece)
      requires Valid()
      requires CanDeal(player.currentPieceIndex, pieceQueue, oracle)
      modifies this`pieceQueue, player`currentPieceIndex
      ensures Valid()
      ensures pieceQueue == old(pieceQueue) + Refill(old(player.currentPieceIndex), old(pieceQueue), oracle)
      ensures player.currentPieceIndex == old(player.currentPieceIndex) + 1
      ensures old(player.currentPieceIndex) < |pieceQueue|
      ensures var t := pieceQueue[old(player.currentPieceIndex)];
        && fresh(piece) && fresh(piece.position)
        && piece.shape == t.shape && piece.color == t.color
        && piece.position.x == t.position.x && piece.position.y == t.position.y
        && IsShape(piece.shape) && HasBlock(piece.shape)
    {
      RefillReachesCursor(player.currentPieceIndex, pieceQueue, oracle);
      if player.currentPieceIndex >= |pieceQueue| {
        GeneratePieces(QueueSize, oracle);
      }
      var template := pieceQueue[player.currentPieceIndex];
      Bag.TemplateIsPlayable(template);
      player.currentPieceIndex := player.currentPieceIndex + 1;
      piece := Piece.CreateFromTemplate(template);
    }

    /**
     * One player's turn in startGame's loop: a fresh empty grid, the next
     * piece from the queue as the current piece (not yet painted), and the
     * interval started at 1000 ms (startPlayerInterval).
     */
    method StartPlayer(player: Player, oracle: seq<nat>) returns (piece: Piece)
      requires Valid()
      requires CanDeal(player.currentPieceIndex, pieceQueue, oracle)
      modifies this`grids, this`currentPieces, this`pieceQueue, player`currentPieceIndex, player`updateInterval
      ensures Valid()
      ensures grids == old(grids)[player.socketId := CreateEmptyGrid()]
      ensures currentPieces == old(currentPieces)[player.socketId := piece]
      ensures fresh(piece) && fresh(piece.position)
      ensures DealtFrom(player, piece, old(player.currentPieceIndex), old(pieceQueue), oracle)
      ensures player.updateInterval == Every(1000)
    {
      var id := player.socketId;
      grids := grids[id := CreateEmptyGrid()];
      piece := GetNextPiece(player, oracle);
      currentPieces := currentPieces[id := piece];
      player.updateInterval := Every(1000);
    }

    /** StartPlayer for player `i` of the roster; the other players and the pieces already dealt are left as they are. */
    method StartAt(i: nat, ghost cursors: seq<nat>, ghost queue: seq<Template>, ghost dealt: map<string, Piece>,
                   ghost dealtAt: map<string, nat>, oracle: seq<nat>) returns (piece: Piece)
      requires Valid() && i < |players| && CursorsStarted(players, i, cursors)
      requires CanDeal(players[i].currentPieceIndex, pieceQueue, oracle)
      requires PiecesCopied(queue, dealt, dealtAt)
      modifies this`grids, this`currentPieces, this`pieceQueue, players`currentPieceIndex, players`updateInterval
      ensures Valid() && CursorsStarted(players, i + 1, cursors) && PiecesCopied(queue, dealt, dealtAt)
      ensures grids == old(grids)[players[i].socketId := CreateEmptyGrid()]
      ensures currentPieces == old(currentPieces)[players[i].socketId := piece]
      ensures fresh(piece) && fresh(piece.position)
      ensures DealtFrom(players[i], piece, old(players[i].currentPieceIndex), old(pieceQueue), oracle)
    {
      var player := players[i];
      ghost var before := players;
      piece := StartPlayer(player, oracle);
      forall j | 0 <= j < |players| && j != i
        ensures players[j].currentPieceIndex == old(players[j].currentPieceIndex)
        ensures players[j].updateInterval == old(players[j].updateInterval)
      {
        assert before[j] != before[i];
      }
    }

    /**
     * What startGame's loop has done after `i` players: the queue is as it
     * was filled, the first `i` cursors have moved on, and the grids and the
     * pieces are the ones before the loop overlaid with those recorded.
     */
    ghost predicate Starting(i: nat, queue: seq<Template>, cursors: seq<nat>, grids0: map<string, Grid>,
                             pieces0: map<string, Piece>, started: map<string, Grid>, dealt: map<string, Piece>,
                             dealtAt: map<string, nat>)
      reads this, players, currentPieces.Values, dealt.Values, set p | p in dealt.Values :: p.position
    {
      && i <= |players| && Valid() && pieceQueue == queue && CursorsStarted(players, i, cursors)
      && (forall j :: 0 <= j < |cursors| ==> cursors[j] < |queue|)
      && grids == grids0 + started && currentPieces == pieces0 + dealt
      && DealsRecorded(players, i, cursors, started, dealt, dealtAt) && PiecesCopied(queue, dealt, dealtAt)
    }

    /** Once the loop has run over the whole roster, its record says what startGame promises. */
    lemma StartingDone(queue: seq<Template>, cursors: seq<nat>, grids0: map<string, Grid>, pieces0: map<string, Piece>,
                       started: map<string, Grid>, dealt: map<string, Piece>, dealtAt: map<string, nat>)
      requires Starting(|players|, queue, cursors, grids0, pieces0, started, dealt, dealtAt)
      ensures forall j :: 0 <= j < |players| ==>
        && players[j].socketId in grids && grids[players[j].socketId] == CreateEmptyGrid()
        && players[j].currentPieceIndex == cursors[j] + 1
        && players[j].updateInterval == Every(1000)
      ensures forall j :: 0 <= j < |players| && LastWithId(players, j) ==>
        && players[j].socketId in currentPieces && cursors[j] < |queue|
        && DealtPiece(currentPieces[players[j].socketId], queue[cursors[j]])
      ensures forall id :: id !in SocketIds(players) ==>
        && (id in grids <==> id in grids0) && (id in grids ==> grids[id] == grids0[id])
        && (id in currentPieces <==> id in pieces0)
        && (id in currentPieces ==> currentPieces[id] == pieces0[id])
    {
      forall j | 0 <= j < |players|
        ensures players[j].socketId in SocketIds(players)
      {
        assert SocketIds(players)[j] == players[j].socketId;
      }
      forall j | 0 <= j < |players| && LastWithId(players, j)
        ensures DealtPiece(currentPieces[players[j].socketId], queue[cursors[j]])
      {
        assert currentPieces[players[j].socketId] == dealt[players[j].socketId];
      }
    }

    /**
     * One iteration of startGame's loop, for player `i`: StartPlayer, with
     * the loop's record of what it has done so far carried along.
     */
    method StartNext(i: nat, ghost queue: seq<Template>, ghost cursors: seq<nat>, ghost grids0: map<string, Grid>,
                     ghost pieces0: map<string, Piece>, ghost started: map<string, Grid>, ghost dealt: map<string, Piece>,
                     ghost dealtAt: map<string, nat>, oracle: seq<nat>)
      returns (ghost started': map<string, Grid>, ghost dealt': map<string, Piece>, ghost dealtAt': map<string, nat>)
      requires i < |players| && Starting(i, queue, cursors, grids0, pieces0, started, dealt, dealtAt)
      modifies this`grids, this`currentPieces, this`pieceQueue, players`currentPieceIndex, players`updateInterval
      ensures Starting(i + 1, queue, cursors, grids0, pieces0, started', dealt', dealtAt')
    {
      var player := players[i];
      var piece := StartAt(i, cursors, queue, dealt, dealtAt, oracle);
      OverlayStep(grids0, started, player.socketId, CreateEmptyGrid());
      OverlayStep(pieces0, dealt, player.socketId, piece);
      RecordDeal(players, i, cursors, started, dealt, dealtAt, piece);
      started', dealt' := started[player.socketId := CreateEmptyGrid()], dealt[player.socketId := piece];
      dealtAt' := dealtAt[player.socketId := cursors[i]];
      CopiedStep(queue, dealt, dealtAt, player.socketId, piece, cursors[i]);
    }

    /**
     * startGame's loop: give every player of the roster, in order, an empty
     * grid, its first piece and a running interval. The cursors must lie
     * inside the queue. When two players share a socket id, the later one's
     * piece is kept.
     */
    method StartAll(oracle: seq<nat>)
      requires Valid()
      requires forall i :: 0 <= i < |players| ==> players[i].currentPieceIndex < |pieceQueue|
      modifies this`grids, this`currentPieces, this`pieceQueue, players`currentPieceIndex, players`updateInterval
      ensures Valid() && pieceQueue == old(pieceQueue)
      ensures forall i :: 0 <= i < |players| ==>
        && players[i].socketId in grids && grids[players[i].socketId] == CreateEmptyGrid()
        && players[i].currentPieceIndex == old(players[i].currentPieceIndex) + 1
        && players[i].updateInterval == Every(1000)
      ensures forall i :: 0 <= i < |players| && LastWithId(players, i) ==>
        && players[i].socketId in currentPieces
        && DealtPiece(currentPieces[players[i].socketId], pieceQueue[old(players[i].currentPieceIndex)])
      ensures forall id :: id !in SocketIds(players) ==>
        && (id in grids <==> id in old(grids)) && (id in grids ==> grids[id] == old(grids)[id])
        && (id in currentPieces <==> id in old(currentPieces))
        && (id in currentPieces ==> currentPieces[id] == old(currentPieces)[id])
    {
      ghost var queue, grids0, pieces0 := pieceQueue, grids, currentPieces;
      ghost var ps := players;
      ghost var cursors := seq(|ps|, j requires 0 <= j < |ps| reads ps => ps[j].currentPieceIndex);
      ghost var started: map<string, Grid>, dealt: map<string, Piece>, dealtAt: map<string, nat> := map[], map[], map[];
      assert grids0 + started == grids0 && pieces0 + dealt == pieces0;
      for i := 0 to |players|
        invariant Starting(i, queue, cursors, grids0, pieces0, started, dealt, dealtAt)
        invariant forall j :: 0 <= j < |players| ==> cursors[j] == old(players[j].currentPieceIndex)
      {
        started, dealt, dealtAt := StartNext(i, queue, cursors, grids0, pieces0, started, dealt, dealtAt, oracle);
      }
      StartingDone(queue, cursors, grids0, pieces0, started, dealt, dealtAt);
    }

    /**
     * startGame: fill the queue to 1000 pieces, then start every player of
     * the roster (StartAll). A player whose cursor is not inside the filled
     * queue would make the source read past its end, so the cursors must lie
     * inside it.
     */
    method StartGame(oracle: seq<nat>)
      requires Valid()
      requires QueueSize - |pieceQueue| <= |oracle|
      requires forall i :: 0 <= i < |players| ==>
        players[i].currentPieceIndex < |pieceQueue| || players[i].currentPieceIndex < QueueSize
      modifies this`grids, this`currentPieces, this`pieceQueue, players`currentPieceIndex, players`updateInterval
      ensures Valid()
      ensures pieceQueue == old(pieceQueue) +
        Bag.Fill(Bag.Templates, if QueueSize > |old(pieceQueue)| then QueueSize - |old(pieceQueue)| else 0, oracle)
      ensures forall i :: 0 <= i < |players| ==>
        && players[i].socketId in grids && grids[players[i].socketId] == CreateEmptyGrid()
        && players[i].currentPieceIndex == old(players[i].currentPieceIndex) + 1
        && players[i].updateInterval == Every(1000)
      ensures forall i :: 0 <= i < |players| && LastWithId(players, i) ==>
        && players[i].socketId in currentPieces
        && DealtPiece(currentPieces[players[i].socketId], pieceQueue[old(players[i].currentPieceIndex)])
      ensures forall id :: id !in SocketIds(players) ==>
        && (id in grids <==> id in old(grids)) && (id in grids ==> grids[id] == old(grids)[id])
        && (id in currentPieces <==> id in old(currentPieces))
        && (id in currentPieces ==> currentPieces[id] == old(currentPieces)[id])
    {
      GeneratePieces(QueueSize, oracle);
      StartAll(oracle);
    }

    /** checkSommet: the spectrum of a player's grid, which the source emits to the room. */
    method CheckSommet(socketId: string) returns (spectrum: Grid)
      requires Valid() && socketId in grids
      ensures spectrum == Spectrum.Spectrum(grids[socketId])
    {
      spectrum := Spectrum.Spectrum(grids[socketId]);
    }

    /** The player `players.find` returns for a socket id, as a frame. */
    function PlayerOf(socketId: string): set<Player>
      reads this
    {
      var i := SocketIndex(players, socketId);
      if i < 0 then {} else {players[i]}
    }

    /**
     * updateGrid: lift the piece off the grid at its position, paint it at
     * `newPosition`, and make `newPosition` the piece's own position object.
     */
    method UpdateGrid(id: string, piece: Piece, newPosition: Position)
      requires Valid() && id in grids
      modifies this`grids, piece`position
      ensures Valid()
      ensures grids == old(grids)[id := Stamp(Erase(old(grids[id]), piece.shape, old(piece.position.x), old(piece.position.y)),
                                               piece.shape, piece.color, newPosition.x, newPosition.y)]
      ensures piece.position == newPosition
    {
      var lifted := Drawing.ErasePiece(grids[id], piece.shape, piece.position.x, piece.position.y);
      var drawn := Drawing.DrawPiece(lifted, piece.shape, piece.color, newPosition.x, newPosition.y);
      grids := grids[id := drawn];
      piece.position := newPosition;
    }

    /**
     * rotate: lift the piece, turn its shape, keep the turned shape only if
     * it passes the (down) check at the unchanged position on the lifted
     * grid, and paint the piece again. Without a piece nothing happens.
     */
    method Rotate(socketId: string, clockwise: bool)
      requires Valid()
      modifies this`grids, PieceOf(socketId)`shape
      ensures Valid()
      ensures socketId !in currentPieces ==> grids == old(grids)
      ensures socketId in currentPieces ==>
        var p := currentPieces[socketId];
        var x, y := p.position.x, p.position.y;
        var lifted := Erase(old(grids[socketId]), old(p.shape), x, y);
        var turned := Rotation.RotateMatrix(old(p.shape), clockwise);
        && p.shape == (if IsValidPlacement(lifted, turned, x, y, Down) then turned else old(p.shape))
        && grids == old(grids)[socketId := Stamp(lifted, p.shape, p.color, x, y)]
    {
      if socketId !in currentPieces {
        return;
      }
      var piece := currentPieces[socketId];
      var x, y, shape := piece.position.x, piece.position.y, piece.shape;
      var lifted := Drawing.ErasePiece(grids[socketId], shape, x, y);
      var turned := Rotation.RotateMatrix(shape, clockwise);
      Rotation.RotateKeepsBlock(shape, clockwise);
      var newShape := shape;
      if IsValidPlacement(lifted, turned, x, y, Down) {
        piece.shape, newShape := turned, turned;
      }
      var drawn := Drawing.DrawPiece(lifted, newShape, piece.color, x, y);
      grids := grids[socketId := drawn];
      assert currentPieces[socketId] == piece && piece.shape == newShape;
      assert piece.position.x == x && piece.position.y == y;
      assert drawn == Stamp(lifted, newShape, piece.color, x, y);
      assert IsGrid(drawn);
      forall id | id in currentPieces ensures currentPieces[id].Playable() {
        if currentPieces[id] == piece {
          assert IsShape(newShape) && HasBlock(newShape);
        }
      }
    }

    /**
     * movePlayerPieceLeft / movePlayerPieceRight: nothing happens unless a
     * player has the socket id; then the piece moves one column when the
     * leading-edge check for that direction passes, and otherwise stays.
     * The source crashes when that player has no piece.
     */
    method MovePiece(socketId: string, left: bool)
      requires Valid()
      requires SocketIndex(players, socketId) >= 0 ==> socketId in currentPieces
      modifies this`grids, PieceOf(socketId)`position
      ensures Valid()
      ensures SocketIndex(players, socketId) < 0 ==>
        && grids == old(grids)
        && (socketId in currentPieces ==> currentPieces[socketId].position == old(currentPieces[socketId].position))
      ensures SocketIndex(players, socketId) >= 0 ==>
        var p := currentPieces[socketId];
        var g := old(grids[socketId]);
        var x, y := old(p.position.x), old(p.position.y);
        var nx := if left then x - 1 else x + 1;
        if IsValidPlacement(g, p.shape, nx, y, if left then Left else Right) then
          && fresh(p.position) && p.position.x == nx && p.position.y == y
          && grids == old(grids)[socketId := Stamp(Erase(g, p.shape, x, y), p.shape, p.color, nx, y)]
        else
          p.position == old(p.position) && grids == old(grids)
    {
      var player := FindBySocket(players, socketId);
      if player == null {
        return;
      }
      var piece := currentPieces[socketId];
      var nx := if left then piece.position.x - 1 else piece.position.x + 1;
      var newPosition := new Position(nx, piece.position.y);
      if IsValidPlacement(grids[socketId], piece.shape, nx, newPosition.y, if left then Left else Right) {
        UpdateGrid(socketId, piece, newPosition);
      }
    }

    /**
     * sendPenaltyLines: for k > 0, every roster entry whose socket id is not
     * the clearer's gets k more pending lines, in roster order; otherwise
     * nothing happens.
     */
    method SendPenaltyLines(clearing: Player, penaltyLines: int)
      modifies this`pendingPenalties
      ensures pendingPenalties == if penaltyLines <= 0 then old(pendingPenalties)
        else Penalty.Queued(old(pendingPenalties), SocketIds(players), clearing.socketId, penaltyLines)
    {
      if penaltyLines <= 0 {
        return;
      }
      var ids := SocketIds(players);
      for i := 0 to |players|
        invariant pendingPenalties == Penalty.Queued(old(pendingPenalties), ids[..i], clearing.socketId, penaltyLines)
      {
        assert ids[..i + 1][..i] == ids[..i];
        var player := players[i];
        if player.socketId != clearing.socketId {
          var current := Penalty.Get(pendingPenalties, player.socketId);
          pendingPenalties := pendingPenalties[player.socketId := current + penaltyLines];
        }
      }
      assert ids[..|players|] == ids;
    }

    /**
     * applyPendingPenalties: a player with p > 0 pending lines gets p
     * penalty rows pushed in from the bottom and its count reset to 0;
     * otherwise nothing happens.
     */
    method ApplyPendingPenalties(socketId: string)
      requires Valid() && socketId in grids
      modifies this`grids, this`pendingPenalties
      ensures Valid()
      ensures var n := Penalty.Get(old(pendingPenalties), socketId);
        if n > 0 then
          && grids == old(grids)[socketId := Penalty.WithPenaltyRows(old(grids[socketId]), n)]
          && pendingPenalties == old(pendingPenalties)[socketId := 0]
        else
          grids == old(grids) && pendingPenalties == old(pendingPenalties)
    {
      var penalties := Penalty.Get(pendingPenalties, socketId);
      if penalties > 0 {
        Penalty.PenaltyRowsLayout(grids[socketId], penalties);
        var g := Penalty.AddPenaltyLines(grids[socketId], penalties);
        grids := grids[socketId := g];
        pendingPenalties := pendingPenalties[socketId := 0];
      }
    }

    /** The grid part of clearFullLines: the full rows of the grid stored under `id` are cleared and counted. */
    method ClearGrid(id: string) returns (linesCleared: nat)
      requires Valid() && id in grids
      modifies this`grids
      ensures Valid()
      ensures linesCleared == LineClear.FullCount(old(grids[id]))
      ensures grids == old(grids)[id := LineClear.ClearLines(old(grids[id]))]
    {
      var cleared;
      LineClear.ClearKeepsGrid(grids[id]);
      cleared, linesCleared := LineClear.ClearRows(grids[id]);
      grids := grids[id := cleared];
    }

    /**
     * clearFullLines: clear the full rows of the player's grid, set the
     * drop delay (150 ms after a clear, else 0), score the clear, and send
     * one penalty line fewer than the rows cleared to the others.
     */
    method ClearFullLines(player: Player) returns (linesCleared: nat)
      requires Valid() && player.socketId in grids
      modifies this`grids, this`pendingPenalties, player`dropInterval, player`score
      ensures Valid()
      ensures var g := old(grids[player.socketId]);
        && linesCleared == LineClear.FullCount(g)
        && grids == old(grids)[player.socketId := LineClear.ClearLines(g)]
      ensures player.dropInterval == if linesCleared > 0 then 150 else 0
      ensures player.score == old(player.score) + LineClear.Points(linesCleared)
      ensures pendingPenalties == PendingAfterClear(old(pendingPenalties), SocketIds(players), player.socketId, linesCleared)
    {
      player.dropInterval := 0;
      linesCleared := ClearGrid(player.socketId);
      if linesCleared > 0 {
        player.dropInterval := 150;
      }
      if linesCleared > 0 {
        player.score := player.score + 100 * linesCleared;
        if linesCleared == 4 {
          player.score := player.score + 400;
        }
        if linesCleared > 1 {
          SendPenaltyLines(player, linesCleared - 1);
        }
      }
    }

    /**
     * The top-out branch of handlePieceLanding and of dropPiece's timeout:
     * stop the player's timer and remove it; when exactly one player is then
     * left, stop that one's timer and remove it too.
     */
    method EndGameFor(player: Player)
      requires Valid()
      modifies this`players, this`grids, this`currentPieces, this`deleteCalls
      modifies player`updateInterval, players`updateInterval
      ensures Valid()
      ensures ToppedOut(player, old(players), old(grids) - {player.socketId}, old(currentPieces),
        old(pendingPenalties), old(deleteCalls))
      ensures var rest := WithoutSocket(old(players), player.socketId);
        && player.updateInterval == Stopped
        && (|rest| == 1 ==> rest[0].updateInterval == Stopped)
        && (forall p :: p in old(players) && p != player && (|rest| != 1 || p != rest[0]) ==>
              p.updateInterval == old(p.updateInterval))
    {
      var id := player.socketId;
      ghost var others, pieces := old(grids) - {id}, old(currentPieces);
      player.updateInterval := Stopped;
      RemovePlayer(id);
      WithoutSocketTwice(old(players), id);
      var remaining := WithoutSocket(players, id);
      if |remaining| == 1 {
        var last := remaining[0];
        last.updateInterval := Stopped;
        RemovePlayer(last.socketId);
        assert remaining[1..] == [];
        var gone := {id} + {last.socketId};
        MinusAgain(old(grids), {id}, {last.socketId});
        MinusAgain(old(currentPieces), {id}, {last.socketId});
        assert grids == others - gone && currentPieces == pieces - gone;
      } else {
        var gone := {id} + {};
        MinusAgain(old(grids), {id}, {});
        MinusAgain(old(currentPieces), {id}, {});
        assert grids == others - gone && currentPieces == pieces - gone;
      }
    }

    /**
     * The other branch: apply the pending penalties, make `piece` the
     * player's falling piece and paint it where it spawned.
     */
    method PlacePiece(player: Player, piece: Piece)
      requires Valid() && player.socketId in grids && IsShape(piece.shape) && HasBlock(piece.shape)
      modifies this`grids, this`pendingPenalties, this`currentPieces, piece`position
      ensures Valid()
      ensures var id := player.socketId;
        var n := Penalty.Get(old(pendingPenalties), id);
        && piece.position == old(piece.position)
        && grids == old(grids)[id := Stamp(Penalty.WithPenaltyRows(old(grids[id]), n),
                                           piece.shape, piece.color, piece.position.x, piece.position.y)]
        && pendingPenalties == (if n > 0 then old(pendingPenalties)[id := 0] else old(pendingPenalties))
        && currentPieces == old(currentPieces)[id := piece]
    {
      var id := player.socketId;
      ApplyPendingPenalties(id);
      currentPieces := currentPieces[id := piece];
      ghost var g := grids[id];
      UpdateGrid(id, piece, piece.position);
      RedrawInPlace(g, piece.shape, piece.color, piece.position.x, piece.position.y);
    }

    /**
     * getNextPiece dealt `piece` to `player`, whose cursor stood at `cursor`
     * in the queue `queue`: the queue was refilled if needed, the cursor
     * advanced, and the piece copies the template under the old cursor.
     */
    predicate DealtFrom(player: Player, piece: Piece, cursor: nat, queue: seq<Template>, oracle: seq<nat>)
      reads this`pieceQueue, player`currentPieceIndex, piece`shape, piece`position, piece.position
    {
      && CanDeal(cursor, queue, oracle)
      && pieceQueue == queue + Refill(cursor, queue, oracle)
      && player.currentPieceIndex == cursor + 1
      && cursor < |pieceQueue|
      && var t := pieceQueue[cursor];
        && piece.shape == t.shape && piece.color == t.color
        && piece.position.x == t.position.x && piece.position.y == t.position.y
    }

    /**
     * The piece was placed: the roster and the onDelete count are as before
     * (`roster`, `deletes`), the player's grid is `g` with its pending
     * penalty rows pushed in and the piece painted where it spawned, the
     * other grids are `others`, its pending count is reset, and the piece
     * is the player's falling piece among the pieces `pieces`.
     */
    predicate Placed(player: Player, piece: Piece, g: Grid, roster: seq<Player>,
                     others: map<string, Grid>, pieces: map<string, Piece>, pending: map<string, nat>, deletes: nat)
      reads this`players, this`grids, this`currentPieces, this`pendingPenalties, this`deleteCalls
      reads piece`shape, piece`position, piece.position
    {
      var id := player.socketId;
      var n := Penalty.Get(pending, id);
      && players == roster && deleteCalls == deletes
      && grids == others[id := Stamp(Penalty.WithPenaltyRows(g, n),
                                     piece.shape, piece.color, piece.position.x, piece.position.y)]
      && pendingPenalties == (if n > 0 then pending[id := 0] else pending)
      && currentPieces == pieces[id := piece]
    }

    /**
     * The player topped out: it left the roster `roster`, and so did the
     * only other player when exactly one was left; their grids and pieces
     * are gone, the pending counts are as before, and onDelete was called
     * once if the room emptied.
     */
    predicate ToppedOut(player: Player, roster: seq<Player>,
                        others: map<string, Grid>, pieces: map<string, Piece>, pending: map<string, nat>, deletes: nat)
      reads this`players, this`grids, this`currentPieces, this`pendingPenalties, this`deleteCalls
    {
      var id := player.socketId;
      var rest := WithoutSocket(roster, id);
      var gone := {id} + (if |rest| == 1 then {rest[0].socketId} else {});
      && players == (if |rest| == 1 then [] else rest)
      && grids == others - gone && currentPieces == pieces - gone
      && pendingPenalties == pending
      && deleteCalls == deletes + (if |rest| <= 1 then 1 else 0)
    }

    /**
     * How dealing `piece` to `player` on the grid `g` left the room: placed
     * if it fits where it spawns, topped out otherwise.
     */
    predicate Spawned(player: Player, piece: Piece, placed: bool, g: Grid, roster: seq<Player>,
                      others: map<string, Grid>, pieces: map<string, Piece>, pending: map<string, nat>, deletes: nat)
      reads this`players, this`grids, this`currentPieces, this`pendingPenalties, this`deleteCalls
      reads piece`shape, piece`position, piece.position
    {
      && |g| > 0 && IsShape(piece.shape)
      && placed == IsValidPlacement(g, piece.shape, piece.position.x, piece.position.y, Down)
      && (placed ==> Placed(player, piece, g, roster, others, pieces, pending, deletes))
      && (!placed ==> ToppedOut(player, roster, others, pieces, pending, deletes))
    }

    /**
     * The timers of `player` and of the roster `roster` it was dealt in:
     * unchanged when the piece was placed; otherwise the removed players'
     * are stopped and the others unchanged.
     */
    twostate predicate TimersAfterSpawn(player: Player, placed: bool, roster: seq<Player>)
      reads player, roster
    {
      var rest := WithoutSocket(roster, player.socketId);
      && (placed ==>
            && player.updateInterval == old(player.updateInterval)
            && forall p :: p in roster ==> p.updateInterval == old(p.updateInterval))
      && (!placed ==>
            && player.updateInterval == Stopped
            && (|rest| == 1 ==> rest[0].updateInterval == Stopped)
            && forall p :: p in roster && p != player && (|rest| != 1 || p != rest[0]) ==>
                 p.updateInterval == old(p.updateInterval))
    }

    /**
     * The common tail of handlePieceLanding and dropPiece's timeout: deal
     * the next piece and either place it or end the game for the player.
     */
    method SpawnNext(player: Player, oracle: seq<nat>) returns (piece: Piece, placed: bool)
      requires Valid() && player.socketId in grids
      requires CanDeal(player.currentPieceIndex, pieceQueue, oracle)
      modifies this`players, this`grids, this`currentPieces, this`pendingPenalties, this`deleteCalls, this`pieceQueue
      modifies player`currentPieceIndex, player`updateInterval, players`updateInterval
      ensures Valid()
      ensures fresh(piece) && fresh(piece.position)
      ensures DealtFrom(player, piece, old(player.currentPieceIndex), old(pieceQueue), oracle)
      ensures Spawned(player, piece, placed, old(grids[player.socketId]), old(players),
        old(grids) - {player.socketId}, old(currentPieces), old(pendingPenalties), old(deleteCalls))
      ensures TimersAfterSpawn(player, placed, old(players))
    {
      var id := player.socketId;
      piece := GetNextPiece(player, oracle);
      placed := IsValidPlacement(grids[id], piece.shape, piece.position.x, piece.position.y, Down);
      if !placed {
        EndGameFor(player);
      } else {
        PlacePiece(player, piece);
      }
    }

    /**
     * handlePieceLanding: clear the player's full rows, compute its
     * spectrum, then deal it the next piece on the cleared grid.
     */
    method HandlePieceLanding(player: Player, oracle: seq<nat>)
      returns (linesCleared: nat, spectrum: Grid, piece: Piece, placed: bool)
      requires Valid() && player.socketId in grids
      requires CanDeal(player.currentPieceIndex, pieceQueue, oracle)
      modifies this`players, this`grids, this`currentPieces, this`pendingPenalties, this`deleteCalls, this`pieceQueue
      modifies player`currentPieceIndex, player`updateInterval, player`dropInterval, player`score, players`updateInterval
      ensures Valid()
      ensures var g := old(grids[player.socketId]);
        && IsGrid(g) && linesCleared == LineClear.FullCount(g)
        && spectrum == Spectrum.Spectrum(LineClear.ClearLines(g))
      ensures player.dropInterval == if linesCleared > 0 then 150 else 0
      ensures player.score == old(player.score) + LineClear.Points(linesCleared)
      ensures fresh(piece) && fresh(piece.position)
      ensures DealtFrom(player, piece, old(player.currentPieceIndex), old(pieceQueue), oracle)
      ensures Spawned(player, piece, placed, LineClear.ClearLines(old(grids[player.socketId])), old(players),
        old(grids) - {player.socketId}, old(currentPieces),
        PendingAfterClear(old(pendingPenalties), SocketIds(old(players)), player.socketId, linesCleared), old(deleteCalls))
      ensures TimersAfterSpawn(player, placed, old(players))
    {
      var id := player.socketId;
      linesCleared := ClearFullLines(player);
      spectrum := CheckSommet(id);
      assert grids - {id} == old(grids) - {id};
      piece, placed := SpawnNext(player, oracle);
    }

    /**
     * movePieceDownForPlayer, one tick of the player's interval: move the
     * falling piece one row down to a new position object when the down
     * check passes there, and otherwise let it land. The source crashes
     * when the player has no piece.
     */
    method MovePieceDown(player: Player, oracle: seq<nat>) returns (landed: bool, next: Piece?, placed: bool)
      requires Valid() && player.socketId in currentPieces
      requires var p := currentPieces[player.socketId];
        !IsValidPlacement(grids[player.socketId], p.shape, p.position.x, p.position.y + 1, Down) ==>
        CanDeal(player.currentPieceIndex, pieceQueue, oracle)
      modifies this`players, this`grids, this`currentPieces, this`pendingPenalties, this`deleteCalls, this`pieceQueue
      modifies player`currentPieceIndex, player`updateInterval, player`dropInterval, player`score, players`updateInterval
      modifies PieceOf(player.socketId)`position
      ensures Valid()
      ensures var id := player.socketId;
        var p := old(currentPieces[id]);
        var g := old(grids[id]);
        var x, y := old(p.position.x), old(p.position.y);
        && landed == !IsValidPlacement(g, p.shape, x, y + 1, Down)
        && (!landed ==>
              && fresh(p.position) && p.position.x == x && p.position.y == y + 1
              && grids == old(grids)[id := Stamp(Erase(g, p.shape, x, y), p.shape, p.color, x, y + 1)]
              && players == old(players) && currentPieces == old(currentPieces)
              && pendingPenalties == old(pendingPenalties) && pieceQueue == old(pieceQueue)
              && deleteCalls == old(deleteCalls) && player.currentPieceIndex == old(player.currentPieceIndex)
              && player.score == old(player.score) && player.dropInterval == old(player.dropInterval))
      ensures landed ==>
        var id := player.socketId;
        var p := old(currentPieces[id]);
        var g := old(grids[id]);
        var n := LineClear.FullCount(g);
        && p.position == old(p.position)
        && player.dropInterval == (if n > 0 then 150 else 0)
        && player.score == old(player.score) + LineClear.Points(n)
        && next != null && fresh(next) && fresh(next.position)
        && DealtFrom(player, next, old(player.currentPieceIndex), old(pieceQueue), oracle)
        && Spawned(player, next, placed, LineClear.ClearLines(g), old(players), old(grids) - {id}, old(currentPieces),
             PendingAfterClear(old(pendingPenalties), SocketIds(old(players)), id, n), old(deleteCalls))
        && TimersAfterSpawn(player, placed, old(players))
    {
      var id := player.socketId;
      var piece := currentPieces[id];
      var newPosition := new Position(piece.position.x, piece.position.y + 1);
      landed := !IsValidPlacement(grids[id], piece.shape, newPosition.x, newPosition.y, Down);
      if !landed {
        UpdateGrid(id, piece, newPosition);
        next, placed := null, false;
      } else {
        var linesCleared, spectrum, dealt;
        linesCleared, spectrum, dealt, placed := HandlePieceLanding(player, oracle);
        next := dealt;
      }
    }

    /**
     * dropPiece, up to its timeout: mark the player as dropped, stop its
     * interval and hard-drop its piece. The source crashes without such a
     * player or without a piece.
     */
    method DropPiece(socketId: string) returns (landingY: int, linesCleared: nat)
      requires Valid() && SocketIndex(players, socketId) >= 0 && socketId in currentPieces
      modifies PlayerOf(socketId)`dropped, PlayerOf(socketId)`updateInterval
      modifies PlayerOf(socketId)`dropInterval, PlayerOf(socketId)`score
      modifies this`grids, this`pendingPenalties, PieceOf(socketId)`position
      ensures Valid()
      ensures var pl, p := players[SocketIndex(players, socketId)], currentPieces[socketId];
        && pl.dropped && pl.updateInterval == Stopped
        && fresh(p.position) && p.position.x == old(p.position.x) && p.position.y == landingY
        && Dropped(socketId, p, old(p.position.y), linesCleared, old(grids), old(pendingPenalties))
        && pl.dropInterval == (if linesCleared > 0 then 150 else 0)
        && pl.score == old(pl.score) + LineClear.Points(linesCleared)
    {
      var player := FindBySocket(players, socketId);
      player.dropped := true;
      player.updateInterval := Stopped;
      landingY, linesCleared := HardDrop(player, currentPieces[socketId]);
    }

    /**
     * The room after the piece of `id`, at row `y` of the grid in `before`
     * and now at its position, was hard-dropped: it came to rest where the
     * down check stops it, it was lifted and painted there, the full rows
     * were cleared and the penalties for them queued on `pending`.
     */
    ghost predicate Dropped(id: string, piece: Piece, y: int, linesCleared: nat,
                            before: map<string, Grid>, pending: map<string, nat>)
      reads this`grids, this`pendingPenalties, this`players, piece`shape, piece`position, piece.position
    {
      && id in before && IsGrid(before[id]) && IsShape(piece.shape)
      && var g, x, landingY := before[id], piece.position.x, piece.position.y;
        var landed := Stamp(Erase(g, piece.shape, x, y), piece.shape, piece.color, x, landingY);
        && LandsAt(g, piece.shape, x, y, landingY)
        && IsGrid(landed) && linesCleared == LineClear.FullCount(landed)
        && grids == before[id := LineClear.ClearLines(landed)]
        && pendingPenalties == PendingAfterClear(pending, SocketIds(players), id, linesCleared)
    }

    /**
     * The hard drop of dropPiece: slide a copy of the piece's position down
     * while the down check on the player's grid passes one row lower, make
     * it the piece's position after redrawing the piece there, and clear
     * the full rows.
     */
    method HardDrop(player: Player, piece: Piece) returns (landingY: int, linesCleared: nat)
      requires Valid() && player.socketId in currentPieces && currentPieces[player.socketId] == piece
      modifies this`grids, this`pendingPenalties, piece`position, player`dropInterval, player`score
      ensures Valid()
      ensures fresh(piece.position) && piece.position.x == old(piece.position.x) && piece.position.y == landingY
      ensures Dropped(player.socketId, piece, old(piece.position.y), linesCleared, old(grids), old(pendingPenalties))
      ensures player.dropInterval == if linesCleared > 0 then 150 else 0
      ensures player.score == old(player.score) + LineClear.Points(linesCleared)
    {
      var id := player.socketId;
      var grid := grids[id];
      assert piece.Playable();
      var x, y := piece.position.x, piece.position.y;
      var newPosition := new Position(x, y);
      SlideDown(grid, piece.shape, newPosition);
      landingY := newPosition.y;
      assert LandsAt(grid, piece.shape, x, y, landingY);
      ghost var landed := Stamp(Erase(grid, piece.shape, x, y), piece.shape, piece.color, x, landingY);
      UpdateGrid(id, piece, newPosition);
      assert grids == old(grids)[id := landed];
      linesCleared := ClearFullLines(player);
      UpdateTwice(old(grids), id, landed, LineClear.ClearLines(landed));
      assert piece.position.x == x && piece.position.y == landingY;
      assert IsGrid(landed) && linesCleared == LineClear.FullCount(landed);
    }

    /**
     * The body of dropPiece's timeout, run on the player's grid: compute
     * the spectrum and deal the next piece; when it is placed, the player's
     * interval restarts at 1000 ms.
     */
    method FinishDrop(player: Player, oracle: seq<nat>) returns (spectrum: Grid, piece: Piece, placed: bool)
      requires Valid() && player.socketId in grids
      requires CanDeal(player.currentPieceIndex, pieceQueue, oracle)
      modifies this`players, this`grids, this`currentPieces, this`pendingPenalties, this`deleteCalls, this`pieceQueue
      modifies player`currentPieceIndex, player`updateInterval, players`updateInterval
      ensures Valid()
      ensures spectrum == Spectrum.Spectrum(old(grids[player.socketId]))
      ensures fresh(piece) && fresh(piece.position)
      ensures DealtFrom(player, piece, old(player.currentPieceIndex), old(pieceQueue), oracle)
      ensures Spawned(player, piece, placed, old(grids[player.socketId]), old(players),
        old(grids) - {player.socketId}, old(currentPieces), old(pendingPenalties), old(deleteCalls))
      ensures !placed ==> TimersAfterSpawn(player, false, old(players))
      ensures placed ==>
        && player.updateInterval == Every(1000)
        && forall p :: p in old(players) && p != player ==> p.updateInterval == old(p.updateInterval)
    {
      spectrum := CheckSommet(player.socketId);
      piece, placed := SpawnNext(player, oracle);
      if placed {
        player.updateInterval := Every(1000);
      }
    }

    /**
     * fall, the down key pressed: the player with the socket id, if any,
     * is marked as falling and its interval restarts at 70 ms.
     */
    method Fall(socketId: string)
      modifies PlayerOf(socketId)`fall, PlayerOf(socketId)`updateInterval
      ensures var i := SocketIndex(players, socketId);
        i >= 0 ==> players[i].fall && players[i].updateInterval == Every(70)
    {
      var player := FindBySocket(players, socketId);
      if player != null {
        player.fall := true;
        player.updateInterval := Every(70);
      }
    }

    /**
     * stopFall, the down key released: the player's interval restarts at
     * 1000 ms; the source sets the falling flag to true here as well.
     */
    method StopFall(socketId: string)
      modifies PlayerOf(socketId)`fall, PlayerOf(socketId)`updateInterval
      ensures var i := SocketIndex(players, socketId);
        i >= 0 ==> players[i].fall && players[i].updateInterval == Every(1000)
    {
      var player := FindBySocket(players, socketId);
      if player != null {
        player.fall := true;
        player.updateInterval := Every(1000);
      }
    }

    /**
     * handleDisconnect: stop every player's interval, then empty the piece
     * queue and the roster; it always reports the disconnection handled.
     * Grids, pieces and pending penalties are left as they are.
     */
    method HandleDisconnect(socketId: string) returns (handled: bool)
      requires Valid()
      modifies this`pieceQueue, this`players, players`updateInterval
      ensures Valid()
      ensures handled && players == [] && pieceQueue == []
      ensures forall p :: p in old(players) ==> p.updateInterval == Stopped
    {
      for i := 0 to |players|
        modifies players`updateInterval
        invariant forall j :: 0 <= j < i ==> players[j].updateInterval == Stopped
      {
        players[i].updateInterval := Stopped;
      }
      pieceQueue := [];
      players := [];
      handled := true;
    }
  }
}
