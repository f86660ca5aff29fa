/**
 * The room slice of the web client's store (front/src/features/room/roomSlice.js):
 * what the client knows about the room it is in. The reducers assign the
 * store's fields in place; `Update` and `Clear` give the state each one
 * leaves, as values.
 */
module RoomSlice {

  /** One entry of the payload's player list, as the server sends it. */
  datatype PlayerEntry = PlayerEntry(name: string, socketId: string, isOwner: bool)

  /** The payload of updateRoomInfo. */
  datatype RoomPayload = RoomPayload(
    roomName: string, players: seq<PlayerEntry>, owner: string,
    ownerSocketId: string, currentUserSocketId: string)

  /** The slice's five fields. */
  datatype Room = Room(roomName: string, isOwner: bool, players: seq<PlayerEntry>, owner: string, ownerSocketId: string)

  /** The initial state: empty names, no players, not the owner. */
  const Initial: Room := Room("", false, [], "", "")

  /** The state updateRoomInfo leaves: the payload's fields, and ownership by socket id. */
  function Update(s: Room, p: RoomPayload): (r: Room)
    ensures r.roomName == p.roomName && r.players == p.players
    ensures r.owner == p.owner && r.ownerSocketId == p.ownerSocketId
    ensures r.isOwner <==> p.ownerSocketId == p.currentUserSocketId
  {
    Room(p.roomName, p.ownerSocketId == p.currentUserSocketId, p.players, p.owner, p.ownerSocketId)
  }

  /** The state clearRoomInfo leaves. */
  function Clear(s: Room): (r: Room)
    ensures r == Initial
  {
    Initial
  }

  /** updateRoomInfo replaces all five fields: the prior state does not matter. */
  lemma UpdateForgetsPriorState(s: Room, t: Room, p: RoomPayload)
    ensures Update(s, p) == Update(t, p)
  {
  }

  /** clearRoomInfo is idempotent. */
  lemma ClearIdempotent(s: Room)
    ensures Clear(Clear(s)) == Clear(s)
  {
  }

  /** Clearing after an update gives back the initial state. */
  lemma ClearUndoesUpdate(s: Room, p: RoomPayload)
    ensures Clear(Update(s, p)) == Initial
  {
  }

  /** The store holding the slice, updated in place by the reducers. */
  class RoomStore {
    var roomName: string
    var isOwner: bool
    var players: seq<PlayerEntry>
    var owner: string
    var ownerSocketId: string

    /** The store's fields as a value. */
    function State(): Room
      reads this
    {
      Room(roomName, isOwner, players, owner, ownerSocketId)
    }

    /** A store in the initial state. */
    constructor ()
      ensures State() == Initial
    {
      roomName, isOwner, players, owner, ownerSocketId := "", false, [], "", "";
    }

    /** updateRoomInfo, in place. */
    method UpdateRoomInfo(p: RoomPayload)
      modifies this
      ensures State() == Update(old(State()), p)
    {
      roomName := p.roomName;
      players := p.players;
      owner := p.owner;
      ownerSocketId := p.ownerSocketId;
      isOwner := p.ownerSocketId == p.currentUserSocketId;
    }

    /** clearRoomInfo, in place. */
    method ClearRoomInfo()
      modifies this
      ensures State() == Clear(old(State()))
    {
      roomName := "";
      isOwner := false;
      players := [];
      owner := "";
      ownerSocketId := "";
    }
  }
}
