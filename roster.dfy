/**
 * The player list of a Game (back/Game.js): the lookups by socket id and
 * by username (`players.find`) and the filter that removePlayer applies.
 * Both keys are fixed at construction, so these read no mutable state.
 */
module Roster {
  import opened Player

  /** No player object occurs twice. */
  predicate Distinct(ps: seq<Player>) {
    forall i, j :: 0 <= i < j < |ps| ==> ps[i] != ps[j]
  }

  /** The socket ids of the roster, in order. */
  function SocketIds(ps: seq<Player>): seq<string> {
    seq(|ps|, i requires 0 <= i < |ps| => ps[i].socketId)
  }

  /** `players.filter(p => p.socketId !== id)`. */
  function {:induction false} WithoutSocket(ps: seq<Player>, id: string): (rest: seq<Player>)
    ensures |rest| <= |ps|
    ensures forall i :: 0 <= i < |rest| ==> rest[i] in ps && rest[i].socketId != id
    ensures forall i :: 0 <= i < |ps| && ps[i].socketId != id ==> ps[i] in rest
  {
    if ps == [] then []
    else if ps[0].socketId == id then WithoutSocket(ps[1..], id)
    else [ps[0]] + WithoutSocket(ps[1..], id)
  }

  /** Filtering a roster without the id again changes nothing. */
  lemma {:induction false} WithoutSocketTwice(ps: seq<Player>, id: string)
    ensures WithoutSocket(WithoutSocket(ps, id), id) == WithoutSocket(ps, id)
  {
    if ps != [] {
      WithoutSocketTwice(ps[1..], id);
      if ps[0].socketId != id {
        assert ([ps[0]] + WithoutSocket(ps[1..], id))[1..] == WithoutSocket(ps[1..], id);
      }
    }
  }

  /** Filtering keeps players distinct. */
  lemma {:induction false} WithoutSocketDistinct(ps: seq<Player>, id: string)
    requires Distinct(ps)
    ensures Distinct(WithoutSocket(ps, id))
  {
    if ps != [] {
      assert Distinct(ps[1..]);
      WithoutSocketDistinct(ps[1..], id);
    }
  }

  /** The index `players.find` stops at for a socket id, or -1. */
  function {:induction false} SocketIndex(ps: seq<Player>, id: string): (i: int)
    ensures -1 <= i < |ps|
    ensures 0 <= i ==> ps[i].socketId == id && forall j :: 0 <= j < i ==> ps[j].socketId != id
    ensures i == -1 <==> forall j :: 0 <= j < |ps| ==> ps[j].socketId != id
  {
    if ps == [] then -1
    else if ps[0].socketId == id then 0
    else
      var k := SocketIndex(ps[1..], id);
      if k < 0 then -1 else k + 1
  }

  /** The index `players.find` stops at for a username, or -1. */
  function {:induction false} UsernameIndex(ps: seq<Player>, name: string): (i: int)
    ensures -1 <= i < |ps|
    ensures 0 <= i ==> ps[i].username == name && forall j :: 0 <= j < i ==> ps[j].username != name
    ensures i == -1 <==> forall j :: 0 <= j < |ps| ==> ps[j].username != name
  {
    if ps == [] then -1
    else if ps[0].username == name then 0
    else
      var k := UsernameIndex(ps[1..], name);
      if k < 0 then -1 else k + 1
  }

  /** `players.find(p => p.socketId === id)`: the first player with that socket id, or null. */
  method FindBySocket(ps: seq<Player>, id: string) returns (found: Player?)
    ensures found == if SocketIndex(ps, id) < 0 then null else ps[SocketIndex(ps, id)]
  {
    var i := 0;
    while i < |ps|
      invariant 0 <= i <= |ps|
      invariant forall j :: 0 <= j < i ==> ps[j].socketId != id
    {
      if ps[i].socketId == id {
        return ps[i];
      }
      i := i + 1;
    }
    return null;
  }

  /** Game.findPlayer: the first player with that username, or null (undefined in the source). */
  method FindPlayer(ps: seq<Player>, name: string) returns (found: Player?)
    ensures found == if UsernameIndex(ps, name) < 0 then null else ps[UsernameIndex(ps, name)]
  {
    var i := 0;
    while i < |ps|
      invariant 0 <= i <= |ps|
      invariant forall j :: 0 <= j < i ==> ps[j].username != name
    {
      if ps[i].username == name {
        return ps[i];
      }
      i := i + 1;
    }
    return null;
  }

  /** No player after index `i` and before `end` shares the socket id of player `i`. */
  predicate LastWithIdIn(ps: seq<Player>, i: nat, end: nat)
    requires i < |ps| && end <= |ps|
  {
    forall k :: i < k < end ==> ps[k].socketId != ps[i].socketId
  }

  /** Player `i` is the last one of the roster with its socket id: its entry of a map keyed by id is the one kept. */
  predicate LastWithId(ps: seq<Player>, i: nat)
    requires i < |ps|
  {
    LastWithIdIn(ps, i, |ps|)
  }
}
