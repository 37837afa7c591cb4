/** The in-memory room registry of server/game.py: `create_room`, `join_room`
    and the generation of room codes. The random room code and the random answer
    are parameters. */
module Rooms {
  import opened Wrappers
  import opened Models
  import opened Game

  const RoomCodeAlphabet := "ABCDEFGHJKLMNPQRSTUVWXYZ23456789"
  const DefaultMaxRounds := 6

  /** Six characters of the room-code alphabet. */
  predicate IsRoomCode(s: string) {
    |s| == 6 && forall k :: 0 <= k < 6 ==> s[k] in RoomCodeAlphabet
  }

  /** `new_room_id`, given the six random choices as indices into the alphabet. */
  function NewRoomId(picks: seq<nat>): (rid: string)
    requires |picks| == 6 && forall k :: 0 <= k < 6 ==> picks[k] < |RoomCodeAlphabet|
    ensures IsRoomCode(rid)
    ensures ':' !in rid
  {
    seq(6, k requires 0 <= k < 6 => RoomCodeAlphabet[picks[k]])
  }

  /** The `max_rounds` a new room gets: the requested value when it lies in
      1..10, and otherwise (absent, too small or too large) the default 6; an
      out-of-range value is replaced, not clamped to the nearer bound. */
  function EffectiveMaxRounds(requested: Option<int>): (m: int)
    ensures 1 <= m <= 10
    ensures requested.Some? && 1 <= requested.value <= 10 ==> m == requested.value
    ensures !(requested.Some? && 1 <= requested.value <= 10) ==> m == DefaultMaxRounds
  {
    if requested.Some? && 1 <= requested.value <= 10 then requested.value else DefaultMaxRounds
  }

  datatype JoinError = RoomNotFound

  /** `ROOMS`: room codes mapped to rooms, each registered under its own code. */
  class Registry {
    var rooms: map<string, Room>

    ghost predicate Valid()
      reads this, rooms.Values
    {
      forall id :: id in rooms ==> rooms[id].roomId == id && rooms[id].Valid()
    }

    constructor ()
      ensures Valid() && rooms == map[]
    {
      rooms := map[];
    }

    /** `create_room`: a new room under code `rid` with the given answer and the
        effective round limit, holding the creator as a non-spectator. A room
        already registered under `rid` is replaced. */
    method CreateRoom(nickname: string, playerId: string, maxRounds: Option<int>, rid: string, answer: string)
      returns (room: Room)
      requires Valid()
      requires IsRoomCode(rid) && IsWord(answer)
      modifies this
      ensures Valid()
      ensures fresh(room) && rooms == old(rooms)[rid := room]
      ensures room.roomId == rid && room.answer == answer && room.maxRounds == EffectiveMaxRounds(maxRounds)
      ensures room.players == map[playerId := NewPlayer(playerId, nickname, false, true)]
      ensures room.joinOrder == [playerId] && !room.gameOver && room.winnerIds == []
    {
      var mr := EffectiveMaxRounds(maxRounds);
      room := new Room(rid, answer, mr);
      rooms := rooms[rid := room];
      room.AddPlayer(playerId, nickname, false, true);
    }

    /** `join_room`: an unknown code fails and changes nothing; otherwise the
        player is added to that room as `add_player` does, never as its creator. */
    method JoinRoom(roomId: string, nickname: string, playerId: string, spectate: bool)
      returns (r: Result<Room, JoinError>)
      requires Valid()
      modifies if roomId in rooms then {rooms[roomId]} else {}
      ensures Valid()
      ensures rooms == old(rooms)
      ensures roomId !in rooms ==> r == Err(RoomNotFound)
      ensures roomId in rooms ==>
                && r == Ok(rooms[roomId])
                && rooms[roomId].players == Admit(old(rooms[roomId].players), playerId, nickname, spectate, false)
                && rooms[roomId].joinOrder == (if playerId in old(rooms[roomId].players) then old(rooms[roomId].joinOrder)
                                               else old(rooms[roomId].joinOrder) + [playerId])
                && rooms[roomId].gameOver == old(rooms[roomId].gameOver)
                && rooms[roomId].winnerIds == old(rooms[roomId].winnerIds)
    {
      if roomId !in rooms {
        return Err(RoomNotFound);
      }
      var room := rooms[roomId];
      room.AddPlayer(playerId, nickname, spectate, false);
      r := Ok(room);
    }
  }
}
