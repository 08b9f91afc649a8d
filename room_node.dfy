/**
 * The scene-tree room (scripts/Room.cs), a `Node2D` with the same player
 * table as the entity room but with a parameterless constructor too.
 */
module RoomNode {
  import opened Octets
  import opened ClientEntities
  import Roster

  class Room {
    var rommId: I32
    var roomName: string
    var players: map<I32, Player>

    /** `new Room(roomId, roomName)`. */
    constructor (roomId: I32, roomName: string)
      ensures rommId == roomId && this.roomName == roomName && players == map[]
    {
      rommId := roomId;
      this.roomName := roomName;
      players := map[];
    }

    /** `new Room()`: the initialisers, id -1 and an empty name. */
    constructor Default()
      ensures rommId == -1 && roomName == "" && players == map[]
    {
      rommId := -1;
      roomName := "";
      players := map[];
    }

    /** `Players[user.PlayerId] = user`. */
    method AddPlayer(user: Player)
      modifies this`players
      ensures players == Roster.Put(old(players), user.playerId, user)
    {
      players := players[user.playerId := user];
    }

    /** `Players.Remove(playerId)`. */
    method RemovePlayer(playerId: I32)
      modifies this`players
      ensures players == Roster.Drop(old(players), playerId)
    {
      players := players - {playerId};
    }
  }
}
